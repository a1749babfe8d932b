/** The scene list the window derives from the manager's `_Scenes`: the sorted,
    duplicate-free set of names of the non-null handles, and the handle each
    name resolves to (the first one carrying it). */
module Scenes {
  import opened Entities
  import opened Names

  /** The handle is non-null and carries the name `n`. */
  predicate Named(h: Option<SceneAsset>, n: string) {
    h.Some? && h.value.name == n
  }

  /** Some non-null handle of `hs` carries the name `n`. */
  predicate HasName(hs: seq<Option<SceneAsset>>, n: string) {
    exists j :: 0 <= j < |hs| && Named(hs[j], n)
  }

  /** The handles are all non-null and carry pairwise different names. */
  predicate DistinctNonNull(hs: seq<Option<SceneAsset>>) {
    (forall j :: 0 <= j < |hs| ==> hs[j].Some?) &&
    (forall j, k :: 0 <= j < k < |hs| && hs[j].Some? && hs[k].Some? ==> hs[j].value.name != hs[k].value.name)
  }

  /** The SortedSet filled by adding, in list order, the name of every non-null handle. */
  function SortedNames(hs: seq<Option<SceneAsset>>): (r: seq<string>)
    ensures StrictlySorted(r)
    ensures forall n :: n in r <==> HasName(hs, n)
    decreases |hs|
  {
    if |hs| == 0 then []
    else
      var prev := SortedNames(hs[..|hs| - 1]);
      assert forall n :: HasName(hs, n) <==> HasName(hs[..|hs| - 1], n) || Named(hs[|hs| - 1], n) by {
        forall n ensures HasName(hs, n) <==> HasName(hs[..|hs| - 1], n) || Named(hs[|hs| - 1], n) {
          if HasName(hs, n) {
            var j :| 0 <= j < |hs| && Named(hs[j], n);
            if j < |hs| - 1 { assert Named(hs[..|hs| - 1][j], n); }
          }
          if HasName(hs[..|hs| - 1], n) {
            var j :| 0 <= j < |hs| - 1 && Named(hs[..|hs| - 1][j], n);
            assert Named(hs[j], n);
          }
        }
      }
      match hs[|hs| - 1]
      case None => prev
      case Some(h) => SortedInsert(prev, h.name)
  }

  /** The rebuilt set has exactly one name per handle iff no handle is null and
      no two handles share a name; otherwise it is shorter than the list. */
  lemma {:induction false} SortedNamesCount(hs: seq<Option<SceneAsset>>)
    ensures |SortedNames(hs)| <= |hs|
    ensures |SortedNames(hs)| == |hs| <==> DistinctNonNull(hs)
    decreases |hs|
  {
    if |hs| > 0 {
      var p := hs[..|hs| - 1];
      SortedNamesCount(p);
      DistinctNonNullSnoc(hs);
    }
  }

  /** A non-empty list is distinct and non-null iff its prefix is, and its last
      handle is non-null and carries a name no earlier handle carries. */
  lemma DistinctNonNullSnoc(hs: seq<Option<SceneAsset>>)
    requires |hs| > 0
    ensures DistinctNonNull(hs) <==>
      DistinctNonNull(hs[..|hs| - 1]) && hs[|hs| - 1].Some? &&
      !HasName(hs[..|hs| - 1], hs[|hs| - 1].value.name)
  {
    var p, last := hs[..|hs| - 1], hs[|hs| - 1];
    assert forall j :: 0 <= j < |p| ==> p[j] == hs[j];
    if DistinctNonNull(p) && last.Some? && !HasName(p, last.value.name) {
      forall j, k | 0 <= j < k < |hs| && hs[j].Some? && hs[k].Some?
        ensures hs[j].value.name != hs[k].value.name
      {
        if k == |hs| - 1 {
          assert !Named(p[j], last.value.name);
        } else {
          assert p[j] == hs[j] && p[k] == hs[k];
        }
      }
    }
    if DistinctNonNull(hs) {
      forall j | 0 <= j < |p| ensures !Named(p[j], last.value.name) {
        assert p[j] == hs[j];
      }
    }
  }

  /** The name-collecting loop of `DrawSearchSection`: the sorted set of the
      names of the non-null handles. */
  method CollectSceneNames(hs: seq<Option<SceneAsset>>) returns (names: seq<string>)
    ensures names == SortedNames(hs)
    ensures StrictlySorted(names)
    ensures forall n :: n in names <==> HasName(hs, n)
  {
    names := [];
    for i := 0 to |hs|
      invariant names == SortedNames(hs[..i])
    {
      assert hs[..i + 1][..i] == hs[..i];
      if hs[i].None? {
        continue;
      }
      names := SortedInsert(names, hs[i].value.name);
    }
    assert hs[..|hs|] == hs;
  }

  /** The first non-null handle carrying the name `n`, if any. */
  function FirstWithName(hs: seq<Option<SceneAsset>>, n: string): (r: Option<SceneAsset>)
    ensures r.None? <==> !HasName(hs, n)
    ensures r.Some? ==> r.value.name == n
    decreases |hs|
  {
    if |hs| == 0 then None
    else if Named(hs[0], n) then hs[0]
    else
      assert HasName(hs, n) <==> HasName(hs[1..], n) by {
        if HasName(hs, n) {
          var j :| 0 <= j < |hs| && Named(hs[j], n);
          assert Named(hs[1..][j - 1], n);
        }
        if HasName(hs[1..], n) {
          var j :| 0 <= j < |hs| - 1 && Named(hs[1..][j], n);
          assert Named(hs[j + 1], n);
        }
      }
      FirstWithName(hs[1..], n)
  }

  /** The handle found is the first with the name: it sits at some index j of
      the list, and no handle before j carries the name. */
  lemma {:induction false} FirstWithNameIsFirst(hs: seq<Option<SceneAsset>>, n: string)
    ensures FirstWithName(hs, n).Some? ==>
      exists j :: 0 <= j < |hs| && hs[j] == FirstWithName(hs, n) && forall k :: 0 <= k < j ==> !Named(hs[k], n)
    decreases |hs|
  {
    if |hs| > 0 && !Named(hs[0], n) && FirstWithName(hs, n).Some? {
      var r := FirstWithName(hs, n);
      FirstWithNameIsFirst(hs[1..], n);
      var j :| 0 <= j < |hs[1..]| && hs[1..][j] == r && forall k :: 0 <= k < j ==> !Named(hs[1..][k], n);
      assert hs[j + 1] == r;
      forall k | 0 <= k < j + 1 ensures !Named(hs[k], n) {
        if k > 0 { assert hs[k] == hs[1..][k - 1]; }
      }
    }
  }

  /** The `scenes` list: for each name in order, its first handle; a name that
      no handle carries contributes nothing. */
  function FirstMatches(names: seq<string>, hs: seq<Option<SceneAsset>>): (r: seq<SceneAsset>)
    ensures |r| <= |names|
    ensures forall k :: 0 <= k < |r| ==> r[k].name in names && Some(r[k]) == FirstWithName(hs, r[k].name)
    ensures forall n :: n in names && HasName(hs, n) ==> FirstWithName(hs, n).value in r
    decreases |names|
  {
    if |names| == 0 then []
    else
      var prev := FirstMatches(names[..|names| - 1], hs);
      assert forall n :: n in names[..|names| - 1] ==> n in names;
      assert forall n :: n in names ==> n in names[..|names| - 1] || n == names[|names| - 1];
      match FirstWithName(hs, names[|names| - 1])
      case None => prev
      case Some(h) => prev + [h]
  }

  /** For a sorted set of names, `scenes` follows the names' order, so it holds
      at most one entry per name. */
  lemma {:induction false} FirstMatchesSorted(names: seq<string>, hs: seq<Option<SceneAsset>>)
    requires StrictlySorted(names)
    ensures forall i, j :: 0 <= i < j < |FirstMatches(names, hs)| ==>
      Less(FirstMatches(names, hs)[i].name, FirstMatches(names, hs)[j].name)
    ensures forall i, j :: 0 <= i < j < |FirstMatches(names, hs)| ==>
      FirstMatches(names, hs)[i].name != FirstMatches(names, hs)[j].name
    decreases |names|
  {
    var r := FirstMatches(names, hs);
    if |names| > 0 {
      var p := names[..|names| - 1];
      var last := names[|names| - 1];
      assert StrictlySorted(p);
      FirstMatchesSorted(p, hs);
      var q := FirstMatches(p, hs);
      forall k | 0 <= k < |q| ensures Less(q[k].name, last) {
        var i :| 0 <= i < |p| && p[i] == q[k].name;
        assert names[i] == q[k].name;
      }
      forall i, j | 0 <= i < j < |r| ensures Less(r[i].name, r[j].name) {
        if j >= |q| {
          assert r[i] == q[i] && r[j].name == last;
        } else {
          assert r[i] == q[i] && r[j] == q[j];
        }
      }
    }
    forall i, j | 0 <= i < j < |r| ensures r[i].name != r[j].name {
      if r[i].name == r[j].name { LessIrreflexive(r[i].name); }
    }
  }

  /** `r` resolves `names` against `hs`: each entry is the first handle of one of
      the names, every name some handle carries has its first handle in `r`,
      and the entries follow the names' order. */
  predicate ResolvesFirst(names: seq<string>, hs: seq<Option<SceneAsset>>, r: seq<SceneAsset>) {
    (forall k :: 0 <= k < |r| ==> r[k].name in names && Some(r[k]) == FirstWithName(hs, r[k].name)) &&
    (forall n :: n in names && HasName(hs, n) ==> FirstWithName(hs, n).value in r) &&
    (forall i, j :: 0 <= i < j < |r| ==> Less(r[i].name, r[j].name))
  }

  /** The entries of `scenes` are exactly the first handles of the names, each
      distinct handle arising from some name. */
  lemma FirstMatchesMembers(names: seq<string>, hs: seq<Option<SceneAsset>>)
    ensures forall h :: h in FirstMatches(names, hs) <==> exists n :: n in names && FirstWithName(hs, n) == Some(h)
  {
    var r := FirstMatches(names, hs);
    forall h ensures h in r <==> exists n :: n in names && FirstWithName(hs, n) == Some(h) {
      if h in r {
        var k :| 0 <= k < |r| && r[k] == h;
        assert h.name in names && FirstWithName(hs, h.name) == Some(h);
      }
      if exists n :: n in names && FirstWithName(hs, n) == Some(h) {
        var n :| n in names && FirstWithName(hs, n) == Some(h);
        assert HasName(hs, n);
      }
    }
  }

  /** For a sorted set of names, `FirstMatches` resolves them. */
  lemma FirstMatchesResolves(names: seq<string>, hs: seq<Option<SceneAsset>>)
    requires StrictlySorted(names)
    ensures ResolvesFirst(names, hs, FirstMatches(names, hs))
  {
    FirstMatchesSorted(names, hs);
  }

  /** When every name is carried by some handle, `scenes` is parallel to the names:
      same length, and entry i is the first handle named `names[i]`. */
  lemma {:induction false} FirstMatchesParallel(names: seq<string>, hs: seq<Option<SceneAsset>>)
    requires forall n :: n in names ==> HasName(hs, n)
    ensures |FirstMatches(names, hs)| == |names|
    ensures forall i :: 0 <= i < |names| ==> Some(FirstMatches(names, hs)[i]) == FirstWithName(hs, names[i])
    decreases |names|
  {
    if |names| > 0 {
      var p := names[..|names| - 1];
      var n := names[|names| - 1];
      assert forall m :: m in p ==> m in names;
      FirstMatchesParallel(p, hs);
      assert n in names;
      assert HasName(hs, n);
      var h := FirstWithName(hs, n);
      var q, r := FirstMatches(p, hs), FirstMatches(names, hs);
      assert r == q + [h.value];
      forall i | 0 <= i < |names| ensures Some(r[i]) == FirstWithName(hs, names[i]) {
        if i < |p| {
          assert r[i] == q[i] && p[i] == names[i];
        } else {
          assert r[i] == h.value && names[i] == n;
        }
      }
    }
  }

  /** After a rebuild from the handles themselves, `scenes` is parallel to the
      sorted names and each entry is the lowest-index handle with that name. */
  lemma RebuiltScenesParallel(hs: seq<Option<SceneAsset>>)
    ensures |FirstMatches(SortedNames(hs), hs)| == |SortedNames(hs)|
    ensures forall i :: 0 <= i < |SortedNames(hs)| ==>
      var h := FirstMatches(SortedNames(hs), hs)[i];
      h.name == SortedNames(hs)[i] &&
      exists j :: 0 <= j < |hs| && hs[j] == Some(h) && forall k :: 0 <= k < j ==> !Named(hs[k], h.name)
  {
    var names, r := SortedNames(hs), FirstMatches(SortedNames(hs), hs);
    FirstMatchesParallel(names, hs);
    forall i | 0 <= i < |names|
      ensures exists j :: 0 <= j < |hs| && hs[j] == Some(r[i]) && forall k :: 0 <= k < j ==> !Named(hs[k], r[i].name)
    {
      FirstWithNameIsFirst(hs, names[i]);
    }
  }

  /** The resolution loop in `DrawSearchSection`: each name to its first handle (inner loop with `break`). */
  method ResolveScenes(names: seq<string>, hs: seq<Option<SceneAsset>>) returns (scenes: seq<SceneAsset>)
    ensures scenes == FirstMatches(names, hs)
  {
    scenes := [];
    for i := 0 to |names|
      invariant scenes == FirstMatches(names[..i], hs)
    {
      var n := names[i];
      assert names[..i + 1][..i] == names[..i];
      var j := 0;
      while j < |hs|
        invariant 0 <= j <= |hs|
        invariant FirstWithName(hs[j..], n) == FirstWithName(hs, n)
      {
        if hs[j].Some? && hs[j].value.name == n {
          assert hs[j..][0] == hs[j];
          scenes := scenes + [hs[j].value];
          break;
        }
        assert hs[j..][1..] == hs[j + 1..];
        j := j + 1;
      }
    }
    assert names[..|names|] == names;
  }
}
