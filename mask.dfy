/** Scene-mask decoding: the 32-bit MaskField value over `DropdownNames` becomes
    the list of selected scene names. C# evaluates `1 << i` on a 32-bit int, so the
    shift count is taken modulo 32 and name i is governed by bit `i % 32`. */
module Mask {
  import opened Names

  /** Bit k of the mask is set: the loop's test `(filter & layer) != 0` with `layer = 1 << k`. */
  predicate Bit(mask: bv32, k: nat)
    requires k < 32
  {
    mask & (1 << k) != 0
  }

  /** The shift count C# uses for `1 << i` on a 32-bit int. */
  function ShiftCount(i: nat): (k: nat)
    ensures k < 32
  {
    i % 32
  }

  /** The names whose bit is set, in the order of `names`. */
  function Selected(names: seq<string>, mask: bv32): (r: seq<string>)
    ensures |r| <= |names|
    decreases |names|
  {
    if |names| == 0 then []
    else
      Selected(names[..|names| - 1], mask) +
      (if Bit(mask, ShiftCount(|names| - 1)) then [names[|names| - 1]] else [])
  }

  /** A name is selected iff it sits at a position whose bit is set. */
  lemma {:induction false} SelectedMembers(names: seq<string>, mask: bv32)
    ensures forall x :: x in Selected(names, mask) <==>
      exists i :: 0 <= i < |names| && names[i] == x && Bit(mask, ShiftCount(i))
  {
    forall x ensures x in Selected(names, mask) <==>
      exists i :: 0 <= i < |names| && names[i] == x && Bit(mask, ShiftCount(i))
    {
      SelectedMember(names, mask, x);
    }
  }

  /** `SelectedMembers` for one name `x`, by induction on the list. */
  lemma {:induction false} SelectedMember(names: seq<string>, mask: bv32, x: string)
    ensures x in Selected(names, mask) <==>
      exists i :: 0 <= i < |names| && names[i] == x && Bit(mask, ShiftCount(i))
    decreases |names|
  {
    if |names| > 0 {
      var p, last := names[..|names| - 1], names[|names| - 1];
      SelectedMember(p, mask, x);
      var on := Bit(mask, ShiftCount(|names| - 1));
      var tail := if on then [last] else [];
      assert Selected(names, mask) == Selected(p, mask) + tail;
      assert x in Selected(names, mask) <==> x in Selected(p, mask) || x in tail;
      if x in Selected(p, mask) {
        var i :| 0 <= i < |p| && p[i] == x && Bit(mask, ShiftCount(i));
        assert names[i] == x;
      } else if x in tail {
        assert names[|names| - 1] == x && on;
      }
      if exists i :: 0 <= i < |names| && names[i] == x && Bit(mask, ShiftCount(i)) {
        var i :| 0 <= i < |names| && names[i] == x && Bit(mask, ShiftCount(i));
        if i < |p| {
          assert p[i] == x;
        } else {
          assert x in tail;
        }
      }
    }
  }

  /** Mask 0 selects nothing. */
  lemma {:induction false} SelectedNone(names: seq<string>)
    ensures Selected(names, 0) == []
    decreases |names|
  {
    if |names| > 0 {
      SelectedNone(names[..|names| - 1]);
      assert !Bit(0, ShiftCount(|names| - 1));
    }
  }

  /** The all-ones mask (MaskField's "Everything", -1) selects every name. */
  lemma {:induction false} SelectedEverything(names: seq<string>)
    ensures Selected(names, 0xFFFF_FFFF) == names
    decreases |names|
  {
    if |names| > 0 {
      SelectedEverything(names[..|names| - 1]);
      assert Bit(0xFFFF_FFFF, ShiftCount(|names| - 1));
      assert names[..|names| - 1] + [names[|names| - 1]] == names;
    }
  }

  /** Decoding keeps the order of a sorted name list: the result is sorted too. */
  lemma {:induction false} SelectedSorted(names: seq<string>, mask: bv32)
    requires StrictlySorted(names)
    ensures StrictlySorted(Selected(names, mask))
    decreases |names|
  {
    if |names| > 0 {
      var p := names[..|names| - 1];
      var last := names[|names| - 1];
      assert StrictlySorted(p);
      SelectedSorted(p, mask);
      SelectedMembers(p, mask);
      var r := Selected(names, mask);
      var q := Selected(p, mask);
      forall y | y in q ensures Less(y, last) {
        var i :| 0 <= i < |p| && p[i] == y && Bit(mask, ShiftCount(i));
        assert names[i] == y;
      }
      forall i, j | 0 <= i < j < |r| ensures Less(r[i], r[j]) {
        if j >= |q| {
          assert r[j] == last && r[i] == q[i];
          assert q[i] in q;
        } else {
          assert r[i] == q[i] && r[j] == q[j];
        }
      }
    }
  }

  /** With distinct names (a sorted set) and at most 32 of them, name i is selected
      exactly when bit i of the mask is set. */
  lemma SelectedIffBit(names: seq<string>, mask: bv32, i: nat)
    requires StrictlySorted(names) && |names| <= 32 && i < |names|
    ensures names[i] in Selected(names, mask) <==> Bit(mask, i)
  {
    SelectedMembers(names, mask);
    if names[i] in Selected(names, mask) {
      var j :| 0 <= j < |names| && names[j] == names[i] && Bit(mask, ShiftCount(j));
      if j != i { SortedDistinct(names, i, j); }
    }
  }

  lemma SelectedStep(names: seq<string>, mask: bv32, i: nat)
    requires i < |names|
    ensures Selected(names[..i + 1], mask) ==
      Selected(names[..i], mask) + (if Bit(mask, ShiftCount(i)) then [names[i]] else [])
  {
    assert names[..i + 1][..i] == names[..i];
  }

  /** The selected-scenes loop of `DrawLeftDataPanel` (listener and reference
      tabs) and of `DoSearchField` (listener and reference searches). */
  method DecodeMask(names: seq<string>, mask: bv32) returns (selected: seq<string>)
    ensures selected == Selected(names, mask)
  {
    selected := [];
    for i := 0 to |names|
      invariant selected == Selected(names[..i], mask)
    {
      SelectedStep(names, mask, i);
      if Bit(mask, ShiftCount(i)) {
        selected := selected + [names[i]];
      }
    }
    assert names[..|names|] == names;
  }
}
