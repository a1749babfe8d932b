/** The search box's filters: case-insensitive substring matching of a display
    name against the query, applied to scene names (a sorted set), events (a
    dictionary keyed by name), listeners and references (lists). */
module Search {
  import opened Names

  /** ASCII `A`-`Z`. */
  predicate IsUpper(c: char) {
    'A' <= c <= 'Z'
  }

  /** ASCII lower-casing of one character (culture rules are not modelled):
      the result is never upper case, an upper-case letter keeps its place in
      the alphabet, and every other character is left alone. */
  function LowerChar(c: char): (r: char)
    ensures !IsUpper(r)
    ensures IsUpper(c) ==> 'a' <= r <= 'z' && r as int - 'a' as int == c as int - 'A' as int
    ensures !IsUpper(c) ==> r == c
  {
    if IsUpper(c) then (c as int + 32) as char else c
  }

  /** `string.ToLower()`, character by character: same length, no upper-case
      character left, and a string without upper case is returned unchanged. */
  function Lower(s: string): (r: string)
    ensures |r| == |s|
    ensures forall i :: 0 <= i < |s| ==> r[i] == LowerChar(s[i])
    ensures forall i :: 0 <= i < |r| ==> !IsUpper(r[i])
    ensures (forall i :: 0 <= i < |s| ==> !IsUpper(s[i])) ==> r == s
  {
    seq(|s|, i requires 0 <= i < |s| => LowerChar(s[i]))
  }

  /** Lower-casing twice equals lower-casing once. */
  lemma LowerIdempotent(s: string)
    ensures Lower(Lower(s)) == Lower(s)
  {
  }

  /** `s.Contains(q)`: `q` is a prefix of `s` or occurs in its tail. A
      contained query is never longer than the string. */
  predicate Contains(s: string, q: string)
    ensures Contains(s, q) ==> |q| <= |s|
    decreases |s|
  {
    q <= s || (|s| > 0 && Contains(s[1..], q))
  }

  /** `name.ToLower().Contains(query.ToLower())`. A matching query is never
      longer than the name. */
  predicate Matches(name: string, query: string)
    ensures Matches(name, query) ==> |query| <= |name|
  {
    Contains(Lower(name), Lower(query))
  }

  /** A name matches exactly when the lower-cased query occurs at some
      position of the lower-cased name. */
  lemma MatchesAt(name: string, query: string)
    ensures Matches(name, query) <==> exists k :: OccursAt(Lower(name), Lower(query), k)
  {
    ContainsAt(Lower(name), Lower(query));
  }

  /** Matching ignores case on both sides: lower-casing the name or the query
      first changes nothing. */
  lemma MatchesIgnoresCase(name: string, query: string)
    ensures Matches(Lower(name), query) == Matches(name, query)
    ensures Matches(name, Lower(query)) == Matches(name, query)
  {
    LowerIdempotent(name);
    LowerIdempotent(query);
  }

  /** The empty query matches every name. */
  lemma EmptyQueryMatches(name: string)
    ensures Matches(name, "")
  {
    assert Lower("") == [];
  }

  /** `q` sits in `s` starting at position k. */
  predicate OccursAt(s: string, q: string, k: int) {
    0 <= k && k + |q| <= |s| && s[k..k + |q|] == q
  }

  /** The recursive `Contains` agrees with "occurs at some position". */
  lemma {:induction false} ContainsAt(s: string, q: string)
    ensures Contains(s, q) <==> exists k :: OccursAt(s, q, k)
    decreases |s|
  {
    if |s| > 0 {
      ContainsAt(s[1..], q);
      if q <= s {
        assert OccursAt(s, q, 0);
      } else if Contains(s[1..], q) {
        var k :| OccursAt(s[1..], q, k);
        assert s[k + 1..k + 1 + |q|] == s[1..][k..k + |q|];
        assert OccursAt(s, q, k + 1);
      }
      if exists k :: OccursAt(s, q, k) {
        var k :| OccursAt(s, q, k);
        if k > 0 {
          assert s[1..][k - 1..k - 1 + |q|] == s[k..k + |q|];
          assert OccursAt(s[1..], q, k - 1);
        } else {
          assert s[..|q|] == q;
        }
      }
    } else {
      if Contains(s, q) {
        assert q == s[0..0];
        assert OccursAt(s, q, 0);
      }
      if exists k :: OccursAt(s, q, k) {
        var k :| OccursAt(s, q, k);
        assert q == [] && q <= s;
      }
    }
  }

  /** The items whose name matches the query, in their original order
      (the listener and reference filters). */
  function Keep<T>(xs: seq<T>, nameOf: T -> string, query: string): (r: seq<T>)
    ensures |r| <= |xs|
    ensures forall x :: x in r ==> x in xs && Matches(nameOf(x), query)
    decreases |xs|
  {
    if |xs| == 0 then []
    else
      var prev := Keep(xs[..|xs| - 1], nameOf, query);
      assert forall x :: x in xs[..|xs| - 1] ==> x in xs;
      prev + (if Matches(nameOf(xs[|xs| - 1]), query) then [xs[|xs| - 1]] else [])
  }

  /** Every matching item is kept. */
  lemma {:induction false} KeepComplete<T>(xs: seq<T>, nameOf: T -> string, query: string)
    ensures forall x :: x in xs && Matches(nameOf(x), query) ==> x in Keep(xs, nameOf, query)
    decreases |xs|
  {
    if |xs| > 0 {
      var p := xs[..|xs| - 1];
      KeepComplete(p, nameOf, query);
      forall x | x in xs && Matches(nameOf(x), query) ensures x in Keep(xs, nameOf, query) {
        if x != xs[|xs| - 1] {
          var i :| 0 <= i < |xs| && xs[i] == x;
          assert p[i] == x;
        }
      }
    }
  }

  /** Filtering a sequence extended by one item extends the filtered sequence
      by that item exactly when it matches. */
  lemma KeepSnoc<T>(xs: seq<T>, x: T, nameOf: T -> string, query: string)
    ensures Keep(xs + [x], nameOf, query) ==
      Keep(xs, nameOf, query) + (if Matches(nameOf(x), query) then [x] else [])
  {
    assert (xs + [x])[..|xs + [x]| - 1] == xs;
  }

  /** Filtering distributes over concatenation: the kept items keep their relative order. */
  lemma {:induction false} KeepAppend<T>(a: seq<T>, b: seq<T>, nameOf: T -> string, query: string)
    ensures Keep(a + b, nameOf, query) == Keep(a, nameOf, query) + Keep(b, nameOf, query)
    decreases |b|
  {
    if |b| == 0 {
      assert a + b == a;
    } else {
      var b', last := b[..|b| - 1], b[|b| - 1];
      var tail := if Matches(nameOf(last), query) then [last] else [];
      assert b == b' + [last];
      assert a + b == (a + b') + [last];
      calc {
        Keep(a + b, nameOf, query);
        Keep((a + b') + [last], nameOf, query);
        { KeepSnoc(a + b', last, nameOf, query); }
        Keep(a + b', nameOf, query) + tail;
        { KeepAppend(a, b', nameOf, query); }
        Keep(a, nameOf, query) + Keep(b', nameOf, query) + tail;
        { KeepSnoc(b', last, nameOf, query); }
        Keep(a, nameOf, query) + Keep(b, nameOf, query);
      }
    }
  }

  /** The empty query keeps every item. */
  lemma {:induction false} KeepEmptyQuery<T>(xs: seq<T>, nameOf: T -> string)
    ensures Keep(xs, nameOf, "") == xs
    decreases |xs|
  {
    if |xs| > 0 {
      KeepEmptyQuery(xs[..|xs| - 1], nameOf);
      EmptyQueryMatches(nameOf(xs[|xs| - 1]));
      assert xs[..|xs| - 1] + [xs[|xs| - 1]] == xs;
    }
  }

  /** Filtering twice with the same query equals filtering once. */
  lemma {:induction false} KeepIdempotent<T>(xs: seq<T>, nameOf: T -> string, query: string)
    ensures Keep(Keep(xs, nameOf, query), nameOf, query) == Keep(xs, nameOf, query)
    decreases |xs|
  {
    if |xs| > 0 {
      var p := xs[..|xs| - 1];
      var last := xs[|xs| - 1];
      KeepIdempotent(p, nameOf, query);
      var tail := if Matches(nameOf(last), query) then [last] else [];
      KeepAppend(Keep(p, nameOf, query), tail, nameOf, query);
      if Matches(nameOf(last), query) {
        assert Keep(tail, nameOf, query) == Keep([], nameOf, query) + [last] by {
          assert tail[..0] == [];
        }
      }
    }
  }

  /** The list filter is case-insensitive in the query: lower-casing the query
      first keeps the same items. */
  lemma {:induction false} KeepIgnoresQueryCase<T>(xs: seq<T>, nameOf: T -> string, query: string)
    ensures Keep(xs, nameOf, Lower(query)) == Keep(xs, nameOf, query)
    decreases |xs|
  {
    if |xs| > 0 {
      KeepIgnoresQueryCase(xs[..|xs| - 1], nameOf, query);
      MatchesIgnoresCase(nameOf(xs[|xs| - 1]), query);
    }
  }

  /** The loop of `DoSearchField` that collects the matching listeners (or references). */
  method FilterByName<T>(xs: seq<T>, nameOf: T -> string, query: string) returns (r: seq<T>)
    ensures r == Keep(xs, nameOf, query)
    ensures forall x :: x in r <==> x in xs && Matches(nameOf(x), query)
  {
    r := [];
    for i := 0 to |xs|
      invariant r == Keep(xs[..i], nameOf, query)
    {
      assert xs[..i + 1][..i] == xs[..i];
      if Matches(nameOf(xs[i]), query) {
        r := r + [xs[i]];
      }
    }
    assert xs[..|xs|] == xs;
    KeepComplete(xs, nameOf, query);
  }

  /** The events dictionary restricted to the keys that match the query. */
  function EventsMatching<V>(events: map<string, V>, query: string): (r: map<string, V>)
    ensures r.Keys <= events.Keys
    ensures forall k :: k in r <==> k in events && Matches(k, query)
    ensures forall k :: k in r ==> r[k] == events[k]
  {
    map k | k in events && Matches(k, query) :: events[k]
  }

  /** The empty query keeps the whole dictionary. */
  lemma EventsMatchingEmptyQuery<V>(events: map<string, V>)
    ensures EventsMatching(events, "") == events
  {
    forall k | k in events ensures Matches(k, "") {
      EmptyQueryMatches(k);
    }
  }

  /** Filtering the dictionary twice with the same query equals filtering once. */
  lemma EventsMatchingIdempotent<V>(events: map<string, V>, query: string)
    ensures EventsMatching(EventsMatching(events, query), query) == EventsMatching(events, query)
  {
  }

  /** The dictionary filter is case-insensitive in the query. */
  lemma EventsMatchingIgnoresQueryCase<V>(events: map<string, V>, query: string)
    ensures EventsMatching(events, Lower(query)) == EventsMatching(events, query)
  {
    forall k | k in events ensures Matches(k, Lower(query)) == Matches(k, query) {
      MatchesIgnoresCase(k, query);
    }
  }

  /** The event search of `DoSearchField`: iterate the dictionary and add every matching entry to a new one. */
  method FilterEvents<V>(events: map<string, V>, query: string) returns (r: map<string, V>)
    ensures r == EventsMatching(events, query)
    ensures forall k :: k in r <==> k in events && Matches(k, query)
    ensures forall k :: k in r ==> r[k] == events[k]
  {
    r := map[];
    var rest := events.Keys;
    while rest != {}
      invariant rest <= events.Keys
      invariant forall k :: k in r <==> k in events && k !in rest && Matches(k, query)
      invariant forall k :: k in r ==> r[k] == events[k]
      decreases rest
    {
      var k :| k in rest;
      if Matches(k, query) {
        r := r[k := events[k]];
      }
      rest := rest - {k};
    }
  }

  function Identity(s: string): string { s }

  /** The scene search of `DoSearchField`: the names of a sorted set that match the query, added to a new sorted set. */
  method FilterSceneNames(names: seq<string>, query: string) returns (r: seq<string>)
    requires StrictlySorted(names)
    ensures StrictlySorted(r)
    ensures forall n :: n in r <==> n in names && Matches(n, query)
    ensures r == Keep(names, Identity, query)
  {
    r := [];
    for i := 0 to |names|
      invariant r == Keep(names[..i], Identity, query)
      invariant StrictlySorted(r)
      invariant forall n :: n in r ==> n in names[..i]
    {
      assert names[..i + 1][..i] == names[..i];
      if Matches(names[i], query) {
        forall n | n in r ensures Less(n, names[i]) {
          var j :| 0 <= j < i && names[j] == n;
        }
        InsertAbove(r, names[i]);
        r := SortedInsert(r, names[i]);
      }
    }
    assert names[..|names|] == names;
    KeepComplete(names, Identity, query);
  }

  /** Copying a sorted set element by element (`DoSearchField`, and `CopyTo` in `DrawSearchSection`) yields the same set. */
  method CopySortedSet(s: seq<string>) returns (r: seq<string>)
    requires StrictlySorted(s)
    ensures r == s
  {
    r := [];
    for i := 0 to |s|
      invariant r == s[..i]
    {
      forall n | n in r ensures Less(n, s[i]) {
        var j :| 0 <= j < i && s[j] == n;
      }
      InsertAbove(r, s[i]);
      r := SortedInsert(r, s[i]);
      assert s[..i + 1] == s[..i] + [s[i]];
    }
    assert s[..|s|] == s;
  }
}
