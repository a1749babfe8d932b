/** An event asset's listener list and the loop that strips its null entries
    in place, as the event details panel does before drawing the listeners. */
module Listeners {
  import opened Entities

  /** The listener list of a CustomEvent asset (`Event.listeners`). */
  class CustomEvent {
    var listeners: seq<Option<Listener>>

    constructor (listeners: seq<Option<Listener>>)
      ensures this.listeners == listeners
    {
      this.listeners := listeners;
    }
  }

  /** No entry is null. */
  predicate NoNulls<T>(xs: seq<Option<T>>) {
    forall i :: 0 <= i < |xs| ==> xs[i].Some?
  }

  /** The non-null entries, in their original order. */
  function WithoutNulls<T>(xs: seq<Option<T>>): (r: seq<Option<T>>)
    ensures |r| <= |xs|
    ensures forall x :: x in r ==> x.Some? && x in xs
    decreases |xs|
  {
    if |xs| == 0 then []
    else
      var prev := WithoutNulls(xs[..|xs| - 1]);
      assert forall x :: x in xs[..|xs| - 1] ==> x in xs;
      prev + (if xs[|xs| - 1].Some? then [xs[|xs| - 1]] else [])
  }

  /** Extending a list by one entry extends its non-null entries by that
      entry exactly when it is not null. */
  lemma WithoutNullsSnoc<T>(xs: seq<Option<T>>, x: Option<T>)
    ensures WithoutNulls(xs + [x]) == WithoutNulls(xs) + (if x.Some? then [x] else [])
  {
    assert (xs + [x])[..|xs + [x]| - 1] == xs;
  }

  /** Removing nulls distributes over concatenation, so the survivors keep their relative order. */
  lemma {:induction false} WithoutNullsAppend<T>(a: seq<Option<T>>, b: seq<Option<T>>)
    ensures WithoutNulls(a + b) == WithoutNulls(a) + WithoutNulls(b)
    decreases |b|
  {
    if |b| == 0 {
      assert a + b == a;
    } else {
      var b', last := b[..|b| - 1], b[|b| - 1];
      var tail := if last.Some? then [last] else [];
      assert b == b' + [last];
      assert a + b == (a + b') + [last];
      calc {
        WithoutNulls(a + b);
        WithoutNulls((a + b') + [last]);
        { WithoutNullsSnoc(a + b', last); }
        WithoutNulls(a + b') + tail;
        { WithoutNullsAppend(a, b'); }
        WithoutNulls(a) + WithoutNulls(b') + tail;
        { WithoutNullsSnoc(b', last); }
        WithoutNulls(a) + WithoutNulls(b);
      }
    }
  }

  /** A list without nulls is left as it is. */
  lemma {:induction false} WithoutNullsNoNulls<T>(xs: seq<Option<T>>)
    requires NoNulls(xs)
    ensures WithoutNulls(xs) == xs
    decreases |xs|
  {
    if |xs| > 0 {
      var p, last := xs[..|xs| - 1], xs[|xs| - 1];
      assert xs == p + [last];
      assert last.Some?;
      WithoutNullsNoNulls(p);
      WithoutNullsSnoc(p, last);
    }
  }

  /** Every non-null entry survives. */
  lemma {:induction false} WithoutNullsKeeps<T>(xs: seq<Option<T>>)
    ensures forall x :: x in xs && x.Some? ==> x in WithoutNulls(xs)
    decreases |xs|
  {
    if |xs| > 0 {
      var p := xs[..|xs| - 1];
      WithoutNullsKeeps(p);
      forall x | x in xs && x.Some? ensures x in WithoutNulls(xs) {
        if x != xs[|xs| - 1] {
          var i :| 0 <= i < |xs| && xs[i] == x;
          assert p[i] == x;
        }
      }
    }
  }

  /** Pruning twice equals pruning once. */
  lemma WithoutNullsIdempotent<T>(xs: seq<Option<T>>)
    ensures WithoutNulls(WithoutNulls(xs)) == WithoutNulls(xs)
  {
    var r := WithoutNulls(xs);
    assert forall i :: 0 <= i < |r| ==> r[i] in r;
    WithoutNullsNoNulls(r);
  }

  /** `RemoveAt(i)` on a null entry leaves the non-null entries as they were. */
  lemma RemoveNullAt<T>(xs: seq<Option<T>>, i: nat)
    requires i < |xs| && xs[i].None?
    ensures WithoutNulls(xs[..i] + xs[i + 1..]) == WithoutNulls(xs)
    ensures (xs[..i] + xs[i + 1..])[..i] == xs[..i]
  {
    assert xs == xs[..i] + [xs[i]] + xs[i + 1..];
    WithoutNullsAppend(xs[..i] + [xs[i]], xs[i + 1..]);
    WithoutNullsAppend(xs[..i], [xs[i]]);
    WithoutNullsAppend(xs[..i], xs[i + 1..]);
    assert WithoutNulls([xs[i]]) == [] by {
      assert [xs[i]][..0] == [];
    }
  }

  /** The prune in `DrawRightDataPanel`: `RemoveAt(i); i--` over the list until no null is left. */
  method PruneNullListeners(ev: CustomEvent)
    modifies ev`listeners
    ensures ev.listeners == WithoutNulls(old(ev.listeners))
    ensures NoNulls(ev.listeners)
  {
    var i: int := 0;
    while i < |ev.listeners|
      invariant 0 <= i <= |ev.listeners|
      invariant NoNulls(ev.listeners[..i])
      invariant WithoutNulls(ev.listeners) == WithoutNulls(old(ev.listeners))
      decreases |ev.listeners| - i
    {
      if ev.listeners[i].None? {
        RemoveNullAt(ev.listeners, i);
        ev.listeners := ev.listeners[..i] + ev.listeners[i + 1..];
        i := i - 1;
      } else {
        assert ev.listeners[..i + 1] == ev.listeners[..i] + [ev.listeners[i]];
      }
      i := i + 1;
    }
    assert ev.listeners[..i] == ev.listeners;
    WithoutNullsNoNulls(ev.listeners);
  }
}
