/** Scene names kept in a SortedSet<string>: a strict total order on strings,
    strictly sorted sequences as the model of a sorted set, and SortedSet.Add. */
module Names {

  /** Ordinal lexicographic order on strings (a proper prefix comes first). */
  predicate Less(a: string, b: string)
    decreases |a|
  {
    if |a| == 0 then |b| > 0
    else if |b| == 0 then false
    else if a[0] != b[0] then a[0] < b[0]
    else Less(a[1..], b[1..])
  }

  lemma {:induction false} LessIrreflexive(a: string)
    ensures !Less(a, a)
    decreases |a|
  {
    if |a| > 0 {
      LessIrreflexive(a[1..]);
    }
  }

  lemma {:induction false} LessAsymmetric(a: string, b: string)
    requires Less(a, b)
    ensures !Less(b, a)
    decreases |a|
  {
    if |a| > 0 && a[0] == b[0] {
      LessAsymmetric(a[1..], b[1..]);
    }
  }

  lemma {:induction false} LessTransitive(a: string, b: string, c: string)
    requires Less(a, b) && Less(b, c)
    ensures Less(a, c)
    decreases |a|
  {
    if |a| > 0 && a[0] == b[0] && b[0] == c[0] {
      LessTransitive(a[1..], b[1..], c[1..]);
    }
  }

  lemma {:induction false} LessTotal(a: string, b: string)
    ensures a == b || Less(a, b) || Less(b, a)
    decreases |a|
  {
    if |a| > 0 && |b| > 0 && a[0] == b[0] {
      LessTotal(a[1..], b[1..]);
      if a[1..] == b[1..] {
        assert a == [a[0]] + a[1..] && b == [b[0]] + b[1..];
      }
    }
  }

  /** The sequence lists a sorted set: every element is below every later one. */
  predicate StrictlySorted(s: seq<string>) {
    forall i, j :: 0 <= i < j < |s| ==> Less(s[i], s[j])
  }

  /** A strictly sorted sequence holds no name twice. */
  lemma SortedDistinct(s: seq<string>, i: int, j: int)
    requires StrictlySorted(s) && 0 <= i < |s| && 0 <= j < |s| && i != j
    ensures s[i] != s[j]
  {
    LessIrreflexive(s[i]);
  }

  /** The head of a sorted set is not in its tail. */
  lemma HeadNotInTail(s: seq<string>)
    requires StrictlySorted(s) && |s| > 0
    ensures s[0] !in s[1..]
  {
    if s[0] in s[1..] {
      var k :| 0 <= k < |s[1..]| && s[1..][k] == s[0];
      SortedDistinct(s, 0, k + 1);
    }
  }

  /** SortedSet<string>.Add: the set with `x` added, still in order. */
  function SortedInsert(s: seq<string>, x: string): (r: seq<string>)
    requires StrictlySorted(s)
    ensures StrictlySorted(r)
    ensures forall y :: y in r <==> y == x || y in s
    ensures |r| == if x in s then |s| else |s| + 1
    decreases |s|
  {
    if |s| == 0 then [x]
    else if x == s[0] then s
    else if Less(x, s[0]) then
      assert x !in s by {
        if x in s {
          var k :| 0 <= k < |s| && s[k] == x;
          assert k > 0;
          LessAsymmetric(x, s[0]);
        }
      }
      assert forall j :: 0 < j < |s| ==> Less(x, s[j]) by {
        forall j | 0 < j < |s| ensures Less(x, s[j]) {
          LessTransitive(x, s[0], s[j]);
        }
      }
      [x] + s
    else
      LessTotal(x, s[0]);
      HeadNotInTail(s);
      var rest := SortedInsert(s[1..], x);
      assert forall y :: y in rest ==> Less(s[0], y);
      assert s == [s[0]] + s[1..];
      [s[0]] + rest
  }

  /** Adding a name above every element appends it. */
  lemma {:induction false} InsertAbove(s: seq<string>, x: string)
    requires StrictlySorted(s)
    requires forall y :: y in s ==> Less(y, x)
    ensures SortedInsert(s, x) == s + [x]
    decreases |s|
  {
    if |s| > 0 {
      LessAsymmetric(s[0], x);
      LessIrreflexive(x);
      assert x != s[0];
      InsertAbove(s[1..], x);
      assert s == [s[0]] + s[1..];
    }
  }

  lemma NonEmptyHasHead(t: seq<string>)
    ensures |t| > 0 ==> t[0] in t
  {
  }

  /** A sorted set is determined by its elements. */
  lemma {:induction false} SortedUnique(s: seq<string>, t: seq<string>)
    requires StrictlySorted(s) && StrictlySorted(t)
    requires forall y :: y in s <==> y in t
    ensures s == t
    decreases |s|
  {
    if |s| == 0 {
      NonEmptyHasHead(t);
    } else {
      assert s[0] in t;
      assert |t| > 0;
      if s[0] != t[0] {
        var k :| 0 <= k < |t| && t[k] == s[0];
        assert t[0] in s;
        var m :| 0 <= m < |s| && s[m] == t[0];
        assert k > 0 && m > 0;
        assert Less(t[0], s[0]) && Less(s[0], t[0]);
        LessAsymmetric(t[0], s[0]);
      }
      HeadNotInTail(s);
      HeadNotInTail(t);
      forall y ensures y in s[1..] <==> y in t[1..] {
        assert s == [s[0]] + s[1..] && t == [t[0]] + t[1..];
        assert y in s <==> y in t;
        assert y in s <==> y == s[0] || y in s[1..];
        assert y in t <==> y == t[0] || y in t[1..];
      }
      SortedUnique(s[1..], t[1..]);
      assert s == [s[0]] + s[1..] && t == [t[0]] + t[1..];
    }
  }
}
