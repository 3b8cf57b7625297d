/** The grouping half of the statistics queries: `SELECT DISTINCT key
    [ORDER BY key]` and `COUNT(*) ... WHERE key = k`, over a column of
    string keys. */
module Grouping {
  import opened Strings

  /** Number of occurrences of `k` in the column `ks`. */
  function Occ(ks: seq<string>, k: string): (n: nat)
    ensures n <= |ks|
    ensures n > 0 <==> k in ks
  {
    if ks == [] then 0 else (if ks[0] == k then 1 else 0) + Occ(ks[1..], k)
  }

  predicate Distinct(s: seq<string>)
  {
    forall i, j :: 0 <= i < j < |s| ==> s[i] != s[j]
  }

  predicate StrictlySorted(s: seq<string>)
  {
    forall i, j :: 0 <= i < j < |s| ==> Less(s[i], s[j])
  }

  lemma SortedIsDistinct(s: seq<string>)
    requires StrictlySorted(s)
    ensures Distinct(s)
  {
    forall i, j | 0 <= i < j < |s| ensures s[i] != s[j] {
      LessIrreflexive(s[i]);
    }
  }

  /** Adds `x` to a strictly sorted list, keeping it strictly sorted. */
  function Insert(x: string, s: seq<string>): (r: seq<string>)
    requires StrictlySorted(s)
    ensures StrictlySorted(r)
    ensures forall y :: y in r <==> y == x || y in s
  {
    if s == [] then [x]
    else if x == s[0] then s
    else if Less(x, s[0]) then
      var r := [x] + s;
      assert StrictlySorted(r) by {
        forall i, j | 0 <= i < j < |r| ensures Less(r[i], r[j]) {
          if i == 0 && j > 1 {
            LessTransitive(x, s[0], s[j - 1]);
          }
        }
      }
      r
    else
      var t := Insert(x, s[1..]);
      var r := [s[0]] + t;
      assert StrictlySorted(r) by {
        LessTotal(x, s[0]);
        forall i, j | 0 <= i < j < |r| ensures Less(r[i], r[j]) {
          if i == 0 {
            assert r[j] in t;
          }
        }
      }
      r
  }

  /** `SELECT DISTINCT key ... ORDER BY key`: every key once, in ascending order. */
  function DistinctSorted(ks: seq<string>): (r: seq<string>)
    ensures StrictlySorted(r)
    ensures forall y :: y in r <==> y in ks
  {
    if ks == [] then [] else Insert(ks[0], DistinctSorted(ks[1..]))
  }

  /** There is only one strictly sorted list of a given set of keys, so
      `DistinctSorted` is determined by its contract. */
  lemma {:induction false} SortedUnique(a: seq<string>, b: seq<string>)
    requires StrictlySorted(a) && StrictlySorted(b)
    requires forall y :: y in a <==> y in b
    ensures a == b
    decreases |a|
  {
    SameElementsBothEmpty(a, b);
    if a != [] {
      if a[0] != b[0] {
        assert a[0] in b && b[0] in a;
        var i :| 0 <= i < |b| && b[i] == a[0];
        var j :| 0 <= j < |a| && a[j] == b[0];
        assert i != 0 && j != 0;
        assert Less(b[0], a[0]) && Less(a[0], b[0]);
        LessTransitive(a[0], b[0], a[0]);
        LessIrreflexive(a[0]);
      }
      forall y ensures y in a[1..] <==> y in b[1..] {
        if y in a[1..] {
          var i :| 1 <= i < |a| && a[i] == y;
          LessIrreflexive(a[0]);
          assert y in b && b == [b[0]] + b[1..];
        }
        if y in b[1..] {
          var i :| 1 <= i < |b| && b[i] == y;
          LessIrreflexive(b[0]);
          assert y in a && a == [a[0]] + a[1..];
        }
      }
      SortedUnique(a[1..], b[1..]);
      assert a == [a[0]] + a[1..] && b == [b[0]] + b[1..];
    }
  }

  lemma SameElementsBothEmpty(a: seq<string>, b: seq<string>)
    requires forall y :: y in a <==> y in b
    ensures a == [] <==> b == []
  {
    if a != [] {
      assert a[0] in b;
    }
    if b != [] {
      assert b[0] in a;
    }
  }

  /** `SELECT DISTINCT key` with no ORDER BY: every key once, here in
      first-occurrence order. */
  function Dedup(ks: seq<string>): (r: seq<string>)
    ensures Distinct(r)
    ensures forall y :: y in r <==> y in ks
  {
    if ks == [] then []
    else
      var r := Dedup(ks[..|ks| - 1]);
      assert ks == ks[..|ks| - 1] + [ks[|ks| - 1]];
      if ks[|ks| - 1] in r then r else r + [ks[|ks| - 1]]
  }

  /** Sum over the keys of `d` of their number of occurrences in `ks`. */
  function SumOcc(ks: seq<string>, d: seq<string>): nat
  {
    if d == [] then 0 else Occ(ks, d[0]) + SumOcc(ks, d[1..])
  }

  /** Counting each key of a duplicate-free list that covers the column,
      and adding up, counts every row of the column exactly once. */
  lemma {:induction false} SumOccCoversColumn(ks: seq<string>, d: seq<string>)
    requires Distinct(d)
    requires forall k :: k in ks ==> k in d
    ensures SumOcc(ks, d) == |ks|
    decreases |ks|
  {
    if ks == [] {
      SumOccEmpty(d);
    } else {
      SumOccCoversColumn(ks[1..], d);
      SumOccCons(ks, d);
      OccOfDistinct(d, ks[0]);
    }
  }

  lemma {:induction false} SumOccEmpty(d: seq<string>)
    ensures SumOcc([], d) == 0
    decreases |d|
  {
    if d != [] {
      SumOccEmpty(d[1..]);
    }
  }

  lemma {:induction false} SumOccCons(ks: seq<string>, d: seq<string>)
    requires ks != []
    ensures SumOcc(ks, d) == SumOcc(ks[1..], d) + Occ(d, ks[0])
    decreases |d|
  {
    if d != [] {
      SumOccCons(ks, d[1..]);
    }
  }

  lemma {:induction false} OccOfDistinct(d: seq<string>, k: string)
    requires Distinct(d) && k in d
    ensures Occ(d, k) == 1
    decreases |d|
  {
    if d[0] == k {
      assert k !in d[1..];
    } else {
      OccOfDistinct(d[1..], k);
    }
  }
}
