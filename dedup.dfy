/**
 * Row de-duplication as `DataFrame.drop_duplicates()` does it with its
 * defaults: rows equal in every column are duplicates, and the first
 * occurrence of each row is the one kept.
 */
module Dedup {
  import opened Articles

  predicate NoDuplicates(s: seq<Article>)
  {
    forall i, j :: 0 <= i < j < |s| ==> s[i] != s[j]
  }

  /** The position of the first occurrence of `x` in `s`. */
  function FirstIndex(s: seq<Article>, x: Article): (k: nat)
    requires x in s
    ensures k < |s| && s[k] == x && x !in s[..k]
    decreases |s|
  {
    if s[0] == x then 0
    else
      var k := 1 + FirstIndex(s[1..], x);
      assert s[..k] == [s[0]] + s[1..][..k - 1];
      k
  }

  /** Only one position has `x` with no earlier `x`. */
  lemma FirstIndexUnique(s: seq<Article>, x: Article, k: nat)
    requires k < |s| && s[k] == x && x !in s[..k]
    ensures FirstIndex(s, x) == k
  {
    var f := FirstIndex(s, x);
    forall j | 0 <= j < k ensures s[j] != x {
      assert s[..k][j] == s[j];
    }
    forall j | 0 <= j < f ensures s[j] != x {
      assert s[..f][j] == s[j];
    }
  }

  /** `drop_duplicates()`: the rows in order, each one only at its first occurrence. */
  function DropDuplicates(s: seq<Article>): (r: seq<Article>)
    ensures NoDuplicates(r)
    ensures forall x :: x in r <==> x in s
    decreases |s|
  {
    if s == [] then []
    else
      var prefix := s[..|s| - 1];
      var d := DropDuplicates(prefix);
      var x := s[|s| - 1];
      assert forall y :: y in s <==> y in prefix || y == x by {
        assert s == prefix + [x];
      }
      if x in d then d else d + [x]
  }

  /** The first occurrence of a row of the prefix is the same in the whole sequence. */
  lemma FirstIndexInPrefix(s: seq<Article>, n: nat, x: Article)
    requires n <= |s| && x in s[..n]
    ensures FirstIndex(s, x) == FirstIndex(s[..n], x)
  {
    var k := FirstIndex(s[..n], x);
    assert s[..n][..k] == s[..k];
    FirstIndexUnique(s, x, k);
  }

  /** Kept rows appear in the order of their first occurrences in the input. */
  lemma {:induction false} DropDuplicatesOrder(s: seq<Article>)
    ensures forall i, j :: 0 <= i < j < |DropDuplicates(s)| ==>
              FirstIndex(s, DropDuplicates(s)[i]) < FirstIndex(s, DropDuplicates(s)[j])
    decreases |s|
  {
    if s != [] {
      var n := |s| - 1;
      var prefix := s[..n];
      var d := DropDuplicates(prefix);
      DropDuplicatesOrder(prefix);
      assert s == prefix + [s[n]];
      forall i, j | 0 <= i < j < |d| ensures d[i] in s && d[j] in s && FirstIndex(s, d[i]) < FirstIndex(s, d[j]) {
        assert d[i] in d && d[j] in d;
        FirstIndexInPrefix(s, n, d[i]);
        FirstIndexInPrefix(s, n, d[j]);
        assert FirstIndex(prefix, d[i]) < FirstIndex(prefix, d[j]);
      }
      if s[n] !in d {
        AppendedLastComesAfter(s, d);
      }
    }
  }

  /** Appending the last row, first seen at the end, keeps the first-occurrence order. */
  lemma AppendedLastComesAfter(s: seq<Article>, d: seq<Article>)
    requires s != [] && s[|s| - 1] !in s[..|s| - 1]
    requires forall y :: y in d ==> y in s && y in s[..|s| - 1]
    requires forall i, j :: 0 <= i < j < |d| ==> FirstIndex(s, d[i]) < FirstIndex(s, d[j])
    ensures var r := d + [s[|s| - 1]];
            forall i, j :: 0 <= i < j < |r| ==> FirstIndex(s, r[i]) < FirstIndex(s, r[j])
  {
    var n := |s| - 1;
    var r := d + [s[n]];
    FirstIndexUnique(s, s[n], n);
    assert forall y :: y in r ==> y in s;
    forall i, j | 0 <= i < j < |r| ensures FirstIndex(s, r[i]) < FirstIndex(s, r[j]) {
      assert r[i] == d[i] && d[i] in d;
      FirstIndexInPrefix(s, n, d[i]);
      if j < |d| {
        assert r[j] == d[j];
      } else {
        assert r[j] == s[n];
      }
    }
  }

  /**
   * The head of a non-empty sequence is a member of it. A lemma rather than an
   * `assert`, because where it is used the non-empty case cannot happen, and an
   * assertion there would check an index under clashing assumptions.
   */
  lemma HeadIsMember(r: seq<Article>)
    ensures |r| > 0 ==> r[0] in r
  {
  }

  /** A row that closes a duplicate-free sequence does not occur before it. */
  lemma LastNotEarlier(r: seq<Article>)
    requires NoDuplicates(r) && r != []
    ensures r[|r| - 1] !in r[..|r| - 1]
    ensures NoDuplicates(r[..|r| - 1])
  {
    var r' := r[..|r| - 1];
    forall q | 0 <= q < |r'| ensures r'[q] != r[|r| - 1] { }
  }

  /** In a sequence ordered by first occurrence, the row first seen last comes last. */
  lemma LatestFirstComesLast(s: seq<Article>, r: seq<Article>)
    requires s != [] && s[|s| - 1] !in s[..|s| - 1]
    requires forall x :: x in r <==> x in s
    requires forall i, j :: 0 <= i < j < |r| ==> FirstIndex(s, r[i]) < FirstIndex(s, r[j])
    ensures r != [] && r[|r| - 1] == s[|s| - 1]
  {
    var n := |s| - 1;
    var x := s[n];
    FirstIndexUnique(s, x, n);
    assert x in r;
    var p :| 0 <= p < |r| && r[p] == x;
    var m := |r| - 1;
    assert FirstIndex(s, r[p]) <= FirstIndex(s, r[m]);
    assert FirstIndex(s, r[m]) == n;
  }

  /**
   * The three properties determine the result: any duplicate-free sequence with
   * the same rows, ordered by first occurrence, is `DropDuplicates(s)`.
   */
  lemma {:induction false} DropDuplicatesUnique(s: seq<Article>, r: seq<Article>)
    requires NoDuplicates(r)
    requires forall x :: x in r <==> x in s
    requires forall i, j :: 0 <= i < j < |r| ==> FirstIndex(s, r[i]) < FirstIndex(s, r[j])
    ensures r == DropDuplicates(s)
    decreases |s|
  {
    if s == [] {
      HeadIsMember(r);
    } else {
      var n := |s| - 1;
      var prefix := s[..n];
      assert s == prefix + [s[n]];
      forall y | y in prefix ensures FirstIndex(s, y) == FirstIndex(prefix, y) {
        FirstIndexInPrefix(s, n, y);
      }
      if s[n] in prefix {
        assert forall y :: y in r <==> y in prefix;
        DropDuplicatesUnique(prefix, r);
      } else {
        var r' := DropLastNew(s, r);
        DropDuplicatesUnique(prefix, r');
      }
    }
  }

  /**
   * When the last row of `s` is new, a sequence with the three properties for
   * `s` ends with it, and what comes before has them for the rest of `s`.
   */
  lemma DropLastNew(s: seq<Article>, r: seq<Article>) returns (r': seq<Article>)
    requires s != [] && s[|s| - 1] !in s[..|s| - 1]
    requires NoDuplicates(r)
    requires forall x :: x in r <==> x in s
    requires forall i, j :: 0 <= i < j < |r| ==> FirstIndex(s, r[i]) < FirstIndex(s, r[j])
    requires forall y :: y in s[..|s| - 1] ==> FirstIndex(s, y) == FirstIndex(s[..|s| - 1], y)
    ensures r == r' + [s[|s| - 1]]
    ensures NoDuplicates(r')
    ensures forall x :: x in r' <==> x in s[..|s| - 1]
    ensures forall i, j :: 0 <= i < j < |r'| ==>
              r'[i] in s[..|s| - 1] && r'[j] in s[..|s| - 1]
              && FirstIndex(s[..|s| - 1], r'[i]) < FirstIndex(s[..|s| - 1], r'[j])
  {
    var prefix := s[..|s| - 1];
    var x := s[|s| - 1];
    LatestFirstComesLast(s, r);
    LastNotEarlier(r);
    r' := r[..|r| - 1];
    assert r == r' + [x];
    forall y | y in r' ensures y in prefix {
      assert y in r && y != x;
    }
    forall y | y in prefix ensures y in r' {
      assert y in s && y in r;
      var q :| 0 <= q < |r| && r[q] == y;
      assert q != |r| - 1 && r'[q] == y;
    }
    forall i, j | 0 <= i < j < |r'|
      ensures r'[i] in prefix && r'[j] in prefix && FirstIndex(prefix, r'[i]) < FirstIndex(prefix, r'[j])
    {
      assert r'[i] == r[i] && r'[j] == r[j];
      assert r'[i] in r' && r'[j] in r';
    }
  }

  /** A sequence without duplicates is left as it is. */
  lemma {:induction false} DropDuplicatesOfDistinct(s: seq<Article>)
    requires NoDuplicates(s)
    ensures DropDuplicates(s) == s
    decreases |s|
  {
    if s != [] {
      var n := |s| - 1;
      assert NoDuplicates(s[..n]);
      DropDuplicatesOfDistinct(s[..n]);
      assert s[n] !in s[..n];
      assert s[..n] + [s[n]] == s;
    }
  }

  /** De-duplicating twice is de-duplicating once. */
  lemma DropDuplicatesIdempotent(s: seq<Article>)
    ensures DropDuplicates(DropDuplicates(s)) == DropDuplicates(s)
  {
    DropDuplicatesOfDistinct(DropDuplicates(s));
  }

  /** A row of a duplicate-free sequence occurs in it exactly once. */
  lemma {:induction false} DistinctCountsOnce(r: seq<Article>, x: Article)
    requires NoDuplicates(r) && x in r
    ensures multiset(r)[x] == 1
    decreases |r|
  {
    LastNotEarlier(r);
    var r' := r[..|r| - 1];
    assert r == r' + [r[|r| - 1]];
    if x == r[|r| - 1] {
      assert multiset(r')[x] == 0;
    } else {
      DistinctCountsOnce(r', x);
    }
  }

  /** Two equal rows anywhere in the input leave exactly one copy. */
  lemma DuplicateKeptOnce(s: seq<Article>, i: nat, j: nat)
    requires i < j < |s| && s[i] == s[j]
    ensures multiset(DropDuplicates(s))[s[i]] == 1
  {
    DistinctCountsOnce(DropDuplicates(s), s[i]);
  }
}
