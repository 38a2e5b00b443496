/**
 * Order-preserving duplicate removal: what `list(dict.fromkeys(xs))` computes, and what the
 * provider loops build with their `page_results` list and `cache` set.
 */
module Distinct {

  predicate NoDuplicates<T(==)>(s: seq<T>) {
    forall i, j :: 0 <= i < j < |s| ==> s[i] != s[j]
  }

  /** The index of the first occurrence of `x` in `s`. */
  function FirstIndex<T(==)>(s: seq<T>, x: T): (k: nat)
    requires x in s
    ensures k < |s| && s[k] == x
    ensures forall j :: 0 <= j < k ==> s[j] != x
  {
    if s[0] == x then 0 else 1 + FirstIndex(s[1..], x)
  }

  /** Keep each element the first time it is seen, dropping later repeats. */
  function Dedup<T(==)>(s: seq<T>): (r: seq<T>)
    decreases |s|
    ensures NoDuplicates(r)
    ensures forall i :: 0 <= i < |r| ==> r[i] in s
    ensures forall i :: 0 <= i < |s| ==> s[i] in r
    ensures |r| <= |s|
  {
    if s == [] then []
    else
      var d := Dedup(s[..|s| - 1]);
      assert forall i :: 0 <= i < |s| - 1 ==> s[i] == s[..|s| - 1][i];
      if s[|s| - 1] in d then d else d + [s[|s| - 1]]
  }

  /** An element already seen keeps its first index when more elements are appended. */
  lemma FirstIndexAppend<T>(s: seq<T>, t: seq<T>, x: T)
    requires x in s
    ensures x in s + t && FirstIndex(s + t, x) == FirstIndex(s, x)
  {
    var k, m := FirstIndex(s, x), FirstIndex(s + t, x);
    assert (s + t)[k] == x;
    assert m <= k;
    assert s[m] == x;
  }

  /** Dedup lists the distinct elements in the order of their first occurrence. */
  lemma {:induction false} DedupFirstSeenOrder<T>(s: seq<T>)
    ensures forall i, j :: 0 <= i < j < |Dedup(s)| ==>
      FirstIndex(s, Dedup(s)[i]) < FirstIndex(s, Dedup(s)[j])
  {
    if s != [] {
      var p, last := s[..|s| - 1], s[|s| - 1];
      assert s == p + [last];
      var d := Dedup(p);
      DedupFirstSeenOrder(p);
      forall x | x in p ensures FirstIndex(s, x) == FirstIndex(p, x) < |p| {
        FirstIndexAppend(p, [last], x);
      }
      if last !in d {
        assert last !in p;
        assert FirstIndex(s, last) == |p|;
      }
    }
  }

  /** The elements of `s` that are repeats of an earlier element (the M of "N - M"). */
  function Repeats<T(==)>(s: seq<T>): nat
    decreases |s|
  {
    if s == [] then 0
    else Repeats(s[..|s| - 1]) + (if s[|s| - 1] in s[..|s| - 1] then 1 else 0)
  }

  /** From N elements of which M repeat an earlier one, Dedup keeps exactly N - M. */
  lemma {:induction false} DedupLength<T>(s: seq<T>)
    ensures |Dedup(s)| == |s| - Repeats(s)
  {
    if s != [] {
      DedupLength(s[..|s| - 1]);
    }
  }

  /** A list without repeats is its own Dedup. */
  lemma {:induction false} DedupOfDistinct<T>(s: seq<T>)
    requires NoDuplicates(s)
    ensures Dedup(s) == s
  {
    if s != [] {
      var p := s[..|s| - 1];
      assert NoDuplicates(p);
      DedupOfDistinct(p);
      assert s[|s| - 1] !in p;
      assert s == p + [s[|s| - 1]];
    }
  }

  /** Deduplicating a longer list only adds elements after those of the shorter one. */
  lemma {:induction false} DedupExtends<T>(a: seq<T>, b: seq<T>)
    ensures |Dedup(a)| <= |Dedup(a + b)| && Dedup(a + b)[..|Dedup(a)|] == Dedup(a)
    decreases |b|
  {
    if b == [] {
      assert a + b == a;
    } else {
      var b' := b[..|b| - 1];
      DedupExtends(a, b');
      assert (a + b)[..|a + b| - 1] == a + b';
    }
  }

  /** Python's `s[:n]` for `n >= 0`. */
  function Take<T>(s: seq<T>, n: nat): (r: seq<T>)
    ensures |r| == if n < |s| then n else |s|
    ensures r == s[..|r|]
  {
    if n < |s| then s[..n] else s
  }

  /** A distinct list of at most `n` elements survives, in front, merging with anything after it. */
  lemma DedupTakeKeepsPrefix<T>(a: seq<T>, b: seq<T>, n: nat)
    requires NoDuplicates(a) && |a| <= n
    ensures |a| <= |Take(Dedup(a + b), n)| && Take(Dedup(a + b), n)[..|a|] == a
  {
    DedupOfDistinct(a);
    DedupExtends(a, b);
  }

  lemma TakeKeepsNoDuplicates<T>(s: seq<T>, n: nat)
    requires NoDuplicates(s)
    ensures NoDuplicates(Take(s, n))
  {
  }
}
