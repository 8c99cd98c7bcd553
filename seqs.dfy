/** Sequence facts shared by the resolver and the aggregator: repeat-freedom and the
    order-preserving removal of repeats that `list(dict.fromkeys(xs))` performs. */
module Seqs {

  /** No element occurs twice. */
  ghost predicate NoDup<T>(s: seq<T>)
  {
    forall i, j :: 0 <= i < j < |s| ==> s[i] != s[j]
  }

  /** Position of the first occurrence of `x` in `s`. */
  function IndexOf<T(==)>(s: seq<T>, x: T): (k: nat)
    requires x in s
    ensures k < |s| && s[k] == x && x !in s[..k]
  {
    var init := s[..|s| - 1];
    assert s == init + [s[|s| - 1]];
    if x in init then
      var k := IndexOf(init, x);
      assert s[..k] == init[..k];
      k
    else
      |s| - 1
  }

  /** `s` with every repeat dropped; the first occurrence of each element is the one kept. */
  function Dedup<T(==,!new)>(s: seq<T>): (r: seq<T>)
    ensures NoDup(r)
    ensures forall x :: x in r <==> x in s
  {
    if s == [] then []
    else
      var init := s[..|s| - 1];
      assert s == init + [s[|s| - 1]];
      var r := Dedup(init);
      if s[|s| - 1] in r then r else r + [s[|s| - 1]]
  }

  lemma IndexOfBelow<T>(s: seq<T>, x: T, k: nat)
    requires k <= |s| && x in s[..k]
    ensures IndexOf(s, x) < k
  {
  }

  lemma IndexOfNoDup<T>(s: seq<T>, i: nat)
    requires NoDup(s) && i < |s|
    ensures IndexOf(s, s[i]) == i
  {
  }

  /** Dedup lists its elements in the order of their first occurrences in the input. */
  lemma {:induction false} DedupKeepsFirstOccurrences<T(!new)>(s: seq<T>)
    ensures forall i, j :: 0 <= i < j < |Dedup(s)| ==> IndexOf(s, Dedup(s)[i]) < IndexOf(s, Dedup(s)[j])
  {
    if s != [] {
      var init := s[..|s| - 1];
      var last := s[|s| - 1];
      assert s == init + [last];
      DedupKeepsFirstOccurrences(init);
      var r := Dedup(s);
      forall i, j | 0 <= i < j < |r|
        ensures IndexOf(s, r[i]) < IndexOf(s, r[j])
      {
        assert r[i] in init;
        if j < |Dedup(init)| {
          assert r[j] in init;
        } else {
          assert r[j] == last && last !in init;
        }
      }
    }
  }

  /** A sequence with no repeats is left unchanged. */
  lemma {:induction false} DedupOfNoDup<T(!new)>(s: seq<T>)
    requires NoDup(s)
    ensures Dedup(s) == s
  {
    if s != [] {
      var init := s[..|s| - 1];
      assert s == init + [s[|s| - 1]];
      DedupOfNoDup(init);
    }
  }

  /** If `a` occurs before the first `b` in `s`, it also comes before `b` after Dedup. */
  lemma DedupKeepsPrecedence<T(!new)>(s: seq<T>, a: T, b: T)
    requires b in s && a in s[..IndexOf(s, b)]
    ensures b in Dedup(s) && a in Dedup(s)[..IndexOf(Dedup(s), b)]
  {
    var r := Dedup(s);
    IndexOfBelow(s, a, IndexOf(s, b));
    var i, j := IndexOf(r, a), IndexOf(r, b);
    DedupKeepsFirstOccurrences(s);
    assert r[..j][i] == a;
  }
}
