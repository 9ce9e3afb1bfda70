/** Three-way comparison results, as Rust's `Ordering`, and the orders built from them. */
module Orderings {
  datatype Ordering = Less | Equal | Greater {
    function Reverse(): Ordering {
      match this
      case Less => Greater
      case Equal => Equal
      case Greater => Less
    }
  }

  function CompareNat(a: nat, b: nat): Ordering {
    if a < b then Less else if a == b then Equal else Greater
  }

  predicate TransitiveAt<K>(cmp: (K, K) -> Ordering, a: K, b: K, c: K) {
    cmp(a, b) != Greater && cmp(b, c) != Greater ==> cmp(a, c) != Greater
  }

  /** A comparison function that orders its keys totally, up to keys that compare equal. */
  ghost predicate TotalPreorder<K(!new)>(cmp: (K, K) -> Ordering) {
    && (forall a, b :: cmp(b, a) == cmp(a, b).Reverse())
    && (forall a, b, c :: TransitiveAt(cmp, a, b, c))
  }

  lemma {:induction false} TransLess<K(!new)>(cmp: (K, K) -> Ordering, a: K, b: K, c: K)
    requires TotalPreorder(cmp)
    requires cmp(a, b) != Greater && cmp(b, c) != Greater
    ensures cmp(a, c) != Greater
    ensures cmp(a, b) == Less || cmp(b, c) == Less ==> cmp(a, c) == Less
  {
    assert cmp(b, a) == cmp(a, b).Reverse() && cmp(c, b) == cmp(b, c).Reverse() && cmp(c, a) == cmp(a, c).Reverse();
    assert TransitiveAt(cmp, a, b, c) && TransitiveAt(cmp, b, c, a) && TransitiveAt(cmp, c, a, b);
  }

  lemma {:induction false} Reflexive<K(!new)>(cmp: (K, K) -> Ordering, a: K)
    requires TotalPreorder(cmp)
    ensures cmp(a, a) == Equal
  {
    assert cmp(a, a) == cmp(a, a).Reverse();
  }

  /** Lexicographic order of sequences of code units. */
  function CompareSeq(a: seq<nat>, b: seq<nat>): Ordering {
    if a == [] && b == [] then Equal
    else if a == [] then Less
    else if b == [] then Greater
    else if a[0] != b[0] then CompareNat(a[0], b[0])
    else CompareSeq(a[1..], b[1..])
  }

  /** At the first place where they differ `a` has the lower unit, or it is a proper prefix of `b`. */
  ghost predicate LexBefore(a: seq<nat>, b: seq<nat>) { exists k: nat :: LexBeforeAt(a, b, k) }

  ghost predicate LexBeforeAt(a: seq<nat>, b: seq<nat>, k: nat) {
    && k <= |a| && k < |b| && (forall i :: 0 <= i < k ==> a[i] == b[i])
    && (k == |a| || a[k] < b[k])
  }

  /** A place that decides the comparison. */
  lemma {:induction false} DecidedAt(a: seq<nat>, b: seq<nat>) returns (k: nat)
    ensures CompareSeq(a, b) == Less ==> LexBeforeAt(a, b, k)
    ensures CompareSeq(a, b) == Greater ==> LexBeforeAt(b, a, k)
    ensures CompareSeq(a, b) == Equal ==> a == b
  {
    k := 0;
    if a != [] && b != [] && a[0] == b[0] {
      k := DecidedAt(a[1..], b[1..]);
      k := k + 1;
      CompareSeqEqual(a, b);
    }
  }

  /** No two places decide differently. */
  lemma {:induction false} DecidedOnce(a: seq<nat>, b: seq<nat>, j: nat, k: nat)
    requires LexBeforeAt(a, b, j)
    ensures !LexBeforeAt(b, a, k) && a != b
  {
  }

  /** The comparison of sequences is the lexicographic order. */
  lemma {:induction false} CompareSeqIsLexicographic(a: seq<nat>, b: seq<nat>)
    ensures CompareSeq(a, b) == Less <==> LexBefore(a, b)
    ensures CompareSeq(a, b) == Greater <==> LexBefore(b, a)
  {
    var k := DecidedAt(a, b);
    if LexBefore(a, b) {
      var j: nat :| LexBeforeAt(a, b, j);
      DecidedOnce(a, b, j, k);
    }
    if LexBefore(b, a) {
      var j: nat :| LexBeforeAt(b, a, j);
      DecidedOnce(b, a, j, k);
    }
  }

  lemma {:induction false} CompareSeqReverse(a: seq<nat>, b: seq<nat>)
    ensures CompareSeq(b, a) == CompareSeq(a, b).Reverse()
  {
    if a != [] && b != [] && a[0] == b[0] {
      CompareSeqReverse(a[1..], b[1..]);
    }
  }

  lemma {:induction false} CompareSeqTrans(a: seq<nat>, b: seq<nat>, c: seq<nat>)
    requires CompareSeq(a, b) != Greater && CompareSeq(b, c) != Greater
    ensures CompareSeq(a, c) != Greater
  {
    if a != [] && b != [] && c != [] && a[0] == b[0] == c[0] {
      CompareSeqTrans(a[1..], b[1..], c[1..]);
    }
  }

  /** Sequences compare equal only when they are equal. */
  lemma {:induction false} CompareSeqEqual(a: seq<nat>, b: seq<nat>)
    ensures CompareSeq(a, b) == Equal <==> a == b
  {
    if a != [] && b != [] {
      assert a == [a[0]] + a[1..] && b == [b[0]] + b[1..];
      CompareSeqEqual(a[1..], b[1..]);
    }
  }

  lemma {:induction false} CompareSeqIsPreorder()
    ensures TotalPreorder(CompareSeq)
  {
    forall a, b
      ensures CompareSeq(b, a) == CompareSeq(a, b).Reverse()
    {
      CompareSeqReverse(a, b);
    }
    forall a, b, c
      ensures TransitiveAt(CompareSeq, a, b, c)
    {
      if CompareSeq(a, b) != Greater && CompareSeq(b, c) != Greater {
        CompareSeqTrans(a, b, c);
      }
    }
  }
}
