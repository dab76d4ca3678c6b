/** Order-preserving merges of two sequences: the only ordering the event bus
    guarantees is that each producer's own events arrive in the order it sent
    them. */
module Merge {

  /** `m` holds every element of `a` and of `b`, and nothing else, with the
      elements of `a` in their order and those of `b` in theirs. */
  predicate Interleaving<T(==)>(m: seq<T>, a: seq<T>, b: seq<T>)
    decreases |m|
  {
    if m == [] then a == [] && b == []
    else
      || (a != [] && m[0] == a[0] && Interleaving(m[1..], a[1..], b))
      || (b != [] && m[0] == b[0] && Interleaving(m[1..], a, b[1..]))
  }

  /** A merge is exactly as long as its two parts together. */
  lemma {:induction false} InterleavingLength<T>(m: seq<T>, a: seq<T>, b: seq<T>)
    requires Interleaving(m, a, b)
    ensures |m| == |a| + |b|
    decreases |m|
  {
    if m != [] {
      if a != [] && m[0] == a[0] && Interleaving(m[1..], a[1..], b) {
        InterleavingLength(m[1..], a[1..], b);
      } else {
        InterleavingLength(m[1..], a, b[1..]);
      }
    }
  }

  /** Merging with nothing changes nothing, on either side. */
  lemma {:induction false} InterleavingWithEmpty<T>(m: seq<T>, a: seq<T>, b: seq<T>)
    requires Interleaving(m, a, b)
    ensures b == [] ==> m == a
    ensures a == [] ==> m == b
    decreases |m|
  {
    if m != [] {
      if a != [] && m[0] == a[0] && Interleaving(m[1..], a[1..], b) {
        InterleavingWithEmpty(m[1..], a[1..], b);
      } else {
        InterleavingWithEmpty(m[1..], a, b[1..]);
      }
    }
  }

  /** Cutting a merge anywhere cuts each part at some point: the first `j`
      elements of `m` merge a prefix of `a` with a prefix of `b`, and the rest
      of `m` merges what is left of each. */
  lemma {:induction false} SplitInterleaving<T>(m: seq<T>, a: seq<T>, b: seq<T>, j: nat)
    returns (i: nat, k: nat)
    requires Interleaving(m, a, b)
    requires j <= |m|
    ensures i <= |a| && k <= |b|
    ensures Interleaving(m[..j], a[..i], b[..k])
    ensures Interleaving(m[j..], a[i..], b[k..])
    decreases j
  {
    if j == 0 {
      i, k := 0, 0;
      assert m[..0] == [] && a[..0] == [] && b[..0] == [];
      assert m[0..] == m && a[0..] == a && b[0..] == b;
    } else if a != [] && m[0] == a[0] && Interleaving(m[1..], a[1..], b) {
      var i', k' := SplitInterleaving(m[1..], a[1..], b, j - 1);
      i, k := i' + 1, k';
      assert m[..j][1..] == m[1..][..j - 1];
      assert a[..i][1..] == a[1..][..i'];
      assert m[1..][j - 1..] == m[j..];
      assert a[1..][i'..] == a[i..];
    } else {
      var i', k' := SplitInterleaving(m[1..], a, b[1..], j - 1);
      i, k := i', k' + 1;
      assert m[..j][1..] == m[1..][..j - 1];
      assert b[..k][1..] == b[1..][..k'];
      assert m[1..][j - 1..] == m[j..];
      assert b[1..][k'..] == b[k..];
    }
  }
}
