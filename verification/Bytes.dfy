/** Byte strings and the order in which the search tree keeps its keys. */
module Bytes {

  type byte = b: int | 0 <= b < 256

  type bytes = seq<byte>

  /** A 32-byte digest, the shape of a BLAKE3 hash. */
  type Digest = d: bytes | |d| == 32 witness seq(32, _ => 0)

  /** The hash function is a parameter of everything that hashes. */
  type Hasher = bytes -> Digest

  function Fill(n: nat, b: byte): (r: bytes)
    ensures |r| == n && forall i :: 0 <= i < n ==> r[i] == b
  {
    seq(n, _ => b)
  }

  /** Lexicographic order, a proper prefix coming first. */
  predicate Leq(a: bytes, b: bytes) {
    a == [] || (b != [] && (a[0] < b[0] || (a[0] == b[0] && Leq(a[1..], b[1..]))))
  }

  lemma LeqReflexive(a: bytes)
    ensures Leq(a, a)
  {
  }

  lemma LeqTotal(a: bytes, b: bytes)
    ensures Leq(a, b) || Leq(b, a)
  {
  }

  lemma LeqAntisymmetric(a: bytes, b: bytes)
    requires Leq(a, b) && Leq(b, a)
    ensures a == b
  {
    if a != [] {
      LeqAntisymmetric(a[1..], b[1..]);
      assert a == [a[0]] + a[1..] && b == [b[0]] + b[1..];
    }
  }

  lemma LeqTransitive(a: bytes, b: bytes, c: bytes)
    requires Leq(a, b) && Leq(b, c)
    ensures Leq(a, c)
  {
    if a != [] && a[0] == b[0] == c[0] {
      LeqTransitive(a[1..], b[1..], c[1..]);
    }
  }

  /** Comparing heads of equal width first and tails second is how concatenations compare. */
  lemma {:induction false} LeqConcat(a: bytes, b: bytes, c: bytes, d: bytes)
    requires |a| == |b|
    ensures Leq(a + c, b + d) <==> (Leq(a, b) && (a == b ==> Leq(c, d)))
  {
    if a == [] {
      assert a + c == c && b + d == d;
    } else {
      assert (a + c)[1..] == a[1..] + c && (b + d)[1..] == b[1..] + d;
      assert a == [a[0]] + a[1..] && b == [b[0]] + b[1..];
      LeqConcat(a[1..], b[1..], c, d);
    }
  }

  /** All-zero and all-ones segments bracket every segment of their width. */
  lemma {:induction false} FillBrackets(s: bytes)
    ensures Leq(Fill(|s|, 0), s) && Leq(s, Fill(|s|, 255))
  {
    if s != [] {
      FillBrackets(s[1..]);
      assert Fill(|s|, 0)[1..] == Fill(|s[1..]|, 0);
      assert Fill(|s|, 255)[1..] == Fill(|s[1..]|, 255);
    }
  }

  lemma {:induction false} LeqHeads(p: bytes, q: bytes, lo: bytes, s: bytes, hi: bytes)
    requires |p| == |q| && Leq(lo, s) && Leq(s, hi)
    ensures Leq(p + lo, q + s) && Leq(q + s, p + hi) <==> p == q
  {
    LeqConcat(p, q, lo, s);
    LeqConcat(q, p, s, hi);
    LeqReflexive(p);
    if Leq(p, q) && Leq(q, p) {
      LeqAntisymmetric(p, q);
    }
  }

  /** Between a prefix padded with zeroes and the same prefix padded with ones
      lie exactly the segments of that width that start with the prefix. */
  lemma {:induction false} PaddingBrackets(p: bytes, s: bytes)
    requires |p| <= |s|
    ensures Leq(p + Fill(|s| - |p|, 0), s) && Leq(s, p + Fill(|s| - |p|, 255)) <==> s[..|p|] == p
  {
    FillBrackets(s[|p|..]);
    LeqHeads(p, s[..|p|], Fill(|s| - |p|, 0), s[|p|..], Fill(|s| - |p|, 255));
    assert s == s[..|p|] + s[|p|..];
  }

  /** The least element of a non-empty finite set of byte strings. */
  lemma {:induction false} LeastExists(s: set<bytes>) returns (least: bytes)
    requires s != {}
    ensures least in s && forall k :: k in s ==> Leq(least, k)
  {
    least :| least in s;
    var rest := s - {least};
    LeqReflexive(least);
    if rest == {} {
      assert s == {least};
    } else {
      var other := LeastExists(rest);
      LeqTotal(least, other);
      if Leq(least, other) {
        forall k | k in s ensures Leq(least, k) {
          if k != least {
            LeqTransitive(least, other, k);
          }
        }
      } else {
        least := other;
      }
    }
  }

  ghost predicate Ascending(ks: seq<bytes>) {
    forall i, j :: 0 <= i < j < |ks| ==> Leq(ks[i], ks[j]) && ks[i] != ks[j]
  }

  /** The elements of a finite set in ascending order: what a range read of the
      ordered search tree streams back. */
  function Sorted(s: set<bytes>): (ks: seq<bytes>)
    ensures Ascending(ks)
    ensures forall k :: k in ks <==> k in s
  {
    if s == {} then
      []
    else
      assert exists least :: least in s && forall k :: k in s ==> Leq(least, k) by {
        var _ := LeastExists(s);
      }
      assert forall x, y :: x in s && y in s && Leq(x, y) && Leq(y, x) ==> x == y by {
        forall x, y | x in s && y in s && Leq(x, y) && Leq(y, x) ensures x == y {
          LeqAntisymmetric(x, y);
        }
      }
      var least :| least in s && forall k :: k in s ==> Leq(least, k);
      [least] + Sorted(s - {least})
  }
}
