/** How entity URIs, attribute names and prefix bounds become key segments. */
module Names {
  import opened Bytes
  import opened Keys

  const SLASH: byte := 47

  type Uri = bytes

  /** At most 64 bytes, and of the form namespace/predicate. */
  type Attribute = a: bytes | |a| <= ATTRIBUTE_LENGTH && SLASH in a witness [SLASH]

  predicate NulFree(s: bytes) {
    forall i :: 0 <= i < |s| ==> s[i] != 0
  }

  predicate IsPrefix(p: bytes, s: bytes) {
    |p| <= |s| && s[..|p|] == p
  }

  /** The text padded with zeroes to a fixed width. */
  function Padded(s: bytes, width: nat): (r: bytes)
    requires |s| <= width
    ensures |r| == width
  {
    s + Fill(width - |s|, 0)
  }

  /** Two padded texts agree exactly when one is the other with NULs appended. */
  lemma {:induction false} PaddedCollision(s: bytes, t: bytes, width: nat)
    requires |s| <= |t| <= width
    ensures Padded(s, width) == Padded(t, width) <==> t == s + Fill(|t| - |s|, 0)
  {
    var zs, zt := Fill(width - |s|, 0), Fill(width - |t|, 0);
    if Padded(s, width) == Padded(t, width) {
      assert t == Padded(t, width)[..|t|] == Padded(s, width)[..|t|];
      assert Padded(s, width)[..|t|] == s + zs[..|t| - |s|];
    }
    if t == s + Fill(|t| - |s|, 0) {
      assert Padded(t, width) == s + (Fill(|t| - |s|, 0) + zt);
      assert Fill(|t| - |s|, 0) + zt == zs;
    }
  }

  function AttributeBytes(a: Attribute): (r: bytes)
    ensures |r| == ATTRIBUTE_LENGTH
  {
    Padded(a, ATTRIBUTE_LENGTH)
  }

  lemma {:induction false} AttributeBytesInjective(a: Attribute, b: Attribute)
    requires NulFree(a) && NulFree(b)
    ensures AttributeBytes(a) == AttributeBytes(b) <==> a == b
  {
    if |a| <= |b| {
      PaddedCollision(a, b, ATTRIBUTE_LENGTH);
      assert |a| < |b| ==> (a + Fill(|b| - |a|, 0))[|a|] == 0;
    } else {
      PaddedCollision(b, a, ATTRIBUTE_LENGTH);
      assert (b + Fill(|a| - |b|, 0))[|b|] == 0;
    }
  }

  /** The first 32 bytes of the URI raw, then the hash of the rest; a shorter
      URI is padded with zeroes instead. */
  function EntityBytes(h: Hasher, uri: Uri): (r: bytes)
    ensures |r| == ENTITY_LENGTH
  {
    if |uri| >= ENTITY_RAW_HEAD then
      uri[..ENTITY_RAW_HEAD] + h(uri[ENTITY_RAW_HEAD..])
    else
      Padded(uri, ENTITY_LENGTH)
  }

  /** The hash tells the tails of these two URIs apart. */
  predicate TailsDistinguished(h: Hasher, u: Uri, w: Uri) {
    |u| >= ENTITY_RAW_HEAD && |w| >= ENTITY_RAW_HEAD && h(u[ENTITY_RAW_HEAD..]) == h(w[ENTITY_RAW_HEAD..])
    ==> u[ENTITY_RAW_HEAD..] == w[ENTITY_RAW_HEAD..]
  }

  /** The boundary at exactly 32 bytes included: there the tail is the hash of
      nothing, and one byte less leaves a zero inside the raw head. */
  lemma {:induction false} EntityBytesInjective(h: Hasher, u: Uri, w: Uri)
    requires NulFree(u) && NulFree(w) && TailsDistinguished(h, u, w)
    ensures EntityBytes(h, u) == EntityBytes(h, w) <==> u == w
  {
    var ru, rw := EntityBytes(h, u), EntityBytes(h, w);
    if |u| >= ENTITY_RAW_HEAD && |w| >= ENTITY_RAW_HEAD {
      assert u[..ENTITY_RAW_HEAD] == ru[..ENTITY_RAW_HEAD] && w[..ENTITY_RAW_HEAD] == rw[..ENTITY_RAW_HEAD];
      assert h(u[ENTITY_RAW_HEAD..]) == ru[ENTITY_RAW_HEAD..] && h(w[ENTITY_RAW_HEAD..]) == rw[ENTITY_RAW_HEAD..];
      assert u == u[..ENTITY_RAW_HEAD] + u[ENTITY_RAW_HEAD..] && w == w[..ENTITY_RAW_HEAD] + w[ENTITY_RAW_HEAD..];
    } else if |u| >= ENTITY_RAW_HEAD {
      assert rw[|w|] == 0 && ru[|w|] == u[|w|];
    } else if |w| >= ENTITY_RAW_HEAD {
      assert ru[|u|] == 0 && rw[|u|] == w[|u|];
    } else if |u| <= |w| {
      PaddedCollision(u, w, ENTITY_LENGTH);
      assert |u| < |w| ==> (u + Fill(|w| - |u|, 0))[|u|] == 0;
    } else {
      PaddedCollision(w, u, ENTITY_LENGTH);
      assert (w + Fill(|u| - |w|, 0))[|w|] == 0;
    }
  }

  /** Writes a URI's segment into a zeroed buffer, run by run. */
  method KeyBytes(h: Hasher, uri: Uri) returns (key: array<byte>)
    ensures fresh(key) && key[..] == EntityBytes(h, uri)
    ensures forall i :: 0 <= i < |uri| && i < 32 ==> key.Length == 64 && key[i] == uri[i]
    ensures |uri| >= 32 ==> key[32..] == h(uri[32..])
    ensures |uri| < 32 ==> forall i :: |uri| <= i < 64 ==> key.Length == 64 && key[i] == 0
  {
    key := new byte[ENTITY_LENGTH](_ => 0);
    if ENTITY_RAW_HEAD <= |uri| {
      var rest := h(uri[ENTITY_RAW_HEAD..]);
      forall i | 0 <= i < ENTITY_RAW_HEAD { key[i] := uri[i]; }
      forall i | 0 <= i < ENTITY_RAW_HEAD { key[ENTITY_RAW_HEAD + i] := rest[i]; }
    } else {
      forall i | 0 <= i < |uri| { key[i] := uri[i]; }
    }
  }

  // ---- Prefix bounds

  function Min(a: nat, b: nat): nat {
    if a <= b then a else b
  }

  /** How much of a prefix a segment of this width can be compared with. */
  function Take(prefix: bytes, head: nat, width: nat): nat {
    Min(Min(|prefix|, head), width)
  }

  function PrefixSegment(prefix: bytes, head: nat, width: nat, fill: byte): (r: bytes)
    ensures |r| == width
  {
    var take := Take(prefix, head, width);
    prefix[..take] + Fill(width - take, fill)
  }

  /** Fills a buffer and copies the prefix over its start. */
  method FillPrefixSegment(prefix: bytes, head: nat, width: nat, fill: byte) returns (segment: array<byte>)
    ensures fresh(segment) && segment[..] == PrefixSegment(prefix, head, width, fill)
  {
    segment := new byte[width](_ => fill);
    var take := Take(prefix, head, width);
    forall i | 0 <= i < take { segment[i] := prefix[i]; }
  }

  /** The low and high segments bracket exactly the segments that share the
      comparable part of the prefix. */
  lemma {:induction false} PrefixSegmentBrackets(prefix: bytes, head: nat, s: bytes)
    ensures Leq(PrefixSegment(prefix, head, |s|, 0), s) && Leq(s, PrefixSegment(prefix, head, |s|, 255))
            <==> IsPrefix(prefix[..Take(prefix, head, |s|)], s)
  {
    PaddingBrackets(prefix[..Take(prefix, head, |s|)], s);
  }

  /** What the key alone can say about a URI prefix. */
  predicate EntityHeadMatches(prefix: bytes, segment: bytes)
    requires |segment| == ENTITY_LENGTH
  {
    IsPrefix(prefix[..Min(|prefix|, ENTITY_RAW_HEAD)], segment)
  }

  /** Every URI with a prefix passes the key check and lies in the prefix's range. */
  lemma {:induction false} EntityPrefixInside(h: Hasher, prefix: bytes, uri: Uri)
    requires IsPrefix(prefix, uri)
    ensures EntityHeadMatches(prefix, EntityBytes(h, uri))
    ensures Leq(PrefixSegment(prefix, ENTITY_RAW_HEAD, ENTITY_LENGTH, 0), EntityBytes(h, uri))
    ensures Leq(EntityBytes(h, uri), PrefixSegment(prefix, ENTITY_RAW_HEAD, ENTITY_LENGTH, 255))
  {
    var head := prefix[..Min(|prefix|, ENTITY_RAW_HEAD)];
    assert EntityBytes(h, uri)[..|head|] == uri[..|head|] == head;
    PrefixSegmentBrackets(prefix, ENTITY_RAW_HEAD, EntityBytes(h, uri));
  }

  /** The key check and the re-check of long prefixes against the stored URI are
      together exact, except that a short URI also passes for prefixes that
      continue it with nothing but NULs. */
  lemma {:induction false} EntityPrefixExact(h: Hasher, prefix: bytes, uri: Uri)
    ensures EntityHeadMatches(prefix, EntityBytes(h, uri)) && (|prefix| > ENTITY_RAW_HEAD ==> IsPrefix(prefix, uri))
            <==> IsPrefix(prefix, uri) ||
                 (|uri| < |prefix| <= ENTITY_RAW_HEAD && prefix == Padded(uri, |prefix|))
  {
    if IsPrefix(prefix, uri) {
      EntityPrefixInside(h, prefix, uri);
    } else if |prefix| <= ENTITY_RAW_HEAD {
      assert prefix[..|prefix|] == prefix;
      var segment := EntityBytes(h, uri);
      if |prefix| <= |uri| {
        assert segment[..|prefix|] == uri[..|prefix|];
      } else {
        assert segment[..|prefix|] == Padded(uri, |prefix|);
      }
    }
  }

  /** What the key says about an attribute prefix. */
  predicate AttributePrefixMatches(prefix: bytes, segment: bytes)
    requires |segment| == ATTRIBUTE_LENGTH
  {
    IsPrefix(prefix, segment)
  }

  lemma {:induction false} AttributePrefixExact(prefix: bytes, a: Attribute)
    ensures AttributePrefixMatches(prefix, AttributeBytes(a))
            <==> IsPrefix(prefix, a) ||
                 (|a| < |prefix| <= ATTRIBUTE_LENGTH && prefix == Padded(a, |prefix|))
  {
    var segment := AttributeBytes(a);
    if |prefix| <= |a| {
      assert segment[..|prefix|] == a[..|prefix|];
    } else if |prefix| <= ATTRIBUTE_LENGTH {
      assert segment[..|prefix|] == Padded(a, |prefix|);
    }
  }
}
