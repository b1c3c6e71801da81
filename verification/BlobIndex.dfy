/** The blob index: records of referenced blobs, in the same tree as the facts. */
module BlobIndex {
  import opened Bytes
  import opened Keys
  import opened Options
  import opened Facts
  import opened FactTree
  import Mutation
  import Scanning

  const BLOB_KEY_TAG: byte := 4
  const BLOB_RECORD_VERSION: byte := 1
  const SIZE_BYTES := 8

  type u64 = n: nat | n < 0x1_0000_0000_0000_0000

  datatype BlobRecord = BlobRecord(version: byte, size: u64)

  // ---- The record and its bytes

  function BigEndian(n: nat, width: nat): (r: bytes)
    ensures |r| == width
  {
    if width == 0 then [] else BigEndian(n / 256, width - 1) + [n % 256]
  }

  function FromBigEndian(s: bytes): nat {
    if s == [] then 0 else 256 * FromBigEndian(s[..|s| - 1]) + s[|s| - 1]
  }

  function Power256(width: nat): (r: nat)
    ensures r > 0
  {
    if width == 0 then 1 else 256 * Power256(width - 1)
  }

  lemma {:induction false} BigEndianRoundTrip(n: nat, width: nat)
    requires n < Power256(width)
    ensures FromBigEndian(BigEndian(n, width)) == n
  {
    if width > 0 {
      BigEndianRoundTrip(n / 256, width - 1);
      var r := BigEndian(n, width);
      assert r[..|r| - 1] == BigEndian(n / 256, width - 1);
    }
  }

  /** The bytes sort as the numbers do: the most significant come first. */
  lemma {:induction false} BigEndianOrder(n: nat, m: nat, width: nat)
    requires n < Power256(width) && m < Power256(width)
    ensures Leq(BigEndian(n, width), BigEndian(m, width)) <==> n <= m
    decreases width
  {
    if width > 0 {
      var x, y := BigEndian(n / 256, width - 1), BigEndian(m / 256, width - 1);
      BigEndianOrder(n / 256, m / 256, width - 1);
      BigEndianOrder(m / 256, n / 256, width - 1);
      LeqConcat(x, y, [n % 256], [m % 256]);
      BigEndianRoundTrip(n / 256, width - 1);
      BigEndianRoundTrip(m / 256, width - 1);
      assert Leq([n % 256], [m % 256]) <==> n % 256 <= m % 256;
    }
  }

  lemma {:induction false} FromBigEndianBound(s: bytes)
    ensures FromBigEndian(s) < Power256(|s|)
  {
    if s != [] {
      FromBigEndianBound(s[..|s| - 1]);
    }
  }

  lemma SizeFits()
    ensures Power256(SIZE_BYTES) == 0x1_0000_0000_0000_0000
  {
    assert Power256(2) == 65536;
    assert Power256(4) == 0x1_0000_0000;
    assert Power256(6) == 0x1_0000_0000_0000;
  }

  function IntoState(r: BlobRecord): State {
    Added(Datum([], [], 0, [r.version] + BigEndian(r.size, SIZE_BYTES), None))
  }

  datatype Decoded = Malformed | Missing | Found(record: BlobRecord)

  function FromState(s: State): Decoded {
    match s
    case Removed => Missing
    case Added(datum) =>
      if |datum.value| == 1 + SIZE_BYTES && datum.value[0] == BLOB_RECORD_VERSION then
        assert FromBigEndian(datum.value[1..]) < 0x1_0000_0000_0000_0000 by {
          FromBigEndianBound(datum.value[1..]);
          SizeFits();
        }
        Found(BlobRecord(BLOB_RECORD_VERSION, FromBigEndian(datum.value[1..])))
      else
        Malformed
  }

  /** A stored record reads back exactly when it has the current version. */
  lemma {:induction false} RecordRoundTrip(r: BlobRecord)
    ensures FromState(IntoState(r)) == if r.version == 1 then Found(r) else Malformed
    ensures IntoState(r).datum.value == [r.version] + BigEndian(r.size, 8)
  {
    SizeFits();
    BigEndianRoundTrip(r.size, SIZE_BYTES);
    assert ([r.version] + BigEndian(r.size, SIZE_BYTES))[1..] == BigEndian(r.size, SIZE_BYTES);
  }

  // ---- Keys

  function BlobMin(): Key {
    Fill(KEY_LENGTH, 0)[0 := BLOB_KEY_TAG]
  }

  function BlobMax(): Key {
    Fill(KEY_LENGTH, 255)[0 := BLOB_KEY_TAG]
  }

  function HashPart(key: Key): Digest {
    key[TAG_LENGTH..TAG_LENGTH + 32]
  }

  function BlobKey(hash: Digest): (key: Key)
    ensures key[0] == BLOB_KEY_TAG && HashPart(key) == hash
  {
    Write(BlobMin(), TAG_LENGTH, hash)
  }

  lemma {:induction false} BlobKeyLayout(hash: Digest)
    ensures BlobKey(hash) == [4] + hash + Fill(129, 0)
  {
  }

  /** Blob keys sort as their hashes do. */
  lemma {:induction false} BlobKeyOrder(g: Digest, h: Digest)
    ensures Leq(BlobKey(g), BlobKey(h)) <==> Leq(g, h)
  {
    var tail := Fill(KEY_LENGTH - 33, 0);
    BlobKeyLayout(g);
    BlobKeyLayout(h);
    LeqReflexive(tail);
    assert [BLOB_KEY_TAG] + g + tail == [BLOB_KEY_TAG] + (g + tail);
    assert [BLOB_KEY_TAG] + h + tail == [BLOB_KEY_TAG] + (h + tail);
    LeqConcat(g, h, tail, tail);
    LeqConcat([BLOB_KEY_TAG], [BLOB_KEY_TAG], g + tail, h + tail);
  }

  /** The blob range holds exactly the keys with the blob tag. */
  lemma {:induction false} BlobRange(key: Key)
    ensures Leq(BlobMin(), key) && Leq(key, BlobMax()) <==> key[0] == BLOB_KEY_TAG
  {
    assert BlobMin() == [BLOB_KEY_TAG] + Fill(KEY_LENGTH - 1, 0);
    assert BlobMax() == [BLOB_KEY_TAG] + Fill(KEY_LENGTH - 1, 255);
    PaddingBrackets([BLOB_KEY_TAG], key);
    assert key[..1] == [key[0]];
  }

  // ---- The index in the tree

  type Blobs = map<Digest, BlobRecord>

  /** Outside the fact indexes the tree holds these records and nothing else. */
  ghost predicate HoldsBlobs(tree: Tree, blobs: Blobs) {
    && (forall hash :: hash in blobs ==> BlobKey(hash) in tree && tree[BlobKey(hash)] == IntoState(blobs[hash]))
    && (forall k :: k in tree && k[0] > VAE.Tag() ==> HashPart(k) in blobs && k == BlobKey(HashPart(k)))
  }

  function PutBlob(tree: Tree, hash: Digest, record: BlobRecord): Tree {
    tree[BlobKey(hash) := IntoState(record)]
  }

  function GetBlob(tree: Tree, hash: Digest): Decoded {
    if BlobKey(hash) in tree then FromState(tree[BlobKey(hash)]) else Missing
  }

  lemma {:induction false} PutBlobKeepsFacts(h: Hasher, tree: Tree, hash: Digest, record: BlobRecord)
    requires Consistent(h, tree)
    ensures Consistent(h, PutBlob(tree, hash, record)) && Live(PutBlob(tree, hash, record)) == Live(tree)
  {
    var next, key := PutBlob(tree, hash, record), BlobKey(hash);
    forall p: Parts | p.Valid()
      ensures Agree(next, p)
      ensures FromParts(EAV, p) in next ==> next[FromParts(EAV, p)].Added? ==> Carries(h, next[FromParts(EAV, p)], p)
    {
      assert Agree(tree, p);
      NotABlobKey(EAV, p, key);
      NotABlobKey(AEV, p, key);
      NotABlobKey(VAE, p, key);
    }
  }

  lemma {:induction false} NotABlobKey(ix: Index, p: Parts, key: Key)
    requires p.Valid() && key[0] == BLOB_KEY_TAG
    ensures FromParts(ix, p) != key
  {
  }

  lemma {:induction false} PutBlobHolds(tree: Tree, blobs: Blobs, hash: Digest, record: BlobRecord)
    requires HoldsBlobs(tree, blobs)
    ensures HoldsBlobs(PutBlob(tree, hash, record), blobs[hash := record])
  {
  }

  lemma {:induction false} FactsKeepBlobs(tree: Tree, next: Tree, blobs: Blobs)
    requires HoldsBlobs(tree, blobs) && SameElsewhere(tree, next)
    ensures HoldsBlobs(next, blobs)
  {
  }

  /** A lookup finds the record held for a hash, if its version can be read. */
  lemma {:induction false} GetBlobFinds(tree: Tree, blobs: Blobs, hash: Digest)
    requires HoldsBlobs(tree, blobs)
    ensures GetBlob(tree, hash) ==
              if hash !in blobs then Missing
              else if blobs[hash].version == BLOB_RECORD_VERSION then Found(blobs[hash])
              else Malformed
  {
    if hash in blobs {
      RecordRoundTrip(blobs[hash]);
    }
  }

  // ---- Listing

  ghost predicate AscendingByHash(out: seq<(Digest, BlobRecord)>) {
    forall i, j :: 0 <= i < j < |out| ==> Leq(out[i].0, out[j].0) && out[i].0 != out[j].0
  }

  function BlobKeys(tree: Tree): (keys: seq<Key>)
    ensures forall i :: 0 <= i < |keys| ==> keys[i] in tree
  {
    var keys := Scanning.RangeKeys(tree, BlobMin(), BlobMax());
    assert forall i :: 0 <= i < |keys| ==> keys[i] in keys;
    keys
  }

  function Readable(blobs: Blobs, hash: Digest): Decoded
    requires hash in blobs
  {
    if blobs[hash].version == BLOB_RECORD_VERSION then Found(blobs[hash]) else Malformed
  }

  lemma {:induction false} BlobEntry(tree: Tree, blobs: Blobs, i: nat)
    requires HoldsBlobs(tree, blobs) && i < |BlobKeys(tree)|
    ensures var k := BlobKeys(tree)[i];
            HashPart(k) in blobs && k == BlobKey(HashPart(k)) && FromState(tree[k]) == Readable(blobs, HashPart(k))
  {
    var k := BlobKeys(tree)[i];
    assert k in BlobKeys(tree);
    BlobRange(k);
    GetBlobFinds(tree, blobs, HashPart(k));
  }

  lemma {:induction false} BlobListed(tree: Tree, blobs: Blobs, hash: Digest) returns (i: nat)
    requires HoldsBlobs(tree, blobs) && hash in blobs
    ensures i < |BlobKeys(tree)| && HashPart(BlobKeys(tree)[i]) == hash
  {
    BlobRange(BlobKey(hash));
    assert BlobKey(hash) in BlobKeys(tree);
    i :| 0 <= i < |BlobKeys(tree)| && BlobKeys(tree)[i] == BlobKey(hash);
  }

  lemma {:induction false} BlobsInOrder(tree: Tree, blobs: Blobs, i: nat, j: nat)
    requires HoldsBlobs(tree, blobs) && i < j < |BlobKeys(tree)|
    ensures Leq(HashPart(BlobKeys(tree)[i]), HashPart(BlobKeys(tree)[j]))
    ensures HashPart(BlobKeys(tree)[i]) != HashPart(BlobKeys(tree)[j])
  {
    var keys := BlobKeys(tree);
    BlobEntry(tree, blobs, i);
    BlobEntry(tree, blobs, j);
    BlobKeyOrder(HashPart(keys[i]), HashPart(keys[j]));
  }

  /** Decodes the entries of a range in turn, up to the first it cannot read. */
  method DecodeAll(tree: Tree, keys: seq<Key>) returns (out: seq<(Digest, BlobRecord)>, failed: bool)
    requires forall i :: 0 <= i < |keys| ==> keys[i] in tree && !FromState(tree[keys[i]]).Missing?
    ensures |out| <= |keys|
    ensures forall i :: 0 <= i < |out| ==> out[i].0 == HashPart(keys[i]) && FromState(tree[keys[i]]) == Found(out[i].1)
    ensures if failed then |out| < |keys| && FromState(tree[keys[|out|]]).Malformed? else |out| == |keys|
  {
    out, failed := [], false;
    for n := 0 to |keys|
      invariant |out| == n
      invariant forall i :: 0 <= i < n ==> out[i].0 == HashPart(keys[i]) && FromState(tree[keys[i]]) == Found(out[i].1)
    {
      var decoded := FromState(tree[keys[n]]);
      if decoded.Malformed? {
        return out, true;
      }
      out := out + [(HashPart(keys[n]), decoded.record)];
    }
  }

  /** Streams every record in hash order; fails exactly when some record cannot be read. */
  method ListBlobs(tree: Tree, ghost blobs: Blobs) returns (out: seq<(Digest, BlobRecord)>, failed: bool)
    requires HoldsBlobs(tree, blobs)
    ensures AscendingByHash(out)
    ensures forall i :: 0 <= i < |out| ==> out[i].0 in blobs && out[i].1 == blobs[out[i].0]
    ensures failed <==> exists hash :: hash in blobs && blobs[hash].version != BLOB_RECORD_VERSION
    ensures !failed ==> forall hash :: hash in blobs ==> (hash, blobs[hash]) in out
  {
    hide HoldsBlobs, BlobKeys, FromState, HashPart, Leq;
    var keys := BlobKeys(tree);
    forall i | 0 <= i < |keys|
        ensures HashPart(keys[i]) in blobs && FromState(tree[keys[i]]) == Readable(blobs, HashPart(keys[i])) {
      BlobEntry(tree, blobs, i);
    }
    out, failed := DecodeAll(tree, keys);
    forall i, j | 0 <= i < j < |out| ensures Leq(out[i].0, out[j].0) && out[i].0 != out[j].0 {
      BlobsInOrder(tree, blobs, i, j);
    }
    if !failed {
      forall hash | hash in blobs ensures (hash, blobs[hash]) in out && blobs[hash].version == BLOB_RECORD_VERSION {
        var i := BlobListed(tree, blobs, hash);
        assert out[i] == (hash, blobs[hash]);
      }
    } else {
      assert blobs[HashPart(keys[|out|])].version != BLOB_RECORD_VERSION;
    }
  }

  // ---- Facts and blobs interleaved

  datatype Operation = Batch(instructions: seq<Instruction>) | Blob(hash: Digest, record: BlobRecord)

  function Instructions(ops: seq<Operation>): seq<Instruction> {
    if ops == [] then []
    else match ops[|ops| - 1]
         case Batch(instructions) => Instructions(ops[..|ops| - 1]) + instructions
         case Blob(_, _) => Instructions(ops[..|ops| - 1])
  }

  function LastPut(ops: seq<Operation>): Blobs {
    if ops == [] then map[]
    else match ops[|ops| - 1]
         case Batch(_) => LastPut(ops[..|ops| - 1])
         case Blob(hash, record) => LastPut(ops[..|ops| - 1])[hash := record]
  }

  lemma {:induction false} OneMore(ops: seq<Operation>, n: nat)
    requires n < |ops|
    ensures match ops[n]
            case Batch(instructions) =>
              Instructions(ops[..n + 1]) == Instructions(ops[..n]) + instructions &&
                LastPut(ops[..n + 1]) == LastPut(ops[..n])
            case Blob(hash, record) =>
              Instructions(ops[..n + 1]) == Instructions(ops[..n]) &&
                LastPut(ops[..n + 1]) == LastPut(ops[..n])[hash := record]
  {
    assert ops[..n + 1][..n] == ops[..n];
  }

  /** The tree holds the facts of these instructions and these records. */
  ghost predicate Holds(h: Hasher, tree: Tree, done: seq<Instruction>, blobs: Blobs) {
    Consistent(h, tree) && Live(tree) == Fold(h, map[], done) && HoldsBlobs(tree, blobs)
  }

  lemma {:induction false} EmptyHolds(h: Hasher)
    ensures Holds(h, map[], [], map[])
  {
  }

  method RunBatch(h: Hasher, tree: Tree, ghost done: seq<Instruction>, ghost blobs: Blobs,
          instructions: seq<Instruction>) returns (next: Tree, failed: bool)
    requires Holds(h, tree, done, blobs)
    ensures failed <==> FailsIn(h, Live(tree), instructions)
    ensures failed ==> next == tree
    ensures !failed ==> Holds(h, next, done + instructions, blobs)
  {
    hide Consistent, Live, Fold, HoldsBlobs, FailsIn, SameElsewhere;
    next, failed := Mutation.Apply(h, tree, instructions);
    FactsKeepBlobs(tree, next, blobs);
    FoldAppends(h, map[], done, instructions);
  }

  method RunBlob(h: Hasher, tree: Tree, ghost done: seq<Instruction>, ghost blobs: Blobs, hash: Digest,
          record: BlobRecord) returns (next: Tree)
    requires Holds(h, tree, done, blobs)
    ensures Holds(h, next, done, blobs[hash := record])
  {
    PutBlobKeepsFacts(h, tree, hash, record);
    PutBlobHolds(tree, blobs, hash, record);
    next := PutBlob(tree, hash, record);
  }

  /** Any interleaving of instruction batches and blob writes, up to a batch that fails: the facts are those
      of the batches alone, the records those last put. */
  method RunAll(h: Hasher, ops: seq<Operation>) returns (tree: Tree, failed: bool)
    ensures failed <==> FailsIn(h, map[], Instructions(ops))
    ensures !failed ==> Holds(h, tree, Instructions(ops), LastPut(ops))
  {
    hide FailsIn, Instructions, LastPut, Holds;
    EmptyHolds(h);
    NothingRun(h, ops);
    tree, failed := map[], false;
    for n := 0 to |ops|
      invariant !failed && !FailsIn(h, map[], Instructions(ops[..n]))
      invariant Holds(h, tree, Instructions(ops[..n]), LastPut(ops[..n]))
    {
      OneMore(ops, n);
      if ops[n].Batch? {
        HoldsFacts(h, tree, Instructions(ops[..n]), LastPut(ops[..n]));
        FailsAppends(h, map[], Instructions(ops[..n]), ops[n].instructions);
        StillFails(h, ops, n + 1);
        tree, failed := RunBatch(h, tree, Instructions(ops[..n]), LastPut(ops[..n]), ops[n].instructions);
        if failed {
          return;
        }
      } else {
        tree := RunBlob(h, tree, Instructions(ops[..n]), LastPut(ops[..n]), ops[n].hash, ops[n].record);
      }
    }
    assert ops[..|ops|] == ops;
  }

  lemma {:induction false} NothingRun(h: Hasher, ops: seq<Operation>)
    ensures Instructions(ops[..0]) == [] && LastPut(ops[..0]) == map[] && !FailsIn(h, map[], [])
  {
  }

  lemma {:induction false} HoldsFacts(h: Hasher, tree: Tree, done: seq<Instruction>, blobs: Blobs)
    requires Holds(h, tree, done, blobs)
    ensures Live(tree) == Fold(h, map[], done)
  {
  }

  /** A history that has failed stays failed. */
  lemma {:induction false} StillFails(h: Hasher, ops: seq<Operation>, n: nat)
    requires n <= |ops|
    ensures FailsIn(h, map[], Instructions(ops[..n])) ==> FailsIn(h, map[], Instructions(ops))
    decreases |ops| - n
  {
    hide FailsIn, Instructions, LastPut;
    if n == |ops| {
      assert ops[..n] == ops;
    } else {
      StillFails(h, ops, n + 1);
      OneMore(ops, n);
      if ops[n].Batch? {
        FailsAppends(h, map[], Instructions(ops[..n]), ops[n].instructions);
      }
    }
  }
}
