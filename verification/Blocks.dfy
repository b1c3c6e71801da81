/**
 * The search tree on disk: content-addressed blocks that hold entries or link to other
 * blocks, and what it takes for a whole version of the tree to be readable.
 */
module Blocks {
  import opened Bytes
  import opened Keys
  import opened Options
  import opened FactTree

  type Hash = Digest

  datatype Entry = Entry(key: Key, state: State)

  /** A link carries the highest key below it. */
  datatype Link = Link(bound: Key, node: Hash)

  /** A stored block: entries, or links to other blocks. */
  datatype Block = SegmentBlock(entries: seq<Entry>) | IndexBlock(links: seq<Link>)

  /** A version of the tree as a value. */
  datatype Node = Segment(entries: seq<Entry>) | Inner(children: seq<Node>)

  /** No node is an empty tree; its revision is the null one. */
  type Version = Option<Node>

  type BlockMap = map<Hash, Block>

  function Entries(n: Node): seq<Entry> {
    match n
    case Segment(entries) => entries
    case Inner(children) => EntriesAll(children)
  }

  function EntriesAll(ns: seq<Node>): seq<Entry> {
    if ns == [] then [] else Entries(ns[0]) + EntriesAll(ns[1..])
  }

  /** The highest key of a node that has entries. */
  function Upper(n: Node): Key {
    var entries := Entries(n);
    if entries == [] then Fill(KEY_LENGTH, 0) else entries[|entries| - 1].key
  }

  function Encode(hash: Block -> Hash, n: Node): Block
    decreases n, 0
  {
    match n
    case Segment(entries) => SegmentBlock(entries)
    case Inner(children) =>
      IndexBlock(seq(|children|,
        i requires 0 <= i < |children| => Link(Upper(children[i]), Address(hash, children[i]))))
  }

  function Address(hash: Block -> Hash, n: Node): Hash
    decreases n, 1
  {
    hash(Encode(hash, n))
  }

  function NodesOf(n: Node): set<Node> {
    match n
    case Segment(_) => {n}
    case Inner(children) => {n} + set i, m | 0 <= i < |children| && m in NodesOf(children[i]) :: m
  }

  function Nodes(v: Version): set<Node> {
    if v.None? then {} else NodesOf(v.value)
  }

  predicate Holds(hash: Block -> Hash, blocks: BlockMap, n: Node) {
    Address(hash, n) in blocks && blocks[Address(hash, n)] == Encode(hash, n)
  }

  /** The whole tree can be read back. */
  predicate Durable(hash: Block -> Hash, blocks: BlockMap, v: Version) {
    forall n :: n in Nodes(v) ==> Holds(hash, blocks, n)
  }

  /** Every block is stored under its own hash. */
  predicate Addressed(hash: Block -> Hash, blocks: BlockMap) {
    forall h :: h in blocks ==> hash(blocks[h]) == h
  }

  /** No two of these blocks have one hash. */
  predicate CollisionFree(hash: Block -> Hash, blocks: set<Block>) {
    forall a, b :: a in blocks && b in blocks && hash(a) == hash(b) ==> a == b
  }

  function BlocksOf(hash: Block -> Hash, nodes: set<Node>): set<Block> {
    set n | n in nodes :: Encode(hash, n)
  }

  /** Nothing stored is lost or replaced. */
  ghost predicate Extended(before: BlockMap, after: BlockMap) {
    forall h :: h in before ==> h in after && after[h] == before[h]
  }

  /** Exactly these nodes have been written. */
  ghost predicate Flushed(hash: Block -> Hash, before: BlockMap, delta: set<Node>, after: BlockMap) {
    && Extended(before, after)
    && (forall n :: n in delta ==> Holds(hash, after, n))
    && (forall h :: h in after ==>
      h in before || exists n :: n in delta && Address(hash, n) == h && after[h] == Encode(hash, n))
  }

  /** What a batch may do to a tree: new nodes are in the delta, the others come from the tree it started with. */
  predicate Applied(index: Version, next: Version, delta: set<Node>) {
    delta <= Nodes(next) && Nodes(next) <= delta + Nodes(index)
  }

  // ---- Writing a block under its hash loses nothing

  lemma {:induction false} WriteKeeps(hash: Block -> Hash, blocks: BlockMap, n: Node)
    requires Addressed(hash, blocks) && CollisionFree(hash, blocks.Values + {Encode(hash, n)})
    ensures var after := blocks[Address(hash, n) := Encode(hash, n)];
            Addressed(hash, after) && Flushed(hash, blocks, {n}, after) &&
              after.Values <= blocks.Values + {Encode(hash, n)}
  {
    hide Encode;
    var after := blocks[Address(hash, n) := Encode(hash, n)];
    forall h | h in blocks ensures after[h] == blocks[h] {
      assert blocks[h] in blocks.Values;
    }
  }

  lemma {:induction false} FlushedNothing(hash: Block -> Hash, blocks: BlockMap)
    ensures Flushed(hash, blocks, {}, blocks)
  {
  }

  lemma {:induction false} FlushedTwice(hash: Block -> Hash, a: BlockMap, first: set<Node>, b: BlockMap,
          second: set<Node>, c: BlockMap)
    requires Flushed(hash, a, first, b) && Flushed(hash, b, second, c)
    ensures Flushed(hash, a, first + second, c)
  {
    hide Address, Encode;
    forall h | h in c
        ensures h in a || exists n :: n in first + second && Address(hash, n) == h && c[h] == Encode(hash, n) {
      if h !in b {
        var n :| n in second && Address(hash, n) == h && c[h] == Encode(hash, n);
        assert n in first + second;
      } else if h !in a {
        var n :| n in first && Address(hash, n) == h && b[h] == Encode(hash, n);
        assert n in first + second;
      }
    }
  }

  lemma {:induction false} DurableGrows(hash: Block -> Hash, before: BlockMap, after: BlockMap, v: Version)
    requires Extended(before, after) && Durable(hash, before, v)
    ensures Durable(hash, after, v)
  {
    hide Address, Encode, Nodes;
  }

  /** A flush makes the next version durable if the one it started from was. */
  lemma {:induction false} FlushMakesDurable(hash: Block -> Hash, before: BlockMap, index: Version, next: Version,
          delta: set<Node>, after: BlockMap)
    requires Applied(index, next, delta) && Durable(hash, before, index) && Flushed(hash, before, delta, after)
    ensures Durable(hash, after, next)
  {
    hide Address, Encode, Nodes;
  }

  lemma {:induction false} FewerCollisions(hash: Block -> Hash, values: set<Block>, fewer: set<Block>)
    requires CollisionFree(hash, values) && fewer <= values
    ensures CollisionFree(hash, fewer)
  {
  }
}
