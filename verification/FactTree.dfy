/** The artifact search tree: one ordered map holding every fact under three keys. */
module FactTree {
  import opened Bytes
  import opened Keys
  import opened Names
  import opened Options
  import opened Facts

  /** What a tree entry carries: the fact in raw form. Blob records ride in the same shape. */
  datatype Datum = Datum(entity: bytes, attribute: bytes, valueType: byte, value: bytes, cause: Option<Digest>)

  datatype State = Added(datum: Datum) | Removed

  type Tree = map<Key, State>

  function ToDatum(a: Artifact): Datum {
    Datum(a.entity, a.attribute, a.value.dataType, a.value.content, a.cause)
  }

  /** The fact that a datum stores. */
  function Stored(d: Datum): Option<Artifact> {
    if |d.attribute| <= ATTRIBUTE_LENGTH && SLASH in d.attribute then
      Some(Artifact(d.attribute, d.entity, Value(if d.valueType <= SYMBOL_TYPE then d.valueType else 0, d.value),
        d.cause))
    else
      None
  }

  /** A data type that is not known is taken for raw bytes, in a key as in what it holds. */
  lemma {:induction false} UnknownIsBytes(d: Datum, ix: Index, key: Key)
    ensures d.valueType > 8 && Stored(d).Some? ==> Stored(d).value.value == Value(0, d.value)
    ensures key[ix.TypeOffset()] > 8 ==> PartsOf(ix, key).valueType == 0
  {
  }

  /** What decoding a datum yields: the stored fact with the value as it reads back. */
  function FromDatum(d: Datum): Option<Artifact> {
    if Stored(d).None? then None
    else match ReadBack(Stored(d).value.value)
      case Readable(v) => Some(Stored(d).value.(value := v))
      case _ => None
  }

  /** The state holds a fact whose key parts are these. */
  predicate Carries(h: Hasher, s: State, p: Parts) {
    s.Added? && Stored(s.datum).Some? && PartsFor(h, Stored(s.datum).value) == p
  }

  /** Three entries are all there with one state, or all missing. */
  predicate OneState(tree: Tree, e: Key, a: Key, v: Key) {
    && (e in tree <==> a in tree) && (e in tree <==> v in tree)
    && (e in tree ==> tree[a] == tree[e] && tree[v] == tree[e])
  }

  /** The three entries of a fact agree. */
  predicate Agree(tree: Tree, p: Parts)
    requires p.Valid()
  {
    OneState(tree, FromParts(EAV, p), FromParts(AEV, p), FromParts(VAE, p))
  }

  predicate CanonicalIn(ix: Index, key: Key) {
    key[0] == ix.Tag() ==> key[ix.TypeOffset()] <= SYMBOL_TYPE
  }

  /** What every reachable tree satisfies. */
  ghost predicate Consistent(h: Hasher, tree: Tree) {
    && (forall ix: Index, k :: k in tree ==> CanonicalIn(ix, k))
    && (forall p: Parts :: p.Valid() ==> Agree(tree, p))
    && (forall p: Parts :: p.Valid() && FromParts(EAV, p) in tree ==>
          tree[FromParts(EAV, p)].Added? ==> Carries(h, tree[FromParts(EAV, p)], p))
  }

  /** The facts a tree holds, by identity. */
  function Live(tree: Tree): (facts: FactSet) {
    map k | k in tree && k[0] == EAV.Tag() && tree[k].Added? && Stored(tree[k].datum).Some?
      :: Stored(tree[k].datum).value
  }

  /** Entries outside the three fact indexes. */
  ghost predicate SameElsewhere(t: Tree, u: Tree) {
    forall k: Key :: k[0] > VAE.Tag() ==> (k in t <==> k in u) && (k in t ==> t[k] == u[k])
  }

  // ---- One fact at a time

  function Put3(tree: Tree, e: Key, a: Key, v: Key, s: State): Tree {
    tree[e := s][a := s][v := s]
  }

  function Drop3(tree: Tree, e: Key, a: Key, v: Key): Tree {
    tree - {e} - {v} - {a}
  }

  function Put(tree: Tree, p: Parts, s: State): Tree
    requires p.Valid()
  {
    Put3(tree, FromParts(EAV, p), FromParts(AEV, p), FromParts(VAE, p), s)
  }

  function Drop(tree: Tree, p: Parts): Tree
    requires p.Valid()
  {
    Drop3(tree, FromParts(EAV, p), FromParts(AEV, p), FromParts(VAE, p))
  }

  /** Keys of two facts coincide index by index or not at all. */
  predicate Aligned(e: Key, a: Key, v: Key, e': Key, a': Key, v': Key) {
    && e != a' && e != v' && a != e' && a != v' && v != e' && v != a'
    && (e == e' <==> a == a') && (e == e' <==> v == v')
  }

  lemma {:induction false} Put3Agrees(tree: Tree, e: Key, a: Key, v: Key, s: State, e': Key, a': Key, v': Key)
    requires Aligned(e, a, v, e', a', v') && OneState(tree, e', a', v')
    ensures OneState(Put3(tree, e, a, v, s), e', a', v')
    ensures e' in Put3(tree, e, a, v, s) <==> e' == e || e' in tree
    ensures e' in Put3(tree, e, a, v, s) ==> Put3(tree, e, a, v, s)[e'] == if e' == e then s else tree[e']
  {
  }

  lemma {:induction false} Drop3Agrees(tree: Tree, e: Key, a: Key, v: Key, e': Key, a': Key, v': Key)
    requires Aligned(e, a, v, e', a', v') && OneState(tree, e', a', v')
    ensures OneState(Drop3(tree, e, a, v), e', a', v')
    ensures e' in Drop3(tree, e, a, v) <==> e' != e && e' in tree
  {
  }

  lemma {:induction false} FactKeysAligned(p: Parts, q: Parts)
    requires p.Valid() && q.Valid()
    ensures Aligned(FromParts(EAV, p), FromParts(AEV, p), FromParts(VAE, p), FromParts(EAV, q), FromParts(AEV, q),
            FromParts(VAE, q))
    ensures FromParts(EAV, p) == FromParts(EAV, q) <==> p == q
  {
    forall ix: Index, jx: Index {
      KeysDetermineParts(ix, p, jx, q);
    }
  }

  lemma {:induction false} KeysDetermineParts(ix: Index, p: Parts, jx: Index, q: Parts)
    requires p.Valid() && q.Valid()
    ensures FromParts(ix, p) == FromParts(jx, q) <==> ix == jx && p == q
  {
  }

  lemma {:induction false} FactKeyIsCanonical(ix: Index, p: Parts, jx: Index)
    requires p.Valid()
    ensures CanonicalIn(jx, FromParts(ix, p)) && FromParts(ix, p)[0] <= VAE.Tag()
  {
  }

  lemma {:induction false} PutAgrees(tree: Tree, p: Parts, s: State, q: Parts)
    requires p.Valid() && q.Valid() && Agree(tree, q)
    ensures Agree(Put(tree, p, s), q)
    ensures FromParts(EAV, q) in Put(tree, p, s) <==> q == p || FromParts(EAV, q) in tree
    ensures FromParts(EAV, q) in Put(tree, p, s) ==>
              Put(tree, p, s)[FromParts(EAV, q)] == if q == p then s else tree[FromParts(EAV, q)]
  {
    FactKeysAligned(p, q);
    Put3Agrees(tree, FromParts(EAV, p), FromParts(AEV, p), FromParts(VAE, p), s, FromParts(EAV, q), FromParts(AEV, q),
      FromParts(VAE, q));
  }

  lemma {:induction false} PutKeepsConsistent(h: Hasher, tree: Tree, p: Parts, s: State)
    requires Consistent(h, tree) && p.Valid() && (s.Added? ==> Carries(h, s, p))
    ensures Consistent(h, Put(tree, p, s)) && SameElsewhere(tree, Put(tree, p, s))
  {
    var next := Put(tree, p, s);
    forall q: Parts | q.Valid()
      ensures Agree(next, q)
      ensures FromParts(EAV, q) in next ==> next[FromParts(EAV, q)].Added? ==> Carries(h, next[FromParts(EAV, q)], q)
    {
      PutAgrees(tree, p, s, q);
    }
    forall ix: Index, jx: Index {
      FactKeyIsCanonical(ix, p, jx);
    }
  }

  lemma {:induction false} DropAgrees(tree: Tree, p: Parts, q: Parts)
    requires p.Valid() && q.Valid() && Agree(tree, q)
    ensures Agree(Drop(tree, p), q)
    ensures FromParts(EAV, q) in Drop(tree, p) <==> q != p && FromParts(EAV, q) in tree
  {
    FactKeysAligned(p, q);
    Drop3Agrees(tree, FromParts(EAV, p), FromParts(AEV, p), FromParts(VAE, p), FromParts(EAV, q), FromParts(AEV, q),
      FromParts(VAE, q));
  }

  lemma {:induction false} DropKeepsConsistent(h: Hasher, tree: Tree, p: Parts)
    requires Consistent(h, tree) && p.Valid()
    ensures Consistent(h, Drop(tree, p)) && SameElsewhere(tree, Drop(tree, p))
  {
    var next := Drop(tree, p);
    forall q: Parts | q.Valid()
      ensures Agree(next, q)
      ensures FromParts(EAV, q) in next ==> next[FromParts(EAV, q)].Added? ==> Carries(h, next[FromParts(EAV, q)], q)
    {
      DropAgrees(tree, p, q);
    }
    forall ix: Index, jx: Index {
      FactKeyIsCanonical(ix, p, jx);
    }
  }

  lemma {:induction false} AddedIsLive(h: Hasher, tree: Tree, k: Key)
    requires Consistent(h, tree) && k in tree && k[0] == EAV.Tag()
    ensures PartsOf(EAV, k).Valid() && FromParts(EAV, PartsOf(EAV, k)) == k
    ensures tree[k].Added? <==> k in Live(tree)
    ensures tree[k].Added? ==> Carries(h, tree[k], PartsOf(EAV, k)) && Id(h, Live(tree)[k]) == k
  {
    assert CanonicalIn(EAV, k);
    PartsDetermineKey(EAV, k);
  }

  lemma {:induction false} LiveAfterPut(tree: Tree, e: Key, a: Key, v: Key, s: State)
    requires e[0] == EAV.Tag() && a[0] != EAV.Tag() && v[0] != EAV.Tag() && s.Added? && Stored(s.datum).Some?
    ensures Live(Put3(tree, e, a, v, s)) == Live(tree)[e := Stored(s.datum).value]
  {
  }

  lemma {:induction false} LiveAfterHide(tree: Tree, e: Key, a: Key, v: Key)
    requires e[0] == EAV.Tag() && a[0] != EAV.Tag() && v[0] != EAV.Tag()
    ensures Live(Put3(tree, e, a, v, Removed)) == Live(tree) - {e}
  {
  }

  lemma {:induction false} LiveAfterDrop(tree: Tree, e: Key, a: Key, v: Key)
    requires e[0] == EAV.Tag() && a[0] != EAV.Tag() && v[0] != EAV.Tag()
    ensures Live(Drop3(tree, e, a, v)) == Live(tree) - {e}
  {
  }

  lemma {:induction false} PutFact(h: Hasher, tree: Tree, a: Artifact)
    requires Consistent(h, tree)
    ensures var next := Put(tree, PartsFor(h, a), Added(ToDatum(a)));
            Consistent(h, next) && SameElsewhere(tree, next) && Live(next) == Live(tree)[Id(h, a) := a]
  {
    var p, s := PartsFor(h, a), Added(ToDatum(a));
    PutKeepsConsistent(h, tree, p, s);
    LiveAfterPut(tree, FromParts(EAV, p), FromParts(AEV, p), FromParts(VAE, p), s);
  }

  lemma {:induction false} HideFact(h: Hasher, tree: Tree, a: Artifact)
    requires Consistent(h, tree)
    ensures var next := Put(tree, PartsFor(h, a), Removed);
            Consistent(h, next) && SameElsewhere(tree, next) && Live(next) == Live(tree) - {Id(h, a)}
  {
    var p := PartsFor(h, a);
    PutKeepsConsistent(h, tree, p, Removed);
    LiveAfterHide(tree, FromParts(EAV, p), FromParts(AEV, p), FromParts(VAE, p));
  }

  lemma {:induction false} DropFact(h: Hasher, tree: Tree, k: Key)
    requires Consistent(h, tree) && k in tree && k[0] == EAV.Tag()
    ensures var next := Drop(tree, PartsOf(EAV, k));
            Consistent(h, next) && SameElsewhere(tree, next) && Live(next) == Live(tree) - {k}
  {
    var p := PartsOf(EAV, k);
    AddedIsLive(h, tree, k);
    DropKeepsConsistent(h, tree, p);
    LiveAfterDrop(tree, FromParts(EAV, p), FromParts(AEV, p), FromParts(VAE, p));
  }
}
