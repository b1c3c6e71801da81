/** Index keys: 162 bytes, a tag byte followed by the entity, attribute and value
    parts of a fact in the order the index sorts by. */
module Keys {
  import opened Bytes

  const TAG_LENGTH := 1
  const ENTITY_LENGTH := 64
  const ENTITY_RAW_HEAD := 32
  const ATTRIBUTE_LENGTH := 64
  const VALUE_DATA_TYPE_LENGTH := 1
  const VALUE_REFERENCE_LENGTH := 32
  const KEY_LENGTH := TAG_LENGTH + ENTITY_LENGTH + ATTRIBUTE_LENGTH + VALUE_DATA_TYPE_LENGTH + VALUE_REFERENCE_LENGTH

  /** Highest discriminant of a value data type. */
  const SYMBOL_TYPE: byte := 8

  type Key = k: bytes | |k| == KEY_LENGTH witness seq(KEY_LENGTH, _ => 0)

  /** The three orderings a fact is stored under. */
  datatype Index = EAV | AEV | VAE {
    function Tag(): byte {
      match this case EAV => 0 case AEV => 1 case VAE => 2
    }

    function EntityOffset(): nat {
      match this
      case EAV => TAG_LENGTH
      case AEV => TAG_LENGTH + ATTRIBUTE_LENGTH
      case VAE => TAG_LENGTH + VALUE_DATA_TYPE_LENGTH + VALUE_REFERENCE_LENGTH + ATTRIBUTE_LENGTH
    }

    function AttributeOffset(): nat {
      match this
      case EAV => TAG_LENGTH + ENTITY_LENGTH
      case AEV => TAG_LENGTH
      case VAE => TAG_LENGTH + VALUE_DATA_TYPE_LENGTH + VALUE_REFERENCE_LENGTH
    }

    function TypeOffset(): nat {
      match this
      case VAE => TAG_LENGTH
      case _ => TAG_LENGTH + ENTITY_LENGTH + ATTRIBUTE_LENGTH
    }

    function ReferenceOffset(): nat {
      TypeOffset() + VALUE_DATA_TYPE_LENGTH
    }
  }

  /** The parts of a key, each of its fixed width. */
  datatype Parts = Parts(entity: bytes, attribute: bytes, valueType: byte, reference: bytes) {
    predicate Valid() {
      |entity| == ENTITY_LENGTH && |attribute| == ATTRIBUTE_LENGTH
      && valueType <= SYMBOL_TYPE && |reference| == VALUE_REFERENCE_LENGTH
    }
  }

  /** Overwrites a run of key bytes in place. */
  function Write(key: Key, offset: nat, run: bytes): (r: Key)
    requires offset + |run| <= KEY_LENGTH
    ensures r[offset..offset + |run|] == run
    ensures forall i :: 0 <= i < KEY_LENGTH && !(offset <= i < offset + |run|) ==> r[i] == key[i]
  {
    key[..offset] + run + key[offset + |run|..]
  }

  function MinKey(ix: Index): Key {
    Fill(KEY_LENGTH, 0)[0 := ix.Tag()]
  }

  function MaxKey(ix: Index): Key {
    Fill(KEY_LENGTH, 255)[0 := ix.Tag()]
  }

  function SetEntity(ix: Index, key: Key, entity: bytes): Key
    requires |entity| == ENTITY_LENGTH
  {
    Write(key, ix.EntityOffset(), entity)
  }

  function SetAttribute(ix: Index, key: Key, attribute: bytes): Key
    requires |attribute| == ATTRIBUTE_LENGTH
  {
    Write(key, ix.AttributeOffset(), attribute)
  }

  function SetValueType(ix: Index, key: Key, valueType: byte): Key {
    Write(key, ix.TypeOffset(), [valueType])
  }

  function SetValueReference(ix: Index, key: Key, reference: bytes): Key
    requires |reference| == VALUE_REFERENCE_LENGTH
  {
    Write(key, ix.ReferenceOffset(), reference)
  }

  function EntityPart(ix: Index, key: Key): bytes {
    key[ix.EntityOffset()..ix.EntityOffset() + ENTITY_LENGTH]
  }

  function AttributePart(ix: Index, key: Key): bytes {
    key[ix.AttributeOffset()..ix.AttributeOffset() + ATTRIBUTE_LENGTH]
  }

  /** The stored data type; an unknown discriminant reads as the first one. */
  function ValueTypePart(ix: Index, key: Key): byte {
    if key[ix.TypeOffset()] <= SYMBOL_TYPE then key[ix.TypeOffset()] else 0
  }

  function ReferencePart(ix: Index, key: Key): bytes {
    key[ix.ReferenceOffset()..ix.ReferenceOffset() + VALUE_REFERENCE_LENGTH]
  }

  function PartsOf(ix: Index, key: Key): (p: Parts)
    ensures p.Valid()
  {
    Parts(EntityPart(ix, key), AttributePart(ix, key), ValueTypePart(ix, key), ReferencePart(ix, key))
  }

  /** A key of one index, built part by part; every part reads back, so a key
      determines its index and its parts. */
  function FromParts(ix: Index, p: Parts): (key: Key)
    requires p.Valid()
    ensures key[0] == ix.Tag()
    ensures PartsOf(ix, key) == p
  {
    SetValueReference(ix,
      SetValueType(ix,
        SetAttribute(ix,
          SetEntity(ix, MinKey(ix), p.entity), p.attribute), p.valueType), p.reference)
  }

  /** Rebuilds a key of one index from a key of another. */
  function FromKey(to: Index, from: Index, key: Key): Key {
    FromParts(to, PartsOf(from, key))
  }

  /** Reading a key's layout as one concatenation. */
  function Joined(ix: Index, tag: byte, e: bytes, a: bytes, t: byte, r: bytes): bytes {
    match ix
    case EAV => [tag] + (e + (a + ([t] + r)))
    case AEV => [tag] + (a + (e + ([t] + r)))
    case VAE => [tag] + ([t] + (r + (a + e)))
  }

  lemma {:induction false} KeyIsJoined(ix: Index, key: Key)
    ensures key ==
            Joined(ix, key[0], EntityPart(ix, key), AttributePart(ix, key), key[ix.TypeOffset()],
            ReferencePart(ix, key))
  {
    match ix
    case EAV =>
      SplitInFive(key, 1, 65, 129, 130);
    case AEV =>
      SplitInFive(key, 1, 65, 129, 130);
    case VAE =>
      SplitInFive(key, 1, 2, 34, 98);
  }

  /** The layout of the three keys of a fact, tag first. */
  lemma {:induction false} KeyLayout(p: Parts)
    requires p.Valid()
    ensures FromParts(EAV, p) == [0] + (p.entity + (p.attribute + ([p.valueType] + p.reference)))
    ensures FromParts(AEV, p) == [1] + (p.attribute + (p.entity + ([p.valueType] + p.reference)))
    ensures FromParts(VAE, p) == [2] + ([p.valueType] + (p.reference + (p.attribute + p.entity)))
  {
    hide SetEntity, SetAttribute, SetValueType, SetValueReference, EntityPart, AttributePart, ReferencePart;
    KeyIsJoined(EAV, FromParts(EAV, p));
    KeyIsJoined(AEV, FromParts(AEV, p));
    KeyIsJoined(VAE, FromParts(VAE, p));
    TypeIsStored(EAV, p);
    TypeIsStored(AEV, p);
    TypeIsStored(VAE, p);
  }

  lemma {:induction false} TypeIsStored(ix: Index, p: Parts)
    requires p.Valid()
    ensures FromParts(ix, p)[ix.TypeOffset()] == p.valueType
  {
    var key := SetAttribute(ix, SetEntity(ix, MinKey(ix), p.entity), p.attribute);
    assert SetValueType(ix, key, p.valueType)[ix.TypeOffset()..ix.TypeOffset() + 1] == [p.valueType];
  }

  lemma {:induction false} SplitInFive(s: bytes, i: nat, j: nat, k: nat, l: nat)
    requires i <= j <= k <= l <= |s|
    ensures s == s[..i] + (s[i..j] + (s[j..k] + (s[k..l] + s[l..])))
  {
  }

  /** A canonical key is the only key of its index with its parts. */
  lemma {:induction false} PartsDetermineKey(ix: Index, key: Key)
    requires key[0] == ix.Tag() && key[ix.TypeOffset()] <= SYMBOL_TYPE
    ensures PartsOf(ix, key).Valid() && FromParts(ix, PartsOf(ix, key)) == key
  {
    KeyIsJoined(ix, key);
    KeyIsJoined(ix, FromParts(ix, PartsOf(ix, key)));
  }

  /** Bounds on every part of a key are bounds on the key, whatever order the
      index keeps its parts in. */
  lemma {:induction false} PartwiseBound(ix: Index, lo: Key, hi: Key)
    requires lo[0] == hi[0]
    requires Leq(EntityPart(ix, lo), EntityPart(ix, hi))
    requires Leq(AttributePart(ix, lo), AttributePart(ix, hi))
    requires lo[ix.TypeOffset()] <= hi[ix.TypeOffset()]
    requires Leq(ReferencePart(ix, lo), ReferencePart(ix, hi))
    ensures Leq(lo, hi)
  {
    KeyIsJoined(ix, lo);
    KeyIsJoined(ix, hi);
    var (le, la, lt, lr) := (EntityPart(ix, lo), AttributePart(ix, lo), lo[ix.TypeOffset()], ReferencePart(ix, lo));
    var (he, ha, ht, hr) := (EntityPart(ix, hi), AttributePart(ix, hi), hi[ix.TypeOffset()], ReferencePart(ix, hi));
    LeqReflexive([lo[0]]);
    assert Leq([lt], [ht]);
    match ix
    case EAV =>
      LeqConcat([lt], [ht], lr, hr);
      LeqConcat(la, ha, [lt] + lr, [ht] + hr);
      LeqConcat(le, he, la + ([lt] + lr), ha + ([ht] + hr));
      LeqConcat([lo[0]], [hi[0]], le + (la + ([lt] + lr)), he + (ha + ([ht] + hr)));
    case AEV =>
      LeqConcat([lt], [ht], lr, hr);
      LeqConcat(le, he, [lt] + lr, [ht] + hr);
      LeqConcat(la, ha, le + ([lt] + lr), he + ([ht] + hr));
      LeqConcat([lo[0]], [hi[0]], la + (le + ([lt] + lr)), ha + (he + ([ht] + hr)));
    case VAE =>
      LeqConcat(la, ha, le, he);
      LeqConcat(lr, hr, la + le, ha + he);
      LeqConcat([lt], [ht], lr + (la + le), hr + (ha + he));
      LeqConcat([lo[0]], [hi[0]], [lt] + (lr + (la + le)), [ht] + (hr + (ha + he)));
  }

  /** A range whose ends share a tag holds only keys of that tag. */
  lemma {:induction false} RangeKeepsTag(lo: Key, key: Key, hi: Key)
    requires lo[0] == hi[0] && Leq(lo, key) && Leq(key, hi)
    ensures key[0] == lo[0]
  {
  }
}
