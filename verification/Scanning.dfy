/** Reading the facts a selector picks: index choice, key range, and the filter over it. */
module Scanning {
  import opened Bytes
  import opened Keys
  import opened Names
  import opened Options
  import opened Facts
  import opened FactTree

  /** Exact fields first, then the index whose leading part a prefix bounds. */
  function ChooseIndex(s: Selector): Index
    requires s.Constrained()
  {
    if s.entity.Some? || (s.entityPrefix.Some? && s.value.None? && s.attribute.None? && s.attributePrefix.None?) then
      EAV
    else if s.value.Some? then
      VAE
    else if s.attribute.Some? || s.attributePrefix.Some? then
      AEV
    else
      assert false; EAV
  }

  function ApplySelector(h: Hasher, ix: Index, key: Key, s: Selector): Key {
    var key := if s.entity.Some? then SetEntity(ix, key, EntityBytes(h, s.entity.value)) else key;
    var key := if s.attribute.Some? then SetAttribute(ix, key, AttributeBytes(s.attribute.value)) else key;
    var key := if s.value.Some? then SetValueType(ix, key, s.value.value.dataType) else key;
    if s.value.Some? then SetValueReference(ix, key, h(s.value.value.content)) else key
  }

  function ApplyPrefixBound(ix: Index, key: Key, s: Selector, fill: byte): Key {
    var key := if s.attribute.None? && s.attributePrefix.Some? then
                 SetAttribute(ix, key, PrefixSegment(s.attributePrefix.value, ATTRIBUTE_LENGTH, ATTRIBUTE_LENGTH, fill))
               else key;
    if s.entity.None? && s.entityPrefix.Some? then
      SetEntity(ix, key, PrefixSegment(s.entityPrefix.value, ENTITY_RAW_HEAD, ENTITY_LENGTH, fill))
    else key
  }

  function Low(h: Hasher, ix: Index, s: Selector): Key {
    ApplyPrefixBound(ix, ApplySelector(h, ix, MinKey(ix), s), s, 0)
  }

  function High(h: Hasher, ix: Index, s: Selector): Key {
    ApplyPrefixBound(ix, ApplySelector(h, ix, MaxKey(ix), s), s, 255)
  }

  // ---- What each part of a bound is

  function EntityBound(h: Hasher, s: Selector, fill: byte): bytes {
    if s.entity.Some? then EntityBytes(h, s.entity.value)
    else if s.entityPrefix.Some? then PrefixSegment(s.entityPrefix.value, ENTITY_RAW_HEAD, ENTITY_LENGTH, fill)
    else Fill(ENTITY_LENGTH, fill)
  }

  function AttributeBound(s: Selector, fill: byte): bytes {
    if s.attribute.Some? then AttributeBytes(s.attribute.value)
    else if s.attributePrefix.Some?
        then PrefixSegment(s.attributePrefix.value, ATTRIBUTE_LENGTH, ATTRIBUTE_LENGTH, fill)
    else Fill(ATTRIBUTE_LENGTH, fill)
  }

  function TypeBound(s: Selector, fill: byte): byte {
    if s.value.Some? then s.value.value.dataType else fill
  }

  function ReferenceBound(h: Hasher, s: Selector, fill: byte): bytes {
    if s.value.Some? then h(s.value.value.content) else Fill(VALUE_REFERENCE_LENGTH, fill)
  }

  /** The raw parts of a key: its tag and its four runs of bytes. */
  ghost predicate HasRaw(ix: Index, key: Key, e: bytes, a: bytes, t: byte, r: bytes) {
    key[0] == ix.Tag() && EntityPart(ix, key) == e && AttributePart(ix, key) == a
    && key[ix.TypeOffset()] == t && ReferencePart(ix, key) == r
  }

  lemma {:induction false} SetEntityRaw(ix: Index, key: Key, e: bytes, a: bytes, t: byte, r: bytes, e': bytes)
    requires HasRaw(ix, key, e, a, t, r) && |e'| == ENTITY_LENGTH
    ensures HasRaw(ix, SetEntity(ix, key, e'), e', a, t, r)
  {
  }

  lemma {:induction false} SetAttributeRaw(ix: Index, key: Key, e: bytes, a: bytes, t: byte, r: bytes, a': bytes)
    requires HasRaw(ix, key, e, a, t, r) && |a'| == ATTRIBUTE_LENGTH
    ensures HasRaw(ix, SetAttribute(ix, key, a'), e, a', t, r)
  {
  }

  lemma {:induction false} SetValueRaw(ix: Index, key: Key, e: bytes, a: bytes, t: byte, r: bytes, t': byte, r': bytes)
    requires HasRaw(ix, key, e, a, t, r) && |r'| == VALUE_REFERENCE_LENGTH
    ensures HasRaw(ix, SetValueReference(ix, SetValueType(ix, key, t'), r'), e, a, t', r')
  {
  }

  lemma {:induction false} SelectorRaw(h: Hasher, ix: Index, key: Key, s: Selector, fill: byte)
    requires HasRaw(ix, key, Fill(ENTITY_LENGTH, fill), Fill(ATTRIBUTE_LENGTH, fill), fill,
             Fill(VALUE_REFERENCE_LENGTH, fill))
    ensures HasRaw(ix, ApplyPrefixBound(ix, ApplySelector(h, ix, key, s), s, fill),
                   EntityBound(h, s, fill), AttributeBound(s, fill), TypeBound(s, fill), ReferenceBound(h, s, fill))
  {
    var (e, a, t, r) :=
      (Fill(ENTITY_LENGTH, fill), Fill(ATTRIBUTE_LENGTH, fill), fill, Fill(VALUE_REFERENCE_LENGTH, fill));
    var k := key;
    if s.entity.Some? {
      SetEntityRaw(ix, k, e, a, t, r, EntityBytes(h, s.entity.value));
      k, e := SetEntity(ix, k, EntityBytes(h, s.entity.value)), EntityBytes(h, s.entity.value);
    }
    if s.attribute.Some? {
      SetAttributeRaw(ix, k, e, a, t, r, AttributeBytes(s.attribute.value));
      k, a := SetAttribute(ix, k, AttributeBytes(s.attribute.value)), AttributeBytes(s.attribute.value);
    }
    if s.value.Some? {
      SetValueRaw(ix, k, e, a, t, r, s.value.value.dataType, h(s.value.value.content));
      k := SetValueReference(ix, SetValueType(ix, k, s.value.value.dataType), h(s.value.value.content));
      t, r := s.value.value.dataType, h(s.value.value.content);
    }
    assert k == ApplySelector(h, ix, key, s);
    if s.attribute.None? && s.attributePrefix.Some? {
      var segment := PrefixSegment(s.attributePrefix.value, ATTRIBUTE_LENGTH, ATTRIBUTE_LENGTH, fill);
      SetAttributeRaw(ix, k, e, a, t, r, segment);
      k, a := SetAttribute(ix, k, segment), segment;
    }
    if s.entity.None? && s.entityPrefix.Some? {
      var segment := PrefixSegment(s.entityPrefix.value, ENTITY_RAW_HEAD, ENTITY_LENGTH, fill);
      SetEntityRaw(ix, k, e, a, t, r, segment);
      k, e := SetEntity(ix, k, segment), segment;
    }
  }

  lemma {:induction false} UniformRun(key: Key, offset: nat, n: nat, b: byte)
    requires 1 <= offset && offset + n <= KEY_LENGTH
    requires forall i :: 1 <= i < KEY_LENGTH ==> key[i] == b
    ensures key[offset..offset + n] == Fill(n, b)
  {
    forall i | 0 <= i < n ensures key[offset..offset + n][i] == Fill(n, b)[i] {
    }
  }

  lemma {:induction false} UniformRaw(ix: Index, key: Key, b: byte)
    requires key[0] == ix.Tag() && forall i :: 1 <= i < KEY_LENGTH ==> key[i] == b
    ensures HasRaw(ix, key, Fill(ENTITY_LENGTH, b), Fill(ATTRIBUTE_LENGTH, b), b, Fill(VALUE_REFERENCE_LENGTH, b))
  {
    UniformRun(key, ix.EntityOffset(), ENTITY_LENGTH, b);
    UniformRun(key, ix.AttributeOffset(), ATTRIBUTE_LENGTH, b);
    UniformRun(key, ix.ReferenceOffset(), VALUE_REFERENCE_LENGTH, b);
  }

  lemma {:induction false} LowHighRaw(h: Hasher, ix: Index, s: Selector)
    ensures HasRaw(ix, Low(h, ix, s), EntityBound(h, s, 0), AttributeBound(s, 0), TypeBound(s, 0),
            ReferenceBound(h, s, 0))
    ensures HasRaw(ix, High(h, ix, s), EntityBound(h, s, 255), AttributeBound(s, 255), TypeBound(s, 255),
            ReferenceBound(h, s, 255))
  {
    UniformRaw(ix, MinKey(ix), 0);
    UniformRaw(ix, MaxKey(ix), 255);
    SelectorRaw(h, ix, MinKey(ix), s, 0);
    SelectorRaw(h, ix, MaxKey(ix), s, 255);
  }

  /** Every part of a matching key lies between the parts of the bounds. */
  lemma {:induction false} MatchingPartsInBounds(h: Hasher, s: Selector, p: Parts)
    requires p.Valid() && s.MatchesParts(h, p)
    ensures Leq(EntityBound(h, s, 0), p.entity) && Leq(p.entity, EntityBound(h, s, 255))
    ensures Leq(AttributeBound(s, 0), p.attribute) && Leq(p.attribute, AttributeBound(s, 255))
    ensures TypeBound(s, 0) <= p.valueType <= TypeBound(s, 255)
    ensures Leq(ReferenceBound(h, s, 0), p.reference) && Leq(p.reference, ReferenceBound(h, s, 255))
  {
    LeqReflexive(p.entity);
    LeqReflexive(p.attribute);
    LeqReflexive(p.reference);
    FillBrackets(p.entity);
    FillBrackets(p.attribute);
    FillBrackets(p.reference);
    if s.entityPrefix.Some? {
      PrefixSegmentBrackets(s.entityPrefix.value, ENTITY_RAW_HEAD, p.entity);
    }
    if s.attributePrefix.Some? {
      PrefixSegmentBrackets(s.attributePrefix.value, ATTRIBUTE_LENGTH, p.attribute);
    }
  }

  /** The range never misses a match, whichever index it ranges over. */
  lemma {:induction false} RangeContainsMatches(h: Hasher, ix: Index, s: Selector, p: Parts)
    requires p.Valid() && s.MatchesParts(h, p)
    ensures Leq(Low(h, ix, s), FromParts(ix, p)) && Leq(FromParts(ix, p), High(h, ix, s))
  {
    LowHighRaw(h, ix, s);
    MatchingPartsInBounds(h, s, p);
    RawParts(ix, p);
    PartwiseBound(ix, Low(h, ix, s), FromParts(ix, p));
    PartwiseBound(ix, FromParts(ix, p), High(h, ix, s));
  }

  lemma {:induction false} RawParts(ix: Index, p: Parts)
    requires p.Valid()
    ensures HasRaw(ix, FromParts(ix, p), p.entity, p.attribute, p.valueType, p.reference)
  {
  }

  // ---- The scan

  lemma {:induction false} Squeezed(low: bytes, k: bytes, high: bytes, n: nat)
    requires n <= |low| && n <= |k| && n <= |high| && low[..n] == high[..n] && Leq(low, k) && Leq(k, high)
    ensures k[..n] == low[..n]
  {
    hide Leq;
    assert low == low[..n] + low[n..] && k == k[..n] + k[n..] && high == high[..n] + high[n..];
    LeqConcat(low[..n], k[..n], low[n..], k[n..]);
    LeqConcat(k[..n], high[..n], k[n..], high[n..]);
    LeqAntisymmetric(low[..n], k[..n]);
  }

  /** Where the selector names the part that its index leads with, the range holds nothing else. */
  lemma {:induction false} RangeIsTight(h: Hasher, s: Selector, k: Key)
    requires s.Constrained() && Leq(Low(h, ChooseIndex(s), s), k) && Leq(k, High(h, ChooseIndex(s), s))
    ensures s.entity.Some? ==> EntityPart(EAV, k) == EntityBytes(h, s.entity.value)
    ensures s.entity.None? && s.value.Some? ==>
            k[VAE.TypeOffset()] == s.value.value.dataType && ReferencePart(VAE, k) == h(s.value.value.content)
    ensures s.entity.None? && s.value.None? && s.attribute.Some? ==>
            AttributePart(AEV, k) == AttributeBytes(s.attribute.value)
  {
    hide Leq, Low, High;
    var ix := ChooseIndex(s);
    var low, high := Low(h, ix, s), High(h, ix, s);
    LowHighRaw(h, ix, s);
    if s.entity.Some? {
      LeadingPart(low, k, high, ENTITY_LENGTH);
    } else if s.value.Some? {
      var end := 2 + VALUE_REFERENCE_LENGTH;
      assert low[1..end] == [low[1]] + low[2..end] && high[1..end] == [high[1]] + high[2..end];
      LeadingPart(low, k, high, 1 + VALUE_REFERENCE_LENGTH);
      assert k[1] == k[1..end][0] && k[2..end] == k[1..end][1..] && low[2..end] == low[1..end][1..];
    } else if s.attribute.Some? {
      LeadingPart(low, k, high, ATTRIBUTE_LENGTH);
    }
  }

  lemma {:induction false} LeadingPart(low: Key, k: Key, high: Key, n: nat)
    requires 1 + n <= KEY_LENGTH && low[0] == high[0] && low[1..1 + n] == high[1..1 + n] && Leq(low, k) && Leq(k, high)
    ensures k[1..1 + n] == low[1..1 + n]
  {
    hide Leq;
    assert low[..1 + n] == [low[0]] + low[1..1 + n] && high[..1 + n] == [high[0]] + high[1..1 + n];
    Squeezed(low, k, high, 1 + n);
    assert k[1..1 + n] == k[..1 + n][1..] && low[1..1 + n] == low[..1 + n][1..];
  }

  function IndexWithTag(tag: byte): Option<Index> {
    match tag
    case 0 => Some(EAV)
    case 1 => Some(AEV)
    case 2 => Some(VAE)
    case _ => None
  }

  predicate KeyMatches(h: Hasher, s: Selector, key: Key) {
    match IndexWithTag(key[0])
    case Some(ix) => s.MatchesParts(h, PartsOf(ix, key))
    case None => false
  }

  /** Key bytes first; a prefix that outruns the raw head is confirmed on the stored URI. */
  predicate EntryMatches(h: Hasher, s: Selector, key: Key, state: State) {
    && KeyMatches(h, s, key)
    && (s.entityPrefix.Some? && |s.entityPrefix.value| > ENTITY_RAW_HEAD && state.Added? ==>
          IsPrefix(s.entityPrefix.value, state.datum.entity))
  }

  predicate Hit(h: Hasher, s: Selector, tree: Tree, key: Key) {
    key in tree && tree[key].Added? && EntryMatches(h, s, key, tree[key])
  }

  function RangeKeys(tree: Tree, low: Key, high: Key): (keys: seq<Key>)
    ensures Ascending(keys)
    ensures forall k: Key :: k in keys <==> k in tree && Leq(low, k) && Leq(k, high)
  {
    var keys := Sorted(set k: Key | k in tree && Leq(low, k) && Leq(k, high));
    assert forall i :: 0 <= i < |keys| ==> keys[i] in keys;
    keys
  }

  /** An entry of any index shows the same fact as the entity index. */
  lemma {:induction false} EntryShowsFact(h: Hasher, tree: Tree, ix: Index, key: Key)
    requires Consistent(h, tree) && key in tree && key[0] == ix.Tag() && tree[key].Added?
    ensures Carries(h, tree[key], PartsOf(ix, key))
    ensures var a := Stored(tree[key].datum).value; Id(h, a) in Live(tree) && Live(tree)[Id(h, a)] == a
  {
    assert CanonicalIn(ix, key);
    PartsDetermineKey(ix, key);
    assert Agree(tree, PartsOf(ix, key));
  }

  lemma {:induction false} FactShowsEntry(h: Hasher, tree: Tree, ix: Index, id: Key)
    requires Consistent(h, tree) && id in Live(tree)
    ensures var a := Live(tree)[id]; var key := FromParts(ix, PartsFor(h, a));
            id == Id(h, a) && key in tree && tree[key].Added? && Stored(tree[key].datum) == Some(a)
  {
    AddedIsLive(h, tree, id);
    assert Agree(tree, PartsOf(EAV, id));
  }

  lemma {:induction false} HitIsMatch(h: Hasher, s: Selector, tree: Tree, ix: Index, key: Key)
    requires Consistent(h, tree) && key in tree && key[0] == ix.Tag() && tree[key].Added?
    ensures Stored(tree[key].datum).Some?
    ensures Hit(h, s, tree, key) <==> s.Matches(h, Stored(tree[key].datum).value)
  {
    EntryShowsFact(h, tree, ix, key);
  }

  /** The facts of the tree that a selector matches by key. */
  predicate Picked(h: Hasher, s: Selector, tree: Tree, a: Artifact) {
    Id(h, a) in Live(tree) && Live(tree)[Id(h, a)] == a && s.Matches(h, a)
  }

  /** Every picked fact has its entry among the keys of the range. */
  lemma {:induction false} PickedIsInRange(h: Hasher, s: Selector, tree: Tree, ix: Index, a: Artifact)
    requires Consistent(h, tree) && Picked(h, s, tree, a)
    ensures var key := FromParts(ix, PartsFor(h, a));
            key in RangeKeys(tree, Low(h, ix, s), High(h, ix, s)) && Hit(h, s, tree, key)
            && Stored(tree[key].datum) == Some(a)
  {
    FactShowsEntry(h, tree, ix, Id(h, a));
    RangeContainsMatches(h, ix, s, PartsFor(h, a));
    HitIsMatch(h, s, tree, ix, FromParts(ix, PartsFor(h, a)));
  }

  lemma {:induction false} RangeKeysHaveTag(h: Hasher, s: Selector, tree: Tree, ix: Index, key: Key)
    requires key in RangeKeys(tree, Low(h, ix, s), High(h, ix, s))
    ensures key in tree && key[0] == ix.Tag()
  {
    LowHighRaw(h, ix, s);
    RangeKeepsTag(Low(h, ix, s), key, High(h, ix, s));
  }

  lemma {:induction false} HitsArePicked(h: Hasher, s: Selector, tree: Tree, ix: Index, key: Key)
    requires Consistent(h, tree) && key[0] == ix.Tag() && Hit(h, s, tree, key)
    ensures Stored(tree[key].datum).Some?
    ensures var a := Stored(tree[key].datum).value; Picked(h, s, tree, a) && FromParts(ix, PartsFor(h, a)) == key
  {
    HitIsMatch(h, s, tree, ix, key);
    EntryShowsFact(h, tree, ix, key);
    assert CanonicalIn(ix, key);
    PartsDetermineKey(ix, key);
  }

  // ---- What the scan has to show

  function Chosen(test: Key -> bool, keys: seq<Key>): (r: seq<Key>)
    ensures forall k :: k in r <==> k in keys && test(k)
  {
    if keys == [] then []
    else
      var front, last := Chosen(test, keys[..|keys| - 1]), keys[|keys| - 1];
      assert keys == keys[..|keys| - 1] + [last];
      if test(last) then front + [last] else front
  }

  lemma {:induction false} ChosenAscends(test: Key -> bool, keys: seq<Key>)
    requires Ascending(keys)
    ensures Ascending(Chosen(test, keys))
  {
    hide Leq;
    if keys != [] {
      var front, last := keys[..|keys| - 1], keys[|keys| - 1];
      ChosenAscends(test, front);
      var chosen := Chosen(test, front);
      forall i | 0 <= i < |chosen| ensures Leq(chosen[i], last) && chosen[i] != last {
        assert chosen[i] in chosen;
        var j :| 0 <= j < |front| && front[j] == chosen[i];
        assert keys[j] == front[j];
      }
    }
  }

  lemma {:induction false} ChosenGrows(test: Key -> bool, keys: seq<Key>, n: nat)
    requires n < |keys|
    ensures Chosen(test, keys[..n + 1]) == Chosen(test, keys[..n]) + (if test(keys[n]) then [keys[n]] else [])
    ensures Chosen(test, keys[..n + 1]) <= Chosen(test, keys)
    decreases |keys| - n
  {
    assert keys[..n + 1][..n] == keys[..n];
    if n + 1 < |keys| {
      ChosenGrows(test, keys, n + 1);
    } else {
      assert keys[..n + 1] == keys;
    }
  }

  /** The keys of a run that pass the filter. */
  function Hits(h: Hasher, s: Selector, tree: Tree, keys: seq<Key>): (r: seq<Key>)
    ensures forall k :: k in r <==> k in keys && Hit(h, s, tree, k)
  {
    Chosen((k: Key) => Hit(h, s, tree, k), keys)
  }

  function MatchingKeys(h: Hasher, s: Selector, tree: Tree): seq<Key>
    requires s.Constrained()
  {
    var ix := ChooseIndex(s);
    Hits(h, s, tree, RangeKeys(tree, Low(h, ix, s), High(h, ix, s)))
  }

  lemma {:induction false} MatchingKeyShows(h: Hasher, s: Selector, tree: Tree, k: Key)
    requires Consistent(h, tree) && s.Constrained() && k in MatchingKeys(h, s, tree)
    ensures k in tree && tree[k].Added? && Stored(tree[k].datum).Some?
    ensures var a := Stored(tree[k].datum).value;
            Picked(h, s, tree, a) && FromParts(ChooseIndex(s), PartsFor(h, a)) == k
  {
    hide Consistent, Picked, Low, High, RangeKeys, EntryMatches;
    var ix := ChooseIndex(s);
    RangeKeysHaveTag(h, s, tree, ix, k);
    HitsArePicked(h, s, tree, ix, k);
  }

  ghost predicate AllStored(tree: Tree, keys: seq<Key>) {
    forall k :: k in keys ==> k in tree && tree[k].Added? && Stored(tree[k].datum).Some?
  }

  function FactsAt(tree: Tree, keys: seq<Key>): (r: seq<Artifact>)
    requires AllStored(tree, keys)
    ensures |r| == |keys| && forall i :: 0 <= i < |r| ==> r[i] == Stored(tree[keys[i]].datum).value
  {
    seq(|keys|, i requires 0 <= i < |keys| => assert keys[i] in keys; Stored(tree[keys[i]].datum).value)
  }

  lemma {:induction false} MatchingStored(h: Hasher, s: Selector, tree: Tree)
    requires Consistent(h, tree) && s.Constrained()
    ensures AllStored(tree, MatchingKeys(h, s, tree))
  {
    hide MatchingKeys, Consistent;
    forall k | k in MatchingKeys(h, s, tree) ensures k in tree && tree[k].Added? && Stored(tree[k].datum).Some? {
      MatchingKeyShows(h, s, tree, k);
    }
  }

  /** The stored facts that a selector matches, in the order of the chosen index. */
  ghost function Matching(h: Hasher, s: Selector, tree: Tree): seq<Artifact>
    requires Consistent(h, tree) && s.Constrained()
  {
    MatchingStored(h, s, tree);
    FactsAt(tree, MatchingKeys(h, s, tree))
  }

  ghost predicate InOrderOf(h: Hasher, ix: Index, facts: seq<Artifact>) {
    forall i, j :: 0 <= i < j < |facts| ==>
      var x, y := FromParts(ix, PartsFor(h, facts[i])), FromParts(ix, PartsFor(h, facts[j]));
      Leq(x, y) && x != y
  }

  /** What answers ascend by: entity first if the selector names one or bounds nothing but it, else value first if it
      names one, else attribute first. */
  function SortKey(h: Hasher, s: Selector, a: Artifact): bytes {
    var p := PartsFor(h, a);
    var onlyEntity := s.value.None? && s.attribute.None? && s.attributePrefix.None?;
    if s.entity.Some? || onlyEntity then p.entity + (p.attribute + ([p.valueType] + p.reference))
    else if s.value.Some? then [p.valueType] + (p.reference + (p.attribute + p.entity))
    else p.attribute + (p.entity + ([p.valueType] + p.reference))
  }

  /** Strictly ascending, so each fact stands once. */
  ghost predicate InOrder(h: Hasher, s: Selector, facts: seq<Artifact>) {
    forall i, j :: 0 <= i < j < |facts| ==>
      Leq(SortKey(h, s, facts[i]), SortKey(h, s, facts[j])) && SortKey(h, s, facts[i]) != SortKey(h, s, facts[j])
  }

  lemma {:induction false} ChosenKey(h: Hasher, s: Selector, a: Artifact)
    requires s.Constrained()
    ensures FromParts(ChooseIndex(s), PartsFor(h, a)) == [ChooseIndex(s).Tag()] + SortKey(h, s, a)
  {
    hide PartsFor, FromParts;
    KeyLayout(PartsFor(h, a));
  }

  /** The order of the chosen index is the order by what the selector names. */
  lemma {:induction false} ChosenOrder(h: Hasher, s: Selector, facts: seq<Artifact>)
    requires s.Constrained()
    ensures InOrderOf(h, ChooseIndex(s), facts) <==> InOrder(h, s, facts)
  {
    hide SortKey, ChooseIndex, FromParts, PartsFor, Leq;
    var tag := [ChooseIndex(s).Tag()];
    LeqReflexive(tag);
    forall i, j | 0 <= i < j < |facts|
      ensures var x, y := FromParts(ChooseIndex(s), PartsFor(h, facts[i])),
              FromParts(ChooseIndex(s), PartsFor(h, facts[j]));
              && (Leq(x, y) <==> Leq(SortKey(h, s, facts[i]), SortKey(h, s, facts[j])))
              && (x == y <==> SortKey(h, s, facts[i]) == SortKey(h, s, facts[j]))
    {
      ChosenKey(h, s, facts[i]);
      ChosenKey(h, s, facts[j]);
      LeqConcat(tag, tag, SortKey(h, s, facts[i]), SortKey(h, s, facts[j]));
      assert (tag + SortKey(h, s, facts[i]))[1..] == SortKey(h, s, facts[i]);
      assert (tag + SortKey(h, s, facts[j]))[1..] == SortKey(h, s, facts[j]);
    }
  }

  /** Exactly the picked facts, each once. */
  lemma {:induction false} MatchingIsPicked(h: Hasher, s: Selector, tree: Tree)
    requires Consistent(h, tree) && s.Constrained()
    ensures forall a :: a in Matching(h, s, tree) <==> Picked(h, s, tree, a)
    ensures InOrder(h, s, Matching(h, s, tree))
  {
    hide Consistent, Picked, MatchingKeys, ChooseIndex, PartsFor, FromParts, Leq, InOrder;
    var keys, facts, ix := MatchingKeys(h, s, tree), Matching(h, s, tree), ChooseIndex(s);
    MatchingStored(h, s, tree);
    forall i | 0 <= i < |keys| ensures Picked(h, s, tree, facts[i]) && FromParts(ix, PartsFor(h, facts[i])) == keys[i] {
      assert keys[i] in keys;
      MatchingKeyShows(h, s, tree, keys[i]);
    }
    MatchingAscends(h, s, tree);
    forall a | Picked(h, s, tree, a) ensures a in facts {
      PickedIsMatching(h, s, tree, a);
      var i :| 0 <= i < |keys| && keys[i] == FromParts(ix, PartsFor(h, a));
      assert facts[i] == a;
    }
    ChosenOrder(h, s, facts);
  }

  lemma {:induction false} MatchingAscends(h: Hasher, s: Selector, tree: Tree)
    requires s.Constrained()
    ensures Ascending(MatchingKeys(h, s, tree))
  {
    var ix := ChooseIndex(s);
    ChosenAscends((k: Key) => Hit(h, s, tree, k), RangeKeys(tree, Low(h, ix, s), High(h, ix, s)));
  }

  lemma {:induction false} PickedIsMatching(h: Hasher, s: Selector, tree: Tree, a: Artifact)
    requires Consistent(h, tree) && s.Constrained() && Picked(h, s, tree, a)
    ensures var key := FromParts(ChooseIndex(s), PartsFor(h, a));
            key in MatchingKeys(h, s, tree) && key in tree && tree[key].Added? && Stored(tree[key].datum) == Some(a)
  {
    hide Consistent, Picked, Low, High, RangeKeys, ChooseIndex, PartsFor, FromParts;
    PickedIsInRange(h, s, tree, ChooseIndex(s), a);
  }

  // ---- The scan itself

  predicate CanRead(a: Artifact) {
    ReadBack(a.value).Readable?
  }

  /** A fact as the scan yields it. */
  function Shown(a: Artifact): Artifact
    requires CanRead(a)
  {
    a.(value := ReadBack(a.value).value)
  }

  /** These are the facts as they read back, up to the first that cannot be read. */
  ghost predicate Shows(facts: seq<Artifact>, out: seq<Artifact>, failed: bool) {
    && |out| <= |facts| && (forall i :: 0 <= i < |out| ==> CanRead(facts[i]) && out[i] == Shown(facts[i]))
    && (if failed then |out| < |facts| && !CanRead(facts[|out|]) else |out| == |facts|)
  }

  /** Reads the hits off a run of keys in turn. */
  method Filter(h: Hasher, s: Selector, tree: Tree, keys: seq<Key>) returns (out: seq<Artifact>, failed: bool)
    requires (forall k :: k in keys ==> k in tree) && AllStored(tree, Hits(h, s, tree, keys))
    ensures Shows(FactsAt(tree, Hits(h, s, tree, keys)), out, failed)
  {
    hide Hits;
    out, failed := [], false;
    ghost var hits := Hits(h, s, tree, keys);
    NoHits(h, s, tree, keys);
    for n := 0 to |keys|
      invariant |out| == |Hits(h, s, tree, keys[..n])| && Hits(h, s, tree, keys[..n]) <= hits
      invariant forall i :: 0 <= i < |out| ==>
                CanRead(FactsAt(tree, hits)[i]) && out[i] == Shown(FactsAt(tree, hits)[i])
    {
      var key := keys[n];
      assert key in keys;
      HitsGrow(h, s, tree, keys, n);
      if EntryMatches(h, s, key, tree[key]) && tree[key].Added? {
        assert Hit(h, s, tree, key) && hits[|out|] == key;
        var fact := FromDatum(tree[key].datum);
        if fact.None? {
          return out, true;
        }
        out := out + [fact.value];
      }
    }
    assert keys[..|keys|] == keys;
  }

  lemma {:induction false} NoHits(h: Hasher, s: Selector, tree: Tree, keys: seq<Key>)
    ensures Hits(h, s, tree, keys[..0]) == []
  {
  }

  lemma {:induction false} HitsGrow(h: Hasher, s: Selector, tree: Tree, keys: seq<Key>, n: nat)
    requires n < |keys|
    ensures Hits(h, s, tree, keys[..n + 1]) ==
            Hits(h, s, tree, keys[..n]) + (if Hit(h, s, tree, keys[n]) then [keys[n]] else [])
    ensures Hits(h, s, tree, keys[..n + 1]) <= Hits(h, s, tree, keys)
  {
    hide Hit;
    ChosenGrows((k: Key) => Hit(h, s, tree, k), keys, n);
  }

  /** The scan yields every picked fact, once, in the order of the chosen index, as it reads back; it fails exactly
      when some picked fact cannot be read. */
  method Scan(h: Hasher, tree: Tree, s: Selector) returns (out: seq<Artifact>, failed: bool)
    requires Consistent(h, tree) && s.Constrained()
    ensures Shows(Matching(h, s, tree), out, failed)
    ensures failed <==> exists a :: Picked(h, s, tree, a) && !CanRead(a)
    ensures (forall a :: Picked(h, s, tree, a) ==> Sturdy(a.value)) ==>
            (forall a :: a in out <==> Picked(h, s, tree, a)) && InOrder(h, s, out)
  {
    hide Consistent, Picked, Hits, Low, High, EntryMatches, PartsFor, FromParts, InOrder;
    var ix := ChooseIndex(s);
    var keys := RangeKeys(tree, Low(h, ix, s), High(h, ix, s));
    MatchingStored(h, s, tree);
    MatchingIsPicked(h, s, tree);
    out, failed := Filter(h, s, tree, keys);
    ShowsFails(Matching(h, s, tree), out, failed);
  }

  lemma {:induction false} ShowsFails(facts: seq<Artifact>, out: seq<Artifact>, failed: bool)
    requires Shows(facts, out, failed)
    ensures failed <==> exists a :: a in facts && !CanRead(a)
    ensures (forall a :: a in facts ==> Sturdy(a.value)) ==> out == facts
  {
    if failed {
      assert facts[|out|] in facts;
    }
    if forall a :: a in facts ==> Sturdy(a.value) {
      forall i | 0 <= i < |facts| ensures CanRead(facts[i]) && Shown(facts[i]) == facts[i] {
        assert facts[i] in facts;
      }
    }
  }
}
