/** Facts, the instructions that change them, and the selectors that pick them. */
module Facts {
  import opened Bytes
  import opened Keys
  import opened Names
  import opened Options

  type DataType = t: int | 0 <= t <= 8

  datatype Value = Value(dataType: DataType, content: bytes)

  const RECORD_TYPE: DataType := 7

  /** What decoding a stored value gives: reading a record back is not implemented and panics. */
  datatype Reading = Readable(value: Value) | Invalid | Panics

  function UpToNul(s: bytes): (r: bytes)
    ensures |r| <= |s| && s[..|r|] == r && NulFree(r) && (|r| < |s| ==> s[|r|] == 0)
  {
    if s == [] || s[0] == 0 then [] else [s[0]] + UpToNul(s[1..])
  }

  /** A symbol is stored as padded key bytes and read back up to the first NUL. */
  function ReadBack(v: Value): Reading {
    if v.dataType == RECORD_TYPE then Panics
    else if v.dataType == SYMBOL_TYPE then
      var name := UpToNul(v.content);
      if |name| <= ATTRIBUTE_LENGTH && SLASH in name then Readable(Value(SYMBOL_TYPE, AttributeBytes(name)))
          else Invalid
    else Readable(v)
  }

  /** The value reads back as itself. */
  predicate Sturdy(v: Value) {
    ReadBack(v) == Readable(v)
  }

  /** Every value but a record and a symbol with a NUL in its name reads back as itself. */
  lemma {:induction false} SturdyValues(v: Value, name: Attribute)
    ensures v.dataType != RECORD_TYPE && v.dataType != SYMBOL_TYPE ==> Sturdy(v)
    ensures NulFree(name) ==> Sturdy(Value(SYMBOL_TYPE, AttributeBytes(name)))
  {
    var bytes := AttributeBytes(name);
    if NulFree(name) {
      assert |UpToNul(bytes)| >= |name| by {
        assert forall i :: 0 <= i < |name| ==> bytes[i] != 0;
      }
      assert |UpToNul(bytes)| <= |name| by {
        assert |name| < |bytes| ==> bytes[|name|] == 0;
      }
      assert UpToNul(bytes) == name;
    }
  }

  /** A symbol can be read exactly when a slash stands before its first NUL; only a record is never read. */
  lemma {:induction false} Unreadable(v: Value, name: Attribute)
    ensures v.dataType != SYMBOL_TYPE ==> (ReadBack(v).Readable? <==> v.dataType != RECORD_TYPE)
    ensures ReadBack(Value(SYMBOL_TYPE, AttributeBytes(name))).Readable? <==>
            exists i :: 0 <= i < |name| && name[i] == SLASH && NulFree(name[..i])
  {
    var content := AttributeBytes(name);
    var read := UpToNul(content);
    if SLASH in read {
      var i :| 0 <= i < |read| && read[i] == SLASH;
      assert content[i] == content[..|read|][i] == SLASH;
      assert i < |name| && name[i] == SLASH;
      assert forall j :: 0 <= j < i ==> name[j] == read[j];
    }
    if i :| 0 <= i < |name| && name[i] == SLASH && NulFree(name[..i]) {
      assert forall j :: 0 <= j < i ==> content[j] == name[..i][j];
      assert content[i] == SLASH && i < |read|;
      assert read[i] == content[..|read|][i];
    }
  }

  /** A symbol whose name goes on behind a NUL reads back as the name before it, a different value. */
  lemma {:induction false} SymbolsAreCut(name: Attribute, rest: bytes)
    requires NulFree(name) && |name| + 1 + |rest| <= ATTRIBUTE_LENGTH && !(forall i :: 0 <= i < |rest| ==> rest[i] == 0)
    ensures var whole: Attribute := name + [0] + rest;
            var v := Value(SYMBOL_TYPE, AttributeBytes(whole));
            ReadBack(v) == Readable(Value(SYMBOL_TYPE, AttributeBytes(name))) && !Sturdy(v)
  {
    var whole: Attribute := name + [0] + rest;
    var bytes, cut := AttributeBytes(whole), AttributeBytes(name);
    assert bytes[..|name|] == name && bytes[|name|] == 0;
    var found := UpToNul(bytes);
    assert |found| <= |name|;
    assert |found| >= |name| by {
      assert forall i :: 0 <= i < |name| ==> bytes[i] == name[i] && bytes[i] != 0;
    }
    assert found == name;
    var i :| 0 <= i < |rest| && rest[i] != 0;
    assert bytes[|name| + 1 + i] == rest[i] && cut[|name| + 1 + i] == 0;
  }

  /** A fact: the attribute of the entity is the value. */
  datatype Artifact = Artifact(attribute: Attribute, entity: Uri, value: Value, cause: Option<Digest>)

  datatype Instruction = Assert(artifact: Artifact) | Replace(artifact: Artifact) | Retract(artifact: Artifact)

  function PartsFor(h: Hasher, a: Artifact): (p: Parts)
    ensures p.Valid()
  {
    Parts(EntityBytes(h, a.entity), AttributeBytes(a.attribute), a.value.dataType, h(a.value.content))
  }

  /** A fact is identified by its key in the entity index. */
  function Id(h: Hasher, a: Artifact): Key {
    FromParts(EAV, PartsFor(h, a))
  }

  /** The tag, entity and attribute bytes of a key of the entity index. */
  function Pair(id: Key): bytes {
    id[..TAG_LENGTH + ENTITY_LENGTH + ATTRIBUTE_LENGTH]
  }

  // ---- What a history of instructions means

  type FactSet = map<Key, Artifact>

  /** The stored value reads back as this one. */
  predicate ReadsAs(v: Value, w: Value) {
    ReadBack(v) == Readable(w)
  }

  /** Without the facts of a pair that do not read back as this value. */
  function ClearPair(facts: FactSet, pair: bytes, w: Value): FactSet {
    map k | k in facts && (Pair(k) != pair || ReadsAs(facts[k].value, w)) :: facts[k]
  }

  predicate HasPair(facts: FactSet, pair: bytes) {
    exists k :: k in facts && Pair(k) == pair
  }

  /** The effect of an instruction about the fact with this identity. */
  function StepAt(id: Key, facts: FactSet, i: Instruction): FactSet {
    match i
    case Assert(a) => facts[id := a]
    case Retract(a) => facts - {id}
    case Replace(a) =>
      var left := ClearPair(facts, Pair(id), a.value);
      if HasPair(left, Pair(id)) then left else left[id := a]
  }

  /** A Replace reads all facts of its pair, and fails if one of them cannot be read. */
  predicate FailsAt(id: Key, facts: FactSet, i: Instruction) {
    i.Replace? && exists k :: k in facts && Pair(k) == Pair(id) && !ReadBack(facts[k].value).Readable?
  }

  function Step(h: Hasher, facts: FactSet, i: Instruction): FactSet {
    StepAt(Id(h, i.artifact), facts, i)
  }

  function FoldBy(step: (FactSet, Instruction) -> FactSet, facts: FactSet, instructions: seq<Instruction>): FactSet {
    if instructions == [] then facts
    else step(FoldBy(step, facts, instructions[..|instructions| - 1]), instructions[|instructions| - 1])
  }

  /** The facts a history of instructions leaves. */
  function Fold(h: Hasher, facts: FactSet, instructions: seq<Instruction>): FactSet {
    FoldBy((f, i) => Step(h, f, i), facts, instructions)
  }

  predicate Fails(h: Hasher, facts: FactSet, i: Instruction) {
    FailsAt(Id(h, i.artifact), facts, i)
  }

  /** Some instruction fails on the facts that those before it leave. */
  predicate FailsIn(h: Hasher, facts: FactSet, instructions: seq<Instruction>) {
    if instructions == [] then false
    else
      var front := instructions[..|instructions| - 1];
      FailsIn(h, facts, front) || Fails(h, Fold(h, facts, front), instructions[|instructions| - 1])
  }

  lemma {:induction false} FailsPrefix(h: Hasher, facts: FactSet, instructions: seq<Instruction>, n: nat)
    requires n < |instructions|
    ensures FailsIn(h, facts, instructions[..n + 1]) <==>
            FailsIn(h, facts, instructions[..n]) || Fails(h, Fold(h, facts, instructions[..n]), instructions[n])
    ensures FailsIn(h, facts, instructions[..n + 1]) ==> FailsIn(h, facts, instructions)
    decreases |instructions| - n
  {
    hide Fold, Fails;
    assert instructions[..n + 1][..n] == instructions[..n];
    if n + 1 == |instructions| {
      assert instructions[..n + 1] == instructions;
    } else {
      FailsPrefix(h, facts, instructions, n + 1);
    }
  }

  lemma {:induction false} FailsLast(h: Hasher, facts: FactSet, instructions: seq<Instruction>)
    ensures instructions == [] ==> !FailsIn(h, facts, instructions)
    ensures instructions != [] ==> (FailsIn(h, facts, instructions) <==>
              FailsIn(h, facts, instructions[..|instructions| - 1]) ||
              Fails(h, Fold(h, facts, instructions[..|instructions| - 1]), instructions[|instructions| - 1]))
  {
  }

  lemma {:induction false} FailsAppends(h: Hasher, facts: FactSet, xs: seq<Instruction>, ys: seq<Instruction>)
    ensures FailsIn(h, facts, xs + ys) <==> FailsIn(h, facts, xs) || FailsIn(h, Fold(h, facts, xs), ys)
  {
    hide *;
    FailsLast(h, Fold(h, facts, xs), ys);
    if ys == [] {
      assert xs + ys == xs;
    } else {
      var all, front := xs + ys, ys[..|ys| - 1];
      assert all[..|all| - 1] == xs + front && all[|all| - 1] == ys[|ys| - 1];
      FailsLast(h, facts, all);
      FailsAppends(h, facts, xs, front);
      FoldAppends(h, facts, xs, front);
    }
  }

  lemma {:induction false} FoldByPrefix(step: (FactSet, Instruction) -> FactSet, facts: FactSet,
          instructions: seq<Instruction>, n: nat)
    requires n < |instructions|
    ensures FoldBy(step, facts, instructions[..n + 1]) == step(FoldBy(step, facts, instructions[..n]), instructions[n])
  {
    assert instructions[..n + 1][..n] == instructions[..n];
  }

  lemma {:induction false} FoldByAppends(step: (FactSet, Instruction) -> FactSet, facts: FactSet, xs: seq<Instruction>,
          ys: seq<Instruction>)
    ensures FoldBy(step, facts, xs + ys) == FoldBy(step, FoldBy(step, facts, xs), ys)
  {
    if ys == [] {
      assert xs + ys == xs;
    } else {
      var all, n := xs + ys, |ys| - 1;
      assert all[..|all| - 1] == xs + ys[..n] && all[|all| - 1] == ys[n];
      FoldByAppends(step, facts, xs, ys[..n]);
    }
  }

  lemma {:induction false} FoldPrefix(h: Hasher, facts: FactSet, instructions: seq<Instruction>, n: nat)
    requires n < |instructions|
    ensures Fold(h, facts, instructions[..n + 1]) == Step(h, Fold(h, facts, instructions[..n]), instructions[n])
  {
    FoldByPrefix((f, i) => Step(h, f, i), facts, instructions, n);
  }

  lemma {:induction false} FoldAppends(h: Hasher, facts: FactSet, xs: seq<Instruction>, ys: seq<Instruction>)
    ensures Fold(h, facts, xs + ys) == Fold(h, Fold(h, facts, xs), ys)
  {
    FoldByAppends((f, i) => Step(h, f, i), facts, xs, ys);
  }

  // ---- Selectors

  datatype Selector = Selector(
    entity: Option<Uri>, attribute: Option<Attribute>, value: Option<Value>,
    entityPrefix: Option<bytes>, attributePrefix: Option<bytes>)
  {
    predicate Constrained() {
      entity.Some? || attribute.Some? || value.Some? || entityPrefix.Some? || attributePrefix.Some?
    }

    /** The selector read on the fact itself. */
    predicate Selects(a: Artifact) {
      && (entity.Some? ==> a.entity == entity.value)
      && (attribute.Some? ==> a.attribute == attribute.value)
      && (value.Some? ==> a.value == value.value)
      && (entityPrefix.Some? ==> IsPrefix(entityPrefix.value, a.entity))
      && (attributePrefix.Some? ==> IsPrefix(attributePrefix.value, a.attribute))
    }

    /** The selector read on the parts of a key. */
    predicate MatchesParts(h: Hasher, p: Parts)
      requires p.Valid()
    {
      && (entity.Some? ==> EntityBytes(h, entity.value) == p.entity)
      && (attribute.Some? ==> AttributeBytes(attribute.value) == p.attribute)
      && (value.Some? ==> value.value.dataType == p.valueType && h(value.value.content) == p.reference)
      && (attributePrefix.Some? ==> AttributePrefixMatches(attributePrefix.value, p.attribute))
      && (entityPrefix.Some? ==> EntityHeadMatches(entityPrefix.value, p.entity))
    }

    /** The parts, and for a prefix longer than the raw head the stored URI too. */
    predicate Matches(h: Hasher, a: Artifact) {
      && MatchesParts(h, PartsFor(h, a))
      && (entityPrefix.Some? && |entityPrefix.value| > ENTITY_RAW_HEAD ==> IsPrefix(entityPrefix.value, a.entity))
    }
  }

  /** No two of the hashed texts that this selector and this fact bring together collide. */
  predicate Distinguished(h: Hasher, s: Selector, a: Artifact) {
    && (s.entity.Some? ==> TailsDistinguished(h, s.entity.value, a.entity))
    && (s.value.Some? ==> (h(s.value.value.content) == h(a.value.content) ==> s.value.value.content == a.value.content))
  }

  predicate NulFreeFact(a: Artifact) {
    NulFree(a.entity) && NulFree(a.attribute)
  }

  predicate NulFreeSelector(s: Selector) {
    && (s.entity.Some? ==> NulFree(s.entity.value))
    && (s.attribute.Some? ==> NulFree(s.attribute.value))
    && (s.entityPrefix.Some? ==> NulFree(s.entityPrefix.value))
    && (s.attributePrefix.Some? ==> NulFree(s.attributePrefix.value))
  }

  /** Matching by key bytes is matching by content for texts without NUL bytes. */
  lemma {:induction false} MatchesIsSelects(h: Hasher, s: Selector, a: Artifact)
    requires NulFreeFact(a) && NulFreeSelector(s) && Distinguished(h, s, a)
    ensures s.Matches(h, a) <==> s.Selects(a)
  {
    if s.entity.Some? {
      EntityBytesInjective(h, s.entity.value, a.entity);
    }
    if s.attribute.Some? {
      AttributeBytesInjective(s.attribute.value, a.attribute);
    }
    if s.entityPrefix.Some? {
      var p := s.entityPrefix.value;
      EntityPrefixExact(h, p, a.entity);
      assert |a.entity| < |p| ==> Padded(a.entity, |p|)[|a.entity|] == 0;
    }
    if s.attributePrefix.Some? {
      var p := s.attributePrefix.value;
      AttributePrefixExact(p, a.attribute);
      assert |a.attribute| < |p| ==> Padded(a.attribute, |p|)[|a.attribute|] == 0;
    }
  }

  /** With a NUL in a prefix the two readings part: a prefix that continues an
      attribute with one NUL matches it by key but not by name. */
  lemma {:induction false} NulPrefixMatchesByKeyOnly(h: Hasher, a: Artifact)
    requires |a.attribute| < ATTRIBUTE_LENGTH
    ensures var s := Selector(None, None, None, None, Some(a.attribute + [0]));
            s.Matches(h, a) && !s.Selects(a)
  {
    assert Padded(a.attribute, |a.attribute| + 1) == a.attribute + [0];
    AttributePrefixExact(a.attribute + [0], a.attribute);
  }
}
