/** Unsigned LEB128, 64 bits wide: seven bits a byte, low bits first, the top bit
    set on every byte but the last. */
module Leb128 {
  import opened Bytes
  import opened Options

  const LAST_DIGIT := 9

  function Write(n: nat): (r: bytes)
    ensures |r| > 0
    decreases n, 1
  {
    if n < 128 then [n] else WriteMore(n)
  }

  function WriteMore(n: nat): (r: bytes)
    requires n >= 128
    ensures |r| > 0
    decreases n, 0
  {
    [n % 128 + 128] + Write(n / 128)
  }

  datatype Read = Read(value: nat, position: nat)

  /** Reads one number from a position; the tenth byte may only hold the 64th bit.
      `digit` counts the bytes already consumed. */
  function ReadFrom(s: bytes, position: nat, digit: nat): (r: Option<Read>)
    requires digit <= LAST_DIGIT
    ensures r.Some? ==> position < r.value.position <= |s|
    decreases LAST_DIGIT - digit, 2
  {
    if position >= |s| then None else ReadByte(s, position, digit)
  }

  function ReadByte(s: bytes, position: nat, digit: nat): (r: Option<Read>)
    requires digit <= LAST_DIGIT && position < |s|
    ensures r.Some? ==> position < r.value.position <= |s|
    decreases LAST_DIGIT - digit, 1
  {
    if digit == LAST_DIGIT && s[position] > 1 then None
    else if s[position] < 128 then Some(Read(s[position], position + 1))
    else ReadMore(s, position, digit)
  }

  function ReadMore(s: bytes, position: nat, digit: nat): (r: Option<Read>)
    requires digit < LAST_DIGIT && position < |s| && s[position] >= 128
    ensures r.Some? ==> position < r.value.position <= |s|
    decreases LAST_DIGIT - digit, 0
  {
    match ReadFrom(s, position + 1, digit + 1)
    case None => None
    case Some(rest) => Some(Read(s[position] - 128 + 128 * rest.value, rest.position))
  }

  /** Where the cursor is after a read, successful or not: behind the first byte without a continuation bit, or at the
      end. */
  function Skip(s: bytes, position: nat): (r: nat)
    ensures position <= r && (position <= |s| ==> r <= |s|)
    decreases if position <= |s| then |s| - position else 0
  {
    if position >= |s| then position else if s[position] < 128 then position + 1 else Skip(s, position + 1)
  }

  lemma {:induction false} ReadSkips(s: bytes, position: nat, digit: nat)
    requires digit <= LAST_DIGIT && ReadFrom(s, position, digit).Some?
    ensures ReadFrom(s, position, digit).value.position == Skip(s, position)
    decreases LAST_DIGIT - digit
  {
    assert ReadFrom(s, position, digit) == ReadByte(s, position, digit);
    if s[position] >= 128 {
      assert ReadByte(s, position, digit) == ReadMore(s, position, digit);
      ReadSkips(s, position + 1, digit + 1);
    }
  }

  /** The number that seven bits a byte make, low bits first. */
  function Digits(b: bytes): nat {
    if b == [] then 0 else b[0] % 128 + 128 * Digits(b[1..])
  }

  /** These bytes are a number: the continuation bit is set on all but the last, and there are at most ten of them, or
      as many as are left after some digits, of which a tenth may only hold one bit. */
  predicate NumberFrom(s: bytes, start: nat, end: nat, digit: nat, value: nat) {
    && start < end <= |s| && end - start <= 10 - digit
    && (forall i :: start <= i < end - 1 ==> s[i] >= 128) && s[end - 1] < 128
    && (end - start == 10 - digit ==> s[end - 1] <= 1) && value == Digits(s[start..end])
  }

  predicate Number(s: bytes, start: nat, end: nat, value: nat) {
    NumberFrom(s, start, end, 0, value)
  }

  lemma {:induction false} ReadIsNumberFrom(s: bytes, start: nat, end: nat, digit: nat, value: nat)
    requires digit <= LAST_DIGIT
    ensures ReadFrom(s, start, digit) == Some(Read(value, end)) <==> NumberFrom(s, start, end, digit, value)
    decreases LAST_DIGIT - digit
  {
    if start < |s| {
      assert ReadFrom(s, start, digit) == ReadByte(s, start, digit);
      if s[start] < 128 {
        if end == start + 1 {
          assert s[start..end] == [s[start]] && Digits([s[start]][1..]) == 0;
        }
      } else if digit < LAST_DIGIT {
        assert ReadByte(s, start, digit) == ReadMore(s, start, digit);
        ReadsMore(s, start, end, digit, value);
      }
    }
  }

  lemma {:induction false} ReadsMore(s: bytes, start: nat, end: nat, digit: nat, value: nat)
    requires digit < LAST_DIGIT && start < |s| && s[start] >= 128
    ensures ReadMore(s, start, digit) == Some(Read(value, end)) <==> NumberFrom(s, start, end, digit, value)
    decreases LAST_DIGIT - digit, 0
  {
    hide ReadFrom, ReadByte;
    if start + 1 < end <= |s| {
      assert s[start..end][1..] == s[start + 1..end];
      ReadIsNumberFrom(s, start + 1, end, digit + 1, Digits(s[start + 1..end]));
    }
    var rest := ReadFrom(s, start + 1, digit + 1);
    if rest.Some? {
      ReadIsNumberFrom(s, start + 1, rest.value.position, digit + 1, rest.value.value);
      assert s[start..rest.value.position][1..] == s[start + 1..rest.value.position];
    }
  }

  /** A read gives a value and an end exactly when the bytes up to there are that number; it fails exactly when no
      number starts there. */
  lemma {:induction false} ReadIsNumber(s: bytes, start: nat, end: nat, value: nat)
    ensures ReadFrom(s, start, 0) == Some(Read(value, end)) <==> Number(s, start, end, value)
  {
    ReadIsNumberFrom(s, start, end, 0, value);
  }

  /** Numbers that still fit in 64 bits after this many digits. */
  function Limit(digit: nat): nat
    requires digit <= LAST_DIGIT
    decreases LAST_DIGIT - digit
  {
    if digit == LAST_DIGIT then 2 else 128 * Limit(digit + 1)
  }

  const MAX_U64: nat := 0x1_0000_0000_0000_0000

  lemma LimitIsU64()
    ensures Limit(0) == MAX_U64
  {
    assert Limit(8) == 256;
    assert Limit(6) == 128 * 128 * 256;
    assert Limit(4) == 128 * 128 * 128 * 128 * 256;
    assert Limit(2) == 128 * 128 * 128 * 128 * 128 * 128 * 256;
  }

  /** These bytes stand in the text from this position on. */
  predicate At(s: bytes, position: nat, run: bytes) {
    position + |run| <= |s| && s[position..position + |run|] == run
  }

  lemma {:induction false} ReadsBackFrom(s: bytes, position: nat, digit: nat, n: nat)
    requires digit <= LAST_DIGIT && n < Limit(digit) && At(s, position, Write(n))
    ensures ReadFrom(s, position, digit) == Some(Read(n, position + |Write(n)|))
    decreases n
  {
    assert s[position] == Write(n)[0];
    assert ReadFrom(s, position, digit) == ReadByte(s, position, digit);
    if n >= 128 {
      var rest := Write(n / 128);
      assert Write(n) == WriteMore(n) == [n % 128 + 128] + rest;
      assert s[position + 1..position + 1 + |rest|] == s[position..position + |Write(n)|][1..];
      ReadsBackFrom(s, position + 1, digit + 1, n / 128);
      assert ReadByte(s, position, digit) == ReadMore(s, position, digit);
    }
  }

  lemma {:induction false} ReadsBack(s: bytes, position: nat, n: nat)
    requires n < MAX_U64 && At(s, position, Write(n))
    ensures ReadFrom(s, position, 0) == Some(Read(n, position + |Write(n)|))
  {
    LimitIsU64();
    ReadsBackFrom(s, position, 0, n);
  }
}

/** Columnar buffers: deduplicated cells, the ranges they occupy, and an index per cell. */
module Codec {
  import opened Bytes
  import opened Options
  import opened Leb128

  type Cell = bytes

  // ---- What an encoding consists of

  /** The distinct cells in the order of their first occurrence. */
  function Distinct(cells: seq<Cell>): (d: seq<Cell>)
    ensures forall c :: c in d <==> c in cells
    ensures forall i, j :: 0 <= i < j < |d| ==> d[i] != d[j]
  {
    if cells == [] then []
    else
      var d, last := Distinct(cells[..|cells| - 1]), cells[|cells| - 1];
      assert cells == cells[..|cells| - 1] + [last];
      if last in d then d else d + [last]
  }

  function Position(d: seq<Cell>, c: Cell): (i: nat)
    requires c in d
    ensures i < |d| && d[i] == c && c !in d[..i]
  {
    if d[0] == c then 0
    else
      assert c in d[1..];
      var i := 1 + Position(d[1..], c);
      assert d[..i] == [d[0]] + d[1..][..i - 1];
      i
  }

  /** The distinct cells stand in the order in which they first occur. */
  lemma {:induction false} DistinctInOrder(cells: seq<Cell>, i: nat, j: nat)
    requires i < j < |Distinct(cells)|
    ensures Distinct(cells)[i] in cells && Distinct(cells)[j] in cells
    ensures Position(cells, Distinct(cells)[i]) < Position(cells, Distinct(cells)[j])
  {
    var d, front := Distinct(cells), cells[..|cells| - 1];
    var before, last := Distinct(front), cells[|cells| - 1];
    assert cells == front + [last] && d[i] in d && d[j] in d;
    assert d[i] == before[i] && before[i] in before;
    PositionStable(front, [last], d[i]);
    if j < |before| {
      assert d[j] == before[j] && before[j] in before;
      DistinctInOrder(front, i, j);
      PositionStable(front, [last], d[j]);
    } else {
      NewCellIsLast(front, last);
    }
  }

  function Data(d: seq<Cell>): bytes {
    if d == [] then [] else Data(d[..|d| - 1]) + d[|d| - 1]
  }

  function Offset(d: seq<Cell>, i: nat): nat
    requires i <= |d|
  {
    |Data(d[..i])|
  }

  /** Offset and length of each distinct cell. */
  function RangeBytes(d: seq<Cell>): bytes {
    if d == [] then []
    else RangeBytes(d[..|d| - 1]) + Write(|Data(d[..|d| - 1])|) + Write(|d[|d| - 1]|)
  }

  function IndexBytes(d: seq<Cell>, cells: seq<Cell>): bytes
    requires forall c :: c in cells ==> c in d
  {
    if cells == [] then []
    else
      assert forall c :: c in cells[..|cells| - 1] ==> c in cells;
      IndexBytes(d, cells[..|cells| - 1]) + Write(Position(d, cells[|cells| - 1]))
  }

  function Encoding(cells: seq<Cell>): bytes {
    var d := Distinct(cells);
    Layout(Data(d), RangeBytes(d), IndexBytes(d, cells))
  }

  function Layout(data: bytes, ranges: bytes, indices: bytes): bytes {
    Write(|data|) + data + Write(|ranges|) + ranges + indices
  }

  // ---- Encoding in one pass

  /** Looking a cell up does not depend on cells that come later. */
  lemma {:induction false} PositionStable(d: seq<Cell>, more: seq<Cell>, c: Cell)
    requires c in d
    ensures Position(d + more, c) == Position(d, c)
  {
    if d[0] != c {
      assert (d + more)[1..] == d[1..] + more;
      assert c in d[1..];
      PositionStable(d[1..], more, c);
    }
  }

  lemma {:induction false} IndexBytesStable(d: seq<Cell>, more: seq<Cell>, cells: seq<Cell>)
    requires forall c :: c in cells ==> c in d
    ensures IndexBytes(d + more, cells) == IndexBytes(d, cells)
  {
    if cells != [] {
      assert forall c :: c in cells[..|cells| - 1] ==> c in cells;
      IndexBytesStable(d, more, cells[..|cells| - 1]);
      PositionStable(d, more, cells[|cells| - 1]);
    }
  }

  lemma {:induction false} NewCellIsLast(d: seq<Cell>, c: Cell)
    requires c !in d
    ensures Position(d + [c], c) == |d|
  {
    assert forall i :: 0 <= i < |d| ==> (d + [c])[i] == d[i];
  }

  /** The dictionary maps each distinct cell to its position. */
  ghost predicate IsDictionary(dictionary: map<Cell, nat>, d: seq<Cell>) {
    (forall c :: c in dictionary <==> c in d) && (forall c :: c in dictionary ==> dictionary[c] == Position(d, c))
  }

  lemma {:induction false} DictionaryGrows(dictionary: map<Cell, nat>, d: seq<Cell>, c: Cell)
    requires IsDictionary(dictionary, d) && c !in d
    ensures IsDictionary(dictionary[c := |d|], d + [c])
  {
    NewCellIsLast(d, c);
    forall b | b in d ensures Position(d + [c], b) == Position(d, b) {
      PositionStable(d, [c], b);
    }
  }

  lemma {:induction false} OneMoreCell(cells: seq<Cell>, n: nat)
    requires n < |cells|
    ensures var d, c := Distinct(cells[..n]), cells[n];
            && Distinct(cells[..n + 1]) == (if c in d then d else d + [c])
            && IndexBytes(Distinct(cells[..n + 1]), cells[..n + 1]) ==
                 IndexBytes(d, cells[..n]) + Write(Position(Distinct(cells[..n + 1]), c))
  {
    var d, c := Distinct(cells[..n]), cells[n];
    assert cells[..n + 1][..n] == cells[..n];
    if c !in d {
      IndexBytesStable(d, [c], cells[..n]);
    }
  }

  lemma {:induction false} OneMoreDistinct(d: seq<Cell>, c: Cell)
    ensures Data(d + [c]) == Data(d) + c
    ensures RangeBytes(d + [c]) == RangeBytes(d) + Write(|Data(d)|) + Write(|c|)
  {
    assert (d + [c])[..|d|] == d;
  }

  /** The sections and the dictionary after some of the cells. */
  ghost predicate Encoded(cells: seq<Cell>, data: bytes, ranges: bytes, indices: bytes, dictionary: map<Cell, nat>) {
    var d := Distinct(cells);
    data == Data(d) && ranges == RangeBytes(d) && indices == IndexBytes(d, cells)
    && IsDictionary(dictionary, d) && |dictionary| == |d|
  }

  lemma {:induction false} OldCell(cells: seq<Cell>, n: nat, data: bytes, ranges: bytes, indices: bytes,
          dictionary: map<Cell, nat>)
    requires n < |cells| && Encoded(cells[..n], data, ranges, indices, dictionary) && cells[n] in dictionary
    ensures Encoded(cells[..n + 1], data, ranges, indices + Write(dictionary[cells[n]]), dictionary)
  {
    OneMoreCell(cells, n);
  }

  lemma {:induction false} NewCell(cells: seq<Cell>, n: nat, data: bytes, ranges: bytes, indices: bytes,
          dictionary: map<Cell, nat>)
    requires n < |cells| && Encoded(cells[..n], data, ranges, indices, dictionary) && cells[n] !in dictionary
    ensures var c, i := cells[n], |dictionary|;
            Encoded(cells[..n + 1], data + c, ranges + Write(|data|) + Write(|c|), indices + Write(i),
              dictionary[c := i])
  {
    var d, c := Distinct(cells[..n]), cells[n];
    OneMoreCell(cells, n);
    OneMoreDistinct(d, c);
    DictionaryGrows(dictionary, d, c);
    NewCellIsLast(d, c);
  }

  /** Grows the three sections and the dictionary cell by cell. */
  method Encode(cells: seq<Cell>) returns (buffer: bytes)
    ensures buffer == Encoding(cells)
  {
    var data: bytes, ranges: bytes, indices: bytes := [], [], [];
    var dictionary: map<Cell, nat> := map[];
    var nextIndex, dataLength := 0, 0;
    for n := 0 to |cells|
      invariant Encoded(cells[..n], data, ranges, indices, dictionary)
      invariant nextIndex == |dictionary| && dataLength == |data|
    {
      var cell := cells[n];
      if cell in dictionary {
        OldCell(cells, n, data, ranges, indices, dictionary);
        indices := indices + Write(dictionary[cell]);
      } else {
        NewCell(cells, n, data, ranges, indices, dictionary);
        ranges := ranges + Write(dataLength);
        ranges := ranges + Write(|cell|);
        dataLength := dataLength + |cell|;
        data := data + cell;
        dictionary := dictionary[cell := nextIndex];
        indices := indices + Write(nextIndex);
        nextIndex := nextIndex + 1;
      }
    }
    assert cells[..|cells|] == cells;
    buffer := Write(|data|);
    buffer := buffer + data;
    buffer := buffer + Write(|ranges|);
    buffer := buffer + ranges;
    buffer := buffer + indices;
  }

  // ---- Decoding

  /** A panic stands for a slice or an index out of bounds. */
  datatype Outcome<+T> = Ok(value: T) | IntegerError | Panic

  type Range = (nat, nat)

  /** Reads offset and length pairs up to the end of the section. */
  function ReadRanges(s: bytes, position: nat): Outcome<seq<Range>>
    decreases |s| - position
  {
    if position >= |s| then Ok([])
    else match ReadFrom(s, position, 0)
         case None => IntegerError
         case Some(offset) =>
           match ReadFrom(s, offset.position, 0)
           case None => IntegerError
           case Some(length) =>
             match ReadRanges(s, length.position)
             case Ok(rest) => Ok([(offset.value, length.value)] + rest)
             case other => other
  }

  /** What the next call of the cell iterator returns, and where it leaves the cursor. */
  datatype Next = Done | Yield(cell: Cell, position: nat) | Fault

  function NextCell(data: bytes, ranges: seq<Range>, buffer: bytes, position: nat): (r: Next)
    ensures r.Yield? ==> position < r.position <= |buffer|
  {
    match ReadFrom(buffer, position, 0)
    case None => Done
    case Some(index) =>
      if index.value >= |ranges| then Fault
      else
        var (start, length) := ranges[index.value];
        if start + length > |data| then Fault else Yield(data[start..start + length], index.position)
  }

  /** All cells from a position on, until the iterator ends. */
  function CellsFrom(data: bytes, ranges: seq<Range>, buffer: bytes, position: nat): Outcome<seq<Cell>>
    decreases if position <= |buffer| then |buffer| - position else 0
  {
    match NextCell(data, ranges, buffer, position)
    case Done => Ok([])
    case Fault => Panic
    case Yield(cell, next) =>
      match CellsFrom(data, ranges, buffer, next)
      case Ok(rest) => Ok([cell] + rest)
      case other => other
  }

  /** The decoder as a function of the buffer: the data section, */
  function Decoded(buffer: bytes): Outcome<seq<Cell>> {
    match ReadFrom(buffer, 0, 0)
    case None => IntegerError
    case Some(length) =>
      if length.position + length.value > |buffer| then Panic
      else DecodedAfter(buffer, length.position + length.value, buffer[length.position..length.position + length.value])
  }

  /** then the range section, and the cells after it. */
  function DecodedAfter(buffer: bytes, position: nat, data: bytes): Outcome<seq<Cell>> {
    match ReadFrom(buffer, position, 0)
    case None => IntegerError
    case Some(length) =>
      if length.position + length.value > |buffer| then Panic
      else
        match ReadRanges(buffer[length.position..length.position + length.value], 0)
        case Ok(ranges) => CellsFrom(data, ranges, buffer, length.position + length.value)
        case IntegerError => IntegerError
        case Panic => Panic
  }

  /** The iterator over the cells of a buffer. */
  class CellDecoder {
    const data: bytes
    const ranges: seq<Range>
    const buffer: bytes
    var position: nat

    constructor (data: bytes, ranges: seq<Range>, buffer: bytes, position: nat)
      ensures this.data == data && this.ranges == ranges && this.buffer == buffer && this.position == position
    {
      this.data, this.ranges, this.buffer, this.position := data, ranges, buffer, position;
    }

    method Advance() returns (r: Next)
      modifies this
      ensures r == NextCell(data, ranges, buffer, old(position))
      ensures position == Skip(buffer, old(position)) && (r.Yield? ==> position == r.position)
    {
      hide Skip;
      var index := ReadFrom(buffer, position, 0);
      if index.Some? {
        ReadSkips(buffer, position, 0);
      }
      position := Skip(buffer, position);
      if index.None? {
        return Done;
      }
      if index.value.value >= |ranges| {
        return Fault;
      }
      var (start, length) := ranges[index.value.value];
      if start + length > |data| {
        return Fault;
      }
      return Yield(data[start..start + length], position);
    }
  }

  lemma {:induction false} ReadRangesStep(s: bytes, position: nat, offset: Read, length: Read)
    requires position < |s| && ReadFrom(s, position, 0) == Some(offset) &&
             ReadFrom(s, offset.position, 0) == Some(length)
    ensures ReadRanges(s, position) ==
              match ReadRanges(s, length.position)
              case Ok(rest) => Ok([(offset.value, length.value)] + rest)
              case other => other
  {
  }

  function Prepend<T>(done: seq<T>, rest: Outcome<seq<T>>): Outcome<seq<T>> {
    match rest
    case Ok(more) => Ok(done + more)
    case other => other
  }

  lemma {:induction false} PrependNothing<T>(rest: Outcome<seq<T>>, done: seq<T>)
    ensures Prepend([], rest) == rest
    ensures Prepend(done, Ok([])) == Ok(done)
  {
    if rest.Ok? {
      assert [] + rest.value == rest.value;
    }
    assert done + [] == done;
  }

  lemma {:induction false} PrependOne<T>(done: seq<T>, x: T, rest: Outcome<seq<T>>)
    ensures Prepend(done, Prepend([x], rest)) == Prepend(done + [x], rest)
  {
    if rest.Ok? {
      assert done + ([x] + rest.value) == done + [x] + rest.value;
    }
  }

  /** Reads the range table with a cursor of its own. */
  method DecodeRanges(s: bytes) returns (r: Outcome<seq<Range>>)
    ensures r == ReadRanges(s, 0)
  {
    var ranges: seq<Range>, position := [], 0;
    PrependNothing(ReadRanges(s, 0), ranges);
    while position < |s|
      invariant position <= |s|
      invariant ReadRanges(s, 0) == Prepend(ranges, ReadRanges(s, position))
    {
      var offset := ReadFrom(s, position, 0);
      if offset.None? {
        return IntegerError;
      }
      var length := ReadFrom(s, offset.value.position, 0);
      if length.None? {
        return IntegerError;
      }
      ReadRangesStep(s, position, offset.value, length.value);
      var entry := (offset.value.value, length.value.value);
      PrependOne(ranges, entry, ReadRanges(s, length.value.position));
      ranges := ranges + [entry];
      position := length.value.position;
    }
    PrependNothing(ReadRanges(s, position), ranges);
    return Ok(ranges);
  }

  /** Drains the iterator. */
  method Drain(data: bytes, ranges: seq<Range>, buffer: bytes, start: nat) returns (r: Outcome<seq<Cell>>)
    requires start <= |buffer|
    ensures r == CellsFrom(data, ranges, buffer, start)
  {
    var decoder := new CellDecoder(data, ranges, buffer, start);
    var cells: seq<Cell> := [];
    PrependNothing(CellsFrom(data, ranges, buffer, start), cells);
    while true
      invariant decoder.data == data && decoder.ranges == ranges && decoder.buffer == buffer
      invariant decoder.position <= |buffer|
      invariant CellsFrom(data, ranges, buffer, start) ==
                Prepend(cells, CellsFrom(data, ranges, buffer, decoder.position))
      decreases |buffer| - decoder.position
    {
      ghost var before := decoder.position;
      var next := decoder.Advance();
      match next {
        case Done =>
          PrependNothing(CellsFrom(data, ranges, buffer, before), cells);
          return Ok(cells);
        case Fault => return Panic;
        case Yield(cell, _) =>
          PrependOne(cells, cell, CellsFrom(data, ranges, buffer, decoder.position));
          cells := cells + [cell];
      }
    }
  }

  method Decode(buffer: bytes) returns (r: Outcome<seq<Cell>>)
    ensures r == Decoded(buffer)
  {
    var dataLength := ReadFrom(buffer, 0, 0);
    if dataLength.None? {
      return IntegerError;
    }
    var start, end := dataLength.value.position, dataLength.value.position + dataLength.value.value;
    if end > |buffer| {
      return Panic;
    }
    r := DecodeAfter(buffer, end, buffer[start..end]);
  }

  method DecodeAfter(buffer: bytes, position: nat, data: bytes) returns (r: Outcome<seq<Cell>>)
    ensures r == DecodedAfter(buffer, position, data)
  {
    var rangesLength := ReadFrom(buffer, position, 0);
    if rangesLength.None? {
      return IntegerError;
    }
    var start, end := rangesLength.value.position, rangesLength.value.position + rangesLength.value.value;
    if end > |buffer| {
      return Panic;
    }
    var ranges := DecodeRanges(buffer[start..end]);
    match ranges {
      case Ok(table) => r := Drain(data, table, buffer, end);
      case IntegerError => r := IntegerError;
      case Panic => r := Panic;
    }
  }

  // ---- The round trip

  /** Where each distinct cell lies in the data section. */
  function Table(d: seq<Cell>): (t: seq<Range>)
    ensures |t| == |d| && forall i :: 0 <= i < |d| ==> t[i] == (Offset(d, i), |d[i]|)
  {
    seq(|d|, i requires 0 <= i < |d| => (Offset(d, i), |d[i]|))
  }

  lemma {:induction false} DataSplits(d: seq<Cell>, i: nat)
    requires i <= |d|
    ensures Data(d[..i]) <= Data(d)
    ensures i < |d| ==> Data(d[..i + 1]) == Data(d[..i]) + d[i]
    decreases |d|
  {
    if i < |d| {
      assert d[..i + 1][..i] == d[..i];
      DataSplits(d[..|d| - 1], i);
      assert d[..|d| - 1][..i] == d[..i];
    } else {
      assert d[..i] == d;
    }
  }

  /** Each range of the table slices its cell back out of the data. */
  lemma {:induction false} TableSlices(d: seq<Cell>, i: nat)
    requires i < |d|
    ensures Offset(d, i) + |d[i]| <= |Data(d)|
    ensures Data(d)[Offset(d, i)..Offset(d, i) + |d[i]|] == d[i]
  {
    DataSplits(d, i);
    DataSplits(d, i + 1);
    var head, upto := Data(d[..i]), Data(d[..i + 1]);
    assert Data(d)[..|upto|] == upto;
    assert Data(d)[|head|..|upto|] == upto[|head|..];
  }

  lemma {:induction false} RangeBytesSplits(d: seq<Cell>, i: nat)
    requires i <= |d|
    ensures RangeBytes(d[..i]) <= RangeBytes(d)
    ensures i < |d| ==> RangeBytes(d[..i + 1]) == RangeBytes(d[..i]) + Write(Offset(d, i)) + Write(|d[i]|)
    decreases |d|
  {
    if i < |d| {
      assert d[..i + 1][..i] == d[..i];
      RangeBytesSplits(d[..|d| - 1], i);
      assert d[..|d| - 1][..i] == d[..i];
    } else {
      assert d[..i] == d;
    }
  }

  lemma {:induction false} FewerThanBytes(d: seq<Cell>)
    ensures |d| <= |RangeBytes(d)|
  {
    if d != [] {
      FewerThanBytes(d[..|d| - 1]);
    }
  }

  lemma {:induction false} AtInside(s: bytes, base: nat, z: bytes, x: bytes, run: bytes)
    requires At(s, base, z) && x + run <= z
    ensures At(s, base + |x|, run)
  {
    assert s[base..base + |z|][..|x + run|] == x + run;
    assert s[base + |x|..base + |x| + |run|] == s[base..base + |z|][|x|..|x + run|];
  }

  lemma {:induction false} ReadsEntry(s: bytes, position: nat, offset: nat, length: nat, rest: seq<Range>)
    requires offset < MAX_U64 && length < MAX_U64
    requires At(s, position, Write(offset)) && At(s, position + |Write(offset)|, Write(length))
    requires ReadRanges(s, position + |Write(offset)| + |Write(length)|) == Ok(rest)
    ensures ReadRanges(s, position) == Ok([(offset, length)] + rest)
  {
    hide Write, ReadFrom, ReadRanges, At;
    var next := position + |Write(offset)|;
    ReadsBack(s, position, offset);
    ReadsBack(s, next, length);
    ReadRangesStep(s, position, Read(offset, next), Read(length, next + |Write(length)|));
  }

  lemma {:induction false} RangeBytesAt(d: seq<Cell>, i: nat)
    requires i < |d|
    ensures var s, position, offset := RangeBytes(d), |RangeBytes(d[..i])|, Offset(d, i);
            && At(s, position, Write(offset)) && At(s, position + |Write(offset)|, Write(|d[i]|))
            && |RangeBytes(d[..i + 1])| == position + |Write(offset)| + |Write(|d[i]|)|
  {
    var s, x, first, second := RangeBytes(d), RangeBytes(d[..i]), Write(Offset(d, i)), Write(|d[i]|);
    RangeBytesSplits(d, i);
    RangeBytesSplits(d, i + 1);
    assert At(s, 0, s);
    AtInside(s, 0, s, x, first);
    AtInside(s, 0, s, x + first, second);
  }

  lemma {:induction false} NoMoreRanges(s: bytes)
    ensures ReadRanges(s, |s|) == Ok([])
  {
  }

  /** From the end of any entry on, the range section reads back as the rest of the table. */
  lemma {:induction false} RangesReadBack(d: seq<Cell>, i: nat)
    requires i <= |d| && |Data(d)| < MAX_U64
    ensures ReadRanges(RangeBytes(d), |RangeBytes(d[..i])|) == Ok(Table(d)[i..])
    decreases |d| - i
  {
    hide *;
    if i == |d| {
      assert d[..i] == d && Table(d)[i..] == [];
      NoMoreRanges(RangeBytes(d));
    } else {
      RangesReadBack(d, i + 1);
      RangeBytesAt(d, i);
      TableSlices(d, i);
      ReadsEntry(RangeBytes(d), |RangeBytes(d[..i])|, Offset(d, i), |d[i]|, Table(d)[i + 1..]);
      assert Table(d)[i..] == [Table(d)[i]] + Table(d)[i + 1..];
    }
  }

  lemma {:induction false} IndexBytesSplits(d: seq<Cell>, cells: seq<Cell>, n: nat)
    requires n <= |cells| && forall c :: c in cells ==> c in d
    ensures IndexBytes(d, cells[..n]) <= IndexBytes(d, cells)
    ensures n < |cells| ==> IndexBytes(d, cells[..n + 1]) == IndexBytes(d, cells[..n]) + Write(Position(d, cells[n]))
    decreases |cells|
  {
    if n < |cells| {
      assert forall c :: c in cells[..|cells| - 1] ==> c in cells;
      assert cells[..n + 1][..n] == cells[..n];
      IndexBytesSplits(d, cells[..|cells| - 1], n);
      assert cells[..|cells| - 1][..n] == cells[..n];
    } else {
      assert cells[..n] == cells;
    }
  }

  /** The table's ranges hold these cells. */
  predicate Slices(data: bytes, table: seq<Range>, d: seq<Cell>) {
    |table| == |d| && forall i :: 0 <= i < |d| ==>
      table[i].0 + table[i].1 <= |data| && data[table[i].0..table[i].0 + table[i].1] == d[i]
  }

  lemma {:induction false} TableHolds(d: seq<Cell>)
    ensures Slices(Data(d), Table(d), d)
  {
    forall i | 0 <= i < |d|
        ensures Offset(d, i) + |d[i]| <= |Data(d)| && Data(d)[Offset(d, i)..Offset(d, i) + |d[i]|] == d[i] {
      TableSlices(d, i);
    }
  }

  lemma {:induction false} ReadsCell(data: bytes, table: seq<Range>, d: seq<Cell>, s: bytes, position: nat, i: nat,
          rest: seq<Cell>)
    requires Slices(data, table, d) && i < |d| && |d| < MAX_U64 && At(s, position, Write(i))
    requires CellsFrom(data, table, s, position + |Write(i)|) == Ok(rest)
    ensures CellsFrom(data, table, s, position) == Ok([d[i]] + rest)
  {
    ReadsBack(s, position, i);
  }

  lemma {:induction false} ReadsNoMore(data: bytes, table: seq<Range>, s: bytes)
    ensures CellsFrom(data, table, s, |s|) == Ok([])
  {
  }

  lemma {:induction false} IndexBytesAt(d: seq<Cell>, cells: seq<Cell>, n: nat, s: bytes, base: nat)
    requires n < |cells| && (forall c :: c in cells ==> c in d) && At(s, base, IndexBytes(d, cells))
    ensures var i, x := Position(d, cells[n]), IndexBytes(d, cells[..n]);
            At(s, base + |x|, Write(i)) && |IndexBytes(d, cells[..n + 1])| == |x| + |Write(i)|
  {
    IndexBytesSplits(d, cells, n);
    IndexBytesSplits(d, cells, n + 1);
    AtInside(s, base, IndexBytes(d, cells), IndexBytes(d, cells[..n]), Write(Position(d, cells[n])));
  }

  /** From any cell on, the index section reads back as the rest of the cells. */
  lemma {:induction false} CellsReadBack(data: bytes, table: seq<Range>, d: seq<Cell>, cells: seq<Cell>, s: bytes,
          base: nat, n: nat)
    requires Slices(data, table, d) && n <= |cells| && (forall c :: c in cells ==> c in d) && |d| < MAX_U64
    requires At(s, base, IndexBytes(d, cells)) && base + |IndexBytes(d, cells)| == |s|
    ensures CellsFrom(data, table, s, base + |IndexBytes(d, cells[..n])|) == Ok(cells[n..])
    decreases |cells| - n
  {
    hide *;
    if n == |cells| {
      assert cells[..n] == cells && cells[n..] == [];
      ReadsNoMore(data, table, s);
    } else {
      CellsReadBack(data, table, d, cells, s, base, n + 1);
      IndexBytesAt(d, cells, n, s, base);
      ReadsCell(data, table, d, s, base + |IndexBytes(d, cells[..n])|, Position(d, cells[n]), cells[n + 1..]);
      assert cells[n..] == [cells[n]] + cells[n + 1..];
    }
  }

  lemma {:induction false} FiveRuns(a: bytes, b: bytes, c: bytes, d: bytes, e: bytes)
    ensures var s := a + b + c + d + e;
            && At(s, 0, a) && At(s, |a|, b) && At(s, |a| + |b|, c) && At(s, |a| + |b| + |c|, d)
            && At(s, |a| + |b| + |c| + |d|, e) && |s| == |a| + |b| + |c| + |d| + |e|
  {
    var ab := a + b;
    var abc := ab + c;
    var abcd := abc + d;
    var s := abcd + e;
    assert s[..|abcd|] == abcd && s[..|abc|] == abc && s[..|ab|] == ab && s[..|a|] == a;
    assert s[|a|..|ab|] == b && s[|ab|..|abc|] == c && s[|abc|..|abcd|] == d && s[|abcd|..] == e;
  }

  lemma {:induction false} RangesFound(buffer: bytes, position: nat, data: bytes, length: Read, ranges: bytes,
          table: seq<Range>)
    requires ReadFrom(buffer, position, 0) == Some(length) && length.value == |ranges| &&
             At(buffer, length.position, ranges)
    requires ReadRanges(ranges, 0) == Ok(table)
    ensures DecodedAfter(buffer, position, data) == CellsFrom(data, table, buffer, length.position + |ranges|)
  {
  }

  lemma {:induction false} DataFound(buffer: bytes, length: Read, data: bytes)
    requires ReadFrom(buffer, 0, 0) == Some(length) && length.value == |data| && At(buffer, length.position, data)
    ensures Decoded(buffer) == DecodedAfter(buffer, length.position + |data|, data)
  {
  }

  /** The decoder finds the sections of any buffer that holds them in their places. */
  lemma {:induction false} SectionsFound(buffer: bytes, data: bytes, ranges: bytes, table: seq<Range>)
    requires |data| < MAX_U64 && |ranges| < MAX_U64 && ReadRanges(ranges, 0) == Ok(table)
    requires At(buffer, 0, Write(|data|)) && At(buffer, |Write(|data|)|, data)
    requires At(buffer, |Write(|data|)| + |data|, Write(|ranges|))
    requires At(buffer, |Write(|data|)| + |data| + |Write(|ranges|)|, ranges)
    ensures Decoded(buffer) == CellsFrom(data, table, buffer, |Write(|data|)| + |data| + |Write(|ranges|)| + |ranges|)
  {
    hide *;
    var p := |Write(|data|)|;
    var q := p + |data| + |Write(|ranges|)|;
    ReadsBack(buffer, 0, |data|);
    ReadsBack(buffer, p + |data|, |ranges|);
    DataFound(buffer, Read(|data|, p), data);
    RangesFound(buffer, p + |data|, data, Read(|ranges|, q), ranges, table);
  }

  lemma {:induction false} NothingBefore(cells: seq<Cell>)
    ensures var d := Distinct(cells); RangeBytes(d[..0]) == [] && IndexBytes(d, cells[..0]) == []
  {
  }

  lemma {:induction false} Sections(cells: seq<Cell>)
    ensures var d := Distinct(cells);
            var data, ranges, indices := Data(d), RangeBytes(d), IndexBytes(d, cells);
            Encoding(cells) == Write(|data|) + data + Write(|ranges|) + ranges + indices
  {
    hide Write, Data, RangeBytes, IndexBytes, Distinct;
  }

  /** Decoding an encoding yields the cells, empty and repeated ones included. */
  lemma {:induction false} RoundTrip(cells: seq<Cell>)
    requires |Encoding(cells)| < MAX_U64
    ensures Decoded(Encoding(cells)) == Ok(cells)
  {
    hide *;
    var d, buffer := Distinct(cells), Encoding(cells);
    var data, ranges, indices := Data(d), RangeBytes(d), IndexBytes(d, cells);
    Sections(cells);
    FiveRuns(Write(|data|), data, Write(|ranges|), ranges, indices);
    NothingBefore(cells);
    RangesReadBack(d, 0);
    assert Table(d)[0..] == Table(d);
    SectionsFound(buffer, data, ranges, Table(d));
    FewerThanBytes(d);
    TableHolds(d);
    CellsReadBack(data, Table(d), d, cells, buffer, |buffer| - |indices|, 0);
    assert cells[0..] == cells;
  }

  lemma {:induction false} EncodingInjective(a: seq<Cell>, b: seq<Cell>)
    requires |Encoding(a)| < MAX_U64 && Encoding(a) == Encoding(b)
    ensures a == b
  {
    RoundTrip(a);
    RoundTrip(b);
  }

  // ---- What a buffer means, without reading it in turn

  ghost predicate NoNumber(s: bytes, start: nat) {
    forall end, value :: !Number(s, start, end, value)
  }

  lemma {:induction false} ReadOrNot(s: bytes, start: nat)
    ensures ReadFrom(s, start, 0).None? <==> NoNumber(s, start)
    ensures forall end, value :: Number(s, start, end, value) <==> ReadFrom(s, start, 0) == Some(Read(value, end))
  {
    hide Number, ReadFrom;
    forall end, value ensures Number(s, start, end, value) <==> ReadFrom(s, start, 0) == Some(Read(value, end)) {
      ReadIsNumber(s, start, end, value);
    }
    if ReadFrom(s, start, 0).Some? {
      var read := ReadFrom(s, start, 0).value;
      assert Number(s, start, read.position, read.value);
    }
  }

  /** Where the i-th of a run of items starts, given where each ends. */
  function StartOf(start: nat, ends: seq<nat>, i: nat): nat
    requires i <= |ends|
  {
    if i == 0 then start else ends[i - 1]
  }

  /** Two numbers one after the other. */
  predicate PairAt(s: bytes, start: nat, middle: nat, end: nat, range: Range) {
    start < |s| && Number(s, start, middle, range.0) && Number(s, middle, end, range.1)
  }

  /** The section is a run of pairs of numbers, up to its end. */
  ghost predicate Pairs(s: bytes, start: nat, table: seq<Range>, middles: seq<nat>, ends: seq<nat>) {
    && |table| == |middles| == |ends| && StartOf(start, ends, |ends|) >= |s|
    && forall i :: 0 <= i < |table| ==> PairAt(s, StartOf(start, ends, i), middles[i], ends[i], table[i])
  }

  lemma {:induction false} PairsCons(s: bytes, start: nat, first: Range, middle: nat, end: nat, rest: seq<Range>,
          middles: seq<nat>, ends: seq<nat>)
    requires PairAt(s, start, middle, end, first) && Pairs(s, end, rest, middles, ends)
    ensures Pairs(s, start, [first] + rest, [middle] + middles, [end] + ends)
  {
    hide PairAt;
    var table, cuts, stops := [first] + rest, [middle] + middles, [end] + ends;
    forall i | 0 <= i < |table| ensures PairAt(s, StartOf(start, stops, i), cuts[i], stops[i], table[i]) {
      if i > 0 {
        assert StartOf(start, stops, i) == StartOf(end, ends, i - 1);
        assert PairAt(s, StartOf(end, ends, i - 1), middles[i - 1], ends[i - 1], rest[i - 1]);
      }
    }
  }

  lemma {:induction false} PairsRest(s: bytes, start: nat, table: seq<Range>, middles: seq<nat>, ends: seq<nat>)
    requires Pairs(s, start, table, middles, ends) && table != []
    ensures Pairs(s, ends[0], table[1..], middles[1..], ends[1..])
    ensures PairAt(s, start, middles[0], ends[0], table[0])
  {
    hide PairAt;
    var rest, cuts, stops := table[1..], middles[1..], ends[1..];
    assert StartOf(start, ends, 0) == start;
    forall i | 0 <= i < |rest| ensures PairAt(s, StartOf(ends[0], stops, i), cuts[i], stops[i], rest[i]) {
      assert StartOf(ends[0], stops, i) == StartOf(start, ends, i + 1);
      assert PairAt(s, StartOf(start, ends, i + 1), middles[i + 1], ends[i + 1], table[i + 1]);
    }
  }

  lemma {:induction false} RangesParse(s: bytes, start: nat) returns (middles: seq<nat>, ends: seq<nat>)
    ensures !ReadRanges(s, start).Panic?
    ensures ReadRanges(s, start).Ok? ==> Pairs(s, start, ReadRanges(s, start).value, middles, ends)
    decreases |s| - start
  {
    hide Number, ReadFrom, Pairs;
    middles, ends := [], [];
    if start >= |s| {
      NoPairs(s, start);
    } else {
      ReadOrNot(s, start);
      var offset := ReadFrom(s, start, 0);
      if offset.Some? {
        ReadOrNot(s, offset.value.position);
        var length := ReadFrom(s, offset.value.position, 0);
        if length.Some? {
          var m, e := RangesParse(s, length.value.position);
          var rest := ReadRanges(s, length.value.position);
          if rest.Ok? {
            PairsCons(s, start, (offset.value.value, length.value.value), offset.value.position, length.value.position,
              rest.value, m, e);
            middles, ends := [offset.value.position] + m, [length.value.position] + e;
          }
        }
      }
    }
  }

  lemma {:induction false} NoPairs(s: bytes, start: nat)
    requires start >= |s|
    ensures Pairs(s, start, [], [], [])
  {
  }

  lemma {:induction false} PairsRead(s: bytes, start: nat, table: seq<Range>, middles: seq<nat>, ends: seq<nat>)
    requires Pairs(s, start, table, middles, ends)
    ensures ReadRanges(s, start) == Ok(table)
    decreases |table|
  {
    hide Number, ReadFrom;
    if table != [] {
      PairsRest(s, start, table, middles, ends);
      ReadOrNot(s, start);
      ReadOrNot(s, middles[0]);
      PairsRead(s, ends[0], table[1..], middles[1..], ends[1..]);
      assert table == [table[0]] + table[1..] && table[0] == (table[0].0, table[0].1);
    }
  }

  /** The table has no such entry, or it reaches beyond the data. */
  predicate Missing(data: bytes, table: seq<Range>, pick: nat) {
    pick >= |table| || table[pick].0 + table[pick].1 > |data|
  }

  /** The cell that an entry of the table stands for. */
  function Drawn(data: bytes, table: seq<Range>, pick: nat): Cell
    requires !Missing(data, table, pick)
  {
    data[table[pick].0..table[pick].0 + table[pick].1]
  }

  /** A run of numbers, each picking a cell of the data through the table. */
  ghost predicate Draws(data: bytes, table: seq<Range>, s: bytes, start: nat, picks: seq<nat>, ends: seq<nat>,
          cells: seq<Cell>)
  {
    && |picks| == |ends| == |cells|
    && forall i :: 0 <= i < |cells| ==>
         && Number(s, StartOf(start, ends, i), ends[i], picks[i]) && !Missing(data, table, picks[i])
         && cells[i] == Drawn(data, table, picks[i])
  }

  lemma {:induction false} DrawsCons(data: bytes, table: seq<Range>, s: bytes, start: nat, pick: nat, end: nat,
          picks: seq<nat>, ends: seq<nat>, cells: seq<Cell>)
    requires Number(s, start, end, pick) && !Missing(data, table, pick) &&
             Draws(data, table, s, end, picks, ends, cells)
    ensures var cell := Drawn(data, table, pick);
            && Draws(data, table, s, start, [pick] + picks, [end] + ends, [cell] + cells)
            && StartOf(start, [end] + ends, |ends| + 1) == StartOf(end, ends, |ends|)
  {
    hide Number, Missing, Drawn;
    forall i | 0 < i < |cells| + 1
      ensures Number(s, StartOf(start, [end] + ends, i), ([end] + ends)[i], ([pick] + picks)[i])
      ensures !Missing(data, table, ([pick] + picks)[i])
      ensures ([Drawn(data, table, pick)] + cells)[i] == Drawn(data, table, ([pick] + picks)[i])
    {
      assert StartOf(start, [end] + ends, i) == StartOf(end, ends, i - 1);
      assert Number(s, StartOf(end, ends, i - 1), ends[i - 1], picks[i - 1]);
    }
  }

  lemma {:induction false} DrawsRest(data: bytes, table: seq<Range>, s: bytes, start: nat, picks: seq<nat>,
          ends: seq<nat>, cells: seq<Cell>)
    requires Draws(data, table, s, start, picks, ends, cells) && cells != []
    ensures Draws(data, table, s, ends[0], picks[1..], ends[1..], cells[1..])
    ensures Number(s, start, ends[0], picks[0]) && !Missing(data, table, picks[0])
    ensures cells[0] == Drawn(data, table, picks[0])
    ensures StartOf(ends[0], ends[1..], |ends| - 1) == StartOf(start, ends, |ends|)
  {
    hide Number, Missing, Drawn;
    assert StartOf(start, ends, 0) == start;
    forall i | 0 <= i < |cells| - 1
      ensures Number(s, StartOf(ends[0], ends[1..], i), ends[1..][i], picks[1..][i])
    {
      assert StartOf(ends[0], ends[1..], i) == StartOf(start, ends, i + 1);
      assert Number(s, StartOf(start, ends, i + 1), ends[i + 1], picks[i + 1]);
    }
  }

  /** The cells come to an end here, or to one that is missing. */
  ghost predicate StopsAt(data: bytes, table: seq<Range>, s: bytes, end: nat, panics: bool) {
    if panics then exists next, pick :: Number(s, end, next, pick) && Missing(data, table, pick) else NoNumber(s, end)
  }

  lemma {:induction false} CellsParse(data: bytes, table: seq<Range>, s: bytes, start: nat)
    returns (picks: seq<nat>, ends: seq<nat>, cells: seq<Cell>)
    ensures var r := CellsFrom(data, table, s, start);
            !r.IntegerError? && (r.Ok? ==> r.value == cells)
            && Draws(data, table, s, start, picks, ends, cells)
            && StopsAt(data, table, s, StartOf(start, ends, |ends|), r.Panic?)
    decreases if start <= |s| then |s| - start else 0
  {
    hide Number, ReadFrom, Draws, NoNumber;
    picks, ends, cells := [], [], [];
    NoDraws(data, table, s, start);
    ReadOrNot(s, start);
    var next := NextCell(data, table, s, start);
    if next.Yield? {
      var read := ReadFrom(s, start, 0).value;
      var p, e, c := CellsParse(data, table, s, next.position);
      DrawsCons(data, table, s, start, read.value, read.position, p, e, c);
      picks, ends, cells := [read.value] + p, [read.position] + e, [next.cell] + c;
    } else if next.Fault? {
      var read := ReadFrom(s, start, 0).value;
      assert Number(s, start, read.position, read.value) && Missing(data, table, read.value);
    }
  }

  lemma {:induction false} NoDraws(data: bytes, table: seq<Range>, s: bytes, start: nat)
    ensures Draws(data, table, s, start, [], [], [])
  {
  }

  lemma {:induction false} DrawsRead(data: bytes, table: seq<Range>, s: bytes, start: nat, picks: seq<nat>,
          ends: seq<nat>, cells: seq<Cell>, panics: bool)
    requires Draws(data, table, s, start, picks, ends, cells)
    requires StopsAt(data, table, s, StartOf(start, ends, |ends|), panics)
    ensures CellsFrom(data, table, s, start) == if panics then Panic else Ok(cells)
    decreases |cells|
  {
    hide Number, ReadFrom, NoNumber, Draws;
    ReadOrNot(s, start);
    if cells == [] {
      DrawsLength(data, table, s, start, picks, ends, cells);
    } else {
      DrawsLength(data, table, s, start, picks, ends, cells);
      DrawsRest(data, table, s, start, picks, ends, cells);
      DrawsRead(data, table, s, ends[0], picks[1..], ends[1..], cells[1..], panics);
      assert cells == [cells[0]] + cells[1..];
    }
  }

  lemma {:induction false} DrawsLength(data: bytes, table: seq<Range>, s: bytes, start: nat, picks: seq<nat>,
          ends: seq<nat>, cells: seq<Cell>)
    requires Draws(data, table, s, start, picks, ends, cells)
    ensures |picks| == |ends| == |cells|
  {
    hide Number, Missing;
  }

  /** Where the sections of a buffer lie, and how the last two of them come apart. */
  datatype Parse = Parse(dataAt: nat, dataEnd: nat, rangesAt: nat, rangesEnd: nat, table: seq<Range>,
    middles: seq<nat>, ends: seq<nat>, picks: seq<nat>, stops: seq<nat>)

  ghost predicate HasData(buffer: bytes, p: Parse) {
    p.dataAt <= p.dataEnd <= |buffer| && Number(buffer, 0, p.dataAt, p.dataEnd - p.dataAt)
  }

  ghost predicate HasRanges(buffer: bytes, p: Parse) {
    && HasData(buffer, p) && p.rangesAt <= p.rangesEnd <= |buffer|
    && Number(buffer, p.dataEnd, p.rangesAt, p.rangesEnd - p.rangesAt)
  }

  ghost predicate HasTable(buffer: bytes, p: Parse) {
    HasRanges(buffer, p) && Pairs(buffer[p.rangesAt..p.rangesEnd], 0, p.table, p.middles, p.ends)
  }

  /** The buffer is this long data section, this table, and these cells, after which no index follows or a missing one
      does. */
  ghost predicate Parses(buffer: bytes, p: Parse, cells: seq<Cell>, panics: bool) {
    && HasTable(buffer, p) && |p.stops| == |cells|
    && var data := buffer[p.dataAt..p.dataEnd];
       && Draws(data, p.table, buffer, p.rangesEnd, p.picks, p.stops, cells)
       && StopsAt(data, p.table, buffer, StartOf(p.rangesEnd, p.stops, |p.stops|), panics)
  }

  /** A length that is there and reaches beyond the buffer. */
  ghost predicate Overruns(buffer: bytes, start: nat) {
    exists at: nat, length: nat :: Number(buffer, start, at, length) && at + length > |buffer|
  }

  lemma {:induction false} DataRead(buffer: bytes, p: Parse)
    requires HasData(buffer, p)
    ensures Decoded(buffer) == DecodedAfter(buffer, p.dataEnd, buffer[p.dataAt..p.dataEnd])
  {
    hide Number, ReadFrom, DecodedAfter;
    ReadOrNot(buffer, 0);
  }

  lemma {:induction false} RangesRead(buffer: bytes, p: Parse)
    requires HasRanges(buffer, p)
    ensures Decoded(buffer) ==
              match ReadRanges(buffer[p.rangesAt..p.rangesEnd], 0)
              case Ok(table) => CellsFrom(buffer[p.dataAt..p.dataEnd], table, buffer, p.rangesEnd)
              case IntegerError => IntegerError
              case Panic => Panic
  {
    hide Number, ReadFrom, ReadRanges, CellsFrom;
    DataRead(buffer, p);
    ReadOrNot(buffer, p.dataEnd);
  }

  /** What a buffer parses as is what it decodes to. */
  lemma {:induction false} ParseDecodes(buffer: bytes, p: Parse, cells: seq<Cell>, panics: bool)
    requires Parses(buffer, p, cells, panics)
    ensures Decoded(buffer) == if panics then Panic else Ok(cells)
  {
    hide Number, Pairs, Draws, StopsAt, Decoded;
    RangesRead(buffer, p);
    PairsRead(buffer[p.rangesAt..p.rangesEnd], 0, p.table, p.middles, p.ends);
    DrawsRead(buffer[p.dataAt..p.dataEnd], p.table, buffer, p.rangesEnd, p.picks, p.stops, cells, panics);
  }

  /** No number where a length or an entry of the table should be. */
  ghost predicate Unnumbered(buffer: bytes, p: Parse) {
    || NoNumber(buffer, 0)
    || (HasData(buffer, p) && NoNumber(buffer, p.dataEnd))
    || (HasRanges(buffer, p) &&
        forall table, middles, ends :: !Pairs(buffer[p.rangesAt..p.rangesEnd], 0, table, middles, ends))
  }

  /** A section or a cell that reaches out of bounds. */
  ghost predicate OutOfBounds(buffer: bytes, p: Parse, cells: seq<Cell>) {
    || Overruns(buffer, 0)
    || (HasData(buffer, p) && Overruns(buffer, p.dataEnd))
    || Parses(buffer, p, cells, true)
  }

  lemma {:induction false} UnnumberedFails(buffer: bytes, p: Parse)
    requires Unnumbered(buffer, p)
    ensures Decoded(buffer) == IntegerError
  {
    hide Number, Pairs, ReadFrom, ReadRanges, CellsFrom, HasRanges;
    ReadOrNot(buffer, 0);
    if HasData(buffer, p) && NoNumber(buffer, p.dataEnd) {
      DataRead(buffer, p);
      ReadOrNot(buffer, p.dataEnd);
    } else if HasRanges(buffer, p) {
      RangesRead(buffer, p);
      RangesIn(buffer, p);
      var middles, ends := RangesParse(buffer[p.rangesAt..p.rangesEnd], 0);
    }
  }

  lemma {:induction false} RangesIn(buffer: bytes, p: Parse)
    requires HasRanges(buffer, p)
    ensures p.rangesAt <= p.rangesEnd <= |buffer|
  {
    hide Number;
  }

  lemma {:induction false} OutOfBoundsPanics(buffer: bytes, p: Parse, cells: seq<Cell>)
    requires OutOfBounds(buffer, p, cells)
    ensures Decoded(buffer) == Panic
  {
    hide Number, ReadFrom, Parses;
    ReadOrNot(buffer, 0);
    if HasData(buffer, p) && Overruns(buffer, p.dataEnd) {
      DataRead(buffer, p);
      ReadOrNot(buffer, p.dataEnd);
    } else if Parses(buffer, p, cells, true) {
      ParseDecodes(buffer, p, cells, true);
    }
  }

  /** Every buffer parses in one of the three ways. */
  lemma {:induction false} BufferParses(buffer: bytes) returns (p: Parse, cells: seq<Cell>)
    ensures Parses(buffer, p, cells, false) || Unnumbered(buffer, p) || OutOfBounds(buffer, p, cells)
  {
    hide Number, ReadFrom, Pairs, Draws, StopsAt, ReadRanges, CellsFrom;
    p, cells := Parse(0, 0, 0, 0, [], [], [], [], []), [];
    ReadOrNot(buffer, 0);
    var data := ReadFrom(buffer, 0, 0);
    if data.Some? && data.value.position + data.value.value <= |buffer| {
      p := p.(dataAt := data.value.position, dataEnd := data.value.position + data.value.value);
      assert HasData(buffer, p);
      ReadOrNot(buffer, p.dataEnd);
      var ranges := ReadFrom(buffer, p.dataEnd, 0);
      if ranges.Some? && ranges.value.position + ranges.value.value <= |buffer| {
        p := p.(rangesAt := ranges.value.position, rangesEnd := ranges.value.position + ranges.value.value);
        p, cells := SectionsParse(buffer, p);
      } else if ranges.Some? {
        assert Number(buffer, p.dataEnd, ranges.value.position, ranges.value.value);
        assert Overruns(buffer, p.dataEnd);
      }
    } else if data.Some? {
      assert Number(buffer, 0, data.value.position, data.value.value);
      assert Overruns(buffer, 0);
    }
  }

  lemma {:induction false} SectionsParse(buffer: bytes, q: Parse) returns (p: Parse, cells: seq<Cell>)
    requires HasRanges(buffer, q)
    ensures Parses(buffer, p, cells, false) || Unnumbered(buffer, p) || Parses(buffer, p, cells, true)
  {
    hide Number, Pairs, Draws, StopsAt, ReadRanges, CellsFrom, Decoded;
    p, cells := q, [];
    var section, data := buffer[q.rangesAt..q.rangesEnd], buffer[q.dataAt..q.dataEnd];
    var middles, ends := RangesParse(section, 0);
    var table := ReadRanges(section, 0);
    if table.Ok? {
      var picks, stops, drawn := CellsParse(data, table.value, buffer, q.rangesEnd);
      DrawsLength(data, table.value, buffer, q.rangesEnd, picks, stops, drawn);
      cells := drawn;
      p := q.(table := table.value, middles := middles, ends := ends, picks := picks, stops := stops);
      assert Parses(buffer, p, cells, CellsFrom(data, table.value, buffer, q.rangesEnd).Panic?);
    } else {
      forall t, m, e ensures !Pairs(section, 0, t, m, e) {
        if Pairs(section, 0, t, m, e) {
          PairsRead(section, 0, t, m, e);
        }
      }
    }
  }

  /** A buffer decodes to cells exactly when it parses as them; it fails with an integer error exactly when a number is
      missing where a section needs one, and panics exactly when a section or a cell reaches out of bounds. */
  lemma {:induction false} DecodeIsParse(buffer: bytes, cells: seq<Cell>)
    ensures Decoded(buffer) == Ok(cells) <==> exists p :: Parses(buffer, p, cells, false)
    ensures Decoded(buffer) == IntegerError <==> exists p :: Unnumbered(buffer, p)
    ensures Decoded(buffer) == Panic <==> exists p, c :: OutOfBounds(buffer, p, c)
  {
    hide Parses, Unnumbered, OutOfBounds, Decoded;
    var q, found := BufferParses(buffer);
    if Parses(buffer, q, found, false) {
      ParseDecodes(buffer, q, found, false);
    }
    if Unnumbered(buffer, q) {
      UnnumberedFails(buffer, q);
    }
    if OutOfBounds(buffer, q, found) {
      OutOfBoundsPanics(buffer, q, found);
    }
    forall p | Parses(buffer, p, cells, false) ensures Decoded(buffer) == Ok(cells) {
      ParseDecodes(buffer, p, cells, false);
    }
    forall p | Unnumbered(buffer, p) ensures Decoded(buffer) == IntegerError {
      UnnumberedFails(buffer, p);
    }
    forall p, c | OutOfBounds(buffer, p, c) ensures Decoded(buffer) == Panic {
      OutOfBoundsPanics(buffer, p, c);
    }
  }
}
