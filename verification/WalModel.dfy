/**
 * The write-ahead log as bytes: packed structs written over whatever the memory held, records of
 * fixed size in a file, and a reader that takes whole records until the file ends.
 */
module WalModel {
  import opened Bytes
  import opened ExchangeTypes

  // ---------------------------------------------------------------- packed structs

  /** The members of a packed struct: an unsigned integer or a fixed character buffer. */
  datatype Shape = Num(width: nat) | Chars(width: nat)

  datatype Value = N(n: nat) | T(s: seq<Byte>)

  function Size(shapes: seq<Shape>): nat {
    if shapes == [] then 0 else shapes[0].width + Size(shapes[1..])
  }

  /** Values that can be members of the struct: the C++ types see to the ranges. */
  predicate Fits(shape: Shape, v: Value) {
    match shape
    case Num(width) => v.N? && v.n < Pow256(width)
    case Chars(width) => v.T? && width > 0
  }

  ghost predicate AllFit(shapes: seq<Shape>, values: seq<Value>) {
    |shapes| == |values| && forall i | 0 <= i < |shapes| :: Fits(shapes[i], values[i])
  }

  lemma FitTail(shapes: seq<Shape>, values: seq<Value>)
    requires AllFit(shapes, values) && shapes != []
    ensures Fits(shapes[0], values[0]) && AllFit(shapes[1..], values[1..])
  {
    forall i | 0 <= i < |shapes| - 1
      ensures Fits(shapes[1..][i], values[1..][i])
    {
      assert Fits(shapes[i + 1], values[i + 1]);
    }
  }

  /** safe_strncpy into a buffer: as much as fits before a terminator, the rest left as it was. */
  function CopyText(s: seq<Byte>, buffer: seq<Byte>): (r: seq<Byte>)
    requires buffer != []
    ensures |r| == |buffer|
  {
    var len := Min(|s|, |buffer| - 1);
    s[..len] + [0] + buffer[len + 1..]
  }

  /** std::string(const char*): everything before the first terminator. */
  function ReadText(buffer: seq<Byte>): seq<Byte> {
    if buffer == [] || buffer[0] == 0 then [] else [buffer[0]] + ReadText(buffer[1..])
  }

  function Stored(v: Value, memory: seq<Byte>): (r: seq<Byte>)
    requires v.T? ==> memory != []
    ensures |r| == |memory|
  {
    match v
    case N(n) => Encode(n, memory)
    case T(s) => CopyText(s, memory)
  }

  function Loaded(shape: Shape, memory: seq<Byte>): Value {
    match shape
    case Num(_) => N(Decode(memory))
    case Chars(_) => T(ReadText(memory))
  }

  /** The struct's members assigned over memory; what lies behind them stays. */
  ghost function Pack(shapes: seq<Shape>, values: seq<Value>, memory: seq<Byte>): (r: seq<Byte>)
    requires AllFit(shapes, values) && Size(shapes) <= |memory|
    ensures |r| == |memory|
  {
    if shapes == [] then memory
    else
      var w := shapes[0].width;
      FitTail(shapes, values);
      Stored(values[0], memory[..w]) + Pack(shapes[1..], values[1..], memory[w..])
  }

  function Unpack(shapes: seq<Shape>, memory: seq<Byte>): (values: seq<Value>)
    requires Size(shapes) <= |memory|
    ensures |values| == |shapes|
    ensures forall i | 0 <= i < |shapes| :: values[i].N? <==> shapes[i].Num?
  {
    if shapes == [] then []
    else
      var w := shapes[0].width;
      [Loaded(shapes[0], memory[..w])] + Unpack(shapes[1..], memory[w..])
  }

  /** What a text is after a trip through a buffer of a given size. */
  function Kept(s: seq<Byte>, width: nat): seq<Byte>
    requires width > 0
  {
    ReadText(s[..Min(|s|, width - 1)])
  }

  function KeptValue(shape: Shape, v: Value): Value
    requires Fits(shape, v)
  {
    match shape
    case Num(_) => v
    case Chars(width) => T(Kept(v.s, width))
  }

  lemma {:induction false} TextStops(s: seq<Byte>, rest: seq<Byte>)
    ensures ReadText(s + [0] + rest) == ReadText(s)
  {
    if s == [] {
      assert s + [0] + rest == [0] + rest;
    } else if s[0] != 0 {
      assert (s + [0] + rest)[1..] == s[1..] + [0] + rest;
      TextStops(s[1..], rest);
    }
  }

  lemma LoadStored(shape: Shape, v: Value, memory: seq<Byte>)
    requires Fits(shape, v) && |memory| == shape.width
    ensures Loaded(shape, Stored(v, memory)) == KeptValue(shape, v)
  {
    match shape
    case Num(width) =>
      DecodeEncode(v.n, memory);
      RemainderIsUnique(v.n, Pow256(width), 0, v.n);
    case Chars(width) =>
      var len := Min(|v.s|, width - 1);
      TextStops(v.s[..len], memory[len + 1..]);
  }

  /** Every integer is the one written, and every text as its buffer kept it. */
  ghost predicate AllKept(shapes: seq<Shape>, values: seq<Value>, r: seq<Value>) {
    |shapes| == |values| == |r|
    && forall i | 0 <= i < |shapes| :: Fits(shapes[i], values[i]) && r[i] == KeptValue(shapes[i], values[i])
  }

  lemma KeptOnward(shapes: seq<Shape>, values: seq<Value>, first: Value, r: seq<Value>)
    requires shapes != [] && values != [] && Fits(shapes[0], values[0]) && first == KeptValue(shapes[0], values[0])
    requires AllKept(shapes[1..], values[1..], r)
    ensures AllKept(shapes, values, [first] + r)
  {
    forall i | 0 <= i < |shapes|
      ensures Fits(shapes[i], values[i]) && ([first] + r)[i] == KeptValue(shapes[i], values[i])
    {
      if i > 0 {
        assert Fits(shapes[1..][i - 1], values[1..][i - 1]);
      }
    }
  }

  /** Reading a packed struct gives back what was written, whatever the memory held before. */
  lemma {:induction false} UnpackPack(shapes: seq<Shape>, values: seq<Value>, memory: seq<Byte>)
    requires AllFit(shapes, values) && Size(shapes) <= |memory|
    ensures AllKept(shapes, values, Unpack(shapes, Pack(shapes, values, memory)))
  {
    if shapes != [] {
      var w := shapes[0].width;
      FitTail(shapes, values);
      var first := Stored(values[0], memory[..w]);
      LoadStored(shapes[0], values[0], memory[..w]);
      var tail := Pack(shapes[1..], values[1..], memory[w..]);
      UnpackPack(shapes[1..], values[1..], memory[w..]);
      assert (first + tail)[..w] == first && (first + tail)[w..] == tail;
      KeptOnward(shapes, values, Loaded(shapes[0], first), Unpack(shapes[1..], tail));
    }
  }

  /** A symbol survives its buffer exactly if it fits with its terminator and contains none. */
  lemma KeptIff(s: seq<Byte>, width: nat)
    requires width > 0
    ensures Kept(s, width) == s <==> |s| < width && 0 !in s
  {
    TextIsPrefix(s[..Min(|s|, width - 1)]);
  }

  lemma {:induction false} TextIsPrefix(s: seq<Byte>)
    ensures |ReadText(s)| <= |s|
    ensures ReadText(s) == s <==> 0 !in s
  {
    if s != [] {
      TextIsPrefix(s[1..]);
      assert s == [s[0]] + s[1..];
    }
  }

  // ---------------------------------------------------------------- records

  datatype LogEntry =
    | OrderEntry(order: Order)
    | CancelEntry(orderId: nat, symbol: Symbol, timestamp: nat)
    | ModifyEntry(request: ModifyRequest)
    | FillEntry(fill: Fill, timestamp: nat)

  const RECORD_SIZE: int := 53

  const ORDER: seq<Shape> := [Num(1), Num(8), Chars(8), Num(1), Num(1), Num(8), Num(4), Num(8)]
  const CANCEL: seq<Shape> := [Num(1), Num(8), Chars(8), Num(8)]
  const MODIFY: seq<Shape> := [Num(1), Num(8), Chars(8), Num(8), Num(4), Num(8)]
  const FILL: seq<Shape> := [Num(1), Num(8), Num(8), Num(8), Chars(8), Num(8), Num(4), Num(8)]

  function ShapesOf(e: LogEntry): seq<Shape> {
    match e
    case OrderEntry(_) => ORDER
    case CancelEntry(_, _, _) => CANCEL
    case ModifyEntry(_) => MODIFY
    case FillEntry(_, _) => FILL
  }

  function SideByte(s: Side): nat { if s.Buy? then 0 else 1 }

  function KindByte(k: OrderType): nat { if k.Limit? then 0 else 1 }

  function ValuesOf(e: LogEntry): seq<Value> {
    match e
    case OrderEntry(o) =>
      [N(1), N(o.orderId), T(o.symbol), N(SideByte(o.side)), N(KindByte(o.kind)), N(o.price), N(o.quantity),
       N(o.timestamp)]
    case CancelEntry(id, symbol, timestamp) => [N(2), N(id), T(symbol), N(timestamp)]
    case ModifyEntry(r) => [N(3), N(r.orderId), T(r.symbol), N(r.price), N(r.quantity), N(r.timestamp)]
    case FillEntry(f, timestamp) =>
      [N(4), N(f.tradeId), N(f.buyOrderId), N(f.sellOrderId), T(f.symbol), N(f.price), N(f.quantity), N(timestamp)]
  }

  /** The integers are in the ranges of their C++ types. */
  ghost predicate InRange(e: LogEntry) {
    AllFit(ShapesOf(e), ValuesOf(e))
  }

  lemma RecordHolds(e: LogEntry)
    ensures Size(ShapesOf(e)) <= RECORD_SIZE
  {
  }

  /** An entry written over a record's worth of memory. */
  ghost function Record(e: LogEntry, memory: seq<Byte>): (r: seq<Byte>)
    requires InRange(e) && |memory| == RECORD_SIZE
    ensures |r| == RECORD_SIZE
  {
    RecordHolds(e);
    Pack(ShapesOf(e), ValuesOf(e), memory)
  }

  function SideFrom(n: nat): Side { if n == 0 then Buy else Sell }

  function KindFrom(n: nat): OrderType { if n == 0 then Limit else Market }

  /** What the replay engine makes of a record; fills, and anything unknown, it passes over. */
  function ReadRecord(r: seq<Byte>): Option<LogEntry>
    requires |r| == RECORD_SIZE
  {
    var kind := Decode(r[..1]);
    if kind == 1 then
      var v := Unpack(ORDER, r);
      Some(OrderEntry(Order(v[1].n, v[2].s, SideFrom(v[3].n), KindFrom(v[4].n), v[5].n, v[6].n, v[6].n, v[7].n, 0)))
    else if kind == 2 then
      var v := Unpack(CANCEL, r);
      Some(CancelEntry(v[1].n, v[2].s, v[3].n))
    else if kind == 3 then
      var v := Unpack(MODIFY, r);
      Some(ModifyEntry(ModifyRequest(v[1].n, v[2].s, v[3].n, v[4].n, v[5].n)))
    else None
  }

  /** What an entry is after a trip through the log. */
  function AsRead(e: LogEntry): Option<LogEntry> {
    match e
    case OrderEntry(o) => Some(OrderEntry(o.(symbol := Kept(o.symbol, 8), remaining := o.quantity, clientId := 0)))
    case CancelEntry(id, symbol, timestamp) => Some(CancelEntry(id, Kept(symbol, 8), timestamp))
    case ModifyEntry(r) => Some(ModifyEntry(r.(symbol := Kept(r.symbol, 8))))
    case FillEntry(_, _) => None
  }

  lemma RecordKind(e: LogEntry, memory: seq<Byte>)
    requires InRange(e) && |memory| == RECORD_SIZE
    ensures Decode(Record(e, memory)[..1]) == ValuesOf(e)[0].n
  {
    RecordHolds(e);
    UnpackPack(ShapesOf(e), ValuesOf(e), memory);
    assert Unpack(ShapesOf(e), Record(e, memory))[0] == Loaded(Num(1), Record(e, memory)[..1]);
  }

  lemma MembersKept(e: LogEntry, memory: seq<Byte>)
    requires InRange(e) && |memory| == RECORD_SIZE
    ensures Size(ShapesOf(e)) <= RECORD_SIZE
    ensures AllKept(ShapesOf(e), ValuesOf(e), Unpack(ShapesOf(e), Record(e, memory)))
  {
    RecordHolds(e);
    UnpackPack(ShapesOf(e), ValuesOf(e), memory);
  }

  lemma OrderRoundTrip(o: Order, memory: seq<Byte>)
    requires InRange(OrderEntry(o)) && |memory| == RECORD_SIZE
    ensures ReadRecord(Record(OrderEntry(o), memory)) == AsRead(OrderEntry(o))
  {
    RecordKind(OrderEntry(o), memory);
    MembersKept(OrderEntry(o), memory);
  }

  lemma ModifyRoundTrip(m: ModifyRequest, memory: seq<Byte>)
    requires InRange(ModifyEntry(m)) && |memory| == RECORD_SIZE
    ensures ReadRecord(Record(ModifyEntry(m), memory)) == AsRead(ModifyEntry(m))
  {
    RecordKind(ModifyEntry(m), memory);
    MembersKept(ModifyEntry(m), memory);
  }

  lemma CancelRoundTrip(id: nat, symbol: Symbol, timestamp: nat, memory: seq<Byte>)
    requires InRange(CancelEntry(id, symbol, timestamp)) && |memory| == RECORD_SIZE
    ensures ReadRecord(Record(CancelEntry(id, symbol, timestamp), memory)) == AsRead(CancelEntry(id, symbol, timestamp))
  {
    RecordKind(CancelEntry(id, symbol, timestamp), memory);
    MembersKept(CancelEntry(id, symbol, timestamp), memory);
  }

  /** A record read back is the entry written, but for a symbol that did not fit its buffer, the
      remaining quantity, which is reset to the full one, and the client, which is not recorded. */
  lemma RecordRoundTrip(e: LogEntry, memory: seq<Byte>)
    requires InRange(e) && |memory| == RECORD_SIZE
    ensures ReadRecord(Record(e, memory)) == AsRead(e)
  {
    match e
    case OrderEntry(o) => OrderRoundTrip(o, memory);
    case CancelEntry(id, symbol, timestamp) => CancelRoundTrip(id, symbol, timestamp, memory);
    case ModifyEntry(r) => ModifyRoundTrip(r, memory);
    case FillEntry(_, _) => RecordKind(e, memory);
  }

  // ---------------------------------------------------------------- the layout

  /** Where a member of a packed struct begins. */
  function Offset(shapes: seq<Shape>, i: nat): nat
    requires i < |shapes|
  {
    if i == 0 then 0 else shapes[0].width + Offset(shapes[1..], i - 1)
  }

  lemma {:induction false} OffsetInside(shapes: seq<Shape>, i: nat)
    requires i < |shapes|
    ensures Offset(shapes, i) + shapes[i].width <= Size(shapes)
  {
    if i > 0 {
      OffsetInside(shapes[1..], i - 1);
    }
  }

  /** Each member begins where the one before it ends. */
  lemma {:induction false} OffsetNext(shapes: seq<Shape>, i: nat)
    requires i + 1 < |shapes|
    ensures Offset(shapes, i + 1) == Offset(shapes, i) + shapes[i].width
  {
    if i > 0 {
      OffsetNext(shapes[1..], i - 1);
    }
  }

  /** The bytes of a section of memory. */
  function At(memory: seq<Byte>, from: nat, width: nat): seq<Byte>
    requires from + width <= |memory|
  {
    memory[from..from + width]
  }

  lemma BehindFirst(first: seq<Byte>, tail: seq<Byte>, from: nat, width: nat)
    requires from + width <= |tail|
    ensures At(first + tail, |first| + from, width) == At(tail, from, width)
  {
  }

  lemma StoredBehind(first: seq<Byte>, tail: seq<Byte>, memory: seq<Byte>, from: nat, width: nat, v: Value)
    requires |first| + |tail| == |memory| && from + width <= |tail| && (v.T? ==> width > 0)
    requires At(tail, from, width) == Stored(v, At(memory[|first|..], from, width))
    ensures At(first + tail, |first| + from, width) == Stored(v, At(memory, |first| + from, width))
  {
    BehindFirst(first, tail, from, width);
    BehindFirst(memory[..|first|], memory[|first|..], from, width);
    assert memory[..|first|] + memory[|first|..] == memory;
  }

  /** A member is stored at its offset. */
  lemma {:induction false} MemberIsAt(shapes: seq<Shape>, values: seq<Value>, memory: seq<Byte>, i: nat)
    requires AllFit(shapes, values) && Size(shapes) <= |memory| && i < |shapes|
    ensures Offset(shapes, i) + shapes[i].width <= |memory| && Fits(shapes[i], values[i])
    ensures At(Pack(shapes, values, memory), Offset(shapes, i), shapes[i].width)
         == Stored(values[i], At(memory, Offset(shapes, i), shapes[i].width))
  {
    OffsetInside(shapes, i);
    var w, first, tail := PackUnfolds(shapes, values, memory);
    if i == 0 {
      FrontOf(first, tail);
    } else {
      var shapes', values' := shapes[1..], values[1..];
      MemberIsAt(shapes', values', memory[w..], i - 1);
      StoredBehind(first, tail, memory, Offset(shapes', i - 1), shapes'[i - 1].width, values'[i - 1]);
    }
  }

  lemma PackUnfolds(shapes: seq<Shape>, values: seq<Value>, memory: seq<Byte>)
    returns (w: nat, first: seq<Byte>, tail: seq<Byte>)
    requires AllFit(shapes, values) && shapes != [] && Size(shapes) <= |memory|
    ensures w == shapes[0].width <= |memory| && Fits(shapes[0], values[0]) && AllFit(shapes[1..], values[1..])
    ensures Size(shapes[1..]) <= |memory| - w
    ensures first == Stored(values[0], At(memory, 0, w)) && |first| == w
    ensures tail == Pack(shapes[1..], values[1..], memory[w..])
    ensures Pack(shapes, values, memory) == first + tail
  {
    FitTail(shapes, values);
    w := shapes[0].width;
    first, tail := Stored(values[0], memory[..w]), Pack(shapes[1..], values[1..], memory[w..]);
  }

  predicate NumberAt(r: seq<Byte>, from: nat, width: nat, n: nat) {
    from + width <= |r| && Decode(At(r, from, width)) == n
  }

  predicate TextAt(r: seq<Byte>, from: nat, width: nat, s: seq<Byte>) {
    from + width <= |r| && width > 0 && ReadText(At(r, from, width)) == Kept(s, width)
  }

  predicate MemberAt(r: seq<Byte>, from: nat, width: nat, v: Value) {
    match v
    case N(n) => NumberAt(r, from, width, n)
    case T(s) => TextAt(r, from, width, s)
  }

  ghost predicate HasMember(r: seq<Byte>, shapes: seq<Shape>, values: seq<Value>, i: nat)
    requires i < |shapes| == |values|
  {
    MemberAt(r, Offset(shapes, i), shapes[i].width, values[i])
  }

  ghost predicate AllAt(r: seq<Byte>, shapes: seq<Shape>, values: seq<Value>) {
    |shapes| == |values| && forall i: nat | i < |shapes| :: HasMember(r, shapes, values, i)
  }

  lemma MembersAt(e: LogEntry, memory: seq<Byte>)
    requires InRange(e) && |memory| == RECORD_SIZE
    ensures AllAt(Record(e, memory), ShapesOf(e), ValuesOf(e))
  {
    RecordHolds(e);
    var shapes, values := ShapesOf(e), ValuesOf(e);
    forall i: nat | i < |shapes|
      ensures HasMember(Record(e, memory), shapes, values, i)
    {
      MemberIsAt(shapes, values, memory, i);
      LoadStored(shapes[i], values[i], At(memory, Offset(shapes, i), shapes[i].width));
    }
  }

  lemma OrderOffsets()
    ensures
      && Offset(ORDER, 0) == 0 && Offset(ORDER, 1) == 1 && Offset(ORDER, 2) == 9 && Offset(ORDER, 3) == 17
      && Offset(ORDER, 4) == 18 && Offset(ORDER, 5) == 19 && Offset(ORDER, 6) == 27 && Offset(ORDER, 7) == 31
  {
    OffsetNext(ORDER, 0);
    OffsetNext(ORDER, 1);
    OffsetNext(ORDER, 2);
    OffsetNext(ORDER, 3);
    OffsetNext(ORDER, 4);
    OffsetNext(ORDER, 5);
    OffsetNext(ORDER, 6);
  }

  /** A submission's record, byte by byte; the next three are of the other kinds. */
  lemma OrderLayout(o: Order, memory: seq<Byte>)
    requires InRange(OrderEntry(o)) && |memory| == RECORD_SIZE
    ensures var r := Record(OrderEntry(o), memory);
      && NumberAt(r, 0, 1, 1) && NumberAt(r, 1, 8, o.orderId) && TextAt(r, 9, 8, o.symbol)
      && NumberAt(r, 17, 1, match o.side case Buy => 0 case Sell => 1)
      && NumberAt(r, 18, 1, match o.kind case Limit => 0 case Market => 1)
      && NumberAt(r, 19, 8, o.price) && NumberAt(r, 27, 4, o.quantity) && NumberAt(r, 31, 8, o.timestamp)
  {
    MembersAt(OrderEntry(o), memory);
    OrderMembers(Record(OrderEntry(o), memory), o);
  }

  lemma OrderMembers(r: seq<Byte>, o: Order)
    requires AllAt(r, ORDER, ValuesOf(OrderEntry(o)))
    ensures
      && NumberAt(r, 0, 1, 1) && NumberAt(r, 1, 8, o.orderId) && TextAt(r, 9, 8, o.symbol)
      && NumberAt(r, 17, 1, match o.side case Buy => 0 case Sell => 1)
      && NumberAt(r, 18, 1, match o.kind case Limit => 0 case Market => 1)
      && NumberAt(r, 19, 8, o.price) && NumberAt(r, 27, 4, o.quantity) && NumberAt(r, 31, 8, o.timestamp)
  {
    var values := ValuesOf(OrderEntry(o));
    OrderOffsets();
    assert HasMember(r, ORDER, values, 0) && HasMember(r, ORDER, values, 1);
    assert HasMember(r, ORDER, values, 2) && HasMember(r, ORDER, values, 3);
    assert HasMember(r, ORDER, values, 4) && HasMember(r, ORDER, values, 5);
    assert HasMember(r, ORDER, values, 6) && HasMember(r, ORDER, values, 7);
  }

  lemma CancelOffsets()
    ensures
      && Offset(CANCEL, 0) == 0 && Offset(CANCEL, 1) == 1 && Offset(CANCEL, 2) == 9 && Offset(CANCEL, 3) == 17
  {
    OffsetNext(CANCEL, 0);
    OffsetNext(CANCEL, 1);
    OffsetNext(CANCEL, 2);
  }

  lemma CancelLayout(id: nat, symbol: Symbol, timestamp: nat, memory: seq<Byte>)
    requires InRange(CancelEntry(id, symbol, timestamp)) && |memory| == RECORD_SIZE
    ensures var r := Record(CancelEntry(id, symbol, timestamp), memory);
      && NumberAt(r, 0, 1, 2) && NumberAt(r, 1, 8, id) && TextAt(r, 9, 8, symbol) && NumberAt(r, 17, 8, timestamp)
  {
    MembersAt(CancelEntry(id, symbol, timestamp), memory);
    CancelMembers(Record(CancelEntry(id, symbol, timestamp), memory), id, symbol, timestamp);
  }

  lemma CancelMembers(r: seq<Byte>, id: nat, symbol: Symbol, timestamp: nat)
    requires AllAt(r, CANCEL, ValuesOf(CancelEntry(id, symbol, timestamp)))
    ensures
      && NumberAt(r, 0, 1, 2) && NumberAt(r, 1, 8, id) && TextAt(r, 9, 8, symbol) && NumberAt(r, 17, 8, timestamp)
  {
    var values := ValuesOf(CancelEntry(id, symbol, timestamp));
    CancelOffsets();
    assert HasMember(r, CANCEL, values, 0) && HasMember(r, CANCEL, values, 1);
    assert HasMember(r, CANCEL, values, 2) && HasMember(r, CANCEL, values, 3);
  }

  lemma ModifyOffsets()
    ensures
      && Offset(MODIFY, 0) == 0 && Offset(MODIFY, 1) == 1 && Offset(MODIFY, 2) == 9 && Offset(MODIFY, 3) == 17
      && Offset(MODIFY, 4) == 25 && Offset(MODIFY, 5) == 29
  {
    OffsetNext(MODIFY, 0);
    OffsetNext(MODIFY, 1);
    OffsetNext(MODIFY, 2);
    OffsetNext(MODIFY, 3);
    OffsetNext(MODIFY, 4);
  }

  lemma ModifyLayout(m: ModifyRequest, memory: seq<Byte>)
    requires InRange(ModifyEntry(m)) && |memory| == RECORD_SIZE
    ensures var r := Record(ModifyEntry(m), memory);
      && NumberAt(r, 0, 1, 3) && NumberAt(r, 1, 8, m.orderId) && TextAt(r, 9, 8, m.symbol)
      && NumberAt(r, 17, 8, m.price) && NumberAt(r, 25, 4, m.quantity) && NumberAt(r, 29, 8, m.timestamp)
  {
    MembersAt(ModifyEntry(m), memory);
    ModifyMembers(Record(ModifyEntry(m), memory), m);
  }

  lemma ModifyMembers(r: seq<Byte>, m: ModifyRequest)
    requires AllAt(r, MODIFY, ValuesOf(ModifyEntry(m)))
    ensures
      && NumberAt(r, 0, 1, 3) && NumberAt(r, 1, 8, m.orderId) && TextAt(r, 9, 8, m.symbol)
      && NumberAt(r, 17, 8, m.price) && NumberAt(r, 25, 4, m.quantity) && NumberAt(r, 29, 8, m.timestamp)
  {
    var values := ValuesOf(ModifyEntry(m));
    ModifyOffsets();
    assert HasMember(r, MODIFY, values, 0) && HasMember(r, MODIFY, values, 1);
    assert HasMember(r, MODIFY, values, 2) && HasMember(r, MODIFY, values, 3);
    assert HasMember(r, MODIFY, values, 4) && HasMember(r, MODIFY, values, 5);
  }

  lemma FillOffsets()
    ensures
      && Offset(FILL, 0) == 0 && Offset(FILL, 1) == 1 && Offset(FILL, 2) == 9 && Offset(FILL, 3) == 17
      && Offset(FILL, 4) == 25 && Offset(FILL, 5) == 33 && Offset(FILL, 6) == 41 && Offset(FILL, 7) == 45
  {
    OffsetNext(FILL, 0);
    OffsetNext(FILL, 1);
    OffsetNext(FILL, 2);
    OffsetNext(FILL, 3);
    OffsetNext(FILL, 4);
    OffsetNext(FILL, 5);
    OffsetNext(FILL, 6);
  }

  lemma FillLayout(f: Fill, timestamp: nat, memory: seq<Byte>)
    requires InRange(FillEntry(f, timestamp)) && |memory| == RECORD_SIZE
    ensures var r := Record(FillEntry(f, timestamp), memory);
      && NumberAt(r, 0, 1, 4) && NumberAt(r, 1, 8, f.tradeId) && NumberAt(r, 9, 8, f.buyOrderId)
      && NumberAt(r, 17, 8, f.sellOrderId) && TextAt(r, 25, 8, f.symbol)
      && NumberAt(r, 33, 8, f.price) && NumberAt(r, 41, 4, f.quantity) && NumberAt(r, 45, 8, timestamp)
  {
    MembersAt(FillEntry(f, timestamp), memory);
    FillMembers(Record(FillEntry(f, timestamp), memory), f, timestamp);
  }

  lemma FillMembers(r: seq<Byte>, f: Fill, timestamp: nat)
    requires AllAt(r, FILL, ValuesOf(FillEntry(f, timestamp)))
    ensures
      && NumberAt(r, 0, 1, 4) && NumberAt(r, 1, 8, f.tradeId) && NumberAt(r, 9, 8, f.buyOrderId)
      && NumberAt(r, 17, 8, f.sellOrderId) && TextAt(r, 25, 8, f.symbol)
      && NumberAt(r, 33, 8, f.price) && NumberAt(r, 41, 4, f.quantity) && NumberAt(r, 45, 8, timestamp)
  {
    var values := ValuesOf(FillEntry(f, timestamp));
    FillOffsets();
    assert HasMember(r, FILL, values, 0) && HasMember(r, FILL, values, 1);
    assert HasMember(r, FILL, values, 2) && HasMember(r, FILL, values, 3);
    assert HasMember(r, FILL, values, 4) && HasMember(r, FILL, values, 5);
    assert HasMember(r, FILL, values, 6) && HasMember(r, FILL, values, 7);
  }

  // ---------------------------------------------------------------- the file

  function File(records: seq<seq<Byte>>): seq<Byte> {
    if records == [] then [] else records[0] + File(records[1..])
  }

  /** The whole records of a file; an incomplete one at the end is not among them. */
  function Chunks(file: seq<Byte>): (c: seq<seq<Byte>>)
    ensures forall r | r in c :: |r| == RECORD_SIZE
  {
    if |file| < RECORD_SIZE then [] else [file[..RECORD_SIZE]] + Chunks(file[RECORD_SIZE..])
  }

  function ReadEach(records: seq<seq<Byte>>): seq<Option<LogEntry>>
    requires forall r | r in records :: |r| == RECORD_SIZE
  {
    if records == [] then [] else [ReadRecord(records[0])] + ReadEach(records[1..])
  }

  /** Whole records, read until the file has no other. */
  function ReadAll(file: seq<Byte>): seq<Option<LogEntry>> {
    ReadEach(Chunks(file))
  }

  ghost predicate RecordOf(e: LogEntry, record: seq<Byte>) {
    InRange(e) && exists memory :: |memory| == RECORD_SIZE && record == Record(e, memory)
  }

  /** The records hold these entries, over any memory. */
  ghost predicate Records(entries: seq<LogEntry>, records: seq<seq<Byte>>) {
    if entries == [] || records == [] then entries == [] && records == []
    else RecordOf(entries[0], records[0]) && Records(entries[1..], records[1..])
  }

  function AllAsRead(entries: seq<LogEntry>): seq<Option<LogEntry>> {
    if entries == [] then [] else [AsRead(entries[0])] + AllAsRead(entries[1..])
  }

  lemma FirstChunk(record: seq<Byte>, rest: seq<Byte>)
    requires |record| == RECORD_SIZE
    ensures Chunks(record + rest) == [record] + Chunks(rest)
  {
    assert (record + rest)[..RECORD_SIZE] == record && (record + rest)[RECORD_SIZE..] == rest;
  }

  lemma {:induction false} WholeRecordsFirst(records: seq<seq<Byte>>, rest: seq<Byte>)
    requires forall r | r in records :: |r| == RECORD_SIZE
    ensures Chunks(File(records) + rest) == records + Chunks(rest)
  {
    if records == [] {
      assert File(records) + rest == rest;
    } else {
      assert records[0] in records;
      WholeRecordsFirst(records[1..], rest);
      FirstChunk(records[0], File(records[1..]) + rest);
      assert File(records) + rest == records[0] + (File(records[1..]) + rest);
      assert [records[0]] + (records[1..] + Chunks(rest)) == records + Chunks(rest);
    }
  }

  lemma ChunksOfFile(records: seq<seq<Byte>>, torn: seq<Byte>)
    requires (forall r | r in records :: |r| == RECORD_SIZE) && |torn| < RECORD_SIZE
    ensures Chunks(File(records) + torn) == records
  {
    WholeRecordsFirst(records, torn);
    assert Chunks(torn) == [] && records + [] == records;
  }

  lemma FirstRecord(e: LogEntry, record: seq<Byte>)
    requires RecordOf(e, record)
    ensures |record| == RECORD_SIZE && ReadRecord(record) == AsRead(e)
  {
    var memory :| |memory| == RECORD_SIZE && record == Record(e, memory);
    RecordRoundTrip(e, memory);
  }

  lemma {:induction false} ReadEachOf(entries: seq<LogEntry>, records: seq<seq<Byte>>)
    requires Records(entries, records)
    ensures forall r | r in records :: |r| == RECORD_SIZE
    ensures ReadEach(records) == AllAsRead(entries)
  {
    if records != [] {
      FirstRecord(entries[0], records[0]);
      ReadEachOf(entries[1..], records[1..]);
      assert forall r | r in records :: r == records[0] || r in records[1..];
    }
  }

  /** A log read back gives every entry written, in order; a record torn off at the end is ignored. */
  lemma LogRoundTrip(entries: seq<LogEntry>, records: seq<seq<Byte>>, torn: seq<Byte>)
    requires Records(entries, records) && |torn| < RECORD_SIZE
    ensures ReadAll(File(records) + torn) == AllAsRead(entries)
  {
    ReadEachOf(entries, records);
    ChunksOfFile(records, torn);
  }

  // ---------------------------------------------------------------- going on after a crash

  /** Records that follow a torn one, as the reader takes them: each begins with the end of the one
      before, or with the torn one, and lacks as much of its own end. */
  function Shifted(torn: seq<Byte>, records: seq<seq<Byte>>): seq<seq<Byte>>
    requires |torn| < RECORD_SIZE && forall r | r in records :: |r| == RECORD_SIZE
    decreases |records|
  {
    if records == [] then []
    else
      assert records[0] in records;
      var k := RECORD_SIZE - |torn|;
      [torn + records[0][..k]] + Shifted(records[0][k..], records[1..])
  }

  lemma {:induction false} ChunksAfterTorn(torn: seq<Byte>, records: seq<seq<Byte>>)
    requires |torn| < RECORD_SIZE && forall r | r in records :: |r| == RECORD_SIZE
    ensures Chunks(torn + File(records)) == Shifted(torn, records)
    decreases |records|
  {
    if records == [] {
      assert torn + File(records) == torn;
    } else {
      assert records[0] in records;
      var k := RECORD_SIZE - |torn|;
      var begin, end := records[0][..k], records[0][k..];
      ShiftedByTorn(torn, begin, end, File(records[1..]));
      assert records[0] == begin + end;
      ChunksAfterTorn(end, records[1..]);
    }
  }

  lemma ShiftedByTorn(torn: seq<Byte>, begin: seq<Byte>, end: seq<Byte>, more: seq<Byte>)
    requires |torn| + |begin| == RECORD_SIZE
    ensures Chunks(torn + (begin + end + more)) == [torn + begin] + Chunks(end + more)
  {
    Regrouped(torn, begin, end, more);
    FirstChunk(torn + begin, end + more);
  }

  lemma Regrouped(a: seq<Byte>, b: seq<Byte>, c: seq<Byte>, d: seq<Byte>)
    ensures a + (b + c + d) == (a + b) + (c + d)
  {
  }

  ghost predicate SplitsAsWritten(a: seq<seq<Byte>>, torn: seq<Byte>, b: seq<seq<Byte>>) {
    (forall r | r in b :: |r| == RECORD_SIZE) ==> Chunks(File(a) + torn + File(b)) == a + b
  }

  /** The log is opened for appending, so records written after a crash follow the torn one: they
      are read as they were written, whatever they are, if and only if nothing was torn. */
  lemma AppendedIsReadIff(a: seq<seq<Byte>>, torn: seq<Byte>)
    requires (forall r | r in a :: |r| == RECORD_SIZE) && |torn| < RECORD_SIZE
    ensures (forall b :: SplitsAsWritten(a, torn, b)) <==> torn == []
  {
    if torn == [] {
      forall b
        ensures SplitsAsWritten(a, torn, b)
      {
        if forall r | r in b :: |r| == RECORD_SIZE {
          assert File(a) + torn + File(b) == File(a) + File(b);
          WholeRecordsFirst(a, File(b));
          WholeRecordsFirst(b, []);
          assert File(b) + [] == File(b) && b + [] == b;
        }
      }
    } else {
      var other: Byte := if torn[0] == 0 then 1 else 0;
      var r := seq(RECORD_SIZE, i => other);
      var b := [r];
      assert File(a) + torn + File(b) == File(a) + (torn + File(b));
      WholeRecordsFirst(a, torn + File(b));
      ChunksAfterTorn(torn, b);
      var chunks := Chunks(torn + File(b));
      assert chunks[0][0] == torn[0] && r[0] == other;
      assert (a + chunks)[|a|] == chunks[0] && (a + b)[|a|] == r;
      assert !SplitsAsWritten(a, torn, b);
    }
  }
}
