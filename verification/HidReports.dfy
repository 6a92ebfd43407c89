/** HID report descriptors: short items as bytes, and the parser that folds them into reports. */
module HidReports {
  import opened Bytes

  const MAIN: nat := 0
  const GLOBAL: nat := 1
  const LOCAL: nat := 2
  const LONG_ITEM: nat := 0xFE

  datatype Globals = Globals(usagePage: nat, logicalMin: int, logicalMax: int,
                             reportSize: nat, reportCount: nat, reportId: nat)

  datatype Field = Field(reportType: nat, globals: Globals, usages: seq<nat>,
                         usageMin: Option<nat>, usageMax: Option<nat>, flags: nat)

  /** Parser state: global items and their stack, local items, the reports so far and whether IDs are used. */
  datatype Parser = Parser(globals: Globals, stack: seq<Globals>,
                           usages: seq<nat>, usageMin: Option<nat>, usageMax: Option<nat>,
                           reports: map<(nat, nat), seq<Field>>, numbered: bool)

  const START := Parser(Globals(0, 0, 0, 0, 0, 0), [], [], None, None, map[], false)

  // ---- what items mean ----

  function ClearLocals(p: Parser): Parser {
    p.(usages := [], usageMin := None, usageMax := None)
  }

  /** A Main item: one field of the report the current ID names. */
  function AddField(p: Parser, reportType: nat, flags: nat): Parser {
    var key := (reportType, p.globals.reportId);
    var field := Field(reportType, p.globals, p.usages, p.usageMin, p.usageMax, flags);
    ClearLocals(p.(reports := p.reports[key := (if key in p.reports then p.reports[key] else []) + [field]]))
  }

  function Push(p: Parser): Parser {
    p.(stack := p.stack + [p.globals])
  }

  function Pop(p: Parser): Parser {
    if p.stack == [] then p
    else p.(globals := p.stack[|p.stack| - 1], stack := p.stack[..|p.stack| - 1])
  }

  /** Two's complement over n bytes. */
  function SignExtend(v: nat, n: nat): int {
    if n > 0 && 2 * v >= Pow256(n) then v - Pow256(n) else v
  }

  /** A short item by its tag and type (HID 1.11, section 6.2.2.2), with 0, 1, 2 or 4 bytes of data. */
  datatype Item = Item(tag: nat, typ: nat, data: bytes) {
    predicate Valid() {
      tag < 16 && typ < 4 && (|data| <= 2 || |data| == 4)
    }
  }

  function Apply(p: Parser, item: Item): Parser {
    var v := FromLE(item.data);
    if item.typ == MAIN then
      match item.tag
      case 8 => AddField(p, 1, v)
      case 9 => AddField(p, 2, v)
      case 11 => AddField(p, 3, v)
      case 10 => ClearLocals(p)
      case 12 => ClearLocals(p)
      case _ => p
    else if item.typ == GLOBAL then
      match item.tag
      case 0 => p.(globals := p.globals.(usagePage := v))
      case 1 => p.(globals := p.globals.(logicalMin := SignExtend(v, |item.data|)))
      case 2 => p.(globals := p.globals.(logicalMax := SignExtend(v, |item.data|)))
      case 7 => p.(globals := p.globals.(reportSize := v))
      case 8 => p.(globals := p.globals.(reportId := v), numbered := true)
      case 9 => p.(globals := p.globals.(reportCount := v))
      case 10 => Push(p)
      case 11 => Pop(p)
      case _ => p
    else if item.typ == LOCAL then
      match item.tag
      case 0 => p.(usages := p.usages + [v])
      case 1 => p.(usageMin := Some(v))
      case 2 => p.(usageMax := Some(v))
      case _ => p
    else
      p
  }

  function ApplyAll(p: Parser, items: seq<Item>): Parser
    decreases |items|
  {
    if items == [] then p else ApplyAll(Apply(p, items[0]), items[1..])
  }

  // ---- bytes ----

  function Prefix(item: Item): (b: byte)
    requires item.Valid()
  {
    16 * item.tag + 4 * item.typ + if |item.data| == 4 then 3 else |item.data|
  }

  function Ri(item: Item): (b: bytes)
    requires item.Valid()
    ensures |b| == 1 + |item.data|
  {
    [Prefix(item)] + item.data
  }

  function Emit(items: seq<Item>): bytes
    requires forall i :: 0 <= i < |items| ==> items[i].Valid()
  {
    if items == [] then [] else Ri(items[0]) + Emit(items[1..])
  }

  function DataSize(prefix: nat): nat {
    if prefix % 4 == 3 then 4 else prefix % 4
  }

  /** One item as the parser takes it: by its prefix with the size bits masked off. */
  function Interpret(p: Parser, tag: nat, size: nat, val: nat): Parser {
    match tag
    case 0x80 => AddField(p, 1, val)
    case 0x90 => AddField(p, 2, val)
    case 0xB0 => AddField(p, 3, val)
    case 0xA0 => ClearLocals(p)
    case 0xC0 => ClearLocals(p)
    case 0x04 => p.(globals := p.globals.(usagePage := val))
    case 0x14 => p.(globals := p.globals.(logicalMin := SignExtend(val, size)))
    case 0x24 => p.(globals := p.globals.(logicalMax := SignExtend(val, size)))
    case 0x74 => p.(globals := p.globals.(reportSize := val))
    case 0x94 => p.(globals := p.globals.(reportCount := val))
    case 0x84 => p.(globals := p.globals.(reportId := val), numbered := true)
    case 0xA4 => Push(p)
    case 0xB4 => Pop(p)
    case 0x08 => p.(usages := p.usages + [val])
    case 0x18 => p.(usageMin := Some(val))
    case 0x28 => p.(usageMax := Some(val))
    case _ => p
  }

  function Second(b: bytes): (n: nat) {
    if |b| > 1 then b[1] else 0
  }

  /** How far one item takes the parser, and where it leaves the state. */
  function ItemLength(b: bytes): (n: nat)
    requires b != []
    ensures n > 0
  {
    if b[0] == LONG_ITEM then 3 + Second(b) else 1 + DataSize(b[0])
  }

  function ParseItem(b: bytes, p: Parser): Parser
    requires b != []
  {
    if b[0] == LONG_ITEM then p
    else Interpret(p, b[0] - b[0] % 4, DataSize(b[0]), FromLE(Slice(b, 1, 1 + DataSize(b[0]))))
  }

  /** Parse what is left; a long item is skipped, and data cut off by the end counts as far as it goes. */
  function Parse(b: bytes, p: Parser): Parser
    decreases |b|
  {
    if b == [] then p else Parse(Drop(b, ItemLength(b)), ParseItem(b, p))
  }

  /** The tags and types of the specification are the parser's masked prefixes. */
  lemma InterpretIsApply(p: Parser, item: Item)
    requires item.Valid()
    ensures Prefix(item) - Prefix(item) % 4 == 16 * item.tag + 4 * item.typ
    ensures DataSize(Prefix(item)) == |item.data|
    ensures Interpret(p, 16 * item.tag + 4 * item.typ, |item.data|, FromLE(item.data)) == Apply(p, item)
  {
    hide AddField, ClearLocals, Push, Pop, SignExtend, FromLE;
  }

  lemma ParseOne(p: Parser, item: Item, tail: bytes)
    requires item.Valid() && Prefix(item) != LONG_ITEM
    ensures Parse(Ri(item) + tail, p) == Parse(tail, Apply(p, item))
  {
    hide Interpret, Apply, FromLE;
    var b := Ri(item) + tail;
    InterpretIsApply(p, item);
    assert b[1..1 + |item.data|] == item.data;
    assert b[1 + |item.data|..] == tail;
  }

  /** Parsing the bytes of a list of items is folding the items' meanings. */
  lemma {:induction false} ParseInvertsEmit(p: Parser, items: seq<Item>)
    requires forall i :: 0 <= i < |items| ==> items[i].Valid() && Prefix(items[i]) != LONG_ITEM
    ensures Parse(Emit(items), p) == ApplyAll(p, items)
    decreases |items|
  {
    hide Ri, Apply;
    if items != [] {
      ParseOne(p, items[0], Emit(items[1..]));
      ParseInvertsEmit(Apply(p, items[0]), items[1..]);
    }
  }

  /** The one short item that cannot be read back: its prefix starts a long item instead. */
  lemma LongPrefixIsReserved(item: Item)
    requires item.Valid()
    ensures Prefix(item) == LONG_ITEM <==> item.tag == 15 && item.typ == 3 && |item.data| == 2
  {
  }

  lemma ParseStep(data: bytes, i: nat, p: Parser)
    requires i < |data|
    ensures var left := Drop(data, i);
            && left != [] && left[0] == data[i]
            && Parse(left, p) == Parse(Drop(data, i + ItemLength(left)), ParseItem(left, p))
            && Second(left) == (if i + 1 < |data| then data[i + 1] else 0)
            && Slice(left, 1, 1 + DataSize(left[0])) == Slice(data, i + 1, i + 1 + DataSize(left[0]))
  {
    hide ParseItem, ItemLength;
    var left := Drop(data, i);
    DropDrop(data, i, ItemLength(left));
    SliceDrop(data, i, DataSize(left[0]));
  }

  method ParseReportDescriptor(data: bytes) returns (p: Parser)
    ensures p == Parse(data, START)
  {
    hide Interpret, Parse, Drop, Slice, FromLE;
    p := START;
    var i: nat := 0;
    DropNone(data);
    while i < |data|
      invariant Parse(Drop(data, i), p) == Parse(data, START)
    {
      ParseStep(data, i, p);
      var prefix := data[i];
      i := i + 1;
      if prefix == LONG_ITEM {
        i := i + 2 + if i < |data| then data[i] else 0;
      } else {
        var size := DataSize(prefix);
        p := Interpret(p, prefix - prefix % 4, size, FromLE(Slice(data, i, i + size)));
        i := i + size;
      }
    }
    DropAll(data, i, p);
  }

  lemma DropNone(b: bytes)
    ensures Drop(b, 0) == b
  {
  }

  lemma DropAll(b: bytes, i: nat, p: Parser)
    requires i >= |b|
    ensures Parse(Drop(b, i), p) == p
  {
  }

  lemma DropDrop(b: bytes, i: nat, n: nat)
    ensures Drop(Drop(b, i), n) == Drop(b, i + n)
  {
  }

  lemma SliceDrop(b: bytes, i: nat, n: nat)
    requires i < |b|
    ensures Slice(Drop(b, i), 1, 1 + n) == Slice(b, i + 1, i + 1 + n)
  {
    var end := if i + 1 + n <= |b| then i + 1 + n else |b|;
    assert b[i..][1..end - i] == b[i + 1..end];
  }

  // ---- the item emitters ----

  lemma DataValue(v: int)
    ensures FromLE([v % 256]) == v % 256
    ensures FromLE([v % 256, (v / 256) % 256]) == v % 0x1_0000
    ensures Pow256(1) == 256 && Pow256(2) == 0x1_0000
  {
    var low: nat, high: nat := v % 256, (v / 256) % 256;
    var one: bytes, two: bytes := [low], [low, high];
    assert one[1..] == [];
    assert two[1..] == [high] && two[1..][1..] == [];
    assert v % 0x1_0000 == low + 256 * high;
  }

  function U8(tag: nat, typ: nat, v: int): (r: Item)
    ensures FromLE(r.data) == v % 256
  {
    DataValue(v);
    Item(tag, typ, [v % 256])
  }

  function U16(tag: nat, typ: nat, v: int): (r: Item)
    ensures FromLE(r.data) == v % 0x1_0000
  {
    DataValue(v);
    Item(tag, typ, [v % 256, (v / 256) % 256])
  }

  function UsagePage(v: int): Item {
    if v <= 0xFF then U8(0, GLOBAL, v) else U16(0, GLOBAL, v)
  }

  function LogicalMin(v: int): Item {
    if -128 <= v <= 127 then U8(1, GLOBAL, v) else U16(1, GLOBAL, v)
  }

  function LogicalMax(v: int): Item {
    if 0 <= v <= 127 then U8(2, GLOBAL, v) else U16(2, GLOBAL, v)
  }

  function ReportSize(v: int): Item { U8(7, GLOBAL, v) }
  function ReportId(v: int): Item { U8(8, GLOBAL, v) }
  function ReportCount(v: int): Item { U8(9, GLOBAL, v) }

  function Usage(v: int): Item {
    if v <= 0xFF then U8(0, LOCAL, v) else U16(0, LOCAL, v)
  }

  function UsageMin(v: int): Item { U8(1, LOCAL, v) }
  function UsageMax(v: int): Item { U8(2, LOCAL, v) }

  function Collection(v: byte): Item { Item(10, MAIN, [v]) }
  function Input(v: byte): Item { Item(8, MAIN, [v]) }
  function Output(v: byte): Item { Item(9, MAIN, [v]) }

  const END_COLLECTION := Item(12, MAIN, [])
  const PUSH := Item(10, GLOBAL, [])
  const POP := Item(11, GLOBAL, [])

  /** A logical limit is read back signed, as given, exactly when it fits sixteen bits; nothing else changes. */
  lemma LimitsAreRecovered(p: Parser, v: int)
    ensures Apply(p, LogicalMin(v)) == p.(globals := p.globals.(logicalMin := v)) <==> -0x8000 <= v <= 0x7FFF
    ensures Apply(p, LogicalMax(v)) == p.(globals := p.globals.(logicalMax := v)) <==> -0x8000 <= v <= 0x7FFF
  {
    hide FromLE, SignExtend;
    SignedWord(v);
  }

  lemma SignedWord(v: int)
    ensures SignExtend(v % 256, 1) == v <==> -128 <= v <= 127
    ensures SignExtend(v % 0x1_0000, 2) == v <==> -0x8000 <= v <= 0x7FFF
  {
    assert Pow256(1) == 256 && Pow256(2) == 0x1_0000;
  }

  /** The unsigned global items are read back as given exactly when the emitter does not cut them. */
  lemma GlobalsAreRecovered(p: Parser, v: nat)
    ensures Apply(p, UsagePage(v)) == p.(globals := p.globals.(usagePage := v)) <==> v <= 0xFFFF
    ensures Apply(p, ReportSize(v)) == p.(globals := p.globals.(reportSize := v)) <==> v <= 0xFF
    ensures Apply(p, ReportCount(v)) == p.(globals := p.globals.(reportCount := v)) <==> v <= 0xFF
    ensures Apply(p, ReportId(v)) == p.(globals := p.globals.(reportId := v), numbered := true) <==> v <= 0xFF
  {
    hide FromLE, SignExtend;
  }

  /** So are the local ones. */
  lemma LocalsAreRecovered(p: Parser, v: nat)
    ensures Apply(p, Usage(v)) == p.(usages := p.usages + [v]) <==> v <= 0xFFFF
    ensures Apply(p, UsageMin(v)) == p.(usageMin := Some(v)) <==> v <= 0xFF
    ensures Apply(p, UsageMax(v)) == p.(usageMax := Some(v)) <==> v <= 0xFF
  {
    hide FromLE, SignExtend;
    var w := v % 0x1_0000;
    assert p.usages + [w] == p.usages + [v] ==> w == v by {
      assert (p.usages + [w])[|p.usages|] == w && (p.usages + [v])[|p.usages|] == v;
    }
  }

  // ---- Push and Pop ----

  /** Every Pop in the list matches an earlier Push, `depth` of them from before, and all are matched. */
  predicate Nested(items: seq<Item>, depth: nat)
    decreases |items|
  {
    if items == [] then
      depth == 0
    else if items[0].typ == GLOBAL && items[0].tag == PUSH.tag then
      Nested(items[1..], depth + 1)
    else if items[0].typ == GLOBAL && items[0].tag == POP.tag then
      depth > 0 && Nested(items[1..], depth - 1)
    else
      Nested(items[1..], depth)
  }

  /** A nested list leaves the stack as it was before its pushes. */
  lemma {:induction false} NestedKeepsStack(p: Parser, base: seq<Globals>, items: seq<Item>)
    requires |base| <= |p.stack| && base == p.stack[..|base|]
    requires Nested(items, |p.stack| - |base|)
    ensures ApplyAll(p, items).stack == base
    decreases |items|
  {
    hide FromLE, SignExtend;
    if items != [] {
      var next := Apply(p, items[0]);
      if items[0].typ == GLOBAL && items[0].tag == POP.tag {
        SliceOfPrefix(p.stack, |p.stack| - 1, 0, |base|);
      }
      NestedKeepsStack(next, base, items[1..]);
    } else {
      assert p.stack[..|p.stack|] == p.stack;
    }
  }

  /** Push, any nested items, Pop: the global items and the stack are exactly as before. */
  lemma PushPopRestores(p: Parser, items: seq<Item>)
    requires Nested(items, 0)
    ensures var after := ApplyAll(p, [PUSH] + items + [POP]);
            after.globals == p.globals && after.stack == p.stack
  {
    var pushed := Push(p);
    assert pushed.stack[..|pushed.stack|] == pushed.stack;
    NestedKeepsStack(pushed, pushed.stack, items);
    assert [PUSH] + items + [POP] == [PUSH] + (items + [POP]);
    ApplyCons(p, PUSH, items + [POP]);
    ApplyAppend(pushed, items, [POP]);
    ApplyCons(ApplyAll(pushed, items), POP, []);
  }

  lemma ApplyCons(p: Parser, item: Item, rest: seq<Item>)
    ensures ApplyAll(p, [item] + rest) == ApplyAll(Apply(p, item), rest)
  {
    assert ([item] + rest)[1..] == rest;
  }

  lemma {:induction false} ApplyAppend(p: Parser, a: seq<Item>, b: seq<Item>)
    ensures ApplyAll(p, a + b) == ApplyAll(ApplyAll(p, a), b)
    decreases |a|
  {
    hide Apply;
    if a == [] {
      assert a + b == b;
    } else {
      ApplyAppend(Apply(p, a[0]), a[1..], b);
      assert (a + b)[1..] == a[1..] + b;
    }
  }

  // ---- report sizes ----

  function Bits(fields: seq<Field>): nat {
    if fields == [] then 0
    else Bits(fields[..|fields| - 1])
         + Span(fields[|fields| - 1].globals.reportCount, fields[|fields| - 1].globals.reportSize)
  }

  /** Payload bytes of a report. */
  function Size(fields: seq<Field>): nat {
    (Bits(fields) + 7) / 8
  }

  function VendorHead(page: nat): seq<Item> {
    [UsagePage(page), Usage(1), Collection(1), LogicalMin(0), LogicalMax(255), ReportSize(8)]
  }

  function VendorReport(size: nat, main: Item): seq<Item> {
    [Usage(1), ReportCount(size), main]
  }

  function VendorItems(inSize: nat, outSize: nat, page: nat): seq<Item> {
    VendorHead(page) + VendorReport(inSize, Input(2))
    + (if outSize != 0 then VendorReport(outSize, Output(2)) else []) + [END_COLLECTION]
  }

  lemma VendorHeadMeaning(page: nat)
    ensures var p := ApplyAll(START, VendorHead(page));
            && p.globals.reportSize == 8 && p.globals.reportId == 0
            && p.stack == [] && p.reports == map[] && !p.numbered
  {
    hide FromLE, SignExtend;
    DataValue(8);
    var items := VendorHead(page);
    assert items == [items[0]] + ([items[1]] + ([items[2]] + ([items[3]] + ([items[4]] + ([items[5]] + [])))));
    var p0 := START;
    var p1 := Apply(p0, items[0]);
    var p2 := Apply(p1, items[1]);
    var p3 := Apply(p2, items[2]);
    var p4 := Apply(p3, items[3]);
    var p5 := Apply(p4, items[4]);
    ApplyCons(p0, items[0], [items[1]] + ([items[2]] + ([items[3]] + ([items[4]] + ([items[5]] + [])))));
    ApplyCons(p1, items[1], [items[2]] + ([items[3]] + ([items[4]] + ([items[5]] + []))));
    ApplyCons(p2, items[2], [items[3]] + ([items[4]] + ([items[5]] + [])));
    ApplyCons(p3, items[3], [items[4]] + ([items[5]] + []));
    ApplyCons(p4, items[4], [items[5]] + []);
    ApplyCons(p5, items[5], []);
  }

  /** A vendor report: one new field of `size` bytes, the count cut to eight bits. */
  lemma VendorReportMeaning(p: Parser, size: nat, reportType: nat, main: Item)
    requires p.globals.reportSize == 8 && p.globals.reportId == 0
    requires (reportType, 0) !in p.reports
    requires (reportType == 1 && main == Input(2)) || (reportType == 2 && main == Output(2))
    ensures var after := ApplyAll(p, VendorReport(size, main));
            && after.globals == p.globals.(reportCount := size % 256)
            && after.numbered == p.numbered
            && after.reports.Keys == p.reports.Keys + {(reportType, 0)}
            && (forall k :: k in p.reports ==> after.reports[k] == p.reports[k])
            && Size(after.reports[(reportType, 0)]) == size % 256
  {
    hide FromLE, SignExtend, Span;
    DataValue(size);
    var items := VendorReport(size, main);
    assert items == [items[0]] + ([items[1]] + ([items[2]] + []));
    var p1 := Apply(p, items[0]);
    var p2 := Apply(p1, items[1]);
    ApplyCons(p, items[0], [items[1]] + ([items[2]] + []));
    ApplyCons(p1, items[1], [items[2]] + []);
    ApplyCons(p2, items[2], []);
    SizeOfOne(Apply(p2, items[2]).reports[(reportType, 0)][0]);
  }

  lemma SizeOfOne(field: Field)
    requires field.globals.reportSize == 8
    ensures Size([field]) == field.globals.reportCount
  {
    hide Span;
    var n := field.globals.reportCount;
    SpanIsProduct(n, 8);
    assert [field][..0] == [];
    assert Bits([field]) == Bits([]) + Span(n, 8);
    assert Bits([field]) == 8 * n;
  }

  /**
   * The vendor descriptor parses to an Input report and, when asked for, an Output report; their
   * sizes are the ones asked for exactly when these are at most 255.
   */
  lemma VendorDescriptorParses(inSize: nat, outSize: nat, page: nat)
    ensures forall i :: 0 <= i < |VendorItems(inSize, outSize, page)| ==> VendorItems(inSize, outSize, page)[i].Valid()
    ensures var p := Parse(Emit(VendorItems(inSize, outSize, page)), START);
            && !p.numbered
            && p.reports.Keys == (if outSize == 0 then {(1, 0)} else {(1, 0), (2, 0)})
            && (Size(p.reports[(1, 0)]) == inSize <==> inSize <= 255)
            && (outSize != 0 ==> (Size(p.reports[(2, 0)]) == outSize <==> outSize <= 255))
  {
    hide Parse, Emit, ApplyAll, Size, Apply;
    var items := VendorItems(inSize, outSize, page);
    ParseInvertsEmit(START, items);
    var head, input := VendorHead(page), VendorReport(inSize, Input(2));
    var output := if outSize != 0 then VendorReport(outSize, Output(2)) else [];
    VendorHeadMeaning(page);
    var p1 := ApplyAll(START, head);
    VendorReportMeaning(p1, inSize, 1, Input(2));
    var p2 := ApplyAll(p1, input);
    if outSize != 0 {
      VendorReportMeaning(p2, outSize, 2, Output(2));
    } else {
      ApplyNone(p2);
    }
    var p3 := ApplyAll(p2, output);
    EndCollectionMeaning(p3);
    ApplyAppend(START, head, input);
    ApplyAppend(START, head + input, output);
    ApplyAppend(START, head + input + output, [END_COLLECTION]);
  }

  lemma ApplyNone(p: Parser)
    ensures ApplyAll(p, []) == p
  {
  }

  lemma EndCollectionMeaning(p: Parser)
    ensures ApplyAll(p, [END_COLLECTION]) == ClearLocals(p)
  {
    ApplyCons(p, END_COLLECTION, []);
    assert [END_COLLECTION] + [] == [END_COLLECTION];
  }

  // ---- items as bytes ----

  /** The bytes of every item the builders make (HID 1.11, section 6.2.2): main ones, */
  lemma MainItemBytes(v: byte)
    ensures Ri(Collection(v)) == [0xA1, v] && Ri(Input(v)) == [0x81, v] && Ri(Output(v)) == [0x91, v]
    ensures Ri(END_COLLECTION) == [0xC0]
  {
  }

  /** global ones, with one data byte or two, low byte first, */
  lemma GlobalItemBytes(v: int)
    ensures Ri(UsagePage(v)) == if v <= 255 then [0x05, v % 256] else [0x06, v % 256, v / 256 % 256]
    ensures Ri(LogicalMin(v)) == if -128 <= v <= 127 then [0x15, v % 256] else [0x16, v % 256, v / 256 % 256]
    ensures Ri(LogicalMax(v)) == if 0 <= v <= 127 then [0x25, v % 256] else [0x26, v % 256, v / 256 % 256]
  {
  }

  /** with one data byte or none, */
  lemma ShortGlobalItemBytes(v: int)
    ensures Ri(ReportSize(v)) == [0x75, v % 256] && Ri(ReportId(v)) == [0x85, v % 256]
    ensures Ri(ReportCount(v)) == [0x95, v % 256]
    ensures Ri(PUSH) == [0xA4] && Ri(POP) == [0xB4]
  {
  }

  /** and local ones. */
  lemma LocalItemBytes(v: int)
    ensures Ri(Usage(v)) == if v <= 255 then [0x09, v % 256] else [0x0A, v % 256, v / 256 % 256]
    ensures Ri(UsageMin(v)) == [0x19, v % 256] && Ri(UsageMax(v)) == [0x29, v % 256]
  {
  }

  predicate AllItems(items: seq<Item>) {
    forall i :: 0 <= i < |items| ==> items[i].Valid()
  }

  lemma {:induction false} EmitAppend(a: seq<Item>, b: seq<Item>)
    requires AllItems(a) && AllItems(b)
    ensures AllItems(a + b) && Emit(a + b) == Emit(a) + Emit(b)
  {
    hide Ri;
    if a == [] {
      assert a + b == b;
    } else {
      EmitAppend(a[1..], b);
      assert (a + b)[0] == a[0] && (a + b)[1..] == a[1..] + b;
      Assoc(Ri(a[0]), Emit(a[1..]), Emit(b));
    }
  }

  lemma EmitOne(item: Item)
    requires item.Valid()
    ensures Emit([item]) == Ri(item) && Emit([]) == []
  {
    hide Ri;
    assert [item][1..] == [];
  }

  lemma EmitThree(items: seq<Item>)
    requires |items| == 3 && AllItems(items)
    ensures Emit(items) == Ri(items[0]) + Ri(items[1]) + Ri(items[2])
  {
    hide Ri, Emit;
    EmitOne(items[0]);
    EmitOne(items[1]);
    EmitOne(items[2]);
    EmitAppend([items[0]], [items[1]]);
    EmitAppend([items[0]] + [items[1]], [items[2]]);
    assert items == [items[0]] + [items[1]] + [items[2]];
  }

  function PageBytes(page: nat): bytes {
    if page <= 255 then [0x05, page] else [0x06, page % 256, page / 256 % 256]
  }

  lemma VendorHeadBytes(page: nat)
    ensures AllItems(VendorHead(page))
    ensures Emit(VendorHead(page)) == PageBytes(page) + [0x09, 1, 0xA1, 1, 0x15, 0, 0x26, 0xFF, 0, 0x75, 8]
  {
    hide Ri, Emit, AllItems, UsagePage, Usage, Collection, LogicalMin, LogicalMax, ReportSize;
    var kind, range := [UsagePage(page), Usage(1), Collection(1)], [LogicalMin(0), LogicalMax(255), ReportSize(8)];
    KindBytes(page);
    RangeBytes();
    EmitAppend(kind, range);
    assert VendorHead(page) == kind + range;
  }

  lemma KindBytes(page: nat)
    ensures AllItems([UsagePage(page), Usage(1), Collection(1)])
    ensures Emit([UsagePage(page), Usage(1), Collection(1)]) == PageBytes(page) + [0x09, 1, 0xA1, 1]
  {
    hide Ri, Emit;
    GlobalItemBytes(page);
    LocalItemBytes(1);
    MainItemBytes(1);
    EmitThree([UsagePage(page), Usage(1), Collection(1)]);
  }

  lemma RangeBytes()
    ensures AllItems([LogicalMin(0), LogicalMax(255), ReportSize(8)])
    ensures Emit([LogicalMin(0), LogicalMax(255), ReportSize(8)]) == [0x15, 0, 0x26, 0xFF, 0, 0x75, 8]
  {
    hide Ri, Emit;
    GlobalItemBytes(0);
    GlobalItemBytes(255);
    ShortGlobalItemBytes(8);
    EmitThree([LogicalMin(0), LogicalMax(255), ReportSize(8)]);
  }

  lemma VendorReportBytes(size: nat, main: Item, tag: byte)
    requires (main == Input(2) && tag == 0x81) || (main == Output(2) && tag == 0x91)
    ensures AllItems(VendorReport(size, main))
    ensures Emit(VendorReport(size, main)) == [0x09, 1, 0x95, size % 256, tag, 2]
  {
    hide Ri, Emit;
    LocalItemBytes(1);
    ShortGlobalItemBytes(size);
    MainItemBytes(2);
    EmitThree(VendorReport(size, main));
  }

  /** The vendor descriptor as it is sent: usage page, usage 1, an application collection, 0 to 255, eight bits; then
      usage 1, the count and the item for each report; and the end. */
  lemma VendorBytes(inSize: nat, outSize: nat, page: nat)
    ensures AllItems(VendorItems(inSize, outSize, page))
    ensures Emit(VendorItems(inSize, outSize, page))
         == PageBytes(page) + [0x09, 1, 0xA1, 1, 0x15, 0, 0x26, 0xFF, 0, 0x75, 8]
            + [0x09, 1, 0x95, inSize % 256, 0x81, 2]
            + (if outSize != 0 then [0x09, 1, 0x95, outSize % 256, 0x91, 2] else [])
            + [0xC0]
  {
    hide Ri, Emit, AllItems, VendorHead, VendorReport, PageBytes, UsagePage;
    VendorHeadBytes(page);
    VendorReportBytes(inSize, Input(2), 0x81);
    VendorReportBytes(outSize, Output(2), 0x91);
    EndBytes();
    var head, input := VendorHead(page), VendorReport(inSize, Input(2));
    var output := if outSize != 0 then VendorReport(outSize, Output(2)) else [];
    EmitAppend(head, input);
    EmitAppend(head + input, output);
    EmitAppend(head + input + output, [END_COLLECTION]);
  }

  lemma EndBytes()
    ensures AllItems([END_COLLECTION]) && Emit([END_COLLECTION]) == [0xC0]
    ensures AllItems([]) && Emit([]) == []
  {
    hide Ri;
    MainItemBytes(0);
    EmitOne(END_COLLECTION);
  }

  /** How many bytes of data an item has: 0, 1, 2 or 4. */
  lemma DataSizes(prefix: nat)
    ensures prefix % 4 == 0 ==> DataSize(prefix) == 0
    ensures prefix % 4 == 1 ==> DataSize(prefix) == 1
    ensures prefix % 4 == 2 ==> DataSize(prefix) == 2
    ensures prefix % 4 == 3 ==> DataSize(prefix) == 4
  {
  }

  /** A long item is passed over: its prefix, a length, a tag, and that many bytes. */
  lemma LongItemIsSkipped(length: byte, tag: byte, payload: bytes, rest: bytes, p: Parser)
    requires |payload| == length
    ensures Parse([0xFE, length, tag] + payload + rest, p) == Parse(rest, p)
  {
    hide ParseItem;
    var b := [0xFE, length, tag] + payload + rest;
    assert b[0] == 0xFE && b[1] == length && ItemLength(b) == 3 + length;
    assert b[3 + length..] == rest;
    assert ParseItem(b, p) == p by {
      ItemSkipped(b, p);
    }
  }

  lemma ItemSkipped(b: bytes, p: Parser)
    requires b != [] && b[0] == 0xFE
    ensures ParseItem(b, p) == p
  {
  }

  // ---- fields ----

  /** An Input, Output or Feature item adds one field to the report of its kind and of the current ID, with all the
      state as it stands, and clears the local state and nothing else. */
  lemma MainItemAddsField(p: Parser, tag: nat, data: bytes)
    requires tag == 8 || tag == 9 || tag == 11
    ensures var kind := if tag == 8 then 1 else if tag == 9 then 2 else 3;
            var key := (kind, p.globals.reportId);
            var p' := Apply(p, Item(tag, MAIN, data));
            var had := if key in p.reports then p.reports[key] else [];
            && p'.reports.Keys == p.reports.Keys + {key}
            && p'.reports[key]
               == had + [Field(kind, p.globals, p.usages, p.usageMin, p.usageMax, FromLE(data))]
            && (forall k :: k in p.reports && k != key ==> p'.reports[k] == p.reports[k])
            && p'.usages == [] && p'.usageMin == None && p'.usageMax == None
            && p'.globals == p.globals && p'.stack == p.stack && p'.numbered == p.numbered
  {
  }

  /** The start and the end of a collection clear the local state and nothing else. */
  lemma CollectionClearsLocals(p: Parser, tag: nat, data: bytes)
    requires tag == 10 || tag == 12
    ensures var p' := Apply(p, Item(tag, MAIN, data));
            && p'.usages == [] && p'.usageMin == None && p'.usageMax == None
            && p'.globals == p.globals && p'.stack == p.stack && p'.numbered == p.numbered && p'.reports == p.reports
  {
  }

  /** A field takes its count times its size in bits; a report is that many bits, in bytes rounded up. */
  lemma SizeIsCeiling(fields: seq<Field>, f: Field)
    ensures Bits([]) == 0 && Bits(fields + [f]) == Bits(fields) + f.globals.reportCount * f.globals.reportSize
    ensures Bits(fields) <= 8 * Size(fields) < Bits(fields) + 8
  {
    assert (fields + [f])[..|fields|] == fields;
    SpanIsProduct(f.globals.reportCount, f.globals.reportSize);
  }
}
