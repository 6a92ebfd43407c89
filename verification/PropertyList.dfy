/** MTP strings and object property lists: the device's encoder against the host's parser. */
module PropertyList {
  import opened Bytes

  // ---- text ----

  /** A string as its Unicode scalar values. */
  type Text = seq<nat>

  const MAX_CHARS: nat := 254
  const REPLACEMENT: nat := 0xFFFD

  predicate Scalar(c: nat) {
    c < 0xD800 || 0xE000 <= c < 0x11_0000
  }

  /** UTF-16 code units: a surrogate pair above 0xFFFF. */
  function Utf16(text: Text): (units: seq<nat>)
    ensures |units| >= |text|
  {
    if text == [] then []
    else (if text[0] < 0x1_0000 then [text[0]]
          else [0xD800 + (text[0] - 0x1_0000) / 0x400, 0xDC00 + (text[0] - 0x1_0000) % 0x400]) + Utf16(text[1..])
  }

  function UnitBytes(units: seq<nat>): (b: bytes)
    ensures |b| == 2 * |units|
  {
    if units == [] then [] else ToLE(units[0], 2) + UnitBytes(units[1..])
  }

  /** Code units of little-endian bytes; a lone last byte decodes to the replacement character. */
  function Units(b: bytes): seq<nat>
    decreases |b|
  {
    if b == [] then [] else if |b| == 1 then [REPLACEMENT] else [FromLE(b[..2])] + Units(b[2..])
  }

  predicate High(u: nat) { 0xD800 <= u < 0xDC00 }
  predicate Low(u: nat) { 0xDC00 <= u < 0xE000 }

  /** Decoding with "replace": pairs are joined, an unpaired surrogate becomes U+FFFD. */
  function Decode(units: seq<nat>): Text
    decreases |units|
  {
    if units == [] then
      []
    else if High(units[0]) && |units| > 1 && Low(units[1]) then
      [0x1_0000 + (units[0] - 0xD800) * 0x400 + (units[1] - 0xDC00)] + Decode(units[2..])
    else
      [if High(units[0]) || Low(units[0]) then REPLACEMENT else units[0]] + Decode(units[1..])
  }

  /** `split("\0", 1)[0]`. */
  function UpToNul(text: Text): (r: Text)
    ensures |r| <= |text|
    ensures |r| == |text| ==> r == text
  {
    if text == [] || text[0] == 0 then [] else [text[0]] + UpToNul(text[1..])
  }

  function Clip(text: Text): Text {
    if |text| <= MAX_CHARS then text else text[..MAX_CHARS]
  }

  /** `ptp_str`: a count byte that includes the NUL, then the code units and the NUL. */
  function PtpStr(text: Text): bytes {
    if text == [] then [0] else [|Clip(text)| + 1] + UnitBytes(Utf16(Clip(text)) + [0])
  }

  /** `ptp_str_parse` at the start of `b`: the text and how far it reads; None where the source raises. */
  function PtpStrParse(b: bytes): Option<(Text, nat)> {
    if b == [] then
      None
    else
      var nchars: nat := b[0];
      if nchars == 0 then Some(([], 1))
      else Some((UpToNul(Decode(Units(Slice(b, 1, 1 + 2 * nchars)))), 1 + 2 * nchars))
  }

  predicate Bmp(text: Text) {
    forall i :: 0 <= i < |text| ==> Scalar(text[i]) && text[i] < 0x1_0000
  }

  predicate NoNul(text: Text) {
    forall i :: 0 <= i < |text| ==> text[i] != 0
  }

  lemma {:induction false} UnitsInvertBytes(units: seq<nat>)
    requires forall i :: 0 <= i < |units| ==> units[i] < 0x1_0000
    ensures Units(UnitBytes(units)) == units
  {
    if units != [] {
      var b := UnitBytes(units);
      assert b[..2] == ToLE(units[0], 2);
      assert b[2..] == UnitBytes(units[1..]);
      assert Pow256(2) == 0x1_0000;
      LERoundTrip(units[0], 2);
      UnitsInvertBytes(units[1..]);
    }
  }

  lemma {:induction false} BmpIsItsUnits(text: Text)
    requires Bmp(text)
    ensures Utf16(text) == text && Decode(text) == text
  {
    if text != [] {
      BmpIsItsUnits(text[1..]);
    }
  }

  lemma PairOrUnit(c: nat, units: seq<nat>)
    requires Scalar(c)
    ensures Decode(Utf16([c]) + units) == [c] + Decode(units)
  {
    var w := Utf16([c]);
    assert [c][1..] == [] && Utf16([]) == [];
    if c < 0x1_0000 {
      assert w == [c] && (w + units)[1..] == units;
    } else {
      assert w == [0xD800 + (c - 0x1_0000) / 0x400, 0xDC00 + (c - 0x1_0000) % 0x400];
      assert (w + units)[2..] == units && High(w[0]) && Low(w[1]);
    }
  }

  /** Any text survives its code units, surrogate pairs included. */
  lemma {:induction false} Utf16RoundTrip(text: Text)
    requires forall i :: 0 <= i < |text| ==> Scalar(text[i])
    ensures Decode(Utf16(text)) == text
  {
    hide Scalar, Decode;
    if text == [] {
      NothingDecodes();
    } else {
      Utf16RoundTrip(text[1..]);
      PairOrUnit(text[0], Utf16(text[1..]));
      assert [text[0]][1..] == [] && Utf16([text[0]]) + Utf16(text[1..]) == Utf16(text);
    }
  }

  lemma NothingDecodes()
    ensures Decode([]) == []
  {
  }

  /** A surrogate without its partner becomes the replacement character, and decoding goes on after it. */
  lemma LoneSurrogate(u: nat, rest: seq<nat>)
    requires 0xD800 <= u < 0xE000
    requires u >= 0xDC00 || rest == [] || rest[0] < 0xDC00 || rest[0] >= 0xE000
    ensures Decode([u] + rest) == [0xFFFD] + Decode(rest)
  {
    assert ([u] + rest)[1..] == rest;
  }

  lemma {:induction false} UpToNulFacts(text: Text)
    ensures UpToNul(text + [0]) == UpToNul(text)
    ensures UpToNul(text) == text <==> NoNul(text)
  {
    if text != [] {
      UpToNulFacts(text[1..]);
      assert (text + [0])[1..] == text[1..] + [0];
      assert UpToNul(text) == text ==> UpToNul(text)[1..] == text[1..];
    }
  }

  /** Characters above 0xFFFF take two units, so the count byte falls short. */
  lemma {:induction false} BmpTakesOneUnitEach(text: Text)
    requires forall i :: 0 <= i < |text| ==> Scalar(text[i])
    ensures |Utf16(text)| == |text| <==> Bmp(text)
  {
    if text != [] {
      BmpTakesOneUnitEach(text[1..]);
      assert Bmp(text) <==> text[0] < 0x1_0000 && Bmp(text[1..]);
    }
  }

  lemma ParsedBmp(text: Text, rest: bytes)
    requires text != [] && Bmp(Clip(text))
    ensures PtpStrParse(PtpStr(text) + rest) == Some((UpToNul(Clip(text)), |PtpStr(text)|))
  {
    hide Decode, Units, UnitBytes, Utf16, UpToNul;
    var chars := Clip(text);
    var b := PtpStr(text) + rest;
    BmpIsItsUnits(chars);
    BmpIsItsUnits(chars + [0]);
    UnitsInvertBytes(chars + [0]);
    UpToNulFacts(chars);
    assert b[1..1 + 2 * (|chars| + 1)] == UnitBytes(chars + [0]);
  }

  /** A string is read back whole, and exactly its own bytes are read, just when it is at most 254 BMP characters
      without NUL. */
  lemma StringRoundTrip(text: Text, rest: bytes)
    requires forall i :: 0 <= i < |text| ==> Scalar(text[i])
    ensures PtpStrParse(PtpStr(text) + rest) == Some((text, |PtpStr(text)|))
       <==> |text| <= MAX_CHARS && Bmp(text) && NoNul(text)
  {
    hide Decode, Units, UnitBytes, Utf16, UpToNul;
    if text != [] {
      var chars := Clip(text);
      BmpTakesOneUnitEach(chars);
      UpToNulFacts(chars);
      if Bmp(chars) {
        ParsedBmp(text, rest);
      }
    }
  }

  // ---- values and entries ----

  const T_U16: nat := 0x0004
  const T_U32: nat := 0x0006
  const T_U64: nat := 0x0008
  const T_U128: nat := 0x000A
  const T_STR: nat := 0xFFFF

  /** TYPE_SIZES, 0 for a type that is not in it. */
  function TypeSize(dtype: nat): nat {
    match dtype
    case 0x0002 => 1
    case 0x0004 => 2
    case 0x0006 => 4
    case 0x0008 => 8
    case 0x000A => 16
    case _ => 0
  }

  datatype Value = Number(n: nat) | Raw(b: bytes) | Words(text: Text)

  datatype Entry = Entry(handle: nat, prop: nat, dtype: nat, value: Value)

  /** An integer packed with the mask of its width, the 128-bit identifier as it is, a string length-prefixed. */
  function ValueBytes(dtype: nat, value: Value): bytes {
    match value
    case Number(n) => ToLE(n % Pow256(TypeSize(dtype)), TypeSize(dtype))
    case Raw(b) => b
    case Words(text) => PtpStr(text)
  }

  predicate Exact(dtype: nat, value: Value) {
    match value
    case Number(n) => dtype != T_U128 && dtype != T_STR && n < Pow256(TypeSize(dtype))
    case Raw(b) => dtype == T_U128 && |b| == 16
    case Words(text) => dtype == T_STR && |text| <= MAX_CHARS && Bmp(text) && NoNul(text)
  }

  /** `_decode_value` at the start of `b`; None where the source raises. */
  function DecodeValue(b: bytes, dtype: nat): Option<(Value, nat)> {
    if dtype == T_STR then
      match PtpStrParse(b)
      case None => None
      case Some(p) => Some((Words(p.0), p.1))
    else
      var size := TypeSize(dtype);
      var raw := Slice(b, 0, size);
      if dtype == T_U128 then Some((Raw(raw), size)) else Some((Number(FromLE(raw)), size))
  }

  lemma ValueRoundTrip(dtype: nat, value: Value, rest: bytes)
    requires Exact(dtype, value)
    ensures DecodeValue(ValueBytes(dtype, value) + rest, dtype) == Some((value, |ValueBytes(dtype, value)|))
  {
    hide PtpStr, PtpStrParse, FromLE, ToLE, Pow256;
    var bytes := ValueBytes(dtype, value);
    match value {
      case Number(n) =>
        LERoundTrip(n, TypeSize(dtype));
        assert (bytes + rest)[0..TypeSize(dtype)] == bytes;
      case Raw(b) =>
        assert (bytes + rest)[0..16] == bytes;
      case Words(text) =>
        StringRoundTrip(text, rest);
    }
  }

  function EntryHead(e: Entry): (h: bytes)
    ensures |h| == 8
  {
    ToLE(e.handle, 4) + (ToLE(e.prop, 2) + ToLE(e.dtype, 2))
  }

  function EntryBytes(e: Entry): bytes {
    EntryHead(e) + ValueBytes(e.dtype, e.value)
  }

  function EntriesBytes(es: seq<Entry>): bytes {
    if es == [] then [] else EntryBytes(es[0]) + EntriesBytes(es[1..])
  }

  predicate Packed(e: Entry) {
    e.handle < 0x1_0000_0000 && e.prop < 0x1_0000 && e.dtype < 0x1_0000 && Exact(e.dtype, e.value)
  }

  /** What the host builds: each object's properties by code. */
  type Table = map<nat, map<nat, Value>>

  function Put(t: Table, handle: nat, prop: nat, value: Value): Table {
    t[handle := (if handle in t then t[handle] else map[])[prop := value]]
  }

  function PutAll(t: Table, es: seq<Entry>): Table
    decreases |es|
  {
    if es == [] then t else PutAll(Put(t, es[0].handle, es[0].prop, es[0].value), es[1..])
  }

  /** The parser's loop, `count` entries from the start of `b`; None where the source raises. */
  function ParseEntries(b: bytes, count: nat, t: Table): Option<Table>
    decreases count
  {
    if count == 0 then
      Some(t)
    else
      match DecodeValue(Drop(b, 8), FromLE(Slice(b, 6, 8)))
      case None => None
      case Some(v) =>
        ParseEntries(Drop(b, 8 + v.1), count - 1, Put(t, FromLE(Slice(b, 0, 4)), FromLE(Slice(b, 4, 6)), v.0))
  }

  function ParsePropList(data: bytes): Option<Table> {
    ParseEntries(Drop(data, 4), FromLE(Slice(data, 0, 4)), map[])
  }

  lemma HeadRoundTrip(e: Entry, rest: bytes)
    requires Packed(e)
    ensures var b := EntryHead(e) + rest;
            && FromLE(Slice(b, 0, 4)) == e.handle && FromLE(Slice(b, 4, 6)) == e.prop
            && FromLE(Slice(b, 6, 8)) == e.dtype
            && Drop(b, 8) == rest
  {
    hide FromLE, ToLE;
    assert Pow256(2) == 0x1_0000 && Pow256(4) == 0x1_0000_0000;
    LERoundTrip(e.handle, 4);
    LERoundTrip(e.prop, 2);
    LERoundTrip(e.dtype, 2);
    var b := EntryHead(e) + rest;
    assert b[0..4] == ToLE(e.handle, 4);
    assert b[4..6] == ToLE(e.prop, 2);
    assert b[6..8] == ToLE(e.dtype, 2);
    assert b[8..] == rest;
  }

  lemma DropValue(front: bytes, value: bytes, rest: bytes)
    ensures Drop(front + (value + rest), |front| + |value|) == rest
  {
  }

  lemma {:induction false} EntriesRoundTrip(es: seq<Entry>, t: Table)
    requires forall i :: 0 <= i < |es| ==> Packed(es[i])
    ensures ParseEntries(EntriesBytes(es), |es|, t) == Some(PutAll(t, es))
    decreases |es|
  {
    hide FromLE, EntryHead, ValueBytes, DecodeValue, Drop, Slice, Put;
    if es != [] {
      var e, rest := es[0], EntriesBytes(es[1..]);
      var value := ValueBytes(e.dtype, e.value);
      Assoc(EntryHead(e), value, rest);
      HeadRoundTrip(e, value + rest);
      ValueRoundTrip(e.dtype, e.value, rest);
      DropValue(EntryHead(e), value, rest);
      EntriesRoundTrip(es[1..], Put(t, e.handle, e.prop, e.value));
    }
  }

  /** A counted list of exact entries parses to the table of those entries. */
  lemma ListRoundTrip(es: seq<Entry>)
    requires |es| < 0x1_0000_0000 && forall i :: 0 <= i < |es| ==> Packed(es[i])
    ensures ParsePropList(ToLE(|es|, 4) + EntriesBytes(es)) == Some(PutAll(map[], es))
  {
    hide FromLE, ToLE, EntriesBytes, ParseEntries, PutAll;
    var data := ToLE(|es|, 4) + EntriesBytes(es);
    assert Pow256(4) == 0x1_0000_0000;
    LERoundTrip(|es|, 4);
    assert data[0..4] == ToLE(|es|, 4);
    assert data[4..] == EntriesBytes(es);
    EntriesRoundTrip(es, map[]);
  }

  // ---- the device's objects ----

  const OPC_STORAGE_ID: nat := 0xDC01
  const OPC_OBJECT_FORMAT: nat := 0xDC02
  const OPC_PROTECTION: nat := 0xDC03
  const OPC_OBJECT_SIZE: nat := 0xDC04
  const OPC_FILENAME: nat := 0xDC07
  const OPC_DATE_MODIFIED: nat := 0xDC09
  const OPC_PARENT: nat := 0xDC0B
  const OPC_PUID: nat := 0xDC41
  const OPC_NAME: nat := 0xDC44
  const ALL: nat := 0xFFFF_FFFF

  const PROP_LIST: seq<nat> := [OPC_STORAGE_ID, OPC_OBJECT_FORMAT, OPC_PROTECTION, OPC_OBJECT_SIZE,
                                OPC_FILENAME, OPC_DATE_MODIFIED, OPC_PARENT, OPC_PUID, OPC_NAME]

  /** An object as the property list sees it; `date` and `puid` are what its time and path come out as. */
  datatype Obj = Obj(storage: nat, fmt: nat, size: nat, parent: nat, name: Text, date: Text, puid: bytes)

  predicate ShortText(text: Text) {
    |text| <= MAX_CHARS && Bmp(text) && NoNul(text)
  }

  predicate Plain(o: Obj) {
    && o.storage <= ALL && o.fmt < 0x1_0000 && o.size < 0x1_0000_0000_0000_0000 && o.parent <= ALL
    && ShortText(o.name) && ShortText(o.date) && |o.puid| == 16
  }

  /** `_prop`: a property's type and value, None if it is not supported. */
  function Prop(o: Obj, code: nat, readOnly: bool): Option<(nat, Value)> {
    match code
    case 0xDC01 => Some((T_U32, Number(o.storage)))
    case 0xDC02 => Some((T_U16, Number(o.fmt)))
    case 0xDC03 => Some((T_U16, Number(if readOnly then 1 else 0)))
    case 0xDC04 => Some((T_U64, Number(o.size)))
    case 0xDC07 => Some((T_STR, Words(o.name)))
    case 0xDC09 => Some((T_STR, Words(o.date)))
    case 0xDC0B => Some((T_U32, Number(o.parent)))
    case 0xDC41 => Some((T_U128, Raw(o.puid)))
    case 0xDC44 => Some((T_STR, Words(o.name)))
    case _ => None
  }

  /** Asking for everything gives each of the nine properties its own value. */
  lemma FullListing(o: Obj, readOnly: bool)
    ensures PropsOf(o, PROP_LIST, readOnly)
         == map[0xDC01 := Number(o.storage), 0xDC02 := Number(o.fmt), 0xDC03 := Number(if readOnly then 1 else 0),
                0xDC04 := Number(o.size), 0xDC07 := Words(o.name), 0xDC09 := Words(o.date),
                0xDC0B := Number(o.parent), 0xDC41 := Raw(o.puid), 0xDC44 := Words(o.name)]
  {
  }

  lemma PropIsExact(o: Obj, code: nat, readOnly: bool)
    requires Plain(o)
    ensures match Prop(o, code, readOnly)
            case None => true
            case Some(p) => p.0 < 0x1_0000 && Exact(p.0, p.1) && code < 0x1_0000
  {
    assert Pow256(2) == 0x1_0000 && Pow256(4) == 0x1_0000_0000 && Pow256(8) == 0x1_0000_0000_0000_0000;
  }

  function EntriesFor(handle: nat, o: Obj, codes: seq<nat>, readOnly: bool): seq<Entry> {
    if codes == [] then
      []
    else
      var n := |codes| - 1;
      EntriesFor(handle, o, codes[..n], readOnly)
      + match Prop(o, codes[n], readOnly)
        case None => []
        case Some(p) => [Entry(handle, codes[n], p.0, p.1)]
  }

  function AllEntries(objects: map<nat, Obj>, handles: seq<nat>, codes: seq<nat>, readOnly: bool): seq<Entry> {
    if handles == [] then
      []
    else
      var n := |handles| - 1;
      AllEntries(objects, handles[..n], codes, readOnly)
      + if handles[n] in objects then EntriesFor(handles[n], objects[handles[n]], codes, readOnly) else []
  }

  /** What the host should learn of one object: the asked-for properties that are supported. */
  function PropsOf(o: Obj, codes: seq<nat>, readOnly: bool): map<nat, Value> {
    map code | code in codes && Prop(o, code, readOnly).Some? :: Prop(o, code, readOnly).value.1
  }

  /** And of all: the selected objects that have any such property. */
  function Expected(objects: map<nat, Obj>, handles: seq<nat>, codes: seq<nat>, readOnly: bool): Table {
    map h | h in handles && h in objects && PropsOf(objects[h], codes, readOnly) != map[]
        :: PropsOf(objects[h], codes, readOnly)
  }

  lemma {:induction false} PutAllAppend(t: Table, a: seq<Entry>, b: seq<Entry>)
    ensures PutAll(t, a + b) == PutAll(PutAll(t, a), b)
    decreases |a|
  {
    hide Put;
    if a == [] {
      assert a + b == b;
    } else {
      PutAllAppend(Put(t, a[0].handle, a[0].prop, a[0].value), a[1..], b);
      assert (a + b)[1..] == a[1..] + b;
    }
  }

  lemma PutOne(t: Table, e: Entry)
    ensures PutAll(t, [e]) == Put(t, e.handle, e.prop, e.value)
  {
    assert [e][1..] == [];
  }

  function Merge(t: Table, handle: nat, props: map<nat, Value>): Table {
    if props == map[] then t else t[handle := (if handle in t then t[handle] else map[]) + props]
  }

  lemma PropsSnoc(o: Obj, codes: seq<nat>, code: nat, readOnly: bool)
    ensures PropsOf(o, codes + [code], readOnly)
         == match Prop(o, code, readOnly)
            case None => PropsOf(o, codes, readOnly)
            case Some(p) => PropsOf(o, codes, readOnly)[code := p.1]
  {
    hide Prop;
  }

  lemma {:induction false} OneObject(t: Table, handle: nat, o: Obj, codes: seq<nat>, readOnly: bool)
    ensures PutAll(t, EntriesFor(handle, o, codes, readOnly)) == Merge(t, handle, PropsOf(o, codes, readOnly))
    decreases |codes|
  {
    hide Prop, PropsOf;
    if codes == [] {
      NoProps(o, readOnly);
    } else {
      var n := |codes| - 1;
      var front := codes[..n];
      OneObject(t, handle, o, front, readOnly);
      PropsSnoc(o, front, codes[n], readOnly);
      assert codes == front + [codes[n]];
      match Prop(o, codes[n], readOnly) {
        case None =>
          assert EntriesFor(handle, o, codes, readOnly) == EntriesFor(handle, o, front, readOnly);
        case Some(p) =>
          var e := Entry(handle, codes[n], p.0, p.1);
          PutAllAppend(t, EntriesFor(handle, o, front, readOnly), [e]);
          PutOne(Merge(t, handle, PropsOf(o, front, readOnly)), e);
          PutIsMerge(t, handle, PropsOf(o, front, readOnly), codes[n], p.1);
      }
    }
  }

  lemma NoProps(o: Obj, readOnly: bool)
    ensures PropsOf(o, [], readOnly) == map[]
  {
  }

  lemma PutIsMerge(t: Table, handle: nat, props: map<nat, Value>, code: nat, value: Value)
    ensures Put(Merge(t, handle, props), handle, code, value) == Merge(t, handle, props[code := value])
  {
    assert code in props[code := value];
    assert props[code := value] != map[];
    var was := if handle in t then t[handle] else map[];
    assert (was + props)[code := value] == was + props[code := value];
    assert props == map[] ==> was + props == was;
    assert Put(Merge(t, handle, props), handle, code, value) == t[handle := was + props[code := value]];
  }

  lemma {:induction false} TableOfEntries(objects: map<nat, Obj>, handles: seq<nat>, codes: seq<nat>, readOnly: bool)
    ensures PutAll(map[], AllEntries(objects, handles, codes, readOnly)) == Expected(objects, handles, codes, readOnly)
    decreases |handles|
  {
    hide PropsOf, EntriesFor;
    if handles != [] {
      var n := |handles| - 1;
      var front, h := handles[..n], handles[n];
      TableOfEntries(objects, front, codes, readOnly);
      var before := Expected(objects, front, codes, readOnly);
      if h in objects {
        var o := objects[h];
        PutAllAppend(map[], AllEntries(objects, front, codes, readOnly), EntriesFor(h, o, codes, readOnly));
        OneObject(before, h, o, codes, readOnly);
        ExpectedSnoc(objects, front, h, codes, readOnly);
        assert handles == front + [h];
      } else {
        assert AllEntries(objects, handles, codes, readOnly) == AllEntries(objects, front, codes, readOnly);
        assert forall k :: k in handles && k in objects <==> k in front && k in objects;
      }
    }
  }

  lemma ExpectedSnoc(objects: map<nat, Obj>, handles: seq<nat>, h: nat, codes: seq<nat>, readOnly: bool)
    requires h in objects
    ensures Expected(objects, handles + [h], codes, readOnly)
         == Merge(Expected(objects, handles, codes, readOnly), h, PropsOf(objects[h], codes, readOnly))
  {
    hide PropsOf;
    var props := PropsOf(objects[h], codes, readOnly);
    assert props + props == props && map[] + props == props;
  }

  predicate AllPacked(es: seq<Entry>) {
    forall i :: 0 <= i < |es| ==> Packed(es[i])
  }

  lemma PackedAppend(a: seq<Entry>, b: seq<Entry>)
    requires AllPacked(a) && AllPacked(b)
    ensures AllPacked(a + b)
  {
    hide Packed;
  }

  lemma {:induction false} EntriesArePacked(objects: map<nat, Obj>, handles: seq<nat>, codes: seq<nat>, readOnly: bool)
    requires forall h :: h in objects ==> h <= ALL && Plain(objects[h])
    ensures AllPacked(AllEntries(objects, handles, codes, readOnly))
    decreases |handles|
  {
    hide EntriesFor, Packed;
    if handles != [] {
      var n := |handles| - 1;
      EntriesArePacked(objects, handles[..n], codes, readOnly);
      if handles[n] in objects {
        OnePacked(handles[n], objects[handles[n]], codes, readOnly);
        PackedAppend(AllEntries(objects, handles[..n], codes, readOnly),
                     EntriesFor(handles[n], objects[handles[n]], codes, readOnly));
      }
    }
  }

  lemma {:induction false} OnePacked(handle: nat, o: Obj, codes: seq<nat>, readOnly: bool)
    requires handle <= ALL && Plain(o)
    ensures AllPacked(EntriesFor(handle, o, codes, readOnly))
    decreases |codes|
  {
    hide Prop, Exact, Plain;
    if codes != [] {
      var n := |codes| - 1;
      OnePacked(handle, o, codes[..n], readOnly);
      PropIsExact(o, codes[n], readOnly);
      var p := Prop(o, codes[n], readOnly);
      PackedAppend(EntriesFor(handle, o, codes[..n], readOnly),
                   if p.Some? then [Entry(handle, codes[n], p.value.0, p.value.1)] else []);
    }
  }

  /** The codes a request asks for. */
  function Codes(propcode: nat): seq<nat> {
    if propcode == 0 || propcode == ALL then PROP_LIST else [propcode]
  }

  /** The selected handles of one format; None where the source raises, on a handle it does not know. */
  function OfFormat(objects: map<nat, Obj>, handles: seq<nat>, fmt: nat): Option<seq<nat>> {
    if fmt == 0 then
      Some(handles)
    else if handles == [] then
      Some([])
    else if handles[0] !in objects then
      None
    else
      match OfFormat(objects, handles[1..], fmt)
      case None => None
      case Some(rest) => Some(if objects[handles[0]].fmt == fmt then [handles[0]] + rest else rest)
  }

  lemma {:induction false} OfFormatSelects(objects: map<nat, Obj>, handles: seq<nat>, fmt: nat)
    requires fmt != 0
    ensures OfFormat(objects, handles, fmt).Some? <==> forall i :: 0 <= i < |handles| ==> handles[i] in objects
    ensures OfFormat(objects, handles, fmt).Some? ==>
              forall h :: h in OfFormat(objects, handles, fmt).value <==> h in handles && objects[h].fmt == fmt
    decreases |handles|
  {
    if handles != [] {
      OfFormatSelects(objects, handles[1..], fmt);
    }
  }

  /** The device's property list for the selected handles. */
  function PropListBytes(objects: map<nat, Obj>, handles: seq<nat>, codes: seq<nat>, readOnly: bool): bytes {
    var es := AllEntries(objects, handles, codes, readOnly);
    ToLE(|es| % 0x1_0000_0000, 4) + EntriesBytes(es)
  }

  /**
   * The host's parse of the device's list is exactly the selected objects' supported properties,
   * for any table of objects, any selection and any property code.
   */
  lemma PropListRoundTrip(objects: map<nat, Obj>, handles: seq<nat>, codes: seq<nat>, readOnly: bool)
    requires forall h :: h in objects ==> h <= ALL && Plain(objects[h])
    requires |AllEntries(objects, handles, codes, readOnly)| < 0x1_0000_0000
    ensures ParsePropList(PropListBytes(objects, handles, codes, readOnly))
         == Some(Expected(objects, handles, codes, readOnly))
  {
    hide ToLE, EntriesBytes, ParsePropList, AllEntries, Expected, PutAll;
    EntriesArePacked(objects, handles, codes, readOnly);
    ListRoundTrip(AllEntries(objects, handles, codes, readOnly));
    TableOfEntries(objects, handles, codes, readOnly);
  }

  lemma {:induction false} EntriesBytesAppend(a: seq<Entry>, b: seq<Entry>)
    ensures EntriesBytes(a + b) == EntriesBytes(a) + EntriesBytes(b)
  {
    hide EntryBytes;
    if a == [] {
      assert a + b == b;
    } else {
      EntriesBytesAppend(a[1..], b);
      assert (a + b)[1..] == a[1..] + b;
      Assoc(EntryBytes(a[0]), EntriesBytes(a[1..]), EntriesBytes(b));
    }
  }

  /** The properties of one object appended to the list. */
  method AppendObject(handle: nat, o: Obj, codes: seq<nat>, readOnly: bool, was: bytes, had: nat)
      returns (out: bytes, count: nat)
    ensures out == was + EntriesBytes(EntriesFor(handle, o, codes, readOnly))
    ensures count == had + |EntriesFor(handle, o, codes, readOnly)|
  {
    hide Prop, EntryBytes;
    out, count := was, had;
    assert was + [] == was;
    var j := 0;
    while j < |codes|
      invariant 0 <= j <= |codes|
      invariant out == was + EntriesBytes(EntriesFor(handle, o, codes[..j], readOnly))
      invariant count == had + |EntriesFor(handle, o, codes[..j], readOnly)|
    {
      ghost var front := EntriesFor(handle, o, codes[..j], readOnly);
      assert codes[..j + 1][..j] == codes[..j];
      var pv := Prop(o, codes[j], readOnly);
      if pv.Some? {
        var e := Entry(handle, codes[j], pv.value.0, pv.value.1);
        EntriesBytesAppend(front, [e]);
        EntriesOne(e);
        Assoc(was, EntriesBytes(front), EntryBytes(e));
        out := out + EntryBytes(e);
        count := count + 1;
      } else {
        assert front + [] == front;
      }
      j := j + 1;
    }
    assert codes[..|codes|] == codes;
  }

  /** The device's list, None where it raises. */
  method ObjectPropList(objects: map<nat, Obj>, handles: seq<nat>, fmt: nat, propcode: nat, readOnly: bool)
      returns (data: Option<bytes>)
    ensures data == match OfFormat(objects, handles, fmt)
                    case None => None
                    case Some(selected) => Some(PropListBytes(objects, selected, Codes(propcode), readOnly))
  {
    hide EntriesFor, EntriesBytes, OfFormat;
    var filtered := OfFormat(objects, handles, fmt);
    if filtered == None {
      return None;
    }
    var selected, codes := filtered.value, Codes(propcode);
    var out: bytes, count := [], 0;
    EntriesNone();
    var i := 0;
    while i < |selected|
      invariant 0 <= i <= |selected|
      invariant out == EntriesBytes(AllEntries(objects, selected[..i], codes, readOnly))
      invariant count == |AllEntries(objects, selected[..i], codes, readOnly)|
    {
      ghost var es := AllEntries(objects, selected[..i], codes, readOnly);
      assert selected[..i + 1][..i] == selected[..i];
      assert es + [] == es;
      var handle := selected[i];
      if handle in objects {
        EntriesBytesAppend(es, EntriesFor(handle, objects[handle], codes, readOnly));
        out, count := AppendObject(handle, objects[handle], codes, readOnly, out, count);
      }
      i := i + 1;
    }
    assert selected[..|selected|] == selected;
    data := Some(ToLE(count % 0x1_0000_0000, 4) + out);
  }

  lemma EntriesNone()
    ensures EntriesBytes([]) == []
  {
  }

  lemma EntriesOne(e: Entry)
    ensures EntriesBytes([e]) == EntryBytes(e)
  {
    hide EntryBytes;
    assert [e][1..] == [];
  }

  lemma DropDrop(b: bytes, i: nat, n: nat)
    ensures Drop(Drop(b, i), n) == Drop(b, i + n)
  {
  }

  lemma SliceDrop(b: bytes, i: nat, lo: nat, hi: nat)
    requires lo <= hi
    ensures Slice(Drop(b, i), lo, hi) == Slice(b, i + lo, i + hi)
  {
    var end := if i + hi <= |b| then i + hi else |b|;
    if i + lo <= end {
      assert b[i..][lo..end - i] == b[i + lo..end];
    }
  }

  /** The host's loop over the list, an offset moving through the data. */
  method ParsePropListLoop(data: bytes) returns (out: Option<Table>)
    ensures out == ParsePropList(data)
  {
    hide FromLE, DecodeValue, Drop, Slice, Put;
    var off: nat, count := 4, FromLE(Slice(data, 0, 4));
    var t: Table := map[];
    var k := 0;
    while k < count
      invariant 0 <= k <= count
      invariant ParseEntries(Drop(data, off), count - k, t) == ParsePropList(data)
    {
      SliceDrop(data, off, 0, 4);
      SliceDrop(data, off, 4, 6);
      SliceDrop(data, off, 6, 8);
      DropDrop(data, off, 8);
      var handle := FromLE(Slice(data, off, off + 4));
      var prop := FromLE(Slice(data, off + 4, off + 6));
      var dtype := FromLE(Slice(data, off + 6, off + 8));
      var v := DecodeValue(Drop(data, off + 8), dtype);
      if v == None {
        return None;
      }
      DropDrop(data, off, 8 + v.value.1);
      off := off + 8 + v.value.1;
      t := Put(t, handle, prop, v.value.0);
      k := k + 1;
    }
    out := Some(t);
  }

  // ---- the bytes ----

  /** An entry of the list byte by byte (the ObjectPropList dataset of MTP 1.1): handle, property,
      type, each with the low byte first, and then the value. */
  lemma EntryLayout(e: Entry)
    requires e.handle < 0x1_0000_0000 && e.prop < 0x1_0000 && e.dtype < 0x1_0000
    ensures var b := EntryBytes(e);
            && |b| >= 8 && b[8..] == ValueBytes(e.dtype, e.value)
            && At(b, 0) + 256 * At(b, 1) + 65536 * At(b, 2) + 16777216 * At(b, 3) == e.handle
            && At(b, 4) + 256 * At(b, 5) == e.prop && At(b, 6) + 256 * At(b, 7) == e.dtype
  {
    hide ValueBytes, ToLE, FromLE;
    var b := EntryBytes(e);
    assert Pow256(4) == 0x1_0000_0000 && Pow256(2) == 0x1_0000;
    LERoundTrip(e.handle, 4);
    LERoundTrip(e.prop, 2);
    LERoundTrip(e.dtype, 2);
    assert b[0..4] == ToLE(e.handle, 4) && b[4..6] == ToLE(e.prop, 2) && b[6..8] == ToLE(e.dtype, 2);
    FromLE4(b[0..4]);
    FromLE2(b[4..6]);
    FromLE2(b[6..8]);
  }

  /** The list starts with the number of its entries, in 32 bits. */
  lemma CountLeads(objects: map<nat, Obj>, handles: seq<nat>, codes: seq<nat>, readOnly: bool)
    ensures var b := PropListBytes(objects, handles, codes, readOnly);
            && |b| >= 4
            && At(b, 0) + 256 * At(b, 1) + 65536 * At(b, 2) + 16777216 * At(b, 3)
               == |AllEntries(objects, handles, codes, readOnly)| % 0x1_0000_0000
  {
    hide AllEntries, EntriesBytes, ToLE, FromLE;
    var b := PropListBytes(objects, handles, codes, readOnly);
    var n := |AllEntries(objects, handles, codes, readOnly)| % 0x1_0000_0000;
    assert Pow256(4) == 0x1_0000_0000;
    LERoundTrip(n, 4);
    assert b[0..4] == ToLE(n, 4);
    FromLE4(b[0..4]);
  }

  /** A string is its number of characters with the closing NUL, then UTF-16 with the low byte first; the empty one is
      a single 0. */
  lemma KnownStrings()
    ensures PtpStr([]) == [0]
    ensures PtpStr([0x41]) == [2, 0x41, 0, 0, 0]
  {
    hide Utf16, UnitBytes;
    PlainUnits(0x41, []);
    OneUnit(0, []);
    OneUnit(0x41, [0]);
    assert [0x41] + [] == [0x41] && [0] + [] == [0] && [0x41] + [0] == [0x41, 0];
  }

  /** Two characters, one of them beyond a byte. */
  lemma KnownPrice()
    ensures PtpStr([0x20AC, 0x31]) == [3, 0xAC, 0x20, 0x31, 0, 0, 0]
  {
    hide Utf16, UnitBytes;
    PlainUnits(0x31, []);
    PlainUnits(0x20AC, [0x31]);
    OneUnit(0, []);
    OneUnit(0x31, [0]);
    OneUnit(0x20AC, [0x31, 0]);
    assert [0x31] + [] == [0x31] && [0x20AC] + [0x31] == [0x20AC, 0x31];
    assert [0] + [] == [0] && [0x31] + [0] == [0x31, 0];
    assert [0x20AC] + [0x31, 0] == [0x20AC, 0x31, 0] && [0x20AC, 0x31] + [0] == [0x20AC, 0x31, 0];
  }

  lemma PlainUnits(u: nat, rest: seq<nat>)
    requires u < 0x1_0000
    ensures Utf16([u] + rest) == [u] + Utf16(rest) && Utf16([]) == [] && UnitBytes([]) == []
  {
    assert ([u] + rest)[1..] == rest;
  }

  /** A character past 0xFFFF is a high and a low surrogate that hold ten bits each of what is above. */
  lemma SurrogatePair(c: nat)
    requires 0x1_0000 <= c < 0x11_0000
    ensures |Utf16([c])| == 2
    ensures var high, low := Utf16([c])[0], Utf16([c])[1];
            && 0xD800 <= high < 0xDC00 <= low < 0xE000
            && c == 0x1_0000 + 1024 * (high - 0xD800) + (low - 0xDC00)
  {
    assert [c][1..] == [] && Utf16([]) == [];
  }

  /** So a face is four bytes and still one character of the count. */
  lemma KnownPair()
    ensures PtpStr([0x1_F600]) == [2, 0x3D, 0xD8, 0x00, 0xDE, 0, 0]
  {
    hide Utf16, UnitBytes;
    SurrogatePair(0x1_F600);
    PlainUnits(0, []);
    OneUnit(0, []);
    OneUnit(0xDE00, [0]);
    OneUnit(0xD83D, [0xDE00, 0]);
    assert Utf16([0x1_F600]) == [0xD83D, 0xDE00];
    assert [0] + [] == [0] && [0xDE00] + [0] == [0xDE00, 0];
    assert [0xD83D, 0xDE00] + [0] == [0xD83D, 0xDE00, 0] && [0xD83D] + [0xDE00, 0] == [0xD83D, 0xDE00, 0];
  }

  lemma OneUnit(u: nat, rest: seq<nat>)
    requires u < 0x1_0000
    ensures UnitBytes([u] + rest) == [u % 256, u / 256] + UnitBytes(rest)
  {
    assert ([u] + rest)[1..] == rest;
    assert ToLE(u / 256, 1) == [u / 256] + [];
    assert ToLE(u, 2) == [u % 256, u / 256];
  }

  /** What each of the nine properties is sent as (the object properties of MTP 1.1): 16-, 32- and 64-bit
      numbers, a 128-bit identifier, strings. */
  lemma PropertyTypes(o: Obj, readOnly: bool)
    ensures Prop(o, 0xDC01, readOnly).value.0 == 0x0006 && Prop(o, 0xDC02, readOnly).value.0 == 0x0004
    ensures Prop(o, 0xDC03, readOnly).value.0 == 0x0004 && Prop(o, 0xDC04, readOnly).value.0 == 0x0008
    ensures Prop(o, 0xDC07, readOnly).value.0 == 0xFFFF && Prop(o, 0xDC09, readOnly).value.0 == 0xFFFF
    ensures Prop(o, 0xDC0B, readOnly).value.0 == 0x0006 && Prop(o, 0xDC41, readOnly).value.0 == 0x000A
    ensures Prop(o, 0xDC44, readOnly).value.0 == 0xFFFF
    ensures TypeSize(0x0004) == 2 && TypeSize(0x0006) == 4 && TypeSize(0x0008) == 8 && TypeSize(0x000A) == 16
  {
  }

  /** A request for property 0 or 0xFFFFFFFF is one for all nine, in this order; any other for that one. */
  lemma PropertiesAsked(propcode: nat)
    ensures propcode == 0 || propcode == 0xFFFF_FFFF ==>
              Codes(propcode) == [0xDC01, 0xDC02, 0xDC03, 0xDC04, 0xDC07, 0xDC09, 0xDC0B, 0xDC41, 0xDC44]
    ensures propcode != 0 && propcode != 0xFFFF_FFFF ==> Codes(propcode) == [propcode]
  {
  }
}
