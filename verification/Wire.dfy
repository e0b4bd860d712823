/**
 The JSON shape of features and addresses: written by capa-x/src/result_document/feature.rs and address.rs, read by
 capa-x/src/freeze.rs. What is written and then read is what was there.
 */
module Wire {
  import opened Base
  import opened Features
  import Hex

  datatype Json =
    | JNull
    | JBool(b: bool)
    | JInt(i: int)
    | JFloat(f: real)
    | JString(s: string)
    | JArray(items: seq<Json>)
    | JObject(fields: map<string, Json>)
  {
    function AsU64(): Option<u64> {
      if JInt? && 0 <= i < 0x1_0000_0000_0000_0000 then Some(i) else None
    }

    function AsI64(): Option<i64> {
      if JInt? && -0x8000_0000_0000_0000 <= i < 0x8000_0000_0000_0000 then Some(i) else None
    }

    function AsF64(): Option<real> {
      if JFloat? then Some(f) else None
    }
  }

  /** The double that a JSON parser makes of an integer too wide for 64 bits. Nothing is known about it. */
  const NEAREST_DOUBLE: int -> real

  predicate FitsReader(i: int) {
    -0x8000_0000_0000_0000 <= i < 0x1_0000_0000_0000_0000
  }

  /** What is left of a value once it has been printed as text and parsed again: wide integers come back as doubles. */
  function ThroughText(j: Json): Json {
    match j
    case JInt(i) => if FitsReader(i) then j else JFloat(NEAREST_DOUBLE(i))
    case JArray(items) => JArray(seq(|items|, k requires 0 <= k < |items| => ThroughText(items[k])))
    case JObject(fields) => JObject(map key | key in fields :: ThroughText(fields[key]))
    case _ => j
  }

  /** A tagged object: its `type`, and its other fields. */
  datatype Raw = Raw(kind: string, rest: map<string, Json>) {
    function Printed(): Raw {
      Raw(kind, map key | key in rest :: ThroughText(rest[key]))
    }
  }

  datatype FreezeError = Invalid

  function Require<T>(o: Option<T>): Outcome<T, FreezeError> {
    if o.Some? then Ok(o.value) else Err(Invalid)
  }

  // ---- addresses ----

  datatype RawAddress = RawAddress(kind: string, value: Json)

  function FromAddress(a: Address): RawAddress {
    match a
    case Absolute(v) => RawAddress("absolute", JInt(v))
    case Relative(v) => RawAddress("relative", JInt(v))
    case File(v) => RawAddress("file", JInt(v))
    case DnToken(v) => RawAddress("dn token", JInt(v))
    case DnTokenOffset(token, offset) => RawAddress("dn token offset", JArray([JInt(token), JInt(offset)]))
    case Process(ppid, pid) => RawAddress("process", JArray([JInt(ppid), JInt(pid)]))
    case Thread(ppid, pid, tid) => RawAddress("thread", JArray([JInt(ppid), JInt(pid), JInt(tid)]))
    case Call(ppid, pid, tid, id) => RawAddress("call", JArray([JInt(ppid), JInt(pid), JInt(tid), JInt(id)]))
    case NoAddress => RawAddress("no address", JNull)
  }

  function AsU32(v: Json): Outcome<u32, FreezeError> {
    var n :- Require(v.AsU64());
    if n < 0x1_0000_0000 then Ok(n) else Err(Invalid)
  }

  /** The items as 32-bit integers, or the failure of the first that is not one. */
  function AllU32(items: seq<Json>): Outcome<seq<u32>, FreezeError> {
    if items == [] then Ok([])
    else
      var init :- AllU32(items[..|items| - 1]);
      var last :- AsU32(items[|items| - 1]);
      Ok(init + [last])
  }

  function U32Tuple(v: Json, n: nat): (r: Outcome<seq<u32>, FreezeError>)
    ensures r.Ok? ==> |r.value| == n
  {
    if v.JArray? && |v.items| == n then AllU32Length(v.items); AllU32(v.items) else Err(Invalid)
  }

  lemma {:induction false} AllU32Length(items: seq<Json>)
    ensures AllU32(items).Ok? ==> |AllU32(items).value| == |items|
  {
    if items != [] {
      AllU32Length(items[..|items| - 1]);
    }
  }

  lemma {:induction false} AllU32Prefix(items: seq<Json>, n: nat)
    requires n <= |items| && AllU32(items).Ok?
    ensures AllU32(items[..n]).Ok?
  {
    if n < |items| {
      assert items[..|items| - 1][..n] == items[..n];
      AllU32Prefix(items[..|items| - 1], n);
    } else {
      assert items[..n] == items;
    }
  }

  /** `as_u32_tuple`: fill an array of the wanted length, element by element. */
  method ReadU32Tuple(v: Json, n: nat) returns (r: Outcome<seq<u32>, FreezeError>)
    ensures r == U32Tuple(v, n)
  {
    if !(v.JArray? && |v.items| == n) { return Err(Invalid); }
    var out := new u32[n](_ => 0);
    for i := 0 to n
      invariant AllU32(v.items[..i]) == Ok(out[..i])
    {
      var item := AsU32(v.items[i]);
      assert v.items[..i + 1][..i] == v.items[..i] && v.items[..i + 1][i] == v.items[i];
      if item.Err? {
        assert AllU32(v.items[..i + 1]).Err?;
        if AllU32(v.items).Ok? {
          AllU32Prefix(v.items, i + 1);
        }
        assert AllU32(v.items).error.Invalid?;
        return Err(Invalid);
      }
      ghost var before := out[..i];
      out[i] := item.value;
      assert out[..i + 1] == before + [item.value];
    }
    assert v.items[..n] == v.items;
    r := Ok(out[..]);
    assert out[..n] == out[..];
  }

  datatype AddressKind =
    | KAbsolute | KRelative | KFile | KDnToken | KDnTokenOffset | KProcess | KThread | KCall | KNoAddress

  function AddressKindOf(kind: string): Option<AddressKind> {
    if kind == "absolute" then Some(KAbsolute) else if kind == "relative" then Some(KRelative)
    else if kind == "file" then Some(KFile) else if kind == "dn token" then Some(KDnToken)
    else if kind == "dn token offset" then Some(KDnTokenOffset) else if kind == "process" then Some(KProcess)
    else if kind == "thread" then Some(KThread) else if kind == "call" then Some(KCall)
    else if kind == "no address" then Some(KNoAddress) else None
  }

  function ToAddress(raw: RawAddress): Outcome<Address, FreezeError> {
    var kind :- Require(AddressKindOf(raw.kind));
    match kind
    case KAbsolute => var v :- Require(raw.value.AsU64()); Ok(Absolute(v))
    case KRelative => var v :- Require(raw.value.AsU64()); Ok(Relative(v))
    case KFile => var v :- Require(raw.value.AsU64()); Ok(File(v))
    case KDnToken => var v :- AsU32(raw.value); Ok(DnToken(v))
    case KDnTokenOffset => var t :- U32Tuple(raw.value, 2); Ok(DnTokenOffset(t[0], t[1]))
    case KProcess => var t :- U32Tuple(raw.value, 2); Ok(Process(t[0], t[1]))
    case KThread => var t :- U32Tuple(raw.value, 3); Ok(Thread(t[0], t[1], t[2]))
    case KCall =>
      if !raw.value.JArray? || |raw.value.items| != 4 then Err(Invalid)
      else
        var ppid :- AsU32(raw.value.items[0]);
        var pid :- AsU32(raw.value.items[1]);
        var tid :- AsU32(raw.value.items[2]);
        var id :- Require(raw.value.items[3].AsU64());
        Ok(Call(ppid, pid, tid, id))
    case KNoAddress => Ok(NoAddress)
  }

  lemma AddressKinds()
    ensures AddressKindOf("absolute") == Some(KAbsolute) && AddressKindOf("relative") == Some(KRelative)
    ensures AddressKindOf("file") == Some(KFile) && AddressKindOf("dn token") == Some(KDnToken)
    ensures AddressKindOf("dn token offset") == Some(KDnTokenOffset) && AddressKindOf("process") == Some(KProcess)
    ensures AddressKindOf("thread") == Some(KThread) && AddressKindOf("call") == Some(KCall)
    ensures AddressKindOf("no address") == Some(KNoAddress)
  {
    assert "absolute"[0] == 'a' && "relative"[0] == 'r' && "file"[0] == 'f' && "dn token"[0] == 'd' && "call"[0] == 'c';
  }

  lemma AllU32Of(items: seq<Json>, values: seq<u32>)
    requires |items| == |values| && forall k | 0 <= k < |items| :: items[k] == JInt(values[k])
    ensures AllU32(items) == Ok(values)
  {
    if items != [] {
      AllU32Of(items[..|items| - 1], values[..|items| - 1]);
      assert values == values[..|items| - 1] + [values[|items| - 1]];
    }
  }

  lemma AddressTextStays(a: Address)
    ensures ThroughText(FromAddress(a).value) == FromAddress(a).value
  {
    var value := FromAddress(a).value;
    if value.JArray? {
      assert ThroughText(value).items == value.items;
    }
  }

  /** The address that is read when what was written of `a` has gone through text. */
  function AddressBack(a: Address): Outcome<Address, FreezeError> {
    ToAddress(RawAddress(FromAddress(a).kind, ThroughText(FromAddress(a).value)))
  }

  lemma TupleRoundTrip(a: Address)
    requires a.DnTokenOffset? || a.Process? || a.Thread?
    ensures AddressBack(a) == Ok(a)
  {
    AddressKinds();
    AddressTextStays(a);
    match a
    case DnTokenOffset(token, offset) => AllU32Of([JInt(token), JInt(offset)], [token, offset]);
    case Process(ppid, pid) => AllU32Of([JInt(ppid), JInt(pid)], [ppid, pid]);
    case Thread(ppid, pid, tid) => AllU32Of([JInt(ppid), JInt(pid), JInt(tid)], [ppid, pid, tid]);
  }

  /** Reading what was written gives the address back, for every address. */
  lemma AddressRoundTrip(a: Address)
    ensures AddressBack(a) == Ok(a)
  {
    if a.DnTokenOffset? || a.Process? || a.Thread? {
      TupleRoundTrip(a);
    } else {
      AddressKinds();
      AddressTextStays(a);
    }
  }

  lemma {:induction false} AllU32Spells(items: seq<Json>)
    requires AllU32(items).Ok?
    ensures |AllU32(items).value| == |items|
    ensures forall k | 0 <= k < |items| :: items[k] == JInt(AllU32(items).value[k])
  {
    if items != [] {
      AllU32Spells(items[..|items| - 1]);
    }
  }

  /** The reader accepts nothing but what the writer writes, except that it ignores a value given with no address. */
  lemma AddressReadsIff(raw: RawAddress, a: Address)
    ensures ToAddress(raw) == Ok(a) <==> raw == FromAddress(a) || (a.NoAddress? && raw.kind == "no address")
  {
    AddressKinds();
    if raw == FromAddress(a) {
      AddressTextStays(a);
      AddressRoundTrip(a);
    } else if ToAddress(raw) == Ok(a) {
      ReadIsWritten(raw, AddressKindOf(raw.kind).value, a);
    }
  }

  lemma TupleSpells(v: Json, n: nat)
    requires U32Tuple(v, n).Ok?
    ensures v.JArray? && |v.items| == n && forall k | 0 <= k < n :: v.items[k] == JInt(U32Tuple(v, n).value[k])
  {
    AllU32Spells(v.items);
  }

  lemma ReadIsWritten(raw: RawAddress, kind: AddressKind, a: Address)
    requires AddressKindOf(raw.kind) == Some(kind) && ToAddress(raw) == Ok(a)
    ensures raw.kind == FromAddress(a).kind && (!kind.KNoAddress? ==> raw.value == FromAddress(a).value)
  {
    match kind
    case KDnTokenOffset => TupleSpells(raw.value, 2); assert raw.value.items == FromAddress(a).value.items;
    case KProcess => TupleSpells(raw.value, 2); assert raw.value.items == FromAddress(a).value.items;
    case KThread => TupleSpells(raw.value, 3); assert raw.value.items == FromAddress(a).value.items;
    case KCall => assert raw.value.items == FromAddress(a).value.items;
    case _ =>
  }

  // ---- features ----

  datatype RdNumber = RdInt(i: int) | RdFloat(f: real)

  datatype RdFeature =
    | RdOs(os: string, description: Option<string>)
    | RdArch(arch: string, description: Option<string>)
    | RdFormat(format: string, description: Option<string>)
    | RdMatch(match_: string, description: Option<string>)
    | RdCharacteristic(characteristic: string, description: Option<string>)
    | RdExport(export_: string, description: Option<string>)
    | RdImport(import_: string, description: Option<string>)
    | RdSection(section: string, description: Option<string>)
    | RdFunctionName(functionName: string, description: Option<string>)
    | RdSubstring(substring: string, description: Option<string>)
    | RdRegex(regex: string, description: Option<string>)
    | RdString(text: string, description: Option<string>)
    | RdClass(class_: string, description: Option<string>)
    | RdNamespace(namespace: string, description: Option<string>)
    | RdBasicBlock(description: Option<string>)
    | RdApi(api: string, description: Option<string>)
    | RdProperty(access: Option<string>, property: string, description: Option<string>)
    | RdNumeric(number: RdNumber, description: Option<string>)
    | RdBytes(bytes: string, description: Option<string>)
    | RdOffset(offset: i64, description: Option<string>)
    | RdMnemonic(mnemonic: string, description: Option<string>)
    | RdOperandNumber(index: i64, operandNumber: RdNumber, description: Option<string>)
    | RdOperandOffset(index: i64, operandOffset: i64, description: Option<string>)

  function RdOfNumber(n: NumberValue): RdNumber {
    match n
    case Int(i) => RdInt(i)
    case Float(f) => RdFloat(f)
  }

  function AccessName(a: Access): string {
    if a.Read? then "read" else "write"
  }

  function ParseAccess(s: string): Option<Access> {
    if s == "read" then Some(Read) else if s == "write" then Some(Write) else None
  }

  /** `from_engine`: COM leaves are expanded before matching, so they cannot be rendered. */
  function FromEngine(f: Feature, d: Option<string>): Option<RdFeature> {
    match f
    case Api(v) => Some(RdApi(v, d))
    case String(Plain(v)) => Some(RdString(v, d))
    case String(Substring(v)) => Some(RdSubstring(v, d))
    case String(Regex(v)) => Some(RdRegex(v, d))
    case Bytes(v) => Some(RdBytes(Hex.Encode(v), d))
    case Number(v) => Some(RdNumeric(RdOfNumber(v), d))
    case Offset(v) => Some(RdOffset(v, d))
    case OperandNumber(index, v) => Some(RdOperandNumber(index, RdOfNumber(v), d))
    case OperandOffset(index, v) => Some(RdOperandOffset(index, v, d))
    case Mnemonic(v) => Some(RdMnemonic(v, d))
    case Characteristic(v) => Some(RdCharacteristic(v, d))
    case Section(v) => Some(RdSection(v, d))
    case Import(v) => Some(RdImport(v, d))
    case Export(v) => Some(RdExport(v, d))
    case FunctionName(v) => Some(RdFunctionName(v, d))
    case Class(v) => Some(RdClass(v, d))
    case Namespace(v) => Some(RdNamespace(v, d))
    case Property(name, access) =>
      Some(RdProperty(if access.Some? then Some(AccessName(access.value)) else None, name, d))
    case Os(v) => Some(RdOs(v, d))
    case Arch(v) => Some(RdArch(v, d))
    case Format(v) => Some(RdFormat(v, d))
    case MatchedRule(v) => Some(RdMatch(v, d))
    case BasicBlock => Some(RdBasicBlock(d))
    case Com(_, _) => None
  }

  function NumberJson(n: RdNumber): Json {
    match n
    case RdInt(i) => JInt(i)
    case RdFloat(f) => JFloat(f)
  }

  function Described(fields: map<string, Json>, d: Option<string>): map<string, Json> {
    if d.Some? then fields["description" := JString(d.value)] else fields
  }

  /** The fields of the printed object, its `type` aside. */
  function Fields(rd: RdFeature): map<string, Json> {
    match rd
    case RdOs(v, _) => map["os" := JString(v)]
    case RdArch(v, _) => map["arch" := JString(v)]
    case RdFormat(v, _) => map["format" := JString(v)]
    case RdMatch(v, _) => map["match" := JString(v)]
    case RdCharacteristic(v, _) => map["characteristic" := JString(v)]
    case RdExport(v, _) => map["export" := JString(v)]
    case RdImport(v, _) => map["import_" := JString(v)]
    case RdSection(v, _) => map["section" := JString(v)]
    case RdFunctionName(v, _) => map["function_name" := JString(v)]
    case RdSubstring(v, _) => map["substring" := JString(v)]
    case RdRegex(v, _) => map["regex" := JString(v)]
    case RdString(v, _) => map["string" := JString(v)]
    case RdClass(v, _) => map["class_" := JString(v)]
    case RdNamespace(v, _) => map["namespace" := JString(v)]
    case RdBasicBlock(_) => map[]
    case RdApi(v, _) => map["api" := JString(v)]
    case RdProperty(access, name, _) =>
      if access.Some? then map["access" := JString(access.value), "property" := JString(name)]
          else map["property" := JString(name)]
    case RdNumeric(n, _) => map["number" := NumberJson(n)]
    case RdBytes(v, _) => map["bytes" := JString(v)]
    case RdOffset(v, _) => map["offset" := JInt(v)]
    case RdMnemonic(v, _) => map["mnemonic" := JString(v)]
    case RdOperandNumber(index, n, _) => map["index" := JInt(index), "operand_number" := NumberJson(n)]
    case RdOperandOffset(index, v, _) => map["index" := JInt(index), "operand_offset" := JInt(v)]
  }

  datatype Kind =
    | KOs | KArch | KFormat | KMatch | KCharacteristic | KExport | KImport | KSection | KFunctionName
    | KSubstring | KRegex
    | KString | KClass | KNamespace | KBasicBlock | KApi | KProperty | KNumber | KBytes | KOffset | KMnemonic
    | KOperandNumber | KOperandOffset

  function KindOf(rd: RdFeature): Kind {
    match rd
    case RdOs(_, _) => KOs
    case RdArch(_, _) => KArch
    case RdFormat(_, _) => KFormat
    case RdMatch(_, _) => KMatch
    case RdCharacteristic(_, _) => KCharacteristic
    case RdExport(_, _) => KExport
    case RdImport(_, _) => KImport
    case RdSection(_, _) => KSection
    case RdFunctionName(_, _) => KFunctionName
    case RdSubstring(_, _) => KSubstring
    case RdRegex(_, _) => KRegex
    case RdString(_, _) => KString
    case RdClass(_, _) => KClass
    case RdNamespace(_, _) => KNamespace
    case RdBasicBlock(_) => KBasicBlock
    case RdApi(_, _) => KApi
    case RdProperty(_, _, _) => KProperty
    case RdNumeric(_, _) => KNumber
    case RdBytes(_, _) => KBytes
    case RdOffset(_, _) => KOffset
    case RdMnemonic(_, _) => KMnemonic
    case RdOperandNumber(_, _, _) => KOperandNumber
    case RdOperandOffset(_, _, _) => KOperandOffset
  }

  function TypeName(k: Kind): string {
    match k
    case KOs => "os"
    case KArch => "arch"
    case KFormat => "format"
    case KMatch => "match"
    case KCharacteristic => "characteristic"
    case KExport => "export"
    case KImport => "import"
    case KSection => "section"
    case KFunctionName => "function name"
    case KSubstring => "substring"
    case KRegex => "regex"
    case KString => "string"
    case KClass => "class"
    case KNamespace => "namespace"
    case KBasicBlock => "basic block"
    case KApi => "api"
    case KProperty => "property"
    case KNumber => "number"
    case KBytes => "bytes"
    case KOffset => "offset"
    case KMnemonic => "mnemonic"
    case KOperandNumber => "operand number"
    case KOperandOffset => "operand offset"
  }

  /** The kind that a `type` names. */
  function KindNamed(kind: string): Option<Kind> {
    if kind == "os" then Some(KOs)
    else if kind == "arch" then Some(KArch)
    else if kind == "format" then Some(KFormat)
    else if kind == "match" then Some(KMatch)
    else if kind == "characteristic" then Some(KCharacteristic)
    else if kind == "export" then Some(KExport)
    else if kind == "import" then Some(KImport)
    else if kind == "section" then Some(KSection)
    else if kind == "function name" then Some(KFunctionName)
    else if kind == "substring" then Some(KSubstring)
    else if kind == "regex" then Some(KRegex)
    else LaterKindNamed(kind)
  }

  function LaterKindNamed(kind: string): Option<Kind> {
    if kind == "string" then Some(KString)
    else if kind == "class" then Some(KClass)
    else if kind == "namespace" then Some(KNamespace)
    else if kind == "basic block" then Some(KBasicBlock)
    else if kind == "api" then Some(KApi)
    else if kind == "property" then Some(KProperty)
    else if kind == "number" then Some(KNumber)
    else if kind == "bytes" then Some(KBytes)
    else if kind == "offset" then Some(KOffset)
    else if kind == "mnemonic" then Some(KMnemonic)
    else if kind == "operand number" then Some(KOperandNumber)
    else if kind == "operand offset" then Some(KOperandOffset)
    else None
  }

  function ToRaw(rd: RdFeature): Raw {
    Raw(TypeName(KindOf(rd)), Described(Fields(rd), rd.description))
  }

  // ---- the reader ----

  function Field(raw: Raw, key: string): Outcome<Json, FreezeError> {
    if key in raw.rest then Ok(raw.rest[key]) else Err(Invalid)
  }

  function StrField(raw: Raw, key: string): Outcome<string, FreezeError> {
    var v :- Field(raw, key);
    if v.JString? then Ok(v.s) else Err(Invalid)
  }

  function IntField(raw: Raw, key: string): Outcome<int, FreezeError> {
    var v :- Field(raw, key);
    if v.AsI64().Some? then Ok(v.AsI64().value) else if v.AsU64().Some? then Ok(v.AsU64().value) else Err(Invalid)
  }

  /** A whole double is the integer it equals. */
  function Canonical(f: real): NumberValue {
    if f.Floor as real == f then Int(f.Floor) else Float(f)
  }

  function NumberField(raw: Raw, key: string): Outcome<NumberValue, FreezeError> {
    var v :- Field(raw, key);
    if v.AsI64().Some? then Ok(Int(v.AsI64().value))
    else if v.AsU64().Some? then Ok(Int(v.AsU64().value))
    else if v.AsF64().Some? then Ok(Canonical(v.AsF64().value))
    else Err(Invalid)
  }

  function IntOffset(raw: Raw, key: string): Outcome<i64, FreezeError> {
    var n :- IntField(raw, key);
    if -0x8000_0000_0000_0000 <= n < 0x8000_0000_0000_0000 then Ok(n) else Err(Invalid)
  }

  const MAX_OPERAND_INDEX: u8 := 4

  function OperandIndex(raw: Raw): Outcome<u8, FreezeError> {
    var n :- IntField(raw, "index");
    if 0 <= n <= MAX_OPERAND_INDEX then Ok(n) else Err(Invalid)
  }

  predicate DescriptionIsValid(raw: Raw) {
    "description" in raw.rest ==> raw.rest["description"].JNull? || raw.rest["description"].JString?
  }

  /** Whether a regex engine accepts the pattern. Nothing is known about it. */
  const PATTERN_COMPILES: (string, bool) -> bool

  /** The pattern between the slashes, and whether case is ignored. */
  function Undelimited(raw: string): Option<(string, bool)> {
    if raw == "" || raw[0] != '/' then None
    else
      var s := raw[1..];
      if |s| >= 2 && s[|s| - 2..] == "/i" then Some((s[..|s| - 2], true))
      else if |s| >= 1 && s[|s| - 1] == '/' then Some((s[..|s| - 1], false))
      else None
  }

  predicate RegexCompiles(raw: string) {
    var pattern := Undelimited(raw);
    pattern.Some? && PATTERN_COMPILES(pattern.value.0, pattern.value.1)
  }

  function ReadAccess(raw: Raw): Outcome<Option<Access>, FreezeError> {
    if "access" !in raw.rest || raw.rest["access"].JNull? then Ok(None)
    else if raw.rest["access"].JString?
    && ParseAccess(raw.rest["access"].s).Some? then Ok(ParseAccess(raw.rest["access"].s))
    else Err(Invalid)
  }

  function ToFeature(raw: Raw): Outcome<Feature, FreezeError> {
    if !DescriptionIsValid(raw) then Err(Invalid)
    else
      var kind :- Require(KindNamed(raw.kind));
      ToFeatureOf(kind, raw)
  }

  function ToFeatureOf(kind: Kind, raw: Raw): Outcome<Feature, FreezeError> {
    match kind
    case KOs => var v :- StrField(raw, "os"); Ok(Os(v))
    case KArch => var v :- StrField(raw, "arch"); Ok(Arch(v))
    case KFormat => var v :- StrField(raw, "format"); Ok(Format(v))
    case KMatch => var v :- StrField(raw, "match"); Ok(MatchedRule(v))
    case KCharacteristic => var v :- StrField(raw, "characteristic"); Ok(Characteristic(v))
    case KExport => var v :- StrField(raw, "export"); Ok(Export(v))
    case KImport => var v :- StrField(raw, "import_"); Ok(Import(v))
    case KSection => var v :- StrField(raw, "section"); Ok(Section(v))
    case KFunctionName => var v :- StrField(raw, "function_name"); Ok(FunctionName(v))
    case KSubstring => var v :- StrField(raw, "substring"); Ok(String(Substring(v)))
    case KRegex =>
      var v :- StrField(raw, "regex");
      if RegexCompiles(v) then Ok(String(Regex(v))) else Err(Invalid)
    case KString => var v :- StrField(raw, "string"); Ok(String(Plain(v)))
    case KClass => var v :- StrField(raw, "class_"); Ok(Class(v))
    case KNamespace => var v :- StrField(raw, "namespace"); Ok(Namespace(v))
    case KBasicBlock => Ok(BasicBlock)
    case KApi => var v :- StrField(raw, "api"); Ok(Api(v))
    case KProperty =>
      var name :- StrField(raw, "property");
      var access :- ReadAccess(raw);
      Ok(Property(name, access))
    case KNumber => var n :- NumberField(raw, "number"); Ok(Number(n))
    case KBytes =>
      var v :- StrField(raw, "bytes");
      var bytes :- Require(Hex.Decode(v));
      Ok(Bytes(bytes))
    case KOffset => var n :- IntOffset(raw, "offset"); Ok(Offset(n))
    case KMnemonic => var v :- StrField(raw, "mnemonic"); Ok(Mnemonic(v))
    case KOperandNumber =>
      var index :- OperandIndex(raw);
      var n :- NumberField(raw, "operand_number");
      Ok(OperandNumber(index, n))
    case KOperandOffset =>
      var index :- OperandIndex(raw);
      var n :- IntOffset(raw, "operand_offset");
      Ok(OperandOffset(index, n))
  }

  // ---- the round trip ----

  /** Numbers are kept in the form that their equality uses. */
  predicate NumberIsCanonical(n: NumberValue) {
    n.Float? ==> n.f.Floor as real != n.f
  }

  predicate FeatureIsCanonical(f: Feature) {
    && (f.Number? ==> NumberIsCanonical(f.number))
    && (f.OperandNumber? ==> NumberIsCanonical(f.number))
  }

  /** An integer survives if it fits 64 bits or if a double holds it exactly. */
  predicate NumberSurvives(n: NumberValue) {
    n.Int? ==> FitsReader(n.i) || NEAREST_DOUBLE(n.i) == n.i as real
  }

  /** What the reader can give back, as a caller can tell beforehand. */
  predicate Survives(f: Feature) {
    match f
    case String(Regex(v)) => RegexCompiles(v)
    case Number(n) => NumberSurvives(n)
    case OperandNumber(index, n) => index <= 4 && NumberSurvives(n)
    case OperandOffset(index, _) => index <= 4
    case _ => true
  }

  /** What has been read back of a written feature. */
  function ReadBack(rd: RdFeature): Outcome<Feature, FreezeError> {
    ToFeature(ToRaw(rd).Printed())
  }

  /** The kinds that the reader asks for first. */
  predicate IsEarly(k: Kind) {
    || k.KOs? || k.KArch? || k.KFormat? || k.KMatch? || k.KCharacteristic? || k.KExport? || k.KImport?
    || k.KSection? || k.KFunctionName? || k.KSubstring? || k.KRegex?
  }

  lemma EarlyKindsAreNamed(k: Kind)
    requires IsEarly(k)
    ensures KindNamed(TypeName(k)) == Some(k)
  {
    assert "match"[0] == 'm' && "regex"[0] == 'r' && "format"[0] == 'f' && "export"[0] == 'e' && "import"[0] == 'i';
  }

  lemma LaterKindsAreNamed(k: Kind)
    requires !IsEarly(k)
    ensures LaterKindNamed(TypeName(k)) == Some(k)
  {
    assert "string"[0] == 's' && "number"[0] == 'n' && "offset"[0] == 'o' && "class"[0] == 'c' && "bytes"[0] == 'b';
    assert "property"[0] == 'p' && "mnemonic"[0] == 'm' && "operand number"[8] == 'n' && "operand offset"[8] == 'o';
  }

  lemma LaterKindsAreNotEarly(k: Kind)
    requires !IsEarly(k)
    ensures KindNamed(TypeName(k)) == LaterKindNamed(TypeName(k))
  {
    assert "match"[0] == 'm' && "regex"[0] == 'r' && "class"[0] == 'c' && "bytes"[0] == 'b';
    assert "format"[0] == 'f' && "export"[0] == 'e' && "import"[0] == 'i';
    assert "string"[0] == 's' && "number"[0] == 'n' && "offset"[0] == 'o';
    assert "substring"[0] == 's' && "namespace"[0] == 'n' && "characteristic"[8] == 'r';
    assert "operand number"[8] == 'n' && "operand offset"[8] == 'o';
  }

  /** The writer's and the reader's spellings of the kinds agree. */
  lemma KindsAreNamed(k: Kind)
    ensures KindNamed(TypeName(k)) == Some(k)
  {
    if IsEarly(k) {
      EarlyKindsAreNamed(k);
    } else {
      LaterKindsAreNamed(k);
      LaterKindsAreNotEarly(k);
    }
  }

  lemma FieldNamesDiffer()
    ensures "access" != "property" && "index" != "operand_number" && "index" != "operand_offset"
  {
  }

  /** A description is written next to the feature exactly if there is one. */
  lemma DescriptionIsWritten(f: Feature, d: Option<string>)
    requires !f.Com?
    ensures var rest := ToRaw(FromEngine(f, d).value).rest;
            ("description" in rest <==> d.Some?) && (d.Some? ==> rest["description"] == JString(d.value))
  {
  }

  /** A field comes back as it was printed, whether there is a description or not. */
  lemma FieldBack(rd: RdFeature, key: string)
    requires key != "description" && key in Fields(rd)
    ensures Field(ToRaw(rd).Printed(), key) == Ok(ThroughText(Fields(rd)[key]))
  {
  }

  lemma StrFieldBack(rd: RdFeature, key: string, v: string)
    requires key != "description" && key in Fields(rd) && Fields(rd)[key] == JString(v)
    ensures StrField(ToRaw(rd).Printed(), key) == Ok(v)
  {
    FieldBack(rd, key);
  }

  lemma KindIsRead(rd: RdFeature)
    ensures ReadBack(rd) == ToFeatureOf(KindOf(rd), ToRaw(rd).Printed())
  {
    var raw := ToRaw(rd).Printed();
    KindsAreNamed(KindOf(rd));
    assert "description" !in Fields(rd);
    assert DescriptionIsValid(raw);
  }

  /** What a feature is read back as, once its kind is known. */
  function ReadAs(f: Feature, d: Option<string>): Outcome<Feature, FreezeError>
    requires !f.Com?
  {
    var rd := FromEngine(f, d).value;
    ToFeatureOf(KindOf(rd), ToRaw(rd).Printed())
  }

  // ---- kinds with one text field ----

  /** The field that holds the text of a feature, for the kinds that have no other. */
  function TextKey(k: Kind): Option<string> {
    match k
    case KOs => Some("os")
    case KArch => Some("arch")
    case KFormat => Some("format")
    case KMatch => Some("match")
    case KCharacteristic => Some("characteristic")
    case KExport => Some("export")
    case KImport => Some("import_")
    case KSection => Some("section")
    case KFunctionName => Some("function_name")
    case KSubstring => Some("substring")
    case KRegex => Some("regex")
    case KString => Some("string")
    case KClass => Some("class_")
    case KNamespace => Some("namespace")
    case KApi => Some("api")
    case KMnemonic => Some("mnemonic")
    case _ => None
  }

  /** The feature of such a kind with the text `v`. */
  function TextFeature(k: Kind, v: string): Feature
    requires TextKey(k).Some?
  {
    match k
    case KOs => Os(v)
    case KArch => Arch(v)
    case KFormat => Format(v)
    case KMatch => MatchedRule(v)
    case KCharacteristic => Characteristic(v)
    case KExport => Export(v)
    case KImport => Import(v)
    case KSection => Section(v)
    case KFunctionName => FunctionName(v)
    case KSubstring => String(Substring(v))
    case KRegex => String(Regex(v))
    case KString => String(Plain(v))
    case KClass => Class(v)
    case KNamespace => Namespace(v)
    case KApi => Api(v)
    case KMnemonic => Mnemonic(v)
  }

  /** Such a feature is written with its text in the one field of its kind. */
  lemma TextIsWritten(rd: RdFeature) returns (v: string)
    requires TextKey(KindOf(rd)).Some?
    ensures Fields(rd) == map[TextKey(KindOf(rd)).value := JString(v)]
  {
    v := Fields(rd)[TextKey(KindOf(rd)).value].s;
  }

  lemma TextTellsFeature(f: Feature, d: Option<string>, rd: RdFeature, v: string)
    requires FromEngine(f, d) == Some(rd) && TextKey(KindOf(rd)).Some?
    requires Fields(rd) == map[TextKey(KindOf(rd)).value := JString(v)]
    ensures f == TextFeature(KindOf(rd), v)
  {
    if IsEarly(KindOf(rd)) {
      EarlyTextTellsFeature(f, d, rd, v);
    } else {
      LaterTextTellsFeature(f, d, rd, v);
    }
  }

  lemma EarlyTextTellsFeature(f: Feature, d: Option<string>, rd: RdFeature, v: string)
    requires FromEngine(f, d) == Some(rd) && IsEarly(KindOf(rd)) && TextKey(KindOf(rd)).Some?
    requires Fields(rd) == map[TextKey(KindOf(rd)).value := JString(v)]
    ensures f == TextFeature(KindOf(rd), v)
  {
    assert Fields(rd)[TextKey(KindOf(rd)).value] == JString(v);
  }

  lemma LaterTextTellsFeature(f: Feature, d: Option<string>, rd: RdFeature, v: string)
    requires FromEngine(f, d) == Some(rd) && !IsEarly(KindOf(rd)) && TextKey(KindOf(rd)).Some?
    requires Fields(rd) == map[TextKey(KindOf(rd)).value := JString(v)]
    ensures f == TextFeature(KindOf(rd), v)
  {
    assert Fields(rd)[TextKey(KindOf(rd)).value] == JString(v);
  }

  /** With its text given, such a feature is read, unless it is a regex that does not compile. */
  lemma TextIsRead(k: Kind, raw: Raw, v: string)
    requires TextKey(k).Some? && StrField(raw, TextKey(k).value) == Ok(v)
    ensures ToFeatureOf(k, raw) == if k.KRegex? && !RegexCompiles(v) then Err(Invalid) else Ok(TextFeature(k, v))
  {
  }

  lemma TextSurvives(k: Kind, v: string)
    requires TextKey(k).Some?
    ensures Survives(TextFeature(k, v)) <==> !(k.KRegex? && !RegexCompiles(v))
  {
  }

  /** The features that are numbers or bytes, have two fields, or none. */
  predicate IsOther(f: Feature) {
    f.Number? || f.Offset? || f.OperandNumber? || f.OperandOffset? || f.Property? || f.Bytes? || f.BasicBlock?
  }

  lemma TextHasKey(f: Feature, d: Option<string>)
    requires !f.Com? && !IsOther(f)
    ensures TextKey(KindOf(FromEngine(f, d).value)).Some?
  {
  }

  lemma TextBack(f: Feature, d: Option<string>)
    requires !f.Com? && !IsOther(f)
    ensures ReadAs(f, d) == Ok(f) <==> Survives(f)
  {
    var rd := FromEngine(f, d).value;
    TextHasKey(f, d);
    var k := KindOf(rd);
    var v := TextIsWritten(rd);
    TextTellsFeature(f, d, rd, v);
    StrFieldBack(rd, TextKey(k).value, v);
    TextIsRead(k, ToRaw(rd).Printed(), v);
    TextSurvives(k, v);
  }

  // ---- the other kinds ----

  lemma NumberFieldBack(rd: RdFeature, key: string, n: NumberValue)
    requires NumberIsCanonical(n)
    requires key != "description" && key in Fields(rd) && Fields(rd)[key] == NumberJson(RdOfNumber(n))
    ensures NumberField(ToRaw(rd).Printed(), key).Ok?
    ensures NumberField(ToRaw(rd).Printed(), key) == Ok(n) <==> NumberSurvives(n)
  {
    FieldBack(rd, key);
  }

  lemma IntFieldBack(rd: RdFeature, key: string, n: i64)
    requires key != "description" && key in Fields(rd) && Fields(rd)[key] == JInt(n)
    ensures IntField(ToRaw(rd).Printed(), key) == Ok(n) && IntOffset(ToRaw(rd).Printed(), key) == Ok(n)
  {
    FieldBack(rd, key);
  }

  lemma NumberBack(f: Feature, d: Option<string>)
    requires FeatureIsCanonical(f) && (f.Number? || f.Offset?)
    ensures ReadAs(f, d) == Ok(f) <==> Survives(f)
  {
    var rd := FromEngine(f, d).value;
    match f
    case Number(n) =>
      NumberFieldBack(rd, "number", n);
      NumberIsRead(ToRaw(rd).Printed(), n);
    case Offset(n) => IntFieldBack(rd, "offset", n);
  }

  lemma NumberIsRead(raw: Raw, n: NumberValue)
    requires NumberField(raw, "number").Ok?
    ensures ToFeatureOf(KNumber, raw) == Ok(Number(n)) <==> NumberField(raw, "number") == Ok(n)
  {
  }

  lemma OperandNumberBack(f: Feature, d: Option<string>)
    requires FeatureIsCanonical(f) && f.OperandNumber?
    ensures ReadAs(f, d) == Ok(f) <==> Survives(f)
  {
    var rd := FromEngine(f, d).value;
    FieldNamesDiffer();
    IntFieldBack(rd, "index", f.index);
    NumberFieldBack(rd, "operand_number", f.number);
    OperandNumberIsRead(ToRaw(rd).Printed(), f.index, f.number);
  }

  lemma OperandNumberIsRead(raw: Raw, index: u8, n: NumberValue)
    requires IntField(raw, "index") == Ok(index) && NumberField(raw, "operand_number").Ok?
    ensures ToFeatureOf(KOperandNumber, raw) == Ok(OperandNumber(index, n))
            <==> index <= MAX_OPERAND_INDEX && NumberField(raw, "operand_number") == Ok(n)
  {
  }

  lemma OperandOffsetBack(f: Feature, d: Option<string>)
    requires f.OperandOffset?
    ensures ReadAs(f, d) == Ok(f) <==> Survives(f)
  {
    var rd := FromEngine(f, d).value;
    FieldNamesDiffer();
    IntFieldBack(rd, "index", f.index);
    IntFieldBack(rd, "operand_offset", f.offset);
    OperandOffsetIsRead(ToRaw(rd).Printed(), f.index, f.offset);
  }

  lemma OperandOffsetIsRead(raw: Raw, index: u8, n: i64)
    requires IntField(raw, "index") == Ok(index) && IntOffset(raw, "operand_offset") == Ok(n)
    ensures ToFeatureOf(KOperandOffset, raw) == Ok(OperandOffset(index, n)) <==> index <= MAX_OPERAND_INDEX
  {
  }

  lemma PropertyBack(f: Feature, d: Option<string>)
    requires f.Property?
    ensures ReadAs(f, d) == Ok(f)
  {
    var rd := FromEngine(f, d).value;
    FieldNamesDiffer();
    StrFieldBack(rd, "property", f.name);
    AccessBack(f, d, rd);
    PropertyIsRead(ToRaw(rd).Printed(), f.name, f.access);
  }

  lemma AccessBack(f: Feature, d: Option<string>, rd: RdFeature)
    requires f.Property? && FromEngine(f, d) == Some(rd)
    ensures ReadAccess(ToRaw(rd).Printed()) == Ok(f.access)
  {
    if f.access.Some? {
      FieldNamesDiffer();
      FieldBack(rd, "access");
    } else {
      assert "access" !in Fields(rd);
    }
  }

  lemma PropertyIsRead(raw: Raw, name: string, access: Option<Access>)
    requires StrField(raw, "property") == Ok(name) && ReadAccess(raw) == Ok(access)
    ensures ToFeatureOf(KProperty, raw) == Ok(Property(name, access))
  {
  }

  lemma BytesBack(f: Feature, d: Option<string>)
    requires f.Bytes?
    ensures ReadAs(f, d) == Ok(f)
  {
    var rd := FromEngine(f, d).value;
    StrFieldBack(rd, "bytes", rd.bytes);
    Hex.EncodedDecodes(f.bytes);
    BytesAreRead(ToRaw(rd).Printed(), rd.bytes, f.bytes);
  }

  lemma BytesAreRead(raw: Raw, v: string, bytes: seq<bv8>)
    requires StrField(raw, "bytes") == Ok(v) && Hex.Decode(v) == Some(bytes)
    ensures ToFeatureOf(KBytes, raw) == Ok(Bytes(bytes))
  {
  }

  lemma OtherBack(f: Feature, d: Option<string>)
    requires FeatureIsCanonical(f) && IsOther(f)
    ensures ReadAs(f, d) == Ok(f) <==> Survives(f)
  {
    match f
    case Property(_, _) => PropertyBack(f, d);
    case Bytes(_) => BytesBack(f, d);
    case Number(_) => NumberBack(f, d);
    case Offset(_) => NumberBack(f, d);
    case OperandNumber(_, _) => OperandNumberBack(f, d);
    case OperandOffset(_, _) => OperandOffsetBack(f, d);
    case BasicBlock =>
  }

  lemma ReadAsIff(f: Feature, d: Option<string>)
    requires FeatureIsCanonical(f) && !f.Com?
    ensures ReadAs(f, d) == Ok(f) <==> Survives(f)
  {
    if IsOther(f) {
      OtherBack(f, d);
    } else {
      TextBack(f, d);
    }
  }

  /**
   Writing a feature and reading it back gives the feature exactly when it survives: its regex compiles, its operand
   index is at most 4, and its integers fit 64 bits or are doubles. Only COM features cannot be written.
   */
  lemma FeatureRoundTripIff(f: Feature, d: Option<string>)
    requires FeatureIsCanonical(f)
    ensures FromEngine(f, d).None? <==> f.Com?
    ensures !f.Com? ==> (ReadBack(FromEngine(f, d).value) == Ok(f) <==> Survives(f))
  {
    if !f.Com? {
      KindIsRead(FromEngine(f, d).value);
      ReadAsIff(f, d);
    }
  }

  /**
   Why the condition is needed: an operand's offset at index 5 is written, and the reader rejects what was written.
   */
  lemma OperandFiveIsLost(d: Option<string>)
    ensures var f := OperandOffset(5, 0);
            FromEngine(f, d).Some? && ReadBack(FromEngine(f, d).value) == Err(Invalid)
  {
    var rd := FromEngine(OperandOffset(5, 0), d).value;
    KindIsRead(rd);
    IndexIsRead(rd, d);
    HighIndexIsRejected(ToRaw(rd).Printed());
  }

  lemma IndexIsRead(rd: RdFeature, d: Option<string>)
    requires rd == FromEngine(OperandOffset(5, 0), d).value
    ensures IntField(ToRaw(rd).Printed(), "index") == Ok(5) && KindOf(rd) == KOperandOffset
  {
    FieldNamesDiffer();
    IntFieldBack(rd, "index", 5);
  }

  lemma HighIndexIsRejected(raw: Raw)
    requires IntField(raw, "index") == Ok(5)
    ensures ToFeatureOf(KOperandOffset, raw) == Err(Invalid)
  {
  }
}
