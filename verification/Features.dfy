/** capa-x/src/features.rs and capa-x/src/address.rs: features and the addresses they are found at. */
module Features {
  import opened Base

  type u8 = n: int | 0 <= n < 0x100
  type u32 = n: int | 0 <= n < 0x1_0000_0000
  type u64 = n: int | 0 <= n < 0x1_0000_0000_0000_0000
  type i64 = n: int | -0x8000_0000_0000_0000 <= n < 0x8000_0000_0000_0000

  datatype Address =
    | Absolute(va: u64)
    | Relative(rva: u64)
    | File(offset: u64)
    | DnToken(token: u32)
    | DnTokenOffset(dnToken: u32, dnOffset: u32)
    | Process(ppid: u32, pid: u32)
    | Thread(ppid: u32, pid: u32, tid: u32)
    | Call(ppid: u32, pid: u32, tid: u32, id: u64)
    | NoAddress

  datatype Access = Read | Write

  datatype ComKind = ComClass | ComInterface

  /** A number in the canonical form that its equality and hash use: a whole float is the integer it equals. */
  datatype NumberValue = Int(i: int) | Float(f: real)

  /** A regex is compared by its source text alone, so the text is all of it that is kept. */
  datatype StringFeature = Plain(value: string) | Substring(value: string) | Regex(value: string)

  datatype Feature =
    | Api(name: string)
    | String(str: StringFeature)
    | Bytes(bytes: seq<bv8>)
    | Number(number: NumberValue)
    | Offset(offset: i64)
    | OperandNumber(index: u8, number: NumberValue)
    | OperandOffset(index: u8, offset: i64)
    | Mnemonic(name: string)
    | Characteristic(name: string)
    | Section(name: string)
    | Import(name: string)
    | Export(name: string)
    | FunctionName(name: string)
    | Class(name: string)
    | Namespace(name: string)
    | Property(name: string, access: Option<Access>)
    | Os(name: string)
    | Arch(name: string)
    | Format(name: string)
    | Com(kind: ComKind, name: string)
    | MatchedRule(name: string)
    | BasicBlock

  /** Whether the regex with this source text matches somewhere in a text. Nothing is known about it. */
  const REGEX_IS_MATCH: (string, string) -> bool

  predicate Contains(text: string, needle: string) {
    exists i | 0 <= i <= |text| - |needle| :: OccursAt(text, needle, i)
  }

  predicate OccursAt(text: string, needle: string, i: nat)
    requires i + |needle| <= |text|
  {
    text[i..i + |needle|] == needle
  }

  /** Whether query `q`, a substring or a regex, accepts the text. */
  predicate StringQueryMatches(q: StringFeature, text: string) {
    if q.Regex? then REGEX_IS_MATCH(q.value, text) else Contains(text, q.value)
  }

  predicate OsMatches(query: string, value: string) {
    query == "any" || value == "any" || query == value
  }
}
