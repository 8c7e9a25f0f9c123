/** JSON values, their text, and the UTF-8 bytes of a text. */
module JsonModel {
  import opened Arithmetic
  import opened JsonNumber

  const MAX_DEPTH := 32

  datatype Member = Member(key: string, value: Value)

  /** The members of an object are in key order without repeats, as a `BTreeMap` iterates. */
  datatype Value =
    | Null
    | Bool(b: bool)
    | Number(x: real)
    | String(s: string)
    | Array(items: seq<Value>)
    | Object(members: seq<Member>)

  // ----- UTF-8

  /** The UTF-8 bytes of one character, each byte written as the character of that number. */
  function Utf8Char(c: char): (r: string)
    ensures 1 <= |r| <= 4 && IsBytes(r)
    ensures |r| == 1 <==> c as int < 0x80
    ensures |r| == 1 ==> r == [c]
  {
    var x := c as int;
    if x < 0x80 then [c]
    else if x < 0x800 then [Byte(0xC0 + x / 64), Byte(0x80 + x % 64)]
    else if x < 0x10000 then [Byte(0xE0 + x / 4096), Byte(0x80 + x / 64 % 64), Byte(0x80 + x % 64)]
    else [Byte(0xF0 + x / 262144), Byte(0x80 + x / 4096 % 64), Byte(0x80 + x / 64 % 64), Byte(0x80 + x % 64)]
  }

  function Byte(x: int): char
    requires 0 <= x < 256
  {
    x as char
  }

  predicate IsBytes(s: string) {
    forall i :: 0 <= i < |s| ==> s[i] as int < 256
  }

  /** `as_bytes` of a text. */
  function Utf8(s: string): (r: string)
    ensures IsBytes(r)
  {
    if s == "" then "" else Utf8Char(s[0]) + Utf8(s[1..])
  }

  // ----- Key order

  /** `str` order: bytewise on the UTF-8 bytes. */
  predicate Less(a: string, b: string) {
    LexLess(Utf8(a), Utf8(b))
  }

  predicate LexLess(a: string, b: string) {
    b != "" && (a == "" || a[0] < b[0] || (a[0] == b[0] && LexLess(a[1..], b[1..])))
  }

  ghost predicate Sorted(members: seq<Member>) {
    forall i, j :: 0 <= i < j < |members| ==> Less(members[i].key, members[j].key)
  }

  /** `BTreeMap::insert`. */
  function Insert(members: seq<Member>, key: string, value: Value): seq<Member> {
    if members == [] then [Member(key, value)]
    else if members[0].key == key then [Member(key, value)] + members[1..]
    else if Less(key, members[0].key) then [Member(key, value)] + members
    else [members[0]] + Insert(members[1..], key, value)
  }

  /** Finite numbers, and members in key order. */
  ghost predicate Valid(v: Value) {
    match v
    case Number(x) => IsDouble(x)
    case Array(items) => forall i :: 0 <= i < |items| ==> Valid(items[i])
    case Object(members) => Sorted(members) && forall i :: 0 <= i < |members| ==> Valid(members[i].value)
    case _ => true
  }

  // ----- Encoder

  function HexDigit(d: int): char
    requires 0 <= d < 16
  {
    if d < 10 then (d + '0' as int) as char else (d - 10 + 'a' as int) as char
  }

  function Escape(c: char): string {
    if c == '"' then "\\\"" else if c == '\\' then "\\\\"
    else if c == '\n' then "\\n" else if c == '\r' then "\\r" else if c == '\t' then "\\t"
    else if c as int < 0x20 then ['\\', 'u', '0', '0', HexDigit(c as int / 16), HexDigit(c as int % 16)]
    else [c]
  }

  function EscapeAll(s: string): string {
    if s == "" then "" else Escape(s[0]) + EscapeAll(s[1..])
  }

  function EncodeString(s: string): string {
    ['"'] + EscapeAll(s) + ['"']
  }

  function Digits(n: nat): (r: string)
    ensures r != ""
  {
    if n < 10 then [HexDigit(n)] else Digits(n / 10) + [HexDigit(n % 10)]
  }

  function EncodeInt(n: int): string {
    if n < 0 then ['-'] + Digits(-n) else Digits(n)
  }

  /** The numbers written without a decimal point. */
  predicate IsSmallInteger(x: real) {
    x == x.Floor as real && -MANTISSA < x.Floor < MANTISSA
  }

  /** How the standard library prints the other numbers. */
  type Printer = real -> string

  function Encode(show: Printer, v: Value): string {
    match v
    case Null => "null"
    case Bool(b) => if b then "true" else "false"
    case Number(x) => if IsSmallInteger(x) then EncodeInt(x.Floor) else show(x)
    case String(s) => EncodeString(s)
    case Array(items) => ['['] + EncodeItems(show, items) + [']']
    case Object(members) => ['{'] + EncodeMembers(show, members) + ['}']
  }

  function EncodeItems(show: Printer, items: seq<Value>): string {
    if items == [] then ""
    else Encode(show, items[0]) + (if |items| == 1 then "" else [','] + EncodeItems(show, items[1..]))
  }

  function EncodeMembers(show: Printer, members: seq<Member>): string {
    if members == [] then ""
    else EncodeMember(show, members[0]) + (if |members| == 1 then "" else [','] + EncodeMembers(show, members[1..]))
  }

  function EncodeMember(show: Printer, m: Member): string {
    EncodeString(m.key) + [':'] + Encode(show, m.value)
  }

  // ----- Depth

  /** Nesting below the root: zero for a scalar or an empty container. */
  function Depth(v: Value): nat {
    match v
    case Array(items) => if items == [] then 0 else 1 + DepthItems(items)
    case Object(members) => if members == [] then 0 else 1 + DepthMembers(members)
    case _ => 0
  }

  function DepthItems(items: seq<Value>): nat {
    if items == [] then 0 else Max(Depth(items[0]), DepthItems(items[1..]))
  }

  function DepthMembers(members: seq<Member>): nat {
    if members == [] then 0 else Max(Depth(members[0].value), DepthMembers(members[1..]))
  }
}
