/** The syntax of JSON texts as trees, after sections 2 to 7 of RFC 8259: which bytes a tree stands for,
    and which value. Nothing here knows how the decoder works. Two choices follow the decoder where
    it is laxer than the RFC: a string may hold raw control characters, and a later member replaces
    an earlier one of the same key. */
module JsonSyntax {
  import opened Wrappers
  import opened Arithmetic
  import opened JsonNumber
  import opened JsonModel

  predicate IsSpace(c: char) {
    c == ' ' || c == '\t' || c == '\n' || c == '\r'
  }

  predicate AllSpace(text: string) {
    forall i :: 0 <= i < |text| ==> IsSpace(text[i])
  }

  // ----- Numbers

  /** Digits without a leading zero; a fraction if it is not empty; an exponent part if not empty. */
  datatype Numeral = Numeral(negative: bool, whole: string, fraction: string, exp: string) {
    predicate Good() {
      && whole != "" && AllDigits(whole) && (whole[0] == '0' ==> |whole| == 1)
      && AllDigits(fraction)
      && (exp == "" || GoodExponent(exp))
    }

    function Text(): string {
      Sign() + (whole + (Point() + exp))
    }

    function Sign(): string {
      if negative then ['-'] else ""
    }

    function Point(): string {
      if fraction == "" then "" else ['.'] + fraction
    }

    function Value(): Option<real> {
      NumeralValue(negative, whole, fraction, exp)
    }
  }

  predicate GoodExponent(exp: string) {
    && |exp| >= 2 && (exp[0] == 'e' || exp[0] == 'E')
    && var digits := if exp[1] == '+' || exp[1] == '-' then exp[2..] else exp[1..];
       digits != "" && AllDigits(digits)
  }

  // ----- Strings

  /** The characters named by a letter after a backslash. */
  function ShortEscape(letter: char): Option<char> {
    if letter == '"' || letter == '\\' || letter == '/' then Some(letter)
    else if letter == 'n' then Some('\n')
    else if letter == 'r' then Some('\r')
    else if letter == 't' then Some('\t')
    else if letter == 'b' then Some(8 as char)
    else if letter == 'f' then Some(12 as char)
    else None
  }

  function HexValue(c: char): Option<nat> {
    if '0' <= c <= '9' then Some(c as int - '0' as int)
    else if 'a' <= c <= 'f' then Some(c as int - 'a' as int + 10)
    else if 'A' <= c <= 'F' then Some(c as int - 'A' as int + 10)
    else None
  }

  predicate IsHex4(hex: string) {
    |hex| == 4 && HexValue(hex[0]).Some? && HexValue(hex[1]).Some? && HexValue(hex[2]).Some? && HexValue(hex[3]).Some?
  }

  /** The number four hexadecimal digits stand for. */
  function Hex4Value(hex: string): (n: nat)
    requires IsHex4(hex)
    ensures n < 0x10000
  {
    HexValue(hex[0]).value * 4096 + HexValue(hex[1]).value * 256 + HexValue(hex[2]).value * 16 + HexValue(hex[3]).value
  }

  predicate IsHighSurrogate(n: nat) {
    0xD800 <= n <= 0xDBFF
  }

  predicate IsLowSurrogate(n: nat) {
    0xDC00 <= n <= 0xDFFF
  }

  /** One character of a string: itself, a short escape, a code unit, or a pair of surrogates. */
  datatype Piece = Raw(c: char) | Short(letter: char) | Unit(hex: string) | Pair(high: string, low: string) {
    predicate Good() {
      match this
      case Raw(c) => c != '"' && c != '\\'
      case Short(letter) => ShortEscape(letter).Some?
      case Unit(hex) => IsHex4(hex) && !IsHighSurrogate(Hex4Value(hex)) && !IsLowSurrogate(Hex4Value(hex))
      case Pair(high, low) =>
        IsHex4(high) && IsHex4(low) && IsHighSurrogate(Hex4Value(high)) && IsLowSurrogate(Hex4Value(low))
    }

    function Text(): (r: string)
      ensures r != ""
    {
      match this
      case Raw(c) => [c]
      case Short(letter) => ['\\', letter]
      case Unit(hex) => ['\\', 'u'] + hex
      case Pair(high, low) => (['\\', 'u'] + high) + (['\\', 'u'] + low)
    }

    /** What it stands for, if it is good. */
    function Char(): char {
      if !Good() then '?'
      else
        match this
        case Raw(c) => c
        case Short(letter) => ShortEscape(letter).value
        case Unit(hex) => Hex4Value(hex) as char
        case Pair(high, low) =>
          (0x10000 + (Hex4Value(high) - 0xD800) * 1024 + (Hex4Value(low) - 0xDC00)) as char
    }
  }

  predicate GoodPieces(pieces: seq<Piece>) {
    forall i :: 0 <= i < |pieces| ==> pieces[i].Good()
  }

  function PiecesText(pieces: seq<Piece>): string {
    if pieces == [] then "" else pieces[0].Text() + PiecesText(pieces[1..])
  }

  function Chars(pieces: seq<Piece>): string {
    if pieces == [] then "" else [pieces[0].Char()] + Chars(pieces[1..])
  }

  function StringText(pieces: seq<Piece>): string {
    ['"'] + (PiecesText(pieces) + ['"'])
  }

  // ----- Values

  /** A value without the space around it; `space` stands in an empty array or object only. */
  datatype Tree =
    | Word(value: Value)
    | Num(numeral: Numeral)
    | Str(pieces: seq<Piece>)
    | Arr(space: string, items: seq<Element>)
    | Obj(space: string, entries: seq<Entry>)

  /** A value with the space around it. */
  datatype Element = Element(lead: string, tree: Tree, trail: string)

  datatype Entry = Entry(lead: string, key: seq<Piece>, gap: string, element: Element)

  ghost predicate Good(t: Tree) {
    match t
    case Word(v) => v.Null? || v.Bool?
    case Num(n) => n.Good() && n.Value().Some?
    case Str(pieces) => GoodPieces(pieces)
    case Arr(space, items) =>
      AllSpace(space) && (items != [] ==> space == "") && forall i :: 0 <= i < |items| ==> GoodElement(items[i])
    case Obj(space, entries) =>
      AllSpace(space) && (entries != [] ==> space == "") && forall i :: 0 <= i < |entries| ==> GoodEntry(entries[i])
  }

  ghost predicate GoodElement(e: Element) {
    AllSpace(e.lead) && Good(e.tree) && AllSpace(e.trail)
  }

  ghost predicate GoodEntry(e: Entry) {
    AllSpace(e.lead) && GoodPieces(e.key) && AllSpace(e.gap) && GoodElement(e.element)
  }

  // ----- The text of a tree

  function Text(t: Tree): string {
    match t
    case Word(v) => if v == Bool(true) then "true" else if v == Bool(false) then "false" else "null"
    case Num(n) => n.Text()
    case Str(pieces) => StringText(pieces)
    case Arr(space, items) => ['['] + ((space + ItemsText(items)) + [']'])
    case Obj(space, entries) => ['{'] + ((space + EntriesText(entries)) + ['}'])
  }

  function ElementText(e: Element): string {
    e.lead + (Text(e.tree) + e.trail)
  }

  function ItemsText(items: seq<Element>): string {
    if items == [] then ""
    else ElementText(items[0]) + if |items| == 1 then "" else [','] + ItemsText(items[1..])
  }

  function EntryText(e: Entry): string {
    e.lead + (StringText(e.key) + (e.gap + ([':'] + ElementText(e.element))))
  }

  function EntriesText(entries: seq<Entry>): string {
    if entries == [] then ""
    else EntryText(entries[0]) + if |entries| == 1 then "" else [','] + EntriesText(entries[1..])
  }

  // ----- Its value, if it is good

  function Meaning(t: Tree): Value {
    match t
    case Word(v) => v
    case Num(n) => if n.Value().Some? then Number(n.Value().value) else Null
    case Str(pieces) => String(Chars(pieces))
    case Arr(_, items) => Array(ItemsMeaning(items))
    case Obj(_, entries) => Object(EntriesMeaning(entries, []))
  }

  function ItemsMeaning(items: seq<Element>): seq<Value> {
    if items == [] then [] else [Meaning(items[0].tree)] + ItemsMeaning(items[1..])
  }

  /** The members so far, and then each entry inserted in turn. */
  function EntriesMeaning(entries: seq<Entry>, acc: seq<Member>): seq<Member>
    decreases entries
  {
    if entries == [] then acc
    else EntriesMeaning(entries[1..], Insert(acc, Chars(entries[0].key), Meaning(entries[0].element.tree)))
  }

  // ----- How deep it nests

  function Height(t: Tree): nat {
    match t
    case Arr(_, items) => if items == [] then 0 else 1 + ItemsHeight(items)
    case Obj(_, entries) => if entries == [] then 0 else 1 + EntriesHeight(entries)
    case _ => 0
  }

  function ItemsHeight(items: seq<Element>): nat {
    if items == [] then 0 else Max(Height(items[0].tree), ItemsHeight(items[1..]))
  }

  function EntriesHeight(entries: seq<Entry>): nat {
    if entries == [] then 0 else Max(Height(entries[0].element.tree), EntriesHeight(entries[1..]))
  }

  /** The bytes are those of a tree of this value that nests at most as deep as allowed. */
  ghost predicate Denotes(e: Element, bytes: string, v: Value) {
    GoodElement(e) && ElementText(e) == bytes && Meaning(e.tree) == v && Height(e.tree) <= MAX_DEPTH
  }
}
