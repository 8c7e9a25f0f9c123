/** Decoding what the encoder wrote: every encoding is the text of a tree of the encoded value. */
module JsonRoundTrip {
  import opened Wrappers
  import opened Arithmetic
  import opened Floats
  import opened JsonNumber
  import opened JsonModel
  import opened JsonSyntax
  import opened JsonDecoder
  import opened JsonReading

  // ----- Strings

  function PieceOf(c: char): Piece {
    if c == '"' || c == '\\' then Short(c)
    else if c == '\n' then Short('n') else if c == '\r' then Short('r') else if c == '\t' then Short('t')
    else if c as int < 0x20 then Unit(['0', '0', HexDigit(c as int / 16), HexDigit(c as int % 16)])
    else Raw(c)
  }

  lemma HexRoundTrip(d: nat)
    requires d < 16
    ensures HexValue(HexDigit(d)) == Some(d)
  {
  }

  /** An escape is a piece that stands for the escaped character. */
  lemma PieceRoundTrip(c: char)
    ensures PieceOf(c).Good() && PieceOf(c).Text() == Escape(c) && PieceOf(c).Char() == c
  {
    var n := c as int;
    if n < 0x20 {
      HexRoundTrip(0);
      HexRoundTrip(n / 16);
      HexRoundTrip(n % 16);
      assert Hex4Value(['0', '0', HexDigit(n / 16), HexDigit(n % 16)]) == n / 16 * 16 + n % 16;
    }
  }

  function PiecesOf(s: string): seq<Piece> {
    if s == "" then [] else [PieceOf(s[0])] + PiecesOf(s[1..])
  }

  lemma {:induction false} StringRoundTrip(s: string)
    ensures GoodPieces(PiecesOf(s)) && PiecesText(PiecesOf(s)) == EscapeAll(s) && Chars(PiecesOf(s)) == s
  {
    hide PieceOf, Escape, Piece.Good, Piece.Text, Piece.Char;
    if s != "" {
      PieceRoundTrip(s[0]);
      StringRoundTrip(s[1..]);
      assert PiecesOf(s)[1..] == PiecesOf(s[1..]);
      assert s == [s[0]] + s[1..];
    }
  }

  // ----- Numbers

  lemma {:induction false} DigitsRoundTrip(n: nat)
    ensures AllDigits(Digits(n)) && DigitsValue(Digits(n)) == n
    ensures Digits(n)[0] == '0' ==> |Digits(n)| == 1
    ensures Digits(n)[0] == '0' <==> n == 0
  {
    var text := Digits(n);
    if n < 10 {
      assert text[..0] == "";
    } else {
      DigitsRoundTrip(n / 10);
      assert text[..|text| - 1] == Digits(n / 10);
    }
  }

  function IntNumeral(n: int): Numeral {
    Numeral(n < 0, Digits(if n < 0 then -n else n), "", "")
  }

  lemma SmallIntegerIsDouble(n: int)
    requires -MANTISSA < n < MANTISSA
    ensures IsDouble(n as real)
  {
    assert Represents(DOUBLE, n, 0, n as real);
  }

  /** An integer is printed as a numeral of exactly its value. */
  lemma NumberRoundTrip(n: int)
    requires -MANTISSA < n < MANTISSA
    ensures IntNumeral(n).Good() && IntNumeral(n).Text() == EncodeInt(n) && IntNumeral(n).Value() == Some(n as real)
  {
    hide Digits, DigitsValue, Round;
    var m: nat := if n < 0 then -n else n;
    DigitsRoundTrip(m);
    SmallIntegerIsDouble(n);
    RoundExact(DOUBLE, n as real);
    assert Digits(m) + "" == Digits(m) && "" + "" == "" && "" + Digits(m) == Digits(m);
    assert Exact(n < 0, Digits(m), "", "") == n as real by {
      assert Pow10(0) == 1.0;
    }
  }

  /** The text is a numeral that is read as this number. */
  ghost predicate ReadAs(text: string, x: real) {
    exists n: Numeral :: n.Good() && n.Text() == text && n.Value() == Some(x)
  }

  /** A number that is printed without a decimal point, or as a text that is read as it. */
  ghost predicate Printed(show: Printer, x: real) {
    IsDouble(x) && (IsSmallInteger(x) || ReadAs(show(x), x))
  }

  /** A value in which every number is finite and printed so, and every object is in key order. */
  ghost predicate Encodable(show: Printer, v: Value) {
    match v
    case Number(x) => Printed(show, x)
    case Array(items) => forall i :: 0 <= i < |items| ==> Encodable(show, items[i])
    case Object(members) => Sorted(members) && forall i :: 0 <= i < |members| ==> Encodable(show, members[i].value)
    case _ => true
  }

  /** What the standard library promises of printing a number: reading the text gives it back. */
  ghost predicate Faithful(show: Printer) {
    forall x: real :: IsDouble(x) && !IsSmallInteger(x) ==> ReadAs(show(x), x)
  }

  /** With a faithful printer every value of finite numbers is encodable. */
  lemma {:induction false} FaithfulEncodes(show: Printer, v: Value)
    requires Faithful(show) && Valid(v)
    ensures Encodable(show, v)
  {
    hide IsDouble, ReadAs;
    match v
    case Array(items) =>
      forall i | 0 <= i < |items| ensures Encodable(show, items[i]) {
        FaithfulEncodes(show, items[i]);
      }
    case Object(members) =>
      forall i | 0 <= i < |members| ensures Encodable(show, members[i].value) {
        FaithfulEncodes(show, members[i].value);
      }
    case _ =>
  }

  ghost function NumeralOf(show: Printer, x: real): (n: Numeral)
    requires Printed(show, x)
    ensures n.Good() && n.Text() == Encode(show, Number(x)) && n.Value() == Some(x)
  {
    if IsSmallInteger(x) then
      NumberRoundTrip(x.Floor);
      IntNumeral(x.Floor)
    else
      assert ReadAs(show(x), x);
      var n: Numeral :| n.Good() && n.Text() == show(x) && n.Value() == Some(x);
      n
  }

  // ----- Values

  ghost function TreeOf(show: Printer, v: Value): Tree
    requires Encodable(show, v)
  {
    match v
    case Number(x) => Num(NumeralOf(show, x))
    case String(s) => Str(PiecesOf(s))
    case Array(items) => Arr("", ItemsOf(show, items))
    case Object(members) => Obj("", EntriesOf(show, members))
    case _ => Word(v)
  }

  ghost function ItemsOf(show: Printer, items: seq<Value>): (r: seq<Element>)
    requires forall i :: 0 <= i < |items| ==> Encodable(show, items[i])
    ensures |r| == |items|
  {
    if items == [] then [] else [Element("", TreeOf(show, items[0]), "")] + ItemsOf(show, items[1..])
  }

  ghost function EntriesOf(show: Printer, members: seq<Member>): (r: seq<Entry>)
    requires forall i :: 0 <= i < |members| ==> Encodable(show, members[i].value)
    ensures |r| == |members|
  {
    if members == [] then []
    else
      [EntryOf(members[0].key, TreeOf(show, members[0].value))] + EntriesOf(show, members[1..])
  }

  /** A tree without space of its own, that stands for the value and is written as its encoding. */
  ghost predicate Writes(show: Printer, t: Tree, v: Value) {
    Good(t) && Text(t) == Encode(show, v) && Meaning(t) == v && Height(t) == Depth(v)
  }

  lemma Bare(t: Tree)
    requires Good(t)
    ensures GoodElement(Element("", t, "")) && ElementText(Element("", t, "")) == Text(t)
  {
    assert "" + (Text(t) + "") == Text(t);
  }

  ghost predicate WritesItems(show: Printer, r: seq<Element>, items: seq<Value>) {
    && |r| == |items| && (forall i :: 0 <= i < |r| ==> GoodElement(r[i]))
    && ItemsText(r) == EncodeItems(show, items) && ItemsMeaning(r) == items && ItemsHeight(r) == DepthItems(items)
  }

  /** The entries are written as the members are and add them to the members before. */
  ghost predicate WritesMembers(show: Printer, r: seq<Entry>, members: seq<Member>, acc: seq<Member>) {
    && |r| == |members| && (forall i :: 0 <= i < |r| ==> GoodEntry(r[i]))
    && EntriesText(r) == EncodeMembers(show, members) && EntriesMeaning(r, acc) == acc + members
    && EntriesHeight(r) == DepthMembers(members)
  }

  lemma NumberWrites(show: Printer, x: real)
    requires Printed(show, x)
    ensures Writes(show, Num(NumeralOf(show, x)), Number(x))
  {
    hide Numeral.Good, Numeral.Text, Numeral.Value, Printed;
  }

  lemma StringWrites(show: Printer, s: string)
    ensures Writes(show, Str(PiecesOf(s)), String(s))
  {
    hide PiecesOf, GoodPieces, PiecesText, Chars, EscapeAll;
    StringRoundTrip(s);
    assert EncodeString(s) == ['"'] + (EscapeAll(s) + ['"']);
  }

  lemma ArrayWrites(show: Printer, r: seq<Element>, items: seq<Value>)
    requires WritesItems(show, r, items)
    ensures Writes(show, Arr("", r), Array(items))
  {
    hide GoodElement, ItemsText, EncodeItems, ItemsMeaning, ItemsHeight, DepthItems;
    var text := EncodeItems(show, items);
    assert ['['] + (("" + text) + [']']) == ['['] + text + [']'];
  }

  lemma ObjectWrites(show: Printer, r: seq<Entry>, members: seq<Member>)
    requires WritesMembers(show, r, members, [])
    ensures Writes(show, Obj("", r), Object(members))
  {
    hide GoodEntry, EntriesText, EncodeMembers, EntriesMeaning, EntriesHeight, DepthMembers;
    var text := EncodeMembers(show, members);
    assert ['{'] + (("" + text) + ['}']) == ['{'] + text + ['}'];
    assert [] + members == members;
  }

  /** The tree of a value is written as its encoding and stands for it. */
  lemma {:induction false} ValueRoundTrip(show: Printer, v: Value)
    requires Encodable(show, v)
    ensures Writes(show, TreeOf(show, v), v)
    decreases v, 1
  {
    hide Writes, WritesItems, WritesMembers, Printed;
    match v
    case Number(x) => NumberWrites(show, x);
    case String(s) => StringWrites(show, s);
    case Array(items) =>
      ItemsRoundTrip(show, items);
      ArrayWrites(show, ItemsOf(show, items), items);
    case Object(members) =>
      assert [] + members == members;
      MembersRoundTrip(show, members, []);
      ObjectWrites(show, EntriesOf(show, members), members);
    case _ =>
      WordWrites(show, v);
  }

  lemma WordWrites(show: Printer, v: Value)
    requires v.Null? || v.Bool?
    ensures Writes(show, Word(v), v)
  {
  }

  lemma MoreItems(show: Printer, t: Tree, v: Value, r: seq<Element>, items: seq<Value>)
    requires Writes(show, t, v) && WritesItems(show, r, items)
    ensures WritesItems(show, [Element("", t, "")] + r, [v] + items)
  {
    hide Good, Text, Encode, Meaning, Height, Depth;
    Bare(t);
    assert ([Element("", t, "")] + r)[1..] == r && ([v] + items)[1..] == items;
  }

  lemma {:induction false} ItemsRoundTrip(show: Printer, items: seq<Value>)
    requires forall i :: 0 <= i < |items| ==> Encodable(show, items[i])
    ensures WritesItems(show, ItemsOf(show, items), items)
    decreases items, 0
  {
    if items != [] {
      hide Writes, WritesItems, Encodable;
      ValueRoundTrip(show, items[0]);
      ItemsRoundTrip(show, items[1..]);
      MoreItems(show, TreeOf(show, items[0]), items[0], ItemsOf(show, items[1..]), items[1..]);
      assert items == [items[0]] + items[1..];
    }
  }

  function EntryOf(key: string, t: Tree): Entry {
    Entry("", PiecesOf(key), "", Element("", t, ""))
  }

  lemma EntryWrites(show: Printer, t: Tree, m: Member)
    requires Writes(show, t, m.value)
    ensures GoodEntry(EntryOf(m.key, t)) && EntryText(EntryOf(m.key, t)) == EncodeMember(show, m)
    ensures Chars(EntryOf(m.key, t).key) == m.key
  {
    hide Text, Encode, Meaning, Height, Depth, PiecesOf, PiecesText, EscapeAll, Chars;
    StringRoundTrip(m.key);
    Bare(t);
    assert EncodeString(m.key) == StringText(PiecesOf(m.key)) by {
      assert ['"'] + EscapeAll(m.key) + ['"'] == ['"'] + (EscapeAll(m.key) + ['"']);
    }
    var (key, value) := (EncodeString(m.key), Encode(show, m.value));
    assert "" + (key + ("" + ([':'] + value))) == key + [':'] + value;
  }

  lemma MoreMembers(show: Printer, t: Tree, m: Member, r: seq<Entry>, members: seq<Member>, acc: seq<Member>)
    requires Writes(show, t, m.value) && WritesMembers(show, r, members, acc + [m])
    requires Insert(acc, m.key, m.value) == acc + [m]
    ensures WritesMembers(show, [EntryOf(m.key, t)] + r, [m] + members, acc)
  {
    hide Good, Text, Encode, Height, Depth, PiecesOf, EncodeMember, EntryText, Insert, Chars;
    EntryWrites(show, t, m);
    var entries := [EntryOf(m.key, t)] + r;
    assert entries[1..] == r && ([m] + members)[1..] == members;
    SnocAppend(acc, m, members, [m] + members);
    EntriesUnfold(EntryOf(m.key, t), r, acc);
  }

  lemma EntriesUnfold(e: Entry, rest: seq<Entry>, acc: seq<Member>)
    ensures EntriesMeaning([e] + rest, acc) ==
            EntriesMeaning(rest, Insert(acc, Chars(e.key), Meaning(e.element.tree)))
  {
    hide Insert, Chars;
    assert ([e] + rest)[1..] == rest;
  }

  lemma {:induction false} MembersRoundTrip(show: Printer, members: seq<Member>, acc: seq<Member>)
    requires Sorted(acc + members) && forall i :: 0 <= i < |members| ==> Encodable(show, members[i].value)
    ensures WritesMembers(show, EntriesOf(show, members), members, acc)
    decreases members, 0
  {
    if members == [] {
      assert acc + members == acc;
    } else {
      hide Writes, WritesMembers, Encodable, Sorted;
      var m, rest := members[0], members[1..];
      InsertNext(acc, members);
      assert acc + [m] + rest == acc + members && members == [m] + rest;
      ValueRoundTrip(show, m.value);
      MembersRoundTrip(show, rest, acc + [m]);
      MoreMembers(show, TreeOf(show, m.value), m, EntriesOf(show, rest), rest, acc);
    }
  }

  // ----- Key order

  lemma {:induction false} InsertLast(members: seq<Member>, key: string, value: Value)
    requires forall i :: 0 <= i < |members| ==> Less(members[i].key, key)
    ensures Insert(members, key, value) == members + [Member(key, value)]
  {
    hide Less;
    if members != [] {
      LessIrreflexive(members[0].key, key);
      InsertLast(members[1..], key, value);
      assert members == [members[0]] + members[1..];
    }
  }

  lemma LessIrreflexive(a: string, b: string)
    requires Less(a, b)
    ensures a != b && !Less(b, a)
  {
    LexAsymmetric(Utf8(a), Utf8(b));
  }

  lemma {:induction false} LexAsymmetric(a: string, b: string)
    requires LexLess(a, b)
    ensures a != b && !LexLess(b, a)
  {
    if a != "" && a[0] == b[0] {
      LexAsymmetric(a[1..], b[1..]);
    }
  }

  lemma InsertNext(acc: seq<Member>, members: seq<Member>)
    requires members != [] && Sorted(acc + members)
    ensures Insert(acc, members[0].key, members[0].value) == acc + [members[0]]
  {
    forall i | 0 <= i < |acc| ensures Less(acc[i].key, members[0].key) {
      assert (acc + members)[i] == acc[i] && (acc + members)[|acc|] == members[0];
    }
    InsertLast(acc, members[0].key, members[0].value);
  }

  // ----- Documents

  /** Parsing the bytes of an encoding: the value, unless it nests deeper than the limit. */
  lemma DocumentRoundTrip(show: Printer, v: Value)
    requires Encodable(show, v)
    ensures ParseDocument(Encode(show, v)) == if Depth(v) <= MAX_DEPTH then Ok(v) else Err(DepthExceeded)
  {
    hide ParseDocument, Encodable, Good, Text, Meaning, Height;
    var t := TreeOf(show, v);
    ValueRoundTrip(show, v);
    Bare(t);
    DocumentRead(Element("", t, ""));
  }

  // ----- The text itself

  ghost predicate NoControls(text: string) {
    forall i :: 0 <= i < |text| ==> text[i] as int >= 0x20
  }

  lemma {:induction false} EscapedNoControls(s: string)
    ensures NoControls(EscapeAll(s))
  {
    if s != "" {
      EscapedNoControls(s[1..]);
    }
  }

  ghost predicate Printable(text: string) {
    forall i :: 0 <= i < |text| ==> 0x20 <= text[i] as int < 0x7F
  }

  lemma DigitsPrintable(text: string)
    requires AllDigits(text)
    ensures Printable(text)
  {
  }

  lemma PlainMarks()
    ensures Printable("") && Printable(['-']) && Printable(['.'])
  {
  }

  lemma PrintableAppend(a: string, b: string)
    ensures Printable(a) && Printable(b) ==> Printable(a + b)
  {
  }

  lemma ExponentPrintable(exp: string)
    requires exp == "" || GoodExponent(exp)
    ensures Printable(exp)
  {
    if exp != "" {
      hide AllDigits;
      var k := if exp[1] == '+' || exp[1] == '-' then 2 else 1;
      DigitsPrintable(exp[k..]);
      PrintableAppend(exp[..k], exp[k..]);
      assert exp == exp[..k] + exp[k..];
    }
  }

  lemma NumeralPrintable(n: Numeral)
    requires n.Good()
    ensures Printable(n.Text())
  {
    hide AllDigits, Printable, Numeral.Value;
    DigitsPrintable(n.whole);
    DigitsPrintable(n.fraction);
    ExponentPrintable(n.exp);
    PrintableAppend(n.Point(), n.exp);
    PrintableAppend(n.whole, n.Point() + n.exp);
    PrintableAppend(n.Sign(), n.whole + (n.Point() + n.exp));
    PrintableAppend(['.'], n.fraction);
    PlainMarks();
  }

  /** An encoding has no raw control character anywhere. */
  lemma {:induction false} EncodeNoControls(show: Printer, v: Value)
    requires Encodable(show, v)
    ensures NoControls(Encode(show, v))
    decreases v, 1
  {
    hide Printed, NoControls, EscapeAll, EncodeItems, EncodeMembers;
    match v
    case Number(x) => NumberNoControls(show, x);
    case String(s) =>
      EscapedNoControls(s);
      BracketsNoControls('"', EscapeAll(s), '"');
    case Array(items) =>
      ItemsNoControls(show, items);
      BracketsNoControls('[', EncodeItems(show, items), ']');
    case Object(members) =>
      MembersNoControls(show, members);
      BracketsNoControls('{', EncodeMembers(show, members), '}');
    case _ =>
      WordsNoControls();
  }

  lemma NumberNoControls(show: Printer, x: real)
    requires Printed(show, x)
    ensures NoControls(Encode(show, Number(x)))
  {
    hide Printed, Encode, Numeral.Text, Numeral.Good, Numeral.Value;
    NumeralPrintable(NumeralOf(show, x));
  }

  lemma WordsNoControls()
    ensures NoControls("null") && NoControls("true") && NoControls("false")
  {
  }

  lemma BracketsNoControls(open: char, text: string, close: char)
    requires open as int >= 0x20 && close as int >= 0x20 && NoControls(text)
    ensures NoControls([open] + text + [close])
  {
  }

  lemma {:induction false} ItemsNoControls(show: Printer, items: seq<Value>)
    requires forall i :: 0 <= i < |items| ==> Encodable(show, items[i])
    ensures NoControls(EncodeItems(show, items))
    decreases items, 0
  {
    hide Printed;
    if items != [] {
      EncodeNoControls(show, items[0]);
      ItemsNoControls(show, items[1..]);
    }
  }

  lemma {:induction false} MembersNoControls(show: Printer, members: seq<Member>)
    requires forall i :: 0 <= i < |members| ==> Encodable(show, members[i].value)
    ensures NoControls(EncodeMembers(show, members))
    decreases members, 0
  {
    hide Printed;
    if members != [] {
      EscapedNoControls(members[0].key);
      EncodeNoControls(show, members[0].value);
      MembersNoControls(show, members[1..]);
    }
  }
}
