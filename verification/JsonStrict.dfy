/** Where the decoder is laxer than RFC 8259: an accepted text is one of the RFC exactly when no
    character below 0x20 stands inside a quoted string, which can be seen from the text alone. */
module JsonStrict {
  import opened Wrappers
  import opened Arithmetic
  import opened JsonNumber
  import opened JsonModel
  import opened JsonSyntax
  import opened JsonDecoder
  import opened JsonReading
  import opened JsonAcceptance

  // ----- Trees without raw control characters, section 7 of RFC 8259

  predicate StrictPiece(piece: Piece) {
    piece.Raw? ==> piece.c as int >= 0x20
  }

  predicate StrictPieces(pieces: seq<Piece>) {
    forall i :: 0 <= i < |pieces| ==> StrictPiece(pieces[i])
  }

  predicate Strict(t: Tree) {
    match t
    case Str(pieces) => StrictPieces(pieces)
    case Arr(_, items) => forall i :: 0 <= i < |items| ==> StrictElement(items[i])
    case Obj(_, entries) => forall i :: 0 <= i < |entries| ==> StrictEntry(entries[i])
    case _ => true
  }

  predicate StrictElement(e: Element) {
    Strict(e.tree)
  }

  predicate StrictEntry(e: Entry) {
    StrictPieces(e.key) && StrictElement(e.element)
  }

  // ----- Scanning a text for its quoted strings

  datatype Mode = Outside | Inside | Escaped

  function Next(mode: Mode, c: char): Mode {
    match mode
    case Outside => if c == '"' then Inside else Outside
    case Inside => if c == '"' then Outside else if c == '\\' then Escaped else Inside
    case Escaped => Inside
  }

  function Scan(text: string, mode: Mode): Mode {
    if text == "" then mode else Scan(text[1..], Next(mode, text[0]))
  }

  /** No character below 0x20 stands inside a quoted string. */
  predicate Clean(text: string, mode: Mode) {
    text == "" || ((mode.Outside? || text[0] as int >= 0x20) && Clean(text[1..], Next(mode, text[0])))
  }

  lemma {:induction false} ScanAppend(a: string, b: string, mode: Mode)
    ensures Scan(a + b, mode) == Scan(b, Scan(a, mode))
    ensures Clean(a + b, mode) <==> Clean(a, mode) && Clean(b, Scan(a, mode))
  {
    if a == "" {
      assert a + b == b;
    } else {
      assert (a + b)[1..] == a[1..] + b;
      ScanAppend(a[1..], b, Next(mode, a[0]));
    }
  }

  /** A text that begins and ends outside strings, clean or not. */
  ghost predicate Scans(text: string, clean: bool) {
    Scan(text, Outside) == Outside && Clean(text, Outside) == clean
  }

  lemma ScansAppend(a: string, b: string, x: bool, y: bool)
    requires Scans(a, x) && Scans(b, y)
    ensures Scans(a + b, x && y)
  {
    ScanAppend(a, b, Outside);
  }

  lemma {:induction false} NoQuotes(text: string)
    requires forall i :: 0 <= i < |text| ==> text[i] != '"'
    ensures Scans(text, true)
  {
    if text != "" {
      NoQuotes(text[1..]);
    }
  }

  lemma SpaceScans(space: string)
    requires AllSpace(space)
    ensures Scans(space, true)
  {
    NoQuotes(space);
  }

  lemma MarkScans(c: char)
    requires c != '"'
    ensures Scans([c], true)
  {
    NoQuotes([c]);
  }

  // ----- Numerals and words

  lemma DigitsScan(text: string)
    requires AllDigits(text)
    ensures Scans(text, true)
  {
    NoQuotes(text);
  }

  lemma ExponentScans(exp: string)
    requires exp == "" || GoodExponent(exp)
    ensures Scans(exp, true)
  {
    hide Scans, AllDigits;
    if exp == "" {
      NoQuotes(exp);
    } else {
      var k := if exp[1] == '+' || exp[1] == '-' then 2 else 1;
      NoQuotes(exp[..k]);
      DigitsScan(exp[k..]);
      ScansAppend(exp[..k], exp[k..], true, true);
      assert exp == exp[..k] + exp[k..];
    }
  }

  lemma NumeralScans(n: Numeral)
    requires n.Good()
    ensures Scans(n.Text(), true)
  {
    hide Scans, AllDigits, GoodExponent;
    DigitsScan(n.whole);
    DigitsScan(n.fraction);
    ExponentScans(n.exp);
    NoQuotes(n.Sign());
    MarkScans('.');
    ScansAppend(['.'], n.fraction, true, true);
    NoQuotes("");
    ScansAppend(n.Point(), n.exp, true, true);
    ScansAppend(n.whole, n.Point() + n.exp, true, true);
    ScansAppend(n.Sign(), n.whole + (n.Point() + n.exp), true, true);
  }

  // ----- Strings

  lemma {:induction false} PlainInside(text: string)
    requires forall i :: 0 <= i < |text| ==> text[i] != '"' && text[i] != '\\' && text[i] as int >= 0x20
    ensures Scan(text, Inside) == Inside && Clean(text, Inside)
  {
    if text != "" {
      PlainInside(text[1..]);
    }
  }

  lemma HexPlain(hex: string)
    requires IsHex4(hex)
    ensures Scan(hex, Inside) == Inside && Clean(hex, Inside)
  {
    assert forall i :: 0 <= i < |hex| ==> HexValue(hex[i]).Some?;
    PlainInside(hex);
  }

  lemma EscapeInside(c: char)
    requires c as int >= 0x20
    ensures Scan(['\\', c], Inside) == Inside && Clean(['\\', c], Inside)
  {
    var (text, last) := (['\\', c], [c]);
    assert text[1..] == last && last[1..] == "";
    assert Scan(last, Escaped) == Inside && Clean(last, Escaped);
    assert Scan(text, Inside) == Scan(last, Escaped) && Clean(text, Inside) == Clean(last, Escaped);
  }

  lemma UnitInside(hex: string)
    requires IsHex4(hex)
    ensures var text := ['\\', 'u'] + hex; Scan(text, Inside) == Inside && Clean(text, Inside)
  {
    hide IsHex4;
    EscapeInside('u');
    HexPlain(hex);
    ScanAppend(['\\', 'u'], hex, Inside);
  }

  lemma PieceScans(piece: Piece)
    requires piece.Good()
    ensures Scan(piece.Text(), Inside) == Inside && (Clean(piece.Text(), Inside) <==> StrictPiece(piece))
  {
    match piece
    case Raw(c) => assert [c][1..] == "";
    case Short(letter) => EscapeInside(letter);
    case Unit(hex) => UnitInside(hex);
    case Pair(high, low) =>
      UnitInside(high);
      UnitInside(low);
      ScanAppend(['\\', 'u'] + high, ['\\', 'u'] + low, Inside);
  }

  lemma {:induction false} PiecesScan(pieces: seq<Piece>)
    requires GoodPieces(pieces)
    ensures Scan(PiecesText(pieces), Inside) == Inside
    ensures Clean(PiecesText(pieces), Inside) <==> StrictPieces(pieces)
  {
    hide StrictPiece, Piece.Good, Piece.Text;
    if pieces != [] {
      PieceScans(pieces[0]);
      PiecesScan(pieces[1..]);
      ScanAppend(pieces[0].Text(), PiecesText(pieces[1..]), Inside);
    }
  }

  lemma StringScans(pieces: seq<Piece>)
    requires GoodPieces(pieces)
    ensures Scans(StringText(pieces), StrictPieces(pieces))
  {
    hide PiecesText, GoodPieces, StrictPieces;
    var (text, quote) := (PiecesText(pieces), ['"']);
    PiecesScan(pieces);
    assert quote[1..] == "";
    ScanAppend(text, quote, Inside);
    ScanAppend(quote, text + quote, Outside);
  }

  // ----- Values

  lemma WordScans(t: Tree)
    requires t.Word?
    ensures Scans(Text(t), true)
  {
    NoQuotes(Text(t));
  }

  /** A text between two marks. */
  lemma BracketsScan(open: char, inner: string, close: char, clean: bool)
    requires open != '"' && close != '"' && Scans(inner, clean)
    ensures Scans([open] + (inner + [close]), clean)
  {
    hide Scans;
    MarkScans(open);
    MarkScans(close);
    ScansAppend(inner, [close], clean, true);
    ScansAppend([open], inner + [close], true, clean);
  }

  lemma {:induction false} TreeScans(t: Tree)
    requires Good(t)
    ensures Scans(Text(t), Strict(t))
    decreases t, 1
  {
    hide Scans, GoodPieces, StrictPieces, StringText, Numeral.Good, Numeral.Text, Numeral.Value, AllSpace;
    match t
    case Word(_) => WordScans(t);
    case Num(n) => NumeralScans(n);
    case Str(pieces) => StringScans(pieces);
    case Arr(space, items) =>
      ItemsScan(items);
      SpaceScans(space);
      ScansAppend(space, ItemsText(items), true, Strict(t));
      BracketsScan('[', space + ItemsText(items), ']', Strict(t));
    case Obj(space, entries) =>
      EntriesScan(entries);
      SpaceScans(space);
      ScansAppend(space, EntriesText(entries), true, Strict(t));
      BracketsScan('{', space + EntriesText(entries), '}', Strict(t));
  }

  lemma {:induction false} ElementScans(e: Element)
    requires GoodElement(e)
    ensures Scans(ElementText(e), StrictElement(e))
    decreases e, 1
  {
    hide Scans, Text, Strict, AllSpace;
    TreeScans(e.tree);
    SpaceScans(e.lead);
    SpaceScans(e.trail);
    ScansAppend(Text(e.tree), e.trail, Strict(e.tree), true);
    ScansAppend(e.lead, Text(e.tree) + e.trail, true, Strict(e.tree));
  }

  /** A first part and, after a comma, the rest. */
  lemma CommaScans(first: string, rest: string, x: bool, y: bool)
    requires Scans(first, x) && Scans(rest, y)
    ensures Scans(first + ([','] + rest), x && y)
  {
    hide Scans;
    MarkScans(',');
    ScansAppend([','], rest, true, y);
    ScansAppend(first, [','] + rest, x, y);
  }

  lemma {:induction false} ItemsScan(items: seq<Element>)
    requires forall i :: 0 <= i < |items| ==> GoodElement(items[i])
    ensures Scans(ItemsText(items), forall i :: 0 <= i < |items| ==> StrictElement(items[i]))
    decreases items, 0
  {
    hide Scans, GoodElement, ElementText, StrictElement;
    if items == [] {
      NoQuotes("");
    } else {
      var rest := items[1..];
      ElementScans(items[0]);
      ItemsScan(rest);
      var clean := forall i :: 0 <= i < |rest| ==> StrictElement(rest[i]);
      CommaScans(ElementText(items[0]), ItemsText(rest), StrictElement(items[0]), clean);
      NoQuotes("");
      ScansAppend(ElementText(items[0]), "", StrictElement(items[0]), true);
      assert (forall i :: 0 <= i < |items| ==> StrictElement(items[i])) <==> StrictElement(items[0]) && clean;
    }
  }

  lemma {:induction false} EntryScans(e: Entry)
    requires GoodEntry(e)
    ensures Scans(EntryText(e), StrictEntry(e))
    decreases e, 1
  {
    hide Scans, AllSpace, GoodPieces, StrictPieces, StringText, ElementText, StrictElement, GoodElement;
    var (x, y) := (StrictPieces(e.key), StrictElement(e.element));
    ElementScans(e.element);
    StringScans(e.key);
    SpaceScans(e.lead);
    SpaceScans(e.gap);
    MarkScans(':');
    var value := [':'] + ElementText(e.element);
    ScansAppend([':'], ElementText(e.element), true, y);
    ScansAppend(e.gap, value, true, y);
    ScansAppend(StringText(e.key), e.gap + value, x, y);
    ScansAppend(e.lead, StringText(e.key) + (e.gap + value), true, x && y);
  }

  lemma {:induction false} EntriesScan(entries: seq<Entry>)
    requires forall i :: 0 <= i < |entries| ==> GoodEntry(entries[i])
    ensures Scans(EntriesText(entries), forall i :: 0 <= i < |entries| ==> StrictEntry(entries[i]))
    decreases entries, 0
  {
    hide Scans, GoodEntry, EntryText, StrictEntry;
    if entries == [] {
      NoQuotes("");
    } else {
      var rest := entries[1..];
      EntryScans(entries[0]);
      EntriesScan(rest);
      var clean := forall i :: 0 <= i < |rest| ==> StrictEntry(rest[i]);
      CommaScans(EntryText(entries[0]), EntriesText(rest), StrictEntry(entries[0]), clean);
      NoQuotes("");
      ScansAppend(EntryText(entries[0]), "", StrictEntry(entries[0]), true);
      assert (forall i :: 0 <= i < |entries| ==> StrictEntry(entries[i])) <==> StrictEntry(entries[0]) && clean;
    }
  }

  // ----- Documents

  /** The bytes are those of a tree of this value that the RFC allows too. */
  ghost predicate StrictlyDenotes(e: Element, bytes: string, v: Value) {
    Denotes(e, bytes, v) && StrictElement(e)
  }

  lemma DenotedScans(e: Element, bytes: string, v: Value)
    requires Denotes(e, bytes, v)
    ensures StrictElement(e) <==> Clean(bytes, Outside)
  {
    hide ElementText, GoodElement, Meaning, Height, StrictElement;
    ElementScans(e);
  }

  /** An accepted text is one of the RFC if and only if no character below 0x20 stands in its strings. */
  lemma StrictIff(text: string, v: Value)
    requires Decode(text) == Ok(v)
    ensures (exists e :: StrictlyDenotes(e, Utf8(text), v)) <==> Clean(Utf8(text), Outside)
  {
    hide Denotes, ParseDocument, StrictElement, Clean;
    var bytes := Utf8(text);
    var e := DocumentAccepted(bytes);
    DenotedScans(e, bytes, v);
    if Clean(bytes, Outside) {
      assert StrictlyDenotes(e, Utf8(text), v);
    }
    if f :| StrictlyDenotes(f, bytes, v) {
      DenotedScans(f, bytes, v);
    }
  }
}
