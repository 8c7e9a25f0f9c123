/** The decoder reads every tree of the syntax: it gives the tree's value, or refuses it exactly for
    nesting too deep. */
module JsonReading {
  import opened Wrappers
  import opened Arithmetic
  import opened Floats
  import opened JsonNumber
  import opened JsonModel
  import opened JsonSyntax
  import opened JsonDecoder

  /** `text` stands in the input at `pos`. */
  ghost predicate Reads(input: string, pos: nat, text: string) {
    pos + |text| <= |input| && input[pos..pos + |text|] == text
  }

  lemma ReadsSplit(input: string, pos: nat, a: string, b: string)
    requires Reads(input, pos, a + b)
    ensures Reads(input, pos, a) && Reads(input, pos + |a|, b)
  {
    var both := input[pos..pos + |a + b|];
    assert both[..|a|] == a && both[|a|..] == b;
    assert input[pos..pos + |a|] == both[..|a|];
    assert input[pos + |a|..pos + |a| + |b|] == both[|a|..];
  }

  lemma ReadsAt(input: string, pos: nat, text: string, i: nat)
    requires Reads(input, pos, text) && i < |text|
    ensures pos + i < |input| && input[pos + i] == text[i]
  {
    assert input[pos..pos + |text|][i] == input[pos + i];
  }

  ghost predicate SpaceAt(input: string, pos: nat) {
    pos < |input| && IsSpace(input[pos])
  }

  lemma {:induction false} SpaceRead(input: string, pos: nat, space: string)
    requires Reads(input, pos, space) && AllSpace(space) && !SpaceAt(input, pos + |space|)
    ensures SkipSpace(input, pos) == pos + |space|
    decreases |space|
  {
    if space != "" {
      ReadsAt(input, pos, space, 0);
      assert space == [space[0]] + space[1..];
      ReadsSplit(input, pos, [space[0]], space[1..]);
      SpaceRead(input, pos + 1, space[1..]);
    }
  }

  // ----- Numbers

  /** A numeral would go on here. */
  ghost predicate Continues(input: string, pos: nat) {
    DigitAt(input, pos) || At(input, pos, '.') || At(input, pos, 'e') || At(input, pos, 'E')
  }

  lemma {:induction false} DigitsRead(input: string, pos: nat, text: string)
    requires Reads(input, pos, text) && AllDigits(text) && !DigitAt(input, pos + |text|)
    ensures SkipDigits(input, pos) == pos + |text|
    decreases |text|
  {
    if text != "" {
      ReadsAt(input, pos, text, 0);
      assert text == [text[0]] + text[1..];
      ReadsSplit(input, pos, [text[0]], text[1..]);
      DigitsRead(input, pos + 1, text[1..]);
    }
  }

  lemma WholeRead(input: string, start: nat, pos: nat, n: Numeral)
    requires n.Good() && Reads(input, pos, n.whole) && !DigitAt(input, pos + |n.whole|)
    ensures IntegerPart(input, start, pos) == Ok(((), pos + |n.whole|))
    ensures DigitAt(input, pos)
  {
    var text := n.whole;
    ReadsAt(input, pos, text, 0);
    assert text == [text[0]] + text[1..];
    ReadsSplit(input, pos, [text[0]], text[1..]);
    DigitsRead(input, pos + 1, text[1..]);
  }

  lemma PointRead(input: string, pos: nat, n: Numeral)
    requires n.Good() && Reads(input, pos, n.Point()) && !DigitAt(input, pos + |n.Point()|)
    requires n.fraction == "" ==> !At(input, pos, '.')
    ensures Fraction(input, pos) == Ok(((), pos + |n.Point()|))
  {
    if n.fraction != "" {
      ReadsAt(input, pos, n.Point(), 0);
      ReadsSplit(input, pos, ['.'], n.fraction);
      ReadsAt(input, pos + 1, n.fraction, 0);
      DigitsRead(input, pos + 1, n.fraction);
    }
  }

  lemma FirstDigit(text: string)
    requires AllDigits(text) && text != ""
    ensures IsDigit(text[0])
  {
  }

  lemma ExponentRead(input: string, pos: nat, exp: string)
    requires exp == "" || GoodExponent(exp)
    requires Reads(input, pos, exp) && !Continues(input, pos + |exp|)
    ensures Exponent(input, pos) == Ok(((), pos + |exp|))
  {
    hide AllDigits, Reads, SkipDigits;
    if exp != "" {
      var k := if exp[1] == '+' || exp[1] == '-' then 2 else 1;
      ReadsAt(input, pos, exp, 0);
      ReadsAt(input, pos, exp, 1);
      assert exp == exp[..k] + exp[k..];
      ReadsSplit(input, pos, exp[..k], exp[k..]);
      ExponentDigitsRead(input, pos + k, exp[k..]);
    }
  }

  lemma ExponentDigitsRead(input: string, pos: nat, digits: string)
    requires digits != "" && AllDigits(digits) && Reads(input, pos, digits) && !Continues(input, pos + |digits|)
    ensures DigitAt(input, pos) && SkipDigits(input, pos) == pos + |digits|
  {
    hide AllDigits, Reads;
    FirstDigit(digits);
    ReadsAt(input, pos, digits, 0);
    DigitsRead(input, pos, digits);
  }

  /** Where the parts of a numeral are, and that each ends where the next begins. */
  lemma NumeralLayout(input: string, pos: nat, n: Numeral)
    requires n.Good() && Reads(input, pos, n.Text()) && !Continues(input, pos + |n.Text()|)
    ensures var p0 := pos + |n.Sign()|;
            var p1 := p0 + |n.whole|;
            var p2 := p1 + |n.Point()|;
            && p2 + |n.exp| == pos + |n.Text()|
            && Reads(input, pos, n.Sign()) && Reads(input, p0, n.whole)
            && Reads(input, p1, n.Point()) && Reads(input, p2, n.exp)
            && !DigitAt(input, p1) && !DigitAt(input, p2) && (n.fraction == "" ==> !At(input, p1, '.'))
  {
    hide Reads, Continues, Numeral.Good, Numeral.Sign, Numeral.Point;
    var p0 := pos + |n.Sign()|;
    var p1 := p0 + |n.whole|;
    ReadsSplit(input, pos, n.Sign(), n.whole + (n.Point() + n.exp));
    ReadsSplit(input, p0, n.whole, n.Point() + n.exp);
    ReadsSplit(input, p1, n.Point(), n.exp);
    NumeralEnds(input, p1, n);
  }

  /** The point and the exponent begin with no digit. */
  lemma NumeralEnds(input: string, pos: nat, n: Numeral)
    requires n.Good() && Reads(input, pos, n.Point()) && Reads(input, pos + |n.Point()|, n.exp)
    requires !Continues(input, pos + |n.Point()| + |n.exp|)
    ensures !DigitAt(input, pos) && !DigitAt(input, pos + |n.Point()|)
    ensures n.fraction == "" ==> !At(input, pos, '.')
  {
    hide Reads, AllDigits;
    if n.exp != "" {
      ReadsAt(input, pos + |n.Point()|, n.exp, 0);
    }
    if n.fraction != "" {
      ReadsAt(input, pos, n.Point(), 0);
    }
  }

  lemma ReadsSlice(input: string, pos: nat, text: string, end: nat)
    requires Reads(input, pos, text) && end == pos + |text|
    ensures end <= |input| && input[pos..end] == text
  {
  }

  /** What reading a numeral gives: its number, or an error if that is infinite. */
  ghost function NumeralOutcome(n: Numeral, pos: nat): Parsed<Value> {
    match n.Value()
    case None => Err(InvalidNumber(pos))
    case Some(x) => Ok((Number(x), pos + |n.Text()|))
  }

  /** The number of a numeral whose parts are where they should be. */
  lemma NumeralScanned(input: string, pos: nat, n: Numeral)
    requires n.Good() && Reads(input, pos, n.Text()) && !Continues(input, pos + |n.Text()|)
    ensures var p0 := pos + |n.Sign()|;
            var p1 := p0 + |n.whole|;
            var p2 := p1 + |n.Point()|;
            && p2 + |n.exp| == pos + |n.Text()| <= |input|
            && ScannedNumber(input, pos, p0, p1, p2, p2 + |n.exp|) == NumeralOutcome(n, pos)
  {
    hide NumeralValue, Continues, Reads, Numeral.Good, Numeral.Text, Numeral.Sign, Numeral.Point;
    NumeralLayout(input, pos, n);
    var p0 := pos + |n.Sign()|;
    var p1 := p0 + |n.whole|;
    var p2 := p1 + |n.Point()|;
    SignLength(n);
    ReadsSlice(input, p0, n.whole, p1);
    PointSlice(input, p1, n);
    ReadsSlice(input, p2, n.exp, p2 + |n.exp|);
  }

  lemma SignLength(n: Numeral)
    ensures |n.Sign()| > 0 <==> n.negative
  {
  }

  lemma PointSlice(input: string, pos: nat, n: Numeral)
    requires Reads(input, pos, n.Point())
    ensures var p := pos + |n.Point()|;
            p <= |input| && (if p > pos then input[pos + 1..p] else "") == n.fraction
  {
    if n.fraction != "" {
      ReadsSplit(input, pos, ['.'], n.fraction);
    }
  }

  lemma NumeralRead(input: string, pos: nat, n: Numeral)
    requires n.Good() && Reads(input, pos, n.Text()) && !Continues(input, pos + |n.Text()|)
    ensures pos < |input| && (input[pos] == '-' || IsDigit(input[pos]))
    ensures ParseNumber(input, pos) == NumeralOutcome(n, pos)
  {
    hide IntegerPart, Fraction, Exponent, ScannedNumber, Reads, Numeral.Good, Numeral.Value, Numeral.Text;
    NumeralScanned(input, pos, n);
    NumeralLayout(input, pos, n);
    var p0 := pos + |n.Sign()|;
    var p1 := p0 + |n.whole|;
    WholeRead(input, pos, p0, n);
    PointRead(input, p1, n);
    ExponentOfRead(input, p1 + |n.Point()|, n);
    if n.negative {
      ReadsAt(input, pos, n.Sign(), 0);
    }
  }

  lemma ExponentOfRead(input: string, pos: nat, n: Numeral)
    requires n.Good() && Reads(input, pos, n.exp) && !Continues(input, pos + |n.exp|)
    ensures Exponent(input, pos) == Ok(((), pos + |n.exp|))
  {
    ExponentRead(input, pos, n.exp);
  }

  // ----- Strings

  lemma Hex4Read(input: string, pos: nat, hex: string)
    requires IsHex4(hex) && Reads(input, pos, hex)
    ensures ParseHex4(input, pos) == Ok((Hex4Value(hex), pos + 4))
  {
    hide HexDigits, HexValue;
    ReadsAt(input, pos, hex, 0);
    ReadsAt(input, pos, hex, 1);
    ReadsAt(input, pos, hex, 2);
    ReadsAt(input, pos, hex, 3);
    var (a, b, c, d) :=
      (HexValue(hex[0]).value, HexValue(hex[1]).value, HexValue(hex[2]).value, HexValue(hex[3]).value);
    HexUnfolds(input, pos, pos, 4, 0);
    HexUnfolds(input, pos, pos + 1, 3, a);
    HexUnfolds(input, pos, pos + 2, 2, a * 16 + b);
    HexUnfolds(input, pos, pos + 3, 1, (a * 16 + b) * 16 + c);
    HexUnfolds(input, pos, pos + 4, 0, ((a * 16 + b) * 16 + c) * 16 + d);
  }

  lemma UnitRead(input: string, escPos: nat, pos: nat, piece: Piece)
    requires piece.Unit? && piece.Good() && Reads(input, pos, piece.Text())
    ensures UnicodeEscape(input, escPos, pos + 2) == Ok((piece.Char(), pos + |piece.Text()|))
  {
    hide ParseHex4, Hex4Value, HexValue, Reads;
    ReadsSplit(input, pos, ['\\', 'u'], piece.hex);
    Hex4Read(input, pos + 2, piece.hex);
  }

  /** Where the halves of a pair of surrogates are. */
  lemma PairLayout(input: string, pos: nat, piece: Piece)
    requires piece.Pair? && piece.Good() && Reads(input, pos, piece.Text())
    ensures |piece.Text()| == 12
    ensures Reads(input, pos + 2, piece.high) && At(input, pos + 6, '\\') && At(input, pos + 7, 'u')
    ensures Reads(input, pos + 8, piece.low)
  {
    hide Hex4Value, HexValue, Reads;
    var u := ['\\', 'u'];
    ReadsSplit(input, pos, u + piece.high, u + piece.low);
    ReadsSplit(input, pos, u, piece.high);
    ReadsSplit(input, pos + 6, u, piece.low);
    ReadsAt(input, pos + 6, u, 0);
    ReadsAt(input, pos + 6, u, 1);
  }

  lemma PairRead(input: string, escPos: nat, pos: nat, piece: Piece)
    requires piece.Pair? && piece.Good() && Reads(input, pos, piece.Text())
    ensures UnicodeEscape(input, escPos, pos + 2) == Ok((piece.Char(), pos + |piece.Text()|))
  {
    hide ParseHex4, Hex4Value, IsHex4, Reads, Piece.Text;
    PairLayout(input, pos, piece);
    Hex4Read(input, pos + 2, piece.high);
    Hex4Read(input, pos + 8, piece.low);
  }

  lemma ShortRead(input: string, pos: nat, piece: Piece)
    requires piece.Short? && piece.Good() && Reads(input, pos, piece.Text())
    ensures At(input, pos, '\\') && EscapedChar(input, pos + 1) == Ok((piece.Char(), pos + 2))
  {
    hide UnicodeEscape, Reads;
    ReadsAt(input, pos, piece.Text(), 0);
    ReadsAt(input, pos, piece.Text(), 1);
  }

  lemma UnicodeRead(input: string, pos: nat, piece: Piece)
    requires (piece.Unit? || piece.Pair?) && piece.Good() && Reads(input, pos, piece.Text())
    ensures At(input, pos, '\\') && EscapedChar(input, pos + 1) == Ok((piece.Char(), pos + |piece.Text()|))
  {
    hide UnicodeEscape, Reads, Piece.Good, Piece.Char;
    ReadsAt(input, pos, piece.Text(), 0);
    ReadsAt(input, pos, piece.Text(), 1);
    if piece.Unit? {
      UnitRead(input, pos + 1, pos, piece);
    } else {
      PairRead(input, pos + 1, pos, piece);
    }
  }

  lemma PieceRead(input: string, pos: nat, piece: Piece, acc: string)
    requires piece.Good() && Reads(input, pos, piece.Text())
    ensures StringTail(input, pos, acc) == StringTail(input, pos + |piece.Text()|, acc + [piece.Char()])
  {
    hide EscapedChar, Hex4Value, IsHex4;
    match piece
    case Raw(_) => ReadsAt(input, pos, piece.Text(), 0);
    case Short(_) => ShortRead(input, pos, piece);
    case _ => UnicodeRead(input, pos, piece);
  }

  lemma {:induction false} PiecesRead(input: string, pos: nat, pieces: seq<Piece>, acc: string)
    requires GoodPieces(pieces) && Reads(input, pos, PiecesText(pieces))
    ensures StringTail(input, pos, acc) == StringTail(input, pos + |PiecesText(pieces)|, acc + Chars(pieces))
    decreases |pieces|
  {
    hide StringTail, Reads, Piece.Text, Piece.Char, Piece.Good;
    if pieces == [] {
      assert acc + Chars(pieces) == acc;
    } else {
      var first, rest := pieces[0], pieces[1..];
      ReadsSplit(input, pos, first.Text(), PiecesText(rest));
      PieceRead(input, pos, first, acc);
      PiecesRead(input, pos + |first.Text()|, rest, acc + [first.Char()]);
      assert acc + [first.Char()] + Chars(rest) == acc + Chars(pieces);
    }
  }

  lemma StringRead(input: string, pos: nat, pieces: seq<Piece>)
    requires GoodPieces(pieces) && Reads(input, pos, StringText(pieces))
    ensures ParseString(input, pos) == Ok((Chars(pieces), pos + |StringText(pieces)|))
  {
    hide Reads, PiecesText, Chars;
    ReadsSplit(input, pos, ['"'], PiecesText(pieces) + ['"']);
    ReadsAt(input, pos, ['"'], 0);
    ReadsSplit(input, pos + 1, PiecesText(pieces), ['"']);
    ReadsAt(input, pos + 1 + |PiecesText(pieces)|, ['"'], 0);
    PiecesRead(input, pos + 1, pieces, "");
    assert "" + Chars(pieces) == Chars(pieces);
  }

  // ----- Values

  /** What may follow a value and the space after it. */
  ghost predicate Stops(input: string, pos: nat) {
    pos < |input| ==> input[pos] == ',' || input[pos] == ']' || input[pos] == '}'
  }

  /** What reading something of this height at a nesting depth gives. */
  ghost function Expected<T>(depth: int, height: nat, value: T, end: nat): Parsed<T> {
    if depth + height <= MAX_DEPTH then Ok((value, end)) else Err(DepthExceeded)
  }

  /** The first character of a tree decides which branch of the decoder reads it. */
  lemma FirstChar(t: Tree)
    requires Good(t)
    ensures Text(t) != "" && !IsSpace(Text(t)[0])
    ensures var c := Text(t)[0];
            match t
            case Word(v) => c == if v == Bool(true) then 't' else if v == Bool(false) then 'f' else 'n'
            case Num(_) => c == '-' || IsDigit(c)
            case Str(_) => c == '"'
            case Arr(_, _) => c == '['
            case Obj(_, _) => c == '{'
  {
    if t.Num? {
      hide AllDigits, Round, Exact;
      FirstDigit(t.numeral.whole);
    }
  }

  lemma {:induction false} LiteralRead<T>(input: string, pos: nat, text: string, value: T)
    requires Reads(input, pos, text)
    ensures Literal(input, pos, text, value) == Ok((value, pos + |text|))
    decreases |text|
  {
    if text != "" {
      ReadsAt(input, pos, text, 0);
      assert text == [text[0]] + text[1..];
      ReadsSplit(input, pos, [text[0]], text[1..]);
      LiteralRead(input, pos + 1, text[1..], value);
    }
  }

  lemma WordRead(input: string, pos: nat, t: Tree, depth: int)
    requires t.Word? && Good(t) && depth <= MAX_DEPTH && Reads(input, pos, Text(t))
    ensures pos < |input|
    ensures ParseStarting(input, pos, depth) == Expected(depth, Height(t), Meaning(t), pos + |Text(t)|)
  {
    hide Reads;
    FirstChar(t);
    ReadsAt(input, pos, Text(t), 0);
    LiteralRead(input, pos, Text(t), t.value);
  }

  lemma NumRead(input: string, pos: nat, t: Tree, depth: int)
    requires t.Num? && Good(t) && depth <= MAX_DEPTH
    requires Reads(input, pos, Text(t)) && !Continues(input, pos + |Text(t)|)
    ensures pos < |input|
    ensures ParseStarting(input, pos, depth) == Expected(depth, Height(t), Meaning(t), pos + |Text(t)|)
  {
    hide Reads, Continues, ParseNumber, Numeral.Good, Numeral.Value, Numeral.Text;
    NumeralRead(input, pos, t.numeral);
  }

  lemma StrRead(input: string, pos: nat, t: Tree, depth: int)
    requires t.Str? && Good(t) && depth <= MAX_DEPTH && Reads(input, pos, Text(t))
    ensures pos < |input|
    ensures ParseStarting(input, pos, depth) == Expected(depth, Height(t), Meaning(t), pos + |Text(t)|)
  {
    hide Reads, ParseString, GoodPieces, Chars;
    FirstChar(t);
    ReadsAt(input, pos, Text(t), 0);
    StringRead(input, pos, t.pieces);
  }

  /** Where the parts of an element are. */
  lemma ElementLayout(input: string, pos: nat, e: Element)
    requires GoodElement(e) && Reads(input, pos, ElementText(e)) && Stops(input, pos + |ElementText(e)|)
    ensures var (p, q) := (pos + |e.lead|, pos + |e.lead| + |Text(e.tree)|);
            && p <= |input| && q <= |input|
            && SkipSpace(input, pos) == p && Reads(input, p, Text(e.tree)) && !Continues(input, q)
            && SkipSpace(input, q) == pos + |ElementText(e)|
  {
    hide Text, Reads, SkipSpace, Good, AllSpace;
    var (p, q) := (pos + |e.lead|, pos + |e.lead| + |Text(e.tree)|);
    ReadsSplit(input, pos, e.lead, Text(e.tree) + e.trail);
    ReadsSplit(input, p, Text(e.tree), e.trail);
    FirstChar(e.tree);
    ReadsAt(input, p, Text(e.tree), 0);
    SpaceRead(input, pos, e.lead);
    TrailRead(input, q, e.trail);
  }

  /** The space after a value, and that no numeral goes on there. */
  lemma TrailRead(input: string, pos: nat, trail: string)
    requires AllSpace(trail) && Reads(input, pos, trail) && Stops(input, pos + |trail|)
    ensures pos <= |input| && SkipSpace(input, pos) == pos + |trail| && !Continues(input, pos)
  {
    hide Reads, SkipSpace;
    ReadsWithin(input, pos, trail);
    SpaceRead(input, pos, trail);
    if trail != "" {
      ReadsAt(input, pos, trail, 0);
    }
  }

  lemma ReadsWithin(input: string, pos: nat, text: string)
    requires Reads(input, pos, text)
    ensures pos + |text| <= |input|
  {
  }

  lemma {:induction false} ElementRead(input: string, pos: nat, e: Element, depth: int)
    requires GoodElement(e) && depth <= MAX_DEPTH + 1
    requires Reads(input, pos, ElementText(e)) && Stops(input, pos + |ElementText(e)|)
    ensures var q := pos + |e.lead| + |Text(e.tree)|;
            && q <= |input| && SkipSpace(input, q) == pos + |ElementText(e)|
            && ParseValue(input, pos, depth) == Expected(depth, Height(e.tree), Meaning(e.tree), q)
    decreases e, 1
  {
    hide Text, Reads, Stops, Continues, SkipSpace, ParseStarting, Meaning, Height;
    ElementLayout(input, pos, e);
    if depth <= MAX_DEPTH {
      TreeRead(input, pos + |e.lead|, e.tree, depth);
    }
  }

  lemma {:induction false} TreeRead(input: string, pos: nat, t: Tree, depth: int)
    requires Good(t) && depth <= MAX_DEPTH
    requires Reads(input, pos, Text(t)) && !Continues(input, pos + |Text(t)|)
    ensures pos < |input|
    ensures ParseStarting(input, pos, depth) == Expected(depth, Height(t), Meaning(t), pos + |Text(t)|)
    decreases t, 1
  {
    hide ParseArray, ParseObject, Reads, Continues, Meaning, Height, Text, Good;
    match t
    case Arr(space, items) =>
      FirstChar(t);
      ReadsAt(input, pos, Text(t), 0);
      ArrayRead(input, pos, space, items, depth);
    case Obj(space, entries) =>
      FirstChar(t);
      ReadsAt(input, pos, Text(t), 0);
      ObjectRead(input, pos, space, entries, depth);
    case Word(_) => WordRead(input, pos, t, depth);
    case Num(_) => NumRead(input, pos, t, depth);
    case Str(_) => StrRead(input, pos, t, depth);
  }

  // ----- Arrays

  /** Space before the closing bracket of an empty array or object. */
  lemma EmptyRead(input: string, pos: nat, space: string, close: char)
    requires AllSpace(space) && !IsSpace(close) && Reads(input, pos, space + [close])
    ensures pos <= |input| && SkipSpace(input, pos) == pos + |space| && At(input, pos + |space|, close)
  {
    ReadsSplit(input, pos, space, [close]);
    ReadsAt(input, pos + |space|, [close], 0);
    SpaceRead(input, pos, space);
  }

  /** Skipping space twice is skipping it once. */
  lemma {:induction false} SkipAgain(input: string, pos: nat)
    requires pos <= |input|
    ensures SkipSpace(input, SkipSpace(input, pos)) == SkipSpace(input, pos)
    ensures !SpaceAt(input, SkipSpace(input, pos))
    decreases |input| - pos
  {
    if SpaceAt(input, pos) {
      SkipAgain(input, pos + 1);
    }
  }

  lemma ValueSkips(input: string, pos: nat, q: nat, depth: int)
    requires pos <= |input| && depth <= MAX_DEPTH + 1 && q == SkipSpace(input, pos)
    ensures ParseValue(input, q, depth) == ParseValue(input, pos, depth)
  {
    hide ParseStarting, SkipSpace;
    SkipAgain(input, pos);
  }

  lemma ArrayTailSkips(input: string, pos: nat, q: nat, depth: int, acc: seq<Value>)
    requires pos <= |input| && depth <= MAX_DEPTH && q == SkipSpace(input, pos)
    ensures ArrayTail(input, q, depth, acc) == ArrayTail(input, pos, depth, acc)
  {
    hide ParseValue, SkipSpace;
    ValueSkips(input, pos, q, depth + 1);
  }

  lemma {:induction false} ArrayRead(input: string, pos: nat, space: string, items: seq<Element>, depth: int)
    requires Good(Arr(space, items)) && depth <= MAX_DEPTH && Reads(input, pos, Text(Arr(space, items)))
    ensures var t := Arr(space, items);
            && pos < |input|
            && ParseArray(input, pos, depth) == Expected(depth, Height(t), Meaning(t), pos + |Text(t)|)
    decreases items, 1
  {
    hide ArrayTail, Reads, SkipSpace, ItemsText;
    var inner := (space + ItemsText(items)) + [']'];
    ReadsSplit(input, pos, ['['], inner);
    ReadsAt(input, pos, ['['], 0);
    ReadsWithin(input, pos + 1, inner);
    if items == [] {
      assert inner == space + [']'] by { assert ItemsText([]) == "" by { NoItems(); } }
      EmptyRead(input, pos + 1, space, ']');
    } else {
      assert inner == ItemsText(items) + [']'];
      ItemsStart(input, pos + 1, items);
      ArrayTailSkips(input, pos + 1, SkipSpace(input, pos + 1), depth, []);
      ItemsRead(input, pos + 1, items, depth, []);
      assert [] + ItemsMeaning(items) == ItemsMeaning(items);
    }
  }

  lemma NoItems()
    ensures ItemsText([]) == "" && EntriesText([]) == ""
  {
  }

  lemma Regroup(text: string, rest: string, close: string)
    ensures (text + ([','] + rest)) + close == text + ([','] + (rest + close))
    ensures (text + "") + close == text + close
  {
  }

  /** Where the first of the items ends, and what comes next. */
  lemma ItemsLayout(input: string, pos: nat, items: seq<Element>)
    requires items != [] && Reads(input, pos, ItemsText(items) + [']'])
    ensures var p := pos + |ElementText(items[0])|;
            && Reads(input, pos, ElementText(items[0])) && Stops(input, p)
            && if |items| == 1 then At(input, p, ']') && |ItemsText(items)| == |ElementText(items[0])|
               else
                 && At(input, p, ',') && Reads(input, p + 1, ItemsText(items[1..]) + [']'])
                 && |ItemsText(items)| == |ElementText(items[0])| + 1 + |ItemsText(items[1..])|
  {
    hide ElementText, Reads;
    var text, rest := ElementText(items[0]), items[1..];
    var more := if rest == [] then [']'] else [','] + (ItemsText(rest) + [']']);
    Regroup(text, ItemsText(rest), [']']);
    assert ItemsText(items) + [']'] == text + more;
    ReadsSplit(input, pos, text, more);
    ReadsAt(input, pos + |text|, more, 0);
    if rest != [] {
      ReadsSplit(input, pos + |text|, [','], ItemsText(rest) + [']']);
    }
  }

  /** An array with items does not look empty. */
  lemma ItemsStart(input: string, pos: nat, items: seq<Element>)
    requires items != [] && GoodElement(items[0]) && Reads(input, pos, ItemsText(items) + [']'])
    ensures pos <= |input| && !At(input, SkipSpace(input, pos), ']')
  {
    hide Text, Reads, SkipSpace, ItemsText;
    ItemsLayout(input, pos, items);
    var e := items[0];
    ElementLayout(input, pos, e);
    FirstChar(e.tree);
    ReadsAt(input, pos + |e.lead|, Text(e.tree), 0);
    NoCloser(e.tree);
  }

  lemma NoCloser(t: Tree)
    requires Good(t)
    ensures Text(t) != "" && Text(t)[0] != ']' && Text(t)[0] != '}'
  {
    FirstChar(t);
  }

  /** One turn of the array loop. */
  lemma ArrayTailStep(input: string, pos: nat, depth: int, acc: seq<Value>)
    requires pos <= |input| && depth <= MAX_DEPTH
    ensures match ParseValue(input, pos, depth + 1)
            case Err(e) => ArrayTail(input, pos, depth, acc) == Err(e)
            case Ok((v, p)) =>
              var q := SkipSpace(input, p);
              && (At(input, q, ',') ==> ArrayTail(input, pos, depth, acc) == ArrayTail(input, q + 1, depth, acc + [v]))
              && (At(input, q, ']') ==> ArrayTail(input, pos, depth, acc) == Ok((Array(acc + [v]), q + 1)))
  {
    hide ParseValue, SkipSpace;
  }

  lemma ItemsStep(items: seq<Element>, acc: seq<Value>)
    requires items != []
    ensures ItemsHeight(items) == Max(Height(items[0].tree), ItemsHeight(items[1..]))
    ensures acc + [Meaning(items[0].tree)] + ItemsMeaning(items[1..]) == acc + ItemsMeaning(items)
    ensures |items| == 1 ==> ItemsHeight(items) == Height(items[0].tree)
    ensures |items| == 1 ==> acc + [Meaning(items[0].tree)] == acc + ItemsMeaning(items)
  {
    var (v, rest, all) := (Meaning(items[0].tree), ItemsMeaning(items[1..]), ItemsMeaning(items));
    ItemsUnfold(items);
    SnocAppend(acc, v, rest, all);
  }

  lemma ItemsUnfold(items: seq<Element>)
    requires items != []
    ensures ItemsMeaning(items) == [Meaning(items[0].tree)] + ItemsMeaning(items[1..])
    ensures |items| == 1 ==> ItemsMeaning(items[1..]) == []
  {
  }

  lemma SnocAppend<T>(acc: seq<T>, v: T, rest: seq<T>, all: seq<T>)
    requires all == [v] + rest
    ensures acc + [v] + rest == acc + all
    ensures rest == [] ==> acc + [v] == acc + all
  {
  }

  lemma {:induction false} ItemsRead(input: string, pos: nat, items: seq<Element>, depth: int, acc: seq<Value>)
    requires items != [] && (forall i :: 0 <= i < |items| ==> GoodElement(items[i])) && depth <= MAX_DEPTH
    requires Reads(input, pos, ItemsText(items) + [']'])
    ensures pos <= |input|
    ensures ArrayTail(input, pos, depth, acc) ==
            Expected(depth + 1, ItemsHeight(items), Array(acc + ItemsMeaning(items)), pos + |ItemsText(items)| + 1)
    decreases items, 0
  {
    hide ArrayTail, ParseValue, ElementText, ItemsText, Reads, Stops, SkipSpace;
    hide GoodElement, Meaning, Height, ItemsMeaning, ItemsHeight;
    ItemsLayout(input, pos, items);
    var e, rest := items[0], items[1..];
    ElementRead(input, pos, e, depth + 1);
    ArrayTailStep(input, pos, depth, acc);
    ItemsStep(items, acc);
    if rest != [] {
      ItemsRead(input, pos + |ElementText(e)| + 1, rest, depth, acc + [Meaning(e.tree)]);
    }
  }

  // ----- Objects

  lemma {:induction false} ObjectRead(input: string, pos: nat, space: string, entries: seq<Entry>, depth: int)
    requires Good(Obj(space, entries)) && depth <= MAX_DEPTH && Reads(input, pos, Text(Obj(space, entries)))
    ensures var t := Obj(space, entries);
            && pos < |input|
            && ParseObject(input, pos, depth) == Expected(depth, Height(t), Meaning(t), pos + |Text(t)|)
    decreases entries, 1
  {
    hide ObjectTail, Reads, SkipSpace, EntriesText;
    var inner := (space + EntriesText(entries)) + ['}'];
    ReadsSplit(input, pos, ['{'], inner);
    ReadsAt(input, pos, ['{'], 0);
    ReadsWithin(input, pos + 1, inner);
    if entries == [] {
      assert inner == space + ['}'] by { NoItems(); }
      EmptyRead(input, pos + 1, space, '}');
    } else {
      assert inner == EntriesText(entries) + ['}'];
      EntriesStart(input, pos + 1, entries);
      ObjectTailSkips(input, pos + 1, SkipSpace(input, pos + 1), depth, []);
      EntriesRead(input, pos + 1, entries, depth, []);
    }
  }

  lemma KeySkips(input: string, pos: nat, q: nat)
    requires pos <= |input| && q == SkipSpace(input, pos)
    ensures ParseKey(input, q) == ParseKey(input, pos)
  {
    hide ParseString, SkipSpace;
    SkipAgain(input, pos);
  }

  lemma ObjectTailSkips(input: string, pos: nat, q: nat, depth: int, acc: seq<Member>)
    requires pos <= |input| && depth <= MAX_DEPTH && q == SkipSpace(input, pos)
    ensures ObjectTail(input, q, depth, acc) == ObjectTail(input, pos, depth, acc)
  {
    hide ParseKey, ParseValue, SkipSpace, Insert;
    KeySkips(input, pos, q);
  }

  /** The key of the entry at `pos`, and where its element is. */
  lemma KeyRead(input: string, pos: nat, e: Entry)
    requires GoodEntry(e) && Reads(input, pos, EntryText(e))
    ensures var p := pos + |EntryText(e)| - |ElementText(e.element)|;
            && pos <= p <= |input| && ParseKey(input, pos) == Ok((Chars(e.key), p))
            && Reads(input, p, ElementText(e.element))
    ensures At(input, SkipSpace(input, pos), '"')
  {
    hide ElementText, ParseString, Reads, SkipSpace, StringText, EntryText, Chars, GoodPieces, GoodElement, AllSpace;
    var p := pos + |e.lead|;
    var q := p + |StringText(e.key)|;
    EntryLayout(input, pos, p, q, e);
    SpaceRead(input, pos, e.lead);
    SpaceRead(input, q, e.gap);
    StringRead(input, p, e.key);
  }

  /** Where the parts of an entry are. */
  lemma EntryLayout(input: string, pos: nat, p: nat, q: nat, e: Entry)
    requires Reads(input, pos, EntryText(e)) && p == pos + |e.lead| && q == p + |StringText(e.key)|
    ensures Reads(input, pos, e.lead) && Reads(input, p, StringText(e.key)) && Reads(input, q, e.gap)
    ensures At(input, p, '"') && At(input, q + |e.gap|, ':')
    ensures Reads(input, q + |e.gap| + 1, ElementText(e.element))
    ensures q + |e.gap| + 1 + |ElementText(e.element)| == pos + |EntryText(e)| <= |input|
  {
    hide ElementText, Reads, PiecesText;
    var (key, rest) := (StringText(e.key), [':'] + ElementText(e.element));
    ReadsWithin(input, pos, EntryText(e));
    ReadsSplit(input, pos, e.lead, key + (e.gap + rest));
    ReadsSplit(input, p, key, e.gap + rest);
    ReadsSplit(input, q, e.gap, rest);
    ReadsSplit(input, q + |e.gap|, [':'], ElementText(e.element));
    ReadsAt(input, p, key, 0);
    ReadsAt(input, q + |e.gap|, [':'], 0);
  }

  /** Where the first of the entries ends, and what comes next. */
  lemma EntriesLayout(input: string, pos: nat, entries: seq<Entry>)
    requires entries != [] && Reads(input, pos, EntriesText(entries) + ['}'])
    ensures var p := pos + |EntryText(entries[0])|;
            && Reads(input, pos, EntryText(entries[0])) && Stops(input, p)
            && if |entries| == 1 then At(input, p, '}') && |EntriesText(entries)| == |EntryText(entries[0])|
               else
                 && At(input, p, ',') && Reads(input, p + 1, EntriesText(entries[1..]) + ['}'])
                 && |EntriesText(entries)| == |EntryText(entries[0])| + 1 + |EntriesText(entries[1..])|
  {
    hide EntryText, Reads;
    var text, rest := EntryText(entries[0]), entries[1..];
    var more := if rest == [] then ['}'] else [','] + (EntriesText(rest) + ['}']);
    Regroup(text, EntriesText(rest), ['}']);
    assert EntriesText(entries) + ['}'] == text + more;
    ReadsSplit(input, pos, text, more);
    ReadsAt(input, pos + |text|, more, 0);
    if rest != [] {
      ReadsSplit(input, pos + |text|, [','], EntriesText(rest) + ['}']);
    }
  }

  lemma EntriesStart(input: string, pos: nat, entries: seq<Entry>)
    requires entries != [] && GoodEntry(entries[0]) && Reads(input, pos, EntriesText(entries) + ['}'])
    ensures pos <= |input| && !At(input, SkipSpace(input, pos), '}')
  {
    hide Reads, SkipSpace, EntriesText, EntryText, GoodEntry;
    EntriesLayout(input, pos, entries);
    KeyRead(input, pos, entries[0]);
  }

  /** One turn of the object loop. */
  lemma ObjectTailStep(input: string, pos: nat, depth: int, acc: seq<Member>, key: string, p: nat)
    requires pos <= p <= |input| && depth <= MAX_DEPTH && ParseKey(input, pos) == Ok((key, p))
    ensures match ParseValue(input, p, depth + 1)
            case Err(e) => ObjectTail(input, pos, depth, acc) == Err(e)
            case Ok((v, q)) =>
              var r := SkipSpace(input, q);
              && (At(input, r, ',') ==>
                    ObjectTail(input, pos, depth, acc) == ObjectTail(input, r + 1, depth, Insert(acc, key, v)))
              && (At(input, r, '}') ==>
                    ObjectTail(input, pos, depth, acc) == Ok((Object(Insert(acc, key, v)), r + 1)))
  {
    hide ParseKey, ParseValue, Insert, SkipSpace;
  }

  lemma EntriesStep(entries: seq<Entry>, acc: seq<Member>)
    requires entries != []
    ensures var (e, rest) := (entries[0], entries[1..]);
            var acc' := Insert(acc, Chars(e.key), Meaning(e.element.tree));
            && EntriesHeight(entries) == Max(Height(e.element.tree), EntriesHeight(rest))
            && EntriesMeaning(entries, acc) == EntriesMeaning(rest, acc')
            && (rest == [] ==> EntriesMeaning(entries, acc) == acc' && EntriesHeight(entries) == Height(e.element.tree))
  {
    hide Chars, Insert, Meaning, Height;
  }

  lemma EntryGood(e: Entry)
    requires GoodEntry(e)
    ensures GoodElement(e.element)
  {
  }

  lemma {:induction false} EntriesRead(input: string, pos: nat, entries: seq<Entry>, depth: int, acc: seq<Member>)
    requires entries != [] && (forall i :: 0 <= i < |entries| ==> GoodEntry(entries[i])) && depth <= MAX_DEPTH
    requires Reads(input, pos, EntriesText(entries) + ['}'])
    ensures pos <= |input|
    ensures ObjectTail(input, pos, depth, acc) ==
            Expected(depth + 1, EntriesHeight(entries), Object(EntriesMeaning(entries, acc)),
                     pos + |EntriesText(entries)| + 1)
    decreases entries, 0
  {
    hide ObjectTail, ParseKey, ParseValue, EntryText, EntriesText, ElementText, Reads, Stops, SkipSpace, Insert;
    hide GoodEntry, GoodElement, Meaning, Height, Chars, EntriesMeaning, EntriesHeight;
    EntriesLayout(input, pos, entries);
    var e, rest := entries[0], entries[1..];
    EntryGood(e);
    KeyRead(input, pos, e);
    var p := pos + |EntryText(e)| - |ElementText(e.element)|;
    ElementRead(input, p, e.element, depth + 1);
    ObjectTailStep(input, pos, depth, acc, Chars(e.key), p);
    EntriesStep(entries, acc);
    if rest != [] {
      EntriesRead(input, pos + |EntryText(e)| + 1, rest, depth, Insert(acc, Chars(e.key), Meaning(e.element.tree)));
    }
  }

  // ----- Documents

  /** The bytes of any tree, with any space in it, decode to its value, unless it nests too deep. */
  lemma DocumentRead(e: Element)
    requires GoodElement(e)
    ensures ParseDocument(ElementText(e)) ==
            if Height(e.tree) <= MAX_DEPTH then Ok(Meaning(e.tree)) else Err(DepthExceeded)
  {
    hide ParseValue, ElementText, Meaning, Height, GoodElement, SkipSpace;
    var text := ElementText(e);
    assert text[0..0 + |text|] == text;
    ElementRead(text, 0, e, 0);
  }
}
