/** Whatever the decoder accepts is the text of a tree of the syntax, and the value it gives is the
    tree's. Together with the other direction: the decoder accepts exactly the syntax. */
module JsonAcceptance {
  import opened Wrappers
  import opened Arithmetic
  import opened JsonNumber
  import opened JsonModel
  import opened JsonSyntax
  import opened JsonDecoder
  import opened JsonReading

  lemma Joined(input: string, a: nat, b: nat, c: nat)
    requires a <= b <= c <= |input|
    ensures input[a..b] + input[b..c] == input[a..c]
  {
  }

  lemma {:induction false} SkippedIsSpace(input: string, pos: nat)
    requires pos <= |input|
    ensures AllSpace(input[pos..SkipSpace(input, pos)])
    decreases |input| - pos
  {
    if SpaceAt(input, pos) {
      SkippedIsSpace(input, pos + 1);
      var p := SkipSpace(input, pos);
      assert input[pos..p] == [input[pos]] + input[pos + 1..p];
    }
  }

  // ----- Numbers

  lemma {:induction false} SkippedAreDigits(input: string, pos: nat)
    requires pos <= |input|
    ensures AllDigits(input[pos..SkipDigits(input, pos)])
    decreases |input| - pos
  {
    if DigitAt(input, pos) {
      SkippedAreDigits(input, pos + 1);
      var p := SkipDigits(input, pos);
      assert input[pos..p] == [input[pos]] + input[pos + 1..p];
    }
  }

  lemma OneMoreDigit(input: string, pos: nat, end: nat)
    requires pos < end <= |input| && IsDigit(input[pos]) && AllDigits(input[pos + 1..end])
    ensures AllDigits(input[pos..end])
  {
    assert input[pos..end] == [input[pos]] + input[pos + 1..end];
  }

  lemma WholeAccepted(input: string, start: nat, pos: nat)
    requires pos <= |input| && IntegerPart(input, start, pos).Ok?
    ensures var whole := input[pos..IntegerPart(input, start, pos).value.1];
            whole != "" && AllDigits(whole) && (whole[0] == '0' ==> |whole| == 1)
  {
    hide SkipDigits, AllDigits;
    var p := IntegerPart(input, start, pos).value.1;
    if At(input, pos, '0') {
      assert input[pos + 1..p] == "";
      assert AllDigits("") by { NoDigits(); }
    } else {
      SkippedAreDigits(input, pos + 1);
    }
    OneMoreDigit(input, pos, p);
  }

  lemma NoDigits()
    ensures AllDigits("")
  {
  }

  lemma FractionAccepted(input: string, pos: nat)
    requires pos <= |input| && Fraction(input, pos).Ok?
    ensures var p := Fraction(input, pos).value.1;
            p == pos || (At(input, pos, '.') && pos + 1 < p && AllDigits(input[pos + 1..p]))
  {
    hide AllDigits;
    if At(input, pos, '.') {
      SkippedAreDigits(input, pos + 1);
    }
  }

  lemma ExponentAccepted(input: string, pos: nat)
    requires pos <= |input| && JsonDecoder.Exponent(input, pos).Ok?
    ensures var exp := input[pos..JsonDecoder.Exponent(input, pos).value.1];
            exp == "" || GoodExponent(exp)
  {
    hide AllDigits, SkipDigits;
    var p := JsonDecoder.Exponent(input, pos).value.1;
    if p > pos {
      var q := if At(input, pos + 1, '+') || At(input, pos + 1, '-') then pos + 2 else pos + 1;
      SkippedAreDigits(input, q + 1);
      SkipOne(input, q);
      OneMoreDigit(input, q, p);
      var exp := input[pos..p];
      assert exp[q - pos..] == input[q..p];
      assert exp[1] == input[pos + 1];
    }
  }

  lemma SkipOne(input: string, pos: nat)
    requires DigitAt(input, pos)
    ensures SkipDigits(input, pos) == SkipDigits(input, pos + 1)
  {
  }

  /** The numeral between the scanned positions. */
  ghost function NumeralAt(input: string, pos: nat, p0: nat, p1: nat, p2: nat, p3: nat): Numeral
    requires pos <= p0 <= p1 <= p2 <= p3 <= |input|
  {
    Numeral(p0 > pos, input[p0..p1], if p2 > p1 then input[p1 + 1..p2] else "", input[p2..p3])
  }

  lemma NumeralAtText(input: string, pos: nat, p0: nat, p1: nat, p2: nat, p3: nat)
    requires pos <= p0 <= p1 <= p2 <= p3 <= |input|
    requires p0 == pos || (p0 == pos + 1 && input[pos] == '-')
    requires p2 == p1 || (p1 + 1 < p2 && input[p1] == '.')
    ensures NumeralAt(input, pos, p0, p1, p2, p3).Text() == input[pos..p3]
  {
    var n := NumeralAt(input, pos, p0, p1, p2, p3);
    assert n.Sign() == input[pos..p0];
    assert n.Point() == input[p1..p2] by {
      if p2 > p1 {
        assert input[p1..p2] == ['.'] + input[p1 + 1..p2];
      }
    }
    Joined(input, p1, p2, p3);
    Joined(input, p0, p1, p3);
    Joined(input, pos, p0, p3);
  }

  lemma NumberAccepted(input: string, pos: nat) returns (n: Numeral)
    requires pos < |input| && ParseNumber(input, pos).Ok?
    ensures n.Good() && n.Value().Some?
    ensures var (v, p) := ParseNumber(input, pos).value;
            n.Text() == input[pos..p] && v == Number(n.Value().value)
  {
    hide IntegerPart, Fraction, JsonDecoder.Exponent, ScannedNumber, NumeralAt, Numeral.Good, Numeral.Text;
    hide Numeral.Value;
    var p0 := if input[pos] == '-' then pos + 1 else pos;
    var p1 := IntegerPart(input, pos, p0).value.1;
    var p2 := Fraction(input, p1).value.1;
    var p3 := JsonDecoder.Exponent(input, p2).value.1;
    WholeAccepted(input, pos, p0);
    FractionAccepted(input, p1);
    ExponentAccepted(input, p2);
    n := NumeralAt(input, pos, p0, p1, p2, p3);
    NumeralAtGood(input, pos, p0, p1, p2, p3);
    NumeralAtValue(input, pos, p0, p1, p2, p3);
    NumeralAtText(input, pos, p0, p1, p2, p3);
  }

  lemma NumeralAtGood(input: string, pos: nat, p0: nat, p1: nat, p2: nat, p3: nat)
    requires pos <= p0 < p1 <= p2 <= p3 <= |input|
    requires AllDigits(input[p0..p1]) && (input[p0] == '0' ==> p1 == p0 + 1)
    requires p2 == p1 || (p1 + 1 < p2 && AllDigits(input[p1 + 1..p2]))
    requires input[p2..p3] == "" || GoodExponent(input[p2..p3])
    ensures NumeralAt(input, pos, p0, p1, p2, p3).Good()
  {
    hide AllDigits, GoodExponent;
    NoDigits();
  }

  lemma NumeralAtValue(input: string, pos: nat, p0: nat, p1: nat, p2: nat, p3: nat)
    requires pos <= p0 <= p1 <= p2 <= p3 <= |input| && ScannedNumber(input, pos, p0, p1, p2, p3).Ok?
    ensures var x := NumeralAt(input, pos, p0, p1, p2, p3).Value();
            x.Some? && ScannedNumber(input, pos, p0, p1, p2, p3) == Ok((Number(x.value), p3))
  {
    hide NumeralValue;
  }

  // ----- Strings

  lemma Hex4Accepted(input: string, pos: nat)
    requires ParseHex4(input, pos).Ok?
    ensures pos + 4 <= |input| && IsHex4(input[pos..pos + 4])
    ensures ParseHex4(input, pos) == Ok((Hex4Value(input[pos..pos + 4]), pos + 4))
  {
    hide HexDigits, HexValue;
    HexUnfolds(input, pos, pos, 4, 0);
    var a := HexValue(input[pos]).value;
    HexUnfolds(input, pos, pos + 1, 3, a);
    var b := HexValue(input[pos + 1]).value;
    HexUnfolds(input, pos, pos + 2, 2, a * 16 + b);
    var c := HexValue(input[pos + 2]).value;
    HexUnfolds(input, pos, pos + 3, 1, (a * 16 + b) * 16 + c);
    var d := HexValue(input[pos + 3]).value;
    HexUnfolds(input, pos, pos + 4, 0, ((a * 16 + b) * 16 + c) * 16 + d);
    var hex := input[pos..pos + 4];
    assert hex[0] == input[pos] && hex[1] == input[pos + 1] && hex[2] == input[pos + 2] && hex[3] == input[pos + 3];
  }

  lemma UnicodeAccepted(input: string, escPos: nat, pos: nat) returns (piece: Piece)
    requires pos >= 2 && At(input, pos - 2, '\\') && At(input, pos - 1, 'u')
    requires UnicodeEscape(input, escPos, pos).Ok?
    ensures piece.Good()
    ensures var (c, p) := UnicodeEscape(input, escPos, pos).value;
            piece.Text() == input[pos - 2..p] && piece.Char() == c
  {
    hide ParseHex4, Hex4Value, HexValue;
    Hex4Accepted(input, pos);
    var high := input[pos..pos + 4];
    assert input[pos - 2..pos + 4] == ['\\', 'u'] + high;
    if IsHighSurrogate(Hex4Value(high)) {
      Hex4Accepted(input, pos + 6);
      var low := input[pos + 6..pos + 10];
      assert input[pos + 4..pos + 10] == ['\\', 'u'] + low;
      Joined(input, pos - 2, pos + 4, pos + 10);
      piece := Pair(high, low);
    } else {
      piece := Unit(high);
    }
  }

  lemma EscapeAccepted(input: string, pos: nat) returns (piece: Piece)
    requires At(input, pos, '\\') && EscapedChar(input, pos + 1).Ok?
    ensures piece.Good()
    ensures var (c, p) := EscapedChar(input, pos + 1).value; piece.Text() == input[pos..p] && piece.Char() == c
  {
    hide UnicodeEscape, Hex4Value, IsHex4;
    var letter := input[pos + 1];
    if letter == 'u' {
      piece := UnicodeAccepted(input, pos + 1, pos + 2);
    } else {
      piece := Short(letter);
      assert input[pos..pos + 2] == ['\\', letter];
    }
  }

  lemma {:induction false} StringAccepted(input: string, pos: nat, acc: string) returns (pieces: seq<Piece>)
    requires pos <= |input| && StringTail(input, pos, acc).Ok?
    ensures GoodPieces(pieces)
    ensures var (s, p) := StringTail(input, pos, acc).value;
            PiecesText(pieces) + ['"'] == input[pos..p] && acc + Chars(pieces) == s
    decreases |input| - pos
  {
    hide EscapedChar, Piece.Good, Piece.Text, Piece.Char;
    var (s, p) := StringTail(input, pos, acc).value;
    if input[pos] == '"' {
      pieces := [];
      assert input[pos..pos + 1] == ['"'];
    } else {
      var piece, q := PieceAccepted(input, pos, acc);
      var rest := StringAccepted(input, q, acc + [piece.Char()]);
      pieces := [piece] + rest;
      assert pieces[1..] == rest;
      Joined(input, pos, q, p);
      assert PiecesText(pieces) + ['"'] == piece.Text() + (PiecesText(rest) + ['"']);
      assert acc + [piece.Char()] + Chars(rest) == acc + Chars(pieces);
    }
  }

  lemma PieceAccepted(input: string, pos: nat, acc: string) returns (piece: Piece, q: nat)
    requires pos < |input| && input[pos] != '"' && StringTail(input, pos, acc).Ok?
    ensures piece.Good() && pos < q <= |input| && piece.Text() == input[pos..q]
    ensures StringTail(input, pos, acc) == StringTail(input, q, acc + [piece.Char()])
  {
    hide EscapedChar, Hex4Value, IsHex4;
    if input[pos] == '\\' {
      piece := EscapeAccepted(input, pos);
      q := EscapedChar(input, pos + 1).value.1;
    } else {
      piece, q := Raw(input[pos]), pos + 1;
      assert input[pos..pos + 1] == [input[pos]];
    }
  }

  lemma QuotedAccepted(input: string, pos: nat) returns (pieces: seq<Piece>)
    requires ParseString(input, pos).Ok?
    ensures GoodPieces(pieces)
    ensures var (s, p) := ParseString(input, pos).value;
            pos < p <= |input| && StringText(pieces) == input[pos..p] && Chars(pieces) == s
  {
    hide StringTail, PiecesText, Chars, GoodPieces;
    pieces := StringAccepted(input, pos + 1, "");
    var p := ParseString(input, pos).value.1;
    assert input[pos..p] == ['"'] + input[pos + 1..p];
    assert "" + Chars(pieces) == Chars(pieces);
  }

  // ----- Values

  lemma {:induction false} LiteralAccepted<T>(input: string, pos: nat, text: string, value: T)
    requires pos <= |input| && Literal(input, pos, text, value).Ok?
    ensures var (v, p) := Literal(input, pos, text, value).value;
            p <= |input| && input[pos..p] == text && v == value
    decreases |text|
  {
    if text != "" {
      LiteralAccepted(input, pos + 1, text[1..], value);
      var p := Literal(input, pos, text, value).value.1;
      assert input[pos..p] == [input[pos]] + input[pos + 1..p];
    }
  }

  /** The tree stands at `pos` up to `p`, has this value, and fits under this depth. */
  ghost predicate IsTreeAt(input: string, pos: nat, p: nat, t: Tree, v: Value, depth: int) {
    pos <= p <= |input| && Good(t) && Text(t) == input[pos..p] && Meaning(t) == v && Height(t) + depth <= MAX_DEPTH
  }

  lemma WordAccepted(input: string, pos: nat, v: Value, depth: int) returns (t: Tree)
    requires pos <= |input| && depth <= MAX_DEPTH && (v.Null? || v.Bool?)
    requires Literal(input, pos, Text(Word(v)), v).Ok?
    ensures var (v', p) := Literal(input, pos, Text(Word(v)), v).value; IsTreeAt(input, pos, p, t, v', depth)
  {
    LiteralAccepted(input, pos, Text(Word(v)), v);
    t := Word(v);
  }

  lemma NumAccepted(input: string, pos: nat, depth: int) returns (t: Tree)
    requires pos < |input| && depth <= MAX_DEPTH && ParseNumber(input, pos).Ok?
    ensures var (v, p) := ParseNumber(input, pos).value; IsTreeAt(input, pos, p, t, v, depth)
  {
    hide ParseNumber, Numeral.Good, Numeral.Text, Numeral.Value;
    var n := NumberAccepted(input, pos);
    t := Num(n);
  }

  lemma StrAccepted(input: string, pos: nat, depth: int) returns (t: Tree)
    requires pos < |input| && depth <= MAX_DEPTH && ParseString(input, pos).Ok?
    ensures var (s, p) := ParseString(input, pos).value; IsTreeAt(input, pos, p, t, String(s), depth)
  {
    hide ParseString, StringText, Chars, GoodPieces;
    var pieces := QuotedAccepted(input, pos);
    t := Str(pieces);
  }

  lemma {:induction false} StartingAccepted(input: string, pos: nat, depth: int) returns (t: Tree)
    requires pos < |input| && depth <= MAX_DEPTH && ParseStarting(input, pos, depth).Ok?
    ensures var (v, p) := ParseStarting(input, pos, depth).value; IsTreeAt(input, pos, p, t, v, depth)
    decreases MAX_DEPTH + 1 - depth, 2, 0
  {
    hide ParseString, ParseNumber, ParseArray, ParseObject, Literal, IsTreeAt;
    var c := input[pos];
    if c == '"' {
      t := StrAccepted(input, pos, depth);
    } else if c == '{' {
      t := ObjectAccepted(input, pos, depth);
    } else if c == '[' {
      t := ArrayAccepted(input, pos, depth);
    } else if c == 't' {
      t := WordAccepted(input, pos, Bool(true), depth);
    } else if c == 'f' {
      t := WordAccepted(input, pos, Bool(false), depth);
    } else if c == 'n' {
      t := WordAccepted(input, pos, Null, depth);
    } else {
      t := NumAccepted(input, pos, depth);
    }
  }

  lemma {:induction false} ValueAccepted(input: string, pos: nat, depth: int) returns (t: Tree)
    requires pos <= |input| && depth <= MAX_DEPTH + 1 && ParseValue(input, pos, depth).Ok?
    ensures var (v, p) := ParseValue(input, pos, depth).value;
            IsTreeAt(input, SkipSpace(input, pos), p, t, v, depth)
    decreases MAX_DEPTH + 1 - depth, 3, 0
  {
    hide ParseStarting, IsTreeAt, SkipSpace;
    t := StartingAccepted(input, SkipSpace(input, pos), depth);
  }

  /** A tree, the space skipped before it and the space skipped after it are an element. */
  lemma ElementAt(input: string, pos: nat, p: nat, t: Tree, v: Value, depth: int) returns (e: Element)
    requires pos <= |input| && IsTreeAt(input, SkipSpace(input, pos), p, t, v, depth)
    ensures e.tree == t && GoodElement(e) && ElementText(e) == input[pos..SkipSpace(input, p)]
  {
    hide SkipSpace, Good, Text, Height, Meaning, AllSpace;
    var (a, b) := (SkipSpace(input, pos), SkipSpace(input, p));
    SkippedIsSpace(input, pos);
    SkippedIsSpace(input, p);
    e := Element(input[pos..a], t, input[p..b]);
    Joined(input, a, p, b);
    Joined(input, pos, a, b);
  }

  // ----- Arrays

  /** The items stand at `pos` up to the closing bracket before `p`. */
  ghost predicate AreItemsAt(input: string, pos: nat, p: nat, items: seq<Element>, depth: int) {
    && pos <= p <= |input| && items != [] && (forall i :: 0 <= i < |items| ==> GoodElement(items[i]))
    && ItemsText(items) + [']'] == input[pos..p] && ItemsHeight(items) + depth + 1 <= MAX_DEPTH
  }

  lemma ArrayAt(input: string, pos: nat, p: nat, items: seq<Element>, depth: int)
    requires At(input, pos, '[') && AreItemsAt(input, pos + 1, p, items, depth)
    ensures IsTreeAt(input, pos, p, Arr("", items), Array(ItemsMeaning(items)), depth)
  {
    hide ItemsText, ItemsHeight, ItemsMeaning, GoodElement;
    assert input[pos..p] == ['['] + input[pos + 1..p];
    assert "" + ItemsText(items) == ItemsText(items);
  }

  lemma EmptyArrayAt(input: string, pos: nat, q: nat, depth: int)
    requires At(input, pos, '[') && depth <= MAX_DEPTH
    requires q == SkipSpace(input, pos + 1) && At(input, q, ']')
    ensures IsTreeAt(input, pos, q + 1, Arr(input[pos + 1..q], []), Array([]), depth)
  {
    hide AllSpace;
    SkippedIsSpace(input, pos + 1);
    var space := input[pos + 1..q];
    NoItems();
    assert space + "" == space;
    assert input[pos..q + 1] == ['['] + (space + [']']);
    assert Good(Arr(space, [])) && Text(Arr(space, [])) == input[pos..q + 1];
    assert Meaning(Arr(space, [])) == Array([]);
  }

  lemma {:induction false} ArrayAccepted(input: string, pos: nat, depth: int) returns (t: Tree)
    requires pos < |input| && depth <= MAX_DEPTH && ParseArray(input, pos, depth).Ok?
    ensures var (v, p) := ParseArray(input, pos, depth).value; IsTreeAt(input, pos, p, t, v, depth)
    decreases MAX_DEPTH + 1 - depth, 1, 0
  {
    hide ArrayTail, SkipSpace, IsTreeAt, AreItemsAt, ItemsMeaning;
    var q := SkipSpace(input, pos + 1);
    if At(input, q, ']') {
      EmptyArrayAt(input, pos, q, depth);
      t := Arr(input[pos + 1..q], []);
    } else {
      ArrayTailSkips(input, pos + 1, q, depth, []);
      var items := ItemsAccepted(input, pos + 1, depth, []);
      assert [] + ItemsMeaning(items) == ItemsMeaning(items);
      ArrayAt(input, pos, ParseArray(input, pos, depth).value.1, items, depth);
      t := Arr("", items);
    }
  }

  lemma LastItemAt(input: string, pos: nat, q: nat, e: Element, depth: int)
    requires GoodElement(e) && pos <= q && At(input, q, ']') && ElementText(e) == input[pos..q]
    requires Height(e.tree) + depth + 1 <= MAX_DEPTH
    ensures AreItemsAt(input, pos, q + 1, [e], depth) && ItemsMeaning([e]) == [Meaning(e.tree)]
  {
    hide Good, Text;
    assert [e][1..] == [];
    assert input[pos..q + 1] == input[pos..q] + [']'];
    assert ItemsText([e]) == ElementText(e) && ItemsHeight([e]) == Height(e.tree);
    assert ItemsMeaning([e]) == [Meaning(e.tree)];
  }

  lemma MoreItemsAt(input: string, pos: nat, q: nat, p: nat, e: Element, rest: seq<Element>, depth: int)
    requires GoodElement(e) && pos <= q && At(input, q, ',') && ElementText(e) == input[pos..q]
    requires Height(e.tree) + depth + 1 <= MAX_DEPTH && AreItemsAt(input, q + 1, p, rest, depth)
    ensures AreItemsAt(input, pos, p, [e] + rest, depth)
    ensures ItemsMeaning([e] + rest) == [Meaning(e.tree)] + ItemsMeaning(rest)
  {
    hide Height, GoodElement, ElementText, Meaning;
    var items := [e] + rest;
    assert items[1..] == rest;
    assert input[q..p] == [','] + input[q + 1..p];
    Joined(input, pos, q, p);
    assert ItemsText(items) + [']'] == ElementText(e) + ([','] + (ItemsText(rest) + [']']));
  }

  lemma {:induction false} ItemsAccepted(input: string, pos: nat, depth: int, acc: seq<Value>)
    returns (items: seq<Element>)
    requires pos <= |input| && depth <= MAX_DEPTH && ArrayTail(input, pos, depth, acc).Ok?
    ensures var (v, p) := ArrayTail(input, pos, depth, acc).value;
            AreItemsAt(input, pos, p, items, depth) && v == Array(acc + ItemsMeaning(items))
    decreases MAX_DEPTH + 1 - depth, 0, |input| - pos
  {
    hide ParseValue, SkipSpace, IsTreeAt, AreItemsAt, ItemsMeaning, Meaning, Height, GoodElement, ElementText;
    var (v, p) := ParseValue(input, pos, depth + 1).value;
    var t := ValueAccepted(input, pos, depth + 1);
    var q := SkipSpace(input, p);
    var e := ElementAt(input, pos, p, t, v, depth + 1);
    TreeAtFacts(input, SkipSpace(input, pos), p, t, v, depth + 1);
    if input[q] == ',' {
      var rest := ItemsAccepted(input, q + 1, depth, acc + [v]);
      items := [e] + rest;
      MoreItemsAt(input, pos, q, ArrayTail(input, pos, depth, acc).value.1, e, rest, depth);
      assert acc + [v] + ItemsMeaning(rest) == acc + ([v] + ItemsMeaning(rest));
    } else {
      items := [e];
      LastItemAt(input, pos, q, e, depth);
    }
  }

  lemma TreeAtFacts(input: string, pos: nat, p: nat, t: Tree, v: Value, depth: int)
    requires IsTreeAt(input, pos, p, t, v, depth)
    ensures pos <= p <= |input| && Meaning(t) == v && Height(t) + depth <= MAX_DEPTH
  {
  }

  // ----- Objects

  ghost predicate AreEntriesAt(input: string, pos: nat, p: nat, entries: seq<Entry>, depth: int) {
    && pos <= p <= |input| && entries != [] && (forall i :: 0 <= i < |entries| ==> GoodEntry(entries[i]))
    && EntriesText(entries) + ['}'] == input[pos..p] && EntriesHeight(entries) + depth + 1 <= MAX_DEPTH
  }

  lemma ObjectAt(input: string, pos: nat, p: nat, entries: seq<Entry>, depth: int)
    requires At(input, pos, '{') && AreEntriesAt(input, pos + 1, p, entries, depth)
    ensures IsTreeAt(input, pos, p, Obj("", entries), Object(EntriesMeaning(entries, [])), depth)
  {
    hide EntriesText, EntriesHeight, EntriesMeaning, GoodEntry;
    assert input[pos..p] == ['{'] + input[pos + 1..p];
    assert "" + EntriesText(entries) == EntriesText(entries);
  }

  lemma EmptyObjectAt(input: string, pos: nat, q: nat, depth: int)
    requires At(input, pos, '{') && depth <= MAX_DEPTH
    requires q == SkipSpace(input, pos + 1) && At(input, q, '}')
    ensures IsTreeAt(input, pos, q + 1, Obj(input[pos + 1..q], []), Object([]), depth)
  {
    hide AllSpace;
    SkippedIsSpace(input, pos + 1);
    var space := input[pos + 1..q];
    NoItems();
    assert space + "" == space;
    assert input[pos..q + 1] == ['{'] + (space + ['}']);
    assert Good(Obj(space, [])) && Text(Obj(space, [])) == input[pos..q + 1];
    assert Meaning(Obj(space, [])) == Object([]);
  }

  lemma {:induction false} ObjectAccepted(input: string, pos: nat, depth: int) returns (t: Tree)
    requires pos < |input| && depth <= MAX_DEPTH && ParseObject(input, pos, depth).Ok?
    ensures var (v, p) := ParseObject(input, pos, depth).value; IsTreeAt(input, pos, p, t, v, depth)
    decreases MAX_DEPTH + 1 - depth, 1, 0
  {
    hide ObjectTail, SkipSpace, IsTreeAt, AreEntriesAt, EntriesMeaning;
    var q := SkipSpace(input, pos + 1);
    if At(input, q, '}') {
      EmptyObjectAt(input, pos, q, depth);
      t := Obj(input[pos + 1..q], []);
    } else {
      ObjectTailSkips(input, pos + 1, q, depth, []);
      var entries := EntriesAccepted(input, pos + 1, depth, []);
      ObjectAt(input, pos, ParseObject(input, pos, depth).value.1, entries, depth);
      t := Obj("", entries);
    }
  }

  /** A key with the space around it and the colon after it. */
  lemma KeyAccepted(input: string, pos: nat) returns (lead: string, key: seq<Piece>, gap: string)
    requires pos <= |input| && ParseKey(input, pos).Ok?
    ensures AllSpace(lead) && GoodPieces(key) && AllSpace(gap)
    ensures var (k, p) := ParseKey(input, pos).value;
            pos <= p <= |input| && Chars(key) == k && lead + (StringText(key) + (gap + [':'])) == input[pos..p]
  {
    hide ParseString, SkipSpace, AllSpace, StringText, Chars, GoodPieces;
    var a := SkipSpace(input, pos);
    var b := ParseString(input, a).value.1;
    var c := SkipSpace(input, b);
    SkippedIsSpace(input, pos);
    key := QuotedAccepted(input, a);
    SkippedIsSpace(input, b);
    lead, gap := input[pos..a], input[b..c];
    assert gap + [':'] == input[b..c + 1];
    Joined(input, a, b, c + 1);
    Joined(input, pos, a, c + 1);
  }

  /** A key and the element after it are an entry. */
  lemma EntryAt(input: string, pos: nat, p: nat, q: nat, lead: string, key: seq<Piece>, gap: string, e: Element)
    requires pos <= p <= q <= |input| && AllSpace(lead) && GoodPieces(key) && AllSpace(gap) && GoodElement(e)
    requires lead + (StringText(key) + (gap + [':'])) == input[pos..p] && ElementText(e) == input[p..q]
    ensures GoodEntry(Entry(lead, key, gap, e)) && EntryText(Entry(lead, key, gap, e)) == input[pos..q]
  {
    hide AllSpace, GoodPieces, GoodElement, StringText, ElementText;
    Joined(input, pos, p, q);
    assert EntryText(Entry(lead, key, gap, e)) == lead + (StringText(key) + (gap + [':'])) + ElementText(e);
  }

  lemma LastEntryAt(input: string, pos: nat, q: nat, e: Entry, depth: int, acc: seq<Member>)
    requires GoodEntry(e) && pos <= q && At(input, q, '}') && EntryText(e) == input[pos..q]
    requires Height(e.element.tree) + depth + 1 <= MAX_DEPTH
    ensures AreEntriesAt(input, pos, q + 1, [e], depth)
    ensures EntriesMeaning([e], acc) == Insert(acc, Chars(e.key), Meaning(e.element.tree))
  {
    hide GoodElement, Text, PiecesText, Chars, Insert;
    assert [e][1..] == [];
    assert input[pos..q + 1] == input[pos..q] + ['}'];
    assert EntriesText([e]) == EntryText(e) && EntriesHeight([e]) == Height(e.element.tree);
  }

  lemma MoreEntriesAt(input: string, pos: nat, q: nat, p: nat, e: Entry, rest: seq<Entry>, depth: int,
                      acc: seq<Member>)
    requires GoodEntry(e) && pos <= q && At(input, q, ',') && EntryText(e) == input[pos..q]
    requires Height(e.element.tree) + depth + 1 <= MAX_DEPTH && AreEntriesAt(input, q + 1, p, rest, depth)
    ensures AreEntriesAt(input, pos, p, [e] + rest, depth)
    ensures EntriesMeaning([e] + rest, acc) ==
            EntriesMeaning(rest, Insert(acc, Chars(e.key), Meaning(e.element.tree)))
  {
    hide Height, GoodEntry, EntryText, Meaning, Chars, Insert;
    var entries := [e] + rest;
    assert entries[1..] == rest;
    assert input[q..p] == [','] + input[q + 1..p];
    Joined(input, pos, q, p);
    assert EntriesText(entries) + ['}'] == EntryText(e) + ([','] + (EntriesText(rest) + ['}']));
  }

  lemma {:induction false} EntriesAccepted(input: string, pos: nat, depth: int, acc: seq<Member>)
    returns (entries: seq<Entry>)
    requires pos <= |input| && depth <= MAX_DEPTH && ObjectTail(input, pos, depth, acc).Ok?
    ensures var (v, p) := ObjectTail(input, pos, depth, acc).value;
            AreEntriesAt(input, pos, p, entries, depth) && v == Object(EntriesMeaning(entries, acc))
    decreases MAX_DEPTH + 1 - depth, 0, |input| - pos
  {
    hide ParseKey, ParseValue, SkipSpace, IsTreeAt, AreEntriesAt, EntriesMeaning, Meaning, Height, Insert;
    hide AllSpace, GoodPieces, Chars, StringText, GoodElement, ElementText, GoodEntry, EntryText;
    var (key, p1) := ParseKey(input, pos).value;
    var lead, pieces, gap := KeyAccepted(input, pos);
    var (v, p) := ParseValue(input, p1, depth + 1).value;
    var t := ValueAccepted(input, p1, depth + 1);
    var q := SkipSpace(input, p);
    var e := ElementAt(input, p1, p, t, v, depth + 1);
    TreeAtFacts(input, SkipSpace(input, p1), p, t, v, depth + 1);
    EntryAt(input, pos, p1, q, lead, pieces, gap, e);
    var entry := Entry(lead, pieces, gap, e);
    if input[q] == ',' {
      var rest := EntriesAccepted(input, q + 1, depth, Insert(acc, key, v));
      entries := [entry] + rest;
      MoreEntriesAt(input, pos, q, ObjectTail(input, pos, depth, acc).value.1, entry, rest, depth, acc);
    } else {
      entries := [entry];
      LastEntryAt(input, pos, q, entry, depth, acc);
    }
  }

  // ----- Documents

  lemma DocumentAccepted(bytes: string) returns (e: Element)
    requires ParseDocument(bytes).Ok?
    ensures Denotes(e, bytes, ParseDocument(bytes).value)
  {
    hide ParseValue, SkipSpace, IsTreeAt, GoodElement, ElementText, Meaning, Height;
    var (v, p) := ParseValue(bytes, 0, 0).value;
    var t := ValueAccepted(bytes, 0, 0);
    e := ElementAt(bytes, 0, p, t, v, 0);
    TreeAtFacts(bytes, SkipSpace(bytes, 0), p, t, v, 0);
    assert bytes[0..|bytes|] == bytes;
  }

  /** The decoder accepts exactly the texts of the syntax that nest at most 32 deep, with their value. */
  lemma DecodeIff(text: string, v: Value)
    ensures Decode(text) == Ok(v) <==> exists e :: Denotes(e, Utf8(text), v)
  {
    hide ParseDocument, Denotes;
    var bytes := Utf8(text);
    if Decode(text) == Ok(v) {
      var e := DocumentAccepted(bytes);
      assert Denotes(e, Utf8(text), v);
    }
    if e :| Denotes(e, bytes, v) {
      DenotedIsRead(e, bytes, v);
    }
  }

  lemma DenotedIsRead(e: Element, bytes: string, v: Value)
    requires Denotes(e, bytes, v)
    ensures ParseDocument(bytes) == Ok(v)
  {
    hide ParseDocument, GoodElement, ElementText, Meaning, Height;
    DocumentRead(e);
  }

  /** A text of the syntax that nests deeper is refused for that. */
  lemma TooDeepRefused(text: string, e: Element)
    requires GoodElement(e) && ElementText(e) == Utf8(text) && Height(e.tree) > MAX_DEPTH
    ensures Decode(text) == Err(DepthExceeded)
  {
    hide ParseDocument, Utf8;
    DocumentRead(e);
  }

  /** At whatever depth, a text of the syntax has one value: reading it from far enough below depth zero
      gives the value of any of its trees. */
  lemma Unambiguous(e: Element, f: Element)
    requires GoodElement(e) && GoodElement(f) && ElementText(e) == ElementText(f)
    ensures Meaning(e.tree) == Meaning(f.tree)
  {
    hide ParseValue, ElementText, Meaning, Height, GoodElement, SkipSpace;
    var text := ElementText(e);
    assert text[0..0 + |text|] == text;
    var start := MAX_DEPTH - Max(Height(e.tree), Height(f.tree));
    ElementRead(text, 0, e, start);
    ElementRead(text, 0, f, start);
  }
}
