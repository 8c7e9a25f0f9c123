/** What the decoder does, as functions of the input bytes and a position. Every function returns
    the value read and the position after it, or the error the decoder reports. */
module JsonDecoder {
  import opened Wrappers
  import opened JsonNumber
  import opened JsonModel
  import opened JsonSyntax

  datatype JsonError =
    | UnexpectedEof
    | UnexpectedChar(pos: nat, ch: char)
    | InvalidNumber(pos: nat)
    | UnterminatedString
    | InvalidEscape(pos: nat)
    | DepthExceeded
    | TrailingContent(pos: nat)

  type Parsed<+T> = Result<(T, nat), JsonError>

  predicate At(input: string, pos: nat, c: char) {
    pos < |input| && input[pos] == c
  }

  predicate DigitAt(input: string, pos: nat) {
    pos < |input| && IsDigit(input[pos])
  }

  function SkipSpace(input: string, pos: nat): (r: nat)
    requires pos <= |input|
    ensures pos <= r <= |input|
    decreases |input| - pos
  {
    if pos < |input| && IsSpace(input[pos]) then SkipSpace(input, pos + 1) else pos
  }

  function SkipDigits(input: string, pos: nat): (r: nat)
    requires pos <= |input|
    ensures pos <= r <= |input|
    decreases |input| - pos
  {
    if DigitAt(input, pos) then SkipDigits(input, pos + 1) else pos
  }

  function Expect(input: string, pos: nat, c: char): (r: Parsed<()>)
    ensures r.Ok? ==> At(input, pos, c) && r.value.1 == pos + 1 <= |input|
  {
    if pos >= |input| then Err(UnexpectedEof)
    else if input[pos] != c then Err(UnexpectedChar(pos, input[pos]))
    else Ok(((), pos + 1))
  }

  function Literal<T>(input: string, pos: nat, text: string, value: T): (r: Parsed<T>)
    ensures r.Ok? ==> r.value.1 == pos + |text| && (text != "" ==> r.value.1 <= |input|)
    decreases |text|
  {
    if text == "" then Ok((value, pos))
    else
      var (_, p) :- Expect(input, pos, text[0]);
      Literal(input, p, text[1..], value)
  }

  // ----- Numbers

  function IntegerPart(input: string, start: nat, pos: nat): (r: Parsed<()>)
    requires pos <= |input|
    ensures r.Ok? ==> pos < r.value.1 <= |input|
  {
    if At(input, pos, '0') then Ok(((), pos + 1))
    else if DigitAt(input, pos) then Ok(((), SkipDigits(input, pos + 1)))
    else Err(InvalidNumber(start))
  }

  function Fraction(input: string, pos: nat): (r: Parsed<()>)
    requires pos <= |input|
    ensures r.Ok? ==> pos <= r.value.1 <= |input|
  {
    if !At(input, pos, '.') then Ok(((), pos))
    else if DigitAt(input, pos + 1) then Ok(((), SkipDigits(input, pos + 1)))
    else Err(InvalidNumber(pos + 1))
  }

  function Exponent(input: string, pos: nat): (r: Parsed<()>)
    requires pos <= |input|
    ensures r.Ok? ==> pos <= r.value.1 <= |input|
  {
    if !At(input, pos, 'e') && !At(input, pos, 'E') then Ok(((), pos))
    else
      var p := if At(input, pos + 1, '+') || At(input, pos + 1, '-') then pos + 2 else pos + 1;
      if DigitAt(input, p) then Ok(((), SkipDigits(input, p))) else Err(InvalidNumber(p))
  }

  /** The number between the scanned positions; infinities are refused. */
  function ScannedNumber(input: string, pos: nat, p0: nat, p1: nat, p2: nat, p3: nat): Parsed<Value>
    requires pos <= p0 <= p1 <= p2 <= p3 <= |input|
  {
    var fraction := if p2 > p1 then input[p1 + 1..p2] else "";
    match NumeralValue(p0 > pos, input[p0..p1], fraction, input[p2..p3])
    case None => Err(InvalidNumber(pos))
    case Some(x) => Ok((Number(x), p3))
  }

  function ParseNumber(input: string, pos: nat): (r: Parsed<Value>)
    requires pos < |input|
    ensures r.Ok? ==> pos < r.value.1 <= |input|
  {
    var p0 := if input[pos] == '-' then pos + 1 else pos;
    var (_, p1) :- IntegerPart(input, pos, p0);
    var (_, p2) :- Fraction(input, p1);
    var (_, p3) :- Exponent(input, p2);
    ScannedNumber(input, pos, p0, p1, p2, p3)
  }

  // ----- Strings

  /** The hexadecimal digits still to read, `left` of them, after `acc`. */
  function HexDigits(input: string, start: nat, pos: nat, left: nat, acc: nat): (r: Parsed<nat>)
    ensures r.Ok? ==> r.value.1 == pos + left && (left > 0 ==> r.value.1 <= |input|)
    ensures r.Ok? && left <= 4 && acc < Pow16(4 - left) ==> r.value.0 < 65536
    decreases left
  {
    if left == 0 then Ok((acc, pos))
    else if pos >= |input| then Err(UnexpectedEof)
    else
      match HexValue(input[pos])
      case None => Err(InvalidEscape(start))
      case Some(d) => HexDigits(input, start, pos + 1, left - 1, acc * 16 + d)
  }

  /** One turn of the loop over hexadecimal digits. */
  lemma HexUnfolds(input: string, start: nat, pos: nat, left: nat, acc: nat)
    ensures HexDigits(input, start, pos, left, acc) ==
            if left == 0 then Ok((acc, pos))
            else if pos >= |input| then Err(UnexpectedEof)
            else
              match HexValue(input[pos])
              case None => Err(InvalidEscape(start))
              case Some(d) => HexDigits(input, start, pos + 1, left - 1, acc * 16 + d)
  {
  }

  function Pow16(n: nat): nat {
    if n == 0 then 1 else 16 * Pow16(n - 1)
  }

  function ParseHex4(input: string, pos: nat): (r: Parsed<nat>)
    ensures r.Ok? ==> r.value.1 == pos + 4 <= |input| && r.value.0 < 65536
  {
    HexDigits(input, pos, pos, 4, 0)
  }

  /** The character after `\u`, a pair of surrogates counting as one. */
  function UnicodeEscape(input: string, escPos: nat, pos: nat): (r: Parsed<char>)
    ensures r.Ok? ==> pos < r.value.1 <= |input|
  {
    var (cp, p) :- ParseHex4(input, pos);
    if 0xD800 <= cp <= 0xDBFF then
      var (_, p1) :- Expect(input, p, '\\');
      var (_, p2) :- Expect(input, p1, 'u');
      var (low, p3) :- ParseHex4(input, p2);
      if 0xDC00 <= low <= 0xDFFF then Ok(((0x10000 + (cp - 0xD800) * 1024 + (low - 0xDC00)) as char, p3))
      else Err(InvalidEscape(escPos))
    else if 0xDC00 <= cp <= 0xDFFF then Err(InvalidEscape(escPos))
    else Ok((cp as char, p))
  }

  /** The character after a backslash. */
  function EscapedChar(input: string, pos: nat): (r: Parsed<char>)
    ensures r.Ok? ==> pos < r.value.1 <= |input|
  {
    if pos >= |input| then Err(InvalidEscape(pos))
    else
      match input[pos]
      case '"' => Ok(('"', pos + 1))
      case '\\' => Ok(('\\', pos + 1))
      case '/' => Ok(('/', pos + 1))
      case 'n' => Ok(('\n', pos + 1))
      case 'r' => Ok(('\r', pos + 1))
      case 't' => Ok(('\t', pos + 1))
      case 'b' => Ok((8 as char, pos + 1))
      case 'f' => Ok((12 as char, pos + 1))
      case 'u' => UnicodeEscape(input, pos, pos + 1)
      case _ => Err(InvalidEscape(pos))
  }

  /** The rest of a string, after `acc`, up to and including the closing quote. */
  function StringTail(input: string, pos: nat, acc: string): (r: Parsed<string>)
    ensures r.Ok? ==> pos < r.value.1 <= |input|
    decreases |input| - pos
  {
    if pos >= |input| then Err(UnterminatedString)
    else if input[pos] == '"' then Ok((acc, pos + 1))
    else if input[pos] == '\\' then
      var (c, p) :- EscapedChar(input, pos + 1);
      StringTail(input, p, acc + [c])
    else StringTail(input, pos + 1, acc + [input[pos]])
  }

  function ParseString(input: string, pos: nat): (r: Parsed<string>)
    ensures r.Ok? ==> pos < r.value.1 <= |input|
  {
    var (_, p) :- Expect(input, pos, '"');
    StringTail(input, p, "")
  }

  // ----- Values

  /** The value at `pos` under a node at `depth`. The decoder starts at depth zero; a start below zero
      leaves room for deeper values. */
  function ParseValue(input: string, pos: nat, depth: int): (r: Parsed<Value>)
    requires pos <= |input| && depth <= MAX_DEPTH + 1
    ensures r.Ok? ==> pos < r.value.1 <= |input|
    decreases MAX_DEPTH + 1 - depth, 3, 0
  {
    if depth > MAX_DEPTH then Err(DepthExceeded)
    else
      var p := SkipSpace(input, pos);
      if p >= |input| then Err(UnexpectedEof) else ParseStarting(input, p, depth)
  }

  /** The value whose first character is at `pos`. */
  function ParseStarting(input: string, pos: nat, depth: int): (r: Parsed<Value>)
    requires pos < |input| && depth <= MAX_DEPTH
    ensures r.Ok? ==> pos < r.value.1 <= |input|
    decreases MAX_DEPTH + 1 - depth, 2, 0
  {
    var c := input[pos];
    if c == '"' then
      var (s, q) :- ParseString(input, pos);
      Ok((String(s), q))
    else if c == '{' then ParseObject(input, pos, depth)
    else if c == '[' then ParseArray(input, pos, depth)
    else if c == 't' then Literal(input, pos, "true", Bool(true))
    else if c == 'f' then Literal(input, pos, "false", Bool(false))
    else if c == 'n' then Literal(input, pos, "null", Null)
    else if c == '-' || IsDigit(c) then ParseNumber(input, pos)
    else Err(UnexpectedChar(pos, c))
  }

  function ParseArray(input: string, pos: nat, depth: int): (r: Parsed<Value>)
    requires pos < |input| && depth <= MAX_DEPTH
    ensures r.Ok? ==> pos < r.value.1 <= |input|
    decreases MAX_DEPTH + 1 - depth, 1, 0
  {
    var (_, p) :- Expect(input, pos, '[');
    var q := SkipSpace(input, p);
    if At(input, q, ']') then Ok((Array([]), q + 1)) else ArrayTail(input, q, depth, [])
  }

  /** The items of an array from `pos` on, after `acc`. */
  function ArrayTail(input: string, pos: nat, depth: int, acc: seq<Value>): (r: Parsed<Value>)
    requires pos <= |input| && depth <= MAX_DEPTH
    ensures r.Ok? ==> pos < r.value.1 <= |input|
    decreases MAX_DEPTH + 1 - depth, 0, |input| - pos
  {
    var (v, p) :- ParseValue(input, pos, depth + 1);
    var q := SkipSpace(input, p);
    if q >= |input| then Err(UnexpectedEof)
    else if input[q] == ',' then ArrayTail(input, q + 1, depth, acc + [v])
    else if input[q] == ']' then Ok((Array(acc + [v]), q + 1))
    else Err(UnexpectedChar(q, input[q]))
  }

  function ParseObject(input: string, pos: nat, depth: int): (r: Parsed<Value>)
    requires pos < |input| && depth <= MAX_DEPTH
    ensures r.Ok? ==> pos < r.value.1 <= |input|
    decreases MAX_DEPTH + 1 - depth, 1, 0
  {
    var (_, p) :- Expect(input, pos, '{');
    var q := SkipSpace(input, p);
    if At(input, q, '}') then Ok((Object([]), q + 1)) else ObjectTail(input, q, depth, [])
  }

  /** A key and the colon after it. */
  function ParseKey(input: string, pos: nat): (r: Parsed<string>)
    requires pos <= |input|
    ensures r.Ok? ==> pos < r.value.1 <= |input|
  {
    var (key, p) :- ParseString(input, SkipSpace(input, pos));
    var (_, q) :- Expect(input, SkipSpace(input, p), ':');
    Ok((key, q))
  }

  /** The members of an object from `pos` on, after `acc`. */
  function ObjectTail(input: string, pos: nat, depth: int, acc: seq<Member>): (r: Parsed<Value>)
    requires pos <= |input| && depth <= MAX_DEPTH
    ensures r.Ok? ==> pos < r.value.1 <= |input|
    decreases MAX_DEPTH + 1 - depth, 0, |input| - pos
  {
    var (key, p1) :- ParseKey(input, pos);
    var (v, p2) :- ParseValue(input, p1, depth + 1);
    var acc' := Insert(acc, key, v);
    var q := SkipSpace(input, p2);
    if q >= |input| then Err(UnexpectedEof)
    else if input[q] == ',' then ObjectTail(input, q + 1, depth, acc')
    else if input[q] == '}' then Ok((Object(acc'), q + 1))
    else Err(UnexpectedChar(q, input[q]))
  }

  function ParseDocument(bytes: string): Result<Value, JsonError> {
    var (v, p) :- ParseValue(bytes, 0, 0);
    var q := SkipSpace(bytes, p);
    if q < |bytes| then Err(TrailingContent(q)) else Ok(v)
  }

  /** `decode`: the parser runs over the UTF-8 bytes of the text. */
  function Decode(text: string): Result<Value, JsonError> {
    ParseDocument(Utf8(text))
  }
}
