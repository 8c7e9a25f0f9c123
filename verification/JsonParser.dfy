/** The decoder as it runs: a parser object whose position advances over the bytes. Each method
    is proved to do exactly what the decoder's functions say, with the same error otherwise. */
module JsonParser {
  import opened Wrappers
  import opened JsonNumber
  import opened JsonModel
  import opened JsonSyntax
  import opened JsonDecoder

  /** The outcome of a method against a function: same value and position, or same error. */
  ghost predicate Agrees<T>(spec: Parsed<T>, r: Result<T, JsonError>, pos: nat) {
    match spec
    case Ok((v, p)) => r == Ok(v) && pos == p
    case Err(e) => r == Err(e)
  }

  class Parser {
    const input: string
    var pos: nat

    constructor (text: string)
      ensures input == Utf8(text) && pos == 0
    {
      input, pos := Utf8(text), 0;
    }

    ghost predicate Valid()
      reads this
    {
      pos <= |input|
    }

    method Peek() returns (c: Option<char>)
      ensures c == if pos < |input| then Some(input[pos]) else None
    {
      c := if pos < |input| then Some(input[pos]) else None;
    }

    method Advance() returns (c: Option<char>)
      requires Valid()
      modifies this
      ensures Valid() && c == if old(pos) < |input| then Some(input[old(pos)]) else None
      ensures pos == if old(pos) < |input| then old(pos) + 1 else old(pos)
    {
      if pos >= |input| {
        return None;
      }
      pos := pos + 1;
      return Some(input[pos - 1]);
    }

    method ExpectChar(expected: char) returns (r: Result<(), JsonError>)
      requires Valid()
      modifies this
      ensures Valid() && Agrees(Expect(input, old(pos), expected), r, pos)
    {
      var c := Advance();
      match c
      case Some(b) =>
        if b == expected {
          return Ok(());
        }
        return Err(UnexpectedChar(pos - 1, b));
      case None => return Err(UnexpectedEof);
    }

    method SkipWhitespace()
      requires Valid()
      modifies this
      ensures Valid() && pos == SkipSpace(input, old(pos))
    {
      while pos < |input| && IsSpace(input[pos])
        invariant Valid() && SkipSpace(input, pos) == SkipSpace(input, old(pos))
      {
        pos := pos + 1;
      }
    }

    method SkipDigitRun()
      requires Valid()
      modifies this
      ensures Valid() && pos == SkipDigits(input, old(pos))
    {
      while DigitAt(input, pos)
        invariant Valid() && SkipDigits(input, pos) == SkipDigits(input, old(pos))
        decreases |input| - pos
      {
        pos := pos + 1;
      }
    }

    method ParseLiteral(expected: string, value: Value) returns (r: Result<Value, JsonError>)
      requires Valid()
      modifies this
      ensures Valid() && Agrees(Literal(input, old(pos), expected, value), r, pos)
    {
      for i := 0 to |expected|
        invariant Valid()
        invariant Literal(input, old(pos), expected, value) == Literal(input, pos, expected[i..], value)
      {
        assert expected[i..][1..] == expected[i + 1..];
        var c := Advance();
        match c
        case Some(actual) =>
          if actual != expected[i] {
            return Err(UnexpectedChar(pos - 1, actual));
          }
        case None => return Err(UnexpectedEof);
      }
      return Ok(value);
    }

    method ScanInteger(start: nat) returns (r: Result<(), JsonError>)
      requires Valid()
      modifies this
      ensures Valid() && Agrees(IntegerPart(input, start, old(pos)), r, pos)
    {
      if At(input, pos, '0') {
        pos := pos + 1;
      } else if DigitAt(input, pos) {
        pos := pos + 1;
        SkipDigitRun();
      } else {
        return Err(InvalidNumber(start));
      }
      return Ok(());
    }

    method ScanFraction() returns (r: Result<(), JsonError>)
      requires Valid()
      modifies this
      ensures Valid() && Agrees(Fraction(input, old(pos)), r, pos)
    {
      if At(input, pos, '.') {
        pos := pos + 1;
        if !DigitAt(input, pos) {
          return Err(InvalidNumber(pos));
        }
        SkipDigitRun();
      }
      return Ok(());
    }

    method ScanExponent() returns (r: Result<(), JsonError>)
      requires Valid()
      modifies this
      ensures Valid() && Agrees(Exponent(input, old(pos)), r, pos)
    {
      if At(input, pos, 'e') || At(input, pos, 'E') {
        pos := pos + 1;
        if At(input, pos, '+') || At(input, pos, '-') {
          pos := pos + 1;
        }
        if !DigitAt(input, pos) {
          return Err(InvalidNumber(pos));
        }
        SkipDigitRun();
      }
      return Ok(());
    }

    /** Turn the scanned numeral into a number, unless it is infinite. */
    method ReadNumber(start: nat, wholeStart: nat, pointStart: nat, expStart: nat) returns (r: Result<Value, JsonError>)
      requires start <= wholeStart <= pointStart <= expStart <= pos <= |input|
      ensures Agrees(ScannedNumber(input, start, wholeStart, pointStart, expStart, pos), r, pos)
    {
      hide NumeralValue;
      var fraction := if expStart > pointStart then input[pointStart + 1..expStart] else "";
      var x := NumeralValue(wholeStart > start, input[wholeStart..pointStart], fraction, input[expStart..pos]);
      if x.None? {
        return Err(InvalidNumber(start));
      }
      return Ok(Number(x.value));
    }

    method ParseNumeral() returns (r: Result<Value, JsonError>)
      requires pos < |input|
      modifies this
      ensures Valid() && Agrees(ParseNumber(input, old(pos)), r, pos)
    {
      hide IntegerPart, Fraction, JsonDecoder.Exponent, ScannedNumber;
      var start := pos;
      if input[pos] == '-' {
        pos := pos + 1;
      }
      var wholeStart := pos;
      var _ :- ScanInteger(start);
      var pointStart := pos;
      var _ :- ScanFraction();
      var expStart := pos;
      var _ :- ScanExponent();
      r := ReadNumber(start, wholeStart, pointStart, expStart);
    }

    method ParseHex() returns (r: Result<nat, JsonError>)
      requires Valid()
      modifies this
      ensures Valid() && Agrees(ParseHex4(input, old(pos)), r, pos)
    {
      hide HexDigits, HexValue;
      var start := pos;
      var val := 0;
      ghost var spec := HexDigits(input, start, start, 4, 0);
      for i := 0 to 4
        invariant Valid() && HexDigits(input, start, pos, 4 - i, val) == spec
      {
        HexUnfolds(input, start, pos, 4 - i, val);
        var b := Advance();
        if b.None? {
          return Err(UnexpectedEof);
        }
        var digit := HexValue(b.value);
        if digit.None? {
          return Err(InvalidEscape(start));
        }
        val := val * 16 + digit.value;
      }
      HexUnfolds(input, start, pos, 0, val);
      return Ok(val);
    }

    method ParseUnicodeEscape(escPos: nat) returns (r: Result<char, JsonError>)
      requires Valid()
      modifies this
      ensures Valid() && Agrees(UnicodeEscape(input, escPos, old(pos)), r, pos)
    {
      hide ParseHex4;
      var cp :- ParseHex();
      if 0xD800 <= cp <= 0xDBFF {
        var _ :- ExpectChar('\\');
        var _ :- ExpectChar('u');
        var low :- ParseHex();
        if !(0xDC00 <= low <= 0xDFFF) {
          return Err(InvalidEscape(escPos));
        }
        return Ok((0x10000 + (cp - 0xD800) * 1024 + (low - 0xDC00)) as char);
      }
      if 0xDC00 <= cp <= 0xDFFF {
        return Err(InvalidEscape(escPos));
      }
      return Ok(cp as char);
    }

    method ParseEscape() returns (r: Result<char, JsonError>)
      requires Valid()
      modifies this
      ensures Valid() && Agrees(EscapedChar(input, old(pos)), r, pos)
    {
      var escPos := pos;
      var c := Advance();
      match c
      case None => return Err(InvalidEscape(escPos));
      case Some(b) =>
        match b
        case '"' => return Ok('"');
        case '\\' => return Ok('\\');
        case '/' => return Ok('/');
        case 'n' => return Ok('\n');
        case 'r' => return Ok('\r');
        case 't' => return Ok('\t');
        case 'b' => return Ok(8 as char);
        case 'f' => return Ok(12 as char);
        case 'u' =>
          r := ParseUnicodeEscape(escPos);
        case _ => return Err(InvalidEscape(escPos));
    }

    method ParseQuoted() returns (r: Result<string, JsonError>)
      requires Valid()
      modifies this
      ensures Valid() && Agrees(ParseString(input, old(pos)), r, pos)
    {
      var _ :- ExpectChar('"');
      var s: string := "";
      while true
        invariant Valid() && pos > old(pos)
        invariant StringTail(input, pos, s) == ParseString(input, old(pos))
        decreases |input| - pos
      {
        var c := Advance();
        match c
        case None => return Err(UnterminatedString);
        case Some(b) =>
          if b == '"' {
            return Ok(s);
          } else if b == '\\' {
            var ch :- ParseEscape();
            s := s + [ch];
          } else {
            s := s + [b];
          }
      }
    }

    method ParseAny(depth: nat) returns (r: Result<Value, JsonError>)
      requires Valid() && depth <= MAX_DEPTH + 1
      modifies this
      ensures Valid() && Agrees(ParseValue(input, old(pos), depth), r, pos)
      decreases MAX_DEPTH + 1 - depth, 2
    {
      if depth > MAX_DEPTH {
        return Err(DepthExceeded);
      }
      SkipWhitespace();
      var c := Peek();
      if c.None? {
        return Err(UnexpectedEof);
      }
      r := ParseDispatch(depth);
    }

    /** Choose by the first character. */
    method ParseDispatch(depth: nat) returns (r: Result<Value, JsonError>)
      requires pos < |input| && depth <= MAX_DEPTH
      modifies this
      ensures Valid() && Agrees(ParseStarting(input, old(pos), depth), r, pos)
      decreases MAX_DEPTH + 1 - depth, 1
    {
      hide ParseString, ParseArray, ParseObject, ParseNumber, Literal;
      var c := input[pos];
      if c == '"' {
        var s :- ParseQuoted();
        return Ok(String(s));
      } else if c == '{' {
        r := ParseObjectLoop(depth);
      } else if c == '[' {
        r := ParseArrayLoop(depth);
      } else if c == 't' {
        r := ParseLiteral("true", Bool(true));
      } else if c == 'f' {
        r := ParseLiteral("false", Bool(false));
      } else if c == 'n' {
        r := ParseLiteral("null", Null);
      } else if c == '-' || IsDigit(c) {
        r := ParseNumeral();
      } else {
        return Err(UnexpectedChar(pos, c));
      }
    }

    method ParseArrayLoop(depth: nat) returns (r: Result<Value, JsonError>)
      requires pos < |input| && depth <= MAX_DEPTH
      modifies this
      ensures Valid() && Agrees(ParseArray(input, old(pos), depth), r, pos)
      decreases MAX_DEPTH + 1 - depth, 0
    {
      hide ParseValue;
      var _ :- ExpectChar('[');
      SkipWhitespace();
      var arr: seq<Value> := [];
      if At(input, pos, ']') {
        pos := pos + 1;
        return Ok(Array(arr));
      }
      while true
        invariant Valid()
        invariant ArrayTail(input, pos, depth, arr) == ParseArray(input, old(pos), depth)
        decreases |input| - pos
      {
        var v :- ParseAny(depth + 1);
        arr := arr + [v];
        SkipWhitespace();
        if pos >= |input| {
          return Err(UnexpectedEof);
        } else if input[pos] == ',' {
          pos := pos + 1;
        } else if input[pos] == ']' {
          pos := pos + 1;
          return Ok(Array(arr));
        } else {
          return Err(UnexpectedChar(pos, input[pos]));
        }
      }
    }

    method ParseMemberKey() returns (r: Result<string, JsonError>)
      requires Valid()
      modifies this
      ensures Valid() && Agrees(ParseKey(input, old(pos)), r, pos)
    {
      hide ParseString;
      SkipWhitespace();
      var key :- ParseQuoted();
      SkipWhitespace();
      var _ :- ExpectChar(':');
      return Ok(key);
    }

    method ParseObjectLoop(depth: nat) returns (r: Result<Value, JsonError>)
      requires pos < |input| && depth <= MAX_DEPTH
      modifies this
      ensures Valid() && Agrees(ParseObject(input, old(pos), depth), r, pos)
      decreases MAX_DEPTH + 1 - depth, 0
    {
      hide ParseKey, ParseValue, Insert;
      var _ :- ExpectChar('{');
      SkipWhitespace();
      var obj: seq<Member> := [];
      if At(input, pos, '}') {
        pos := pos + 1;
        return Ok(Object(obj));
      }
      while true
        invariant Valid()
        invariant ObjectTail(input, pos, depth, obj) == ParseObject(input, old(pos), depth)
        decreases |input| - pos
      {
        var key :- ParseMemberKey();
        var val :- ParseAny(depth + 1);
        obj := Insert(obj, key, val);
        SkipWhitespace();
        if pos >= |input| {
          return Err(UnexpectedEof);
        } else if input[pos] == ',' {
          pos := pos + 1;
        } else if input[pos] == '}' {
          pos := pos + 1;
          return Ok(Object(obj));
        } else {
          return Err(UnexpectedChar(pos, input[pos]));
        }
      }
    }
  }

  /** `decode`: parse one value and allow only space after it. */
  method DecodeText(text: string) returns (r: Result<Value, JsonError>)
    ensures r == Decode(text)
  {
    var parser := new Parser(text);
    var value :- parser.ParseAny(0);
    parser.SkipWhitespace();
    if parser.pos < |parser.input| {
      return Err(TrailingContent(parser.pos));
    }
    return Ok(value);
  }
}
