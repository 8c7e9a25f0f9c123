/** The round trip through text: the decoder widens each UTF-8 byte to a character, so strings
    survive exactly when they are ASCII. */
module JsonText {
  import opened Wrappers
  import opened JsonNumber
  import opened JsonModel
  import opened JsonDecoder
  import opened JsonRoundTrip

  /** The value with every string and key replaced by its UTF-8 bytes read as characters. */
  function Widen(v: Value): Value {
    match v
    case String(s) => String(Utf8(s))
    case Array(items) => Array(WidenItems(items))
    case Object(members) => Object(WidenMembers(members))
    case _ => v
  }

  function WidenItems(items: seq<Value>): (r: seq<Value>)
    ensures |r| == |items|
    ensures forall i :: 0 <= i < |items| ==> r[i] == Widen(items[i])
  {
    if items == [] then [] else [Widen(items[0])] + WidenItems(items[1..])
  }

  function WidenMembers(members: seq<Member>): (r: seq<Member>)
    ensures |r| == |members|
    ensures forall i :: 0 <= i < |members| ==> r[i] == Member(Utf8(members[i].key), Widen(members[i].value))
  {
    if members == [] then []
    else [Member(Utf8(members[0].key), Widen(members[0].value))] + WidenMembers(members[1..])
  }

  predicate IsAscii(s: string) {
    forall i :: 0 <= i < |s| ==> s[i] as int < 0x80
  }

  predicate AsciiValue(v: Value) {
    match v
    case String(s) => IsAscii(s)
    case Array(items) => forall i :: 0 <= i < |items| ==> AsciiValue(items[i])
    case Object(members) => forall i :: 0 <= i < |members| ==> IsAscii(members[i].key) && AsciiValue(members[i].value)
    case _ => true
  }

  // ----- UTF-8 of texts

  lemma {:induction false} Utf8Append(a: string, b: string)
    ensures Utf8(a + b) == Utf8(a) + Utf8(b)
  {
    if a == "" {
      assert a + b == b;
    } else {
      assert (a + b)[1..] == a[1..] + b;
      Utf8Append(a[1..], b);
    }
  }

  /** UTF-8 leaves a string alone exactly when it is ASCII, and otherwise lengthens it. */
  lemma {:induction false} Utf8Length(s: string)
    ensures |Utf8(s)| >= |s|
    ensures IsAscii(s) ==> Utf8(s) == s
    ensures |Utf8(s)| == |s| ==> IsAscii(s)
  {
    if s != "" {
      Utf8Length(s[1..]);
      assert s == [s[0]] + s[1..];
    }
  }

  lemma {:induction false} EscapeAllAppend(a: string, b: string)
    ensures EscapeAll(a + b) == EscapeAll(a) + EscapeAll(b)
  {
    if a == "" {
      assert a + b == b;
    } else {
      assert (a + b)[1..] == a[1..] + b;
      EscapeAllAppend(a[1..], b);
    }
  }

  lemma {:induction false} EscapeHigh(s: string)
    requires forall i :: 0 <= i < |s| ==> s[i] as int >= 0x80
    ensures EscapeAll(s) == s
  {
    if s != "" {
      EscapeHigh(s[1..]);
      assert s == [s[0]] + s[1..];
    }
  }

  lemma EscapeAscii(c: char)
    requires c as int < 0x80
    ensures IsAscii(Escape(c))
  {
  }

  /** Escaping one character and taking bytes commute. */
  lemma EscapeCharUtf8(c: char)
    ensures Utf8(Escape(c)) == EscapeAll(Utf8Char(c))
  {
    assert [c][1..] == "";
    if c as int < 0x80 {
      hide Escape;
      EscapeAscii(c);
      Utf8Length(Escape(c));
      assert EscapeAll([c]) == Escape(c) + EscapeAll([c][1..]);
    } else {
      hide Utf8Char;
      Utf8CharHigh(c);
      EscapeHigh(Utf8Char(c));
    }
  }

  lemma Utf8CharHigh(c: char)
    requires c as int >= 0x80
    ensures forall i :: 0 <= i < |Utf8Char(c)| ==> Utf8Char(c)[i] as int >= 0x80
  {
  }

  lemma {:induction false} EscapeAllUtf8(s: string)
    ensures Utf8(EscapeAll(s)) == EscapeAll(Utf8(s))
  {
    if s != "" {
      EscapeAllUtf8(s[1..]);
      EscapeCharUtf8(s[0]);
      Utf8Append(Escape(s[0]), EscapeAll(s[1..]));
      EscapeAllAppend(Utf8Char(s[0]), Utf8(s[1..]));
    }
  }

  lemma EncodeStringUtf8(s: string)
    ensures Utf8(EncodeString(s)) == EncodeString(Utf8(s))
  {
    EscapeAllUtf8(s);
    Utf8Length(['"']);
    Utf8Append(['"'] + EscapeAll(s), ['"']);
    Utf8Append(['"'], EscapeAll(s));
  }

  // ----- Key order

  lemma {:induction false} LexAppend(x: string, a: string, b: string)
    ensures LexLess(x + a, x + b) == LexLess(a, b)
  {
    if x == "" {
      assert x + a == a && x + b == b;
    } else {
      assert (x + a)[1..] == x[1..] + a && (x + b)[1..] == x[1..] + b;
      LexAppend(x[1..], a, b);
    }
  }

  lemma Utf8CharOrder(c: char, d: char, a: string, b: string)
    requires c < d && d as int < 256
    ensures LexLess(Utf8Char(c) + a, Utf8Char(d) + b)
  {
    var x, y := Utf8Char(c) + a, Utf8Char(d) + b;
    if x[0] == y[0] {
      assert x[1..][0] < y[1..][0];
    }
  }

  /** Taking bytes keeps the order of byte strings, so widened keys stay sorted. */
  lemma {:induction false} Utf8KeepsOrder(a: string, b: string)
    requires IsBytes(a) && IsBytes(b) && LexLess(a, b)
    ensures LexLess(Utf8(a), Utf8(b))
  {
    if a != "" {
      if a[0] == b[0] {
        Utf8KeepsOrder(a[1..], b[1..]);
        LexAppend(Utf8Char(a[0]), Utf8(a[1..]), Utf8(b[1..]));
      } else {
        Utf8CharOrder(a[0], b[0], Utf8(a[1..]), Utf8(b[1..]));
      }
    }
  }

  // ----- Values

  lemma {:induction false} WidenValid(show: Printer, v: Value)
    requires Encodable(show, v)
    ensures Encodable(show, Widen(v)) && Depth(Widen(v)) == Depth(v)
    decreases v, 1
  {
    hide Printed;
    match v
    case Array(items) => WidenItemsValid(show, items);
    case Object(members) =>
      WidenMembersValid(show, members);
      WidenSorted(members);
    case _ =>
  }

  lemma {:induction false} WidenItemsValid(show: Printer, items: seq<Value>)
    requires forall i :: 0 <= i < |items| ==> Encodable(show, items[i])
    ensures forall i :: 0 <= i < |items| ==> Encodable(show, WidenItems(items)[i])
    ensures DepthItems(WidenItems(items)) == DepthItems(items)
    decreases items, 0
  {
    hide Printed;
    if items != [] {
      WidenValid(show, items[0]);
      WidenItemsValid(show, items[1..]);
    }
  }

  lemma {:induction false} WidenMembersValid(show: Printer, members: seq<Member>)
    requires forall i :: 0 <= i < |members| ==> Encodable(show, members[i].value)
    ensures forall i :: 0 <= i < |members| ==> Encodable(show, WidenMembers(members)[i].value)
    ensures DepthMembers(WidenMembers(members)) == DepthMembers(members)
    decreases members, 0
  {
    hide Printed;
    if members != [] {
      WidenValid(show, members[0].value);
      WidenMembersValid(show, members[1..]);
    }
  }

  lemma WidenSorted(members: seq<Member>)
    requires Sorted(members)
    ensures Sorted(WidenMembers(members))
  {
    forall i, j | 0 <= i < j < |members| ensures Less(WidenMembers(members)[i].key, WidenMembers(members)[j].key) {
      assert Less(members[i].key, members[j].key);
      Utf8KeepsOrder(Utf8(members[i].key), Utf8(members[j].key));
    }
  }

  lemma PlainUtf8(show: Printer, v: Value)
    requires Encodable(show, v) && (v.Null? || v.Bool? || v.Number?)
    ensures Utf8(Encode(show, v)) == Encode(show, v)
  {
    hide Utf8, Printed;
    if v.Number? {
      NumeralPrintable(NumeralOf(show, v.x));
    }
    Utf8Length(Encode(show, v));
  }

  lemma {:induction false} EncodeUtf8(show: Printer, v: Value)
    requires Encodable(show, v)
    ensures Utf8(Encode(show, v)) == Encode(show, Widen(v))
    decreases v, 1
  {
    hide Utf8, EncodeString, EncodeItems, EncodeMembers;
    WidenValid(show, v);
    match v
    case String(s) =>
      EncodeStringUtf8(s);
    case Array(items) =>
      EncodeItemsUtf8(show, items);
      Utf8Brackets('[', EncodeItems(show, items), ']');
    case Object(members) =>
      EncodeMembersUtf8(show, members);
      Utf8Brackets('{', EncodeMembers(show, members), '}');
    case _ =>
      PlainUtf8(show, v);
  }

  lemma Utf8Brackets(open: char, text: string, close: char)
    requires open as int < 0x80 && close as int < 0x80
    ensures Utf8([open] + text + [close]) == [open] + Utf8(text) + [close]
  {
    Utf8Length([open]);
    Utf8Length([close]);
    Utf8Append([open], text);
    Utf8Append([open] + text, [close]);
  }

  lemma Utf8Comma(a: string, b: string)
    ensures Utf8(a + ([','] + b)) == Utf8(a) + ([','] + Utf8(b))
  {
    Utf8Length([',']);
    Utf8Append([','], b);
    Utf8Append(a, [','] + b);
  }

  lemma {:induction false} EncodeItemsUtf8(show: Printer, items: seq<Value>)
    requires forall i :: 0 <= i < |items| ==> Encodable(show, items[i])
    ensures Utf8(EncodeItems(show, items)) == EncodeItems(show, WidenItems(items))
    decreases items, 0
  {
    WidenItemsValid(show, items);
    if items != [] {
      EncodeUtf8(show, items[0]);
      EncodeItemsUtf8(show, items[1..]);
      assert WidenItems(items)[1..] == WidenItems(items[1..]);
      if |items| == 1 {
        Utf8Append(Encode(show, items[0]), "");
      } else {
        Utf8Comma(Encode(show, items[0]), EncodeItems(show, items[1..]));
      }
    }
  }

  lemma {:induction false} EncodeMembersUtf8(show: Printer, members: seq<Member>)
    requires forall i :: 0 <= i < |members| ==> Encodable(show, members[i].value)
    ensures Utf8(EncodeMembers(show, members)) == EncodeMembers(show, WidenMembers(members))
    decreases members, 0
  {
    WidenMembersValid(show, members);
    if members != [] {
      var m, m' := members[0], WidenMembers(members)[0];
      EncodeUtf8(show, m.value);
      EncodeMembersUtf8(show, members[1..]);
      assert WidenMembers(members)[1..] == WidenMembers(members[1..]);
      assert Utf8(EncodeMember(show, m)) == EncodeMember(show, m') by {
        EncodeStringUtf8(m.key);
        Utf8Length([':']);
        Utf8Append(EncodeString(m.key), [':']);
        Utf8Append(EncodeString(m.key) + [':'], Encode(show, m.value));
      }
      if |members| == 1 {
        Utf8Append(EncodeMember(show, m), "");
      } else {
        Utf8Comma(EncodeMember(show, m), EncodeMembers(show, members[1..]));
      }
    }
  }

  /** Widening changes a value exactly when some string or key in it is not ASCII. */
  lemma {:induction false} WidenIdentity(v: Value)
    ensures Widen(v) == v <==> AsciiValue(v)
  {
    match v
    case String(s) => Utf8Length(s);
    case Array(items) =>
      forall i | 0 <= i < |items| ensures Widen(items[i]) == items[i] <==> AsciiValue(items[i]) {
        WidenIdentity(items[i]);
      }
      assert WidenItems(items) == items <==> forall i :: 0 <= i < |items| ==> WidenItems(items)[i] == items[i];
    case Object(members) =>
      forall i | 0 <= i < |members|
        ensures WidenMembers(members)[i] == members[i] <==> IsAscii(members[i].key) && AsciiValue(members[i].value)
      {
        Utf8Length(members[i].key);
        WidenIdentity(members[i].value);
      }
      assert WidenMembers(members) == members <==>
             forall i :: 0 <= i < |members| ==> WidenMembers(members)[i] == members[i];
    case _ =>
  }

  /** The round trip through text, for every value: deeper than the limit it is refused;
      otherwise it comes back with its strings widened, hence unchanged exactly when they are ASCII. */
  lemma TextRoundTrip(show: Printer, v: Value)
    requires Encodable(show, v)
    ensures Decode(Encode(show, v)) == if Depth(v) <= MAX_DEPTH then Ok(Widen(v)) else Err(DepthExceeded)
    ensures Decode(Encode(show, v)) == Ok(v) <==> Depth(v) <= MAX_DEPTH && AsciiValue(v)
  {
    WidenValid(show, v);
    EncodeUtf8(show, v);
    DocumentRoundTrip(show, Widen(v));
    WidenIdentity(v);
  }

  /** A string the round trip does not give back. */
  lemma NonAsciiIsLost(show: Printer)
    ensures Decode(Encode(show, String([0xE9 as char]))) != Ok(String([0xE9 as char]))
  {
    TextRoundTrip(show, String([0xE9 as char]));
    assert [0xE9 as char][0] as int == 0xE9;
  }
}
