/** What the decoder promises on every text, not only on the encoder's: a decoded value is a valid
    one within the depth limit, and only whole escapes are accepted. */
module JsonSoundness {
  import opened Wrappers
  import opened Arithmetic
  import opened Floats
  import opened JsonNumber
  import opened JsonModel
  import opened JsonSyntax
  import opened JsonDecoder
  import opened JsonReading
  import opened JsonAcceptance
  import opened JsonRoundTrip
  import opened JsonText

  // ----- Key order is a strict total order

  lemma {:induction false} LexTotal(a: string, b: string)
    ensures a == b || LexLess(a, b) || LexLess(b, a)
  {
    if a != "" && b != "" && a[0] == b[0] {
      LexTotal(a[1..], b[1..]);
      assert a == [a[0]] + a[1..] && b == [b[0]] + b[1..];
    }
  }

  lemma {:induction false} LexTransitive(a: string, b: string, c: string)
    requires LexLess(a, b) && LexLess(b, c)
    ensures LexLess(a, c)
  {
    if a != "" && a[0] == b[0] == c[0] {
      LexTransitive(a[1..], b[1..], c[1..]);
    }
  }

  /** The first byte of a character's UTF-8 form gives its length. */
  lemma LeadByte(c: char)
    ensures var (lead, n) := (Utf8Char(c)[0] as int, |Utf8Char(c)|);
            n == if lead < 0x80 then 1 else if lead < 0xE0 then 2 else if lead < 0xF0 then 3 else 4
  {
  }

  lemma Utf8CharInjective(c: char, d: char)
    requires Utf8Char(c) == Utf8Char(d)
    ensures c == d
  {
    assert CharOf(Utf8Char(c)) == c as int && CharOf(Utf8Char(d)) == d as int by {
      Utf8CharDecodes(c);
      Utf8CharDecodes(d);
    }
  }

  function CharOf(bytes: string): int {
    match |bytes|
    case 1 => bytes[0] as int
    case 2 => (bytes[0] as int - 0xC0) * 64 + (bytes[1] as int - 0x80)
    case 3 => (bytes[0] as int - 0xE0) * 4096 + (bytes[1] as int - 0x80) * 64 + (bytes[2] as int - 0x80)
    case 4 =>
      (bytes[0] as int - 0xF0) * 262144 + (bytes[1] as int - 0x80) * 4096
      + (bytes[2] as int - 0x80) * 64 + (bytes[3] as int - 0x80)
    case _ => 0
  }

  lemma SixBitGroups(x: nat)
    ensures x == x / 64 * 64 + x % 64
    ensures x == x / 4096 * 4096 + x / 64 % 64 * 64 + x % 64
    ensures x == x / 262144 * 262144 + x / 4096 % 64 * 4096 + x / 64 % 64 * 64 + x % 64
  {
    assert x / 4096 == x / 64 / 64;
    assert x / 262144 == x / 4096 / 64;
  }

  lemma Utf8CharDecodes(c: char)
    ensures CharOf(Utf8Char(c)) == c as int
  {
    SixBitGroups(c as int);
  }

  /** Different texts have different UTF-8 bytes. */
  lemma {:induction false} Utf8Injective(a: string, b: string)
    requires Utf8(a) == Utf8(b)
    ensures a == b
  {
    if a != "" && b != "" {
      var (p, q) := (Utf8Char(a[0]), Utf8Char(b[0]));
      assert Utf8(a)[0] == p[0] && Utf8(b)[0] == q[0];
      LeadByte(a[0]);
      LeadByte(b[0]);
      assert p == Utf8(a)[..|p|] && q == Utf8(b)[..|q|];
      Utf8CharInjective(a[0], b[0]);
      assert Utf8(a[1..]) == Utf8(a)[|p|..] && Utf8(b[1..]) == Utf8(b)[|q|..];
      Utf8Injective(a[1..], b[1..]);
      assert a == [a[0]] + a[1..] && b == [b[0]] + b[1..];
    }
  }

  lemma KeysCompare(a: string, b: string)
    requires a != b && !Less(a, b)
    ensures Less(b, a)
  {
    LexTotal(Utf8(a), Utf8(b));
    if Utf8(a) == Utf8(b) {
      Utf8Injective(a, b);
    }
  }

  // ----- Insertion is a map update

  lemma SortedTail(members: seq<Member>)
    requires Sorted(members) && members != []
    ensures Sorted(members[1..])
    ensures forall m :: m in members[1..] ==> Less(members[0].key, m.key) && m.key != members[0].key
  {
    forall m | m in members[1..] ensures Less(members[0].key, m.key) && m.key != members[0].key {
      var i :| 0 <= i < |members[1..]| && members[1..][i] == m;
      assert members[i + 1] == m;
      LessIrreflexive(members[0].key, m.key);
    }
  }

  lemma SortedCons(first: Member, rest: seq<Member>)
    requires Sorted(rest) && forall m :: m in rest ==> Less(first.key, m.key)
    ensures Sorted([first] + rest)
  {
    var all := [first] + rest;
    forall i, j | 0 <= i < j < |all| ensures Less(all[i].key, all[j].key) {
      assert all[j] == rest[j - 1] && rest[j - 1] in rest;
    }
  }

  /** Inserting keeps key order, replaces the member of that key and leaves the others. */
  lemma {:induction false} InsertUpdates(members: seq<Member>, key: string, value: Value)
    requires Sorted(members)
    ensures Sorted(Insert(members, key, value))
    ensures forall m :: m in Insert(members, key, value) <==> m == Member(key, value) || (m in members && m.key != key)
  {
    if members != [] {
      var (first, rest) := (members[0], members[1..]);
      assert members == [first] + rest;
      SortedTail(members);
      if first.key == key {
        SortedCons(Member(key, value), rest);
      } else if Less(key, first.key) {
        InsertFirst(members, key, value);
      } else {
        InsertUpdates(rest, key, value);
        KeysCompare(key, first.key);
        SortedCons(first, Insert(rest, key, value));
      }
    }
  }

  lemma InsertFirst(members: seq<Member>, key: string, value: Value)
    requires Sorted(members) && members != [] && Less(key, members[0].key)
    ensures Sorted([Member(key, value)] + members)
    ensures forall m :: m in members ==> m.key != key
  {
    forall m | m in members ensures Less(key, m.key) && m.key != key {
      var i :| 0 <= i < |members| && members[i] == m;
      if i > 0 {
        LexTransitive(Utf8(key), Utf8(members[0].key), Utf8(m.key));
      }
      LessIrreflexive(key, m.key);
    }
    SortedCons(Member(key, value), members);
  }

  // ----- Every decoded value is valid

  /** A valid value that nests no deeper than this. */
  ghost predicate Fits(v: Value, height: nat) {
    Valid(v) && Depth(v) <= height
  }

  ghost predicate MembersFit(members: seq<Member>, height: nat) {
    Sorted(members) && forall i :: 0 <= i < |members| ==> Fits(members[i].value, height)
  }

  lemma {:induction false} DepthItemsBound(items: seq<Value>, n: nat)
    requires forall i :: 0 <= i < |items| ==> Depth(items[i]) <= n
    ensures DepthItems(items) <= n
  {
    if items != [] {
      DepthItemsBound(items[1..], n);
    }
  }

  lemma {:induction false} DepthMembersBound(members: seq<Member>, n: nat)
    requires forall i :: 0 <= i < |members| ==> Depth(members[i].value) <= n
    ensures DepthMembers(members) <= n
  {
    if members != [] {
      DepthMembersBound(members[1..], n);
    }
  }

  lemma ArrayFits(items: seq<Value>, height: nat)
    requires forall i :: 0 <= i < |items| ==> Fits(items[i], height)
    ensures Fits(Array(items), height + 1)
  {
    hide DepthItems;
    DepthItemsBound(items, height);
  }

  lemma ObjectFits(members: seq<Member>, height: nat)
    requires MembersFit(members, height)
    ensures Fits(Object(members), height + 1)
  {
    hide DepthMembers;
    DepthMembersBound(members, height);
  }

  lemma NumFits(n: Numeral)
    requires n.Value().Some?
    ensures Fits(Meaning(Num(n)), 0)
  {
    hide Round, Exact, IsFloat;
    RoundIsFloat(DOUBLE, Exact(n.negative, n.whole, n.fraction, n.exp));
  }

  lemma FitsMore(v: Value, h: nat, h': nat)
    requires Fits(v, h) && h <= h'
    ensures Fits(v, h')
  {
  }

  lemma {:induction false} TreeFits(t: Tree)
    requires Good(t)
    ensures Fits(Meaning(t), Height(t))
    decreases t, 1
  {
    match t
    case Num(n) => NumFits(n);
    case Arr(_, items) =>
      if items != [] {
        hide Fits;
        ItemsFit(items, ItemsHeight(items));
        ArrayFits(ItemsMeaning(items), ItemsHeight(items));
      }
    case Obj(_, entries) =>
      if entries != [] {
        hide Fits;
        EntriesFit(entries, [], EntriesHeight(entries));
        ObjectFits(EntriesMeaning(entries, []), EntriesHeight(entries));
      }
    case _ =>
  }

  lemma {:induction false} ItemsFit(items: seq<Element>, height: nat)
    requires (forall i :: 0 <= i < |items| ==> GoodElement(items[i])) && ItemsHeight(items) <= height
    ensures |ItemsMeaning(items)| == |items|
    ensures forall i :: 0 <= i < |items| ==> Fits(ItemsMeaning(items)[i], height)
    decreases items, 0
  {
    hide Fits;
    if items != [] {
      assert GoodElement(items[0]);
      TreeFits(items[0].tree);
      FitsMore(Meaning(items[0].tree), Height(items[0].tree), height);
      ItemsFit(items[1..], height);
    }
  }

  lemma InsertFits(acc: seq<Member>, key: string, value: Value, height: nat)
    requires MembersFit(acc, height) && Fits(value, height)
    ensures MembersFit(Insert(acc, key, value), height)
  {
    hide Fits, Insert, Sorted;
    InsertUpdates(acc, key, value);
    var r := Insert(acc, key, value);
    forall i | 0 <= i < |r| ensures Fits(r[i].value, height) {
      assert r[i] in r;
    }
  }

  lemma {:induction false} EntriesFit(entries: seq<Entry>, acc: seq<Member>, height: nat)
    requires (forall i :: 0 <= i < |entries| ==> GoodEntry(entries[i])) && EntriesHeight(entries) <= height
    requires MembersFit(acc, height)
    ensures MembersFit(EntriesMeaning(entries, acc), height)
    decreases entries, 0
  {
    hide Fits, MembersFit;
    if entries != [] {
      var e := entries[0];
      assert GoodEntry(e);
      EntryGood(e);
      TreeFits(e.element.tree);
      FitsMore(Meaning(e.element.tree), Height(e.element.tree), height);
      InsertFits(acc, Chars(e.key), Meaning(e.element.tree), height);
      EntriesFit(entries[1..], Insert(acc, Chars(e.key), Meaning(e.element.tree)), height);
    }
  }

  /** Whatever text is decoded, the numbers of the value are finite doubles, its keys are in order
      without repeats, and it nests at most 32 deep. */
  lemma DecodedIsValid(text: string)
    requires Decode(text).Ok?
    ensures Valid(Decode(text).value) && Depth(Decode(text).value) <= MAX_DEPTH
  {
    hide ParseDocument, Meaning, Height, Good, ElementText, Valid, Depth;
    var e := DocumentAccepted(Utf8(text));
    TreeFits(e.tree);
  }

  /** Decoding, encoding and decoding again loses nothing exactly when the strings are ASCII. */
  lemma DecodeStable(show: Printer, text: string)
    requires Faithful(show) && Decode(text).Ok?
    ensures var v := Decode(text).value;
            Decode(Encode(show, v)) == Ok(v) <==> AsciiValue(v)
  {
    hide Decode, Faithful, Valid, Encodable, Encode, Depth;
    DecodedIsValid(text);
    FaithfulEncodes(show, Decode(text).value);
    TextRoundTrip(show, Decode(text).value);
  }

  // ----- Escapes

  /** After a backslash exactly the escapes of the syntax are accepted. */
  lemma EscapeIff(input: string, pos: nat)
    requires At(input, pos, '\\')
    ensures EscapedChar(input, pos + 1).Ok? <==> exists piece: Piece :: IsEscapeAt(input, pos, piece)
  {
    hide EscapedChar;
    if EscapedChar(input, pos + 1).Ok? {
      var piece := EscapeAccepted(input, pos);
      EscapeStands(input, pos, piece, EscapedChar(input, pos + 1).value.1);
    }
    if piece: Piece :| IsEscapeAt(input, pos, piece) {
      if piece.Short? {
        ShortRead(input, pos, piece);
      } else {
        UnicodeRead(input, pos, piece);
      }
    }
  }

  ghost predicate IsEscapeAt(input: string, pos: nat, piece: Piece) {
    !piece.Raw? && piece.Good() && Reads(input, pos, piece.Text())
  }

  lemma EscapeStands(input: string, pos: nat, piece: Piece, p: nat)
    requires At(input, pos, '\\') && piece.Good() && pos <= p <= |input| && piece.Text() == input[pos..p]
    ensures IsEscapeAt(input, pos, piece)
  {
    assert piece.Text()[0] == input[pos];
  }

  /** A surrogate that is not the first half of a pair is refused, whatever follows it. */
  lemma LoneSurrogateRefused(input: string, pos: nat, hex: string)
    requires IsHex4(hex) && Reads(input, pos, ['\\', 'u'] + hex)
    requires IsHighSurrogate(Hex4Value(hex)) || IsLowSurrogate(Hex4Value(hex))
    requires !exists low: string :: IsEscapeAt(input, pos, Pair(hex, low))
    ensures EscapedChar(input, pos + 1).Err?
  {
    hide EscapedChar, HexValue, Hex4Value;
    ReadsAt(input, pos, ['\\', 'u'] + hex, 0);
    ReadsAt(input, pos, ['\\', 'u'] + hex, 1);
    if EscapedChar(input, pos + 1).Ok? {
      var piece := EscapeAccepted(input, pos);
      var p := EscapedChar(input, pos + 1).value.1;
      EscapeStands(input, pos, piece, p);
      assert piece.Text()[1] == input[pos + 1];
      HexStands(input, pos, hex, piece);
    }
  }

  /** The hexadecimal digits of an escape are those that stand there. */
  lemma HexStands(input: string, pos: nat, hex: string, piece: Piece)
    requires |hex| == 4 && Reads(input, pos, ['\\', 'u'] + hex) && (piece.Unit? || piece.Pair?)
    requires piece.Good() && Reads(input, pos, piece.Text())
    ensures hex == if piece.Unit? then piece.hex else piece.high
  {
    hide HexValue, Hex4Value, Reads;
    var u := ['\\', 'u'];
    ReadsSplit(input, pos, u, hex);
    ReadsSlice(input, pos + 2, hex, pos + 6);
    if piece.Pair? {
      ReadsSplit(input, pos, u + piece.high, u + piece.low);
      ReadsSplit(input, pos, u, piece.high);
      ReadsSlice(input, pos + 2, piece.high, pos + 6);
    } else {
      ReadsSplit(input, pos, u, piece.hex);
      ReadsSlice(input, pos + 2, piece.hex, pos + 6);
    }
  }

  lemma OnePiece(piece: Piece)
    ensures PiecesText([piece]) == piece.Text() && Chars([piece]) == [piece.Char()]
  {
    hide Piece.Text, Piece.Char;
    var pieces := [piece];
    assert pieces[1..] == [];
    assert PiecesText(pieces) == piece.Text() + PiecesText(pieces[1..]);
    assert Chars(pieces) == [piece.Char()] + Chars(pieces[1..]);
  }

  /** A raw control character in a string is accepted. */
  lemma RawControlAccepted()
    ensures Decode(['"', 1 as char, '"']) == Ok(String([1 as char]))
  {
    var c := 1 as char;
    var (text, pieces) := (['"', c, '"'], [Raw(c)]);
    var e := Element("", Str(pieces), "");
    Utf8Length(text);
    OnePiece(Raw(c));
    assert StringText(pieces) == text;
    Bare(Str(pieces));
    DocumentRead(e);
  }
}
