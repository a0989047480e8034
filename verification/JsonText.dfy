/**
  JSON texts as RFC 8259 allows them: blanks between the tokens, and every spelling of the
  characters of a string.  What AK/JsonParser.cpp reads from such a text, for all of them.
 */
module JsonText {
  import opened Common
  import opened Json

  // ----- strings -----

  /** One character of a string as section 7 of RFC 8259 lets it be written. */
  datatype Piece = Raw(c: char) | Short(letter: char) | Code(digits: string)

  predicate IsHexDigit(c: char) { '0' <= c <= '9' || 'a' <= c <= 'f' || 'A' <= c <= 'F' }

  predicate Legal(p: Piece) {
    match p
    case Raw(c) => c != '\"' && c != '\\'
    case Short(letter) => letter in "\"\\/bfnrt"
    case Code(digits) => |digits| == 4 && forall i | 0 <= i < 4 :: IsHexDigit(digits[i])
  }

  predicate AllLegal(ps: seq<Piece>) { forall i | 0 <= i < |ps| :: Legal(ps[i]) }

  function Spelled(p: Piece): string {
    match p
    case Raw(c) => [c]
    case Short(letter) => ['\\', letter]
    case Code(digits) => ['\\', 'u'] + digits
  }

  function Spell(ps: seq<Piece>): string {
    if ps == [] then [] else Spelled(ps[0]) + Spell(ps[1..])
  }

  /** The table of section 7, by code points. */
  function ShortFor(letter: char): char {
    match letter
    case 'b' => 0x08 as char
    case 't' => 0x09 as char
    case 'n' => 0x0a as char
    case 'f' => 0x0c as char
    case 'r' => 0x0d as char
    case _ => letter
  }

  /** The bytes that one piece stands for. */
  function Said(p: Piece): string
    requires Legal(p)
  {
    match p
    case Raw(c) => [c]
    case Short(letter) => [ShortFor(letter)]
    case Code(digits) => Utf8(CodePoint(p))
  }

  function CodePoint(p: Piece): nat
    requires p.Code? && Legal(p)
  {
    HexNatural(p.digits);
    ValueOf(p.digits, 16)
  }

  lemma {:induction false} HexNatural(s: string)
    requires forall i | 0 <= i < |s| :: IsHexDigit(s[i])
    ensures ValueOf(s, 16) >= 0
  {
    if s != [] {
      HexNatural(s[..|s| - 1]);
    }
  }

  function Say(ps: seq<Piece>): string
    requires AllLegal(ps)
  {
    if ps == [] then [] else Said(ps[0]) + Say(ps[1..])
  }

  function Sixteens(n: nat): nat { if n == 0 then 1 else 16 * Sixteens(n - 1) }

  lemma {:induction false} HexReads(s: string)
    requires |s| <= 4 && forall i | 0 <= i < |s| :: IsHexDigit(s[i])
    ensures HexDigits(s) == Some(ValueOf(s, 16)) && 0 <= ValueOf(s, 16) < Sixteens(|s|) <= 0x1_0000
  {
    assert Sixteens(1) == 16 && Sixteens(2) == 256 && Sixteens(3) == 4096 && Sixteens(4) == 0x1_0000;
    if s != [] {
      HexReads(s[..|s| - 1]);
    }
  }

  lemma {:induction false} NoBlanksToTrim(s: string)
    requires s != [] && !IsSpace(s[0]) && !IsSpace(s[|s| - 1])
    ensures TrimEnd(SkipSpace(s)) == s
  {
  }

  lemma CodeReads(digits: string, rest: string)
    requires Legal(Code(digits))
    ensures Unescape(['u'] + digits + rest) == (Utf8(CodePoint(Code(digits))), 5)
  {
    var s := ['u'] + digits + rest;
    assert s[1..5] == digits;
    assert IsHexDigit(digits[0]) && IsHexDigit(digits[3]);
    NoBlanksToTrim(digits);
    HexReads(digits);
  }

  lemma {:induction false} ShortReads(letter: char, rest: string)
    requires Legal(Short(letter))
    ensures UnescapeBody(['\\', letter] + rest) == Prepend([ShortFor(letter)], UnescapeBody(rest))
  {
    var s := ['\\', letter] + rest;
    EscapeStep(s);
    assert s[1..] == [letter] + rest && s[2..] == rest;
  }

  lemma {:induction false} CodesRead(digits: string, rest: string)
    requires Legal(Code(digits))
    ensures UnescapeBody(['\\', 'u'] + digits + rest) == Prepend(Utf8(CodePoint(Code(digits))), UnescapeBody(rest))
  {
    var s := ['\\', 'u'] + digits + rest;
    EscapeStep(s);
    assert s[1..] == ['u'] + digits + rest && s[6..] == rest;
    CodeReads(digits, rest);
  }

  lemma {:induction false} PieceReads(p: Piece, rest: string)
    requires Legal(p)
    ensures UnescapeBody(Spelled(p) + rest) == Prepend(Said(p), UnescapeBody(rest))
  {
    match p
    case Raw(c) => assert ([c] + rest)[1..] == rest;
    case Short(letter) => ShortReads(letter, rest);
    case Code(digits) => CodesRead(digits, rest);
  }

  lemma {:induction false} SpellSplits(ps: seq<Piece>, rest: string)
    requires ps != []
    ensures Spell(ps) + ['\"'] + rest == Spelled(ps[0]) + (Spell(ps[1..]) + ['\"'] + rest)
  {
    var c, t := Spelled(ps[0]), Spell(ps[1..]);
    assert (c + t) + ['\"'] + rest == c + (t + ['\"'] + rest);
  }

  /** Every spelling of a string is read as the bytes that its pieces stand for. */
  lemma {:induction false} SpellingReads(ps: seq<Piece>, rest: string)
    requires AllLegal(ps)
    ensures UnescapeBody(Spell(ps) + ['\"'] + rest) == Ok(Say(ps), rest)
  {
    if ps == [] {
      assert Spell(ps) + ['\"'] + rest == ['\"'] + rest;
    } else {
      SpellingReads(ps[1..], rest);
      PieceReads(ps[0], Spell(ps[1..]) + ['\"'] + rest);
      SpellSplits(ps, rest);
    }
  }

  lemma TextReads(ps: seq<Piece>, rest: string)
    requires AllLegal(ps)
    ensures ParseText(['\"'] + Spell(ps) + ['\"'] + rest) == Ok(Say(ps), rest)
  {
    var all := ['\"'] + Spell(ps) + ['\"'] + rest;
    assert all[1..] == Spell(ps) + ['\"'] + rest;
    SpellingReads(ps, rest);
  }

  // ----- code points -----

  predicate Continues(s: string, i: nat) { i < |s| && 0x80 <= s[i] as int < 0xc0 }

  /** The first code point of a text in UTF-8 and how many bytes it takes, by section 3 of RFC 3629. */
  function Decoded(s: string): Option<(nat, nat)> {
    if s == [] then None
    else
      var b := s[0] as int;
      if b < 0x80 then Some((b, 1))
      else if 0xc0 <= b < 0xe0 && Continues(s, 1) then Some(((b - 0xc0) * 0x40 + (s[1] as int - 0x80), 2))
      else if 0xe0 <= b < 0xf0 && Continues(s, 1) && Continues(s, 2) then
        Some(((b - 0xe0) * 0x1000 + (s[1] as int - 0x80) * 0x40 + (s[2] as int - 0x80), 3))
      else if 0xf0 <= b < 0xf8 && Continues(s, 1) && Continues(s, 2) && Continues(s, 3) then
        Some(((b - 0xf0) * 0x40000 + (s[1] as int - 0x80) * 0x1000 + (s[2] as int - 0x80) * 0x40
              + (s[3] as int - 0x80), 4))
      else None
  }

  lemma SixBits(p: nat)
    requires p <= 0x10ffff
    ensures p / 0x40 / 0x40 == p / 0x1000 && p / 0x1000 / 0x40 == p / 0x40000
    ensures p == p / 0x40 * 0x40 + p % 0x40
    ensures p == p / 0x1000 * 0x1000 + p / 0x40 % 0x40 * 0x40 + p % 0x40
    ensures p == p / 0x40000 * 0x40000 + p / 0x1000 % 0x40 * 0x1000 + p / 0x40 % 0x40 * 0x40 + p % 0x40
  {
  }

  lemma ShortCodes(p: nat, rest: string)
    requires p <= 0x7ff
    ensures Decoded(Utf8(p) + rest) == Some((p, |Utf8(p)|))
  {
    var s := Utf8(p) + rest;
    assert s[0] == Utf8(p)[0];
    if p > 0x7f {
      assert s[1] == Utf8(p)[1];
    }
  }

  lemma MiddleCodes(p: nat, rest: string)
    requires 0x7ff < p <= 0xffff
    ensures Decoded(Utf8(p) + rest) == Some((p, |Utf8(p)|))
  {
    var s := Utf8(p) + rest;
    assert s[0] == Utf8(p)[0] && s[1] == Utf8(p)[1] && s[2] == Utf8(p)[2];
    SixBits(p);
  }

  lemma LongCodes(p: nat, rest: string)
    requires 0xffff < p <= 0x10ffff
    ensures Decoded(Utf8(p) + rest) == Some((p, |Utf8(p)|))
  {
    var s := Utf8(p) + rest;
    assert s[0] == Utf8(p)[0] && s[1] == Utf8(p)[1] && s[2] == Utf8(p)[2] && s[3] == Utf8(p)[3];
    SixBits(p);
  }

  /** append_code_point writes UTF-8. */
  lemma Utf8Decodes(p: nat, rest: string)
    requires p <= 0x10ffff
    ensures Decoded(Utf8(p) + rest) == Some((p, |Utf8(p)|))
  {
    if p <= 0x7ff {
      ShortCodes(p, rest);
    } else if p <= 0xffff {
      MiddleCodes(p, rest);
    } else {
      LongCodes(p, rest);
    }
  }

  // ----- surrogate pairs -----

  /** Two escapes that together stand for one code point above 0xffff. */
  predicate IsPair(a: Piece, b: Piece) {
    && a.Code? && b.Code? && Legal(a) && Legal(b)
    && 0xd800 <= CodePoint(a) < 0xdc00 && 0xdc00 <= CodePoint(b) < 0xe000
  }

  function Joined(a: Piece, b: Piece): (p: nat)
    requires IsPair(a, b)
    ensures 0x1_0000 <= p <= 0x10ffff
  {
    0x1_0000 + (CodePoint(a) - 0xd800) * 0x400 + (CodePoint(b) - 0xdc00)
  }

  /** The bytes that section 7 gives a string. */
  function RfcSay(ps: seq<Piece>): string
    requires AllLegal(ps)
  {
    if ps == [] then []
    else if |ps| > 1 && IsPair(ps[0], ps[1]) then Utf8(Joined(ps[0], ps[1])) + RfcSay(ps[2..])
    else Said(ps[0]) + RfcSay(ps[1..])
  }

  predicate HasPair(ps: seq<Piece>) { exists i | 0 <= i < |ps| - 1 :: IsPair(ps[i], ps[i + 1]) }

  lemma {:induction false} PairsShorten(ps: seq<Piece>)
    requires AllLegal(ps)
    ensures |RfcSay(ps)| <= |Say(ps)|
    ensures HasPair(ps) ==> |RfcSay(ps)| < |Say(ps)|
    ensures !HasPair(ps) ==> RfcSay(ps) == Say(ps)
  {
    if ps == [] {
    } else if |ps| > 1 && IsPair(ps[0], ps[1]) {
      PairsShorten(ps[2..]);
      assert Say(ps) == Said(ps[0]) + (Said(ps[1]) + Say(ps[1..][1..])) && ps[1..][1..] == ps[2..];
    } else {
      PairsShorten(ps[1..]);
      if HasPair(ps) {
        var i :| 0 <= i < |ps| - 1 && IsPair(ps[i], ps[i + 1]);
        assert IsPair(ps[1..][i - 1], ps[1..][i]);
      }
      if HasPair(ps[1..]) {
        var i :| 0 <= i < |ps[1..]| - 1 && IsPair(ps[1..][i], ps[1..][i + 1]);
        assert IsPair(ps[i + 1], ps[i + 2]);
      }
    }
  }

  /** The parser reads a string as section 7 says if and only if it has no surrogate pair. */
  lemma StringsExact(ps: seq<Piece>, rest: string)
    requires AllLegal(ps)
    ensures UnescapeBody(Spell(ps) + ['"'] + rest) == Ok(RfcSay(ps), rest) <==> !HasPair(ps)
  {
    SpellingReads(ps, rest);
    PairsShorten(ps);
  }

  // ----- numbers -----

  lemma {:induction false} DigitsAreDigits(n: nat)
    ensures Digits(n) != [] && forall i | 0 <= i < |Digits(n)| :: IsDigit(Digits(n)[i])
  {
    if n >= 10 {
      DigitsAreDigits(n / 10);
    }
  }

  lemma {:induction false} DigitsValue(n: nat)
    ensures AllDigits(Digits(n)) && ValueOf(Digits(n), 10) == n
  {
    if n < 10 {
      assert Digits(n)[..0] == [];
    } else {
      DigitsValue(n / 10);
      assert Digits(n)[..|Digits(n)| - 1] == Digits(n / 10);
    }
  }

  /** The accumulation loop on printed digits: the number, exactly when it fits. */
  lemma DigitsAccumulate(n: nat, sign: int, low: int, high: int)
    requires sign == 1 || sign == -1
    requires low <= 0 <= high
    ensures Accumulate(Digits(n), sign, low, high) == if low <= sign * n <= high then Some(sign * n) else None
  {
    DigitsValue(n);
    AccumulateExact(Digits(n), sign, low, high);
  }

  predicate Delimited(rest: string) {
    rest == [] || !(rest[0] == '-' || rest[0] == '.' || IsDigit(rest[0]))
  }

  lemma {:induction false} TakeWhole(s: string, rest: string)
    requires forall i | 0 <= i < |s| :: s[i] == '-' || IsDigit(s[i])
    requires Delimited(rest)
    ensures TakeNumber(s + rest, false) == (s, rest)
  {
    if s == [] {
      assert s + rest == rest;
    } else {
      TakeWhole(s[1..], rest);
      assert (s + rest)[1..] == s[1..] + rest;
      assert [s[0]] + s[1..] == s;
    }
  }

  lemma DecimalShape(n: int)
    ensures Decimal(n) != [] && forall i | 0 <= i < |Decimal(n)| :: Decimal(n)[i] == '-' || IsDigit(Decimal(n)[i])
  {
    DigitsAreDigits(if n < 0 then -n else n);
  }

  lemma NegativeConverts(n: int)
    requires 0 < n <= -I64_MIN
    ensures ToUint32(['-'] + Digits(n)) == None && ToInt64(['-'] + Digits(n)) == Some(-n)
  {
    var s := ['-'] + Digits(n);
    DigitsAreDigits(n);
    assert s[1..] == Digits(n);
    DigitsAccumulate(n, -1, I64_MIN, I64_MAX);
    BadFirst(s, 1, 0, U32_MAX);
  }

  lemma PositiveConverts(n: nat)
    ensures ToUint32(Digits(n)) == if n <= U32_MAX then Some(n) else None
    ensures ToInt64(Digits(n)) == if n <= I64_MAX then Some(n) else None
  {
    DigitsAreDigits(n);
    assert IsDigit(Digits(n)[0]);
    DigitsAccumulate(n, 1, 0, U32_MAX);
    DigitsAccumulate(n, 1, I64_MIN, I64_MAX);
  }

  lemma DecimalConverts(n: int)
    requires I64_MIN <= n
    ensures ToUint32(Decimal(n)) == if 0 <= n <= U32_MAX then Some(n) else None
    ensures ToInt64(Decimal(n)) == if n <= I64_MAX then Some(n) else None
  {
    if n < 0 { NegativeConverts(-n); } else { PositiveConverts(n); }
  }

  lemma {:induction false} BadFirst(s: string, sign: int, low: int, high: int)
    requires s != [] && !IsDigit(s[0])
    ensures Accumulate(s, sign, low, high) == None
  {
    if |s| > 1 {
      BadFirst(s[..|s| - 1], sign, low, high);
    }
  }

  /** parse_number on a printed 64-bit integer, for every one of them. */
  lemma NumberReads(n: int, rest: string)
    requires I64_MIN <= n && Delimited(rest)
    ensures Decimal(n) + rest != [] && (Peek(Decimal(n) + rest) == '-' || IsDigit(Peek(Decimal(n) + rest)))
    ensures ParseNumber(Decimal(n) + rest) ==
            if 0 <= n <= U32_MAX then Ok(Int(U32, n), rest)
            else if n > I64_MAX then Bad
            else if n > I32_MAX then Ok(Int(I64, n), rest)
            else Ok(Int(I32, TruncateToInt32(n)), rest)
  {
    DecimalShape(n);
    assert Decimal(n)[0] == (Decimal(n) + rest)[0];
    TakeWhole(Decimal(n), rest);
    DecimalConverts(n);
  }

  // ----- documents -----

  /** The width the parser gives an integer. */
  function WidthFor(n: int): Width {
    if 0 <= n <= U32_MAX then U32 else if n <= I32_MAX then I32 else I64
  }

  function Outcomed(r: Option<Value>, rest: string): Outcome<Value> {
    if r == None then Bad else Ok(r.value, rest)
  }

  predicate Starter(c: char) {
    c in "ntf\"[{-" || IsDigit(c)
  }

  lemma NoSpace(s: string)
    requires s != [] && !IsSpace(s[0])
    ensures SkipSpace(s) == s
  {
  }

  lemma LiteralReads(word: string, v: Value, rest: string)
    requires word != []
    ensures Literal(word + rest, word, v) == Ok(v, rest)
  {
    assert (word + rest)[..|word|] == word && (word + rest)[|word|..] == rest;
  }

  /** The blanks of isspace; section 2 of RFC 8259 allows four of them. */
  predicate IsBlank(s: string) { forall i | 0 <= i < |s| :: s[i] as int in {0x20, 0x09, 0x0a, 0x0b, 0x0c, 0x0d} }

  /** A text with blanks before and after it. */
  datatype Item = Item(before: string, doc: Doc, after: string)

  /** A member: blanks, the name, blanks, a colon, and the value with its blanks. */
  datatype Entry = Entry(before: string, key: seq<Piece>, after: string, item: Item)

  /** A JSON text without fractions and exponents; inside is what stands between empty brackets. */
  datatype Doc =
    | NullDoc
    | BoolDoc(b: bool)
    | IntDoc(n: int)
    | TextDoc(pieces: seq<Piece>)
    | ArrayDoc(inside: string, items: seq<Item>)
    | ObjectDoc(inside: string, entries: seq<Entry>)

  predicate Proper(doc: Doc)
    decreases doc, 2
  {
    match doc
    case IntDoc(n) => I64_MIN <= n
    case TextDoc(pieces) => AllLegal(pieces)
    case ArrayDoc(inside, items) => IsBlank(inside) && forall i | 0 <= i < |items| :: ProperItem(items[i])
    case ObjectDoc(inside, entries) => IsBlank(inside) && forall i | 0 <= i < |entries| :: ProperEntry(entries[i])
    case _ => true
  }

  predicate ProperItem(item: Item)
    decreases item, 0
  {
    IsBlank(item.before) && IsBlank(item.after) && Proper(item.doc)
  }

  predicate ProperEntry(entry: Entry)
    decreases entry, 1
  {
    IsBlank(entry.before) && AllLegal(entry.key) && IsBlank(entry.after) && ProperItem(entry.item)
  }

  function Text(doc: Doc): string
    decreases doc, 3
  {
    match doc
    case NullDoc => "null"
    case BoolDoc(b) => if b then "true" else "false"
    case IntDoc(n) => Decimal(n)
    case TextDoc(pieces) => ['\"'] + Spell(pieces) + ['\"']
    case ArrayDoc(inside, items) => ['['] + (if items == [] then inside else ItemsText(items)) + [']']
    case ObjectDoc(inside, entries) => ['{'] + (if entries == [] then inside else EntriesText(entries)) + ['}']
  }

  function ItemText(item: Item): string
    decreases item, 0
  {
    item.before + Text(item.doc) + item.after
  }

  function ItemsText(items: seq<Item>): string
    decreases items, 2
  {
    if items == [] then []
    else if |items| == 1 then ItemText(items[0])
    else ItemText(items[0]) + [','] + ItemsText(items[1..])
  }

  function EntryText(entry: Entry): string
    decreases entry, 1
  {
    entry.before + ['\"'] + Spell(entry.key) + ['\"'] + entry.after + [':'] + ItemText(entry.item)
  }

  function EntriesText(entries: seq<Entry>): string
    decreases entries, 2
  {
    if entries == [] then []
    else if |entries| == 1 then EntryText(entries[0])
    else EntryText(entries[0]) + [','] + EntriesText(entries[1..])
  }

  /** The value of a text: None when an integer is above 2^63 - 1; those below -2^31 come out truncated. */
  function Meant(doc: Doc): Option<Value>
    requires Proper(doc)
    decreases doc, 3
  {
    match doc
    case NullDoc => Some(Null)
    case BoolDoc(b) => Some(Bool(b))
    case IntDoc(n) => ReadInt(n)
    case TextDoc(pieces) => Some(Str(Say(pieces)))
    case ArrayDoc(_, items) =>
      var r := MeantItems(items, []);
      if r == None then None else Some(Array(r.value))
    case ObjectDoc(_, entries) =>
      var r := MeantEntries(entries, []);
      if r == None then None else Some(Object(r.value))
  }

  function ReadInt(n: int): Option<Value> {
    if n > I64_MAX then None else Some(Int(WidthFor(n), if n < 0 then TruncateToInt32(n) else n))
  }

  function MeantItems(items: seq<Item>, before: seq<Value>): Option<seq<Value>>
    requires forall i | 0 <= i < |items| :: ProperItem(items[i])
    decreases items, 2
  {
    if items == [] then Some(before)
    else
      assert ProperItem(items[0]);
      var v := Meant(items[0].doc);
      if v == None then None else MeantItems(items[1..], before + [v.value])
  }

  /** A name that comes again replaces the earlier member. */
  function MeantEntries(entries: seq<Entry>, before: seq<Member>): Option<seq<Member>>
    requires forall i | 0 <= i < |entries| :: ProperEntry(entries[i])
    decreases entries, 2
  {
    if entries == [] then Some(before)
    else
      assert ProperEntry(entries[0]) && ProperItem(entries[0].item);
      var v := Meant(entries[0].item.doc);
      if v == None then None else MeantEntries(entries[1..], SetMember(before, Say(entries[0].key), v.value))
  }

  // ----- reading documents -----

  lemma {:induction false} BlankSkips(b: string, s: string)
    requires IsBlank(b)
    ensures SkipSpace(b + s) == SkipSpace(s)
  {
    if b == [] {
      assert b + s == s;
    } else {
      assert b[0] as int in {0x20, 0x09, 0x0a, 0x0b, 0x0c, 0x0d} && (b + s)[1..] == b[1..] + s;
      BlankSkips(b[1..], s);
    }
  }

  lemma BlankDelimits(b: string, s: string)
    requires IsBlank(b) && Delimited(s)
    ensures Delimited(b + s)
  {
    if b == [] {
      assert b + s == s;
    } else {
      assert (b + s)[0] as int in {0x20, 0x09, 0x0a, 0x0b, 0x0c, 0x0d};
    }
  }

  lemma {:induction false} SkipTwice(s: string)
    ensures SkipSpace(SkipSpace(s)) == SkipSpace(s)
  {
    if s != [] && IsSpace(s[0]) {
      SkipTwice(s[1..]);
    }
  }

  lemma {:induction false} OnlyBlanks(s: string)
    ensures SkipSpace(s) == [] <==> IsBlank(s)
  {
    if s != [] {
      OnlyBlanks(s[1..]);
      assert IsBlank(s) <==> s[0] as int in {0x20, 0x09, 0x0a, 0x0b, 0x0c, 0x0d} && IsBlank(s[1..]) by {
        assert IsBlank(s) ==> forall i | 0 <= i < |s[1..]| :: s[1..][i] == s[i + 1];
        assert forall i | 0 < i < |s| :: s[i] == s[1..][i - 1];
      }
    }
  }

  lemma DocStarts(doc: Doc, rest: string)
    ensures
      var s := Text(doc) + rest;
      s != [] && Starter(s[0]) && SkipSpace(s) == s
  {
    if doc.IntDoc? {
      DecimalShape(doc.n);
    }
    assert (Text(doc) + rest)[0] == Text(doc)[0];
    NoSpace(Text(doc) + rest);
  }

  lemma {:induction false} DocReads(doc: Doc, rest: string)
    requires Proper(doc) && Delimited(rest)
    ensures ParseValue(Text(doc) + rest) == Outcomed(Meant(doc), rest)
    decreases doc, 10
  {
    DocStarts(doc, rest);
    match doc {
      case NullDoc => LiteralReads("null", Null, rest);
      case BoolDoc(b) => LiteralReads(if b then "true" else "false", Bool(b), rest);
      case IntDoc(n) => NumberReads(n, rest);
      case TextDoc(pieces) => TextReads(pieces, rest);
      case ArrayDoc(inside, items) => ArrayReads(inside, items, rest);
      case ObjectDoc(inside, entries) => ObjectReads(inside, entries, rest);
    }
  }

  lemma ItemStarts(item: Item, next: string)
    requires IsBlank(item.before)
    ensures
      var s := Text(item.doc) + (item.after + next);
      SkipSpace(ItemText(item) + next) == s == SkipSpace(s) && s != [] && Starter(s[0])
  {
    var s := Text(item.doc) + (item.after + next);
    assert ItemText(item) + next == item.before + s;
    BlankSkips(item.before, s);
    DocStarts(item.doc, item.after + next);
  }

  /** A text with blanks around it, in front of something that ends it. */
  lemma ItemReads(item: Item, next: string)
    requires ProperItem(item) && Delimited(next) && (next == [] || !IsSpace(next[0]))
    ensures
      var s := SkipSpace(ItemText(item) + next);
      && s != [] && Starter(s[0]) && SkipSpace(s) == s
      && ParseValue(s) == Outcomed(Meant(item.doc), item.after + next) && SkipSpace(item.after + next) == next
    decreases item, 5
  {
    ItemStarts(item, next);
    BlankSkips(item.after, next);
    BlankDelimits(item.after, next);
    DocReads(item.doc, item.after + next);
  }

  lemma ArrayReads(inside: string, items: seq<Item>, rest: string)
    requires IsBlank(inside) && forall i | 0 <= i < |items| :: ProperItem(items[i])
    ensures
      var doc := ArrayDoc(inside, items);
      ParseItems((Text(doc) + rest)[1..], []) == Outcomed(Meant(doc), rest)
    decreases items, 8
  {
    ArrayShape(inside, items, rest);
    if items == [] {
      EmptyArray(inside, rest);
    } else {
      ItemsRead(items, [], rest);
    }
  }

  lemma ArrayShape(inside: string, items: seq<Item>, rest: string)
    ensures (Text(ArrayDoc(inside, items)) + rest)[1..] ==
            (if items == [] then inside else ItemsText(items)) + ([']'] + rest)
  {
  }

  lemma EmptyArray(inside: string, rest: string)
    requires IsBlank(inside)
    ensures ParseItems(inside + ([']'] + rest), []) == Ok(Array([]), rest)
  {
    BlankSkips(inside, [']'] + rest);
    NoSpace([']'] + rest);
    assert ([']'] + rest)[1..] == rest;
  }

  /** What follows the first item: the closing bracket, or a comma and the other items. */
  function AfterItem(items: seq<Item>, rest: string): string
    requires items != []
  {
    if |items| == 1 then [']'] + rest else [','] + (ItemsText(items[1..]) + ([']'] + rest))
  }

  lemma {:induction false} AfterItemShape(items: seq<Item>, rest: string)
    requires items != []
    ensures ItemsText(items) + ([']'] + rest) == ItemText(items[0]) + AfterItem(items, rest)
    ensures
      var next := AfterItem(items, rest);
      && next != [] && Delimited(next) && !IsSpace(next[0]) && next[0] == (if |items| == 1 then ']' else ',')
      && next[1..] == if |items| == 1 then rest else ItemsText(items[1..]) + ([']'] + rest)
  {
    var p := ItemText(items[0]);
    if |items| > 1 {
      var q := ItemsText(items[1..]);
      assert (p + [','] + q) + ([']'] + rest) == p + ([','] + (q + ([']'] + rest)));
    }
  }

  /** One pass of the loop of parse_array, with the blanks it skips. */
  lemma {:induction false} ItemsStep(s: string, before: seq<Value>, v: Option<Value>, tail: string, next: string)
    requires SkipSpace(s) != [] && SkipSpace(s)[0] != ']'
    requires ParseValue(SkipSpace(s)) == Outcomed(v, tail) && SkipSpace(tail) == next && next != []
    ensures v == None ==> ParseItems(s, before) == Bad
    ensures v.Some? && next[0] == ']' ==> ParseItems(s, before) == Ok(Array(before + [v.value]), next[1..])
    ensures v.Some? && next[0] == ',' && Peek(SkipSpace(next[1..])) != ']' ==>
              ParseItems(s, before) == ParseItems(SkipSpace(next[1..]), before + [v.value])
  {
  }

  lemma SkippedItems(s: string, before: seq<Value>)
    ensures ParseItems(SkipSpace(s), before) == ParseItems(s, before)
  {
    SkipTwice(s);
  }

  lemma MoreItems(items: seq<Item>, next: string)
    requires items != [] && ProperItem(items[0])
    ensures Starter(Peek(SkipSpace(ItemsText(items) + next)))
  {
    if |items| == 1 {
      ItemStarts(items[0], next);
    } else {
      var more := [','] + (ItemsText(items[1..]) + next);
      assert ItemsText(items) + next == ItemText(items[0]) + more;
      ItemStarts(items[0], more);
    }
  }

  /** The first item of several, or the last. */
  lemma ItemsOnce(item: Item, text: string, before: seq<Value>, next: string)
    requires ProperItem(item) && Proper(item.doc) && text == ItemText(item) + next
    requires next != [] && Delimited(next) && !IsSpace(next[0])
    requires next[0] == ']' || (next[0] == ',' && Peek(SkipSpace(next[1..])) != ']')
    ensures
      var r := ParseItems(text, before);
      var v := Meant(item.doc);
      if v == None then r == Bad
      else if next[0] == ']' then r == Ok(Array(before + [v.value]), next[1..])
      else r == ParseItems(next[1..], before + [v.value])
    decreases item, 6
  {
    ItemReads(item, next);
    var v := Meant(item.doc);
    ItemsStep(text, before, v, item.after + next, next);
    if v.Some? {
      SkippedItems(next[1..], before + [v.value]);
    }
  }

  lemma {:induction false} ItemsRead(items: seq<Item>, before: seq<Value>, rest: string)
    requires items != [] && forall i | 0 <= i < |items| :: ProperItem(items[i])
    ensures
      var r := MeantItems(items, before);
      ParseItems(ItemsText(items) + ([']'] + rest), before) == if r == None then Bad else Ok(Array(r.value), rest)
    decreases items, 7
  {
    AfterItemShape(items, rest);
    if |items| > 1 {
      MoreItems(items[1..], [']'] + rest);
    }
    assert ProperItem(items[0]);
    ItemsOnce(items[0], ItemsText(items) + ([']'] + rest), before, AfterItem(items, rest));
    var v := Meant(items[0].doc);
    if v.Some? && |items| > 1 {
      ItemsRead(items[1..], before + [v.value], rest);
    }
  }

  lemma ObjectReads(inside: string, entries: seq<Entry>, rest: string)
    requires IsBlank(inside) && forall i | 0 <= i < |entries| :: ProperEntry(entries[i])
    ensures
      var doc := ObjectDoc(inside, entries);
      ParseMembers((Text(doc) + rest)[1..], []) == Outcomed(Meant(doc), rest)
    decreases entries, 9
  {
    ObjectShape(inside, entries, rest);
    if entries == [] {
      EmptyObject(inside, rest);
    } else {
      EntriesRead(entries, [], rest);
    }
  }

  lemma ObjectShape(inside: string, entries: seq<Entry>, rest: string)
    ensures (Text(ObjectDoc(inside, entries)) + rest)[1..] ==
            (if entries == [] then inside else EntriesText(entries)) + (['}'] + rest)
  {
  }

  lemma EmptyObject(inside: string, rest: string)
    requires IsBlank(inside)
    ensures ParseMembers(inside + (['}'] + rest), []) == Ok(Object([]), rest)
  {
    BlankSkips(inside, ['}'] + rest);
    NoSpace(['}'] + rest);
    assert (['}'] + rest)[1..] == rest;
  }

  function AfterEntry(entries: seq<Entry>, rest: string): string
    requires entries != []
  {
    if |entries| == 1 then ['}'] + rest else [','] + (EntriesText(entries[1..]) + (['}'] + rest))
  }

  lemma {:induction false} AfterEntryShape(entries: seq<Entry>, rest: string)
    requires entries != []
    ensures EntriesText(entries) + (['}'] + rest) == EntryText(entries[0]) + AfterEntry(entries, rest)
    ensures
      var next := AfterEntry(entries, rest);
      && next != [] && Delimited(next) && !IsSpace(next[0]) && next[0] == (if |entries| == 1 then '}' else ',')
      && next[1..] == if |entries| == 1 then rest else EntriesText(entries[1..]) + (['}'] + rest)
  {
    var p := EntryText(entries[0]);
    if |entries| > 1 {
      var q := EntriesText(entries[1..]);
      assert (p + [','] + q) + (['}'] + rest) == p + ([','] + (q + (['}'] + rest)));
    }
  }

  /** The text of a member behind its first blanks. */
  lemma EntryStarts(entry: Entry, next: string)
    requires ProperEntry(entry)
    ensures
      var colon := [':'] + (ItemText(entry.item) + next);
      var s := ['\"'] + Spell(entry.key) + ['\"'] + (entry.after + colon);
      EntryText(entry) + next == entry.before + s && SkipSpace(EntryText(entry) + next) == s
  {
    var colon := [':'] + (ItemText(entry.item) + next);
    var s := ['\"'] + Spell(entry.key) + ['\"'] + (entry.after + colon);
    EntryShape(entry.before, Spell(entry.key), entry.after, ItemText(entry.item), next);
    BlankSkips(entry.before, s);
    NoSpace(s);
  }

  lemma EntryShape(b: string, k: string, a: string, i: string, n: string)
    ensures b + ['\"'] + k + ['\"'] + a + [':'] + i + n == b + (['\"'] + k + ['\"'] + (a + ([':'] + (i + n))))
  {
    var head := ['\"'] + k + ['\"'];
    assert b + ['\"'] + k + ['\"'] == b + head;
    assert a + [':'] + i + n == a + ([':'] + (i + n));
  }

  lemma EntryReads(entry: Entry, next: string)
    requires ProperEntry(entry) && ProperItem(entry.item) && Delimited(next) && (next == [] || !IsSpace(next[0]))
    ensures
      var s := SkipSpace(EntryText(entry) + next);
      var v := Meant(entry.item.doc);
      && s != [] && s[0] == '\"'
      && ParseMember(s) == if v == None then Bad else Ok(Member(Say(entry.key), v.value), entry.item.after + next)
    ensures SkipSpace(entry.item.after + next) == next
    decreases entry, 6
  {
    EntryStarts(entry, next);
    var colon := [':'] + (ItemText(entry.item) + next);
    TextReads(entry.key, entry.after + colon);
    BlankSkips(entry.after, colon);
    NoSpace(colon);
    assert colon[1..] == ItemText(entry.item) + next;
    ItemReads(entry.item, next);
  }

  /** One pass of the loop of parse_object, with the blanks it skips. */
  lemma {:induction false} EntriesStep(s: string, before: seq<Member>, m: Option<Member>, tail: string, next: string)
    requires SkipSpace(s) != [] && SkipSpace(s)[0] != '}' && SkipSpace(tail) == next && next != []
    requires ParseMember(SkipSpace(s)) == if m == None then Bad else Ok(m.value, tail)
    ensures m == None ==> ParseMembers(s, before) == Bad
    ensures m.Some? ==>
      var all := SetMember(before, m.value.key, m.value.value);
      && (next[0] == '}' ==> ParseMembers(s, before) == Ok(Object(all), next[1..]))
      && (next[0] == ',' && Peek(SkipSpace(next[1..])) != '}' ==>
            ParseMembers(s, before) == ParseMembers(SkipSpace(next[1..]), all))
  {
  }

  lemma SkippedMembers(s: string, before: seq<Member>)
    ensures ParseMembers(SkipSpace(s), before) == ParseMembers(s, before)
  {
    SkipTwice(s);
  }

  lemma MoreEntries(entries: seq<Entry>, next: string)
    requires entries != [] && ProperEntry(entries[0])
    ensures Peek(SkipSpace(EntriesText(entries) + next)) == '\"'
  {
    if |entries| == 1 {
      EntryStarts(entries[0], next);
    } else {
      var more := [','] + (EntriesText(entries[1..]) + next);
      assert EntriesText(entries) + next == EntryText(entries[0]) + more;
      EntryStarts(entries[0], more);
    }
  }

  /** The first member of several, or the last. */
  lemma EntriesOnce(entry: Entry, text: string, before: seq<Member>, next: string)
    requires ProperEntry(entry) && ProperItem(entry.item) && Proper(entry.item.doc) && text == EntryText(entry) + next
    requires next != [] && Delimited(next) && !IsSpace(next[0])
    requires next[0] == '}' || (next[0] == ',' && Peek(SkipSpace(next[1..])) != '}')
    ensures
      var r := ParseMembers(text, before);
      var v := Meant(entry.item.doc);
      if v == None then r == Bad
      else
        var all := SetMember(before, Say(entry.key), v.value);
        if next[0] == '}' then r == Ok(Object(all), next[1..]) else r == ParseMembers(next[1..], all)
    decreases entry, 7
  {
    EntryReads(entry, next);
    var v := Meant(entry.item.doc);
    var m := if v == None then None else Some(Member(Say(entry.key), v.value));
    EntriesStep(text, before, m, entry.item.after + next, next);
    if v.Some? {
      SkippedMembers(next[1..], SetMember(before, Say(entry.key), v.value));
    }
  }

  lemma {:induction false} EntriesRead(entries: seq<Entry>, before: seq<Member>, rest: string)
    requires entries != [] && forall i | 0 <= i < |entries| :: ProperEntry(entries[i])
    ensures
      var r := MeantEntries(entries, before);
      ParseMembers(EntriesText(entries) + (['}'] + rest), before) ==
      if r == None then Bad else Ok(Object(r.value), rest)
    decreases entries, 8
  {
    AfterEntryShape(entries, rest);
    if |entries| > 1 {
      MoreEntries(entries[1..], ['}'] + rest);
    }
    assert ProperEntry(entries[0]) && ProperItem(entries[0].item);
    EntriesOnce(entries[0], EntriesText(entries) + (['}'] + rest), before, AfterEntry(entries, rest));
    var v := Meant(entries[0].item.doc);
    if v.Some? && |entries| > 1 {
      EntriesRead(entries[1..], SetMember(before, Say(entries[0].key), v.value), rest);
    }
  }

  // ----- texts that are refused -----

  /** What may not follow an item or a member, up to the closing character. */
  predicate Unfit(next: string, close: char) {
    && Delimited(next) && (next == [] || !IsSpace(next[0]))
    && (next == [] || (next[0] != close && (next[0] != ',' || Peek(SkipSpace(next[1..])) == close)))
  }

  lemma {:induction false} ItemsStop(s: string, before: seq<Value>, v: Option<Value>, tail: string)
    requires SkipSpace(s) != [] && SkipSpace(s)[0] != ']'
    requires ParseValue(SkipSpace(s)) == Outcomed(v, tail) && Unfit(SkipSpace(tail), ']')
    ensures ParseItems(s, before) == Bad
  {
  }

  lemma {:induction false} MembersStop(s: string, before: seq<Member>, m: Option<Member>, tail: string)
    requires SkipSpace(s) != [] && SkipSpace(s)[0] != '}' && Unfit(SkipSpace(tail), '}')
    requires ParseMember(SkipSpace(s)) == if m == None then Bad else Ok(m.value, tail)
    ensures ParseMembers(s, before) == Bad
  {
  }

  lemma LastItemRefused(item: Item, before: seq<Value>, next: string)
    requires ProperItem(item) && Unfit(next, ']')
    ensures ParseItems(ItemText(item) + next, before) == Bad
  {
    ItemReads(item, next);
    ItemsStop(ItemText(item) + next, before, Meant(item.doc), item.after + next);
  }

  /** An array whose last item is followed by the end, by something that is no comma, or by a comma and the bracket. */
  lemma {:induction false} ArrayRefused(items: seq<Item>, before: seq<Value>, next: string)
    requires items != [] && (forall i | 0 <= i < |items| :: ProperItem(items[i])) && Unfit(next, ']')
    ensures ParseItems(ItemsText(items) + next, before) == Bad
    decreases |items|
  {
    var item := items[0];
    assert ProperItem(item);
    if |items| == 1 {
      LastItemRefused(item, before, next);
    } else {
      var more := ItemsText(items[1..]) + next;
      assert ItemsText(items) + next == ItemText(item) + ([','] + more);
      MoreItems(items[1..], next);
      assert ([','] + more)[1..] == more;
      ItemsOnce(item, ItemsText(items) + next, before, [','] + more);
      if Meant(item.doc).Some? {
        ArrayRefused(items[1..], before + [Meant(item.doc).value], next);
      }
    }
  }

  lemma LastEntryRefused(entry: Entry, before: seq<Member>, next: string)
    requires ProperEntry(entry) && ProperItem(entry.item) && Unfit(next, '}')
    ensures ParseMembers(EntryText(entry) + next, before) == Bad
  {
    EntryReads(entry, next);
    var v := Meant(entry.item.doc);
    var m := if v == None then None else Some(Member(Say(entry.key), v.value));
    MembersStop(EntryText(entry) + next, before, m, entry.item.after + next);
  }

  /** The same for an object. */
  lemma {:induction false} ObjectRefused(entries: seq<Entry>, before: seq<Member>, next: string)
    requires entries != [] && (forall i | 0 <= i < |entries| :: ProperEntry(entries[i])) && Unfit(next, '}')
    ensures ParseMembers(EntriesText(entries) + next, before) == Bad
    decreases |entries|
  {
    var entry := entries[0];
    assert ProperEntry(entry) && ProperItem(entry.item);
    if |entries| == 1 {
      LastEntryRefused(entry, before, next);
    } else {
      var more := EntriesText(entries[1..]) + next;
      assert EntriesText(entries) + next == EntryText(entry) + ([','] + more);
      MoreEntries(entries[1..], next);
      assert ([','] + more)[1..] == more;
      EntriesOnce(entry, EntriesText(entries) + next, before, [','] + more);
      var v := Meant(entry.item.doc);
      if v.Some? {
        ObjectRefused(entries[1..], SetMember(before, Say(entry.key), v.value), next);
      }
    }
  }

  lemma BlankBefore(b: string, s: string)
    requires IsBlank(b)
    ensures ParseValue(b + s) == ParseValue(s)
  {
    BlankSkips(b, s);
  }

  lemma ParseEnds(s: string, v: Option<Value>, rest: string)
    requires ParseValue(s) == Outcomed(v, rest)
    ensures Parse(s) == if SkipSpace(rest) == [] then Outcomed(v, []) else Bad
  {
  }

  /** A whole text: read as what it means if only blanks follow, and refused if anything else does. */
  lemma WholeTextReads(before: string, doc: Doc, rest: string)
    requires IsBlank(before) && Proper(doc) && Delimited(rest)
    ensures Parse(before + (Text(doc) + rest)) == if IsBlank(rest) then Outcomed(Meant(doc), []) else Bad
  {
    DocReads(doc, rest);
    BlankBefore(before, Text(doc) + rest);
    ParseEnds(before + (Text(doc) + rest), Meant(doc), rest);
    OnlyBlanks(rest);
  }

  lemma FourDigits(s: string)
    requires |s| == 4
    ensures
      var d := seq(4, i requires 0 <= i < 4 => DigitValue(s[i]));
      ValueOf(s, 16) == ((d[0] * 16 + d[1]) * 16 + d[2]) * 16 + d[3]
  {
    assert s[..3][..2] == s[..2] && s[..2][..1] == s[..1] && s[..1][..0] == [];
    assert ValueOf(s[..1], 16) == DigitValue(s[0]);
    assert ValueOf(s[..2], 16) == ValueOf(s[..1], 16) * 16 + DigitValue(s[1]);
    assert ValueOf(s[..3], 16) == ValueOf(s[..2], 16) * 16 + DigitValue(s[2]);
  }

  /** The escapes of U+1F600 come out as two surrogates of three bytes each. */
  lemma SplitPair(rest: string)
    ensures
      var ps := [Code("d83d"), Code("de00")];
      && AllLegal(ps) && RfcSay(ps) == Utf8(0x1f600)
      && UnescapeBody(Spell(ps) + ['\"'] + rest) == Ok(Utf8(0xd83d) + Utf8(0xde00), rest)
  {
    var a, b := Code("d83d"), Code("de00");
    FourDigits("d83d");
    FourDigits("de00");
    assert CodePoint(a) == 0xd83d && CodePoint(b) == 0xde00;
    SpellingReads([a, b], rest);
    TwoPieces(a, b);
  }

  lemma TwoPieces(a: Piece, b: Piece)
    requires IsPair(a, b)
    ensures Say([a, b]) == Said(a) + Said(b) && RfcSay([a, b]) == Utf8(Joined(a, b))
  {
    assert [a, b][1..] == [b] && [a, b][2..] == [] && [b][1..] == [];
    assert Say([b]) == Said(b) + Say([]) == Said(b);
    assert RfcSay([a, b]) == Utf8(Joined(a, b)) + RfcSay([]);
  }

  // ----- names that come again -----

  predicate NoneTwice(members: seq<Member>) {
    forall i, j | 0 <= i < j < |members| :: members[i].key != members[j].key
  }

  /** The value of a member. */
  function Find(members: seq<Member>, key: string): Option<Value> {
    if members == [] then None else if members[0].key == key then Some(members[0].value) else Find(members[1..], key)
  }

  lemma {:induction false} FindLast(members: seq<Member>, m: Member, key: string)
    ensures Find(members + [m], key) ==
            if Find(members, key).Some? then Find(members, key) else if m.key == key then Some(m.value) else None
  {
    if members == [] {
      assert members + [m] == [m] && [m][1..] == [];
    } else {
      FindLast(members[1..], m, key);
      assert (members + [m])[1..] == members[1..] + [m];
    }
  }

  lemma {:induction false} RemoveFinds(members: seq<Member>, key: string, k: string)
    requires NoneTwice(members)
    ensures NoneTwice(RemoveMember(members, key))
    ensures forall i | 0 <= i < |RemoveMember(members, key)| :: RemoveMember(members, key)[i] in members
    ensures forall i | 0 <= i < |RemoveMember(members, key)| :: RemoveMember(members, key)[i].key != key
    ensures Find(RemoveMember(members, key), k) == if k == key then None else Find(members, k)
  {
    if members != [] {
      assert NoneTwice(members[1..]);
      RemoveFinds(members[1..], key, k);
      if members[0].key == key {
        FindAbsent(members[1..], key);
      }
    }
  }

  lemma {:induction false} FindAbsent(members: seq<Member>, key: string)
    requires forall i | 0 <= i < |members| :: members[i].key != key
    ensures Find(members, key) == None
  {
    if members != [] {
      FindAbsent(members[1..], key);
    }
  }

  /** JsonObject::set gives a name one member, with the new value, and leaves all others. */
  lemma SetFinds(members: seq<Member>, key: string, value: Value, k: string)
    requires NoneTwice(members)
    ensures NoneTwice(SetMember(members, key, value))
    ensures Find(SetMember(members, key, value), k) == if k == key then Some(value) else Find(members, k)
  {
    RemoveFinds(members, key, k);
    FindLast(RemoveMember(members, key), Member(key, value), k);
  }

  lemma EntryMeant(entries: seq<Entry>, before: seq<Member>) returns (v: Value)
    requires entries != [] && forall i | 0 <= i < |entries| :: ProperEntry(entries[i])
    requires MeantEntries(entries, before).Some?
    ensures ProperItem(entries[0].item) && Proper(entries[0].item.doc) && Meant(entries[0].item.doc) == Some(v)
    ensures MeantEntries(entries, before) == MeantEntries(entries[1..], SetMember(before, Say(entries[0].key), v))
  {
    assert ProperEntry(entries[0]) && ProperItem(entries[0].item);
    v := Meant(entries[0].item.doc).value;
  }

  predicate Named(entry: Entry, key: string) { AllLegal(entry.key) && Say(entry.key) == key }

  predicate GivesValue(entry: Entry, v: Value) { Proper(entry.item.doc) && Meant(entry.item.doc) == Some(v) }

  /** A name that no entry has keeps its member. */
  lemma {:induction false} OthersKept(entries: seq<Entry>, before: seq<Member>, key: string)
    requires NoneTwice(before) && forall i | 0 <= i < |entries| :: ProperEntry(entries[i]) && !Named(entries[i], key)
    requires MeantEntries(entries, before).Some?
    ensures NoneTwice(MeantEntries(entries, before).value)
    ensures Find(MeantEntries(entries, before).value, key) == Find(before, key)
    decreases |entries|
  {
    if entries != [] {
      var v := EntryMeant(entries, before);
      SetFinds(before, Say(entries[0].key), v, key);
      OthersKept(entries[1..], SetMember(before, Say(entries[0].key), v), key);
    }
  }

  /** Of several entries with one name the last gives the member its value. */
  lemma {:induction false} LastWins(entries: seq<Entry>, before: seq<Member>, k: nat, key: string, v: Value)
    requires NoneTwice(before) && forall i | 0 <= i < |entries| :: ProperEntry(entries[i])
    requires k < |entries| && Named(entries[k], key) && GivesValue(entries[k], v)
    requires forall i | k < i < |entries| :: !Named(entries[i], key)
    requires MeantEntries(entries, before).Some?
    ensures NoneTwice(MeantEntries(entries, before).value)
    ensures Find(MeantEntries(entries, before).value, key) == Some(v)
    decreases k
  {
    var first := EntryMeant(entries, before);
    var all := SetMember(before, Say(entries[0].key), first);
    SetFinds(before, Say(entries[0].key), first, key);
    if k == 0 {
      OthersKept(entries[1..], all, key);
    } else {
      LastWins(entries[1..], all, k - 1, key, v);
    }
  }
}
