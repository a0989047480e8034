/**
  The JSON printer (AK/JsonObject.h, AK/JsonArraySerializer.h, AK/JsonObjectSerializer.h,
  AK/StringBuilder.cpp, AK/Format.cpp) and the JSON parser (AK/JsonParser.cpp,
  AK/GenericLexer.h, AK/StringUtils.cpp) as functions on strings, in the kernel build:
  no floating-point values.  A `char` is one byte of the text.
 */
module Json {
  import opened Common

  /** The tag JsonValue keeps beside an integer. */
  datatype Width = I32 | I64 | U32 | U64

  datatype Value =
    | Null
    | Bool(b: bool)
    | Int(width: Width, n: int)
    | Str(s: string)
    | Array(items: seq<Value>)
    | Object(members: seq<Member>)

  /** A member of an object; m_order keeps the members in a sequence. */
  datatype Member = Member(key: string, value: Value)

  const I32_MIN: int := -0x8000_0000
  const I32_MAX: int := 0x7fff_ffff
  const U32_MAX: int := 0xffff_ffff

  // ----- printing -----

  /** StringBuilder::append_escaped_for_json, one character. */
  function EscapeChar(c: char): string {
    if c == 27 as char then "\\u001B"
    else if c == 8 as char then "\\b"
    else if c == '\n' then "\\n"
    else if c == '\t' then "\\t"
    else if c == '\"' then "\\\""
    else if c == '\\' then "\\\\"
    else [c]
  }

  function Escape(s: string): string {
    if s == [] then [] else EscapeChar(s[0]) + Escape(s[1..])
  }

  function Digit(d: nat): char
    requires d < 10
  {
    ('0' as int + d) as char
  }

  function Digits(n: nat): string {
    if n < 10 then [Digit(n)] else Digits(n / 10) + [Digit(n % 10)]
  }

  function Decimal(n: int): string {
    if n < 0 then ['-'] + Digits(-n) else Digits(n)
  }

  function Print(v: Value): string
    decreases v, 1
  {
    match v
    case Null => "null"
    case Bool(b) => if b then "true" else "false"
    case Int(_, n) => Decimal(n)
    case Str(s) => ['\"'] + Escape(s) + ['\"']
    case Array(items) => ['['] + PrintItems(items) + [']']
    case Object(members) => ['{'] + PrintMembers(members) + ['}']
  }

  function PrintItems(items: seq<Value>): string
    decreases items, 0
  {
    if items == [] then []
    else if |items| == 1 then Print(items[0])
    else Print(items[0]) + [','] + PrintItems(items[1..])
  }

  function PrintMember(m: Member): string
    decreases m, 0
  {
    ['\"'] + Escape(m.key) + ['\"', ':'] + Print(m.value)
  }

  function PrintMembers(members: seq<Member>): string
    decreases members, 0
  {
    if members == [] then []
    else if |members| == 1 then PrintMember(members[0])
    else PrintMember(members[0]) + [','] + PrintMembers(members[1..])
  }

  // ----- lexing -----

  /** What a parsing function returns: a value and the rest of the input, nothing, or a failed VERIFY. */
  datatype Outcome<T> = Ok(value: T, rest: string) | Bad | Abort

  function Peek(s: string): char {
    if s == [] then 0 as char else s[0]
  }

  predicate IsSpace(c: char) {
    c == ' ' || (9 as char <= c <= 13 as char)
  }

  function SkipSpace(s: string): (r: string)
    ensures |r| <= |s|
  {
    if s != [] && IsSpace(s[0]) then SkipSpace(s[1..]) else s
  }

  function TrimEnd(s: string): string {
    if s != [] && IsSpace(s[|s| - 1]) then TrimEnd(s[..|s| - 1]) else s
  }

  function HexValue(c: char): Option<nat> {
    if '0' <= c <= '9' then Some(c as int - '0' as int)
    else if 'a' <= c <= 'f' then Some(10 + (c as int - 'a' as int))
    else if 'A' <= c <= 'F' then Some(10 + (c as int - 'A' as int))
    else None
  }

  /** convert_to_uint_from_hex<unsigned>, on trimmed text. */
  function HexDigits(s: string): Option<nat> {
    if s == [] then Some(0)
    else
      var high, low := HexDigits(s[..|s| - 1]), HexValue(s[|s| - 1]);
      if high == None || low == None || high.value > 0x0fff_ffff then None else Some(high.value * 16 + low.value)
  }

  function FromHex(s: string): Option<nat> {
    var t := TrimEnd(SkipSpace(s));
    if t == [] then None else HexDigits(t)
  }

  function Byte(n: nat): char
    requires n < 256
  {
    n as char
  }

  /** StringBuilder::append_code_point. */
  function Utf8(p: nat): string {
    if p <= 0x7f then [Byte(p)]
    else if p <= 0x7ff then [Byte(0xc0 + p / 0x40 % 0x20), Byte(0x80 + p % 0x40)]
    else if p <= 0xffff then [Byte(0xe0 + p / 0x1000 % 0x10), Byte(0x80 + p / 0x40 % 0x40), Byte(0x80 + p % 0x40)]
    else if p <= 0x10ffff then
      [Byte(0xf0 + p / 0x40000 % 8), Byte(0x80 + p / 0x1000 % 0x40), Byte(0x80 + p / 0x40 % 0x40),
        Byte(0x80 + p % 0x40)]
    else [Byte(0xef), Byte(0xbf), Byte(0xbd)]
  }

  /** The character or characters an escape stands for, and how much input it takes after the backslash. */
  function Unescape(s: string): (r: (string, nat))
    requires s != []
    ensures 1 <= r.1 <= |s|
  {
    match s[0]
    case 'n' => ("\n", 1)
    case 'r' => ("\r", 1)
    case 't' => ("\t", 1)
    case 'b' => ([8 as char], 1)
    case 'f' => ([12 as char], 1)
    case 'u' =>
      var len := Min(4, |s| - 1);
      var p := FromHex(s[1..1 + len]);
      (if p.Some? then Utf8(p.value) else "?", 1 + len)
    case c => ([c], 1)
  }

  /** The loop of consume_and_unescape_string, after the opening quote. */
  function UnescapeBody(s: string): (r: Outcome<string>)
    ensures r.Ok? ==> |r.rest| < |s|
    decreases |s|
  {
    if s == [] then Bad
    else if s[0] == '\"' then Ok([], s[1..])
    else if s[0] != '\\' then
      match UnescapeBody(s[1..])
      case Ok(t, rest) => Ok([s[0]] + t, rest)
      case other => other
    else if |s| == 1 then Abort
    else
      var (c, used) := Unescape(s[1..]);
      match UnescapeBody(s[1 + used..])
      case Ok(t, rest) => Ok(c + t, rest)
      case other => other
  }

  /** The outcome with more text in front. */
  function Prepend(t: string, r: Outcome<string>): Outcome<string> {
    if r.Ok? then Ok(t + r.value, r.rest) else r
  }

  lemma PrependNothing(r: Outcome<string>)
    ensures Prepend([], r) == r
  {
    if r.Ok? {
      assert [] + r.value == r.value;
    }
  }

  lemma PrependTwice(a: string, b: string, r: Outcome<string>)
    ensures Prepend(a, Prepend(b, r)) == Prepend(a + b, r)
  {
    if r.Ok? {
      assert a + (b + r.value) == a + b + r.value;
    }
  }

  lemma {:induction false} EscapeStep(s: string)
    requires |s| > 1 && s[0] == '\\'
    ensures UnescapeBody(s) == Prepend(Unescape(s[1..]).0, UnescapeBody(s[1 + Unescape(s[1..]).1..]))
  {
  }

  function ParseText(s: string): (r: Outcome<string>)
    ensures r.Ok? ==> |r.rest| < |s|
  {
    if Peek(s) != '\"' || s == [] then Bad else UnescapeBody(s[1..])
  }

  // ----- numbers -----

  predicate IsDigit(c: char) { '0' <= c <= '9' }

  /** The characters parse_number collects before any dot, and what it leaves. */
  function TakeNumber(s: string, isDouble: bool): (r: (string, string))
    ensures |r.1| <= |s|
    ensures s != [] && (s[0] == '-' || s[0] == '.' || IsDigit(s[0])) ==> |r.1| < |s|
  {
    if s != [] && s[0] == '.' then TakeNumber(s[1..], true)
    else if s != [] && (s[0] == '-' || IsDigit(s[0])) then
      var r := TakeNumber(s[1..], isDouble);
      if isDouble then r else ([s[0]] + r.0, r.1)
    else ([], s)
  }

  /** The accumulation loop of convert_to_int and convert_to_uint: each step must stay within the type. */
  function Accumulate(s: string, sign: int, low: int, high: int): Option<int> {
    if s == [] then Some(0)
    else
      var before, c := Accumulate(s[..|s| - 1], sign, low, high), s[|s| - 1];
      if before == None || !IsDigit(c) then None
      else if !(low <= before.value * 10 <= high) then None
      else
        var next := before.value * 10 + sign * (c as int - '0' as int);
        if low <= next <= high then Some(next) else None
  }

  predicate AllDigits(s: string) { forall i | 0 <= i < |s| :: IsDigit(s[i]) }

  /** The value of a digit in any base up to 16. */
  function DigitValue(c: char): int {
    if '0' <= c <= '9' then c as int - '0' as int
    else if 'A' <= c <= 'F' then c as int - 'A' as int + 10
    else c as int - 'a' as int + 10
  }

  /** The number that a text in positional notation stands for. */
  function ValueOf(s: string, base: nat): int {
    if s == [] then 0 else ValueOf(s[..|s| - 1], base) * base + DigitValue(s[|s| - 1])
  }

  lemma {:induction false} ValueNatural(s: string)
    requires AllDigits(s)
    ensures ValueOf(s, 10) >= 0
  {
    if s != [] {
      ValueNatural(s[..|s| - 1]);
    }
  }

  lemma OneMoreDigit(v: nat, d: nat, sign: int, low: int, high: int)
    requires low <= 0 <= high && (sign == 1 || sign == -1) && d <= 9
    ensures sign * (v * 10 + d) == sign * v * 10 + sign * d
    ensures low <= sign * (v * 10 + d) <= high ==> low <= sign * v * 10 <= high && low <= sign * v <= high
  {
    if sign == -1 {
      assert -1 * (v * 10 + d) == -1 * v * 10 - d;
    }
  }

  /** Checking every step of the accumulation is checking the whole number. */
  lemma {:induction false} AccumulateExact(s: string, sign: int, low: int, high: int)
    requires low <= 0 <= high && (sign == 1 || sign == -1)
    ensures Accumulate(s, sign, low, high) == WholeNumber(s, sign, low, high)
  {
    if s != [] {
      var t, c := s[..|s| - 1], s[|s| - 1];
      AccumulateExact(t, sign, low, high);
      assert AllDigits(s) <==> AllDigits(t) && IsDigit(c);
      if AllDigits(s) {
        ValueNatural(t);
        OneMoreDigit(ValueOf(t, 10), c as int - '0' as int, sign, low, high);
      }
    }
  }

  function WholeNumber(digits: string, sign: int, low: int, high: int): Option<int> {
    var n := sign * ValueOf(digits, 10);
    if AllDigits(digits) && low <= n <= high then Some(n) else None
  }

  function ToUint32(s: string): Option<int> {
    if s == [] then None else Accumulate(s, 1, 0, U32_MAX)
  }

  function ToInt64(s: string): Option<int> {
    if s == [] then None
    else if s[0] == '-' || s[0] == '+' then
      if |s| == 1 then None
      else Accumulate(s[1..], if s[0] == '-' then -1 else 1, I64_MIN, I64_MAX)
    else Accumulate(s, 1, I64_MIN, I64_MAX)
  }

  /** The cast (i32)n. */
  function TruncateToInt32(n: int): int {
    var m := n % 0x1_0000_0000;
    if m > I32_MAX then m - 0x1_0000_0000 else m
  }

  function ParseNumber(s: string): (r: Outcome<Value>)
    requires s != [] && (s[0] == '-' || IsDigit(s[0]))
    ensures r.Ok? ==> |r.rest| < |s|
  {
    var (number, rest) := TakeNumber(s, false);
    var u := ToUint32(number);
    if u.Some? then Ok(Int(U32, u.value), rest)
    else
      var i := ToInt64(number);
      if i == None then Bad
      else if i.value <= I32_MAX then Ok(Int(I32, TruncateToInt32(i.value)), rest)
      else Ok(Int(I64, i.value), rest)
  }

  // ----- values -----

  function Literal(s: string, word: string, v: Value): (r: Outcome<Value>)
    requires word != []
    ensures r.Ok? ==> |r.rest| < |s|
  {
    if |word| <= |s| && s[..|word|] == word then Ok(v, s[|word|..]) else Bad
  }

  /** JsonObject::set: an existing key moves to the end. */
  function SetMember(members: seq<Member>, key: string, value: Value): seq<Member> {
    RemoveMember(members, key) + [Member(key, value)]
  }

  function RemoveMember(members: seq<Member>, key: string): seq<Member> {
    if members == [] then []
    else if members[0].key == key then members[1..]
    else [members[0]] + RemoveMember(members[1..], key)
  }

  /** JsonParser::parse_helper. */
  function ParseValue(s0: string): (r: Outcome<Value>)
    ensures r.Ok? ==> |r.rest| < |s0|
    decreases |s0|, 1
  {
    var s := SkipSpace(s0);
    if s == [] then Bad
    else if s[0] == '{' then ParseMembers(s[1..], [])
    else if s[0] == '[' then ParseItems(s[1..], [])
    else if s[0] == '\"' then
      match ParseText(s)
      case Ok(t, rest) => Ok(Str(t), rest)
      case Bad => Bad
      case Abort => Abort
    else if s[0] == '-' || IsDigit(s[0]) then ParseNumber(s)
    else if s[0] == 'f' then Literal(s, "false", Bool(false))
    else if s[0] == 't' then Literal(s, "true", Bool(true))
    else if s[0] == 'n' then Literal(s, "null", Null)
    else Bad
  }

  /** The loop of parse_array, after the opening bracket. */
  function ParseItems(s0: string, items: seq<Value>): (r: Outcome<Value>)
    ensures r.Ok? ==> |r.rest| < |s0|
    decreases |s0|, 2
  {
    var s := SkipSpace(s0);
    if Peek(s) == ']' && s != [] then Ok(Array(items), s[1..])
    else
      match ParseValue(s)
      case Bad => Bad
      case Abort => Abort
      case Ok(v, rest) =>
        var t := SkipSpace(rest);
        if Peek(t) == ']' && t != [] then Ok(Array(items + [v]), t[1..])
        else if Peek(t) != ',' || t == [] then Bad
        else
          var u := SkipSpace(t[1..]);
          if Peek(u) == ']' then Bad else ParseItems(u, items + [v])
  }

  /** The loop of parse_object, after the opening brace. */
  function ParseMembers(s0: string, members: seq<Member>): (r: Outcome<Value>)
    ensures r.Ok? ==> |r.rest| < |s0|
    decreases |s0|, 2
  {
    var s := SkipSpace(s0);
    if Peek(s) == '}' && s != [] then Ok(Object(members), s[1..])
    else
      match ParseMember(s)
      case Bad => Bad
      case Abort => Abort
      case Ok(m, rest) =>
        var all := SetMember(members, m.key, m.value);
        var t := SkipSpace(rest);
        if Peek(t) == '}' && t != [] then Ok(Object(all), t[1..])
        else if Peek(t) != ',' || t == [] then Bad
        else
          var u := SkipSpace(t[1..]);
          if Peek(u) == '}' then Bad else ParseMembers(u, all)
  }

  /** The name, colon and value of one member. */
  function ParseMember(s: string): (r: Outcome<Member>)
    ensures r.Ok? ==> |r.rest| < |s|
    decreases |s|, 1
  {
    match ParseText(s)
    case Bad => Bad
    case Abort => Abort
    case Ok(name, afterName) =>
      var colon := SkipSpace(afterName);
      if Peek(colon) != ':' || colon == [] then Bad
      else
        match ParseValue(SkipSpace(colon[1..]))
        case Bad => Bad
        case Abort => Abort
        case Ok(v, rest) => Ok(Member(name, v), rest)
  }

  /** JsonParser::parse. */
  function Parse(s: string): Outcome<Value> {
    match ParseValue(s)
    case Ok(v, rest) => if SkipSpace(rest) == [] then Ok(v, []) else Bad
    case other => other
  }
}
