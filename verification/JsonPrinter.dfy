/**
  The JSON printer in the form the source has it: text appended to a builder, serializers
  that keep track of commas, and digits written backwards into a buffer.
 */
module JsonPrinter {
  import opened Common
  import opened Json
  import opened JsonMachine
  import opened JsonRoundTrip

  const U64_MAX: int := 0xffff_ffff_ffff_ffff

  // ----- numbers -----

  function DigitOf(d: nat, upper: bool): char
    requires d < 16
  {
    if d < 10 then ('0' as int + d) as char else ((if upper then 'A' else 'a') as int + d - 10) as char
  }

  /** A number in positional notation, most significant digit first. */
  function Positional(n: nat, base: nat, upper: bool): (s: string)
    requires 2 <= base <= 16
    ensures s != []
  {
    if n < base then [DigitOf(n, upper)] else Positional(n / base, base, upper) + [DigitOf(n % base, upper)]
  }

  lemma {:induction false} PositionalTen(n: nat)
    ensures Positional(n, 10, false) == Digits(n)
  {
    if n >= 10 {
      PositionalTen(n / 10);
    }
  }

  lemma DivideParts(n: nat, base: nat)
    requires base >= 2
    ensures 0 <= n / base && n / base * base + n % base == n
    ensures n > 0 ==> n / base < n
  {
  }

  lemma ValueOfMore(s: string, c: char, base: nat)
    ensures ValueOf(s + [c], base) == ValueOf(s, base) * base + DigitValue(c)
  {
    assert (s + [c])[..|s|] == s;
  }

  lemma DigitOfValue(d: nat, upper: bool)
    requires d < 16
    ensures DigitValue(DigitOf(d, upper)) == d
  {
  }

  /** Printing a number loses nothing. */
  lemma {:induction false} PositionalValue(n: nat, base: nat, upper: bool)
    requires 2 <= base <= 16
    ensures ValueOf(Positional(n, base, upper), base) == n
  {
    if n < base {
      DigitOfValue(n, upper);
      ValueOfMore([], DigitOf(n, upper), base);
      assert [] + [DigitOf(n, upper)] == Positional(n, base, upper);
    } else {
      DivideParts(n, base);
      PositionalValue(n / base, base, upper);
      DigitOfValue(n % base, upper);
      ValueOfMore(Positional(n / base, base, upper), DigitOf(n % base, upper), base);
    }
  }

  function Reversed(s: string): (r: string)
    ensures |r| == |s|
  {
    seq(|s|, i requires 0 <= i < |s| => s[|s| - 1 - i])
  }

  lemma TwiceAtMost(q: nat, base: nat)
    requires base >= 2
    ensures 2 * q <= q * base
  {
  }

  lemma QuotientHalves(value: nat, base: nat, bits: nat)
    requires 2 <= base && 0 < value < Pow2(bits)
    ensures bits > 0 && value / base < Pow2(bits - 1)
  {
    DivideParts(value, base);
    TwiceAtMost(value / base, base);
  }

  lemma PowOf64()
    ensures Pow2(64) == U64_MAX + 1
  {
    assert Pow2(8) == 256;
    assert Pow2(16) == 65536;
    assert Pow2(24) == 0x100_0000;
    assert Pow2(32) == 0x1_0000_0000;
    assert Pow2(40) == 0x100_0000_0000;
    assert Pow2(48) == 0x1_0000_0000_0000;
    assert Pow2(56) == 0x100_0000_0000_0000;
  }

  /** The digits still to be written; none once the value is used up. */
  function Pending(value: nat, base: nat, upper: bool): string
    requires 2 <= base <= 16
  {
    if value == 0 then [] else Positional(value, base, upper)
  }

  /** One digit more, written behind the lower digits already in the buffer. */
  lemma DigitStep(value: nat, base: nat, upper: bool, below: string, after: string)
    requires 2 <= base <= 16 && value > 0 && after == below + [DigitOf(value % base, upper)]
    ensures
      Pending(value, base, upper) + Reversed(below) == Pending(value / base, base, upper) + Reversed(after)
  {
    assert Reversed(after) == [DigitOf(value % base, upper)] + Reversed(below);
    if value < base {
      assert value / base == 0 && value % base == value;
    } else {
      assert value / base > 0;
    }
  }

  method FillDigits(value0: nat, buffer: array<char>, base: nat, upper: bool) returns (used: nat)
    requires 2 <= base <= 16 && 0 < value0 <= U64_MAX && buffer.Length == 128
    modifies buffer
    ensures used <= 64 && Reversed(buffer[..used]) == Positional(value0, base, upper)
  {
    used := 0;
    var value: nat := value0;
    PowOf64();
    while value > 0
      invariant used <= 64 && value < Pow2(64 - used)
      invariant Positional(value0, base, upper) == Pending(value, base, upper) + Reversed(buffer[..used])
    {
      QuotientHalves(value, base, 64 - used);
      DivideParts(value, base);
      ghost var below := buffer[..used];
      buffer[used] := DigitOf(value % base, upper);
      used := used + 1;
      assert buffer[..used] == below + [DigitOf(value % base, upper)];
      DigitStep(value, base, upper, below, buffer[..used]);
      value := value / base;
    }
  }

  /** convert_unsigned_to_string: every base from 2 to 16, every 64-bit value. */
  method ConvertUnsignedToString(value: nat, buffer: array<char>, base: nat, upper: bool) returns (used: nat)
    requires 2 <= base <= 16 && value <= U64_MAX && buffer.Length == 128
    modifies buffer
    ensures used <= 64 && buffer[..used] == Positional(value, base, upper)
  {
    if value == 0 {
      buffer[0] := '0';
      return 1;
    }
    used := FillDigits(value, buffer, base, upper);
    ghost var filled := buffer[..];
    for i := 0 to used / 2
      invariant forall k | 0 <= k < i :: buffer[k] == filled[used - 1 - k] && buffer[used - 1 - k] == filled[k]
      invariant forall k | i <= k < used - i :: buffer[k] == filled[k]
    {
      buffer[i], buffer[used - i - 1] := buffer[used - i - 1], buffer[i];
    }
    assert buffer[..used] == Reversed(filled[..used]);
  }

  /** What is left of a number in 64 bits, signed and unsigned. */
  function AsI64(n: int): int {
    var low := n % 0x1_0000_0000_0000_0000;
    if low > I64_MAX then low - 0x1_0000_0000_0000_0000 else low
  }

  function AsU64(n: int): nat { n % 0x1_0000_0000_0000_0000 }

  /** Negating in 64 bits and reading the result as unsigned gives the magnitude, of the least value too. */
  lemma Magnitude(n: int)
    requires I64_MIN <= n <= I64_MAX
    ensures AsU64(if n < 0 then AsI64(-n) else n) == if n < 0 then -n else n
    ensures AsI64(-I64_MIN) == I64_MIN
  {
  }

  // ----- the builder -----

  lemma EscapeSuffix(s: string, i: nat)
    requires i < |s|
    ensures Escape(s[i..]) == EscapeChar(s[i]) + Escape(s[i + 1..])
  {
    assert s[i..][1..] == s[i + 1..];
  }

  lemma Regroup3(a: string, b: string, c: string)
    ensures a + b + c == a + (b + c)
  {
  }

  class StringBuilder {
    var text: string

    constructor ()
      ensures text == []
    {
      text := [];
    }

    method Append(s: string)
      modifies this
      ensures text == old(text) + s
    {
      text := text + s;
    }

    method AppendEscapedChar(c: char)
      modifies this
      ensures text == old(text) + EscapeChar(c)
    {
      match c
      case '\U{1b}' => Append("\\u001B");
      case '\U{8}' => Append("\\b");
      case '\n' => Append("\\n");
      case '\t' => Append("\\t");
      case '\"' => Append("\\\"");
      case '\\' => Append("\\\\");
      case _ => Append([c]);
    }

    /** StringBuilder::append_escaped_for_json. */
    method AppendEscapedForJson(s: string)
      modifies this
      ensures text == old(text) + Escape(s)
    {
      for i := 0 to |s|
        invariant text + Escape(s[i..]) == old(text) + Escape(s)
      {
        ghost var before := text;
        AppendEscapedChar(s[i]);
        EscapeSuffix(s, i);
        Regroup3(before, EscapeChar(s[i]), Escape(s[i + 1..]));
      }
    }

    /** FormatBuilder::put_u64 as "{}" uses it: no prefix, no width, sign only if negative. */
    method PutU64(value: nat, isNegative: bool)
      requires value <= U64_MAX
      modifies this
      ensures text == old(text) + (if isNegative then ['-'] else []) + Digits(value)
    {
      var buffer := new char[128];
      var used := ConvertUnsignedToString(value, buffer, 10, false);
      PositionalTen(value);
      if isNegative {
        Append(['-']);
      }
      ghost var start := text;
      for i := 0 to used
        invariant text == start + buffer[..i] && buffer[..used] == Digits(value)
      {
        assert buffer[..i + 1] == buffer[..i] + [buffer[i]];
        Append([buffer[i]]);
      }
    }

    /** FormatBuilder::put_i64: the least value stays as it is when negated, and the cast gives its magnitude. */
    method PutI64(value0: int)
      requires I64_MIN <= value0 <= I64_MAX
      modifies this
      ensures text == old(text) + Decimal(value0)
    {
      var isNegative := value0 < 0;
      var value := if isNegative then AsI64(-value0) else value0;
      Magnitude(value0);
      PutU64(AsU64(value), isNegative);
    }
  }

  // ----- serializers -----

  /** Every integer is in the range of its tag. */
  predicate Tagged(v: Value)
    decreases v, 1
  {
    match v
    case Int(width, n) => InWidth(width, n)
    case Array(items) => forall i | 0 <= i < |items| :: Tagged(items[i])
    case Object(members) => forall i | 0 <= i < |members| :: Tagged(members[i].value)
    case _ => true
  }

  predicate InWidth(width: Width, n: int) {
    match width
    case I32 => I32_MIN <= n <= I32_MAX
    case I64 => I64_MIN <= n <= I64_MAX
    case U32 => 0 <= n <= U32_MAX
    case U64 => 0 <= n <= U64_MAX
  }

  /** What begin_item puts before an item. */
  function Comma(first: bool): string {
    if first then [] else [',']
  }

  lemma Regroup4(a: string, b: string, c: string, d: string)
    ensures a + b + c + d == a + (b + c + d)
  {
  }

  lemma Regroup5(a: string, b: string, c: string, d: string, e: string)
    ensures a + b + (c + d + e) == a + b + c + d + e
    ensures c == [] && d == [] ==> a + b + (c + d + e) == a + b + e
  {
  }

  lemma {:induction false} ItemsGrow(items: seq<Value>, x: Value)
    ensures PrintItems(items + [x]) == PrintItems(items) + Comma(items == []) + Print(x)
  {
    if items == [] {
      assert items + [x] == [x];
    } else {
      ItemsGrow(items[1..], x);
      assert (items + [x])[1..] == items[1..] + [x];
      Regroup5(Print(items[0]), [','], PrintItems(items[1..]), Comma(items[1..] == []), Print(x));
    }
  }

  lemma {:induction false} MembersGrow(members: seq<Member>, x: Member)
    ensures PrintMembers(members + [x]) == PrintMembers(members) + Comma(members == []) + PrintMember(x)
  {
    if members == [] {
      assert members + [x] == [x];
    } else {
      MembersGrow(members[1..], x);
      assert (members + [x])[1..] == members[1..] + [x];
      Regroup5(PrintMember(members[0]), [','], PrintMembers(members[1..]), Comma(members[1..] == []), PrintMember(x));
    }
  }

  class JsonArraySerializer {
    const builder: StringBuilder
    var empty: bool
    var finished: bool

    constructor (builder: StringBuilder)
      modifies builder
      ensures this.builder == builder && empty && !finished && builder.text == old(builder.text) + "["
    {
      this.builder, empty, finished := builder, true, false;
      new;
      builder.Append("[");
    }

    method BeginItem()
      modifies this, builder
      ensures !empty && finished == old(finished)
      ensures builder.text == old(builder.text) + Comma(old(empty))
    {
      if !empty {
        builder.Append(",");
      }
      empty := false;
    }

    method Add(value: Value)
      requires Tagged(value)
      modifies this, builder
      ensures !empty && finished == old(finished)
      ensures builder.text == old(builder.text) + Comma(old(empty)) + Print(value)
      decreases value, 2
    {
      BeginItem();
      Serialize(value, builder);
    }

    /** The callback of JsonArray::serialize on item i. */
    method AddItem(items: seq<Value>, i: nat, ghost open: string)
      requires i < |items| && Tagged(items[i]) && empty == (i == 0) && builder.text == open + PrintItems(items[..i])
      modifies this, builder
      ensures !empty && finished == old(finished) && builder.text == open + PrintItems(items[..i + 1])
      decreases items[i], 3
    {
      Add(items[i]);
      ItemsGrow(items[..i], items[i]);
      Regroup4(open, PrintItems(items[..i]), Comma(i == 0), Print(items[i]));
      assert items[..i + 1] == items[..i] + [items[i]];
    }

    method Finish()
      requires !finished
      modifies this, builder
      ensures finished && empty == old(empty) && builder.text == old(builder.text) + "]"
    {
      finished := true;
      builder.Append("]");
    }
  }

  class JsonObjectSerializer {
    const builder: StringBuilder
    var empty: bool
    var finished: bool

    constructor (builder: StringBuilder)
      modifies builder
      ensures this.builder == builder && empty && !finished && builder.text == old(builder.text) + "{"
    {
      this.builder, empty, finished := builder, true, false;
      new;
      builder.Append("{");
    }

    method BeginItem(key: string)
      modifies this, builder
      ensures !empty && finished == old(finished)
      ensures builder.text == old(builder.text) + Comma(old(empty)) + (['\"'] + Escape(key) + ['\"', ':'])
    {
      if !empty {
        builder.Append(",");
      }
      empty := false;
      builder.Append("\"");
      builder.AppendEscapedForJson(key);
      builder.Append("\":");
    }

    method Add(key: string, value: Value)
      requires Tagged(value)
      modifies this, builder
      ensures !empty && finished == old(finished)
      ensures builder.text == old(builder.text) + Comma(old(empty)) + PrintMember(Member(key, value))
      decreases value, 2
    {
      BeginItem(key);
      Serialize(value, builder);
    }

    /** The callback of JsonObject::serialize on member i. */
    method AddMember(members: seq<Member>, i: nat, ghost open: string)
      requires i < |members| && Tagged(members[i].value) && empty == (i == 0)
      requires builder.text == open + PrintMembers(members[..i])
      modifies this, builder
      ensures !empty && finished == old(finished) && builder.text == open + PrintMembers(members[..i + 1])
      decreases members[i].value, 3
    {
      Add(members[i].key, members[i].value);
      MembersGrow(members[..i], members[i]);
      Regroup4(open, PrintMembers(members[..i]), Comma(i == 0), PrintMember(members[i]));
      assert members[..i + 1] == members[..i] + [members[i]];
    }

    method Finish()
      requires !finished
      modifies this, builder
      ensures finished && empty == old(empty) && builder.text == old(builder.text) + "}"
    {
      finished := true;
      builder.Append("}");
    }
  }

  method SerializeArray(v: Value, builder: StringBuilder)
    requires v.Array? && Tagged(v)
    modifies builder
    ensures builder.text == old(builder.text) + Print(v)
    decreases v, 0
  {
    ghost var before := builder.text;
    var serializer := new JsonArraySerializer(builder);
    for i := 0 to |v.items|
      invariant fresh(serializer) && serializer.builder == builder && !serializer.finished
      invariant serializer.empty == (i == 0)
      invariant builder.text == before + "[" + PrintItems(v.items[..i])
    {
      serializer.AddItem(v.items, i, before + "[");
    }
    assert v.items[..|v.items|] == v.items;
    Regroup4(before, "[", PrintItems(v.items), "]");
    serializer.Finish();
  }

  method SerializeObject(v: Value, builder: StringBuilder)
    requires v.Object? && Tagged(v)
    modifies builder
    ensures builder.text == old(builder.text) + Print(v)
    decreases v, 0
  {
    ghost var before := builder.text;
    var serializer := new JsonObjectSerializer(builder);
    for i := 0 to |v.members|
      invariant fresh(serializer) && serializer.builder == builder && !serializer.finished
      invariant serializer.empty == (i == 0)
      invariant builder.text == before + "{" + PrintMembers(v.members[..i])
    {
      serializer.AddMember(v.members, i, before + "{");
    }
    assert v.members[..|v.members|] == v.members;
    Regroup4(before, "{", PrintMembers(v.members), "}");
    serializer.Finish();
  }

  /** JsonValue::serialize. */
  method Serialize(v: Value, builder: StringBuilder)
    requires Tagged(v)
    modifies builder
    ensures builder.text == old(builder.text) + Print(v)
    decreases v, 1
  {
    match v
    case Str(s) =>
      builder.Append("\"");
      builder.AppendEscapedForJson(s);
      builder.Append("\"");
    case Array(_) => SerializeArray(v, builder);
    case Object(_) => SerializeObject(v, builder);
    case Bool(b) => builder.Append(if b then "true" else "false");
    case Int(width, n) =>
      if width == I32 || width == I64 {
        builder.PutI64(n);
      } else {
        builder.PutU64(n, false);
      }
    case Null => builder.Append("null");
  }

  /** Serializing into a builder and parsing what was built. */
  method SerializeAndParse(v: Value) returns (r: Parsed<Value>)
    requires Tagged(v) && WellFormed(v)
    ensures r == Got(Retag(v)) <==> AllReadable(v)
  {
    var builder := new StringBuilder();
    Serialize(v, builder);
    var parser := new JsonParser(builder.text);
    r := parser.ParseAll();
    assert builder.text == Print(v);
    RoundTrip(v);
  }
}
