/**
  The JSON parser and printer in the form the source has them: a cursor that advances over
  the input, and a builder that text is appended to.  Each method computes what the
  functions of module Json say.
 */
module JsonMachine {
  import opened Common
  import opened Json

  /** What a parsing method returns; the cursor is then past what it read. */
  datatype Parsed<T> = Got(value: T) | Nothing | Aborted

  ghost predicate Agrees<T>(r: Parsed<T>, spec: Outcome<T>, rest: string) {
    match spec
    case Ok(v, after) => r == Got(v) && rest == after
    case Bad => r == Nothing
    case Abort => r == Aborted
  }

  /** How one pass of a list loop ends. */
  datatype Pass = More | Close | Stop(result: Parsed<Value>)

  class JsonParser {
    const input: string
    var index: nat

    constructor (input: string)
      ensures this.input == input && index == 0
    {
      this.input, index := input, 0;
    }

    ghost function Rest(): string
      reads this
    {
      if index <= |input| then input[index..] else []
    }

    function PeekChar(): (c: char)
      reads this
      ensures c == Peek(Rest())
    {
      if index < |input| then input[index] else 0 as char
    }

    method IgnoreSpace()
      requires index <= |input|
      modifies this
      ensures old(index) <= index <= |input| && Rest() == SkipSpace(old(Rest()))
    {
      while index < |input| && IsSpace(input[index])
        invariant old(index) <= index <= |input| && SkipSpace(Rest()) == SkipSpace(old(Rest()))
      {
        assert Rest()[1..] == input[index + 1..];
        index := index + 1;
      }
    }

    method ConsumeSpecific(c: char) returns (found: bool)
      requires index <= |input| && c != 0 as char
      modifies this
      ensures found == (old(Peek(Rest())) == c) && index == old(index) + (if found then 1 else 0) <= |input|
      ensures found ==> old(Rest()) != [] && Rest() == old(Rest())[1..]
    {
      found := PeekChar() == c;
      if found {
        index := index + 1;
      }
    }

    /** The characters up to the next quote or backslash. */
    method ConsumePlain() returns (plain: string)
      requires index <= |input|
      modifies this
      ensures old(index) <= index <= |input| && plain == input[old(index)..index]
      ensures index < |input| ==> input[index] == '\"' || input[index] == '\\'
      ensures UnescapeBody(old(Rest())) == Prepend(plain, UnescapeBody(Rest()))
    {
      var peek := index;
      while peek < |input| && input[peek] != '\"' && input[peek] != '\\'
        invariant index <= peek <= |input|
        invariant forall k | index <= k < peek :: input[k] != '\"' && input[k] != '\\'
      {
        peek := peek + 1;
      }
      PlainRun(input, index, peek);
      plain := CopyTo(peek);
    }

    method CopyTo(peek: nat) returns (plain: string)
      requires index <= peek <= |input|
      modifies this
      ensures index == peek && plain == input[old(index)..peek]
    {
      plain := "";
      while peek != index
        invariant old(index) <= index <= peek && plain == input[old(index)..index]
      {
        plain := plain + [input[index]];
        index := index + 1;
      }
    }

    /** A backslash and what it stands for. */
    method ConsumeEscape() returns (c: string)
      requires index + 1 < |input| && input[index] == '\\'
      modifies this
      ensures old(index) < index <= |input|
      ensures UnescapeBody(old(Rest())) == Prepend(c, UnescapeBody(Rest()))
    {
      EscapeStep(Rest());
      ghost var after := Rest()[1..];
      index := index + 2;
      c := ConsumeEscaped(input[index - 1], after);
      assert old(Rest())[1 + Unescape(after).1..] == after[Unescape(after).1..];
    }

    /** The switch on the character after a backslash. */
    method ConsumeEscaped(escaped: char, ghost after: string) returns (c: string)
      requires index <= |input| && after == [escaped] + Rest()
      modifies this
      ensures old(index) <= index <= |input| && c == Unescape(after).0 && Rest() == after[Unescape(after).1..]
    {
      match escaped
      case 'n' => c := "\n";
      case 'r' => c := "\r";
      case 't' => c := "\t";
      case 'b' => c := [8 as char];
      case 'f' => c := [12 as char];
      case 'u' =>
        c := ConsumeCodePoint();
        assert after[1..1 + Min(4, |after| - 1)] == old(Rest())[..Min(4, |old(Rest())|)];
      case _ => c := [escaped];
    }

    /** Up to four hexadecimal digits. */
    method ConsumeCodePoint() returns (c: string)
      requires index <= |input|
      modifies this
      ensures index == old(index) + Min(4, |old(Rest())|) <= |input|
      ensures
        var p := FromHex(old(Rest())[..Min(4, |old(Rest())|)]);
        c == if p.Some? then Utf8(p.value) else "?"
    {
      var len := Min(4, |input| - index);
      assert input[index..index + len] == Rest()[..len];
      var codePoint := ConvertFromHex(input[index..index + len]);
      index := index + len;
      c := if codePoint.Some? then Utf8(codePoint.value) else "?";
    }

    method ConsumeAndUnescapeString() returns (r: Parsed<string>)
      requires index <= |input|
      modifies this
      ensures old(index) <= index <= |input|
      ensures Agrees(r, ParseText(old(Rest())), Rest())
    {
      var quote := ConsumeSpecific('\"');
      if !quote {
        return Nothing;
      }
      r := UnescapeLoop();
    }

    method UnescapeLoop() returns (r: Parsed<string>)
      requires index <= |input|
      modifies this
      ensures old(index) <= index <= |input|
      ensures Agrees(r, UnescapeBody(old(Rest())), Rest())
    {
      ghost var spec := UnescapeBody(Rest());
      PrependNothing(spec);
      var final := [];
      while true
        invariant old(index) <= index <= |input|
        invariant spec == Prepend(final, UnescapeBody(Rest()))
        decreases |input| - index
      {
        var plain := ConsumePlain();
        PrependTwice(final, plain, UnescapeBody(Rest()));
        final := final + plain;
        BodyEnds(final, Rest());
        if index == |input| {
          return Nothing;
        }
        if input[index] == '\"' {
          assert Rest()[1..] == input[index + 1..];
          index := index + 1;
          return Got(final);
        }
        if index + 1 == |input| {
          return Aborted;
        }
        var c := ConsumeEscape();
        PrependTwice(final, c, UnescapeBody(Rest()));
        final := final + c;
      }
    }

    /** The collecting loop of parse_number. */
    method CollectNumber() returns (number: string)
      requires index <= |input|
      modifies this
      ensures old(index) <= index <= |input|
      ensures (number, Rest()) == TakeNumber(old(Rest()), false)
    {
      number := [];
      var isDouble := false;
      ghost var spec := TakeNumber(Rest(), false);
      TakenNone(Rest());
      while index < |input| && (input[index] == '.' || input[index] == '-' || IsDigit(input[index]))
        invariant old(index) <= index <= |input|
        invariant spec == Taken(number, Rest(), isDouble)
      {
        TakeOneMore(Rest(), isDouble, number);
        assert Rest()[1..] == input[index + 1..];
        if input[index] == '.' {
          isDouble := true;
        } else if !isDouble {
          number := number + [input[index]];
        }
        index := index + 1;
      }
      TakenAll(number, Rest(), isDouble);
    }

    method ParseNumberHere() returns (r: Parsed<Value>)
      requires index < |input| && (input[index] == '-' || IsDigit(input[index]))
      modifies this
      ensures old(index) <= index <= |input|
      ensures Agrees(r, ParseNumber(old(Rest())), Rest())
    {
      var number := CollectNumber();
      var u := ConvertToUint32(number);
      if u.Some? {
        return Got(Int(U32, u.value));
      }
      var i := ConvertToInt64(number);
      if i == None {
        return Nothing;
      }
      if i.value <= I32_MAX {
        return Got(Int(I32, TruncateToInt32(i.value)));
      }
      return Got(Int(I64, i.value));
    }

    method ConsumeWord(word: string, v: Value) returns (r: Parsed<Value>)
      requires index <= |input| && word != []
      modifies this
      ensures old(index) <= index <= |input|
      ensures Agrees(r, Literal(old(Rest()), word, v), Rest())
    {
      for i := 0 to |word|
        invariant index == old(index) && index + i <= |input| && forall k | 0 <= k < i :: Rest()[k] == word[k]
      {
        if index + i >= |input| || input[index + i] != word[i] {
          assert index + |word| <= |input| ==> Rest()[..|word|][i] == input[index + i];
          return Nothing;
        }
      }
      assert Rest()[..|word|] == word;
      assert Rest()[|word|..] == input[index + |word|..];
      index := index + |word|;
      return Got(v);
    }

    /** JsonParser::parse_helper. */
    method ParseHelper() returns (r: Parsed<Value>)
      requires index <= |input|
      modifies this
      ensures old(index) <= index <= |input|
      ensures Agrees(r, ParseValue(old(Rest())), Rest())
      decreases |input| - index, 1
    {
      IgnoreSpace();
      if index == |input| {
        return Nothing;
      }
      var c := input[index];
      if c == '{' {
        r := ParseObject();
      } else if c == '[' {
        r := ParseArray();
      } else if c == '\"' {
        var t := ConsumeAndUnescapeString();
        r := match t case Got(s) => Got(Str(s)) case Nothing => Nothing case Aborted => Aborted;
      } else if c == '-' || IsDigit(c) {
        r := ParseNumberHere();
      } else if c == 'f' {
        r := ConsumeWord("false", Bool(false));
      } else if c == 't' {
        r := ConsumeWord("true", Bool(true));
      } else if c == 'n' {
        r := ConsumeWord("null", Null);
      } else {
        r := Nothing;
      }
    }

    method ParseArray() returns (r: Parsed<Value>)
      requires index < |input| && input[index] == '['
      modifies this
      ensures old(index) <= index <= |input|
      ensures Agrees(r, ParseItems(old(Rest())[1..], []), Rest())
      decreases |input| - index, 0
    {
      index := index + 1;
      assert Rest() == old(Rest())[1..];
      ghost var spec := ParseItems(Rest(), []);
      var items := [];
      while true
        invariant old(index) < index <= |input| && spec == ParseItems(Rest(), items)
        decreases |input| - index
      {
        var pass;
        pass, items := ArrayPass(items);
        if pass.Stop? {
          return pass.result;
        }
        if pass.Close? {
          break;
        }
      }
      index := index + 1;
      return Got(Array(items));
    }

    /** One pass of the loop in parse_array. */
    method ArrayPass(before: seq<Value>) returns (pass: Pass, items: seq<Value>)
      requires index <= |input|
      modifies this
      ensures old(index) <= index <= |input|
      ensures
        var spec := ParseItems(old(Rest()), before);
        match pass
        case More => old(index) < index && spec == ParseItems(Rest(), items)
        case Close => index < |input| && spec == Ok(Array(items), Rest()[1..])
        case Stop(r) => !r.Got? && Agrees(r, spec, Rest())
      decreases |input| - index, 2
    {
      items := before;
      IgnoreSpace();
      if PeekChar() == ']' {
        return Close, items;
      }
      var element := ParseHelper();
      if !element.Got? {
        return Stop(element), items;
      }
      items := items + [element.value];
      pass := AfterEntry(']');
    }

    method ParseObject() returns (r: Parsed<Value>)
      requires index < |input| && input[index] == '{'
      modifies this
      ensures old(index) <= index <= |input|
      ensures Agrees(r, ParseMembers(old(Rest())[1..], []), Rest())
      decreases |input| - index, 0
    {
      index := index + 1;
      assert Rest() == old(Rest())[1..];
      var members := new JsonObject();
      var pass := FillObject(members);
      if pass.Stop? {
        return pass.result;
      }
      index := index + 1;
      var list := members.ForEachMember();
      return Got(Object(list));
    }

    /** The loop of parse_object. */
    method FillObject(members: JsonObject) returns (pass: Pass)
      requires index <= |input| && members.Valid()
      modifies this, members
      ensures old(index) <= index <= |input| && members.Valid()
      ensures
        var spec := old(ParseMembers(Rest(), members.Listed()));
        match pass
        case More => false
        case Close => index < |input| && spec == Ok(Object(members.Listed()), Rest()[1..])
        case Stop(r) => !r.Got? && Agrees(r, spec, Rest())
      decreases |input| - index, 3
    {
      ghost var spec := ParseMembers(Rest(), members.Listed());
      pass := ObjectPass(members);
      while pass.More?
        invariant old(index) <= index <= |input| && members.Valid()
        invariant match pass
                  case More => old(index) < index && spec == ParseMembers(Rest(), members.Listed())
                  case Close => index < |input| && spec == Ok(Object(members.Listed()), Rest()[1..])
                  case Stop(r) => !r.Got? && Agrees(r, spec, Rest())
        decreases |input| - index, pass.More?
      {
        pass := ObjectPass(members);
      }
    }

    /** One pass of the loop in parse_object. */
    method ObjectPass(members: JsonObject) returns (pass: Pass)
      requires index <= |input| && members.Valid()
      modifies this, members
      ensures old(index) <= index <= |input| && members.Valid()
      ensures
        var spec := old(ParseMembers(Rest(), members.Listed()));
        match pass
        case More => old(index) < index && spec == ParseMembers(Rest(), members.Listed())
        case Close => index < |input| && spec == Ok(Object(members.Listed()), Rest()[1..])
        case Stop(r) => !r.Got? && Agrees(r, spec, Rest())
      decreases |input| - index, 2
    {
      ghost var listed := members.Listed();
      IgnoreSpace();
      if PeekChar() == '}' {
        return Close;
      }
      SkipTwice(old(Rest()));
      IgnoreSpace();
      assert Rest() == SkipSpace(old(Rest()));
      var member := ParseOneMember();
      assert members.Valid() && members.Listed() == listed;
      if !member.Got? {
        return Stop(if member.Nothing? then Nothing else Aborted);
      }
      members.Set(member.value.key, member.value.value);
      pass := AfterEntry('}');
    }

    /** What follows an item or a member: the closing bracket, or a comma and not yet the bracket. */
    method AfterEntry(close: char) returns (pass: Pass)
      requires index <= |input| && close != ',' && close != 0 as char
      modifies this
      ensures old(index) <= index <= |input|
      ensures
        var t := SkipSpace(old(Rest()));
        match pass
        case Close => index < |input| && Rest() == t && Peek(t) == close && t != []
        case More =>
          && t != [] && Peek(t) == ',' && Rest() == SkipSpace(t[1..]) && Peek(Rest()) != close && old(index) < index
        case Stop(r) =>
          && r == Nothing
          && (|| t == [] || (Peek(t) != close && Peek(t) != ',')
              || (Peek(t) == ',' && Peek(SkipSpace(t[1..])) == close))
    {
      IgnoreSpace();
      if PeekChar() == close {
        return Close;
      }
      var comma := ConsumeSpecific(',');
      if !comma {
        return Stop(Nothing);
      }
      IgnoreSpace();
      if PeekChar() == close {
        return Stop(Nothing);
      }
      return More;
    }

    method ParseOneMember() returns (r: Parsed<Member>)
      requires index <= |input|
      modifies this
      ensures old(index) <= index <= |input|
      ensures Agrees(r, ParseMember(old(Rest())), Rest())
      decreases |input| - index, 1
    {
      var name := ConsumeAndUnescapeString();
      if !name.Got? {
        return if name.Nothing? then Nothing else Aborted;
      }
      IgnoreSpace();
      var colon := ConsumeSpecific(':');
      if !colon {
        return Nothing;
      }
      IgnoreSpace();
      var value := ParseHelper();
      if !value.Got? {
        return if value.Nothing? then Nothing else Aborted;
      }
      return Got(Member(name.value, value.value));
    }

    /** JsonParser::parse: the whole input is one value. */
    method ParseAll() returns (r: Parsed<Value>)
      requires index == 0
      modifies this
      ensures r == match Parse(input) case Ok(v, _) => Got(v) case Bad => Nothing case Abort => Aborted
    {
      assert Rest() == input;
      r := ParseHelper();
      if r.Got? {
        IgnoreSpace();
        if index < |input| {
          return Nothing;
        }
      }
    }
  }

  lemma {:induction false} SkipTwice(s: string)
    ensures SkipSpace(SkipSpace(s)) == SkipSpace(s)
  {
    if s != [] && IsSpace(s[0]) {
      SkipTwice(s[1..]);
    }
  }

  /** JsonObject: the members in a map, and the keys in the order they were last set. */
  class JsonObject {
    var order: seq<string>
    var members: map<string, Value>

    ghost predicate Valid()
      reads this
    {
      && (forall i, j | 0 <= i < j < |order| :: order[i] != order[j])
      && (forall k :: k in order <==> k in members)
    }

    ghost function Listed(): seq<Member>
      requires Valid()
      reads this
    {
      List(order, members)
    }

    constructor ()
      ensures Valid() && Listed() == []
    {
      order, members := [], map[];
    }

    method IndexOf(key: string) returns (i: nat)
      requires Valid() && key in members
      ensures i < |order| && order[i] == key
    {
      i := 0;
      while order[i] != key
        invariant i < |order| && key in order[i..]
        decreases |order| - i
      {
        assert order[i..] == [order[i]] + order[i + 1..];
        i := i + 1;
      }
    }

    method Set(key: string, value: Value)
      requires Valid()
      modifies this
      ensures Valid() && Listed() == SetMember(old(Listed()), key, value)
      ensures members == old(members)[key := value]
    {
      ghost var was := Listed();
      if key in members {
        var i := IndexOf(key);
        ListWithout(order, members, i);
        order := order[..i] + order[i + 1..];
      } else {
        ListLacks(order, members, key);
      }
      ListUpdate(order, members, key, value);
      members := members[key := value];
      order := order + [key];
    }

    method Remove(key: string) returns (removed: bool)
      requires Valid()
      modifies this
      ensures Valid() && Listed() == RemoveMember(old(Listed()), key) && removed == (key in old(members))
      ensures members == old(members) - {key}
    {
      removed := key in members;
      if removed {
        var i := IndexOf(key);
        ListWithout(order, members, i);
        order := order[..i] + order[i + 1..];
        ListFewer(order, members, key);
        members := members - {key};
      } else {
        ListLacks(order, members, key);
      }
    }

    method ForEachMember() returns (list: seq<Member>)
      requires Valid()
      ensures list == Listed()
    {
      list := [];
      for i := 0 to |order|
        invariant list == Listed()[..i]
      {
        assert order[i] in order;
        list := list + [Member(order[i], members[order[i]])];
      }
    }
  }

  ghost function List(order: seq<string>, members: map<string, Value>): seq<Member>
    requires forall k | k in order :: k in members
  {
    seq(|order|, i requires 0 <= i < |order| => Member(order[i], members[order[i]]))
  }

  lemma {:induction false} RemoveAt(members: seq<Member>, i: nat)
    requires i < |members| && forall j | 0 <= j < i :: members[j].key != members[i].key
    ensures RemoveMember(members, members[i].key) == members[..i] + members[i + 1..]
  {
    if i > 0 {
      RemoveAt(members[1..], i - 1);
      assert members[..i] + members[i + 1..] == [members[0]] + (members[1..][..i - 1] + members[1..][i..]);
    }
  }

  lemma ListWithout(order: seq<string>, members: map<string, Value>, i: nat)
    requires (forall k | k in order :: k in members) && i < |order|
    requires forall j, k | 0 <= j < k < |order| :: order[j] != order[k]
    ensures
      var rest := order[..i] + order[i + 1..];
      && (forall k :: k in rest <==> k in order && k != order[i])
      && (forall j, k | 0 <= j < k < |rest| :: rest[j] != rest[k])
      && List(rest, members) == RemoveMember(List(order, members), order[i])
  {
    var rest := order[..i] + order[i + 1..];
    forall j | 0 <= j < |order| && j != i ensures order[j] in rest {
      assert order[j] == rest[if j < i then j else j - 1];
    }
    RemoveAt(List(order, members), i);
  }

  lemma {:induction false} ListLacks(order: seq<string>, members: map<string, Value>, key: string)
    requires (forall k | k in order :: k in members) && key !in order
    ensures RemoveMember(List(order, members), key) == List(order, members)
  {
    if order != [] {
      ListLacks(order[1..], members, key);
      assert List(order, members)[1..] == List(order[1..], members);
    }
  }

  lemma ListFewer(order: seq<string>, members: map<string, Value>, key: string)
    requires (forall k | k in order :: k in members) && key !in order
    ensures List(order, members - {key}) == List(order, members)
  {
  }

  lemma ListUpdate(order: seq<string>, members: map<string, Value>, key: string, value: Value)
    requires (forall k | k in order :: k in members) && key !in order
    ensures List(order + [key], members[key := value]) == List(order, members) + [Member(key, value)]
  {
  }

  lemma {:induction false} BodyEnds(t: string, s: string)
    ensures s == [] ==> Prepend(t, UnescapeBody(s)) == Bad
    ensures s != [] && s[0] == '\"' ==> Prepend(t, UnescapeBody(s)) == Ok(t, s[1..])
    ensures |s| == 1 && s[0] == '\\' ==> Prepend(t, UnescapeBody(s)) == Abort
  {
    assert t + [] == t;
  }

  lemma {:induction false} PlainRun(s: string, i: nat, p: nat)
    requires i <= p <= |s| && forall k | i <= k < p :: s[k] != '\"' && s[k] != '\\'
    ensures UnescapeBody(s[i..]) == Prepend(s[i..p], UnescapeBody(s[p..]))
    decreases p - i
  {
    if i == p {
      PrependNothing(UnescapeBody(s[p..]));
    } else {
      PlainRun(s, i + 1, p);
      assert s[i..][1..] == s[i + 1..] && s[i..p] == [s[i]] + s[i + 1..p];
      PrependTwice([s[i]], s[i + 1..p], UnescapeBody(s[p..]));
    }
  }

  /** A number of which a part is taken already. */
  function Taken(number: string, s: string, isDouble: bool): (string, string) {
    (number + TakeNumber(s, isDouble).0, TakeNumber(s, isDouble).1)
  }

  lemma TakenNone(s: string)
    ensures Taken([], s, false) == TakeNumber(s, false)
  {
    assert [] + TakeNumber(s, false).0 == TakeNumber(s, false).0;
  }

  lemma TakenAll(number: string, s: string, isDouble: bool)
    requires s == [] || !(s[0] == '.' || s[0] == '-' || IsDigit(s[0]))
    ensures Taken(number, s, isDouble) == (number, s)
  {
    assert number + [] == number;
  }

  /** How one character changes what is left of a number. */
  lemma TakeOneMore(s: string, isDouble: bool, number: string)
    requires s != [] && (s[0] == '.' || s[0] == '-' || IsDigit(s[0]))
    ensures
      var double := isDouble || s[0] == '.';
      Taken(number, s, isDouble) == Taken(if double then number else number + [s[0]], s[1..], double)
  {
    DoubleTakesNothing(s[1..]);
    if !isDouble && s[0] != '.' {
      assert number + ([s[0]] + TakeNumber(s[1..], false).0) == number + [s[0]] + TakeNumber(s[1..], false).0;
    }
  }

  lemma {:induction false} DoubleTakesNothing(s: string)
    ensures TakeNumber(s, true).0 == [] && TakeNumber(s, true).1 == TakeNumber(s, false).1
  {
    if s != [] && (s[0] == '.' || s[0] == '-' || IsDigit(s[0])) {
      DoubleTakesNothing(s[1..]);
    }
  }

  lemma {:induction false} HexFails(s: string, k: nat)
    requires k <= |s| && HexDigits(s[..k]) == None
    ensures HexDigits(s) == None
    decreases |s|
  {
    if k < |s| {
      assert s[..|s| - 1][..k] == s[..k];
      HexFails(s[..|s| - 1], k);
    } else {
      assert s[..k] == s;
    }
  }

  /** StringUtils::convert_to_uint_from_hex<u32>. */
  method ConvertFromHex(s: string) returns (r: Option<nat>)
    ensures r == FromHex(s)
  {
    var trimmed := TrimEnd(SkipSpace(s));
    if trimmed == [] {
      return None;
    }
    var value: nat := 0;
    for i := 0 to |trimmed|
      invariant HexDigits(trimmed[..i]) == Some(value)
    {
      assert trimmed[..i + 1][..i] == trimmed[..i];
      if value > U32_MAX / 16 || HexValue(trimmed[i]) == None {
        HexFails(trimmed, i + 1);
        return None;
      }
      value := value * 16 + HexValue(trimmed[i]).value;
    }
    assert trimmed[..|trimmed|] == trimmed;
    return Some(value);
  }

  lemma {:induction false} AccumulateFails(s: string, k: nat, sign: int, low: int, high: int)
    requires k <= |s| && Accumulate(s[..k], sign, low, high) == None
    ensures Accumulate(s, sign, low, high) == None
    decreases |s|
  {
    if k < |s| {
      assert s[..|s| - 1][..k] == s[..k];
      AccumulateFails(s[..|s| - 1], k, sign, low, high);
    } else {
      assert s[..k] == s;
    }
  }

  /** The accumulation loop of convert_to_int and convert_to_uint. */
  method AccumulateDigits(s: string, sign: int, low: int, high: int) returns (r: Option<int>)
    ensures r == Accumulate(s, sign, low, high)
  {
    var value := 0;
    for i := 0 to |s|
      invariant Accumulate(s[..i], sign, low, high) == Some(value)
    {
      assert s[..i + 1][..i] == s[..i];
      if !IsDigit(s[i]) || !(low <= value * 10 <= high)
         || !(low <= value * 10 + sign * (s[i] as int - '0' as int) <= high) {
        AccumulateFails(s, i + 1, sign, low, high);
        return None;
      }
      value := value * 10 + sign * (s[i] as int - '0' as int);
    }
    assert s[..|s|] == s;
    return Some(value);
  }

  method ConvertToUint32(s: string) returns (r: Option<int>)
    ensures r == ToUint32(s) == if s == [] then None else WholeNumber(s, 1, 0, U32_MAX)
  {
    if s == [] {
      return None;
    }
    r := AccumulateDigits(s, 1, 0, U32_MAX);
    AccumulateExact(s, 1, 0, U32_MAX);
  }

  method ConvertToInt64(s: string) returns (r: Option<int>)
    ensures
      var signed := s != [] && (s[0] == '-' || s[0] == '+');
      var digits := if signed then s[1..] else s;
      var sign := if signed && s[0] == '-' then -1 else 1;
      r == ToInt64(s) == if digits == [] then None else WholeNumber(digits, sign, I64_MIN, I64_MAX)
  {
    if s == [] {
      return None;
    }
    var sign, digits := 1, s;
    if s[0] == '-' || s[0] == '+' {
      if |s| == 1 {
        return None;
      }
      digits := s[1..];
      if s[0] == '-' {
        sign := -1;
      }
    }
    r := AccumulateDigits(digits, sign, I64_MIN, I64_MAX);
    AccumulateExact(digits, sign, I64_MIN, I64_MAX);
  }
}
