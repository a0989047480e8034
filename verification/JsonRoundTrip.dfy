/** Parsing what was printed gives the value back. */
module JsonRoundTrip {
  import opened Common
  import opened Json
  import opened JsonText

  /** Values the printer is given: 64-bit integers, and objects whose keys are distinct. */
  predicate WellFormed(v: Value)
    decreases v, 1
  {
    match v
    case Int(_, n) => I64_MIN <= n
    case Array(items) => forall i | 0 <= i < |items| :: WellFormed(items[i])
    case Object(members) =>
      && (forall i | 0 <= i < |members| :: WellFormed(members[i].value))
      && (forall i, j | 0 <= i < j < |members| :: members[i].key != members[j].key)
    case _ => true
  }

  /** The integers the parser reads back as themselves. */
  predicate Readable(n: int) { I32_MIN <= n <= I64_MAX }

  predicate AllReadable(v: Value)
    decreases v, 1
  {
    match v
    case Int(_, n) => Readable(n)
    case Array(items) => forall i | 0 <= i < |items| :: AllReadable(items[i])
    case Object(members) => forall i | 0 <= i < |members| :: AllReadable(members[i].value)
    case _ => true
  }

  /** What the parser makes of a printed value: nothing if some integer is above 2^63 - 1, and
      integers below -2^31 come back truncated. */
  function Reread(v: Value): Option<Value>
    decreases v, 1
  {
    match v
    case Int(_, n) => ReadInt(n)
    case Array(items) =>
      var r := RereadItems(items);
      if r == None then None else Some(Array(r.value))
    case Object(members) =>
      var r := RereadMembers(members);
      if r == None then None else Some(Object(r.value))
    case other => Some(other)
  }

  function RereadItems(items: seq<Value>): Option<seq<Value>>
    decreases items, 0
  {
    if items == [] then Some([])
    else
      var first, rest := Reread(items[0]), RereadItems(items[1..]);
      if first == None || rest == None then None else Some([first.value] + rest.value)
  }

  function RereadMembers(members: seq<Member>): Option<seq<Member>>
    decreases members, 0
  {
    if members == [] then Some([])
    else
      var first, rest := Reread(members[0].value), RereadMembers(members[1..]);
      if first == None || rest == None then None else Some([Member(members[0].key, first.value)] + rest.value)
  }

  /** The same value with the parser's integer widths. */
  function Retag(v: Value): Value
    decreases v, 1
  {
    match v
    case Int(_, n) => Int(WidthFor(n), n)
    case Array(items) => Array(RetagItems(items))
    case Object(members) => Object(RetagMembers(members))
    case other => other
  }

  function RetagItems(items: seq<Value>): seq<Value>
    decreases items, 0
  {
    if items == [] then [] else [Retag(items[0])] + RetagItems(items[1..])
  }

  function RetagMembers(members: seq<Member>): seq<Member>
    decreases members, 0
  {
    if members == [] then [] else [Member(members[0].key, Retag(members[0].value))] + RetagMembers(members[1..])
  }

  /** Nothing is lost exactly when every integer is readable. */
  lemma {:induction false} RereadExactly(v: Value)
    ensures Reread(v) == Some(Retag(v)) <==> AllReadable(v)
    decreases v, 1
  {
    match v {
      case Array(items) => RereadItemsExactly(items);
      case Object(members) => RereadMembersExactly(members);
      case _ =>
    }
  }

  lemma {:induction false} RereadItemsExactly(items: seq<Value>)
    ensures RereadItems(items) == Some(RetagItems(items)) <==> forall i | 0 <= i < |items| :: AllReadable(items[i])
    decreases items, 0
  {
    if items != [] {
      RereadExactly(items[0]);
      RereadItemsExactly(items[1..]);
      if Reread(items[0]).Some? && RereadItems(items[1..]).Some? {
        HeadAndTail(Reread(items[0]).value, RereadItems(items[1..]).value, Retag(items[0]), RetagItems(items[1..]));
      }
      assert forall i | 1 <= i < |items| :: items[i] == items[1..][i - 1];
    }
  }

  lemma {:induction false} RereadMembersExactly(members: seq<Member>)
    ensures RereadMembers(members) == Some(RetagMembers(members)) <==>
            forall i | 0 <= i < |members| :: AllReadable(members[i].value)
    decreases members, 0
  {
    if members != [] {
      var m := members[0];
      RereadExactly(m.value);
      RereadMembersExactly(members[1..]);
      if Reread(m.value).Some? && RereadMembers(members[1..]).Some? {
        HeadAndTail(Member(m.key, Reread(m.value).value), RereadMembers(members[1..]).value,
                    Member(m.key, Retag(m.value)), RetagMembers(members[1..]));
      }
      assert forall i | 1 <= i < |members| :: members[i] == members[1..][i - 1];
    }
  }

  lemma HeadAndTail<T>(y: T, ys: seq<T>, x: T, xs: seq<T>)
    ensures [y] + ys == [x] + xs <==> y == x && ys == xs
  {
    var a, b := [y] + ys, [x] + xs;
    assert a[0] == y && b[0] == x && a[1..] == ys && b[1..] == xs;
  }

  lemma Regroup<T>(a: seq<T>, b: seq<T>, c: seq<T>)
    ensures a + b + c == a + (b + c)
  {
  }

  // ----- strings -----

  /** How the printer spells a character. */
  function PieceOf(c: char): (p: Piece)
    ensures Legal(p) && Spelled(p) == EscapeChar(c)
  {
    if c == 27 as char then Code("001B")
    else if c == 8 as char then Short('b')
    else if c == '\n' then Short('n')
    else if c == '\t' then Short('t')
    else if c == '\"' || c == '\\' then Short(c)
    else Raw(c)
  }

  function PiecesOf(s: string): (ps: seq<Piece>)
    ensures AllLegal(ps) && Spell(ps) == Escape(s)
  {
    if s == [] then [] else [PieceOf(s[0])] + PiecesOf(s[1..])
  }

  lemma PieceSays(c: char)
    ensures Said(PieceOf(c)) == [c]
  {
    if c == 27 as char {
      assert "001B"[..3] == "001" && "001"[..2] == "00" && "00"[..1] == "0" && "0"[..0] == "";
      assert ValueOf("0", 16) == 0;
      assert ValueOf("00", 16) == 0;
      assert ValueOf("001", 16) == 1;
      assert ValueOf("001B", 16) == 27;
    }
  }

  lemma {:induction false} PiecesSay(s: string)
    ensures Say(PiecesOf(s)) == s
  {
    if s != [] {
      PieceSays(s[0]);
      PiecesSay(s[1..]);
      assert PiecesOf(s)[1..] == PiecesOf(s[1..]) && [s[0]] + s[1..] == s;
    }
  }

  lemma EscapedTextReads(s: string, rest: string)
    ensures UnescapeBody(Escape(s) + ['\"'] + rest) == Ok(s, rest)
  {
    SpellingReads(PiecesOf(s), rest);
    PiecesSay(s);
  }

  /** A character that section 7 of RFC 8259 forbids inside a string. */
  predicate Control(c: char) { c < 32 as char }

  predicate HasControl(s: string) { exists i | 0 <= i < |s| :: Control(s[i]) }

  /** The control characters that the printer leaves as they are. */
  predicate LeftRaw(c: char) {
    Control(c) && c != 8 as char && c != '\t' && c != '\n' && c != 27 as char
  }

  predicate HasLeftRaw(s: string) { exists i | 0 <= i < |s| :: LeftRaw(s[i]) }

  /** A printed text has control characters exactly when the text has one of those. */
  lemma {:induction false} EscapedControls(s: string)
    ensures HasControl(Escape(s)) <==> HasLeftRaw(s)
  {
    if s != [] {
      var head, tail := EscapeChar(s[0]), Escape(s[1..]);
      EscapedControls(s[1..]);
      assert HasControl(head) <==> LeftRaw(s[0]) by {
        assert LeftRaw(s[0]) ==> Control(head[0]);
      }
      JoinedControls(head, tail);
      assert HasLeftRaw(s) <==> LeftRaw(s[0]) || HasLeftRaw(s[1..]) by {
        if HasLeftRaw(s) {
          var i :| 0 <= i < |s| && LeftRaw(s[i]);
          assert i == 0 || LeftRaw(s[1..][i - 1]);
        }
        if HasLeftRaw(s[1..]) {
          var i :| 0 <= i < |s[1..]| && LeftRaw(s[1..][i]);
          assert LeftRaw(s[i + 1]);
        }
      }
    }
  }

  /** A carriage return is printed as it is. */
  lemma RawReturn()
    ensures Escape("\r") == "\r" && HasControl(Escape("\r"))
  {
    assert Escape("\r") == EscapeChar('\r') + Escape("\r"[1..]);
    assert Control("\r"[0]);
  }

  lemma JoinedControls(a: string, b: string)
    ensures HasControl(a + b) <==> HasControl(a) || HasControl(b)
  {
    if HasControl(a) {
      var i :| 0 <= i < |a| && Control(a[i]);
      assert Control((a + b)[i]);
    }
    if HasControl(b) {
      var i :| 0 <= i < |b| && Control(b[i]);
      assert Control((a + b)[|a| + i]);
    }
  }

  // ----- values -----

  /** What the printer writes, as a text without blanks. */
  function DocOf(v: Value): Doc
    decreases v, 1
  {
    match v
    case Null => NullDoc
    case Bool(b) => BoolDoc(b)
    case Int(_, n) => IntDoc(n)
    case Str(s) => TextDoc(PiecesOf(s))
    case Array(items) => ArrayDoc([], ItemsOf(items))
    case Object(members) => ObjectDoc([], EntriesOf(members))
  }

  function ItemsOf(items: seq<Value>): (docs: seq<Item>)
    ensures |docs| == |items|
    decreases items, 0
  {
    if items == [] then [] else [Item([], DocOf(items[0]), [])] + ItemsOf(items[1..])
  }

  function EntriesOf(members: seq<Member>): (entries: seq<Entry>)
    ensures |entries| == |members|
    decreases members, 0
  {
    if members == [] then []
    else [Entry([], PiecesOf(members[0].key), [], Item([], DocOf(members[0].value), []))] + EntriesOf(members[1..])
  }

  lemma {:induction false} DocPrints(v: Value)
    ensures Text(DocOf(v)) == Print(v)
    decreases v, 1
  {
    match v
    case Array(items) => ItemsPrint(items);
    case Object(members) => EntriesPrint(members);
    case _ =>
  }

  lemma {:induction false} ItemsPrint(items: seq<Value>)
    ensures ItemsText(ItemsOf(items)) == PrintItems(items)
    decreases items, 0
  {
    if items != [] {
      DocPrints(items[0]);
      ItemsPrint(items[1..]);
      assert ItemsOf(items)[1..] == ItemsOf(items[1..]);
      assert ItemText(ItemsOf(items)[0]) == Print(items[0]);
    }
  }

  lemma {:induction false} EntriesPrint(members: seq<Member>)
    ensures EntriesText(EntriesOf(members)) == PrintMembers(members)
    decreases members, 0
  {
    if members != [] {
      DocPrints(members[0].value);
      EntriesPrint(members[1..]);
      assert EntriesOf(members)[1..] == EntriesOf(members[1..]);
      EntryPrints(members[0]);
    }
  }

  lemma EntryPrints(m: Member)
    requires Text(DocOf(m.value)) == Print(m.value)
    ensures EntryText(Entry([], PiecesOf(m.key), [], Item([], DocOf(m.value), []))) == PrintMember(m)
  {
    var k, v := Escape(m.key), Print(m.value);
    assert [] + ['\"'] + k + ['\"'] + [] + [':'] + ([] + v + []) == ['\"'] + k + ['\"', ':'] + v;
  }

  lemma {:induction false} DocProper(v: Value)
    requires WellFormed(v)
    ensures Proper(DocOf(v))
    decreases v, 1
  {
    match v
    case Array(items) => ItemsProper(items);
    case Object(members) => EntriesProper(members);
    case _ =>
  }

  lemma {:induction false} ItemsProper(items: seq<Value>)
    requires forall i | 0 <= i < |items| :: WellFormed(items[i])
    ensures forall i | 0 <= i < |items| :: ProperItem(ItemsOf(items)[i])
    decreases items, 0
  {
    if items != [] {
      DocProper(items[0]);
      ItemsProper(items[1..]);
      assert ItemsOf(items)[1..] == ItemsOf(items[1..]);
    }
  }

  lemma {:induction false} EntriesProper(members: seq<Member>)
    requires forall i | 0 <= i < |members| :: WellFormed(members[i].value)
    ensures forall i | 0 <= i < |members| :: ProperEntry(EntriesOf(members)[i])
    decreases members, 0
  {
    if members != [] {
      DocProper(members[0].value);
      EntriesProper(members[1..]);
      assert EntriesOf(members)[1..] == EntriesOf(members[1..]);
      assert ProperItem(EntriesOf(members)[0].item);
    }
  }

  lemma SetNew(members: seq<Member>, key: string, value: Value)
    requires forall i | 0 <= i < |members| :: members[i].key != key
    ensures SetMember(members, key, value) == members + [Member(key, value)]
  {
    RemoveAbsent(members, key);
  }

  lemma {:induction false} RemoveAbsent(members: seq<Member>, key: string)
    requires forall i | 0 <= i < |members| :: members[i].key != key
    ensures RemoveMember(members, key) == members
  {
    if members != [] {
      RemoveAbsent(members[1..], key);
      assert [members[0]] + members[1..] == members;
    }
  }

  ghost predicate Fresh(members: seq<Member>, before: seq<Member>) {
    && (forall i, j | 0 <= i < j < |members| :: members[i].key != members[j].key)
    && (forall i, j | 0 <= i < |before| && 0 <= j < |members| :: before[i].key != members[j].key)
  }

  lemma FreshRest(members: seq<Member>, before: seq<Member>, m: Member)
    requires members != [] && Fresh(members, before) && m.key == members[0].key
    ensures Fresh(members[1..], before + [m])
  {
  }

  lemma {:induction false} DocMeans(v: Value)
    requires WellFormed(v) && Proper(DocOf(v))
    ensures Meant(DocOf(v)) == Reread(v)
    decreases v, 1
  {
    match v
    case Str(s) => PiecesSay(s);
    case Array(items) =>
      ItemsMean(items, []);
      assert RereadItems(items).Some? ==> [] + RereadItems(items).value == RereadItems(items).value;
    case Object(members) =>
      EntriesMean(members, []);
      assert RereadMembers(members).Some? ==> [] + RereadMembers(members).value == RereadMembers(members).value;
    case _ =>
  }

  lemma {:induction false} ItemsMean(items: seq<Value>, before: seq<Value>)
    requires forall i | 0 <= i < |items| :: WellFormed(items[i])
    requires forall i | 0 <= i < |items| :: ProperItem(ItemsOf(items)[i])
    ensures
      var r := RereadItems(items);
      MeantItems(ItemsOf(items), before) == if r == None then None else Some(before + r.value)
    decreases items, 0
  {
    if items == [] {
      assert before + [] == before;
    } else {
      assert ProperItem(ItemsOf(items)[0]) && ItemsOf(items)[1..] == ItemsOf(items[1..]);
      DocMeans(items[0]);
      if Reread(items[0]).Some? {
        ItemsProper(items[1..]);
        ItemsMean(items[1..], before + [Reread(items[0]).value]);
        if RereadItems(items[1..]).Some? {
          Regroup(before, [Reread(items[0]).value], RereadItems(items[1..]).value);
        }
      }
    }
  }

  lemma {:induction false} EntriesMean(members: seq<Member>, before: seq<Member>)
    requires Fresh(members, before) && forall i | 0 <= i < |members| :: WellFormed(members[i].value)
    requires forall i | 0 <= i < |members| :: ProperEntry(EntriesOf(members)[i])
    ensures
      var r := RereadMembers(members);
      MeantEntries(EntriesOf(members), before) == if r == None then None else Some(before + r.value)
    decreases members, 0
  {
    if members == [] {
      assert before + [] == before;
    } else {
      var m := members[0];
      assert ProperEntry(EntriesOf(members)[0]) && ProperItem(EntriesOf(members)[0].item);
      assert EntriesOf(members)[1..] == EntriesOf(members[1..]);
      DocMeans(m.value);
      if Reread(m.value).Some? {
        var read := Member(m.key, Reread(m.value).value);
        PiecesSay(m.key);
        SetNew(before, m.key, read.value);
        FreshRest(members, before, read);
        EntriesProper(members[1..]);
        EntriesMean(members[1..], before + [read]);
        if RereadMembers(members[1..]).Some? {
          Regroup(before, [read], RereadMembers(members[1..]).value);
        }
      }
    }
  }

  /** What the parser makes of a printed value in front of anything that ends it. */
  lemma PrintedReadsBefore(v: Value, rest: string)
    requires WellFormed(v) && Delimited(rest)
    ensures ParseValue(Print(v) + rest) == Outcomed(Reread(v), rest)
    ensures Parse(Print(v) + rest) == if IsBlank(rest) then Outcomed(Reread(v), []) else Bad
  {
    DocProper(v);
    DocPrints(v);
    DocMeans(v);
    DocReads(DocOf(v), rest);
    WholeTextReads([], DocOf(v), rest);
    assert [] + (Print(v) + rest) == Print(v) + rest;
  }

  /** What the parser makes of a printed value, for every value. */
  lemma PrintedReads(v: Value)
    requires WellFormed(v)
    ensures Parse(Print(v)) == Outcomed(Reread(v), [])
  {
    PrintedReadsBefore(v, []);
    assert Print(v) + [] == Print(v);
  }

  /** Parsing what was printed gives the value back, up to integer widths, exactly when all integers are readable. */
  lemma RoundTrip(v: Value)
    requires WellFormed(v)
    ensures Parse(Print(v)) == Ok(Retag(v), []) <==> AllReadable(v)
  {
    PrintedReads(v);
    RereadExactly(v);
  }

  /** A number above 2^63 - 1 is refused, and one below -2^31 comes back as another. */
  lemma LostIntegers()
    ensures Parse(Print(Int(U64, I64_MAX + 1))) == Bad
    ensures Parse(Print(Int(I64, I32_MIN - 1))) == Ok(Int(I32, I32_MAX), [])
  {
    PrintedReads(Int(U64, I64_MAX + 1));
    PrintedReads(Int(I64, I32_MIN - 1));
  }
}
