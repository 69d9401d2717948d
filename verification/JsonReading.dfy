/** A reader of JSON text after RFC 8259, and that it gives back every value that is printed: what the stores set as a
    string they get again (packages/client/src/kv-stores.ts). */
module JsonReading {
  import opened Texts
  import opened Json

  /** What was read, and the text after it. */
  datatype Reading<+T> = Malformed | Got(value: T, rest: Text)

  // ---------------------------------------------------------------- strings (section 7)

  /** The value of a hexadecimal digit of either case; 16 for any other unit. */
  function HexValue(c: CodeUnit): (n: int)
    ensures 0 <= n <= 16
  {
    if 48 <= c <= 57 then c - 48
    else if 97 <= c <= 102 then c - 87
    else if 65 <= c <= 70 then c - 55
    else 16
  }

  predicate FourDigits(t: Text) {
    |t| >= 4 && forall i :: 0 <= i < 4 ==> HexValue(t[i]) < 16
  }

  /** The unit that a letter after a backslash stands for. */
  function Escaped(letter: CodeUnit): Reading<CodeUnit> {
    if letter == QUOTE || letter == BACKSLASH || letter == 47 then Got(letter, [])
    else if letter == 98 then Got(8, [])
    else if letter == 102 then Got(12, [])
    else if letter == 110 then Got(10, [])
    else if letter == 114 then Got(13, [])
    else if letter == 116 then Got(9, [])
    else Malformed
  }

  /** One unit inside a string. */
  function ReadUnit(t: Text): (r: Reading<CodeUnit>)
    ensures r.Got? ==> |r.rest| < |t|
  {
    if t == [] || t[0] < 32 || t[0] == QUOTE then Malformed
    else if t[0] != BACKSLASH then Got(t[0], t[1..])
    else if |t| == 1 then Malformed
    else if t[1] == 117 then
      if FourDigits(t[2..])
      then Got(((HexValue(t[2]) * 16 + HexValue(t[3])) * 16 + HexValue(t[4])) * 16 + HexValue(t[5]), t[6..])
      else Malformed
    else
      match Escaped(t[1])
      case Got(c, _) => Got(c, t[2..])
      case Malformed => Malformed
  }

  /** A string, after its opening quotation mark. */
  function ReadString(t: Text): (r: Reading<Text>)
    ensures r.Got? ==> |r.rest| < |t|
    decreases |t|
  {
    if t != [] && t[0] == QUOTE then Got([], t[1..])
    else
      match ReadUnit(t)
      case Malformed => Malformed
      case Got(c, rest) =>
        match ReadString(rest)
        case Malformed => Malformed
        case Got(s, after) => Got([c] + s, after)
  }

  lemma HexDigitRead(d: int)
    requires 0 <= d < 16
    ensures HexValue(HexDigit(d)) == d
  {
  }

  lemma DigitsRead(a: int, b: int, d: int, e: int, rest: Text)
    requires 0 <= a < 16 && 0 <= b < 16 && 0 <= d < 16 && 0 <= e < 16
    requires ((a * 16 + b) * 16 + d) * 16 + e < 0x1_0000
    ensures ReadUnit([BACKSLASH, 117, HexDigit(a), HexDigit(b), HexDigit(d), HexDigit(e)] + rest)
         == Got(((a * 16 + b) * 16 + d) * 16 + e, rest)
  {
    var t := [BACKSLASH, 117, HexDigit(a), HexDigit(b), HexDigit(d), HexDigit(e)] + rest;
    HexDigitRead(a);
    HexDigitRead(b);
    HexDigitRead(d);
    HexDigitRead(e);
    assert t[2..][0] == t[2] && t[2..][1] == t[3] && t[2..][2] == t[4] && t[2..][3] == t[5];
    assert t[6..] == rest;
  }

  lemma LongUnitRead(c: CodeUnit, rest: Text)
    requires |EscapeUnit(c)| == 6
    ensures ReadUnit(EscapeUnit(c) + rest) == Got(c, rest)
  {
    HexDigitsTell(c);
    DigitsRead(c / 16 / 16 / 16, c / 16 / 16 % 16, c / 16 % 16, c % 16, rest);
  }

  lemma ShortUnitRead(c: CodeUnit, rest: Text)
    requires |EscapeUnit(c)| < 6
    ensures ReadUnit(EscapeUnit(c) + rest) == Got(c, rest)
  {
    var t := EscapeUnit(c) + rest;
    assert t[|EscapeUnit(c)|..] == rest;
    assert t[0] == EscapeUnit(c)[0];
    assert |EscapeUnit(c)| == 2 ==> t[1] == EscapeUnit(c)[1];
  }

  lemma EscapeUnitRead(c: CodeUnit, rest: Text)
    ensures ReadUnit(EscapeUnit(c) + rest) == Got(c, rest)
    ensures EscapeUnit(c)[0] != QUOTE
  {
    if |EscapeUnit(c)| == 6 {
      LongUnitRead(c, rest);
    } else {
      ShortUnitRead(c, rest);
    }
  }

  lemma PlainUnitRead(c: CodeUnit, rest: Text)
    requires c >= 32 && c != QUOTE && c != BACKSLASH
    ensures ReadUnit([c] + rest) == Got(c, rest)
  {
    assert ([c] + rest)[1..] == rest;
  }

  lemma UnitThenString(c: CodeUnit, t: Text, s: Text, after: Text, unread: Text)
    requires ReadUnit(t) == Got(c, unread) && (t == [] || t[0] != QUOTE)
    requires ReadString(unread) == Got(s, after)
    ensures ReadString(t) == Got([c] + s, after)
  {
  }

  lemma UnitRead(c: CodeUnit, last: Text, s: Text, after: Text)
    requires ReadString(last) == Got(s, after)
    ensures ReadString(EscapeUnit(c) + last) == Got([c] + s, after)
  {
    EscapeUnitRead(c, last);
    assert (EscapeUnit(c) + last)[0] == EscapeUnit(c)[0];
    UnitThenString(c, EscapeUnit(c) + last, s, after, last);
  }

  lemma PlainRead(c: CodeUnit, last: Text, s: Text, after: Text)
    requires c >= 32 && c != QUOTE && c != BACKSLASH && ReadString(last) == Got(s, after)
    ensures ReadString([c] + last) == Got([c] + s, after)
  {
    PlainUnitRead(c, last);
    UnitThenString(c, [c] + last, s, after, last);
  }

  lemma PairRead(c: CodeUnit, d: CodeUnit, last: Text, s: Text, after: Text)
    requires HighSurrogate(c) && LowSurrogate(d) && ReadString(last) == Got(s, after)
    ensures ReadString([c, d] + last) == Got([c, d] + s, after)
  {
    PlainRead(d, last, s, after);
    PlainRead(c, [d] + last, [d] + s, after);
    assert [c, d] + last == [c] + ([d] + last) && [c, d] + s == [c] + ([d] + s);
  }

  lemma {:induction false} EscapeRead(s: Text, rest: Text)
    ensures ReadString(Escape(s) + ([QUOTE] + rest)) == Got(s, rest)
    decreases |s|
  {
    var tail := [QUOTE] + rest;
    if s == [] {
      assert Escape(s) + tail == tail && tail[1..] == rest;
    } else {
      var more := s[StepLength(s)..];
      EscapeRead(more, rest);
      EscapeStep(s, tail);
      if StartsWithPair(s) {
        PairRead(s[0], s[1], Escape(more) + tail, more, rest);
        assert s[..2] == [s[0], s[1]];
      } else {
        UnitRead(s[0], Escape(more) + tail, more, rest);
        assert s[..1] == [s[0]];
      }
    }
  }

  // ---------------------------------------------------------------- values (sections 3 to 6)

  /** The longest beginning made of characters of numbers. */
  function NumberLength(t: Text): (n: nat)
    ensures n <= |t|
  {
    if t == [] || !NumberUnit(t[0]) then 0 else 1 + NumberLength(t[1..])
  }

  function ReadNumber(t: Text): (r: Reading<Value>)
    ensures r.Got? ==> |r.rest| < |t|
  {
    var n := NumberLength(t);
    if NumberText(t[..n]) then Got(Num(t[..n]), t[n..]) else Malformed
  }

  function ReadWord(t: Text, word: Text, value: Value): (r: Reading<Value>)
    requires word != []
    ensures r.Got? ==> |r.rest| < |t|
  {
    if word <= t then Got(value, t[|word|..]) else Malformed
  }

  const NULL_WORD: Text := ['n' as int, 'u' as int, 'l' as int, 'l' as int]
  const TRUE_WORD: Text := ['t' as int, 'r' as int, 'u' as int, 'e' as int]
  const FALSE_WORD: Text := ['f' as int, 'a' as int, 'l' as int, 's' as int, 'e' as int]

  function ReadValue(t: Text): (r: Reading<Value>)
    ensures r.Got? ==> |r.rest| < |t|
    decreases |t|, 0
  {
    if t == [] then Malformed
    else if t[0] == '\"' as int then
      (match ReadString(t[1..]) case Got(s, rest) => Got(Str(s), rest) case Malformed => Malformed)
    else if t[0] == '[' as int then
      if |t| > 1 && t[1] == ']' as int then Got(Arr([]), t[2..])
      else (match ReadElements(t[1..]) case Got(es, rest) => Got(Arr(es), rest) case Malformed => Malformed)
    else if t[0] == '{' as int then
      if |t| > 1 && t[1] == '}' as int then Got(Obj([]), t[2..])
      else (match ReadMembers(t[1..]) case Got(ms, rest) => Got(Obj(ms), rest) case Malformed => Malformed)
    else if t[0] == 'n' as int then ReadWord(t, NULL_WORD, Null)
    else if t[0] == 't' as int then ReadWord(t, TRUE_WORD, Bool(true))
    else if t[0] == 'f' as int then ReadWord(t, FALSE_WORD, Bool(false))
    else ReadNumber(t)
  }

  /** The elements of an array that is not empty, after its opening bracket. */
  function ReadElements(t: Text): (r: Reading<seq<Value>>)
    ensures r.Got? ==> |r.rest| < |t|
    decreases |t|, 1
  {
    match ReadValue(t)
    case Malformed => Malformed
    case Got(e, rest) =>
      if rest == [] then Malformed
      else if rest[0] == ']' as int then Got([e], rest[1..])
      else if rest[0] != ',' as int then Malformed
      else
        match ReadElements(rest[1..])
        case Malformed => Malformed
        case Got(es, after) => Got([e] + es, after)
  }

  /** A name and a colon. */
  function ReadName(t: Text): (r: Reading<Text>)
    ensures r.Got? ==> |r.rest| < |t|
  {
    if t == [] || t[0] != '\"' as int then Malformed
    else
      match ReadString(t[1..])
      case Malformed => Malformed
      case Got(key, rest) => if rest != [] && rest[0] == ':' as int then Got(key, rest[1..]) else Malformed
  }

  /** The members of an object that is not empty, after its opening brace. */
  function ReadMembers(t: Text): (r: Reading<seq<Member>>)
    ensures r.Got? ==> |r.rest| < |t|
    decreases |t|, 1
  {
    match ReadName(t)
    case Malformed => Malformed
    case Got(key, named) =>
      match ReadValue(named)
      case Malformed => Malformed
      case Got(v, rest) =>
        if rest == [] then Malformed
        else if rest[0] == '}' as int then Got([Member(key, v)], rest[1..])
        else if rest[0] != ',' as int then Malformed
        else
          match ReadMembers(rest[1..])
          case Malformed => Malformed
          case Got(ms, after) => Got([Member(key, v)] + ms, after)
  }

  /** `JSON.parse`, of a text without white space. */
  function Parse(t: Text): Reading<Value> {
    match ReadValue(t)
    case Got(v, rest) => if rest == [] then Got(v, []) else Malformed
    case Malformed => Malformed
  }

  // ---------------------------------------------------------------- reading what was printed

  lemma {:induction false} NumberEnds(t: Text, rest: Text)
    requires (forall i :: 0 <= i < |t| ==> NumberUnit(t[i])) && Stop(rest)
    ensures NumberLength(t + rest) == |t|
  {
    if t == [] {
      assert t + rest == rest;
    } else {
      assert (t + rest)[1..] == t[1..] + rest;
      NumberEnds(t[1..], rest);
    }
  }

  lemma NumberRead(t: Text, rest: Text)
    requires NumberText(t) && Stop(rest)
    ensures ReadValue(t + rest) == Got(Num(t), rest)
  {
    var all := t + rest;
    NumberEnds(t, rest);
    assert all[..|t|] == t && all[|t|..] == rest && all[0] == t[0];
  }

  lemma WordRead(word: Text, value: Value, rest: Text)
    requires word != []
    ensures ReadWord(word + rest, word, value) == Got(value, rest)
  {
    assert (word + rest)[|word|..] == rest;
  }

  lemma QuoteText(s: Text, rest: Text)
    ensures Quote(s) + rest == [QUOTE] + (Escape(s) + ([QUOTE] + rest))
  {
  }

  lemma QuoteRead(s: Text, rest: Text)
    ensures Quote(s) + rest != [] && (Quote(s) + rest)[0] == QUOTE
    ensures ReadString((Quote(s) + rest)[1..]) == Got(s, rest)
  {
    var inner := Escape(s) + ([QUOTE] + rest);
    QuoteText(s, rest);
    EscapeRead(s, rest);
    assert ([QUOTE] + inner)[1..] == inner;
  }

  lemma Bracketed(open: CodeUnit, inner: Text, close: CodeUnit, rest: Text) returns (t: Text)
    ensures t == ([open] + inner + [close]) + rest
    ensures |t| > 1 && t[0] == open && t[1..] == inner + ([close] + rest)
  {
    t := ([open] + inner + [close]) + rest;
    assert t == [open] + (inner + ([close] + rest));
  }

  lemma EmptyRead(rest: Text)
    ensures ReadValue([91, 93] + rest) == Got(Arr([]), rest)
    ensures ReadValue([123, 125] + rest) == Got(Obj([]), rest)
  {
    assert ([91, 93] + rest)[2..] == rest && ([123, 125] + rest)[2..] == rest;
  }

  lemma ArrayRead(es: seq<Value>, inner: Text, rest: Text)
    requires inner != [] && inner[0] != 93 && ReadElements(inner + ([93] + rest)) == Got(es, rest)
    ensures ReadValue(([91] + inner + [93]) + rest) == Got(Arr(es), rest)
  {
    var t := Bracketed(91, inner, 93, rest);
    assert t[1] == t[1..][0] == inner[0];
  }

  lemma ObjectRead(ms: seq<Member>, inner: Text, rest: Text)
    requires inner != [] && inner[0] != 125 && ReadMembers(inner + ([125] + rest)) == Got(ms, rest)
    ensures ReadValue(([123] + inner + [125]) + rest) == Got(Obj(ms), rest)
  {
    var t := Bracketed(123, inner, 125, rest);
    assert t[1] == t[1..][0] == inner[0];
  }

  lemma ElementsStart(es: seq<Value>)
    requires es != [] && Valid(es[0])
    ensures ElementsText(es) != [] && ElementsText(es)[0] != 93
  {
    StringifyStart(es[0]);
  }

  lemma MembersStart(ms: seq<Member>)
    requires ms != []
    ensures MembersText(ms) != [] && MembersText(ms)[0] == QUOTE
  {
  }

  /** A printed value is read back, whatever follows that cannot continue it. */
  lemma {:induction false} StringifyRead(v: Value, rest: Text)
    requires Valid(v) && Stop(rest)
    ensures ReadValue(Stringify(v) + rest) == Got(v, rest)
    decreases v, 1
  {
    match v
    case Null => WordRead(NULL_WORD, Null, rest);
    case Bool(b) => WordRead(if b then TRUE_WORD else FALSE_WORD, v, rest);
    case Num(t) => NumberRead(t, rest);
    case Str(s) => QuoteRead(s, rest);
    case Arr(es) =>
      if es == [] {
        EmptyRead(rest);
        assert [91] + [] + [93] == [91, 93];
      } else {
        ElementsRead(es, rest);
        ElementsStart(es);
        ArrayRead(es, ElementsText(es), rest);
      }
    case Obj(ms) =>
      if ms == [] {
        EmptyRead(rest);
        assert [123] + [] + [125] == [123, 125];
      } else {
        MembersRead(ms, rest);
        MembersStart(ms);
        ObjectRead(ms, MembersText(ms), rest);
      }
  }

  lemma LastElement(e: Value, t: Text, rest: Text)
    requires ReadValue(t) == Got(e, [93] + rest)
    ensures ReadElements(t) == Got([e], rest)
  {
    assert ([93] + rest)[1..] == rest;
  }

  lemma MoreElements(e: Value, t: Text, es: seq<Value>, more: Text, rest: Text)
    requires ReadValue(t) == Got(e, [COMMA] + more) && ReadElements(more) == Got(es, rest)
    ensures ReadElements(t) == Got([e] + es, rest)
  {
    assert ([COMMA] + more)[1..] == more;
  }

  lemma OneElementRead(es: seq<Value>, rest: Text)
    requires |es| == 1 && ReadValue(Stringify(es[0]) + ([93] + rest)) == Got(es[0], [93] + rest)
    ensures ReadElements(ElementsText(es) + ([93] + rest)) == Got(es, rest)
  {
    ElementsTextHead(es, [93] + rest);
    LastElement(es[0], ElementsText(es) + ([93] + rest), rest);
    assert es == [es[0]];
  }

  lemma ElementsTextMore(es: seq<Value>, more: Text, rest: Text)
    requires |es| > 1 && more == ElementsText(es[1..]) + ([93] + rest)
    ensures ElementsText(es) + ([93] + rest) == Stringify(es[0]) + ([COMMA] + more)
  {
    ElementsTextHead(es, [93] + rest);
  }

  lemma NextElementsRead(e: Value, v: Text, es: seq<Value>, more: Text, rest: Text)
    requires ReadValue(v + ([COMMA] + more)) == Got(e, [COMMA] + more) && ReadElements(more) == Got(es, rest)
    ensures ReadElements(v + ([COMMA] + more)) == Got([e] + es, rest)
  {
    MoreElements(e, v + ([COMMA] + more), es, more, rest);
  }

  ghost predicate ValidElements(es: seq<Value>) {
    forall e :: e in es ==> Valid(e)
  }

  lemma ValidElementParts(es: seq<Value>)
    requires ValidElements(es) && es != []
    ensures Valid(es[0]) && ValidElements(es[1..])
  {
    assert es[0] in es;
    assert forall e :: e in es[1..] ==> e in es;
  }

  lemma {:induction false} ElementsRead(es: seq<Value>, rest: Text)
    requires es != [] && ValidElements(es)
    ensures ReadElements(ElementsText(es) + ([93] + rest)) == Got(es, rest)
    decreases es, 0
  {
    ValidElementParts(es);
    if |es| == 1 {
      StringifyRead(es[0], [93] + rest);
      OneElementRead(es, rest);
    } else {
      var more := ElementsText(es[1..]) + ([93] + rest);
      StringifyRead(es[0], [COMMA] + more);
      ElementsRead(es[1..], rest);
      NextElementsRead(es[0], Stringify(es[0]), es[1..], more, rest);
      ElementsTextMore(es, more, rest);
      assert [es[0]] + es[1..] == es;
    }
  }

  lemma NameRead(key: Text, rest: Text)
    ensures ReadName(Quote(key) + ([58] + rest)) == Got(key, rest)
  {
    QuoteRead(key, [58] + rest);
    assert ([58] + rest)[1..] == rest;
  }

  lemma LastMember(m: Member, t: Text, named: Text, rest: Text)
    requires ReadName(t) == Got(m.key, named) && ReadValue(named) == Got(m.value, [125] + rest)
    ensures ReadMembers(t) == Got([m], rest)
  {
    assert ([125] + rest)[1..] == rest;
  }

  lemma MoreMembers(m: Member, t: Text, named: Text, ms: seq<Member>, more: Text, rest: Text)
    requires ReadName(t) == Got(m.key, named) && ReadValue(named) == Got(m.value, [COMMA] + more)
    requires ReadMembers(more) == Got(ms, rest)
    ensures ReadMembers(t) == Got([m] + ms, rest)
  {
    assert ([COMMA] + more)[1..] == more;
  }

  lemma FirstNameRead(ms: seq<Member>, close: Text)
    requires ms != []
    ensures ReadName(MembersText(ms) + close) == Got(ms[0].key, Stringify(ms[0].value) + AfterMember(ms, close))
  {
    MembersTextHead(ms, close);
    NameRead(ms[0].key, Stringify(ms[0].value) + AfterMember(ms, close));
  }

  lemma OneMemberRead(ms: seq<Member>, rest: Text)
    requires |ms| == 1
    requires ReadValue(Stringify(ms[0].value) + ([125] + rest)) == Got(ms[0].value, [125] + rest)
    ensures ReadMembers(MembersText(ms) + ([125] + rest)) == Got(ms, rest)
  {
    FirstNameRead(ms, [125] + rest);
    LastMember(ms[0], MembersText(ms) + ([125] + rest), Stringify(ms[0].value) + ([125] + rest), rest);
    assert ms == [ms[0]];
  }

  lemma NextMembersRead(ms: seq<Member>, more: Text, rest: Text)
    requires |ms| > 1 && more == MembersText(ms[1..]) + ([125] + rest)
    requires ReadValue(Stringify(ms[0].value) + ([COMMA] + more)) == Got(ms[0].value, [COMMA] + more)
    requires ReadMembers(more) == Got(ms[1..], rest)
    ensures ReadMembers(MembersText(ms) + ([125] + rest)) == Got(ms, rest)
  {
    FirstNameRead(ms, [125] + rest);
    var named := Stringify(ms[0].value) + ([COMMA] + more);
    MoreMembers(ms[0], MembersText(ms) + ([125] + rest), named, ms[1..], more, rest);
    assert ms == [ms[0]] + ms[1..];
  }

  ghost predicate ValidMembers(ms: seq<Member>) {
    forall m :: m in ms ==> Valid(m.value)
  }

  lemma ValidParts(ms: seq<Member>)
    requires ValidMembers(ms) && ms != []
    ensures Valid(ms[0].value) && ValidMembers(ms[1..])
  {
    assert ms[0] in ms;
    assert forall m :: m in ms[1..] ==> m in ms;
  }

  lemma {:induction false} MembersRead(ms: seq<Member>, rest: Text)
    requires ms != [] && ValidMembers(ms)
    ensures ReadMembers(MembersText(ms) + ([125] + rest)) == Got(ms, rest)
    decreases ms, 0
  {
    ValidParts(ms);
    if |ms| == 1 {
      StringifyRead(ms[0].value, [125] + rest);
      OneMemberRead(ms, rest);
    } else {
      var more := MembersText(ms[1..]) + ([125] + rest);
      StringifyRead(ms[0].value, [COMMA] + more);
      MembersRead(ms[1..], rest);
      NextMembersRead(ms, more, rest);
    }
  }

  /** The text of a value, read as RFC 8259 says, is that value. */
  lemma ParseStringify(v: Value)
    requires Valid(v)
    ensures Parse(Stringify(v)) == Got(v, [])
  {
    assert Stringify(v) + [] == Stringify(v);
    StringifyRead(v, []);
  }
}
