/** JSON values and the text `JSON.stringify` gives them: objects list their members in the order in which they were
    set, strings are escaped as section 7 of RFC 8259 asks. What is printed can be read in one way only. */
module Json {
  import opened Texts

  /** A number is represented by the text JavaScript prints for it; an object lists its
      members in the object's own key order. */
  datatype Value =
    | Null
    | Bool(b: bool)
    | Num(text: Text)
    | Str(s: Text)
    | Arr(elems: seq<Value>)
    | Obj(members: seq<Member>)

  datatype Member = Member(key: Text, value: Value)

  const COMMA: CodeUnit := 44
  const QUOTE: CodeUnit := 34
  const BACKSLASH: CodeUnit := 92

  /** The characters of a printed finite number: digits, `+`, `-`, `.`, `e`. */
  predicate NumberUnit(c: CodeUnit) {
    48 <= c <= 57 || c == 43 || c == 45 || c == 46 || c == 101
  }

  predicate NumberText(t: Text) {
    t != [] && (48 <= t[0] <= 57 || t[0] == 45) && forall i :: 0 <= i < |t| ==> NumberUnit(t[i])
  }

  predicate DistinctKeys(ms: seq<Member>) {
    forall i, j :: 0 <= i < j < |ms| ==> ms[i].key != ms[j].key
  }

  ghost predicate Valid(v: Value) {
    match v
    case Num(t) => NumberText(t)
    case Arr(es) => forall e :: e in es ==> Valid(e)
    case Obj(ms) => DistinctKeys(ms) && forall m :: m in ms ==> Valid(m.value)
    case _ => true
  }

  predicate HighSurrogate(c: CodeUnit) { 0xD800 <= c < 0xDC00 }

  predicate LowSurrogate(c: CodeUnit) { 0xDC00 <= c < 0xE000 }

  function HexDigit(d: int): (c: CodeUnit)
    requires 0 <= d < 16
    ensures 48 <= c <= 57 || 97 <= c <= 102
  {
    if d < 10 then 48 + d else 87 + d
  }

  /** One code unit inside a string literal (RFC 8259, section 7). */
  function EscapeUnit(c: CodeUnit): Text {
    if c == QUOTE then [BACKSLASH, QUOTE]
    else if c == BACKSLASH then [BACKSLASH, BACKSLASH]
    else if c == 8 then [BACKSLASH, 98]
    else if c == 9 then [BACKSLASH, 116]
    else if c == 10 then [BACKSLASH, 110]
    else if c == 12 then [BACKSLASH, 102]
    else if c == 13 then [BACKSLASH, 114]
    else if c < 32 || HighSurrogate(c) || LowSurrogate(c) then
      [BACKSLASH, 117, HexDigit(c / 16 / 16 / 16), HexDigit(c / 16 / 16 % 16), HexDigit(c / 16 % 16), HexDigit(c % 16)]
    else [c]
  }

  /** A surrogate pair stands for itself; a lone surrogate is escaped. */
  function Escape(s: Text): Text {
    if s == [] then []
    else if |s| >= 2 && HighSurrogate(s[0]) && LowSurrogate(s[1]) then s[..2] + Escape(s[2..])
    else EscapeUnit(s[0]) + Escape(s[1..])
  }

  function Quote(s: Text): Text {
    [QUOTE] + Escape(s) + [QUOTE]
  }

  /** `JSON.stringify(v)`. */
  function Stringify(v: Value): Text
    decreases v, 1
  {
    match v
    case Null => [110, 117, 108, 108]
    case Bool(b) => if b then [116, 114, 117, 101] else [102, 97, 108, 115, 101]
    case Num(t) => t
    case Str(s) => Quote(s)
    case Arr(es) => [91] + ElementsText(es) + [93]
    case Obj(ms) => [123] + MembersText(ms) + [125]
  }

  function ElementsText(es: seq<Value>): Text
    decreases es, 0
  {
    if es == [] then []
    else Stringify(es[0]) + (if |es| == 1 then [] else [COMMA] + ElementsText(es[1..]))
  }

  function MembersText(ms: seq<Member>): Text
    decreases ms, 0
  {
    if ms == [] then []
    else Quote(ms[0].key) + [58] + Stringify(ms[0].value)
         + (if |ms| == 1 then [] else [COMMA] + MembersText(ms[1..]))
  }

  /** Bytes in the UTF-8 encoding of a printed text; each half of a surrogate pair counts two. */
  function Utf8Size(t: Text): nat {
    if t == [] then 0
    else (if t[0] < 0x80 then 1
          else if t[0] < 0x800 || HighSurrogate(t[0]) || LowSurrogate(t[0]) then 2
          else 3) + Utf8Size(t[1..])
  }

  /** `jsonSize` of the stores. */
  function JsonSize(v: Value): nat {
    Utf8Size(Stringify(v))
  }

  // ---------------------------------------------------------------- unique readability

  /** A text that cannot continue a printed value. */
  predicate Stop(r: Text) {
    r == [] || r[0] == COMMA || r[0] == 93 || r[0] == 125
  }

  lemma StringifyStart(v: Value)
    requires Valid(v)
    ensures Stringify(v) != []
    ensures var c := Stringify(v)[0];
            match v
            case Null => c == 110
            case Bool(b) => c == if b then 116 else 102
            case Num(_) => 48 <= c <= 57 || c == 45
            case Str(_) => c == QUOTE
            case Arr(_) => c == 91
            case Obj(_) => c == 123
  {
  }

  lemma HexDigitsTell(c: int)
    requires 0 <= c < 0x1_0000
    ensures var a, b, d, e := c / 16 / 16 / 16, c / 16 / 16 % 16, c / 16 % 16, c % 16;
            0 <= a < 16 && c == ((a * 16 + b) * 16 + d) * 16 + e
  {
  }

  lemma HexDigitInjective(d: int, e: int)
    requires 0 <= d < 16 && 0 <= e < 16 && HexDigit(d) == HexDigit(e)
    ensures d == e
  {
  }

  lemma LongEscapeInjective(c: CodeUnit, d: CodeUnit)
    requires EscapeUnit(c) == EscapeUnit(d) && |EscapeUnit(c)| == 6
    ensures c == d
  {
    var l, r := EscapeUnit(c), EscapeUnit(d);
    HexDigitsTell(c);
    HexDigitsTell(d);
    assert l[2] == r[2] && l[3] == r[3] && l[4] == r[4] && l[5] == r[5];
    HexDigitInjective(c / 16 / 16 / 16, d / 16 / 16 / 16);
    HexDigitInjective(c / 16 / 16 % 16, d / 16 / 16 % 16);
    HexDigitInjective(c / 16 % 16, d / 16 % 16);
    HexDigitInjective(c % 16, d % 16);
  }

  lemma ShortEscapeInjective(c: CodeUnit, d: CodeUnit)
    requires EscapeUnit(c) == EscapeUnit(d) && |EscapeUnit(c)| < 6
    ensures c == d
  {
    var l, r := EscapeUnit(c), EscapeUnit(d);
    assert l[0] == r[0];
    assert |l| == 2 ==> l[1] == r[1];
  }

  /** The first two units tell how long the escape is. */
  lemma EscapeLength(c: CodeUnit, d: CodeUnit, x: Text, y: Text)
    requires EscapeUnit(c) + x == EscapeUnit(d) + y
    ensures |EscapeUnit(c)| == |EscapeUnit(d)|
  {
    var l, r := EscapeUnit(c) + x, EscapeUnit(d) + y;
    assert l[0] == EscapeUnit(c)[0] && r[0] == EscapeUnit(d)[0];
    if l[0] == BACKSLASH {
      assert l[1] == EscapeUnit(c)[1] && r[1] == EscapeUnit(d)[1];
    }
  }

  lemma EscapeUnitReadable(c: CodeUnit, d: CodeUnit, x: Text, y: Text)
    requires EscapeUnit(c) + x == EscapeUnit(d) + y
    ensures c == d && x == y
  {
    EscapeLength(c, d, x, y);
    HeadReadable(EscapeUnit(c), EscapeUnit(d), x, y);
    if |EscapeUnit(c)| == 6 {
      LongEscapeInjective(c, d);
    } else {
      ShortEscapeInjective(c, d);
    }
  }

  predicate StartsWithPair(s: Text) {
    |s| >= 2 && HighSurrogate(s[0]) && LowSurrogate(s[1])
  }

  /** How much of `s` the first step of `Escape` consumes, and what it prints for it. */
  function StepLength(s: Text): (n: nat)
    requires s != []
    ensures 1 <= n <= |s|
  {
    if StartsWithPair(s) then 2 else 1
  }

  function StepText(s: Text): (r: Text)
    requires s != []
    ensures r != []
  {
    if StartsWithPair(s) then s[..2] else EscapeUnit(s[0])
  }

  lemma EscapeStep(s: Text, x: Text)
    requires s != []
    ensures Escape(s) + x == StepText(s) + (Escape(s[StepLength(s)..]) + x)
    ensures StepText(s)[0] != QUOTE
    ensures s == s[..StepLength(s)] + s[StepLength(s)..]
  {
  }

  lemma StepReadable(s: Text, t: Text, x: Text, y: Text)
    requires s != [] && t != []
    requires StepText(s) + x == StepText(t) + y
    ensures s[..StepLength(s)] == t[..StepLength(t)] && x == y
  {
    var l, r := StepText(s) + x, StepText(t) + y;
    assert l[0] == StepText(s)[0] && r[0] == StepText(t)[0];
    if StartsWithPair(s) && StartsWithPair(t) {
      HeadReadable(s[..2], t[..2], x, y);
    } else if !StartsWithPair(s) && !StartsWithPair(t) {
      EscapeUnitReadable(s[0], t[0], x, y);
    }
  }

  lemma {:induction false} EscapeReadable(s: Text, t: Text, x: Text, y: Text)
    requires x != [] && x[0] == QUOTE && y != [] && y[0] == QUOTE
    requires Escape(s) + x == Escape(t) + y
    ensures s == t && x == y
    decreases |s|
  {
    if s != [] { EscapeStep(s, x); }
    if t != [] { EscapeStep(t, y); }
    assert (Escape(s) + x)[0] == if s == [] then QUOTE else StepText(s)[0];
    assert (Escape(t) + y)[0] == if t == [] then QUOTE else StepText(t)[0];
    if s == [] || t == [] {
      HeadReadable([], [], x, y);
    } else {
      var s', t' := s[StepLength(s)..], t[StepLength(t)..];
      StepReadable(s, t, Escape(s') + x, Escape(t') + y);
      EscapeReadable(s', t', x, y);
    }
  }

  lemma HeadReadable(a: Text, b: Text, x: Text, y: Text)
    requires |a| == |b| && a + x == b + y
    ensures a == b && x == y
  {
    assert a == (a + x)[..|a|] && x == (a + x)[|a|..];
    assert b == (b + y)[..|b|] && y == (b + y)[|b|..];
  }

  lemma QuoteReadable(s: Text, t: Text, x: Text, y: Text)
    requires Quote(s) + x == Quote(t) + y
    ensures s == t && x == y
  {
    var x', y' := [QUOTE] + x, [QUOTE] + y;
    assert Quote(s) + x == [QUOTE] + (Escape(s) + x');
    assert Quote(t) + y == [QUOTE] + (Escape(t) + y');
    HeadReadable([QUOTE], [QUOTE], Escape(s) + x', Escape(t) + y');
    EscapeReadable(s, t, x', y');
    HeadReadable([QUOTE], [QUOTE], x, y);
  }

  lemma NumberReadable(t: Text, u: Text, r: Text, s: Text)
    requires NumberText(t) && NumberText(u) && Stop(r) && Stop(s)
    requires t + r == u + s
    ensures t == u && r == s
  {
    var l := t + r;
    assert l == u + s;
    assert |t| < |l| ==> l[|t|] == r[0];
    assert |u| < |l| ==> l[|u|] == s[0];
    assert forall i :: 0 <= i < |t| ==> NumberUnit(l[i]) by {
      forall i | 0 <= i < |t| ensures NumberUnit(l[i]) { assert l[i] == t[i]; }
    }
    assert forall i :: 0 <= i < |u| ==> NumberUnit(l[i]) by {
      forall i | 0 <= i < |u| ensures NumberUnit(l[i]) { assert l[i] == u[i]; }
    }
    assert |t| == |u|;
    assert t == l[..|t|] && u == l[..|u|] && r == l[|t|..] && s == l[|u|..];
  }

  /** A printed value can be read in one way only. */
  lemma {:induction false} Readable(a: Value, b: Value, r: Text, s: Text)
    requires Valid(a) && Valid(b) && Stop(r) && Stop(s)
    requires Stringify(a) + r == Stringify(b) + s
    ensures a == b && r == s
    decreases a, 1
  {
    StringifyStart(a);
    StringifyStart(b);
    assert (Stringify(a) + r)[0] == Stringify(a)[0] && (Stringify(b) + s)[0] == Stringify(b)[0];
    match a
    case Num(t) => NumberReadable(t, b.text, r, s);
    case Str(t) => QuoteReadable(t, b.s, r, s);
    case Arr(es) =>
      BracketsReadable(91, ElementsText(es), ElementsText(b.elems), 93, r, s);
      ElementsReadable(es, b.elems, [93] + r, [93] + s);
      HeadReadable([93], [93], r, s);
    case Obj(ms) =>
      BracketsReadable(123, MembersText(ms), MembersText(b.members), 125, r, s);
      MembersReadable(ms, b.members, [125] + r, [125] + s);
      HeadReadable([125], [125], r, s);
    case _ => HeadReadable(Stringify(a), Stringify(b), r, s);
  }

  lemma BracketsReadable(open: CodeUnit, a: Text, b: Text, close: CodeUnit, r: Text, s: Text)
    requires ([open] + a + [close]) + r == ([open] + b + [close]) + s
    ensures a + ([close] + r) == b + ([close] + s)
  {
    assert ([open] + a + [close]) + r == [open] + (a + ([close] + r));
    assert ([open] + b + [close]) + s == [open] + (b + ([close] + s));
    HeadReadable([open], [open], a + ([close] + r), b + ([close] + s));
  }

  /** What follows the first element, given what follows the last. */
  function AfterElement(es: seq<Value>, x: Text): Text
    requires es != []
  {
    if |es| == 1 then x else [COMMA] + (ElementsText(es[1..]) + x)
  }

  lemma ElementsTextHead(es: seq<Value>, x: Text)
    requires es != []
    ensures ElementsText(es) + x == Stringify(es[0]) + AfterElement(es, x)
  {
  }

  lemma {:induction false} ElementsReadable(es: seq<Value>, fs: seq<Value>, x: Text, y: Text)
    requires forall e :: e in es ==> Valid(e)
    requires forall e :: e in fs ==> Valid(e)
    requires x != [] && x[0] == 93 && y != [] && y[0] == 93
    requires ElementsText(es) + x == ElementsText(fs) + y
    ensures es == fs && x == y
    decreases es, 0
  {
    if es != [] { StringifyStart(es[0]); ElementsTextHead(es, x); }
    if fs != [] { StringifyStart(fs[0]); ElementsTextHead(fs, y); }
    assert (ElementsText(es) + x)[0] == if es == [] then 93 else Stringify(es[0])[0];
    assert (ElementsText(fs) + y)[0] == if fs == [] then 93 else Stringify(fs[0])[0];
    if es == [] || fs == [] {
      HeadReadable([], [], x, y);
    } else {
      Readable(es[0], fs[0], AfterElement(es, x), AfterElement(fs, y));
      assert AfterElement(es, x)[0] == AfterElement(fs, y)[0];
      assert es == [es[0]] + es[1..] && fs == [fs[0]] + fs[1..];
      if |es| > 1 {
        HeadReadable([COMMA], [COMMA], ElementsText(es[1..]) + x, ElementsText(fs[1..]) + y);
        ElementsReadable(es[1..], fs[1..], x, y);
      }
    }
  }

  function AfterMember(ms: seq<Member>, x: Text): Text
    requires ms != []
  {
    if |ms| == 1 then x else [COMMA] + (MembersText(ms[1..]) + x)
  }

  lemma MembersTextHead(ms: seq<Member>, x: Text)
    requires ms != []
    ensures MembersText(ms) + x == Quote(ms[0].key) + ([58] + (Stringify(ms[0].value) + AfterMember(ms, x)))
  {
    var more := if |ms| == 1 then [] else [COMMA] + MembersText(ms[1..]);
    assert more + x == AfterMember(ms, x);
    Regroup(Quote(ms[0].key), [58], Stringify(ms[0].value), more, x);
  }

  lemma Regroup(a: Text, b: Text, c: Text, d: Text, x: Text)
    ensures (a + b + c + d) + x == a + (b + (c + (d + x)))
  {
  }

  lemma {:induction false} MembersReadable(ms: seq<Member>, ns: seq<Member>, x: Text, y: Text)
    requires forall m :: m in ms ==> Valid(m.value)
    requires forall n :: n in ns ==> Valid(n.value)
    requires x != [] && x[0] == 125 && y != [] && y[0] == 125
    requires MembersText(ms) + x == MembersText(ns) + y
    ensures ms == ns && x == y
    decreases ms, 0
  {
    if ms != [] { MembersTextHead(ms, x); }
    if ns != [] { MembersTextHead(ns, y); }
    assert (MembersText(ms) + x)[0] == if ms == [] then 125 else QUOTE;
    assert (MembersText(ns) + y)[0] == if ns == [] then 125 else QUOTE;
    if ms == [] || ns == [] {
      HeadReadable([], [], x, y);
    } else {
      var x', y' := AfterMember(ms, x), AfterMember(ns, y);
      var p, q := Stringify(ms[0].value) + x', Stringify(ns[0].value) + y';
      QuoteReadable(ms[0].key, ns[0].key, [58] + p, [58] + q);
      HeadReadable([58], [58], p, q);
      Readable(ms[0].value, ns[0].value, x', y');
      assert x'[0] == y'[0];
      assert ms == [ms[0]] + ms[1..] && ns == [ns[0]] + ns[1..];
      if |ms| > 1 {
        HeadReadable([COMMA], [COMMA], MembersText(ms[1..]) + x, MembersText(ns[1..]) + y);
        MembersReadable(ms[1..], ns[1..], x, y);
      }
    }
  }

  /** `JSON.stringify` is injective on JSON values. */
  lemma StringifyInjective(a: Value, b: Value)
    requires Valid(a) && Valid(b) && Stringify(a) == Stringify(b)
    ensures a == b
  {
    assert Stringify(a) + [] == Stringify(b) + [];
    Readable(a, b, [], []);
  }

  // ---------------------------------------------------------------- no control characters

  predicate Printable(t: Text) {
    forall i :: 0 <= i < |t| ==> t[i] >= 32
  }

  lemma PrintableAppend(a: Text, b: Text)
    requires Printable(a) && Printable(b)
    ensures Printable(a + b)
  {
  }

  lemma EscapeUnitPrintable(c: CodeUnit)
    ensures Printable(EscapeUnit(c))
  {
  }

  lemma {:induction false} EscapePrintable(s: Text)
    ensures Printable(Escape(s))
    decreases |s|
  {
    if StartsWithPair(s) {
      EscapePrintable(s[2..]);
      PrintableAppend(s[..2], Escape(s[2..]));
    } else if s != [] {
      EscapePrintable(s[1..]);
      EscapeUnitPrintable(s[0]);
      PrintableAppend(EscapeUnit(s[0]), Escape(s[1..]));
    }
  }

  lemma {:induction false} StringifyPrintable(v: Value)
    requires Valid(v)
    ensures Printable(Stringify(v))
    decreases v, 1
  {
    match v
    case Str(s) => EscapePrintable(s);
    case Arr(es) => ElementsPrintable(es);
    case Obj(ms) => MembersPrintable(ms);
    case _ =>
  }

  lemma {:induction false} ElementsPrintable(es: seq<Value>)
    requires forall e :: e in es ==> Valid(e)
    ensures Printable(ElementsText(es))
    decreases es, 0
  {
    if es != [] {
      StringifyPrintable(es[0]);
      ElementsPrintable(es[1..]);
    }
  }

  lemma {:induction false} MembersPrintable(ms: seq<Member>)
    requires forall m :: m in ms ==> Valid(m.value)
    ensures Printable(MembersText(ms))
    decreases ms, 0
  {
    if ms != [] {
      EscapePrintable(ms[0].key);
      StringifyPrintable(ms[0].value);
      MembersPrintable(ms[1..]);
    }
  }
}
