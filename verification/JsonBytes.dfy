/** `jsonSize` (packages/client/src/kv-stores.ts) counts the bytes of the printed value in UTF-8. */
module JsonBytes {
  import opened Texts
  import opened Json

  /** Surrogates come in pairs only. */
  predicate Paired(t: Text) {
    || t == []
    || (|t| >= 2 && HighSurrogate(t[0]) && LowSurrogate(t[1]) && Paired(t[2..]))
    || (!HighSurrogate(t[0]) && !LowSurrogate(t[0]) && Paired(t[1..]))
  }

  function CodePoints(t: Text): seq<int>
    requires Paired(t)
  {
    if t == [] then []
    else if HighSurrogate(t[0]) then [0x1_0000 + (t[0] - 0xD800) * 0x400 + (t[1] - 0xDC00)] + CodePoints(t[2..])
    else [t[0]] + CodePoints(t[1..])
  }

  /** The bytes of a code point in UTF-8 (RFC 3629, section 3). */
  function Utf8Length(codePoint: int): nat {
    if codePoint < 0x80 then 1 else if codePoint < 0x800 then 2 else if codePoint < 0x1_0000 then 3 else 4
  }

  function Utf8Lengths(codePoints: seq<int>): nat {
    if codePoints == [] then 0 else Utf8Length(codePoints[0]) + Utf8Lengths(codePoints[1..])
  }

  lemma {:induction false} SizeOfPaired(t: Text)
    requires Paired(t)
    ensures Utf8Size(t) == Utf8Lengths(CodePoints(t))
  {
    if t != [] {
      if HighSurrogate(t[0]) {
        assert t[1..][1..] == t[2..];
        SizeOfPaired(t[2..]);
      } else {
        SizeOfPaired(t[1..]);
      }
    }
  }

  lemma {:induction false} PairedAppend(a: Text, b: Text)
    requires Paired(a) && Paired(b)
    ensures Paired(a + b)
  {
    if a == [] {
      assert a + b == b;
    } else if HighSurrogate(a[0]) {
      PairedAppend(a[2..], b);
      assert (a + b)[2..] == a[2..] + b;
    } else {
      PairedAppend(a[1..], b);
      assert (a + b)[1..] == a[1..] + b;
    }
  }

  /** A text without surrogates. */
  lemma {:induction false} PlainPaired(t: Text)
    requires forall c :: c in t ==> !HighSurrogate(c) && !LowSurrogate(c)
    ensures Paired(t)
  {
    if t != [] {
      assert forall c :: c in t[1..] ==> c in t;
      PlainPaired(t[1..]);
    }
  }

  lemma EscapeUnitPaired(c: CodeUnit)
    ensures Paired(EscapeUnit(c))
  {
    PlainPaired(EscapeUnit(c));
  }

  lemma {:induction false} EscapePaired(s: Text)
    ensures Paired(Escape(s))
  {
    if |s| >= 2 && HighSurrogate(s[0]) && LowSurrogate(s[1]) {
      EscapePaired(s[2..]);
      assert s[..2][2..] == [];
      PairedAppend(s[..2], Escape(s[2..]));
    } else if s != [] {
      EscapePaired(s[1..]);
      EscapeUnitPaired(s[0]);
      PairedAppend(EscapeUnit(s[0]), Escape(s[1..]));
    }
  }

  lemma QuotePaired(s: Text)
    ensures Paired(Quote(s))
  {
    EscapePaired(s);
    PlainPaired([QUOTE]);
    PairedAppend([QUOTE], Escape(s));
    PairedAppend([QUOTE] + Escape(s), [QUOTE]);
  }

  /** What is printed never holds half of a surrogate pair alone. */
  lemma {:induction false} StringifyPaired(v: Value)
    requires Valid(v)
    ensures Paired(Stringify(v))
    decreases v, 1
  {
    match v
    case Null => PlainPaired(Stringify(v));
    case Bool(_) => PlainPaired(Stringify(v));
    case Num(t) => PlainPaired(t);
    case Str(s) => QuotePaired(s);
    case Arr(es) => ElementsPaired(es); Between(91, ElementsText(es), 93);
    case Obj(ms) => MembersPaired(ms); Between(123, MembersText(ms), 125);
  }

  lemma Between(open: CodeUnit, t: Text, close: CodeUnit)
    requires Paired(t) && open < 0x80 && close < 0x80
    ensures Paired([open] + t + [close])
  {
    PlainPaired([open]);
    PlainPaired([close]);
    PairedAppend([open], t);
    PairedAppend([open] + t, [close]);
  }

  lemma {:induction false} ElementsPaired(es: seq<Value>)
    requires forall e :: e in es ==> Valid(e)
    ensures Paired(ElementsText(es))
    decreases es, 0
  {
    if es != [] {
      StringifyPaired(es[0]);
      if |es| > 1 {
        assert forall e :: e in es[1..] ==> e in es;
        ElementsPaired(es[1..]);
        PlainPaired([COMMA]);
        PairedAppend([COMMA], ElementsText(es[1..]));
        PairedAppend(Stringify(es[0]), [COMMA] + ElementsText(es[1..]));
      } else {
        PairedAppend(Stringify(es[0]), []);
      }
    }
  }

  lemma {:induction false} MembersPaired(ms: seq<Member>)
    requires forall m :: m in ms ==> Valid(m.value)
    ensures Paired(MembersText(ms))
    decreases ms, 0
  {
    if ms != [] {
      var first := Quote(ms[0].key) + [58] + Stringify(ms[0].value);
      QuotePaired(ms[0].key);
      PlainPaired([58]);
      StringifyPaired(ms[0].value);
      PairedAppend(Quote(ms[0].key), [58]);
      PairedAppend(Quote(ms[0].key) + [58], Stringify(ms[0].value));
      if |ms| > 1 {
        assert forall m :: m in ms[1..] ==> m in ms;
        MembersPaired(ms[1..]);
        PlainPaired([COMMA]);
        PairedAppend([COMMA], MembersText(ms[1..]));
        PairedAppend(first, [COMMA] + MembersText(ms[1..]));
      } else {
        PairedAppend(first, []);
      }
    }
  }

  /** The size of a value is the number of bytes of its text in UTF-8. */
  lemma JsonSizeIsUtf8Length(v: Value)
    requires Valid(v)
    ensures Paired(Stringify(v)) && JsonSize(v) == Utf8Lengths(CodePoints(Stringify(v)))
  {
    StringifyPaired(v);
    SizeOfPaired(Stringify(v));
  }
}
