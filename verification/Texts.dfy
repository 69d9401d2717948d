/** Text as the source languages see it, as a sequence of small integers: JavaScript strings by their 16-bit code units,
    Go strings that are trimmed by their code points below U+10000. Either order is lexicographic by these integers. */
module Texts {
  type CodeUnit = x: int | 0 <= x < 0x1_0000
  type Text = seq<CodeUnit>

  const NUL: CodeUnit := 0

  /** `a <= b` on JavaScript strings (by code unit) and on Go strings (by code point, which is their byte order). */
  predicate LexLeq(a: Text, b: Text) {
    a == [] || (b != [] && (a[0] < b[0] || (a[0] == b[0] && LexLeq(a[1..], b[1..]))))
  }

  predicate LexLess(a: Text, b: Text) {
    !LexLeq(b, a)
  }

  lemma {:induction false} LexTotal(a: Text, b: Text)
    ensures LexLeq(a, b) || LexLeq(b, a)
    ensures LexLeq(a, b) && LexLeq(b, a) ==> a == b
    ensures LexLeq(a, a)
  {
    if a != [] {
      LexTotal(a[1..], if b == [] then [] else b[1..]);
      if b != [] && a[0] == b[0] && a[1..] == b[1..] {
        assert a == [a[0]] + a[1..] == [b[0]] + b[1..] == b;
      }
    }
  }

  lemma {:induction false} LexTransitive(a: Text, b: Text, c: Text)
    requires LexLeq(a, b) && LexLeq(b, c)
    ensures LexLeq(a, c)
  {
    if a != [] && a[0] == b[0] == c[0] {
      LexTransitive(a[1..], b[1..], c[1..]);
    }
  }

  /** The first difference decides; without one the shorter text comes first. */
  lemma {:induction false} LexMeaning(a: Text, b: Text)
    ensures LexLeq(a, b) <==> a <= b || exists i :: 0 <= i < |a| && i < |b| && a[..i] == b[..i] && a[i] < b[i]
  {
    if a != [] && b != [] && a[0] == b[0] {
      LexMeaning(a[1..], b[1..]);
      assert a == [a[0]] + a[1..] && b == [b[0]] + b[1..];
      forall i | 1 <= i <= |a| && i <= |b| ensures a[..i] == b[..i] <==> a[1..][..i - 1] == b[1..][..i - 1] {
        assert a[..i] == [a[0]] + a[1..][..i - 1] && b[..i] == [b[0]] + b[1..][..i - 1];
      }
      if i :| 0 <= i < |a[1..]| && i < |b[1..]| && a[1..][..i] == b[1..][..i] && a[1..][i] < b[1..][i] {
        assert a[..i + 1] == b[..i + 1] && a[i + 1] < b[i + 1];
      }
      if i :| 0 <= i < |a| && i < |b| && a[..i] == b[..i] && a[i] < b[i] {
        assert a[1..][..i - 1] == b[1..][..i - 1] && a[1..][i - 1] < b[1..][i - 1];
      }
    } else if a != [] && b != [] && a[0] < b[0] {
      assert a[..0] == b[..0];
    }
  }

  lemma LexLessTransitive(a: Text, b: Text, c: Text)
    requires (LexLess(a, b) && LexLeq(b, c)) || (LexLeq(a, b) && LexLess(b, c))
    ensures LexLess(a, c)
  {
    LexTotal(a, b);
    LexTotal(b, c);
    if LexLeq(c, a) {
      if LexLess(a, b) {
        LexTransitive(b, c, a);
      } else {
        LexTransitive(c, a, b);
      }
    }
  }

  /** The white space `strings.TrimSpace` removes. */
  predicate IsSpace(c: CodeUnit) {
    9 <= c <= 13 || c == 32 || c == 0x85 || c == 0xA0 || c == 0x1680 || 0x2000 <= c <= 0x200A
    || c == 0x2028 || c == 0x2029 || c == 0x202F || c == 0x205F || c == 0x3000
  }

  function TrimLeft(s: Text): Text {
    if s != [] && IsSpace(s[0]) then TrimLeft(s[1..]) else s
  }

  function TrimRight(s: Text): Text {
    if s != [] && IsSpace(s[|s| - 1]) then TrimRight(s[..|s| - 1]) else s
  }

  /** `strings.TrimSpace` */
  function Trim(s: Text): Text {
    TrimRight(TrimLeft(s))
  }

  predicate AllSpace(s: Text) {
    forall c :: c in s ==> IsSpace(c)
  }

  lemma {:induction false} TrimLeftMeaning(s: Text) returns (front: Text)
    ensures s == front + TrimLeft(s) && AllSpace(front)
    ensures TrimLeft(s) != [] ==> !IsSpace(TrimLeft(s)[0])
  {
    if s != [] && IsSpace(s[0]) {
      var rest := TrimLeftMeaning(s[1..]);
      front := [s[0]] + rest;
    } else {
      front := [];
    }
  }

  lemma {:induction false} TrimRightMeaning(s: Text) returns (back: Text)
    ensures s == TrimRight(s) + back && AllSpace(back)
    ensures TrimRight(s) != [] ==> !IsSpace(TrimRight(s)[|TrimRight(s)| - 1])
  {
    if s != [] && IsSpace(s[|s| - 1]) {
      var rest := TrimRightMeaning(s[..|s| - 1]);
      back := rest + [s[|s| - 1]];
    } else {
      back := [];
    }
  }

  /** Trimming takes white space off both ends and leaves none there. */
  lemma TrimMeaning(s: Text) returns (front: Text, back: Text)
    ensures s == front + Trim(s) + back && AllSpace(front) && AllSpace(back)
    ensures Trim(s) != [] ==> !IsSpace(Trim(s)[0]) && !IsSpace(Trim(s)[|Trim(s)| - 1])
  {
    front := TrimLeftMeaning(s);
    back := TrimRightMeaning(TrimLeft(s));
  }

  /** Where the first occurrence of `u` stands: `u` does not occur in the text before it. */
  lemma {:induction false} SplitAtFirst(a: Text, b: Text, x: Text, y: Text, u: CodeUnit)
    requires u !in a && u !in b
    requires a + [u] + x == b + [u] + y
    ensures a == b && x == y
  {
    var l, r := a + [u] + x, b + [u] + y;
    assert l[|a|] == u && r[|b|] == u;
    assert l[..|a|] == a && r[..|b|] == b;
    assert a == l[..|a|] == r[..|b|] == b;
    assert x == l[|a| + 1..] == r[|b| + 1..] == y;
  }

  /** Where the last occurrence of `u` stands: `u` does not occur in the text after it. */
  lemma {:induction false} SplitAtLast(a: Text, b: Text, x: Text, y: Text, u: CodeUnit)
    requires u !in x && u !in y
    requires a + [u] + x == b + [u] + y
    ensures a == b && x == y
  {
    var l, r := a + [u] + x, b + [u] + y;
    assert l[|a|] == u && r[|b|] == u;
    assert l[|a| + 1..] == x && r[|b| + 1..] == y;
    assert a == l[..|a|] == r[..|b|] == b;
    assert x == l[|a| + 1..] == r[|b| + 1..] == y;
  }
}
