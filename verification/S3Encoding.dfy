/** The text encodings behind the signature of an S3 request (pkg/storage/s3.go). */
module S3Encoding {
  import opened Texts
  import opened Sorting

  // `uriEncode`, `canonicalQueryString` and `encodePath`, on Go strings, which are sequences of bytes.

  type Byte = x: int | 0 <= x < 256
  type Bytes = seq<Byte>

  datatype Decoded = Malformed | Plain(bytes: Bytes)

  const PERCENT: Byte := 37
  const AMPERSAND: Byte := 38
  const SLASH: Byte := 47
  const EQUALS: Byte := 61

  // ---------------------------------------------------------------- percent-encoding

  /** Section 2.3 of RFC 3986. */
  predicate Unreserved(ch: Byte) {
    65 <= ch <= 90 || 97 <= ch <= 122 || 48 <= ch <= 57 || ch == 45 || ch == 95 || ch == 46 || ch == 126
  }

  predicate Intact(ch: Byte, encodeSlash: bool) {
    Unreserved(ch) || (ch == SLASH && !encodeSlash)
  }

  function UpperHex(n: int): Byte
    requires 0 <= n < 16
  {
    if n < 10 then 48 + n else 55 + n
  }

  function EncodeByte(ch: Byte, encodeSlash: bool): Bytes {
    if Intact(ch, encodeSlash) then [ch] else [PERCENT, UpperHex(ch / 16), UpperHex(ch % 16)]
  }

  function UriEncode(s: Bytes, encodeSlash: bool): Bytes {
    if s == [] then [] else EncodeByte(s[0], encodeSlash) + UriEncode(s[1..], encodeSlash)
  }

  /** Either case, as section 2.1 of RFC 3986 asks of readers; 16 stands for no hexadecimal digit. */
  function HexValue(ch: Byte): (n: int)
    ensures 0 <= n <= 16
  {
    if 48 <= ch <= 57 then ch - 48
    else if 65 <= ch <= 70 then ch - 55
    else if 97 <= ch <= 102 then ch - 87
    else 16
  }

  predicate Triplet(s: Bytes) {
    |s| >= 3 && s[0] == PERCENT && HexValue(s[1]) < 16 && HexValue(s[2]) < 16
  }

  function TripletValue(s: Bytes): Byte
    requires Triplet(s)
  {
    HexValue(s[1]) * 16 + HexValue(s[2])
  }

  /** Percent-decoding. */
  function Decode(s: Bytes): Decoded
    decreases |s|
  {
    if s == [] then Plain([])
    else if Triplet(s) then Prefixed(TripletValue(s), Decode(s[3..]))
    else if s[0] == PERCENT then Malformed
    else Prefixed(s[0], Decode(s[1..]))
  }

  function Prefixed(ch: Byte, rest: Decoded): Decoded {
    match rest
    case Malformed => Malformed
    case Plain(bytes) => Plain([ch] + bytes)
  }

  /** A text of bytes left intact, and of upper-case triplets for bytes that are not. */
  predicate Normal(s: Bytes, encodeSlash: bool)
    decreases |s|
  {
    || s == []
    || (Intact(s[0], encodeSlash) && Normal(s[1..], encodeSlash))
    || (Triplet(s) && s[1] == UpperHex(HexValue(s[1])) && s[2] == UpperHex(HexValue(s[2]))
        && !Intact(TripletValue(s), encodeSlash) && Normal(s[3..], encodeSlash))
  }

  /** The letters, digits and four marks of section 2.3 of RFC 3986 stand for themselves; any other byte, a slash only
      where it is to be encoded, becomes `%` and two upper-case hexadecimal digits. */
  lemma EncodedByte(ch: Byte, encodeSlash: bool)
    ensures var c := ch as char;
            EncodeByte(ch, encodeSlash)
            == if 'A' <= c <= 'Z' || 'a' <= c <= 'z' || '0' <= c <= '9' || c == '-' || c == '.' || c == '_' || c == '~'
                  || (c == '/' && !encodeSlash)
               then [ch]
               else ['%' as int, HEX_DIGITS[ch / 16] as int, HEX_DIGITS[ch % 16] as int]
  {
    UpperHexDigit(ch / 16);
    UpperHexDigit(ch % 16);
  }

  const HEX_DIGITS := "0123456789ABCDEF"

  lemma UpperHexDigit(n: int)
    requires 0 <= n < 16
    ensures UpperHex(n) == HEX_DIGITS[n] as int
  {
  }

  /** Decoding undoes encoding, for every byte string, and what is encoded is normal. */
  lemma {:induction false} DecodeEncode(s: Bytes, encodeSlash: bool)
    ensures Decode(UriEncode(s, encodeSlash)) == Plain(s)
    ensures Normal(UriEncode(s, encodeSlash), encodeSlash)
    decreases |s|
  {
    if s != [] {
      DecodeEncode(s[1..], encodeSlash);
    }
  }

  /** And encoding undoes decoding, for every normal text: the normal texts are exactly the encoded ones. */
  lemma {:induction false} EncodeDecode(s: Bytes, encodeSlash: bool)
    requires Normal(s, encodeSlash)
    ensures Decode(s).Plain? && UriEncode(Decode(s).bytes, encodeSlash) == s
    decreases |s|
  {
    if s == [] {
    } else if Intact(s[0], encodeSlash) {
      EncodeDecode(s[1..], encodeSlash);
      assert s == [s[0]] + s[1..];
    } else {
      EncodeDecode(s[3..], encodeSlash);
      HexOfTriplet(s);
      assert s == [s[0], s[1], s[2]] + s[3..];
    }
  }

  lemma HexOfTriplet(s: Bytes)
    requires Triplet(s)
    ensures TripletValue(s) / 16 == HexValue(s[1]) && TripletValue(s) % 16 == HexValue(s[2])
  {
  }

  /** No encoded text holds a separator: a byte that is neither left intact nor used by triplets. */
  lemma {:induction false} NoSeparator(s: Bytes, encodeSlash: bool, sep: Byte)
    requires !Intact(sep, encodeSlash) && sep != PERCENT
    ensures sep !in UriEncode(s, encodeSlash)
    decreases |s|
  {
    if s != [] {
      NoSeparator(s[1..], encodeSlash, sep);
      assert sep !in EncodeByte(s[0], encodeSlash);
    }
  }

  lemma {:induction false} EncodeAppend(s: Bytes, t: Bytes, encodeSlash: bool)
    ensures UriEncode(s + t, encodeSlash) == UriEncode(s, encodeSlash) + UriEncode(t, encodeSlash)
    decreases |s|
  {
    if s == [] {
      assert s + t == t;
    } else {
      EncodeAppend(s[1..], t, encodeSlash);
      assert s + t == [s[0]] + (s[1..] + t);
      Regroup(EncodeByte(s[0], encodeSlash), UriEncode(s[1..], encodeSlash), UriEncode(t, encodeSlash));
    }
  }

  lemma Regroup(a: Bytes, b: Bytes, c: Bytes)
    ensures (a + b) + c == a + (b + c)
  {
  }

  // ---------------------------------------------------------------- splitting and joining

  /** `strings.Split` by one byte. */
  function Split(s: Bytes, sep: Byte): (parts: seq<Bytes>)
    ensures parts != []
  {
    if s == [] then [[]]
    else
      var rest := Split(s[1..], sep);
      if s[0] == sep then [[]] + rest else [[s[0]] + rest[0]] + rest[1..]
  }

  /** `strings.Join` */
  function Join(parts: seq<Bytes>, sep: Byte): Bytes {
    if parts == [] then []
    else if |parts| == 1 then parts[0]
    else parts[0] + [sep] + Join(parts[1..], sep)
  }

  lemma {:induction false} SplitPart(part: Bytes, sep: Byte)
    requires sep !in part
    ensures Split(part, sep) == [part]
    decreases |part|
  {
    if part != [] {
      SplitPart(part[1..], sep);
      assert [part[0]] + part[1..] == part;
    }
  }

  lemma {:induction false} SplitFirst(part: Bytes, rest: Bytes, sep: Byte)
    requires sep !in part
    ensures Split(part + [sep] + rest, sep) == [part] + Split(rest, sep)
    decreases |part|
  {
    var s := part + [sep] + rest;
    if part == [] {
      assert s[0] == sep && s[1..] == rest;
    } else {
      SplitFirst(part[1..], rest, sep);
      assert s[1..] == part[1..] + [sep] + rest;
      assert [part[0]] + part[1..] == part;
    }
  }

  /** Splitting undoes joining parts that do not hold the separator. */
  lemma {:induction false} SplitJoin(parts: seq<Bytes>, sep: Byte)
    requires parts != [] && forall i :: 0 <= i < |parts| ==> sep !in parts[i]
    ensures Split(Join(parts, sep), sep) == parts
    decreases |parts|
  {
    if |parts| == 1 {
      SplitPart(parts[0], sep);
    } else {
      SplitJoin(parts[1..], sep);
      SplitFirst(parts[0], Join(parts[1..], sep), sep);
    }
  }

  // ---------------------------------------------------------------- paths

  function EncodedParts(parts: seq<Bytes>): seq<Bytes> {
    seq(|parts|, i requires 0 <= i < |parts| => UriEncode(parts[i], true))
  }

  function WithSlash(path: Bytes): Bytes {
    if path != [] && path[0] == SLASH then path else [SLASH] + path
  }

  function EncodePath(path: Bytes): Bytes {
    if path == [] then [SLASH] else WithSlash(Join(EncodedParts(Split(path, SLASH)), SLASH))
  }

  lemma SegmentGrows(ch: Byte, parts: seq<Bytes>)
    requires parts != [] && ch != SLASH
    ensures Join(EncodedParts([[ch] + parts[0]] + parts[1..]), SLASH)
         == EncodeByte(ch, false) + Join(EncodedParts(parts), SLASH)
  {
    assert EncodedParts(parts) == [UriEncode(parts[0], true)] + EncodedParts(parts[1..]);
    assert EncodedParts([[ch] + parts[0]] + parts[1..])
        == [UriEncode([ch] + parts[0], true)] + EncodedParts(parts[1..]);
  }

  /** Encoding segment by segment is encoding with the slashes left intact. */
  lemma {:induction false} SegmentsEncoded(path: Bytes)
    ensures Join(EncodedParts(Split(path, SLASH)), SLASH) == UriEncode(path, false)
    decreases |path|
  {
    if path == [] {
      assert EncodedParts([[]]) == [[]];
    } else {
      SegmentsEncoded(path[1..]);
      var rest := Split(path[1..], SLASH);
      if path[0] == SLASH {
        assert EncodedParts([[]] + rest) == [[]] + EncodedParts(rest);
      } else {
        SegmentGrows(path[0], rest);
      }
    }
  }

  /** An encoded path is the path with its leading slash, encoded with the slashes left intact, so decoding gives
      back that path. */
  lemma PathKeepsItsSegments(path: Bytes)
    ensures EncodePath(path) == UriEncode(WithSlash(path), false)
    ensures Decode(EncodePath(path)) == Plain(WithSlash(path))
  {
    SegmentsEncoded(path);
    DecodeEncode(WithSlash(path), false);
    if path != [] {
      var encoded := UriEncode(path, false);
      assert encoded == EncodeByte(path[0], false) + UriEncode(path[1..], false);
    }
  }

  /** Two paths are encoded alike exactly when they differ at most in a leading slash. */
  lemma PathsEncodedAlike(path: Bytes, other: Bytes)
    ensures EncodePath(path) == EncodePath(other) <==> WithSlash(path) == WithSlash(other)
  {
    PathKeepsItsSegments(path);
    PathKeepsItsSegments(other);
  }

  lemma EncodedSegments(path: Bytes)
    ensures var encoded, segments := Split(UriEncode(path, false), SLASH), Split(path, SLASH);
            |encoded| == |segments| && forall i :: 0 <= i < |segments| ==> Decode(encoded[i]) == Plain(segments[i])
  {
    var segments := Split(path, SLASH);
    SegmentsEncoded(path);
    forall i | 0 <= i < |segments| ensures SLASH !in EncodedParts(segments)[i] {
      NoSeparator(segments[i], true, SLASH);
    }
    SplitJoin(EncodedParts(segments), SLASH);
    forall i | 0 <= i < |segments| ensures Decode(EncodedParts(segments)[i]) == Plain(segments[i]) {
      DecodeEncode(segments[i], true);
    }
  }

  /** The segments of the encoded path decode to the segments of the path with its leading slash. */
  lemma SegmentsDecoded(path: Bytes)
    ensures var encoded, segments := Split(EncodePath(path), SLASH), Split(WithSlash(path), SLASH);
            |encoded| == |segments| && forall i :: 0 <= i < |segments| ==> Decode(encoded[i]) == Plain(segments[i])
  {
    PathKeepsItsSegments(path);
    EncodedSegments(WithSlash(path));
  }

  // ---------------------------------------------------------------- queries

  predicate ByteLeq(a: Bytes, b: Bytes) {
    LexLeq(a, b)
  }

  lemma ByteLeqTotal()
    ensures TotalPreorder(ByteLeq)
    ensures forall a: Bytes, b: Bytes :: ByteLeq(a, b) && ByteLeq(b, a) ==> a == b
  {
    forall a: Bytes, b: Bytes
      ensures ByteLeq(a, b) || ByteLeq(b, a)
      ensures ByteLeq(a, b) && ByteLeq(b, a) ==> a == b
    {
      LexTotal(a, b);
    }
    forall a: Bytes, b: Bytes, c: Bytes | ByteLeq(a, b) && ByteLeq(b, c) ensures ByteLeq(a, c) {
      LexTransitive(a, b, c);
    }
  }

  function Pair(key: Bytes, value: Bytes): Bytes {
    UriEncode(key, true) + [EQUALS] + UriEncode(value, true)
  }

  function Pairs(params: map<Bytes, Bytes>, keys: seq<Bytes>): seq<Bytes>
    requires forall key :: key in keys ==> key in params
  {
    seq(|keys|, i requires 0 <= i < |keys| => Pair(keys[i], params[keys[i]]))
  }

  /** An order in which the map may hand out its keys. */
  ghost predicate IsOrder(order: seq<Bytes>, params: map<Bytes, Bytes>) {
    Distinct(order) && forall key :: key in order <==> key in params
  }

  lemma SortedOrder(order: seq<Bytes>, params: map<Bytes, Bytes>)
    requires IsOrder(order, params)
    ensures IsOrder(StableSort(order, ByteLeq), params) && Sorted(StableSort(order, ByteLeq), ByteLeq)
  {
    ByteLeqTotal();
    StableSortSorted(order, ByteLeq);
    StableSortMembers(order, ByteLeq);
    DistinctFromMultiset(order, StableSort(order, ByteLeq));
  }

  ghost function CanonicalQuery(params: map<Bytes, Bytes>, order: seq<Bytes>): Bytes
    requires IsOrder(order, params)
  {
    SortedOrder(order, params);
    Join(Pairs(params, StableSort(order, ByteLeq)), AMPERSAND)
  }

  lemma {:induction false} SameElements(a: seq<Bytes>, b: seq<Bytes>)
    requires Distinct(a) && Distinct(b) && forall x :: x in a <==> x in b
    ensures multiset(a) == multiset(b)
  {
    DistinctCounts(a);
    DistinctCounts(b);
    forall x ensures multiset(a)[x] == multiset(b)[x] {
      assert x in a <==> x in multiset(a);
      assert x in b <==> x in multiset(b);
    }
  }

  /** The query string says the map, whatever order the map hands out its keys in. */
  lemma OrderDoesNotMatter(params: map<Bytes, Bytes>, order: seq<Bytes>, other: seq<Bytes>)
    requires IsOrder(order, params) && IsOrder(other, params)
    ensures CanonicalQuery(params, order) == CanonicalQuery(params, other)
  {
    var a, b := StableSort(order, ByteLeq), StableSort(other, ByteLeq);
    SortedOrder(order, params);
    SortedOrder(other, params);
    ByteLeqTotal();
    SameElements(a, b);
    SortedUnique(a, b, ByteLeq);
  }

  /** Byte by byte: the first difference decides; without one the shorter key comes first. */
  ghost predicate Before(a: Bytes, b: Bytes) {
    a < b || exists i :: 0 <= i < |a| && i < |b| && a[..i] == b[..i] && a[i] < b[i]
  }

  /** The query string lists every key of the map once, each encoded with its value, and the keys ascend byte by
      byte. */
  lemma QueryAscends(params: map<Bytes, Bytes>, order: seq<Bytes>) returns (keys: seq<Bytes>)
    requires IsOrder(order, params)
    ensures forall key :: key in keys <==> key in params
    ensures forall i, j :: 0 <= i < j < |keys| ==> Before(keys[i], keys[j])
    ensures CanonicalQuery(params, order)
            == Join(seq(|keys|, i requires 0 <= i < |keys| =>
                          UriEncode(keys[i], true) + ['=' as int] + UriEncode(params[keys[i]], true)), '&' as int)
  {
    keys := StableSort(order, ByteLeq);
    SortedOrder(order, params);
    assert Pairs(params, keys)
        == seq(|keys|, i requires 0 <= i < |keys| =>
                 UriEncode(keys[i], true) + ['=' as int] + UriEncode(params[keys[i]], true));
    forall i, j | 0 <= i < j < |keys| ensures Before(keys[i], keys[j]) {
      assert ByteLeq(keys[i], keys[j]) && keys[i] != keys[j];
      LexMeaning(keys[i], keys[j]);
    }
  }

  /** What one `key=value` part adds to what the parts before it say. */
  function ParsedPart(part: Bytes, before: map<Bytes, Bytes>): map<Bytes, Bytes> {
    var sides := Split(part, EQUALS);
    if |sides| == 2 && Decode(sides[0]).Plain? && Decode(sides[1]).Plain?
    then before[Decode(sides[0]).bytes := Decode(sides[1]).bytes] else before
  }

  function ParsedParts(parts: seq<Bytes>): map<Bytes, Bytes> {
    if parts == [] then map[] else ParsedPart(parts[|parts| - 1], ParsedParts(parts[..|parts| - 1]))
  }

  /** A reader of query strings. */
  function ParseQuery(query: Bytes): map<Bytes, Bytes> {
    if query == [] then map[] else ParsedParts(Split(query, AMPERSAND))
  }

  lemma PairParsed(key: Bytes, value: Bytes, before: map<Bytes, Bytes>)
    ensures ParsedPart(Pair(key, value), before) == before[key := value]
    ensures AMPERSAND !in Pair(key, value)
  {
    NoSeparator(key, true, EQUALS);
    NoSeparator(value, true, EQUALS);
    NoSeparator(key, true, AMPERSAND);
    NoSeparator(value, true, AMPERSAND);
    SplitFirst(UriEncode(key, true), UriEncode(value, true), EQUALS);
    SplitPart(UriEncode(value, true), EQUALS);
    DecodeEncode(key, true);
    DecodeEncode(value, true);
  }

  function Restricted(params: map<Bytes, Bytes>, keys: seq<Bytes>): map<Bytes, Bytes> {
    map key | key in params && key in keys :: params[key]
  }

  lemma RestrictedMore(params: map<Bytes, Bytes>, keys: seq<Bytes>, key: Bytes)
    requires key in params
    ensures Restricted(params, keys + [key]) == Restricted(params, keys)[key := params[key]]
  {
  }

  lemma {:induction false} PairsParsed(params: map<Bytes, Bytes>, keys: seq<Bytes>)
    requires forall key :: key in keys ==> key in params
    ensures ParsedParts(Pairs(params, keys)) == Restricted(params, keys)
    decreases |keys|
  {
    if keys != [] {
      var init, last := keys[..|keys| - 1], keys[|keys| - 1];
      assert keys == init + [last];
      PairsParsed(params, init);
      assert Pairs(params, keys)[..|keys| - 1] == Pairs(params, init);
      PairParsed(last, params[last], Restricted(params, init));
      RestrictedMore(params, init, last);
    }
  }

  /** Parsing the canonical query string gives back the map. */
  lemma QueryRoundTrip(params: map<Bytes, Bytes>, order: seq<Bytes>)
    requires IsOrder(order, params)
    ensures ParseQuery(CanonicalQuery(params, order)) == params
  {
    SortedOrder(order, params);
    var keys := StableSort(order, ByteLeq);
    var pairs := Pairs(params, keys);
    if keys == [] {
      assert params == map[];
    } else {
      forall i | 0 <= i < |pairs| ensures AMPERSAND !in pairs[i] {
        PairParsed(keys[i], params[keys[i]], map[]);
      }
      SplitJoin(pairs, AMPERSAND);
      PairsParsed(params, keys);
      assert Restricted(params, keys) == params;
      assert EQUALS in pairs[0];
      JoinNotEmpty(pairs, AMPERSAND);
    }
  }

  lemma JoinNotEmpty(parts: seq<Bytes>, sep: Byte)
    requires parts != [] && parts[0] != []
    ensures Join(parts, sep) != []
  {
  }

  // ---------------------------------------------------------------- as the source does it

  lemma EncodeMore(s: Bytes, i: nat, encodeSlash: bool)
    requires i < |s|
    ensures UriEncode(s[..i + 1], encodeSlash) == UriEncode(s[..i], encodeSlash) + EncodeByte(s[i], encodeSlash)
  {
    assert s[..i + 1] == s[..i] + [s[i]];
    EncodeAppend(s[..i], [s[i]], encodeSlash);
    assert [s[i]] + [] == [s[i]];
    assert EncodeByte(s[i], encodeSlash) + [] == EncodeByte(s[i], encodeSlash);
  }

  method UriEncodeLoop(s: Bytes, encodeSlash: bool) returns (builder: Bytes)
    ensures builder == UriEncode(s, encodeSlash)
  {
    builder := [];
    for i := 0 to |s|
      invariant builder == UriEncode(s[..i], encodeSlash)
    {
      EncodeMore(s, i, encodeSlash);
      var ch := s[i];
      if Unreserved(ch) {
        builder := builder + [ch];
      } else if ch == SLASH && !encodeSlash {
        builder := builder + [ch];
      } else {
        builder := builder + [PERCENT];
        builder := builder + [UpperHex(ch / 16), UpperHex(ch % 16)];
      }
    }
    assert s[..|s|] == s;
  }

  method EncodePathLoop(path: Bytes) returns (encoded: Bytes)
    ensures encoded == EncodePath(path)
  {
    if path == [] {
      return [SLASH];
    }
    var segments := Split(path, SLASH);
    ghost var before := segments;
    for i := 0 to |segments|
      invariant |segments| == |before|
      invariant forall k :: 0 <= k < i ==> segments[k] == UriEncode(before[k], true)
      invariant forall k :: i <= k < |segments| ==> segments[k] == before[k]
    {
      var segment := UriEncodeLoop(segments[i], true);
      segments := segments[i := segment];
    }
    assert segments == EncodedParts(before);
    encoded := Join(segments, SLASH);
    if encoded == [] || encoded[0] != SLASH {
      encoded := [SLASH] + encoded;
    }
  }

  /** The order stands for the one in which the map hands out its keys. */
  method CanonicalQueryString(params: map<Bytes, Bytes>, order: seq<Bytes>) returns (query: Bytes)
    requires IsOrder(order, params)
    ensures query == CanonicalQuery(params, order)
  {
    var keys := [];
    for i := 0 to |order|
      invariant keys == order[..i]
    {
      keys := keys + [order[i]];
    }
    assert order[..|order|] == order;
    SortedOrder(order, params);
    keys := StableSort(keys, ByteLeq);
    var parts := PairsLoop(params, keys);
    query := Join(parts, AMPERSAND);
  }

  method PairsLoop(params: map<Bytes, Bytes>, keys: seq<Bytes>) returns (parts: seq<Bytes>)
    requires forall key :: key in keys ==> key in params
    ensures parts == Pairs(params, keys)
  {
    parts := [];
    for i := 0 to |keys|
      invariant |parts| == i
      invariant forall k :: 0 <= k < i ==> parts[k] == Pair(keys[k], params[keys[k]])
    {
      var key := UriEncodeLoop(keys[i], true);
      var value := UriEncodeLoop(params[keys[i]], true);
      parts := parts + [key + [EQUALS] + value];
    }
  }
}
