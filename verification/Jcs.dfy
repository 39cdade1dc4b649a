/** RFC 8785 serialization of flat objects whose values are strings or null, down to UTF-8 bytes: the
    form every handshake payload is signed in. */
module Jcs {
  import opened Bytes
  import opened Sorting

  datatype Member = Member(key: string, value: Option<string>)

  // ---------------------------------------------------------------- section 3.2.3: property order

  /** The UTF-16 code units of one scalar value. */
  function Units(c: char): seq<int> {
    var v := c as int;
    if v < 0x10000 then [v] else [0xD800 + (v - 0x10000) / 0x400, 0xDC00 + (v - 0x10000) % 0x400]
  }

  function Utf16(s: string): seq<int> {
    if s == [] then [] else Units(s[0]) + Utf16(s[1..])
  }

  predicate LexLess(a: seq<int>, b: seq<int>) {
    b != [] && (a == [] || a[0] < b[0] || (a[0] == b[0] && LexLess(a[1..], b[1..])))
  }

  predicate KeyLess(a: Member, b: Member) {
    LexLess(Utf16(a.key), Utf16(b.key))
  }

  lemma {:induction false} LexFacts(a: seq<int>, b: seq<int>, c: seq<int>)
    ensures !LexLess(a, a)
    ensures LexLess(a, b) && LexLess(b, c) ==> LexLess(a, c)
    ensures a == b || LexLess(a, b) || LexLess(b, a)
  {
    if a != [] { LexFacts(a[1..], if b == [] then [] else b[1..], if c == [] then [] else c[1..]); }
    if a != [] && b != [] { assert a == [a[0]] + a[1..] && b == [b[0]] + b[1..]; }
  }

  lemma UnitsPrefixFree(c: char, d: char, s: seq<int>, t: seq<int>)
    requires Units(c) + s == Units(d) + t
    ensures c == d && s == t
  {
    var x, y := Units(c) + s, Units(d) + t;
    assert x[0] == Units(c)[0] && y[0] == Units(d)[0];
    if |Units(c)| == 2 && |Units(d)| == 2 {
      assert x[1] == Units(c)[1] && y[1] == Units(d)[1];
      assert (c as int - 0x10000) / 0x400 == (d as int - 0x10000) / 0x400;
    }
    assert s == x[|Units(c)|..] && t == y[|Units(d)|..];
  }

  lemma Utf16Empty(a: string)
    ensures a == [] <==> Utf16(a) == []
  {
    if a != [] { assert |Units(a[0])| > 0; }
  }

  lemma {:induction false} Utf16Injective(a: string, b: string)
    requires Utf16(a) == Utf16(b)
    ensures a == b
  {
    Utf16Empty(a);
    Utf16Empty(b);
    if a != [] {
      UnitsPrefixFree(a[0], b[0], Utf16(a[1..]), Utf16(b[1..]));
      Utf16Injective(a[1..], b[1..]);
      assert a == [a[0]] + a[1..] && b == [b[0]] + b[1..];
    }
  }

  lemma KeyOrder()
    ensures StrictOrder(KeyLess)
  {
    forall x: Member ensures !KeyLess(x, x) { LexFacts(Utf16(x.key), [], []); }
    forall x: Member, y: Member, z: Member | KeyLess(x, y) && KeyLess(y, z) ensures KeyLess(x, z) {
      LexFacts(Utf16(x.key), Utf16(y.key), Utf16(z.key));
    }
  }

  ghost predicate DistinctKeys(ms: seq<Member>) {
    forall i, j :: 0 <= i < j < |ms| ==> ms[i].key != ms[j].key
  }

  lemma DistinctComparable(ms: seq<Member>)
    requires DistinctKeys(ms)
    ensures Comparable(KeyLess, ms)
  {
    forall i, j | 0 <= i < j < |ms| ensures KeyLess(ms[i], ms[j]) || KeyLess(ms[j], ms[i]) {
      LexFacts(Utf16(ms[i].key), Utf16(ms[j].key), []);
      if Utf16(ms[i].key) == Utf16(ms[j].key) { Utf16Injective(ms[i].key, ms[j].key); }
    }
  }

  // ---------------------------------------------------------------- section 3.2.2.2: strings

  function Escape(c: char): string {
    var v := c as int;
    if c == '\"' then "\\\""
    else if c == '\\' then "\\\\"
    else if v == 8 then "\\b"
    else if v == 9 then "\\t"
    else if v == 10 then "\\n"
    else if v == 12 then "\\f"
    else if v == 13 then "\\r"
    else if v < 32 then "\\u00" + [DigitChar(v / 16), DigitChar(v % 16)]
    else [c]
  }

  function EscapeAll(s: string): string {
    if s == [] then [] else Escape(s[0]) + EscapeAll(s[1..])
  }

  function Quote(s: string): string {
    "\"" + EscapeAll(s) + "\""
  }

  datatype Read = Read(c: char, width: nat)

  /** The character an escaped text begins with and the room it takes; the inverse of `Escape`. */
  function Unescape(x: string): Read
    requires x != []
  {
    if x[0] != '\\' || |x| < 2 then Read(x[0], 1)
    else if x[1] == 'b' then Read(8 as char, 2)
    else if x[1] == 't' then Read(9 as char, 2)
    else if x[1] == 'n' then Read(10 as char, 2)
    else if x[1] == 'f' then Read(12 as char, 2)
    else if x[1] == 'r' then Read(13 as char, 2)
    else if x[1] == 'u' && |x| >= 6 && DigitValue(x[4]).Some? && DigitValue(x[5]).Some? then
      Read((DigitValue(x[4]).value * 16 + DigitValue(x[5]).value) as char, 6)
    else Read(x[1], 2)
  }

  lemma EscapeRead(c: char, s: string)
    ensures Escape(c) + s != [] && Unescape(Escape(c) + s) == Read(c, |Escape(c)|)
  {
    hide DigitChar, DigitValue;
    var v := c as int;
    if v < 32 {
      DigitRoundTrip(v / 16);
      DigitRoundTrip(v % 16);
    }
    assert forall i :: 0 <= i < |Escape(c)| ==> (Escape(c) + s)[i] == Escape(c)[i];
  }

  lemma EscapePrefixFree(c: char, d: char, s: string, t: string)
    requires Escape(c) + s == Escape(d) + t
    ensures c == d && s == t
  {
    hide Escape, Unescape;
    EscapeRead(c, s);
    EscapeRead(d, t);
    assert (Escape(c) + s)[|Escape(c)|..] == s && (Escape(d) + t)[|Escape(d)|..] == t;
  }

  lemma EscapeNeverQuote(c: char)
    ensures |Escape(c)| > 0 && Escape(c)[0] != '\"'
  {}

  lemma EscapedStart(a: string, x: string)
    ensures |EscapeAll(a) + "\"" + x| > 0
    ensures a == [] <==> (EscapeAll(a) + "\"" + x)[0] == '\"'
  {
    hide Escape;
    if a != [] {
      EscapeNeverQuote(a[0]);
      assert (EscapeAll(a) + "\"" + x)[0] == Escape(a[0])[0];
    }
  }

  /** A quoted string ends at its own closing quote, whatever follows. */
  lemma {:induction false} EscapeAllEnds(a: string, b: string, x: string, y: string)
    requires EscapeAll(a) + "\"" + x == EscapeAll(b) + "\"" + y
    ensures a == b && x == y
    decreases |a|
  {
    hide Escape;
    var l, r := EscapeAll(a) + "\"" + x, EscapeAll(b) + "\"" + y;
    EscapedStart(a, x);
    EscapedStart(b, y);
    if a == [] {
      assert l[1..] == x && r[1..] == y;
    } else {
      var s, t := EscapeAll(a[1..]) + "\"" + x, EscapeAll(b[1..]) + "\"" + y;
      assert l == Escape(a[0]) + s && r == Escape(b[0]) + t;
      EscapePrefixFree(a[0], b[0], s, t);
      EscapeAllEnds(a[1..], b[1..], x, y);
      assert a == [a[0]] + a[1..] && b == [b[0]] + b[1..];
    }
  }

  lemma QuoteEnds(a: string, b: string, x: string, y: string)
    requires Quote(a) + x == Quote(b) + y
    ensures a == b && x == y
  {
    hide EscapeAll;
    var l, r := Quote(a) + x, Quote(b) + y;
    assert l[1..] == EscapeAll(a) + "\"" + x && r[1..] == EscapeAll(b) + "\"" + y;
    EscapeAllEnds(a, b, x, y);
  }

  // ---------------------------------------------------------------- objects

  function ValueText(v: Option<string>): string {
    if v.Some? then Quote(v.value) else "null"
  }

  lemma ValueEnds(v: Option<string>, w: Option<string>, x: string, y: string)
    requires ValueText(v) + x == ValueText(w) + y
    ensures v == w && x == y
  {
    hide EscapeAll;
    var l, r := ValueText(v) + x, ValueText(w) + y;
    assert l[0] == ValueText(v)[0] && r[0] == ValueText(w)[0];
    if v.Some? {
      QuoteEnds(v.value, w.value, x, y);
    } else {
      assert l[4..] == x && r[4..] == y;
    }
  }

  function MemberText(m: Member): string {
    Quote(m.key) + (":" + ValueText(m.value))
  }

  lemma MemberEnds(m: Member, n: Member, x: string, y: string)
    requires MemberText(m) + x == MemberText(n) + y
    ensures m == n && x == y
  {
    hide Quote, ValueText;
    var u, v := ":" + (ValueText(m.value) + x), ":" + (ValueText(n.value) + y);
    assert MemberText(m) + x == Quote(m.key) + u && MemberText(n) + y == Quote(n.key) + v;
    QuoteEnds(m.key, n.key, u, v);
    assert u[1..] == ValueText(m.value) + x && v[1..] == ValueText(n.value) + y;
    ValueEnds(m.value, n.value, x, y);
  }

  /** The members after the first, each behind its comma, and the closing brace. */
  function Rest(ms: seq<Member>): string {
    if ms == [] then "}" else "," + (MemberText(ms[0]) + Rest(ms[1..]))
  }

  function ObjectText(ms: seq<Member>): string {
    if ms == [] then "{}" else "{" + (MemberText(ms[0]) + Rest(ms[1..]))
  }

  lemma {:induction false} RestInjective(a: seq<Member>, b: seq<Member>)
    requires Rest(a) == Rest(b)
    ensures a == b
  {
    hide MemberText;
    if a != [] && b != [] {
      assert Rest(a)[1..] == MemberText(a[0]) + Rest(a[1..]) && Rest(b)[1..] == MemberText(b[0]) + Rest(b[1..]);
      MemberEnds(a[0], b[0], Rest(a[1..]), Rest(b[1..]));
      RestInjective(a[1..], b[1..]);
      assert a == [a[0]] + a[1..] && b == [b[0]] + b[1..];
    } else {
      assert Rest(a)[0] == Rest(b)[0];
    }
  }

  lemma MemberStartsQuoted(m: Member)
    ensures |MemberText(m)| > 0 && MemberText(m)[0] == '\"'
  {}

  lemma ObjectStart(ms: seq<Member>)
    ensures |ObjectText(ms)| > 1 && (ms == [] <==> ObjectText(ms)[1] == '}')
  {
    hide MemberText, Rest;
    if ms != [] {
      MemberStartsQuoted(ms[0]);
      assert ObjectText(ms)[1] == MemberText(ms[0])[0];
    }
  }

  lemma ObjectInjective(a: seq<Member>, b: seq<Member>)
    requires ObjectText(a) == ObjectText(b)
    ensures a == b
  {
    hide MemberText, Rest;
    ObjectStart(a);
    ObjectStart(b);
    if a != [] {
      var x, y := MemberText(a[0]) + Rest(a[1..]), MemberText(b[0]) + Rest(b[1..]);
      assert ObjectText(a)[1..] == x && ObjectText(b)[1..] == y;
      MemberEnds(a[0], b[0], Rest(a[1..]), Rest(b[1..]));
      RestInjective(a[1..], b[1..]);
      assert a == [a[0]] + a[1..] && b == [b[0]] + b[1..];
    }
  }

  // ---------------------------------------------------------------- UTF-8

  function Utf8Char(c: char): seq<byte> {
    var v := c as int;
    if v < 0x80 then [v]
    else if v < 0x800 then [0xC0 + v / 0x40, 0x80 + v % 0x40]
    else if v < 0x10000 then [0xE0 + v / 0x1000, 0x80 + v / 0x40 % 0x40, 0x80 + v % 0x40]
    else [0xF0 + v / 0x40000, 0x80 + v / 0x1000 % 0x40, 0x80 + v / 0x40 % 0x40, 0x80 + v % 0x40]
  }

  function Utf8(s: string): seq<byte> {
    if s == [] then [] else Utf8Char(s[0]) + Utf8(s[1..])
  }

  /** The value a UTF-8 sequence spells; the inverse of `Utf8Char`. */
  function CodePoint(bs: seq<byte>): int {
    if |bs| == 1 then bs[0]
    else if |bs| == 2 then (bs[0] as int - 0xC0) * 0x40 + (bs[1] as int - 0x80)
    else if |bs| == 3 then
      (bs[0] as int - 0xE0) * 0x1000 + (bs[1] as int - 0x80) * 0x40 + (bs[2] as int - 0x80)
    else if |bs| == 4 then
      (bs[0] as int - 0xF0) * 0x40000 + (bs[1] as int - 0x80) * 0x1000 + (bs[2] as int - 0x80) * 0x40
      + (bs[3] as int - 0x80)
    else 0
  }

  function WidthOf(first: byte): nat {
    if first < 0x80 then 1 else if first < 0xE0 then 2 else if first < 0xF0 then 3 else 4
  }

  lemma Utf8CharFacts(c: char)
    ensures |Utf8Char(c)| > 0 && WidthOf(Utf8Char(c)[0]) == |Utf8Char(c)|
    ensures CodePoint(Utf8Char(c)) == c as int
  {
    Digits64(c as int);
  }

  lemma Digits64(v: nat)
    ensures v == v / 0x40 * 0x40 + v % 0x40
    ensures v == v / 0x1000 * 0x1000 + v / 0x40 % 0x40 * 0x40 + v % 0x40
    ensures v == v / 0x40000 * 0x40000 + v / 0x1000 % 0x40 * 0x1000 + v / 0x40 % 0x40 * 0x40 + v % 0x40
  {
    assert v / 0x40 / 0x40 == v / 0x1000;
    assert v / 0x1000 / 0x40 == v / 0x40000;
  }

  lemma Utf8PrefixFree(c: char, d: char, s: seq<byte>, t: seq<byte>)
    requires Utf8Char(c) + s == Utf8Char(d) + t
    ensures c == d && s == t
  {
    hide Utf8Char, WidthOf, CodePoint;
    var x, y := Utf8Char(c) + s, Utf8Char(d) + t;
    Utf8CharFacts(c);
    Utf8CharFacts(d);
    assert x[0] == Utf8Char(c)[0] && y[0] == Utf8Char(d)[0];
    assert x[..|Utf8Char(c)|] == Utf8Char(c) && y[..|Utf8Char(d)|] == Utf8Char(d);
    assert x[|Utf8Char(c)|..] == s && y[|Utf8Char(d)|..] == t;
  }

  lemma {:induction false} Utf8Injective(a: string, b: string)
    requires Utf8(a) == Utf8(b)
    ensures a == b
  {
    hide Utf8Char;
    if a != [] { Utf8CharFacts(a[0]); }
    if b != [] { Utf8CharFacts(b[0]); }
    if a != [] && b != [] {
      Utf8PrefixFree(a[0], b[0], Utf8(a[1..]), Utf8(b[1..]));
      Utf8Injective(a[1..], b[1..]);
      assert a == [a[0]] + a[1..] && b == [b[0]] + b[1..];
    }
  }

  // ---------------------------------------------------------------- canonical bytes

  /** `jcs(obj)` for a flat object. */
  function Canon(ms: seq<Member>): seq<byte> {
    Utf8(ObjectText(Sort(KeyLess, ms)))
  }

  /** For objects with distinct property names, the canonical bytes are equal exactly when the objects
      have the same members, in whatever order they were written. */
  lemma CanonIffSameMembers(a: seq<Member>, b: seq<Member>)
    requires DistinctKeys(a) && DistinctKeys(b)
    ensures Canon(a) == Canon(b) <==> multiset(a) == multiset(b)
  {
    hide Sort, ObjectText, Utf8, KeyLess, StrictOrder;
    SortContents(KeyLess, a);
    SortContents(KeyLess, b);
    if Canon(a) == Canon(b) {
      Utf8Injective(ObjectText(Sort(KeyLess, a)), ObjectText(Sort(KeyLess, b)));
      ObjectInjective(Sort(KeyLess, a), Sort(KeyLess, b));
    }
    if multiset(a) == multiset(b) {
      KeyOrder();
      DistinctComparable(a);
      DistinctComparable(b);
      SortCanonical(KeyLess, a, b);
    }
  }

  /** Equal canonical bytes mean equal members even without distinct names. */
  lemma CanonMembers(a: seq<Member>, b: seq<Member>, m: Member)
    requires Canon(a) == Canon(b) && m in a
    ensures m in b
  {
    hide Sort, ObjectText, Utf8, KeyLess;
    SortContents(KeyLess, a);
    SortContents(KeyLess, b);
    Utf8Injective(ObjectText(Sort(KeyLess, a)), ObjectText(Sort(KeyLess, b)));
    ObjectInjective(Sort(KeyLess, a), Sort(KeyLess, b));
    assert m in multiset(a) && multiset(a) == multiset(b);
  }
}
