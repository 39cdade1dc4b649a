/** What number canonicalization makes of every leaf, and the number grammar, in plain terms. */
module NumbersPlain {
  import opened Bytes
  import opened Numbers

  // ---------------------------------------------------------------- the grammar

  ghost predicate Digits(s: string) {
    s != "" && forall i :: 0 <= i < |s| ==> '0' <= s[i] <= '9'
  }

  /** Digits without a leading zero. */
  ghost predicate WholeDigits(s: string) {
    Digits(s) && (s == "0" || s[0] != '0')
  }

  /** A token cut into its pieces: sign, whole part, point and fraction digits, letter, exponent sign and digits. */
  datatype Pieces = Pieces(sign: string, whole: string, point: string, fraction: string,
                           letter: string, expSign: string, exponent: string)

  ghost predicate Legal(p: Pieces) {
    && (p.sign == "" || p.sign == "-")
    && WholeDigits(p.whole)
    && ((p.point == "" && p.fraction == "") || (p.point == "." && Digits(p.fraction)))
    && (|| (p.letter == "" && p.expSign == "" && p.exponent == "")
        || ((p.letter == "e" || p.letter == "E") && (p.expSign == "" || p.expSign == "+" || p.expSign == "-")
            && Digits(p.exponent)))
  }

  function Joined(p: Pieces): string {
    p.sign + (p.whole + ((p.point + p.fraction) + (p.letter + p.expSign + p.exponent)))
  }

  ghost predicate IsNumber(t: string) {
    exists p :: Legal(p) && t == Joined(p)
  }

  lemma ExponentIs(s: string) returns (letter: string, expSign: string, exponent: string)
    requires IsExponent(s)
    ensures s == letter + expSign + exponent
    ensures || (letter == "" && expSign == "" && exponent == "")
            || ((letter == "e" || letter == "E") && (expSign == "" || expSign == "+" || expSign == "-") && Digits(exponent))
  {
    if s == "" {
      letter, expSign, exponent := "", "", "";
    } else {
      letter := s[..1];
      expSign := if s[1] == '+' || s[1] == '-' then s[1..2] else "";
      exponent := s[1 + |expSign|..];
    }
  }

  lemma ExponentFrom(letter: string, expSign: string, exponent: string)
    requires letter == "e" || letter == "E"
    requires expSign == "" || expSign == "+" || expSign == "-"
    requires Digits(exponent)
    ensures IsExponent(letter + expSign + exponent)
  {
    var s := letter + expSign + exponent;
    assert s[1 + |expSign|..] == exponent;
    if expSign == "" { assert s[1] == exponent[0]; } else { assert s[1] == expSign[0]; }
  }

  lemma FractionIs(s: string) returns (point: string, fraction: string)
    requires IsFraction(s)
    ensures s == point + fraction && ((point == "" && fraction == "") || (point == "." && Digits(fraction)))
  {
    if s == "" { point, fraction := "", ""; } else { point, fraction := ".", s[1..]; }
  }

  lemma FractionFrom(point: string, fraction: string)
    requires (point == "" && fraction == "") || (point == "." && Digits(fraction))
    ensures IsFraction(point + fraction)
  {
    if point != "" { assert (point + fraction)[1..] == fraction; }
  }

  /** The matcher accepts exactly the numbers of section 6 of RFC 8259, piece by piece. */
  lemma NumberPlainly(t: string)
    ensures Matches(t) <==> IsNumber(t)
  {
    hide Matches, IsExponent, IsFraction;
    MatchesExactly(t);
    if Grammatical(t) {
      var sign, whole, fraction, exponent :|
        t == sign + (whole + (fraction + exponent))
        && IsSign(sign) && IsMagnitude(whole) && IsFraction(fraction) && IsExponent(exponent);
      WholeDigitsIs(whole);
      var point, digits := FractionIs(fraction);
      var letter, expSign, expDigits := ExponentIs(exponent);
      assert Legal(Pieces(sign, whole, point, digits, letter, expSign, expDigits));
      assert t == Joined(Pieces(sign, whole, point, digits, letter, expSign, expDigits));
    }
    if p :| Legal(p) && t == Joined(p) {
      FractionFrom(p.point, p.fraction);
      if p.letter == "" { NoExponent(p); } else { ExponentFrom(p.letter, p.expSign, p.exponent); }
      WholeDigitsIs(p.whole);
      Cut(t, p.sign, p.whole, p.point + p.fraction, p.letter + p.expSign + p.exponent);
    }
  }

  lemma NoExponent(p: Pieces)
    requires p.letter == "" && p.expSign == "" && p.exponent == ""
    ensures IsExponent(p.letter + p.expSign + p.exponent)
  {}

  /** How digits read: each one to the right multiplies by ten and adds itself. */
  lemma MagnitudePlainly(s: string, c: char)
    requires AllDigits(s) && '0' <= c <= '9'
    ensures Magnitude("") == 0 && AllDigits(s + [c]) && Magnitude(s + [c]) == 10 * Magnitude(s) + (c as int - '0' as int)
  {
    assert (s + [c])[..|s|] == s;
  }

  lemma WholeDigitsIs(s: string)
    ensures IsMagnitude(s) <==> WholeDigits(s)
  {}

  /** An integer token is such digits behind an optional minus, and its value is theirs, negated behind a minus. */
  lemma IntegerPlainly(t: string)
    ensures IsIntegerToken(t) <==> WholeDigits(t) || (t != "" && t[0] == '-' && WholeDigits(t[1..]))
    ensures IsIntegerToken(t) ==>
      IntegerValue(t) == if t[0] == '-' then -(Magnitude(t[1..]) as int) else Magnitude(t)
  {
    WholeDigitsIs(Unsigned(t));
    WholeDigitsIs(t);
    hide IsMagnitude;
    assert WholeDigits(t) ==> t[0] != '-';
  }

  // ---------------------------------------------------------------- values

  /** What a float becomes: zero is the text "0", any other finite one its printed form. */
  ghost predicate Spells(lib: Library, f: Float, w: Value) {
    (f.Zero? && w == Text("0")) || (f.Finite? && w == Text(lib.append(f)))
  }

  ghost predicate InRange(n: int) {
    -9007199254740991 <= n <= 9007199254740991
  }

  /** What a leaf becomes. */
  ghost predicate LeafConverts(lib: Library, v: Value, w: Value) {
    match v
    case Number(t) =>
      if IsIntegerToken(t) then InRange(IntegerValue(t)) && w == Number(if t == "-0" then "0" else t)
      else IsNumber(t) && lib.parse(t).Some? && Spells(lib, lib.parse(t).value, w)
    case Float64(f) => Spells(lib, f, w)
    case GoInt(width, n) =>
      w == v && (width.Signed64? ==> InRange(n)) && (width.Unsigned64? ==> n <= 9007199254740991)
    case _ => w == v
  }

  /** The same containers with every leaf converted. */
  ghost predicate Converts(lib: Library, v: Value, w: Value)
    decreases v
  {
    match v
    case Map(m) => w.Map? && w.members.Keys == m.Keys && forall k :: k in m ==> Converts(lib, m[k], w.members[k])
    case Slice(s) => w.Slice? && |w.items| == |s| && forall i :: 0 <= i < |s| ==> Converts(lib, s[i], w.items[i])
    case _ => LeafConverts(lib, v, w)
  }

  lemma LeafPlainly(lib: Library, v: Value, w: Value)
    requires !v.Map? && !v.Slice?
    ensures CanonicalizeScalar(lib, v) == Some(w) <==> LeafConverts(lib, v, w)
  {
    hide Matches, IsNumber, IsFloatToken, IsIntegerToken, IntegerValue, FormatInt;
    if v.Number? {
      NumberPlainly(v.token);
      IntegerTokens(v.token);
      if IsIntegerToken(v.token) { IntegerRoundTrip(v.token); }
    }
  }

  /** Conversion succeeds with a value exactly when that value has the same containers and every leaf converted as
      said; no value converts in two ways. */
  lemma {:induction false} CanonicalPlainly(lib: Library, v: Value, w: Value)
    ensures Canonical(lib, v) == Some(w) <==> Converts(lib, v, w)
    decreases v
  {
    hide LeafConverts, CanonicalizeScalar;
    match v
    case Map(m) =>
      if w.Map? && w.members.Keys == m.Keys {
        forall k | k in m ensures Canonical(lib, m[k]) == Some(w.members[k]) <==> Converts(lib, m[k], w.members[k]) {
          CanonicalPlainly(lib, m[k], w.members[k]);
        }
        if Converts(lib, v, w) { MapCanonical(lib, m, w.members); }
      }
    case Slice(s) =>
      if w.Slice? && |w.items| == |s| {
        forall i | 0 <= i < |s| ensures Canonical(lib, s[i]) == Some(w.items[i]) <==> Converts(lib, s[i], w.items[i]) {
          CanonicalPlainly(lib, s[i], w.items[i]);
        }
        if Converts(lib, v, w) { SliceCanonical(lib, s, w.items); }
      }
    case _ => LeafPlainly(lib, v, w);
  }

  lemma SliceCanonical(lib: Library, s: seq<Value>, out: seq<Value>)
    requires |out| == |s| && forall i :: 0 <= i < |s| ==> Canonical(lib, s[i]) == Some(out[i])
    ensures Canonical(lib, Slice(s)) == Some(Slice(out))
  {
    hide CanonicalizeScalar;
    var r := Canonical(lib, Slice(s));
    assert r.Some?;
    assert r.value.items == out;
  }

  /** Somewhere in the value is a token with a fraction or exponent, or an integer token out of range. */
  ghost predicate Offends(v: Value)
    decreases v
  {
    match v
    case Map(m) => exists k :: k in m && Offends(m[k])
    case Slice(s) => exists i :: 0 <= i < |s| && Offends(s[i])
    case Number(t) =>
      || (exists i :: 0 <= i < |t| && (t[i] == '.' || t[i] == 'e' || t[i] == 'E'))
      || (IsIntegerToken(t) && !InRange(IntegerValue(t)))
    case _ => false
  }

  /** The extension check refuses exactly such values. */
  lemma {:induction false} ExtensionPlainly(v: Value)
    ensures ExtensionNumbersOk(v) <==> !Offends(v)
    decreases v
  {
    match v
    case Map(m) => forall k | k in m ensures ExtensionNumbersOk(m[k]) <==> !Offends(m[k]) { ExtensionPlainly(m[k]); }
    case Slice(s) =>
      forall i | 0 <= i < |s| ensures ExtensionNumbersOk(s[i]) <==> !Offends(s[i]) { ExtensionPlainly(s[i]); }
    case _ =>
  }
}
