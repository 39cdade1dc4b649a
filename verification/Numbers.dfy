/** Number canonicalization for digests: which decoded values have one, what becomes of them, and why the result is
    stable and always admissible in a capsule extension. */
module Numbers {
  import opened Bytes

  const MAX_SAFE := 9007199254740991

  // ---------------------------------------------------------------- decimal integers

  predicate IsDigit(c: char) {
    '0' <= c <= '9'
  }

  predicate AllDigits(s: string) {
    forall i :: 0 <= i < |s| ==> IsDigit(s[i])
  }

  function Digit(d: nat): char
    requires d < 10
  {
    '0' + d as char
  }

  /** `strconv.FormatInt` on a magnitude. */
  function Decimal(n: nat): string {
    if n < 10 then [Digit(n)] else Decimal(n / 10) + [Digit(n % 10)]
  }

  function FormatInt(n: int): string {
    if n < 0 then "-" + Decimal(-n) else Decimal(n)
  }

  function Magnitude(s: string): nat
    requires AllDigits(s)
  {
    if s == [] then 0 else Magnitude(s[..|s| - 1]) * 10 + (s[|s| - 1] - '0') as nat
  }

  /** Digits with no leading zero. */
  predicate IsMagnitude(s: string) {
    s != [] && AllDigits(s) && (s[0] == '0' ==> |s| == 1)
  }

  lemma {:induction false} DecimalRead(n: nat)
    ensures IsMagnitude(Decimal(n)) && Magnitude(Decimal(n)) == n && (n > 0 ==> Decimal(n)[0] != '0')
  {
    if n < 10 {
      assert Decimal(n)[..0] == [];
    } else {
      DecimalRead(n / 10);
      assert Decimal(n)[..|Decimal(n)| - 1] == Decimal(n / 10);
    }
  }

  lemma {:induction false} MagnitudeWritten(s: string)
    requires IsMagnitude(s)
    ensures Decimal(Magnitude(s)) == s && (s[0] != '0' ==> Magnitude(s) > 0)
  {
    var front, d := s[..|s| - 1], (s[|s| - 1] - '0') as nat;
    assert s == front + [s[|s| - 1]] && Digit(d) == s[|s| - 1];
    if |s| > 1 {
      MagnitudeWritten(front);
      assert Magnitude(s) == Magnitude(front) * 10 + d && Magnitude(s) / 10 == Magnitude(front) && Magnitude(s) % 10 == d;
    } else {
      assert front == [] && Magnitude(front) == 0;
    }
  }

  function Unsigned(t: string): string {
    if t != [] && t[0] == '-' then t[1..] else t
  }

  /** A grammatical number token without fraction or exponent. */
  predicate IsIntegerToken(t: string) {
    IsMagnitude(Unsigned(t))
  }

  function IntegerValue(t: string): int
    requires IsIntegerToken(t)
  {
    if t[0] == '-' then -(Magnitude(Unsigned(t)) as int) else Magnitude(t)
  }

  /** Formatting what was read gives the token back, except that "-0" loses its sign. */
  lemma IntegerRoundTrip(t: string)
    requires IsIntegerToken(t)
    ensures FormatInt(IntegerValue(t)) == if t == "-0" then "0" else t
  {
    MagnitudeWritten(Unsigned(t));
    if t[0] == '-' {
      assert t == "-" + Unsigned(t);
      if Unsigned(t)[0] == '0' { assert Unsigned(t) == "0"; }
    }
  }

  /** Reading what was formatted gives the integer back. */
  lemma FormatRead(n: int)
    ensures IsIntegerToken(FormatInt(n)) && IntegerValue(FormatInt(n)) == n && FormatInt(n) != "-0"
  {
    if n < 0 {
      DecimalRead(-n);
      assert FormatInt(n)[1..] == Decimal(-n);
      assert FormatInt(n)[1] == Decimal(-n)[0] && "-0"[1] == '0';
    } else {
      DecimalRead(n);
      assert IsDigit(Decimal(n)[0]);
    }
  }

  // ---------------------------------------------------------------- the number grammar (RFC 8259 section 6)

  function DigitRun(s: string): nat {
    if s == [] || !IsDigit(s[0]) then 0 else 1 + DigitRun(s[1..])
  }

  lemma {:induction false} DigitRunFacts(s: string)
    ensures DigitRun(s) <= |s| && AllDigits(s[..DigitRun(s)])
    ensures DigitRun(s) < |s| ==> !IsDigit(s[DigitRun(s)])
  {
    if s != [] && IsDigit(s[0]) {
      DigitRunFacts(s[1..]);
      var k := DigitRun(s[1..]);
      assert s[..k + 1] == [s[0]] + s[1..][..k];
    }
  }

  lemma {:induction false} DigitRunOf(d: string, rest: string)
    requires AllDigits(d) && (rest == [] || !IsDigit(rest[0]))
    ensures DigitRun(d + rest) == |d|
  {
    if d == [] {
      assert d + rest == rest;
    } else {
      assert (d + rest)[1..] == d[1..] + rest;
      DigitRunOf(d[1..], rest);
    }
  }

  /** The exponent part, or nothing. */
  predicate IsExponent(s: string) {
    s == [] || ((s[0] == 'e' || s[0] == 'E') && |s| > 1
                && var digits := if s[1] == '+' || s[1] == '-' then s[2..] else s[1..];
                   digits != [] && AllDigits(digits))
  }

  /** What may follow the integer part. */
  predicate IsTail(rest: string) {
    if rest != [] && rest[0] == '.' then
      DigitRunFacts(rest[1..]);
      DigitRun(rest[1..]) > 0 && IsExponent(rest[1..][DigitRun(rest[1..])..])
    else IsExponent(rest)
  }

  /** The matcher: a sign, the integer part, then fraction and exponent where they are. */
  predicate Matches(t: string) {
    var u := Unsigned(t);
    DigitRunFacts(u);
    IsMagnitude(u[..DigitRun(u)]) && IsTail(u[DigitRun(u)..])
  }

  ghost predicate IsSign(s: string) {
    s == "" || s == "-"
  }

  ghost predicate IsFraction(s: string) {
    s == "" || (|s| > 1 && s[0] == '.' && AllDigits(s[1..]))
  }

  /** The grammar, declaratively: some way to cut the token into its four parts. */
  ghost predicate Grammatical(t: string) {
    exists sign, whole, fraction, exponent ::
      t == sign + (whole + (fraction + exponent))
      && IsSign(sign) && IsMagnitude(whole) && IsFraction(fraction) && IsExponent(exponent)
  }

  /** Reading left to right finds a cut exactly when there is one. */
  lemma MatchesExactly(t: string)
    ensures Matches(t) <==> Grammatical(t)
  {
    if Matches(t) { MatchFound(t); }
    if Grammatical(t) {
      var sign, whole, fraction, exponent :|
        t == sign + (whole + (fraction + exponent))
        && IsSign(sign) && IsMagnitude(whole) && IsFraction(fraction) && IsExponent(exponent);
      CutMatches(t, sign, whole, fraction, exponent);
    }
  }

  lemma TailFound(rest: string) returns (fraction: string, exponent: string)
    requires IsTail(rest)
    ensures rest == fraction + exponent && IsFraction(fraction) && IsExponent(exponent)
  {
    if rest != [] && rest[0] == '.' {
      DigitRunFacts(rest[1..]);
      var m := DigitRun(rest[1..]);
      fraction, exponent := rest[..m + 1], rest[1..][m..];
      assert fraction[1..] == rest[1..][..m];
    } else {
      fraction, exponent := "", rest;
    }
  }

  lemma SignOf(t: string) returns (sign: string)
    ensures IsSign(sign) && t == sign + Unsigned(t)
  {
    sign := if t != [] && t[0] == '-' then "-" else "";
  }

  lemma Cut(t: string, sign: string, whole: string, fraction: string, exponent: string)
    requires t == sign + (whole + (fraction + exponent))
    requires IsSign(sign) && IsMagnitude(whole) && IsFraction(fraction) && IsExponent(exponent)
    ensures Grammatical(t)
  {
    hide IsMagnitude, IsFraction, IsExponent, IsSign;
  }

  lemma MatchFound(t: string)
    requires Matches(t)
    ensures Grammatical(t)
  {
    hide IsTail, IsExponent, IsFraction, DigitRun, IsMagnitude, AllDigits;
    var u := Unsigned(t);
    DigitRunFacts(u);
    var k := DigitRun(u);
    var sign := SignOf(t);
    var fraction, exponent := TailFound(u[k..]);
    assert u == u[..k] + u[k..];
    Cut(t, sign, u[..k], fraction, exponent);
  }

  lemma CutTail(fraction: string, exponent: string)
    requires IsFraction(fraction) && IsExponent(exponent)
    ensures IsTail(fraction + exponent)
    ensures fraction + exponent != [] ==> !IsDigit((fraction + exponent)[0])
  {
    var rest := fraction + exponent;
    if fraction != [] {
      assert rest[1..] == fraction[1..] + exponent;
      DigitRunOf(fraction[1..], exponent);
      assert rest[1..][|fraction| - 1..] == exponent;
    } else {
      assert rest == exponent;
    }
  }

  lemma CutMatches(t: string, sign: string, whole: string, fraction: string, exponent: string)
    requires t == sign + (whole + (fraction + exponent))
    requires IsSign(sign) && IsMagnitude(whole) && IsFraction(fraction) && IsExponent(exponent)
    ensures Matches(t)
  {
    hide IsTail, IsExponent, IsFraction, DigitRun;
    var rest := fraction + exponent;
    var u := Unsigned(t);
    assert u == whole + rest;
    CutTail(fraction, exponent);
    DigitRunOf(whole, rest);
    assert u[..|whole|] == whole && u[|whole|..] == rest;
  }

  /** Whether a token has a fraction or an exponent, as both packages test it. */
  predicate IsFloatToken(t: string) {
    exists i :: 0 <= i < |t| && (t[i] == '.' || t[i] == 'e' || t[i] == 'E')
  }

  lemma RestHead(u: string, k: nat)
    requires k <= |u|
    ensures |u[k..]| > 0 ==> k < |u| && u[k..][0] == u[k]
  {}

  lemma IntegerTokens(t: string)
    ensures Matches(t) && !IsFloatToken(t) <==> IsIntegerToken(t)
  {
    var u := Unsigned(t);
    assert forall i :: 0 <= i < |u| ==> u[i] == t[i + |t| - |u|];
    DigitRunFacts(u);
    var k := DigitRun(u);
    if Matches(t) && !IsFloatToken(t) {
      RestHead(u, k);
      assert u[..k] + u[k..] == u;
    }
    if IsIntegerToken(t) {
      DigitRunOf(u, []);
      assert u + [] == u && u[..k] == u && u[k..] == [];
      forall i | 0 <= i < |t| ensures t[i] != '.' && t[i] != 'e' && t[i] != 'E' {
        assert i > 0 || t[0] != '-' ==> t[i] == u[i - (|t| - |u|)] && IsDigit(u[i - (|t| - |u|)]);
      }
    }
  }

  // ---------------------------------------------------------------- values

  /** A binary64: what the code distinguishes of it. */
  datatype Float = Zero | Finite(bits: int) | NotANumber | Infinite

  datatype Width = Small | Signed64 | Unsigned64

  /** A decoded value; `Other` is any type the code returns unchanged. */
  datatype Value =
    | Nil | Bool(b: bool) | Text(text: string) | Number(token: string) | Float64(f: Float) | GoInt(width: Width, n: int)
    | Map(members: map<string, Value>) | Slice(items: seq<Value>) | Other(tag: int)

  /** `strconv.ParseFloat` on a grammatical token (`None` on overflow) and `jsontext.AppendFloat`. */
  datatype Library = Library(parse: string -> Option<Float>, append: Float -> string)

  function FloatToJcs(lib: Library, f: Float): Option<Value> {
    match f
    case Zero => Some(Text("0"))
    case Finite(_) => Some(Text(lib.append(f)))
    case NotANumber => None
    case Infinite => None
  }

  function CanonicalizeNumber(lib: Library, t: string): Option<Value> {
    if !Matches(t) then None
    else if !IsFloatToken(t) then
      IntegerTokens(t);
      var n := IntegerValue(t);
      if n > MAX_SAFE || n < -MAX_SAFE then None else Some(Number(FormatInt(n)))
    else
      var f := lib.parse(t);
      if f.None? then None else FloatToJcs(lib, f.value)
  }

  function CanonicalizeScalar(lib: Library, v: Value): Option<Value>
    requires !v.Map? && !v.Slice?
  {
    match v
    case Number(t) => CanonicalizeNumber(lib, t)
    case Float64(f) => FloatToJcs(lib, f)
    case GoInt(width, n) =>
      if width.Small? then Some(v)
      else if n > MAX_SAFE || (width.Signed64? && n < -MAX_SAFE) then None
      else Some(v)
    case _ => Some(v)
  }

  /** The whole conversion. Which of several faults is reported depends on map iteration order, so a failure is
      just `None`. */
  function Canonical(lib: Library, v: Value): Option<Value> {
    match v
    case Map(m) =>
      if forall k :: k in m ==> Canonical(lib, m[k]).Some? then
        Some(Map(map k | k in m :: Canonical(lib, m[k]).value))
      else None
    case Slice(s) =>
      if forall i :: 0 <= i < |s| ==> Canonical(lib, s[i]).Some? then
        Some(Slice(seq(|s|, i requires 0 <= i < |s| && Canonical(lib, s[i]).Some? => Canonical(lib, s[i]).value)))
      else None
    case _ => CanonicalizeScalar(lib, v)
  }

  // ---------------------------------------------------------------- what is accepted

  /** A number leaf has a digest form: a grammatical token or Go number that is finite and, when it is an integer,
      within the safe range. */
  ghost predicate LeafOk(lib: Library, v: Value)
    requires !v.Map? && !v.Slice?
  {
    match v
    case Number(t) =>
      Grammatical(t)
      && (IsIntegerToken(t) ==> -9007199254740991 <= IntegerValue(t) <= 9007199254740991)
      && (!IsIntegerToken(t) ==> lib.parse(t).Some? && (lib.parse(t).value.Zero? || lib.parse(t).value.Finite?))
    case Float64(f) => f.Zero? || f.Finite?
    case GoInt(width, n) => width.Small? || (n <= 9007199254740991 && (width.Signed64? ==> -9007199254740991 <= n))
    case _ => true
  }

  ghost predicate AllLeavesOk(lib: Library, v: Value) {
    match v
    case Map(m) => forall k :: k in m ==> AllLeavesOk(lib, m[k])
    case Slice(s) => forall i :: 0 <= i < |s| ==> AllLeavesOk(lib, s[i])
    case _ => LeafOk(lib, v)
  }

  /** Containers keep their kind, their keys and their length; only number leaves may change, to integers or text. */
  ghost predicate SameShape(v: Value, w: Value) {
    match v
    case Map(m) => w.Map? && w.members.Keys == m.Keys && forall k :: k in m ==> SameShape(m[k], w.members[k])
    case Slice(s) => w.Slice? && |w.items| == |s| && forall i :: 0 <= i < |s| ==> SameShape(s[i], w.items[i])
    case Number(_) => w.Number? || w.Text?
    case Float64(_) => w.Text?
    case _ => v == w
  }

  lemma LeafExactly(lib: Library, v: Value)
    requires !v.Map? && !v.Slice?
    ensures CanonicalizeScalar(lib, v).Some? <==> LeafOk(lib, v)
    ensures CanonicalizeScalar(lib, v).Some? ==> SameShape(v, CanonicalizeScalar(lib, v).value)
  {
    hide Matches, Grammatical, IsFloatToken, IsIntegerToken, IntegerValue, FormatInt;
    if v.Number? {
      MatchesExactly(v.token);
      IntegerTokens(v.token);
    }
  }

  /** A value is converted exactly when every number leaf in it has a digest form, and its shape is kept. */
  lemma {:induction false} CanonicalExactly(lib: Library, v: Value)
    ensures Canonical(lib, v).Some? <==> AllLeavesOk(lib, v)
    ensures Canonical(lib, v).Some? ==> SameShape(v, Canonical(lib, v).value)
    decreases v
  {
    hide LeafOk, CanonicalizeScalar;
    match v
    case Map(m) => forall k | k in m { CanonicalExactly(lib, m[k]); }
    case Slice(s) => forall i | 0 <= i < |s| { CanonicalExactly(lib, s[i]); }
    case _ => LeafExactly(lib, v);
  }

  // ---------------------------------------------------------------- stability

  /** `checkExtensionNumbers`: no float token and no unsafe integer token anywhere. */
  predicate ExtensionNumbersOk(v: Value) {
    match v
    case Map(m) => forall k :: k in m ==> ExtensionNumbersOk(m[k])
    case Slice(s) => forall i :: 0 <= i < |s| ==> ExtensionNumbersOk(s[i])
    case Number(t) => !IsFloatToken(t) && (IsIntegerToken(t) ==> -MAX_SAFE <= IntegerValue(t) <= MAX_SAFE)
    case _ => true
  }

  lemma LeafStable(lib: Library, v: Value)
    requires !v.Map? && !v.Slice? && CanonicalizeScalar(lib, v).Some?
    ensures
      var w := CanonicalizeScalar(lib, v).value;
      !w.Map? && !w.Slice? && CanonicalizeScalar(lib, w) == Some(w) && ExtensionNumbersOk(w)
  {
    hide Matches, IsFloatToken, IsIntegerToken, IntegerValue, FormatInt;
    if v.Number? && !IsFloatToken(v.token) {
      IntegerTokens(v.token);
      var n := IntegerValue(v.token);
      FormatRead(n);
      IntegerTokens(FormatInt(n));
    }
  }

  lemma MapCanonical(lib: Library, m: map<string, Value>, out: map<string, Value>)
    requires out.Keys == m.Keys && forall k :: k in m ==> Canonical(lib, m[k]) == Some(out[k])
    ensures Canonical(lib, Map(m)) == Some(Map(out))
  {
    hide CanonicalizeScalar;
    var r := Canonical(lib, Map(m));
    assert r.Some?;
    assert r.value.members == out;
  }

  /** Conversion is idempotent, and what it returns always passes the extension number check. */
  lemma {:induction false} CanonicalStable(lib: Library, v: Value)
    requires Canonical(lib, v).Some?
    ensures Canonical(lib, Canonical(lib, v).value) == Canonical(lib, v)
    ensures ExtensionNumbersOk(Canonical(lib, v).value)
    decreases v
  {
    hide CanonicalizeScalar, IsFloatToken, IsIntegerToken;
    match v
    case Map(m) =>
      var w := Canonical(lib, v).value.members;
      forall k | k in m ensures Canonical(lib, w[k]) == Some(w[k]) && ExtensionNumbersOk(w[k]) {
        CanonicalStable(lib, m[k]);
      }
      MapCanonical(lib, w, w);
    case Slice(s) =>
      var w := Canonical(lib, v).value.items;
      forall i | 0 <= i < |s| ensures Canonical(lib, w[i]) == Some(w[i]) && ExtensionNumbersOk(w[i]) {
        CanonicalStable(lib, s[i]);
      }
      assert Canonical(lib, Slice(w)).value.items == w;
    case _ => LeafStable(lib, v);
  }

  /** An in-range integer token is left as it is, except that "-0" becomes "0": integer arguments keep the digests
      they have. */
  lemma IntegerTokensKept(lib: Library, t: string)
    requires IsIntegerToken(t) && -9007199254740991 <= IntegerValue(t) <= 9007199254740991
    ensures Canonical(lib, Number(t)) == Some(Number(if t == "-0" then "0" else t))
  {
    hide Matches, IsFloatToken, IsIntegerToken, IntegerValue, FormatInt;
    IntegerTokens(t);
    IntegerRoundTrip(t);
  }

  // ---------------------------------------------------------------- the code as written

  /** `canonicalizeForDigest`: fresh maps and slices filled in a loop, map members in any order. */
  method CanonicalizeForDigest(lib: Library, v: Value) returns (r: Option<Value>)
    ensures r == Canonical(lib, v)
    decreases v
  {
    hide CanonicalizeScalar;
    match v
    case Map(m) =>
      var out: map<string, Value> := map[];
      var left := m.Keys;
      while left != {}
        invariant left <= m.Keys && out.Keys == m.Keys - left
        invariant forall k :: k in out ==> Canonical(lib, m[k]) == Some(out[k])
        decreases left
      {
        var key :| key in left;
        var converted := CanonicalizeForDigest(lib, m[key]);
        if converted.None? { return None; }
        out := out[key := converted.value];
        left := left - {key};
      }
      MapCanonical(lib, m, out);
      return Some(Map(out));
    case Slice(s) =>
      var out: seq<Value> := [];
      var i := 0;
      while i < |s|
        invariant 0 <= i <= |s| && |out| == i
        invariant forall k :: 0 <= k < i ==> Canonical(lib, s[k]) == Some(out[k])
      {
        var converted := CanonicalizeForDigest(lib, s[i]);
        if converted.None? { return None; }
        out := out + [converted.value];
        i := i + 1;
      }
      assert Canonical(lib, v).value.items == out;
      return Some(Slice(out));
    case _ => return CanonicalizeScalar(lib, v);
  }
}
