/** Bytes, optional values, and the hexadecimal text the ledger stores digests in. */
module Bytes {
  datatype Option<+T> = None | Some(value: T)

  type byte = b: int | 0 <= b < 256

  /** The blanks `bytes.fromhex` skips between bytes: space, and tab to carriage return. */
  predicate IsBlank(c: char) {
    c == ' ' || '\t' <= c <= '\r'
  }

  /** `n.to_bytes(k, "big")` for an `n` that fits; a larger one loses its high bytes. */
  function BigEndian(n: nat, k: nat): seq<byte> {
    if k == 0 then [] else BigEndian(n / 256, k - 1) + [n % 256]
  }

  function DigitChar(d: nat): char
    requires d < 16
  {
    "0123456789abcdef"[d]
  }

  function DigitValue(c: char): Option<nat> {
    if '0' <= c <= '9' then Some((c - '0') as nat)
    else if 'a' <= c <= 'f' then Some((c - 'a') as nat + 10)
    else if 'A' <= c <= 'F' then Some((c - 'A') as nat + 10)
    else None
  }

  /** The text form of a SHA-256 digest: 64 lower-case hexadecimal digits. */
  predicate IsDigestText(s: string) {
    |s| == 64 && forall i :: 0 <= i < 64 ==> '0' <= s[i] <= '9' || 'a' <= s[i] <= 'f'
  }

  function ToHex(bs: seq<byte>): string {
    if bs == [] then [] else [DigitChar(bs[0] / 16), DigitChar(bs[0] % 16)] + ToHex(bs[1..])
  }

  /** `bytes.fromhex`: two digits a byte, either case, blanks allowed between bytes; `None` is the ValueError. */
  function FromHex(s: string): Option<seq<byte>> {
    if s == [] then Some([])
    else if IsBlank(s[0]) then FromHex(s[1..])
    else if |s| < 2 || DigitValue(s[0]).None? || DigitValue(s[1]).None? then None
    else
      match FromHex(s[2..])
      case None => None
      case Some(rest) => Some([ByteOf(DigitValue(s[0]).value, DigitValue(s[1]).value)] + rest)
  }

  function ByteOf(hi: nat, lo: nat): byte {
    if hi < 16 && lo < 16 then 16 * hi + lo else 0
  }

  lemma DigitRoundTrip(d: nat)
    requires d < 16
    ensures DigitValue(DigitChar(d)) == Some(d) && !IsBlank(DigitChar(d))
  {}

  lemma FromHexStep(c: char, d: char, s: string)
    requires !IsBlank(c) && DigitValue(c).Some? && DigitValue(d).Some? && FromHex(s).Some?
    ensures FromHex([c, d] + s) == Some([ByteOf(DigitValue(c).value, DigitValue(d).value)] + FromHex(s).value)
  {
    assert ([c, d] + s)[2..] == s;
  }

  lemma ToHexStep(bs: seq<byte>)
    requires bs != []
    ensures ToHex(bs) == [DigitChar(bs[0] / 16), DigitChar(bs[0] % 16)] + ToHex(bs[1..])
  {
    hide DigitChar;
  }

  lemma HexNone()
    ensures ToHex([]) == [] && FromHex([]) == Some([])
  {}

  lemma {:induction false} HexRoundTrip(bs: seq<byte>)
    ensures FromHex(ToHex(bs)) == Some(bs)
    ensures bs != [] ==> ToHex(bs) != []
  {
    hide DigitChar, DigitValue, IsBlank, FromHex, ToHex;
    if bs != [] {
      HexRoundTrip(bs[1..]);
      DigitRoundTrip(bs[0] / 16);
      DigitRoundTrip(bs[0] % 16);
      ToHexStep(bs);
      FromHexStep(DigitChar(bs[0] / 16), DigitChar(bs[0] % 16), ToHex(bs[1..]));
      assert [bs[0]] + bs[1..] == bs;
    } else {
      HexNone();
    }
  }

  predicate AllBlank(s: string) {
    forall c :: c in s ==> IsBlank(c)
  }

  /** Only blank text decodes to no bytes at all. */
  lemma {:induction false} EmptyHexText(s: string)
    ensures FromHex(s) == Some([]) <==> AllBlank(s)
  {
    hide DigitValue, IsBlank;
    if s != [] {
      EmptyHexText(s[1..]);
      assert s == [s[0]] + s[1..];
    }
  }

  predicate HexDigit(c: char) {
    c in "0123456789abcdef"
  }

  lemma HexDigits(c: char)
    ensures HexDigit(c) <==> '0' <= c <= '9' || 'a' <= c <= 'f'
  {
    var digits := "0123456789abcdef";
    if '0' <= c <= '9' { assert digits[c as int - 48] == c; }
    if 'a' <= c <= 'f' { assert digits[c as int - 97 + 10] == c; }
  }

  /** 64 characters, each one of the sixteen digits. */
  predicate Hex64(s: string) {
    |s| == 64 && forall i :: 0 <= i < |s| ==> HexDigit(s[i])
  }

  lemma DigestTextPlainly(s: string)
    ensures IsDigestText(s) <==> Hex64(s)
  {
    hide HexDigit;
    forall i | 0 <= i < |s| ensures HexDigit(s[i]) <==> '0' <= s[i] <= '9' || 'a' <= s[i] <= 'f' { HexDigits(s[i]); }
  }

  /** Encoding writes two digits a byte, high half first. */
  lemma {:induction false} ToHexPlainly(bs: seq<byte>)
    ensures |ToHex(bs)| == 2 * |bs|
    ensures forall i :: 0 <= i < |bs| ==>
      ToHex(bs)[2 * i] == "0123456789abcdef"[bs[i] / 16] && ToHex(bs)[2 * i + 1] == "0123456789abcdef"[bs[i] % 16]
  {
    if bs != [] {
      ToHexPlainly(bs[1..]);
      ToHexStep(bs);
      var t := ToHex(bs[1..]);
      assert forall i :: 0 < i < |bs| ==> bs[i] == bs[1..][i - 1] && ToHex(bs)[2 * i] == t[2 * (i - 1)];
    }
  }

  /** The first text comes before the second: a proper prefix of it, or smaller at the first difference. */
  ghost predicate Before(a: string, b: string) {
    exists k: nat :: FirstDifference(a, b, k)
  }

  ghost predicate FirstDifference(a: string, b: string, k: nat) {
    k <= |a| && k < |b| && a[..k] == b[..k] && (k == |a| || a[k] < b[k])
  }

  lemma DifferenceHead(a: string, b: string, k: nat)
    requires FirstDifference(a, b, k)
    ensures b != [] && (a == [] || a[0] < b[0] || (k > 0 && a[0] == b[0]))
  {
    if k > 0 { assert a[..k][0] == a[0] && b[..k][0] == b[0]; }
  }
}
