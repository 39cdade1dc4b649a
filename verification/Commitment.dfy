/** The commitment object: a checkpoint's peak list as deterministic CBOR (RFC 8949), its strict reader, and
    why the two are inverse. */
module Commitment {
  import opened Bytes
  import Mmr
  import Consistency
  import ChainVerify

  // ---------------------------------------------------------------- big-endian integers

  function Pow256(k: nat): nat {
    if k == 0 then 1 else 256 * Pow256(k - 1)
  }

  function FromBig(bs: seq<byte>): nat {
    if bs == [] then 0 else FromBig(bs[..|bs| - 1]) * 256 + bs[|bs| - 1]
  }

  lemma {:induction false} BigEndianRoundTrip(n: nat, k: nat)
    requires n < Pow256(k)
    ensures |BigEndian(n, k)| == k && FromBig(BigEndian(n, k)) == n
  {
    if k != 0 {
      BigEndianRoundTrip(n / 256, k - 1);
      var e := BigEndian(n, k);
      assert e[..|e| - 1] == BigEndian(n / 256, k - 1);
    }
  }

  lemma {:induction false} FromBigRoundTrip(bs: seq<byte>)
    ensures FromBig(bs) < Pow256(|bs|) && BigEndian(FromBig(bs), |bs|) == bs
  {
    if bs != [] {
      FromBigRoundTrip(bs[..|bs| - 1]);
      assert bs == bs[..|bs| - 1] + [bs[|bs| - 1]];
    }
  }

  lemma Widths()
    ensures Pow256(1) == 0x100 && Pow256(2) == 0x1_0000 && Pow256(4) == 0x1_0000_0000
    ensures Pow256(8) == 0x1_0000_0000_0000_0000
  {
    assert Pow256(2) == 256 * Pow256(1) && Pow256(3) == 256 * Pow256(2) && Pow256(4) == 256 * Pow256(3);
    assert Pow256(5) == 256 * Pow256(4) && Pow256(6) == 256 * Pow256(5) && Pow256(7) == 256 * Pow256(6);
    assert Pow256(8) == 256 * Pow256(7);
  }

  // ---------------------------------------------------------------- headers (RFC 8949 section 3)

  /** `_header`; `None` is the OverflowError for an argument of 2^64 or more. */
  function Header(major: nat, n: nat): Option<seq<byte>>
    requires major < 8
  {
    if n < 24 then Some([32 * major + n])
    else if n < 0x100 then Some([32 * major + 24, n])
    else if n < 0x1_0000 then Some([32 * major + 25] + BigEndian(n, 2))
    else if n < 0x1_0000_0000 then Some([32 * major + 26] + BigEndian(n, 4))
    else if n < 0x1_0000_0000_0000_0000 then Some([32 * major + 27] + BigEndian(n, 8))
    else None
  }

  datatype Head = Head(major: nat, argument: nat, rest: seq<byte>)

  /** The argument width that additional information 24 to 27 announces. */
  function Follow(info: nat): Option<nat> {
    if info < 24 then Some(0)
    else if info == 24 then Some(1)
    else if info == 25 then Some(2)
    else if info == 26 then Some(4)
    else if info == 27 then Some(8)
    else None
  }

  /** Any well-formed header, shortest or not. */
  function ReadHeader(bs: seq<byte>): Option<Head> {
    if bs == [] then None
    else
      var w := Follow(bs[0] % 32);
      if w.None? || |bs| < 1 + w.value then None
      else
        Some(Head(bs[0] / 32, if w.value == 0 then bs[0] % 32 else FromBig(bs[1..1 + w.value]), bs[1 + w.value..]))
  }

  /** The width the shortest form of an argument needs (section 4.2.1). */
  function ShortestWidth(n: nat): nat {
    if n < 24 then 0 else if n < 0x100 then 1 else if n < 0x1_0000 then 2 else if n < 0x1_0000_0000 then 4 else 8
  }

  /** A header in shortest form. */
  function ReadStrict(bs: seq<byte>): Option<Head> {
    var h := ReadHeader(bs);
    if h.Some? && |bs| - |h.value.rest| == 1 + ShortestWidth(h.value.argument) then h else None
  }

  lemma HeaderRead(major: nat, n: nat, rest: seq<byte>)
    requires major < 8 && n < 0x1_0000_0000_0000_0000
    ensures Header(major, n).Some? && |Header(major, n).value| == 1 + ShortestWidth(n)
    ensures ReadStrict(Header(major, n).value + rest) == Some(Head(major, n, rest))
  {
    hide BigEndian, FromBig, Pow256;
    Widths();
    var w := ShortestWidth(n);
    var h, bs := Header(major, n).value, Header(major, n).value + rest;
    if w == 1 { SingleByte(n); } else if w != 0 { BigEndianRoundTrip(n, w); }
    assert bs[0] == h[0] && bs[1 + w..] == rest;
    assert w != 0 ==> bs[1..1 + w] == BigEndian(n, w);
    assert w != 0 ==> FromBig(BigEndian(n, w)) == n;
  }

  lemma SingleByte(n: nat)
    requires n < 256
    ensures BigEndian(n, 1) == [n] && FromBig([n]) == n
  {
    assert BigEndian(n / 256, 0) == [];
    assert [n][..0] == [];
  }

  lemma HeaderWritten(bs: seq<byte>)
    requires ReadStrict(bs).Some?
    ensures
      var h := ReadStrict(bs).value;
      h.major < 8 && Header(h.major, h.argument).Some? && bs == Header(h.major, h.argument).value + h.rest
  {
    hide BigEndian, FromBig, Pow256;
    Widths();
    var h := ReadStrict(bs).value;
    var w := ShortestWidth(h.argument);
    assert Follow(bs[0] % 32) == Some(w);
    assert bs == bs[..1 + w] + h.rest && bs[..1 + w] == [bs[0]] + bs[1..1 + w];
    if w != 0 {
      FromBigRoundTrip(bs[1..1 + w]);
      if w == 1 { SingleByte(h.argument); }
    }
  }

  /** Of all well-formed headers that carry an argument, the one written is the shortest. */
  lemma HeaderShortest(bs: seq<byte>)
    requires ReadHeader(bs).Some?
    ensures
      var h := ReadHeader(bs).value;
      && Header(h.major, h.argument).Some?
      && |Header(h.major, h.argument).value| <= |bs| - |h.rest|
      && (|Header(h.major, h.argument).value| == |bs| - |h.rest| <==> bs == Header(h.major, h.argument).value + h.rest)
  {
    hide BigEndian, FromBig, Pow256;
    Widths();
    var h := ReadHeader(bs).value;
    var w := Follow(bs[0] % 32).value;
    if w != 0 { FromBigRoundTrip(bs[1..1 + w]); }
    HeaderRead(h.major, h.argument, h.rest);
    if ReadStrict(bs).Some? { HeaderWritten(bs); }
  }

  // ---------------------------------------------------------------- the object

  function Strings(ps: seq<seq<byte>>): Option<seq<byte>> {
    if ps == [] then Some([])
    else
      var h, rest := Header(2, |ps[0]|), Strings(ps[1..]);
      if h.Some? && rest.Some? then Some(h.value + ps[0] + rest.value) else None
  }

  /** `commitment_object`. */
  function Encode(peaks: seq<seq<byte>>): Option<seq<byte>> {
    var h, body := Header(4, |peaks|), Strings(peaks);
    if h.Some? && body.Some? then Some(h.value + body.value) else None
  }

  datatype Items = Items(strings: seq<seq<byte>>, rest: seq<byte>)

  function ReadStrings(k: nat, bs: seq<byte>): Option<Items> {
    if k == 0 then Some(Items([], bs))
    else
      var h := ReadStrict(bs);
      if h.None? || h.value.major != 2 || |h.value.rest| < h.value.argument then None
      else
        var more := ReadStrings(k - 1, h.value.rest[h.value.argument..]);
        if more.None? then None
        else Some(Items([h.value.rest[..h.value.argument]] + more.value.strings, more.value.rest))
  }

  /** A strict reader: shortest-form headers, one array of byte strings, nothing after it. */
  function Decode(bs: seq<byte>): Option<seq<seq<byte>>> {
    var h := ReadStrict(bs);
    if h.None? || h.value.major != 4 then None
    else
      var items := ReadStrings(h.value.argument, h.value.rest);
      if items.None? || items.value.rest != [] then None else Some(items.value.strings)
  }

  lemma {:induction false} StringsRead(ps: seq<seq<byte>>, rest: seq<byte>)
    requires Strings(ps).Some?
    ensures ReadStrings(|ps|, Strings(ps).value + rest) == Some(Items(ps, rest))
  {
    hide Header, ReadStrict;
    if ps != [] {
      var tail := Strings(ps[1..]).value + rest;
      HeaderFits(2, |ps[0]|);
      HeaderRead(2, |ps[0]|, ps[0] + tail);
      assert Strings(ps).value + rest == Header(2, |ps[0]|).value + (ps[0] + tail);
      assert (ps[0] + tail)[..|ps[0]|] == ps[0] && (ps[0] + tail)[|ps[0]|..] == tail;
      StringsRead(ps[1..], rest);
      assert ps == [ps[0]] + ps[1..];
    } else {
      assert Strings(ps).value + rest == rest;
    }
  }

  lemma HeaderFits(major: nat, n: nat)
    requires major < 8
    ensures Header(major, n).Some? <==> n < 0x1_0000_0000_0000_0000
  {}

  lemma {:induction false} StringsWritten(k: nat, bs: seq<byte>)
    requires ReadStrings(k, bs).Some?
    ensures
      var r := ReadStrings(k, bs).value;
      |r.strings| == k && Strings(r.strings).Some? && bs == Strings(r.strings).value + r.rest
  {
    hide Header, ReadStrict;
    if k != 0 {
      var h := ReadStrict(bs).value;
      HeaderWritten(bs);
      StringsWritten(k - 1, h.rest[h.argument..]);
      var r, more := ReadStrings(k, bs).value, ReadStrings(k - 1, h.rest[h.argument..]).value;
      assert r.strings[1..] == more.strings;
      assert h.rest == h.rest[..h.argument] + h.rest[h.argument..];
    }
  }

  /** The encoding and the strict reader are inverse in both directions. */
  lemma EncodeDecode(peaks: seq<seq<byte>>, bs: seq<byte>)
    ensures Encode(peaks) == Some(bs) <==> Decode(bs) == Some(peaks)
  {
    hide Header, ReadStrict, Strings, ReadStrings;
    if Encode(peaks) == Some(bs) {
      var body := Strings(peaks).value;
      HeaderFits(4, |peaks|);
      HeaderRead(4, |peaks|, body);
      StringsRead(peaks, []);
      assert body + [] == body;
    }
    if Decode(bs) == Some(peaks) {
      var h := ReadStrict(bs).value;
      HeaderWritten(bs);
      StringsWritten(h.argument, h.rest);
      assert Strings(peaks).value + [] == Strings(peaks).value;
    }
  }

  /** No commitment object is a prefix of another, so equal bytes mean equal peak lists. */
  lemma EncodePrefixFree(p: seq<seq<byte>>, q: seq<seq<byte>>, rest: seq<byte>)
    requires Encode(p).Some? && Encode(q) == Some(Encode(p).value + rest)
    ensures p == q && rest == []
  {
    hide Header, ReadStrict, Strings, ReadStrings;
    var a, b := Strings(p).value, Strings(q).value;
    HeaderFits(4, |p|);
    HeaderFits(4, |q|);
    HeaderRead(4, |p|, a + rest);
    HeaderRead(4, |q|, b);
    assert Encode(p).value + rest == Header(4, |p|).value + (a + rest);
    StringsRead(p, rest);
    StringsRead(q, []);
    assert b + [] == b;
  }

  lemma {:induction false} StringsFit(ps: seq<seq<byte>>)
    ensures Strings(ps).Some? <==> forall i :: 0 <= i < |ps| ==> |ps[i]| < 0x1_0000_0000_0000_0000
  {
    hide Header;
    if ps != [] {
      HeaderFits(2, |ps[0]|);
      StringsFit(ps[1..]);
      assert forall i :: 0 < i < |ps| ==> ps[i] == ps[1..][i - 1];
      assert forall i :: 0 <= i < |ps[1..]| ==> ps[1..][i] == ps[i + 1];
    }
  }

  /** Encoding fails exactly when a length does not fit in 64 bits. */
  lemma EncodeDefined(peaks: seq<seq<byte>>)
    ensures Encode(peaks).Some? <==>
      |peaks| < 0x1_0000_0000_0000_0000 && forall i :: 0 <= i < |peaks| ==> |peaks[i]| < 0x1_0000_0000_0000_0000
  {
    hide Header;
    HeaderFits(4, |peaks|);
    StringsFit(peaks);
  }

  /** The peaks one after another, each behind the two bytes of a 32-byte string. */
  function Framed(peaks: seq<seq<byte>>): seq<byte> {
    if peaks == [] then [] else [0x58, 0x20] + peaks[0] + Framed(peaks[1..])
  }

  lemma {:induction false} StringsFramed(peaks: seq<seq<byte>>)
    requires forall i :: 0 <= i < |peaks| ==> |peaks[i]| == 32
    ensures Strings(peaks) == Some(Framed(peaks))
  {
    if peaks != [] {
      StringsFramed(peaks[1..]);
      assert Header(2, 32) == Some([0x58, 0x20]);
    }
  }

  /** The bytes of up to 255 peaks: an array header of one byte, or two from 24 peaks on, and the framed peaks. A range
      of fewer than 2^64 nodes never has more than 64. */
  lemma EncodePlainly(peaks: seq<seq<byte>>)
    requires |peaks| < 256 && forall i :: 0 <= i < |peaks| ==> |peaks[i]| == 32
    ensures Encode(peaks) == Some((if |peaks| < 24 then [0x80 + |peaks|] else [0x98, |peaks|]) + Framed(peaks))
  {
    hide Strings, Framed;
    StringsFramed(peaks);
  }

  lemma {:induction false} StringsSnoc(ps: seq<seq<byte>>, p: seq<byte>)
    ensures Strings(ps + [p]) ==
      if Strings(ps).Some? && Header(2, |p|).Some? then Some(Strings(ps).value + Header(2, |p|).value + p) else None
  {
    hide Header;
    if ps == [] {
      assert (ps + [p])[1..] == [];
      if Header(2, |p|).Some? { assert Header(2, |p|).value + p + [] == [] + Header(2, |p|).value + p; }
    } else {
      assert (ps + [p])[1..] == ps[1..] + [p];
      StringsSnoc(ps[1..], p);
      if Strings(ps + [p]).Some? {
        var h, t, g := Header(2, |ps[0]|).value, Strings(ps[1..]).value, Header(2, |p|).value;
        assert h + ps[0] + (t + g + p) == h + ps[0] + t + g + p;
      }
    }
  }

  /** `commitment_object` as written: a byte array grown peak by peak. */
  method CommitmentObject(peaks: seq<seq<byte>>) returns (r: Option<seq<byte>>)
    ensures r == Encode(peaks)
    ensures r.Some? ==> Decode(r.value) == Some(peaks)
  {
    hide Header, Strings, Decode;
    var head := Header(4, |peaks|);
    if head.None? { return None; }
    var out := head.value;
    var i := 0;
    assert head.value + [] == head.value;
    EmptyStrings();
    while i < |peaks|
      invariant 0 <= i <= |peaks|
      invariant Strings(peaks[..i]).Some? && out == head.value + Strings(peaks[..i]).value
    {
      var p := peaks[i];
      assert peaks[..i + 1] == peaks[..i] + [p];
      StringsSnoc(peaks[..i], p);
      var h := Header(2, |p|);
      if h.None? {
        PrefixFails(peaks, i + 1);
        return None;
      }
      assert head.value + (Strings(peaks[..i]).value + h.value + p) == out + h.value + p;
      out := out + h.value;
      out := out + p;
      i := i + 1;
    }
    assert peaks[..i] == peaks;
    EncodeDecode(peaks, out);
    return Some(out);
  }

  lemma EmptyStrings()
    ensures Strings([]) == Some([])
  {}

  lemma PrefixFails(ps: seq<seq<byte>>, k: nat)
    requires k <= |ps| && Strings(ps[..k]).None?
    ensures Strings(ps).None?
  {
    hide Strings;
    StringsFit(ps);
    StringsFit(ps[..k]);
  }

  /** The commitment object of an accumulator binds the whole log of that size, as the bagged root does. */
  lemma CommitmentBindsLog(sha: Mmr.Sha, ls: seq<seq<byte>>, ms: seq<seq<byte>>)
    requires |ls| == |ms|
    requires Encode(Consistency.StorePeaks(Mmr.Hasher(sha), ls, |ls|)).Some?
    requires Encode(Consistency.StorePeaks(Mmr.Hasher(sha), ls, |ls|))
             == Encode(Consistency.StorePeaks(Mmr.Hasher(sha), ms, |ms|))
    ensures ls == ms || Mmr.Collision(sha, Consistency.RootInputs(sha, ls) + Consistency.RootInputs(sha, ms))
  {
    hide Encode, Decode, Mmr.Nodes, Mmr.Peaks, Mmr.Bag, Mmr.Collision, Consistency.RootInputs, Mmr.Hasher;
    var h := Mmr.Hasher(sha);
    var a, b := Consistency.StorePeaks(h, ls, |ls|), Consistency.StorePeaks(h, ms, |ms|);
    EncodeDecode(a, Encode(a).value);
    EncodeDecode(b, Encode(a).value);
    ChainVerify.RootBinds(sha, ls, ms);
  }
}
