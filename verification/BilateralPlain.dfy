/** The handshake in plain terms: the text each party signs, and what every step answers and records. */
module BilateralPlain {
  import opened Bytes
  import opened Sorting
  import opened Bilateral
  import Jcs

  // ---------------------------------------------------------------- the signed text

  /** Printable ASCII without quotes and backslashes. */
  predicate PlainName(s: string) {
    forall i :: 0 <= i < |s| ==> 32 <= s[i] as int < 128 && s[i] != '\"' && s[i] != '\\'
  }

  lemma {:induction false} EscapeNothing(s: string)
    requires PlainName(s)
    ensures Jcs.EscapeAll(s) == s
    ensures |Jcs.Utf16(s)| == |s| && forall i :: 0 <= i < |s| ==> Jcs.Utf16(s)[i] == s[i] as int
  {
    if s != [] {
      var rest := s[1..];
      assert forall i :: 0 <= i < |rest| ==> rest[i] == s[i + 1];
      EscapeNothing(rest);
      PlainChar(s[0]);
      assert s == [s[0]] + rest;
    }
  }

  lemma PlainChar(c: char)
    requires 32 <= c as int < 128 && c != '\"' && c != '\\'
    ensures Jcs.Escape(c) == [c] && Jcs.Units(c) == [c as int]
  {}

  /** The first difference decides. */
  lemma {:induction false} LexAt(a: seq<int>, b: seq<int>, k: nat)
    requires k < |a| && k < |b| && a[k] < b[k] && forall i :: 0 <= i < k ==> a[i] == b[i]
    ensures Jcs.LexLess(a, b)
  {
    if k > 0 { LexAt(a[1..], b[1..], k - 1); }
  }

  lemma NameBefore(a: Jcs.Member, b: Jcs.Member, k: nat)
    requires PlainName(a.key) && PlainName(b.key)
    requires k < |a.key| && k < |b.key| && a.key[k] < b.key[k] && a.key[..k] == b.key[..k]
    ensures Jcs.KeyLess(a, b)
  {
    hide Jcs.LexLess, Jcs.Utf16;
    EscapeNothing(a.key);
    EscapeNothing(b.key);
    assert forall i :: 0 <= i < k ==> a.key[i] == a.key[..k][i] && b.key[i] == b.key[..k][i];
    LexAt(Jcs.Utf16(a.key), Jcs.Utf16(b.key), k);
  }

  /** Members listed in ascending order of their names are written in that order. */
  lemma SortsTo(given: seq<Jcs.Member>, x: Jcs.Member, y: Jcs.Member, z: Jcs.Member, w: Jcs.Member)
    requires Jcs.KeyLess(x, y) && Jcs.KeyLess(y, z) && Jcs.KeyLess(z, w)
    requires Jcs.DistinctKeys(given) && multiset(given) == multiset([x, y, z, w])
    ensures Jcs.Canon(given) == Jcs.Utf8(Jcs.ObjectText([x, y, z, w]))
  {
    hide Jcs.KeyLess, Jcs.ObjectText, Jcs.Utf8, StrictOrder, Sort, Jcs.DistinctKeys, Comparable, Sorted;
    Jcs.KeyOrder();
    FourSorted(x, y, z, w);
    Jcs.DistinctComparable(given);
    SortSorted(Jcs.KeyLess, given);
    SortContents(Jcs.KeyLess, given);
    SortedUnique(Jcs.KeyLess, Sort(Jcs.KeyLess, given), [x, y, z, w]);
  }

  lemma FourSorted(x: Jcs.Member, y: Jcs.Member, z: Jcs.Member, w: Jcs.Member)
    requires Jcs.KeyLess(x, y) && Jcs.KeyLess(y, z) && Jcs.KeyLess(z, w)
    ensures Sorted(Jcs.KeyLess, [x, y, z, w])
  {
    hide Jcs.KeyLess;
    Jcs.KeyOrder();
    assert Jcs.KeyLess(x, z) && Jcs.KeyLess(y, w) && Jcs.KeyLess(x, w);
  }

  function Pair(name: string, value: string): string {
    "\"" + name + "\":" + value
  }

  lemma FourWritten(x: Jcs.Member, y: Jcs.Member, z: Jcs.Member, w: Jcs.Member)
    requires PlainName(x.key) && PlainName(y.key) && PlainName(z.key) && PlainName(w.key)
    ensures Jcs.ObjectText([x, y, z, w])
            == "{" + Pair(x.key, Jcs.ValueText(x.value)) + "," + Pair(y.key, Jcs.ValueText(y.value))
               + "," + Pair(z.key, Jcs.ValueText(z.value)) + "," + Pair(w.key, Jcs.ValueText(w.value)) + "}"
  {
    hide Jcs.ValueText, Jcs.MemberText, PlainName, Pair;
    MemberPlain(x);
    MemberPlain(y);
    MemberPlain(z);
    MemberPlain(w);
    RestFour(x, y, z, w);
    Joined(Jcs.MemberText(x), Jcs.MemberText(y), Jcs.MemberText(z), Jcs.MemberText(w));
  }

  lemma Joined(a: string, b: string, c: string, d: string)
    ensures "{" + (a + ("," + b + "," + c + "," + d + "}")) == "{" + a + "," + b + "," + c + "," + d + "}"
  {}

  lemma MemberPlain(m: Jcs.Member)
    requires PlainName(m.key)
    ensures Jcs.MemberText(m) == Pair(m.key, Jcs.ValueText(m.value))
  {
    hide Jcs.ValueText, Jcs.EscapeAll;
    EscapeNothing(m.key);
    assert "\"" + m.key + "\"" + (":" + Jcs.ValueText(m.value)) == "\"" + m.key + "\":" + Jcs.ValueText(m.value);
  }

  lemma RestFour(x: Jcs.Member, y: Jcs.Member, z: Jcs.Member, w: Jcs.Member)
    ensures Jcs.Rest([x, y, z, w][1..])
            == "," + Jcs.MemberText(y) + "," + Jcs.MemberText(z) + "," + Jcs.MemberText(w) + "}"
  {
    hide Jcs.MemberText;
    assert [x, y, z, w][1..] == [y, z, w] && [y, z, w][1..] == [z, w] && [z, w][1..] == [w] && [w][1..] == [];
    var a, b, c := Jcs.MemberText(y), Jcs.MemberText(z), Jcs.MemberText(w);
    assert Jcs.Rest([w]) == "," + (c + "}");
    assert Jcs.Rest([z, w]) == "," + (b + ("," + (c + "}")));
    assert "," + (a + ("," + (b + ("," + (c + "}"))))) == "," + a + "," + b + "," + c + "}";
  }

  /** A quoted text, or null. */
  function OrNull(v: Option<string>): string {
    if v.Some? then Jcs.Quote(v.value) else "null"
  }

  lemma RequestNames()
    ensures PlainName("action_digest") && PlainName("phase")
    ensures PlainName("requester_org") && PlainName("responder_org")
  {}

  lemma ActionNames()
    ensures PlainName("handshake_id") && PlainName("phase")
    ensures PlainName("request_sig_digest") && PlainName("responder_org")
  {}

  lemma ConfirmNames()
    ensures PlainName("acked_sig_digest") && PlainName("handshake_id") && PlainName("party_org") && PlainName("phase")
  {}

  lemma QuotePlain(s: string)
    requires PlainName(s)
    ensures Jcs.Quote(s) == "\"" + s + "\""
  {
    hide Jcs.EscapeAll;
    EscapeNothing(s);
  }

  lemma RequestQuoted()
    ensures Jcs.Quote("request") == "\"request\""
  {
    hide Jcs.Quote;
    QuotePlain("request");
  }

  lemma ActionQuoted()
    ensures Jcs.Quote("action") == "\"action\""
  {
    hide Jcs.Quote;
    QuotePlain("action");
  }

  lemma ConfirmQuoted()
    ensures Jcs.Quote("confirm") == "\"confirm\""
  {
    hide Jcs.Quote;
    QuotePlain("confirm");
  }

  lemma RequestOrder(a: Option<string>, b: Option<string>, c: Option<string>, d: Option<string>)
    ensures Jcs.KeyLess(Jcs.Member("action_digest", a), Jcs.Member("phase", b))
    ensures Jcs.KeyLess(Jcs.Member("phase", b), Jcs.Member("requester_org", c))
    ensures Jcs.KeyLess(Jcs.Member("requester_org", c), Jcs.Member("responder_org", d))
  {
    hide Jcs.KeyLess, PlainName;
    RequestNames();
    NameBefore(Jcs.Member("action_digest", a), Jcs.Member("phase", b), 0);
    NameBefore(Jcs.Member("phase", b), Jcs.Member("requester_org", c), 0);
    assert "requester_org"[..2] == "re" == "responder_org"[..2];
    NameBefore(Jcs.Member("requester_org", c), Jcs.Member("responder_org", d), 2);
  }

  lemma ActionOrder(a: Option<string>, b: Option<string>, c: Option<string>, d: Option<string>)
    ensures Jcs.KeyLess(Jcs.Member("handshake_id", a), Jcs.Member("phase", b))
    ensures Jcs.KeyLess(Jcs.Member("phase", b), Jcs.Member("request_sig_digest", c))
    ensures Jcs.KeyLess(Jcs.Member("request_sig_digest", c), Jcs.Member("responder_org", d))
  {
    hide Jcs.KeyLess, PlainName;
    ActionNames();
    NameBefore(Jcs.Member("handshake_id", a), Jcs.Member("phase", b), 0);
    NameBefore(Jcs.Member("phase", b), Jcs.Member("request_sig_digest", c), 0);
    assert "request_sig_digest"[..2] == "re" == "responder_org"[..2];
    NameBefore(Jcs.Member("request_sig_digest", c), Jcs.Member("responder_org", d), 2);
  }

  lemma ConfirmOrder(a: Option<string>, b: Option<string>, c: Option<string>, d: Option<string>)
    ensures Jcs.KeyLess(Jcs.Member("acked_sig_digest", a), Jcs.Member("handshake_id", b))
    ensures Jcs.KeyLess(Jcs.Member("handshake_id", b), Jcs.Member("party_org", c))
    ensures Jcs.KeyLess(Jcs.Member("party_org", c), Jcs.Member("phase", d))
  {
    hide Jcs.KeyLess, PlainName;
    ConfirmNames();
    NameBefore(Jcs.Member("acked_sig_digest", a), Jcs.Member("handshake_id", b), 0);
    NameBefore(Jcs.Member("handshake_id", b), Jcs.Member("party_org", c), 0);
    assert "party_org"[..1] == "p" == "phase"[..1];
    NameBefore(Jcs.Member("party_org", c), Jcs.Member("phase", d), 1);
  }

  /** The digest text of a signature: its three fields joined by colons, in UTF-8, hashed. */
  function Fingerprint(env: Env, s: Sig): string {
    env.sha(Jcs.Utf8(s.alg + ":" + s.keyId + ":" + s.signature))
  }

  function RequestBytes(requester: string, responder: Option<string>, actionDigest: string): seq<byte> {
    Jcs.Utf8("{" + Pair("action_digest", Jcs.Quote(actionDigest)) + "," + Pair("phase", "\"request\"")
             + "," + Pair("requester_org", Jcs.Quote(requester)) + "," + Pair("responder_org", OrNull(responder)) + "}")
  }

  function ActionBytes(env: Env, id: string, responder: string, request: Sig): seq<byte> {
    Jcs.Utf8("{" + Pair("handshake_id", Jcs.Quote(id)) + "," + Pair("phase", "\"action\"")
             + "," + Pair("request_sig_digest", Jcs.Quote(Fingerprint(env, request)))
             + "," + Pair("responder_org", Jcs.Quote(responder)) + "}")
  }

  function ConfirmBytes(env: Env, id: string, party: string, acked: Sig): seq<byte> {
    Jcs.Utf8("{" + Pair("acked_sig_digest", Jcs.Quote(Fingerprint(env, acked))) + "," + Pair("handshake_id", Jcs.Quote(id))
             + "," + Pair("party_org", Jcs.Quote(party)) + "," + Pair("phase", "\"confirm\"") + "}")
  }

  /** What the requester signs. */
  lemma RequestText(requester: string, responder: Option<string>, actionDigest: string)
    ensures RequestPayload(requester, responder, actionDigest) == RequestBytes(requester, responder, actionDigest)
  {
    hide Jcs.Canon, Jcs.KeyLess, Jcs.ObjectText, Jcs.Utf8, Jcs.EscapeAll, Jcs.Quote, PlainName, Pair;
    Names();
    RequestNames();
    RequestQuoted();
    var x, y := Jcs.Member("action_digest", Some(actionDigest)), Jcs.Member("phase", Some("request"));
    var z, w := Jcs.Member("requester_org", Some(requester)), Jcs.Member("responder_org", responder);
    RequestOrder(x.value, y.value, z.value, w.value);
    assert multiset(RequestMembers(requester, responder, actionDigest)) == multiset{x, y, z, w} == multiset([x, y, z, w]);
    SortsTo(RequestMembers(requester, responder, actionDigest), x, y, z, w);
    FourWritten(x, y, z, w);
  }

  /** What the responder signs over the request's signature. */
  lemma ActionText(env: Env, id: string, responder: string, request: Sig)
    ensures ActionPayload(id, responder, SigDigest(env, request)) == ActionBytes(env, id, responder, request)
  {
    hide Jcs.Canon, Jcs.KeyLess, Jcs.ObjectText, Jcs.Utf8, Jcs.EscapeAll, Jcs.Quote, PlainName, Pair;
    Names();
    ActionNames();
    ActionQuoted();
    var digest := SigDigest(env, request);
    var x, y := Jcs.Member("handshake_id", Some(id)), Jcs.Member("phase", Some("action"));
    var z, w := Jcs.Member("request_sig_digest", Some(digest)), Jcs.Member("responder_org", Some(responder));
    ActionOrder(x.value, y.value, z.value, w.value);
    assert multiset(ActionMembers(id, responder, digest)) == multiset{x, y, z, w} == multiset([x, y, z, w]);
    SortsTo(ActionMembers(id, responder, digest), x, y, z, w);
    FourWritten(x, y, z, w);
  }

  /** What a party signs over the other party's signature. */
  lemma ConfirmText(env: Env, id: string, party: string, acked: Sig)
    ensures ConfirmPayload(id, party, SigDigest(env, acked)) == ConfirmBytes(env, id, party, acked)
  {
    hide Jcs.Canon, Jcs.KeyLess, Jcs.ObjectText, Jcs.Utf8, Jcs.EscapeAll, Jcs.Quote, PlainName, Pair;
    Names();
    ConfirmNames();
    ConfirmQuoted();
    var digest := SigDigest(env, acked);
    var x, y := Jcs.Member("acked_sig_digest", Some(digest)), Jcs.Member("handshake_id", Some(id));
    var z, w := Jcs.Member("party_org", Some(party)), Jcs.Member("phase", Some("confirm"));
    ConfirmOrder(x.value, y.value, z.value, w.value);
    assert multiset(ConfirmMembers(id, party, digest)) == multiset{x, y, z, w} == multiset([x, y, z, w]);
    SortsTo(ConfirmMembers(id, party, digest), x, y, z, w);
    FourWritten(x, y, z, w);
  }

  lemma {:induction false} EscapeJoins(s: string, t: string)
    ensures Jcs.EscapeAll(s + t) == Jcs.EscapeAll(s) + Jcs.EscapeAll(t)
  {
    hide Jcs.Escape;
    if s == [] {
      assert s + t == t;
    } else {
      assert (s + t)[1..] == s[1..] + t;
      EscapeJoins(s[1..], t);
    }
  }

  lemma EscapeOne(c: char)
    ensures Jcs.EscapeAll([c]) == Jcs.Escape(c)
  {
    assert [c][1..] == [];
  }

  /** Section 3.2.2.2 of RFC 8785, character by character: quote and backslash behind a backslash, the five controls
      with a letter, every other control in four lower-case hexadecimal digits, everything else as it is. */
  lemma EscapeTable(s: string, c: char, t: string) returns (e: string)
    ensures Jcs.EscapeAll(s + [c] + t) == Jcs.EscapeAll(s) + e + Jcs.EscapeAll(t)
    ensures c == '\"' ==> e == "\\\""
    ensures c == '\\' ==> e == "\\\\"
    ensures c == '\n' ==> e == "\\n"
    ensures c == '\r' ==> e == "\\r"
    ensures c == '\t' ==> e == "\\t"
    ensures c as int == 8 ==> e == "\\b"
    ensures c as int == 12 ==> e == "\\f"
    ensures c as int >= 32 && c != '\"' && c != '\\' ==> e == [c]
    ensures c as int < 32 && c as int !in {8, 9, 10, 12, 13} ==>
      && |e| == 6 && e[..4] == "\\u00"
      && e[4] == (if c as int < 16 then '0' else '1') && e[5] == "0123456789abcdef"[c as int % 16]
  {
    e := Jcs.Escape(c);
    EscapeJoins(s + [c], t);
    EscapeJoins(s, [c]);
    EscapeOne(c);
  }

  function Less(b: byte, marker: int): int {
    b as int - marker
  }

  predicate Continues(b: byte) {
    0x80 <= b < 0xC0
  }

  lemma {:induction false} Utf8Joins(s: string, t: string)
    ensures Jcs.Utf8(s + t) == Jcs.Utf8(s) + Jcs.Utf8(t)
  {
    hide Jcs.Utf8Char;
    if s == [] {
      assert s + t == t;
    } else {
      assert (s + t)[1..] == s[1..] + t;
      Utf8Joins(s[1..], t);
    }
  }

  /** UTF-8 of one scalar value: the number of bytes by range, the lead byte's range, continuation bytes, and the
      value they spell. */
  lemma Utf8Plainly(c: char)
    ensures
      var v, u := c as int, Jcs.Utf8([c]);
      if v < 0x80 then u == [v]
      else if v < 0x800 then
        |u| == 2 && 0xC0 <= u[0] < 0xE0 && Continues(u[1]) && v == Less(u[0], 0xC0) * 0x40 + Less(u[1], 0x80)
      else if v < 0x10000 then
        |u| == 3 && 0xE0 <= u[0] < 0xF0 && Continues(u[1]) && Continues(u[2])
        && v == Less(u[0], 0xE0) * 0x1000 + Less(u[1], 0x80) * 0x40 + Less(u[2], 0x80)
      else
        |u| == 4 && 0xF0 <= u[0] < 0xF8 && Continues(u[1]) && Continues(u[2]) && Continues(u[3])
        && v == Less(u[0], 0xF0) * 0x40000 + Less(u[1], 0x80) * 0x1000 + Less(u[2], 0x80) * 0x40 + Less(u[3], 0x80)
  {
    assert [c][1..] == [];
    assert Jcs.Utf8([c]) == Jcs.Utf8Char(c) + [] == Jcs.Utf8Char(c);
    Jcs.Digits64(c as int);
  }

  // ---------------------------------------------------------------- the steps

  /** Opening records the handshake exactly when the requester's signature verifies over the request; without a
      responder it is ONE_SIDED at once. */
  lemma OpenPlainly(env: Env, m: map<string, Record>, id: string, requester: string, responder: Option<string>,
                    digest: string, sig: Sig)
    ensures
      var op := Open(id, requester, responder, digest, sig);
      var begun := Record(id, requester, responder, digest, if responder.Some? then Requested else OneSided,
                           Some(sig), None, None, None);
      if env.verify(requester, RequestBytes(requester, responder, digest), sig) then
        Decide(env, m, op) == Done(begun) && After(env, m, op) == m[id := begun]
      else Decide(env, m, op) == Raised(InvalidSignature) && After(env, m, op) == m
  {
    hide RequestPayload, RequestBytes;
    RequestText(requester, responder, digest);
  }

  /** A response is recorded exactly on a REQUESTED handshake whose responder signed its request's signature. */
  lemma RespondPlainly(env: Env, m: map<string, Record>, id: string, sig: Sig)
    requires Consistent(env, m)
    ensures
      var op := Respond(id, sig);
      if id !in m then Decide(env, m, op) == Raised(NotFound) && After(env, m, op) == m
      else if m[id].state != Requested then
        Decide(env, m, op) == Raised(IllegalTransition(m[id].state)) && After(env, m, op) == m
      else
        && m[id].responder.Some? && m[id].requestSig.Some?
        && if env.verify(m[id].responder.value, ActionBytes(env, id, m[id].responder.value, m[id].requestSig.value), sig)
           then
             var acted := m[id].(actionSig := Some(sig), state := Acted);
             Decide(env, m, op) == Done(acted) && After(env, m, op) == m[id := acted]
           else Decide(env, m, op) == Raised(InvalidSignature) && After(env, m, op) == m
  {
    hide ActionPayload, SigDigest, ActionBytes, RequestPayload, ConfirmPayload;
    if id in m {
      KeyIsId(env, m, id);
      if m[id].state == Requested { ActionText(env, id, m[id].responder.value, m[id].requestSig.value); }
    }
  }

  /** A confirmation is recorded exactly on an ACTED handshake by one of its two parties over the other one's
      signature, the requester's role first; it is BILATERAL as soon as the other confirmation is held too. */
  lemma ConfirmPlainly(env: Env, m: map<string, Record>, id: string, party: string, sig: Sig)
    requires Consistent(env, m)
    ensures
      var op := Confirm(id, party, sig);
      if id !in m then Decide(env, m, op) == Raised(NotFound) && After(env, m, op) == m
      else if m[id].state != Acted then
        Decide(env, m, op) == Raised(IllegalTransition(m[id].state)) && After(env, m, op) == m
      else if party != m[id].requester && Some(party) != m[id].responder then
        Decide(env, m, op) == Raised(UnknownParty) && After(env, m, op) == m
      else
        && m[id].requestSig.Some? && m[id].actionSig.Some?
        && var acked := if party == m[id].requester then m[id].actionSig.value else m[id].requestSig.value;
        && var confirmed :=
             if party == m[id].requester then
               m[id].(requesterConfirm := Some(sig),
                      state := if m[id].responderConfirm.Some? then State.Bilateral else Acted)
             else
               m[id].(responderConfirm := Some(sig),
                      state := if m[id].requesterConfirm.Some? then State.Bilateral else Acted);
        if env.verify(party, ConfirmBytes(env, id, party, acked), sig) then
          Decide(env, m, op) == Done(confirmed) && After(env, m, op) == m[id := confirmed]
        else Decide(env, m, op) == Raised(InvalidSignature) && After(env, m, op) == m
  {
    hide ConfirmPayload, SigDigest, ConfirmBytes, RequestPayload, ActionPayload;
    if id in m {
      KeyIsId(env, m, id);
      if m[id].state == Acted {
        ConfirmText(env, id, party, m[id].actionSig.value);
        ConfirmText(env, id, party, m[id].requestSig.value);
      }
    }
  }

  /** A refusal is recorded exactly on a REQUESTED handshake, and changes nothing but its state. */
  lemma GhostPlainly(env: Env, m: map<string, Record>, id: string)
    ensures Decide(env, m, Ghost(id)).Done? <==> id in m && m[id].state.Requested?
    ensures After(env, m, Ghost(id)) ==
      if id in m && m[id].state.Requested? then m[id := m[id].(state := CountersignRefused)] else m
    ensures id !in m ==> Decide(env, m, Ghost(id)) == Raised(NotFound)
    ensures id in m && !m[id].state.Requested? ==> Decide(env, m, Ghost(id)) == Raised(IllegalTransition(m[id].state))
  {}
}
