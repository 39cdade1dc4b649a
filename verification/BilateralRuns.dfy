/** How a handshake evolves over a run: monotone, one way out of each state, and when confirmations commute. */
module BilateralRuns {
  import opened Bytes
  import opened Bilateral

  /** Every `open` draws an identifier no record has yet. */
  ghost predicate FreshIds(env: Env, m: map<string, Record>, ops: seq<Op>)
    decreases |ops|
  {
    ops == [] || ((ops[0].Open? ==> ops[0].id !in m) && FreshIds(env, After(env, m, ops[0]), ops[1..]))
  }

  function Rank(s: State): nat {
    match s
    case Requested => 0
    case Acted => 1
    case Bilateral => 2
    case OneSided => 2
    case CountersignRefused => 2
  }

  /** `b` is what `a` has become: the request is fixed, the rank never falls and a rank names one state from
      here on, signatures are never lost, the action signature is never replaced, terminal states never move. */
  ghost predicate Later(a: Record, b: Record) {
    && a.id == b.id && SameRequest(a, b)
    && Rank(a.state) <= Rank(b.state)
    && (Rank(a.state) == Rank(b.state) ==> a.state == b.state)
    && (Rank(a.state) == 2 ==> a == b)
    && (a.state.Acted? ==> b.state.Acted? || b.state.Bilateral?)
    && (a.actionSig.Some? ==> b.actionSig == a.actionSig)
    && (a.requesterConfirm.Some? ==> b.requesterConfirm.Some?)
    && (a.responderConfirm.Some? ==> b.responderConfirm.Some?)
  }

  lemma StepLater(env: Env, m: map<string, Record>, op: Op, id: string)
    requires Consistent(env, m) && id in m && (op.Open? ==> op.id !in m)
    ensures id in After(env, m, op) && Later(m[id], After(env, m, op)[id])
  {
    hide RequestPayload, ActionPayload, ConfirmPayload, SigDigest;
    assert m[id].id == id && RecordOk(env, m[id]);
  }

  /** Over any run of any operations by anyone, a handshake only moves forward. */
  lemma {:induction false} RunLater(env: Env, m: map<string, Record>, ops: seq<Op>, id: string)
    requires Consistent(env, m) && FreshIds(env, m, ops) && id in m
    ensures id in Run(env, m, ops) && Later(m[id], Run(env, m, ops)[id])
    decreases |ops|
  {
    hide Consistent, After;
    if ops != [] {
      StepLater(env, m, ops[0], id);
      StepConsistent(env, m, ops[0]);
      RunLater(env, After(env, m, ops[0]), ops[1..], id);
    }
  }

  /** Once a response has been accepted no refusal can be recorded, however many steps later, and the other
      way round. */
  lemma RespondExcludesGhost(env: Env, m: map<string, Record>, ops: seq<Op>, first: Op, second: Op)
    requires Consistent(env, m) && FreshIds(env, After(env, m, first), ops)
    requires first.id == second.id
    requires (first.Respond? && second.Ghost?) || (first.Ghost? && second.Respond?)
             || (first.Respond? && second.Respond?) || (first.Ghost? && second.Ghost?)
    requires Decide(env, m, first).Done?
    ensures Decide(env, Run(env, After(env, m, first), ops), second).Raised?
    ensures Decide(env, Run(env, After(env, m, first), ops), second).error.IllegalTransition?
  {
    hide Consistent, Run, ActionPayload, SigDigest;
    StepConsistent(env, m, first);
    RunLater(env, After(env, m, first), ops, first.id);
  }

  /** A confirmation that the current ACTED record would accept. */
  ghost predicate ValidConfirm(env: Env, r: Record, party: string, sig: Sig) {
    r.state.Acted? && ConfirmOutcome(env, r, party, sig).Done?
  }

  /** The record a confirmation leaves behind, whether or not it is accepted. */
  function Confirmed(env: Env, r: Record, party: string, sig: Sig): Record {
    var o := ConfirmOutcome(env, r, party, sig);
    if o.Done? then o.record else r
  }

  lemma AfterConfirm(env: Env, m: map<string, Record>, id: string, party: string, sig: Sig)
    requires id in m
    ensures After(env, m, Confirm(id, party, sig)) == m[id := Confirmed(env, m[id], party, sig)]
  {
    hide ConfirmOutcome;
    assert m == m[id := m[id]];
  }

  lemma AfterBoth(env: Env, m: map<string, Record>, id: string, p: string, s: Sig, q: string, t: Sig)
    requires id in m
    ensures After(env, After(env, m, Confirm(id, p, s)), Confirm(id, q, t))
            == m[id := Confirmed(env, Confirmed(env, m[id], p, s), q, t)]
  {
    hide Confirmed, After;
    AfterConfirm(env, m, id, p, s);
    AfterConfirm(env, After(env, m, Confirm(id, p, s)), id, q, t);
    assert m[id := Confirmed(env, m[id], p, s)][id := Confirmed(env, Confirmed(env, m[id], p, s), q, t)]
        == m[id := Confirmed(env, Confirmed(env, m[id], p, s), q, t)];
  }

  lemma UpdateInjective(m: map<string, Record>, id: string, x: Record, y: Record)
    ensures m[id := x] == m[id := y] <==> x == y
  {
    assert m[id := x][id] == x && m[id := y][id] == y;
  }

  /** Whether each confirmation is either the record's first or the one it already holds. */
  predicate NoReplacement(r: Record, s: Sig, t: Sig) {
    (r.requesterConfirm.None? || r.requesterConfirm == Some(s))
    && (r.responderConfirm.None? || r.responderConfirm == Some(t))
  }

  predicate Unconfirmed(r: Record) {
    r.requesterConfirm.None? && r.responderConfirm.None?
  }

  function Completed(r: Record, s: Sig, t: Sig): Record {
    r.(requesterConfirm := Some(s), responderConfirm := Some(t), state := Bilateral)
  }

  lemma RecordsCommute(env: Env, r: Record, q: string, s: Sig, t: Sig)
    requires RecordOk(env, r) && r.responder == Some(q) && q != r.requester
    requires ValidConfirm(env, r, r.requester, s) && ValidConfirm(env, r, q, t)
    ensures
      var a, b := Confirmed(env, r, r.requester, s), Confirmed(env, r, q, t);
      && (Confirmed(env, a, q, t) == Confirmed(env, b, r.requester, s) <==> NoReplacement(r, s, t))
      && (ConfirmOutcome(env, a, q, t).Done? && ConfirmOutcome(env, b, r.requester, s).Done? <==> Unconfirmed(r))
      && (Unconfirmed(r) ==> Confirmed(env, a, q, t) == Completed(r, s, t))
  {
    hide ConfirmPayload, SigDigest, RequestSigned, ActionSigned, RequesterConfirmed, ResponderConfirmed;
  }

  /** Confirmations that both parties could make now commute exactly when neither replaces a confirmation the
      record already holds by a different one; both succeed in either order exactly when the record holds none,
      and then the record is BILATERAL with both. */
  lemma ConfirmsCommute(env: Env, m: map<string, Record>, id: string, q: string, s: Sig, t: Sig)
    requires Consistent(env, m) && id in m && m[id].responder == Some(q) && q != m[id].requester
    requires ValidConfirm(env, m[id], m[id].requester, s) && ValidConfirm(env, m[id], q, t)
    ensures
      var a, b := Confirm(id, m[id].requester, s), Confirm(id, q, t);
      && (After(env, After(env, m, a), b) == After(env, After(env, m, b), a) <==> NoReplacement(m[id], s, t))
      && (Decide(env, After(env, m, a), b).Done? && Decide(env, After(env, m, b), a).Done? <==> Unconfirmed(m[id]))
      && (Unconfirmed(m[id]) ==> After(env, After(env, m, a), b) == m[id := Completed(m[id], s, t)])
  {
    hide ConfirmOutcome, Confirmed, NoReplacement, Unconfirmed, ValidConfirm, After, RecordOk, Completed;
    var r := m[id];
    RecordsCommute(env, r, q, s, t);
    AfterConfirm(env, m, id, r.requester, s);
    AfterConfirm(env, m, id, q, t);
    AfterBoth(env, m, id, r.requester, s, q, t);
    AfterBoth(env, m, id, q, t, r.requester, s);
    UpdateInjective(m, id, Confirmed(env, Confirmed(env, r, r.requester, s), q, t),
                    Confirmed(env, Confirmed(env, r, q, t), r.requester, s));
  }

  /** The two orders do differ: reached by an open, a response and a requester's confirmation, the requester signs its
      confirmation again while the responder confirms. */
  lemma ReconfirmationRaces()
    ensures
      var env := Env((p, x, s) => true, x => "");
      var one, two := Sig("hmac", "k", "1"), Sig("hmac", "k", "2");
      var m := Run(env, map[], [Open("h", "A", Some("B"), "d", one), Respond("h", one), Confirm("h", "A", one)]);
      var a, b := Confirm("h", "A", two), Confirm("h", "B", one);
      && Decide(env, m, a).Done? && Decide(env, m, b).Done?
      && After(env, After(env, m, a), b) != After(env, After(env, m, b), a)
  {
    hide RequestPayload, ActionPayload, ConfirmPayload, SigDigest, Run;
    var env := Env((p, x, s) => true, x => "");
    var one, two := Sig("hmac", "k", "1"), Sig("hmac", "k", "2");
    var begin, respond, confirm := Open("h", "A", Some("B"), "d", one), Respond("h", one), Confirm("h", "A", one);
    var requested := Record("h", "A", Some("B"), "d", Requested, Some(one), None, None, None);
    var acted := requested.(state := Acted, actionSig := Some(one));
    var m := map["h" := acted.(requesterConfirm := Some(one))];
    assert "1"[0] != "2"[0] && "A"[0] != "B"[0];
    assert After(env, map[], begin) == map["h" := requested];
    assert After(env, map["h" := requested], respond) == map["h" := acted];
    assert After(env, map["h" := acted], confirm) == m;
    RunThree(env, begin, respond, confirm);
    NothingConsistent(env);
    RunConsistent(env, map[], [begin, respond, confirm]);
    ConfirmsCommute(env, m, "h", "B", two, one);
  }

  lemma NothingConsistent(env: Env)
    ensures Consistent(env, map[])
  {}

  lemma RunThree(env: Env, x: Op, y: Op, z: Op)
    ensures Run(env, map[], [x, y, z]) == After(env, After(env, After(env, map[], x), y), z)
  {
    hide After, Run;
    var m1 := After(env, map[], x);
    var m2 := After(env, m1, y);
    assert [x, y, z] == [x] + [y, z] && [y, z] == [y] + [z] && [z] == [z] + [];
    RunStep(env, map[], x, [y, z]);
    RunStep(env, m1, y, [z]);
    RunStep(env, m2, z, []);
    RunNone(env, After(env, m2, z));
  }

  /** A handshake with oneself never completes: the second `if` arm is unreachable for it. */
  lemma SelfHandshakeStalls(env: Env, ops: seq<Op>, id: string)
    requires id in Run(env, map[], ops)
    requires Run(env, map[], ops)[id].responder == Some(Run(env, map[], ops)[id].requester)
    ensures !Run(env, map[], ops)[id].state.Bilateral?
    ensures Run(env, map[], ops)[id].responderConfirm.None?
  {
    hide Run;
    Reached(env, ops, id);
  }

  /** The four moves do complete: between two organizations, signatures that verify over the payloads built from one
      another lead from nothing to a BILATERAL record holding exactly them, in either order of confirmation. */
  lemma FourMovesComplete(env: Env, id: string, a: string, b: string, digest: string, request: Sig, action: Sig,
                          fromA: Sig, fromB: Sig)
    requires a != b
    requires env.verify(a, RequestPayload(a, Some(b), digest), request)
    requires env.verify(b, ActionPayload(id, b, SigDigest(env, request)), action)
    requires env.verify(a, ConfirmPayload(id, a, SigDigest(env, action)), fromA)
    requires env.verify(b, ConfirmPayload(id, b, SigDigest(env, request)), fromB)
    ensures
      var start := [Open(id, a, Some(b), digest, request), Respond(id, action)];
      var done := Record(id, a, Some(b), digest, Bilateral, Some(request), Some(action), Some(fromA), Some(fromB));
      && Run(env, map[], start + [Confirm(id, a, fromA), Confirm(id, b, fromB)]) == map[id := done]
      && Run(env, map[], start + [Confirm(id, b, fromB), Confirm(id, a, fromA)]) == map[id := done]
  {
    hide RequestPayload, ActionPayload, ConfirmPayload, SigDigest, Run;
    var begin, respond := Open(id, a, Some(b), digest, request), Respond(id, action);
    var requested := Record(id, a, Some(b), digest, Requested, Some(request), None, None, None);
    var acted := requested.(state := Acted, actionSig := Some(action));
    var ca, cb := Confirm(id, a, fromA), Confirm(id, b, fromB);
    assert After(env, map[], begin) == map[id := requested];
    assert After(env, map[id := requested], respond) == map[id := acted];
    assert After(env, map[id := acted], ca) == map[id := acted.(requesterConfirm := Some(fromA))];
    assert After(env, map[id := acted], cb) == map[id := acted.(responderConfirm := Some(fromB))];
    RunFour(env, begin, respond, ca, cb);
    RunFour(env, begin, respond, cb, ca);
  }

  lemma RunFour(env: Env, w: Op, x: Op, y: Op, z: Op)
    ensures Run(env, map[], [w, x] + [y, z]) == After(env, After(env, After(env, After(env, map[], w), x), y), z)
  {
    hide After, Run;
    var m1 := After(env, map[], w);
    var m2 := After(env, m1, x);
    var m3 := After(env, m2, y);
    assert [w, x] + [y, z] == [w] + [x, y, z] && [x, y, z] == [x] + [y, z] && [y, z] == [y] + [z] && [z] == [z] + [];
    RunStep(env, map[], w, [x, y, z]);
    RunStep(env, m1, x, [y, z]);
    RunStep(env, m2, y, [z]);
    RunStep(env, m3, z, []);
    RunNone(env, After(env, m3, z));
  }

  lemma RunStep(env: Env, m: map<string, Record>, op: Op, ops: seq<Op>)
    ensures Run(env, m, [op] + ops) == Run(env, After(env, m, op), ops)
  {
    hide After;
    assert ([op] + ops)[1..] == ops;
  }

  lemma RunNone(env: Env, m: map<string, Record>)
    ensures Run(env, m, []) == m
  {}
}
