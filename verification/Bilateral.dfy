/** The bilateral attestation handshake: what each party signs, the state machine that collects the four
    signatures, and what every run of it guarantees. */
module Bilateral {
  import opened Bytes
  import Jcs

  datatype Sig = Sig(alg: string, keyId: string, signature: string)

  datatype State = Requested | Acted | Bilateral | OneSided | CountersignRefused

  datatype Record = Record(
    id: string, requester: string, responder: Option<string>, actionDigest: string, state: State,
    requestSig: Option<Sig>, actionSig: Option<Sig>,
    requesterConfirm: Option<Sig>, responderConfirm: Option<Sig>)

  /** What the state machine is given: the caller's verifier and SHA-256 in hex. */
  datatype Env = Env(verify: (string, seq<byte>, Sig) -> bool, sha: seq<byte> -> string)

  // ---------------------------------------------------------------- signing bytes

  const PHASE := "phase"
  const REQUESTER := "requester_org"
  const RESPONDER := "responder_org"
  const ACTION := "action_digest"
  const HANDSHAKE := "handshake_id"
  const REQUEST_SIG := "request_sig_digest"
  const PARTY := "party_org"
  const ACKED := "acked_sig_digest"

  function RequestMembers(requester: string, responder: Option<string>, actionDigest: string): seq<Jcs.Member> {
    [Jcs.Member(PHASE, Some("request")), Jcs.Member(REQUESTER, Some(requester)),
     Jcs.Member(RESPONDER, responder), Jcs.Member(ACTION, Some(actionDigest))]
  }

  function ActionMembers(id: string, responder: string, requestDigest: string): seq<Jcs.Member> {
    [Jcs.Member(PHASE, Some("action")), Jcs.Member(HANDSHAKE, Some(id)),
     Jcs.Member(RESPONDER, Some(responder)), Jcs.Member(REQUEST_SIG, Some(requestDigest))]
  }

  function ConfirmMembers(id: string, party: string, acked: string): seq<Jcs.Member> {
    [Jcs.Member(PHASE, Some("confirm")), Jcs.Member(HANDSHAKE, Some(id)),
     Jcs.Member(PARTY, Some(party)), Jcs.Member(ACKED, Some(acked))]
  }

  function RequestPayload(requester: string, responder: Option<string>, actionDigest: string): seq<byte> {
    Jcs.Canon(RequestMembers(requester, responder, actionDigest))
  }

  function ActionPayload(id: string, responder: string, requestDigest: string): seq<byte> {
    Jcs.Canon(ActionMembers(id, responder, requestDigest))
  }

  function ConfirmPayload(id: string, party: string, acked: string): seq<byte> {
    Jcs.Canon(ConfirmMembers(id, party, acked))
  }

  function SigText(s: Sig): string {
    s.alg + ":" + s.keyId + ":" + s.signature
  }

  function SigDigest(env: Env, s: Sig): string {
    env.sha(Jcs.Utf8(SigText(s)))
  }

  /** The property names are pairwise different, and so are the three phase names. */
  lemma Names()
    ensures PHASE != REQUESTER && PHASE != RESPONDER && PHASE != ACTION && PHASE != HANDSHAKE
    ensures PHASE != REQUEST_SIG && PHASE != PARTY && PHASE != ACKED
    ensures REQUESTER != RESPONDER && REQUESTER != ACTION && RESPONDER != ACTION
    ensures HANDSHAKE != RESPONDER && HANDSHAKE != REQUEST_SIG && RESPONDER != REQUEST_SIG
    ensures HANDSHAKE != PARTY && HANDSHAKE != ACKED && PARTY != ACKED
    ensures "request" != "action" && "request" != "confirm" && "action" != "confirm"
  {
    assert REQUESTER[2] != RESPONDER[2] && REQUESTER[0] != ACTION[0] && RESPONDER[0] != ACTION[0];
    assert "request"[0] != "confirm"[0];
  }

  /** What a party says in each phase. */
  datatype Message =
    | RequestMessage(requester: string, partner: Option<string>, actionDigest: string)
    | ActionMessage(id: string, responder: string, requestDigest: string)
    | ConfirmMessage(id: string, party: string, acked: string)

  function Members(m: Message): seq<Jcs.Member> {
    match m
    case RequestMessage(a, b, c) => RequestMembers(a, b, c)
    case ActionMessage(a, b, c) => ActionMembers(a, b, c)
    case ConfirmMessage(a, b, c) => ConfirmMembers(a, b, c)
  }

  function Payload(m: Message): seq<byte> {
    match m
    case RequestMessage(a, b, c) => RequestPayload(a, b, c)
    case ActionMessage(a, b, c) => ActionPayload(a, b, c)
    case ConfirmMessage(a, b, c) => ConfirmPayload(a, b, c)
  }

  lemma MembersName(m: Message, n: Message)
    requires forall x :: x in Members(m) ==> x in Members(n)
    ensures m == n
  {
    Names();
    var ms, ns := Members(m), Members(n);
    assert ms[0] in ns && ms[1] in ns && ms[2] in ns && ms[3] in ns;
  }

  /** The signed bytes determine the phase and every argument: no bytes signed in one phase are the bytes of
      another phase or of the same phase with other arguments. */
  lemma PayloadInjective(m: Message, n: Message)
    requires Payload(m) == Payload(n)
    ensures m == n
  {
    hide Jcs.Canon;
    forall x | x in Members(m) ensures x in Members(n) {
      Jcs.CanonMembers(Members(m), Members(n), x);
    }
    MembersName(m, n);
  }

  /** The separator inside `sig_digest` is unambiguous from both ends, so only the middle field may hold it. */
  predicate Plain(s: Sig) {
    ':' !in s.alg && ':' !in s.signature
  }

  lemma ColonSpots(a: string, x: string, i: nat)
    requires i < |a + ":" + x| && (a + ":" + x)[i] == ':'
    ensures ':' !in a ==> |a| <= i
    ensures ':' !in x ==> i <= |a|
  {
    var l := a + ":" + x;
    assert i < |a| ==> l[i] == a[i];
    assert i > |a| ==> l[i] == x[i - |a| - 1];
  }

  lemma SplitUnique(a: string, b: string, x: string, y: string)
    requires a + ":" + x == b + ":" + y
    requires (':' !in a && ':' !in b) || (':' !in x && ':' !in y)
    ensures a == b && x == y
  {
    var l, r := a + ":" + x, b + ":" + y;
    assert l[|a|] == ':' && r[|b|] == ':';
    ColonSpots(a, x, |b|);
    ColonSpots(b, y, |a|);
    assert l[..|a|] == a && r[..|b|] == b && l[|a| + 1..] == x && r[|b| + 1..] == y;
  }

  lemma SigTextInjective(s: Sig, t: Sig)
    requires Plain(s) && Plain(t) && SigText(s) == SigText(t)
    ensures s == t
  {
    assert SigText(s) == s.alg + ":" + (s.keyId + ":" + s.signature);
    assert SigText(t) == t.alg + ":" + (t.keyId + ":" + t.signature);
    SplitUnique(s.alg, t.alg, s.keyId + ":" + s.signature, t.keyId + ":" + t.signature);
    SplitUnique(s.keyId, t.keyId, s.signature, t.signature);
  }

  /** A colon in either outer field does make two signatures share one digest. */
  lemma ColonsCollide(env: Env)
    ensures SigDigest(env, Sig("a:b", "c", "d")) == SigDigest(env, Sig("a", "b:c", "d"))
    ensures SigDigest(env, Sig("a", "b:c", "d")) == SigDigest(env, Sig("a", "b", "c:d"))
  {
    assert SigText(Sig("a:b", "c", "d")) == "a:b:c:d";
    assert SigText(Sig("a", "b:c", "d")) == "a:b:c:d";
    assert SigText(Sig("a", "b", "c:d")) == "a:b:c:d";
  }

  /** Two different preimages with one digest. */
  predicate Collision(env: Env, s: Sig, t: Sig) {
    SigText(s) != SigText(t) && SigDigest(env, s) == SigDigest(env, t)
  }

  lemma DigestNames(env: Env, s: Sig, t: Sig)
    requires Plain(s) && Plain(t) && SigDigest(env, s) == SigDigest(env, t)
    ensures s == t || Collision(env, s, t)
  {
    if SigText(s) == SigText(t) { SigTextInjective(s, t); }
  }

  // ---------------------------------------------------------------- one step

  datatype Error = InvalidSignature | NotFound | IllegalTransition(found: State) | UnknownParty | AssertionFailed

  datatype Outcome = Done(record: Record) | Raised(error: Error)

  datatype Op =
    | Open(id: string, requester: string, responder: Option<string>, actionDigest: string, sig: Sig)
    | Respond(id: string, sig: Sig)
    | Confirm(id: string, party: string, sig: Sig)
    | Ghost(id: string)

  function OpenOutcome(env: Env, op: Op): Outcome
    requires op.Open?
  {
    if !env.verify(op.requester, RequestPayload(op.requester, op.responder, op.actionDigest), op.sig) then
      Raised(InvalidSignature)
    else
      Done(Record(op.id, op.requester, op.responder, op.actionDigest,
                  if op.responder.None? then OneSided else Requested, Some(op.sig), None, None, None))
  }

  function RespondOutcome(env: Env, r: Record, sig: Sig): Outcome {
    if !r.state.Requested? then Raised(IllegalTransition(r.state))
    else if r.responder.None? || r.requestSig.None? then Raised(AssertionFailed)
    else if !env.verify(r.responder.value,
                        ActionPayload(r.id, r.responder.value, SigDigest(env, r.requestSig.value)), sig) then
      Raised(InvalidSignature)
    else Done(r.(actionSig := Some(sig), state := Acted))
  }

  function ConfirmOutcome(env: Env, r: Record, party: string, sig: Sig): Outcome {
    if !r.state.Acted? then Raised(IllegalTransition(r.state))
    else if r.requestSig.None? || r.actionSig.None? then Raised(AssertionFailed)
    else if party == r.requester then
      if !env.verify(party, ConfirmPayload(r.id, party, SigDigest(env, r.actionSig.value)), sig) then
        Raised(InvalidSignature)
      else
        Done(r.(requesterConfirm := Some(sig), state := if r.responderConfirm.Some? then Bilateral else Acted))
    else if r.responder == Some(party) then
      if !env.verify(party, ConfirmPayload(r.id, party, SigDigest(env, r.requestSig.value)), sig) then
        Raised(InvalidSignature)
      else
        Done(r.(responderConfirm := Some(sig), state := if r.requesterConfirm.Some? then Bilateral else Acted))
    else Raised(UnknownParty)
  }

  function GhostOutcome(r: Record): Outcome {
    if !r.state.Requested? then Raised(IllegalTransition(r.state)) else Done(r.(state := CountersignRefused))
  }

  function Decide(env: Env, m: map<string, Record>, op: Op): Outcome {
    if op.Open? then OpenOutcome(env, op)
    else if op.id !in m then Raised(NotFound)
    else
      match op
      case Respond(id, sig) => RespondOutcome(env, m[id], sig)
      case Confirm(id, party, sig) => ConfirmOutcome(env, m[id], party, sig)
      case Ghost(id) => GhostOutcome(m[id])
  }

  /** The records after a step: a failed step changes nothing, a successful one only its own handshake. */
  function After(env: Env, m: map<string, Record>, op: Op): map<string, Record> {
    var o := Decide(env, m, op);
    if o.Done? then m[op.id := o.record] else m
  }

  /** The records after any interleaving of steps; the lock makes each step atomic. */
  function Run(env: Env, m: map<string, Record>, ops: seq<Op>): map<string, Record>
    decreases |ops|
  {
    if ops == [] then m else Run(env, After(env, m, ops[0]), ops[1..])
  }

  // ---------------------------------------------------------------- the invariant

  ghost predicate RequestSigned(env: Env, r: Record) {
    r.requestSig.Some?
    && env.verify(r.requester, RequestPayload(r.requester, r.responder, r.actionDigest), r.requestSig.value)
  }

  ghost predicate ActionSigned(env: Env, r: Record) {
    r.responder.Some? && r.requestSig.Some? && r.actionSig.Some?
    && env.verify(r.responder.value,
                  ActionPayload(r.id, r.responder.value, SigDigest(env, r.requestSig.value)), r.actionSig.value)
  }

  ghost predicate RequesterConfirmed(env: Env, r: Record) {
    r.actionSig.Some? && r.requesterConfirm.Some?
    && env.verify(r.requester,
                  ConfirmPayload(r.id, r.requester, SigDigest(env, r.actionSig.value)), r.requesterConfirm.value)
  }

  ghost predicate ResponderConfirmed(env: Env, r: Record) {
    r.responder.Some? && r.requestSig.Some? && r.responderConfirm.Some? && r.responder.value != r.requester
    && env.verify(r.responder.value,
                  ConfirmPayload(r.id, r.responder.value, SigDigest(env, r.requestSig.value)),
                  r.responderConfirm.value)
  }

  /** Every signature a record holds verified over that record's own fields; the state says which it holds. */
  ghost predicate RecordOk(env: Env, r: Record) {
    && RequestSigned(env, r)
    && (r.state.OneSided? <==> r.responder.None?)
    && (r.state.Acted? || r.state.Bilateral? <==> r.actionSig.Some?)
    && (r.actionSig.Some? ==> ActionSigned(env, r))
    && (r.requesterConfirm.Some? ==> RequesterConfirmed(env, r))
    && (r.responderConfirm.Some? ==> ResponderConfirmed(env, r) && r.actionSig.Some?)
    && (r.state.Bilateral? <==> r.requesterConfirm.Some? && r.responderConfirm.Some?)
  }

  ghost predicate Consistent(env: Env, m: map<string, Record>) {
    forall id :: id in m ==> m[id].id == id && RecordOk(env, m[id])
  }

  lemma KeyIsId(env: Env, m: map<string, Record>, id: string)
    requires Consistent(env, m) && id in m
    ensures m[id].id == id && RecordOk(env, m[id])
  {}

  lemma StepConsistent(env: Env, m: map<string, Record>, op: Op)
    requires Consistent(env, m)
    ensures Consistent(env, After(env, m, op))
    ensures Decide(env, m, op) != Raised(AssertionFailed)
  {
    hide RequestPayload, ActionPayload, ConfirmPayload, SigDigest;
    assert op.id in m ==> m[op.id].id == op.id && RecordOk(env, m[op.id]);
    var o := Decide(env, m, op);
    if o.Done? { assert o.record.id == op.id && RecordOk(env, o.record); }
  }

  lemma {:induction false} RunConsistent(env: Env, m: map<string, Record>, ops: seq<Op>)
    requires Consistent(env, m)
    ensures Consistent(env, Run(env, m, ops))
    decreases |ops|
  {
    hide Consistent, After;
    if ops != [] {
      StepConsistent(env, m, ops[0]);
      RunConsistent(env, After(env, m, ops[0]), ops[1..]);
    }
  }

  lemma Reached(env: Env, ops: seq<Op>, id: string)
    requires id in Run(env, map[], ops)
    ensures Run(env, map[], ops)[id].id == id && RecordOk(env, Run(env, map[], ops)[id])
  {
    hide Run, RecordOk;
    assert Consistent(env, map[]);
    RunConsistent(env, map[], ops);
  }

  /** In every run from the empty table, a BILATERAL record holds four signatures that verified over its own
      fields and each other's digests, between two different organizations; no `assert` ever fires. */
  lemma BilateralMeansFourSignatures(env: Env, ops: seq<Op>, id: string, next: Op)
    ensures
      var m := Run(env, map[], ops);
      id in m && m[id].state.Bilateral? ==>
        && m[id].id == id
        && RequestSigned(env, m[id]) && ActionSigned(env, m[id])
        && RequesterConfirmed(env, m[id]) && ResponderConfirmed(env, m[id])
        && m[id].responder != Some(m[id].requester)
    ensures Decide(env, Run(env, map[], ops), next) != Raised(AssertionFailed)
  {
    hide Run, RequestSigned, ActionSigned, RequesterConfirmed, After, Decide;
    assert Consistent(env, map[]);
    RunConsistent(env, map[], ops);
    StepConsistent(env, Run(env, map[], ops), next);
  }

  // ---------------------------------------------------------------- signatures cannot be lifted

  /** A signature is good for one message only. */
  ghost predicate Binding(env: Env) {
    forall p: string, q: string, x: seq<byte>, y: seq<byte>, s: Sig ::
      env.verify(p, x, s) && env.verify(q, y, s) ==> x == y
  }

  datatype Slot = RequestSlot | ActionSlot | RequesterConfirmSlot | ResponderConfirmSlot

  function Held(r: Record, slot: Slot): Option<Sig> {
    match slot
    case RequestSlot => r.requestSig
    case ActionSlot => r.actionSig
    case RequesterConfirmSlot => r.requesterConfirm
    case ResponderConfirmSlot => r.responderConfirm
  }

  /** What the signature in a slot was made over. */
  function SlotMessage(env: Env, r: Record, slot: Slot): Option<Message> {
    match slot
    case RequestSlot => Some(RequestMessage(r.requester, r.responder, r.actionDigest))
    case ActionSlot =>
      if r.responder.Some? && r.requestSig.Some? then
        Some(ActionMessage(r.id, r.responder.value, SigDigest(env, r.requestSig.value)))
      else None
    case RequesterConfirmSlot =>
      if r.actionSig.Some? then Some(ConfirmMessage(r.id, r.requester, SigDigest(env, r.actionSig.value))) else None
    case ResponderConfirmSlot =>
      if r.responder.Some? && r.requestSig.Some? then
        Some(ConfirmMessage(r.id, r.responder.value, SigDigest(env, r.requestSig.value)))
      else None
  }

  function Signer(r: Record, slot: Slot): string {
    if slot.RequestSlot? || slot.RequesterConfirmSlot? || r.responder.None? then r.requester else r.responder.value
  }

  lemma SlotVerified(env: Env, r: Record, slot: Slot)
    requires RecordOk(env, r) && Held(r, slot).Some?
    ensures SlotMessage(env, r, slot).Some?
    ensures env.verify(Signer(r, slot), Payload(SlotMessage(env, r, slot).value), Held(r, slot).value)
  {
    hide RequestPayload, ActionPayload, ConfirmPayload, SigDigest;
  }

  /** Under `Binding`, one signature in two slots was made over one message. */
  lemma SameMessage(env: Env, a: Record, b: Record, p: Slot, q: Slot)
    requires Binding(env) && RecordOk(env, a) && RecordOk(env, b)
    requires Held(a, p).Some? && Held(a, p) == Held(b, q)
    ensures SlotMessage(env, a, p).Some? && SlotMessage(env, a, p) == SlotMessage(env, b, q)
  {
    hide RecordOk, SlotMessage, Held, Payload;
    SlotVerified(env, a, p);
    SlotVerified(env, b, q);
    PayloadInjective(SlotMessage(env, a, p).value, SlotMessage(env, b, q).value);
  }

  /** In every run, an action or confirmation signature sits in exactly one slot of exactly one handshake, and
      a request signature is never reused as anything but a request for the same parties and action. */
  lemma CannotBeLifted(env: Env, ops: seq<Op>, i: string, j: string, p: Slot, q: Slot)
    requires Binding(env)
    requires i in Run(env, map[], ops) && j in Run(env, map[], ops)
    requires
      var m := Run(env, map[], ops);
      Held(m[i], p).Some? && Held(m[i], p) == Held(m[j], q)
    ensures p == q
    ensures !p.RequestSlot? ==> i == j
    ensures
      var m := Run(env, map[], ops);
      p.RequestSlot? ==>
        && m[i].requester == m[j].requester && m[i].responder == m[j].responder
        && m[i].actionDigest == m[j].actionDigest
  {
    hide Run, RequestPayload, ActionPayload, ConfirmPayload, SigDigest, Binding;
    var m := Run(env, map[], ops);
    Reached(env, ops, i);
    Reached(env, ops, j);
    LiftedSlots(env, m[i], m[j], p, q);
  }

  lemma LiftedSlots(env: Env, a: Record, b: Record, p: Slot, q: Slot)
    requires Binding(env) && RecordOk(env, a) && RecordOk(env, b)
    requires Held(a, p).Some? && Held(a, p) == Held(b, q) && (a.id == b.id ==> a == b)
    ensures !p.RequestSlot? ==> a.id == b.id
    ensures p.RequestSlot? ==>
      a.requester == b.requester && a.responder == b.responder && a.actionDigest == b.actionDigest
    ensures p == q
  {
    hide RequestPayload, ActionPayload, ConfirmPayload, SigDigest, Binding;
    SameMessage(env, a, b, p, q);
  }

  // ---------------------------------------------------------------- one confirmation seals the transcript

  ghost predicate PlainSigs(r: Record) {
    (r.requestSig.Some? ==> Plain(r.requestSig.value)) && (r.actionSig.Some? ==> Plain(r.actionSig.value))
  }

  ghost predicate SameRequest(a: Record, b: Record) {
    a.requester == b.requester && a.responder == b.responder && a.actionDigest == b.actionDigest
    && a.requestSig == b.requestSig
  }

  lemma RequestsAgree(env: Env, a: Record, b: Record)
    requires Binding(env) && RecordOk(env, a) && RecordOk(env, b) && a.requestSig == b.requestSig
    ensures SameRequest(a, b)
  {
    hide Payload, Binding;
    SameMessage(env, a, b, RequestSlot, RequestSlot);
  }

  lemma RequesterSeal(env: Env, a: Record, b: Record)
    requires Binding(env) && RecordOk(env, a) && RecordOk(env, b) && PlainSigs(a) && PlainSigs(b)
    requires a.requesterConfirm.Some? && a.requesterConfirm == b.requesterConfirm
    ensures a.id == b.id && a.requester == b.requester
    ensures a.requestSig.Some? && b.requestSig.Some? && a.actionSig.Some? && b.actionSig.Some?
    ensures || Collision(env, a.actionSig.value, b.actionSig.value)
            || Collision(env, a.requestSig.value, b.requestSig.value)
            || (a.actionSig == b.actionSig && SameRequest(a, b))
  {
    hide RequestPayload, ActionPayload, ConfirmPayload, SigDigest, Binding, Plain, Collision, SameRequest;
    SameMessage(env, a, b, RequesterConfirmSlot, RequesterConfirmSlot);
    DigestNames(env, a.actionSig.value, b.actionSig.value);
    if a.actionSig == b.actionSig {
      SameMessage(env, a, b, ActionSlot, ActionSlot);
      DigestNames(env, a.requestSig.value, b.requestSig.value);
      if a.requestSig == b.requestSig { RequestsAgree(env, a, b); }
    }
  }

  lemma ResponderSeal(env: Env, a: Record, b: Record)
    requires Binding(env) && RecordOk(env, a) && RecordOk(env, b) && PlainSigs(a) && PlainSigs(b)
    requires a.responderConfirm.Some? && a.responderConfirm == b.responderConfirm
    ensures a.id == b.id && a.requestSig.Some? && b.requestSig.Some?
    ensures Collision(env, a.requestSig.value, b.requestSig.value) || SameRequest(a, b)
  {
    hide RequestPayload, ActionPayload, ConfirmPayload, SigDigest, Binding, Plain, Collision, SameRequest;
    SameMessage(env, a, b, ResponderConfirmSlot, ResponderConfirmSlot);
    DigestNames(env, a.requestSig.value, b.requestSig.value);
    if a.requestSig == b.requestSig { RequestsAgree(env, a, b); }
  }

  /** Records from any two runs that carry the same requester confirmation are the same handshake, down to the
      action signature, the request signature and the action asked for, or they exhibit a SHA-256 collision. */
  lemma RequesterConfirmSeals(env: Env, xs: seq<Op>, ys: seq<Op>, i: string, j: string)
    requires Binding(env)
    requires i in Run(env, map[], xs) && j in Run(env, map[], ys)
    requires PlainSigs(Run(env, map[], xs)[i]) && PlainSigs(Run(env, map[], ys)[j])
    requires Run(env, map[], xs)[i].requesterConfirm.Some?
    requires Run(env, map[], xs)[i].requesterConfirm == Run(env, map[], ys)[j].requesterConfirm
    ensures
      var a, b := Run(env, map[], xs)[i], Run(env, map[], ys)[j];
      && i == j && a.requester == b.requester
      && a.requestSig.Some? && b.requestSig.Some? && a.actionSig.Some? && b.actionSig.Some?
      && (|| Collision(env, a.actionSig.value, b.actionSig.value)
          || Collision(env, a.requestSig.value, b.requestSig.value)
          || (a.actionSig == b.actionSig && SameRequest(a, b)))
  {
    hide Run, RecordOk, Binding, PlainSigs, Collision, SameRequest;
    Reached(env, xs, i);
    Reached(env, ys, j);
    RequesterSeal(env, Run(env, map[], xs)[i], Run(env, map[], ys)[j]);
  }

  /** The responder's confirmation seals the handshake and the whole request in the same sense. */
  lemma ResponderConfirmSeals(env: Env, xs: seq<Op>, ys: seq<Op>, i: string, j: string)
    requires Binding(env)
    requires i in Run(env, map[], xs) && j in Run(env, map[], ys)
    requires PlainSigs(Run(env, map[], xs)[i]) && PlainSigs(Run(env, map[], ys)[j])
    requires Run(env, map[], xs)[i].responderConfirm.Some?
    requires Run(env, map[], xs)[i].responderConfirm == Run(env, map[], ys)[j].responderConfirm
    ensures
      var a, b := Run(env, map[], xs)[i], Run(env, map[], ys)[j];
      && i == j && a.requestSig.Some? && b.requestSig.Some?
      && (Collision(env, a.requestSig.value, b.requestSig.value) || SameRequest(a, b))
  {
    hide Run, RecordOk, Binding, PlainSigs, Collision, SameRequest;
    Reached(env, xs, i);
    Reached(env, ys, j);
    ResponderSeal(env, Run(env, map[], xs)[i], Run(env, map[], ys)[j]);
  }

  // ---------------------------------------------------------------- the object

  /** The in-memory state machine. Each method runs under the lock, so each is one step. */
  class BilateralHandshake {
    const env: Env
    var records: map<string, Record>

    ghost predicate Valid()
      reads this
    {
      Consistent(env, records)
    }

    constructor (env: Env)
      ensures Valid() && this.env == env && records == map[]
    {
      this.env := env;
      records := map[];
    }

    /** `id` is the fresh UUID. */
    method Open(id: string, requester: string, responder: Option<string>, actionDigest: string, sig: Sig)
      returns (r: Outcome)
      requires Valid()
      modifies this`records
      ensures Valid()
      ensures r == Decide(env, old(records), Op.Open(id, requester, responder, actionDigest, sig))
      ensures records == if r.Done? then old(records)[id := r.record] else old(records)
    {
      hide Consistent, RequestPayload, ActionPayload, ConfirmPayload, SigDigest;
      StepConsistent(env, records, Op.Open(id, requester, responder, actionDigest, sig));
      var payload := RequestPayload(requester, responder, actionDigest);
      if !env.verify(requester, payload, sig) {
        return Raised(InvalidSignature);
      }
      var state := Requested;
      if responder.None? {
        state := OneSided;
      }
      var rec := Record(id, requester, responder, actionDigest, state, Some(sig), None, None, None);
      records := records[id := rec];
      return Done(rec);
    }

    method Respond(id: string, sig: Sig) returns (r: Outcome)
      requires Valid()
      modifies this`records
      ensures Valid()
      ensures r == Decide(env, old(records), Op.Respond(id, sig)) && r != Raised(AssertionFailed)
      ensures records == if r.Done? then old(records)[id := r.record] else old(records)
    {
      hide Consistent, RequestPayload, ActionPayload, ConfirmPayload, SigDigest;
      StepConsistent(env, records, Op.Respond(id, sig));
      if id !in records {
        return Raised(NotFound);
      }
      var rec := records[id];
      KeyIsId(env, records, id);
      if !rec.state.Requested? {
        return Raised(IllegalTransition(rec.state));
      }
      if rec.responder.None? || rec.requestSig.None? {
        return Raised(AssertionFailed);
      }
      var payload := ActionPayload(id, rec.responder.value, SigDigest(env, rec.requestSig.value));
      if !env.verify(rec.responder.value, payload, sig) {
        return Raised(InvalidSignature);
      }
      var updated := rec.(actionSig := Some(sig), state := Acted);
      records := records[id := updated];
      return Done(updated);
    }

    method Confirm(id: string, party: string, sig: Sig) returns (r: Outcome)
      requires Valid()
      modifies this`records
      ensures Valid()
      ensures r == Decide(env, old(records), Op.Confirm(id, party, sig)) && r != Raised(AssertionFailed)
      ensures records == if r.Done? then old(records)[id := r.record] else old(records)
    {
      hide Consistent, RequestPayload, ActionPayload, ConfirmPayload, SigDigest;
      StepConsistent(env, records, Op.Confirm(id, party, sig));
      if id !in records {
        return Raised(NotFound);
      }
      var rec := records[id];
      KeyIsId(env, records, id);
      if !rec.state.Acted? {
        return Raised(IllegalTransition(rec.state));
      }
      if rec.requestSig.None? || rec.actionSig.None? {
        return Raised(AssertionFailed);
      }
      var updated := rec;
      var requesterDone, responderDone;
      if party == rec.requester {
        var payload := ConfirmPayload(id, party, SigDigest(env, rec.actionSig.value));
        if !env.verify(party, payload, sig) {
          return Raised(InvalidSignature);
        }
        updated := updated.(requesterConfirm := Some(sig));
        requesterDone, responderDone := true, rec.responderConfirm.Some?;
      } else if rec.responder == Some(party) {
        var payload := ConfirmPayload(id, party, SigDigest(env, rec.requestSig.value));
        if !env.verify(party, payload, sig) {
          return Raised(InvalidSignature);
        }
        updated := updated.(responderConfirm := Some(sig));
        requesterDone, responderDone := rec.requesterConfirm.Some?, true;
      } else {
        return Raised(UnknownParty);
      }
      if requesterDone && responderDone {
        updated := updated.(state := Bilateral);
      }
      records := records[id := updated];
      return Done(updated);
    }

    method Ghost(id: string) returns (r: Outcome)
      requires Valid()
      modifies this`records
      ensures Valid()
      ensures r == Decide(env, old(records), Op.Ghost(id))
      ensures records == if r.Done? then old(records)[id := r.record] else old(records)
    {
      hide Consistent, RequestPayload, ActionPayload, ConfirmPayload, SigDigest;
      StepConsistent(env, records, Op.Ghost(id));
      if id !in records {
        return Raised(NotFound);
      }
      var rec := records[id];
      if !rec.state.Requested? {
        return Raised(IllegalTransition(rec.state));
      }
      var updated := rec.(state := CountersignRefused);
      records := records[id := updated];
      return Done(updated);
    }
  }
}
