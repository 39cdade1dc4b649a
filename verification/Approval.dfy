/** Pending approvals: what `list_pending` reads back from a ledger, and what sealing an approval does to it. */
module Approval {
  import opened Bytes
  import opened JsonData
  import opened Ledger

  // ---------------------------------------------------------------- reading the ledger

  /** A member that should be an object; absent, null or anything else reads as empty. */
  function Block(c: Capsule, name: string): Capsule {
    if name in c && c[name].Object? then c[name].members else map[]
  }

  predicate Says(c: Capsule, name: string, text: string) {
    name in c && c[name] == Text(text)
  }

  /** `read_ledger`: bookkeeping entries and padding leaves are not capsules. */
  predicate IsCapsule(c: Capsule) {
    IsRecord(c) && !Says(c, "record_type", "padding")
  }

  predicate Open(c: Capsule) {
    IsCapsule(c) && (Says(Block(c, "disposition"), "verdict_class", "blocked") || Says(Block(c, "effect"), "status", "planned"))
  }

  /** The id a capsule resolves, by the registered relation or its legacy alias. */
  function Resolves(c: Capsule): Option<string> {
    if IsCapsule(c) && (Says(Block(c, "chain"), "relation", "supersedes") || Says(Block(c, "chain"), "relation", "resolves"))
       && "parent_capsule_id" in Block(c, "chain") && Block(c, "chain")["parent_capsule_id"].Text?
       && Block(c, "chain")["parent_capsule_id"].text != ""
    then Some(Block(c, "chain")["parent_capsule_id"].text)
    else None
  }

  predicate Resolved(ledger: seq<Capsule>, id: string) {
    exists i :: 0 <= i < |ledger| && Resolves(ledger[i]) == Some(id)
  }

  /** The open capsules in `among` with no resolving child in `ledger`, in order. */
  function PendingIn(ledger: seq<Capsule>, among: seq<Capsule>): seq<Capsule> {
    if among == [] then []
    else
      var front, last := PendingIn(ledger, among[..|among| - 1]), among[|among| - 1];
      if Open(last) && !Resolved(ledger, IdOf(last)) then front + [last] else front
  }

  function Pending(ledger: seq<Capsule>): seq<Capsule> {
    PendingIn(ledger, ledger)
  }

  /** `list_pending` as written: one pass to collect what is resolved, one to filter. */
  method ListPending(ledger: seq<Capsule>) returns (pending: seq<Capsule>)
    ensures pending == Pending(ledger)
  {
    hide Resolves, Open, IdOf;
    var resolved: set<string> := {};
    var i := 0;
    while i < |ledger|
      invariant 0 <= i <= |ledger|
      invariant forall id :: id in resolved <==> Resolved(ledger[..i], id)
    {
      var r := Resolves(ledger[i]);
      forall id ensures Resolved(ledger[..i + 1], id) <==> Resolved(ledger[..i], id) || r == Some(id) {
        ResolvedSnoc(ledger, i, id);
      }
      if r.Some? {
        resolved := resolved + {r.value};
      }
      i := i + 1;
    }
    assert ledger[..i] == ledger;
    pending := [];
    i := 0;
    assert ledger[..0] == [];
    while i < |ledger|
      invariant 0 <= i <= |ledger|
      invariant pending == PendingIn(ledger, ledger[..i])
    {
      assert ledger[..i + 1][..i] == ledger[..i];
      if Open(ledger[i]) {
        if IdOf(ledger[i]) !in resolved {
          pending := pending + [ledger[i]];
        }
      }
      i := i + 1;
    }
    assert ledger[..i] == ledger;
  }

  lemma ResolvedSnoc(ledger: seq<Capsule>, i: nat, id: string)
    requires i < |ledger|
    ensures Resolved(ledger[..i + 1], id) <==> Resolved(ledger[..i], id) || Resolves(ledger[i]) == Some(id)
  {
    hide Resolves;
    var longer := ledger[..i + 1];
    assert longer[i] == ledger[i] && forall k :: 0 <= k < i ==> longer[k] == ledger[..i][k];
  }

  /** Nothing is listed that is not open and unresolved, and nothing open and unresolved is missing. */
  lemma {:induction false} PendingMeaning(ledger: seq<Capsule>, among: seq<Capsule>, c: Capsule)
    ensures c in PendingIn(ledger, among) <==> c in among && Open(c) && !Resolved(ledger, IdOf(c))
  {
    hide Open, Resolved, IdOf;
    if among != [] {
      PendingMeaning(ledger, among[..|among| - 1], c);
      assert among == among[..|among| - 1] + [among[|among| - 1]];
    }
  }

  // ---------------------------------------------------------------- growth

  /** The list without the entries of one id, order kept. */
  function Without(cs: seq<Capsule>, id: string): seq<Capsule> {
    if cs == [] then []
    else
      var front, last := Without(cs[..|cs| - 1], id), cs[|cs| - 1];
      if IdOf(last) == id then front else front + [last]
  }

  lemma WithoutSnoc(cs: seq<Capsule>, c: Capsule, id: string)
    ensures Without(cs + [c], id) == if IdOf(c) == id then Without(cs, id) else Without(cs, id) + [c]
  {
    hide IdOf;
    assert (cs + [c])[..|cs|] == cs;
  }

  lemma {:induction false} WithoutNothing(cs: seq<Capsule>, id: string)
    requires forall c :: c in cs ==> IdOf(c) != id
    ensures Without(cs, id) == cs
  {
    hide IdOf;
    if cs != [] {
      WithoutNothing(cs[..|cs| - 1], id);
      assert cs[|cs| - 1] in cs;
      assert cs == cs[..|cs| - 1] + [cs[|cs| - 1]];
    }
  }

  /** One more line that resolves `id` takes `id` off the list and nothing else. */
  lemma {:induction false} ResolvingLine(ledger: seq<Capsule>, c: Capsule, id: string, among: seq<Capsule>)
    requires Resolves(c) == Some(id)
    ensures PendingIn(ledger + [c], among) == Without(PendingIn(ledger, among), id)
  {
    hide Open, Resolves, IdOf;
    if among != [] {
      var front, last := among[..|among| - 1], among[|among| - 1];
      ResolvingLine(ledger, c, id, front);
      ResolvedAppend(ledger, c, IdOf(last));
      if Open(last) && !Resolved(ledger, IdOf(last)) { WithoutSnoc(PendingIn(ledger, front), last, id); }
    }
  }

  lemma {:induction false} InertLine(ledger: seq<Capsule>, c: Capsule, among: seq<Capsule>)
    requires Resolves(c).None?
    ensures PendingIn(ledger + [c], among) == PendingIn(ledger, among)
  {
    hide Open, Resolves, IdOf;
    if among != [] {
      InertLine(ledger, c, among[..|among| - 1]);
      ResolvedAppend(ledger, c, IdOf(among[|among| - 1]));
    }
  }

  lemma ResolvedAppend(ledger: seq<Capsule>, c: Capsule, id: string)
    ensures Resolved(ledger + [c], id) <==> Resolved(ledger, id) || Resolves(c) == Some(id)
  {
    hide Resolves;
    ResolvedSnoc(ledger + [c], |ledger|, id);
    assert (ledger + [c])[..|ledger| + 1] == ledger + [c] && (ledger + [c])[..|ledger|] == ledger;
  }

  /** What one appended capsule that is not itself open does to the list. */
  lemma ClosedAppend(ledger: seq<Capsule>, c: Capsule)
    requires !Open(c)
    ensures Pending(ledger + [c]) ==
      if Resolves(c).Some? then Without(Pending(ledger), Resolves(c).value) else Pending(ledger)
  {
    hide Open, Resolves, Resolved, IdOf;
    assert (ledger + [c])[..|ledger|] == ledger;
    assert PendingIn(ledger + [c], ledger + [c]) == PendingIn(ledger + [c], ledger);
    if Resolves(c).Some? { ResolvingLine(ledger, c, Resolves(c).value, ledger); } else { InertLine(ledger, c, ledger); }
  }

  lemma ResolvedStays(ledger: seq<Capsule>, longer: seq<Capsule>, id: string)
    requires ledger <= longer && Resolved(ledger, id)
    ensures Resolved(longer, id)
  {
    hide Resolves;
    var i :| 0 <= i < |ledger| && Resolves(ledger[i]) == Some(id);
    assert longer[i] == ledger[i];
  }

  /** A resolved capsule never becomes pending again, whatever is emitted later. */
  lemma ResolvedForever(lib: Library, ledger: seq<Capsule>, ds: seq<Draft>, id: string)
    requires LedgerOk(lib, ledger) && Resolved(ledger, id)
    ensures Resolved(Run(lib, ledger, ds), id)
    ensures forall c :: c in Pending(Run(lib, ledger, ds)) ==> IdOf(c) != id
  {
    hide Run, LedgerOk, Resolved, Open;
    var later := Run(lib, ledger, ds);
    RunOk(lib, ledger, ds);
    ResolvedStays(ledger, later, id);
    forall c | c in Pending(later) ensures IdOf(c) != id {
      PendingMeaning(later, later, c);
    }
  }

  // ---------------------------------------------------------------- sealing an approval

  /** The arguments of `seal_approval`. `rest` is every other member the builder writes, such as the timestamp. */
  datatype Approval = Approval(
    blocked: string, decision: string, resumeOk: Option<bool>, effectType: string, rest: Capsule)

  datatype Request = Request(draft: Draft) | BadDecision | ResumeUnset

  /** Whether the blocked capsule is a hold reserve (`action_id` under `hold.reserve/`). */
  predicate IsReserve(c: Capsule) {
    "action_id" in c && c["action_id"].Text? && "hold.reserve/" <= c["action_id"].text
  }

  function FirstWithId(ledger: seq<Capsule>, id: string): Option<Capsule> {
    if ledger == [] then None
    else if IsCapsule(ledger[0]) && IdOf(ledger[0]) == id then Some(ledger[0])
    else FirstWithId(ledger[1..], id)
  }

  predicate ResumesReserve(ledger: seq<Capsule>, id: string) {
    FirstWithId(ledger, id).Some? && IsReserve(FirstWithId(ledger, id).value)
  }

  /** The decision that is written: an approval over an inactive hold becomes a denial, a denial stays one. */
  function Decision(a: Approval): string {
    if a.decision == "approve" && a.resumeOk.Some? && !a.resumeOk.value then "deny" else a.decision
  }

  function Members(a: Approval): Capsule {
    var approved := Decision(a) == "approve";
    a.rest - {"effect", "kind", "record_type"}
    + map["disposition" := Object(map[
            "decision" := Text(Decision(a)), "approver" := Text("human"), "human_disposed" := Bool(true),
            "verdict_class" := Text(if approved then "executed" else "denied")])]
    + if approved then map["effect" := Object(map["type" := Text(a.effectType), "status" := Text("dispatched")])]
      else map[]
  }

  function ToDraft(ledger: seq<Capsule>, a: Approval): Request {
    if a.decision != "approve" && a.decision != "deny" then BadDecision
    else if a.resumeOk.None? && ResumesReserve(ledger, a.blocked) then ResumeUnset
    else Request(Draft(_ => Some(Members(a)), Some(a.blocked), Some("supersedes"), None, map[], "jcs"))
  }

  /** What an approval or denial seals is never itself pending, and resolves the blocked capsule exactly when the
      ledger holds it: a foreign id is cited instead. */
  lemma ApprovalCapsule(lib: Library, ledger: seq<Capsule>, a: Approval)
    requires ToDraft(ledger, a).Request? && Compose(lib, ledger, ToDraft(ledger, a).draft).Composed?
    ensures
      var c := Compose(lib, ledger, ToDraft(ledger, a).draft).capsule;
      !Open(c) && Resolves(c) == if Holds(ledger, a.blocked) then Some(a.blocked) else None
  {
    hide Compose, IsDigestText, Holds, ResumesReserve, Decision, EncodeAll, CiteForeign;
    var d := ToDraft(ledger, a).draft;
    var c := Compose(lib, ledger, d).capsule;
    Names();
    ComposedKeeps(lib, ledger, d, "disposition");
    ComposedKeeps(lib, ledger, d, "effect");
    ComposedKeeps(lib, ledger, d, "kind");
    ComposedKeeps(lib, ledger, d, "record_type");
    ComposedMembers(lib, ledger, d);
    ChainXorCite(lib, ledger, d);
    MembersClosed(a);
    NotEmpty(a.blocked);
    assert Block(c, "disposition") == Block(Members(a), "disposition") && Block(c, "effect") == Block(Members(a), "effect");
  }

  lemma NotEmpty(id: string)
    ensures IsDigestText(id) ==> id != ""
  {}

  lemma Names()
    ensures "disposition" !in WRITTEN && "effect" !in WRITTEN && "kind" !in WRITTEN && "record_type" !in WRITTEN
    ensures "effect" != "disposition" && "kind" != "disposition" && "record_type" != "disposition"
    ensures "kind" != "effect" && "record_type" != "effect"
    ensures "relation" != "parent_capsule_id"
  {
    assert "effect"[0] != "key_id"[0];
  }

  lemma MembersClosed(a: Approval)
    ensures "kind" !in Members(a) && "record_type" !in Members(a)
    ensures !Says(Block(Members(a), "disposition"), "verdict_class", "blocked")
    ensures !Says(Block(Members(a), "effect"), "status", "planned")
  {
    hide Decision;
    Names();
    assert "executed" != "blocked" && "denied" != "blocked" && "dispatched" != "planned";
    assert "verdict_class" != "decision" && "verdict_class" != "approver" && "verdict_class" != "human_disposed";
    assert "type" != "status";
  }

  /** Sealing an approval or a denial takes exactly the named capsule off the pending list and adds nothing; an id
      from another ledger changes nothing; sealing the same one again changes nothing more. */
  lemma ApprovalRemovesExactly(lib: Library, ledger: seq<Capsule>, a: Approval)
    requires ToDraft(ledger, a).Request? && Emit(lib, ledger, ToDraft(ledger, a).draft).Emitted?
    ensures
      Pending(After(lib, ledger, ToDraft(ledger, a).draft)) ==
        if Holds(ledger, a.blocked) then Without(Pending(ledger), a.blocked) else Pending(ledger)
  {
    hide ToDraft, Compose, Open, Resolves, Holds, IdOf, IsDigestText, Resolved;
    var d := ToDraft(ledger, a).draft;
    var o := Emit(lib, ledger, d);
    ApprovalCapsule(lib, ledger, a);
    if o.at == |ledger| {
      ClosedAppend(ledger, o.capsule);
    } else if Holds(ledger, a.blocked) {
      AlreadyResolved(ledger, o.at, a.blocked);
    }
  }

  lemma AlreadyResolved(ledger: seq<Capsule>, at: nat, id: string)
    requires at < |ledger| && Resolves(ledger[at]) == Some(id)
    ensures Without(Pending(ledger), id) == Pending(ledger)
  {
    hide Open, Resolves, IdOf;
    forall c | c in Pending(ledger) ensures IdOf(c) != id {
      PendingMeaning(ledger, ledger, c);
    }
    WithoutNothing(Pending(ledger), id);
  }

  /** What is sealed clears the action to run only on an explicit approval, and for a hold reserve only when the
      caller's own recheck said the hold is still good. */
  lemma ClearedOnlyWhenGood(ledger: seq<Capsule>, a: Approval)
    requires ToDraft(ledger, a).Request?
    ensures "effect" in Members(a) <==> a.decision == "approve" && (a.resumeOk.None? || a.resumeOk.value)
    ensures Says(Block(Members(a), "disposition"), "verdict_class", "executed") <==> "effect" in Members(a)
    ensures "effect" in Members(a) && ResumesReserve(ledger, a.blocked) ==>
      a.resumeOk.Some? && a.resumeOk.value
  {
    hide FirstWithId, IsReserve;
    Names();
    assert "executed" != "denied" && "approve" != "deny";
    assert "verdict_class" != "decision" && "verdict_class" != "approver" && "verdict_class" != "human_disposed";
  }

  /** `seal_approval` on a ledger. */
  method SealApproval(writer: LedgerWriter, a: Approval) returns (r: Option<Outcome>)
    modifies writer`lines
    ensures ToDraft(old(writer.lines), a).Request? ==>
      && r == Some(Emit(writer.lib, old(writer.lines), ToDraft(old(writer.lines), a).draft))
      && writer.lines == After(writer.lib, old(writer.lines), ToDraft(old(writer.lines), a).draft)
    ensures !ToDraft(old(writer.lines), a).Request? ==> r == None && writer.lines == old(writer.lines)
  {
    hide Emit, After, FirstWithId, IsReserve;
    var decision, resumeOk := a.decision, a.resumeOk;
    if decision != "approve" && decision != "deny" {
      return None;
    }
    if resumeOk.None? {
      var record := FirstWithId(writer.lines, a.blocked);
      if record.Some? && IsReserve(record.value) {
        return None;
      }
      resumeOk := Some(true);
    }
    if decision == "approve" && !resumeOk.value {
      decision := "deny";
    }
    assert decision == Decision(a);
    var emitted := writer.EmitCapsule(ToDraft(writer.lines, a).draft);
    return Some(emitted);
  }
}
