/** Which capsules wait for an approval and what sealing one asks for, in plain terms: over members and indices. */
module ApprovalPlain {
  import opened Bytes
  import opened JsonData
  import opened Ledger
  import opened Approval
  import LedgerPlain

  // ---------------------------------------------------------------- the pending list

  /** Member `inner` of the object that is member `outer` is that text. */
  predicate Reads(c: Capsule, outer: string, inner: string, text: string) {
    outer in c && c[outer].Object? && inner in c[outer].members && c[outer].members[inner] == Text(text)
  }

  predicate Counts(c: Capsule) {
    !LedgerPlain.Bookkeeping(c) && !("record_type" in c && c["record_type"] == Text("padding"))
  }

  /** A capsule that supersedes that one, by either spelling of the relation. */
  predicate Closes(c: Capsule, id: string) {
    Counts(c) && (Reads(c, "chain", "relation", "supersedes") || Reads(c, "chain", "relation", "resolves"))
    && Reads(c, "chain", "parent_capsule_id", id) && id != ""
  }

  ghost predicate Closed(ledger: seq<Capsule>, id: string) {
    exists j :: 0 <= j < |ledger| && Closes(ledger[j], id)
  }

  function IdText(c: Capsule): string {
    if "capsule_id" in c && c["capsule_id"].Text? then c["capsule_id"].text else ""
  }

  /** Entry i is a capsule that was blocked, or whose effect is planned, and nothing closes it. */
  ghost predicate Waits(ledger: seq<Capsule>, i: nat)
    requires i < |ledger|
  {
    && Counts(ledger[i])
    && (Reads(ledger[i], "disposition", "verdict_class", "blocked") || Reads(ledger[i], "effect", "status", "planned"))
    && !Closed(ledger, IdText(ledger[i]))
  }

  lemma RecordIs(c: Capsule)
    ensures IsRecord(c) <==> !LedgerPlain.Bookkeeping(c)
  {}

  lemma OpenIs(c: Capsule)
    ensures Open(c) <==>
      Counts(c) && (Reads(c, "disposition", "verdict_class", "blocked") || Reads(c, "effect", "status", "planned"))
  {
    hide IsRecord, LedgerPlain.Bookkeeping;
    RecordIs(c);
  }

  lemma ResolvesIs(c: Capsule, id: string)
    ensures Resolves(c) == Some(id) <==> Closes(c, id)
  {
    hide IsRecord, LedgerPlain.Bookkeeping;
    RecordIs(c);
  }

  lemma ResolvedIs(ledger: seq<Capsule>, id: string)
    ensures Resolved(ledger, id) <==> Closed(ledger, id)
  {
    hide Resolves, Closes;
    forall j | 0 <= j < |ledger| ensures Resolves(ledger[j]) == Some(id) <==> Closes(ledger[j], id) {
      ResolvesIs(ledger[j], id);
    }
  }

  lemma WaitsIs(ledger: seq<Capsule>, i: nat)
    requires i < |ledger|
    ensures Waits(ledger, i) <==> Open(ledger[i]) && !Resolved(ledger, IdOf(ledger[i]))
  {
    hide Open, Resolved, Counts, Reads, Closed;
    OpenIs(ledger[i]);
    ResolvedIs(ledger, IdOf(ledger[i]));
  }

  /** The list is the entries at ascending places, and those places are all and only the waiting ones. */
  ghost predicate ListsAt(ledger: seq<Capsule>, n: nat, at: seq<nat>, list: seq<Capsule>)
    requires n <= |ledger|
  {
    && |list| == |at|
    && (forall k :: 0 <= k < |at| ==> at[k] < n && Waits(ledger, at[k]) && list[k] == ledger[at[k]])
    && (forall k, m :: 0 <= k < m < |at| ==> at[k] < at[m])
    && (forall i: nat :: i < n && Waits(ledger, i) ==> i in at)
  }

  lemma {:induction false} PendingUpTo(ledger: seq<Capsule>, n: nat) returns (at: seq<nat>)
    requires n <= |ledger|
    ensures ListsAt(ledger, n, at, PendingIn(ledger, ledger[..n]))
  {
    hide Waits, Open, Resolved, IdOf;
    if n == 0 {
      at := [];
    } else {
      at := PendingUpTo(ledger, n - 1);
      WaitsIs(ledger, n - 1);
      assert ledger[..n][..n - 1] == ledger[..n - 1] && ledger[..n][n - 1] == ledger[n - 1];
      if Waits(ledger, n - 1) {
        ListsSnoc(ledger, n, at, PendingIn(ledger, ledger[..n - 1]));
        at := at + [n - 1];
      } else {
        ListsSame(ledger, n, at, PendingIn(ledger, ledger[..n - 1]));
      }
    }
  }

  lemma ListsSnoc(ledger: seq<Capsule>, n: nat, at: seq<nat>, list: seq<Capsule>)
    requires 0 < n <= |ledger| && ListsAt(ledger, n - 1, at, list) && Waits(ledger, n - 1)
    ensures ListsAt(ledger, n, at + [n - 1], list + [ledger[n - 1]])
  {
    hide Waits;
    forall i: nat | i < n && Waits(ledger, i) ensures i in at + [n - 1] {
      assert i == n - 1 || i in at;
    }
  }

  lemma ListsSame(ledger: seq<Capsule>, n: nat, at: seq<nat>, list: seq<Capsule>)
    requires 0 < n <= |ledger| && ListsAt(ledger, n - 1, at, list) && !Waits(ledger, n - 1)
    ensures ListsAt(ledger, n, at, list)
  {
    hide Waits;
  }

  /** `list_pending` lists exactly the waiting entries, in ledger order. */
  lemma PendingPlainly(ledger: seq<Capsule>) returns (at: seq<nat>)
    ensures ListsAt(ledger, |ledger|, at, Pending(ledger))
  {
    hide PendingIn, ListsAt;
    at := PendingUpTo(ledger, |ledger|);
    assert ledger[..|ledger|] == ledger;
  }

  /** A planned effect alone is enough to wait. */
  lemma PlannedWaits(ledger: seq<Capsule>, i: nat)
    requires i < |ledger| && Counts(ledger[i]) && Reads(ledger[i], "effect", "status", "planned")
    requires !Closed(ledger, IdText(ledger[i]))
    ensures ledger[i] in Pending(ledger)
  {
    hide Counts, Reads, Closed, Pending;
    var at := PendingPlainly(ledger);
    assert Waits(ledger, i);
    var k :| 0 <= k < |at| && at[k] == i;
    assert Pending(ledger)[k] == ledger[i];
  }

  // ---------------------------------------------------------------- sealing

  /** The first capsule of that id is a hold reserve. */
  ghost predicate ReserveHeld(ledger: seq<Capsule>, id: string) {
    exists i: nat :: ReserveAt(ledger, id, i)
  }

  ghost predicate ReserveAt(ledger: seq<Capsule>, id: string, i: nat) {
    && i < |ledger| && Counts(ledger[i]) && IdText(ledger[i]) == id
    && (forall j :: 0 <= j < i ==> !(Counts(ledger[j]) && IdText(ledger[j]) == id))
    && "action_id" in ledger[i] && ledger[i]["action_id"].Text? && "hold.reserve/" <= ledger[i]["action_id"].text
  }

  lemma {:induction false} FirstIs(ledger: seq<Capsule>, id: string) returns (i: nat)
    ensures FirstWithId(ledger, id).None? <==>
      forall j :: 0 <= j < |ledger| ==> !(IsCapsule(ledger[j]) && IdOf(ledger[j]) == id)
    ensures FirstWithId(ledger, id).Some? ==>
      && i < |ledger| && FirstWithId(ledger, id).value == ledger[i] && IsCapsule(ledger[i]) && IdOf(ledger[i]) == id
      && forall j :: 0 <= j < i ==> !(IsCapsule(ledger[j]) && IdOf(ledger[j]) == id)
  {
    hide IsCapsule, IdOf;
    i := 0;
    if ledger != [] && !(IsCapsule(ledger[0]) && IdOf(ledger[0]) == id) {
      i := FirstIs(ledger[1..], id);
      assert forall j :: 0 < j < |ledger| ==> ledger[j] == ledger[1..][j - 1];
      assert forall j :: 0 <= j < |ledger[1..]| ==> ledger[1..][j] == ledger[j + 1];
      i := i + 1;
    }
  }

  lemma CountsIs(c: Capsule)
    ensures IsCapsule(c) <==> Counts(c)
  {
    hide IsRecord, LedgerPlain.Bookkeeping;
    RecordIs(c);
  }

  lemma ReserveIs(ledger: seq<Capsule>, id: string)
    ensures ResumesReserve(ledger, id) <==> ReserveHeld(ledger, id)
  {
    hide FirstWithId, IsCapsule, Counts;
    forall j | 0 <= j < |ledger| ensures IsCapsule(ledger[j]) <==> Counts(ledger[j]) { CountsIs(ledger[j]); }
    var i := FirstIs(ledger, id);
    if ResumesReserve(ledger, id) { assert ReserveAt(ledger, id, i); }
    if ReserveHeld(ledger, id) {
      var k: nat :| ReserveAt(ledger, id, k);
      assert i == k;
    }
  }

  /** What a seal asks for: nothing for any other decision, nothing for a hold reserve whose recheck is not given, and
      otherwise one emit that supersedes the blocked capsule. It approves only an approval whose recheck did not fail,
      and only then is there an effect to dispatch. */
  lemma SealPlainly(ledger: seq<Capsule>, a: Approval)
    ensures
      var approved := a.decision == "approve" && a.resumeOk != Some(false);
      if a.decision != "approve" && a.decision != "deny" then ToDraft(ledger, a) == BadDecision
      else if a.resumeOk == None && ReserveHeld(ledger, a.blocked) then ToDraft(ledger, a) == ResumeUnset
      else
        && ToDraft(ledger, a).Request?
        && var d := ToDraft(ledger, a).draft;
        && d.confirms == Some(a.blocked) && d.relation == Some("supersedes") && d.references == None
        && d.payload == map[] && d.canonicalization == "jcs"
        && forall chained :: SealedMembers(a, approved, d.membersFor(chained))
  {
    hide ResumesReserve, ReserveHeld, Members;
    ReserveIs(ledger, a.blocked);
    if a.decision == "approve" || a.decision == "deny" { MembersAre(a); }
  }

  ghost predicate SealedMembers(a: Approval, approved: bool, built: Option<Capsule>) {
    && built.Some?
    && var m := built.value;
    && "disposition" in m
    && m["disposition"] == Object(map[
         "decision" := Text(if approved then "approve" else "deny"), "approver" := Text("human"),
         "human_disposed" := Bool(true), "verdict_class" := Text(if approved then "executed" else "denied")])
    && ("effect" in m <==> approved)
    && (approved ==> m["effect"] == Object(map["type" := Text(a.effectType), "status" := Text("dispatched")]))
    && (forall name :: name in a.rest && name !in {"effect", "kind", "record_type", "disposition"} ==>
          name in m && m[name] == a.rest[name])
    && (forall name :: name in m ==> name == "disposition" || name == "effect" || name in a.rest)
  }

  lemma MembersAre(a: Approval)
    requires a.decision == "approve" || a.decision == "deny"
    ensures SealedMembers(a, a.decision == "approve" && a.resumeOk != Some(false), Some(Members(a)))
  {
    Names();
    assert "approve" != "deny";
  }
}
