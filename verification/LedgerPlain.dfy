/** What an emit refuses, seals and stores, in plain terms: over the members of the stored capsule. */
module LedgerPlain {
  import opened Bytes
  import opened JsonData
  import opened Ledger

  predicate HasId(c: Capsule, id: string) {
    "capsule_id" in c && c["capsule_id"] == Text(id)
  }

  ghost predicate Held(ledger: seq<Capsule>, id: string) {
    exists i :: 0 <= i < |ledger| && HasId(ledger[i], id)
  }

  lemma HeldIs(ledger: seq<Capsule>, id: string)
    requires id != ""
    ensures Holds(ledger, id) <==> Held(ledger, id)
  {
    assert forall i :: 0 <= i < |ledger| ==> (IdOf(ledger[i]) == id <==> HasId(ledger[i], id));
  }

  // ---------------------------------------------------------------- references and links

  /** One written reference: its members are the given ones, the purpose only if there is one. */
  ghost predicate Written(j: Json, r: Reference) {
    && j.Object?
    && j.members.Keys == {"type", "digest_alg", "digest"} + (if r.purpose.Some? then {"citation_purpose"} else {})
    && j.members["type"] == Text(r.kind) && j.members["digest_alg"] == Text(r.digestAlg)
    && j.members["digest"] == Text(r.digest)
    && (r.purpose.Some? ==> j.members["citation_purpose"] == Text(r.purpose.value))
  }

  /** The first references of the array are the given ones, in order. */
  ghost predicate Lists(j: Json, given: seq<Reference>) {
    j.Array? && |given| <= |j.items| && forall i :: 0 <= i < |given| ==> Written(j.items[i], given[i])
  }

  ghost predicate AlreadyCited(given: seq<Reference>, id: string) {
    exists i :: 0 <= i < |given| && given[i].digestAlg == "SHA-256" && given[i].digest == id
  }

  ghost predicate CitesDigest(j: Json, id: string) {
    exists i :: CitesAt(j, id, i)
  }

  ghost predicate CitesAt(j: Json, id: string, i: int) {
    && j.Array? && 0 <= i < |j.items| && j.items[i].Object?
    && "digest_alg" in j.items[i].members && j.items[i].members["digest_alg"] == Text("SHA-256")
    && "digest" in j.items[i].members && j.items[i].members["digest"] == Text(id)
  }

  function Given(d: Draft): seq<Reference> {
    if d.references.Some? then d.references.value else []
  }

  lemma EncodeWritten(r: Reference)
    ensures Written(Encode(r), r)
  {
    assert |"type"| == 4 && |"digest_alg"| == 10 && |"digest"| == 6 && |"citation_purpose"| == 16;
  }

  lemma AllWritten(refs: seq<Reference>)
    ensures Lists(EncodeAll(refs), refs) && |EncodeAll(refs).items| == |refs|
  {
    hide Encode, Written;
    forall i | 0 <= i < |refs| ensures Written(EncodeAll(refs).items[i], refs[i]) { EncodeWritten(refs[i]); }
  }

  lemma ForeignWritten(id: string, refs: Option<seq<Reference>>)
    ensures
      var given := if refs.Some? then refs.value else [];
      var j := EncodeAll(CiteForeign(id, refs));
      && Lists(j, given) && CitesDigest(j, id)
      && |j.items| == |given| + (if AlreadyCited(given, id) then 0 else 1)
      && (!AlreadyCited(given, id) ==>
            j.items[|given|] == Object(map["type" := Text("agent-action-capsule"), "digest_alg" := Text("SHA-256"),
                                           "digest" := Text(id), "citation_purpose" := Text("responds_to")]))
  {
    hide Encode, Written, EncodeAll;
    var given := if refs.Some? then refs.value else [];
    var all := CiteForeign(id, refs);
    var j := EncodeAll(all);
    AllWritten(all);
    assert forall i :: 0 <= i < |given| ==> all[i] == given[i];
    if !AlreadyCited(given, id) {
      ForeignEncoded(id);
      EncodeAllAt(all, |given|);
    }
    var k :| 0 <= k < |all| && all[k].digestAlg == "SHA-256" && all[k].digest == id by { CitesIt(id, refs); }
    CitesWritten(j.items[k], all[k]);
    assert CitesAt(j, id, k);
  }

  lemma ForeignEncoded(id: string)
    ensures Encode(Reference("agent-action-capsule", "SHA-256", id, Some("responds_to")))
            == Object(map["type" := Text("agent-action-capsule"), "digest_alg" := Text("SHA-256"),
                          "digest" := Text(id), "citation_purpose" := Text("responds_to")])
  {}

  lemma EncodeAllAt(refs: seq<Reference>, i: nat)
    requires i < |refs|
    ensures i < |EncodeAll(refs).items| && EncodeAll(refs).items[i] == Encode(refs[i])
  {
    hide Encode;
  }

  lemma CitesWritten(j: Json, r: Reference)
    requires Written(j, r)
    ensures j.Object? && "digest_alg" in j.members && j.members["digest_alg"] == Text(r.digestAlg)
    ensures "digest" in j.members && j.members["digest"] == Text(r.digest)
  {}

  /** The chain-or-cite half of an emit. The confirmed id is 64 digits. When the ledger holds it, the stored chain member
      names it with the given relation, or "follows", and the stored references are the given ones; when it does not,
      no chain is written for it, and the stored references are the given ones followed, unless they already cite its
      digest, by one citation of it. */
  lemma ConfirmedPlainly(lib: Library, ledger: seq<Capsule>, d: Draft)
    requires d.confirms.Some? && Compose(lib, ledger, d).Composed?
    ensures
      var c, id := Compose(lib, ledger, d).capsule, d.confirms.value;
      && Hex64(id)
      && (Held(ledger, id) ==>
            && "chain" in c
            && c["chain"] == Object(map["parent_capsule_id" := Text(id),
                                        "relation" := Text(if d.relation.Some? then d.relation.value else "follows")])
            && (d.references.Some? ==>
                  "references" in c && Lists(c["references"], d.references.value)
                  && |c["references"].items| == |d.references.value|)
            && (d.references.None? ==> ("references" in c <==> "references" in d.payload)))
      && (!Held(ledger, id) ==>
            && ("chain" in c <==> "chain" in d.payload)
            && "references" in c && "references" !in d.payload
            && Lists(c["references"], Given(d)) && CitesDigest(c["references"], id)
            && |c["references"].items| == |Given(d)| + (if AlreadyCited(Given(d), id) then 0 else 1)
            && (!AlreadyCited(Given(d), id) ==>
                  c["references"].items[|Given(d)|] ==
                    Object(map["type" := Text("agent-action-capsule"), "digest_alg" := Text("SHA-256"),
                               "digest" := Text(id), "citation_purpose" := Text("responds_to")])))
  {
    hide Compose, EncodeAll, IsDigestText, Hex64, Lists, CitesDigest, CiteForeign, AlreadyCited;
    var id := d.confirms.value;
    ConfirmsValid(lib, ledger, d);
    DigestTextPlainly(id);
    NotEmptyId(id);
    HeldIs(ledger, id);
    ComposedMembers(lib, ledger, d);
    ForeignWritten(id, d.references);
    if d.references.Some? { AllWritten(d.references.value); }
  }

  /** Without a confirmed id no chain is written, and the stored references are exactly the given ones, or those of the
      payload when none are given. */
  lemma UnconfirmedPlainly(lib: Library, ledger: seq<Capsule>, d: Draft)
    requires d.confirms.None? && Compose(lib, ledger, d).Composed?
    ensures
      var c := Compose(lib, ledger, d).capsule;
      && ("chain" in c <==> "chain" in d.payload) && ("chain" in c ==> c["chain"] == d.payload["chain"])
      && (d.references.Some? ==>
            "references" in c && Lists(c["references"], d.references.value)
            && |c["references"].items| == |d.references.value|)
      && (d.references.None? ==> ("references" in c <==> "references" in d.payload))
      && (d.references.None? && "references" in c ==> c["references"] == d.payload["references"])
  {
    hide Compose, EncodeAll, Lists;
    ComposedMembers(lib, ledger, d);
    if d.references.Some? { AllWritten(d.references.value); }
  }

  /** The capsule's chain names that id as its parent. */
  predicate LinksTo(c: Capsule, id: string) {
    && "chain" in c && c["chain"].Object?
    && "parent_capsule_id" in c["chain"].members && c["chain"].members["parent_capsule_id"] == Text(id)
  }

  lemma ParentPlainly(c: Capsule, id: string)
    ensures Parent(c) == Some(id) <==> LinksTo(c, id)
  {}

  /** What it means that parents are earlier: whatever id an entry's chain names is the id of an entry before it. */
  lemma ChainedPlainly(lib: Library, ledger: seq<Capsule>)
    requires LedgerOk(lib, ledger)
    ensures Chained(ledger) <==>
      forall i: nat, id: string :: i < |ledger| && LinksTo(ledger[i], id) ==> Held(ledger[..i], id)
  {
    hide Parent, LinksTo, Held, Holds, ComputeId, IsDigestText;
    forall i: nat, id: string | i < |ledger| ensures
      && (Parent(ledger[i]) == Some(id) <==> LinksTo(ledger[i], id))
      && (Holds(ledger[..i], id) <==> Held(ledger[..i], id))
    {
      ParentPlainly(ledger[i], id);
      if id == "" { NoEmptyId(lib, ledger, i); } else { HeldIs(ledger[..i], id); }
    }
    if Chained(ledger) {
      forall i: nat, id: string | i < |ledger| && LinksTo(ledger[i], id) ensures Held(ledger[..i], id) {
        assert Parent(ledger[i]) == Some(id);
      }
    }
    if forall i: nat, id: string :: i < |ledger| && LinksTo(ledger[i], id) ==> Held(ledger[..i], id) {
      forall i | 0 <= i < |ledger| && Parent(ledger[i]).Some? ensures Holds(ledger[..i], Parent(ledger[i]).value) {
        assert LinksTo(ledger[i], Parent(ledger[i]).value);
      }
    }
  }

  lemma NoEmptyId(lib: Library, ledger: seq<Capsule>, i: nat)
    requires LedgerOk(lib, ledger) && i <= |ledger|
    ensures !Holds(ledger[..i], "") && !Held(ledger[..i], "")
  {
    hide ComputeId;
    forall j | 0 <= j < i ensures IdOf(ledger[..i][j]) != "" && !HasId(ledger[..i][j], "") {
      assert IsDigestText(IdOf(ledger[j]));
    }
  }

  lemma NotEmptyId(id: string)
    ensures IsDigestText(id) ==> id != ""
  {}

  // ---------------------------------------------------------------- refusals

  /** A payload member would replace one the builder writes, one of the four identity members, or the chain or the
      references if the emit writes them itself. */
  ghost predicate Replaces(d: Draft, members: Capsule, held: bool) {
    exists name :: name in d.payload && Taken(d, members, held, name)
  }

  predicate Taken(d: Draft, members: Capsule, held: bool, name: string) {
    || (name in members && name != "chain" && name != "references")
    || name == "canonicalization_id" || name == "capsule_id" || name == "signature" || name == "key_id"
    || (name == "chain" && d.confirms.Some? && held)
    || (name == "references" && (d.references.Some? || (d.confirms.Some? && !held)))
  }

  /** Why an emit is refused before it is appended, in the order the reasons are looked for. */
  ghost function Refusal(d: Draft, held: bool): Option<Error> {
    if d.relation.Some? && d.relation.value != "follows" && d.relation.value != "confirms"
       && d.relation.value != "supersedes" && d.relation.value != "epoch_opens" && d.relation.value != "duplicates"
    then Some(BadRelation)
    else if d.relation.Some? && d.relation.value != "confirms" && d.confirms.None? then Some(BadRelation)
    else if d.confirms.Some? && !Hex64(d.confirms.value) then Some(BadParent)
    else if d.membersFor(d.confirms.Some? && held).None? then Some(Error.Refused)
    else if Replaces(d, d.membersFor(d.confirms.Some? && held).value, held) then Some(PayloadConflict)
    else if d.canonicalization != "jcs" && d.canonicalization != "jcs-n" then Some(Unsupported)
    else None
  }

  ghost predicate ConfirmsHeld(ledger: seq<Capsule>, d: Draft) {
    d.confirms.Some? && Held(ledger, d.confirms.value)
  }

  lemma ParentIs(ledger: seq<Capsule>, d: Draft)
    requires d.confirms.Some? ==> Hex64(d.confirms.value)
    ensures ParentOf(d, ledger) == if ConfirmsHeld(ledger, d) then d.confirms else None
    ensures ReferencesOf(d, ledger).Some? <==> d.references.Some? || (d.confirms.Some? && !ConfirmsHeld(ledger, d))
  {
    hide Hex64, IsDigestText, Holds, Held;
    if d.confirms.Some? {
      DigestTextPlainly(d.confirms.value);
      NotEmptyId(d.confirms.value);
      HeldIs(ledger, d.confirms.value);
    }
  }

  lemma ClashIs(ledger: seq<Capsule>, d: Draft, members: Capsule)
    requires d.confirms.Some? ==> Hex64(d.confirms.value)
    ensures Clashes(Base(d, ledger, members), d.payload) <==> Replaces(d, members, ConfirmsHeld(ledger, d))
  {
    hide ParentOf, ReferencesOf, ChainLink, EncodeAll, Hex64, ConfirmsHeld;
    ParentIs(ledger, d);
    LocalNames();
    var base := Base(d, ledger, members);
    forall name ensures name in base || name in RESERVED <==> Taken(d, members, ConfirmsHeld(ledger, d), name) {}
  }

  /** An emit is refused exactly so, and is composed in every other case. */
  lemma RefusedPlainly(lib: Library, ledger: seq<Capsule>, d: Draft)
    ensures
      var why := Refusal(d, ConfirmsHeld(ledger, d));
      if why.Some? then Compose(lib, ledger, d) == Failed(why.value) else Compose(lib, ledger, d).Composed?
  {
    hide Base, Clashes, Replaces, ComputeId, Hex64, IsDigestText, InLedger, Held;
    if d.confirms.Some? { DigestTextPlainly(d.confirms.value); }
    if d.confirms.Some? && !Hex64(d.confirms.value) {
      BadIdStays(ledger, d);
    } else {
      ParentIs(ledger, d);
      var members := d.membersFor(ConfirmsHeld(ledger, d));
      if members.Some? {
        ClashIs(ledger, d, members.value);
        IdDefined(lib, Base(d, ledger, members.value) + d.payload, d.canonicalization);
      }
    }
  }

  lemma BadIdStays(ledger: seq<Capsule>, d: Draft)
    requires d.confirms.Some? && !IsDigestText(d.confirms.value)
    ensures ParentOf(d, ledger) == d.confirms
  {}

  lemma IdDefined(lib: Library, c: Capsule, declared: string)
    ensures ComputeId(lib, c["canonicalization_id" := Text(declared)]).Some? <==> declared == "jcs" || declared == "jcs-n"
  {}

  // ---------------------------------------------------------------- identity

  /** The declared algorithm: absent or null means the vintage one. */
  predicate Declares(c: Capsule, algorithm: string) {
    if "canonicalization_id" in c && c["canonicalization_id"] != Null then c["canonicalization_id"] == Text(algorithm)
    else algorithm == "jcs-n"
  }

  /** The capsule without the id and the two members of the signature. */
  function Unsigned(c: Capsule): Capsule {
    map name | name in c && name != "capsule_id" && name != "signature" && name != "key_id" :: c[name]
  }

  function Unchained(c: Capsule): Capsule {
    map name | name in c && name != "chain" :: c[name]
  }

  /** The id is the hash of the serialized capsule without its local members, under the vintage algorithm also without
      its chain and normalized; any other declared algorithm is refused. */
  lemma IdPlainly(lib: Library, c: Capsule)
    ensures Declares(c, "jcs") ==> ComputeId(lib, c) == Some(lib.sha(lib.jcs(Unsigned(c))))
    ensures Declares(c, "jcs-n") ==> ComputeId(lib, c) == Some(lib.sha(lib.jcs(lib.normalize(Unchained(Unsigned(c))))))
    ensures !Declares(c, "jcs") && !Declares(c, "jcs-n") ==> ComputeId(lib, c).None?
  {
    assert "jcs" != "jcs-n";
    assert c - LOCAL == Unsigned(c);
    assert c - LOCAL - {"chain"} == Unchained(Unsigned(c));
  }

  /** What a composed capsule holds: the id computed from it, the signature and key id over that id, the declared
      algorithm, every payload member, every builder member not overwritten, the chain and the references where they
      are written, and nothing else. */
  lemma SealedPlainly(lib: Library, ledger: seq<Capsule>, d: Draft)
    requires Compose(lib, ledger, d).Composed?
    ensures d.membersFor(ConfirmsHeld(ledger, d)).Some?
    ensures
      var c, members := Compose(lib, ledger, d).capsule, d.membersFor(ConfirmsHeld(ledger, d)).value;
      var chained := ConfirmsHeld(ledger, d);
      var cited := d.references.Some? || (d.confirms.Some? && !chained);
      && ComputeId(lib, c).Some?
      && "capsule_id" in c && c["capsule_id"] == Text(ComputeId(lib, c).value)
      && "signature" in c && c["signature"] == lib.sign(ComputeId(lib, c).value).0
      && "key_id" in c && c["key_id"] == lib.sign(ComputeId(lib, c).value).1
      && "canonicalization_id" in c && c["canonicalization_id"] == Text(d.canonicalization)
      && (forall name :: name in d.payload ==> name in c && c[name] == d.payload[name])
      && (forall name :: name in members && !Identity(name) && name != "chain" && name != "references" ==>
            name in c && c[name] == members[name])
      && (forall name :: name in c ==>
            || name in d.payload || Identity(name) || (name == "chain" && chained) || (name == "references" && cited)
            || (name in members && name != "chain" && name != "references"))
  {
    hide Clashes, ComputeId, Replaces, Hex64, Held, IsDigestText, InLedger, Base, Sealed, Identity, Refusal;
    ComposedFrom(lib, ledger, d);
    ParentIs(ledger, d);
    ComposedId(lib, ledger, d);
    var members := d.membersFor(ConfirmsHeld(ledger, d)).value;
    var base := Base(d, ledger, members);
    BaseNames(ledger, d, members);
    NoClash(base, d.payload);
    IdentityNames();
    SealedHolds(lib, base + d.payload, d.canonicalization, ComputeId(lib, Compose(lib, ledger, d).capsule).value);
  }

  lemma ComposedFrom(lib: Library, ledger: seq<Capsule>, d: Draft)
    requires Compose(lib, ledger, d).Composed?
    ensures d.confirms.Some? ==> Hex64(d.confirms.value)
    ensures d.membersFor(ConfirmsHeld(ledger, d)).Some?
    ensures
      var base := Base(d, ledger, d.membersFor(ConfirmsHeld(ledger, d)).value);
      && !Clashes(base, d.payload)
      && ComputeId(lib, Compose(lib, ledger, d).capsule).Some?
      && Compose(lib, ledger, d).capsule ==
           Sealed(lib, (base + d.payload)["canonicalization_id" := Text(d.canonicalization)],
                  ComputeId(lib, Compose(lib, ledger, d).capsule).value)
  {
    hide Clashes, ComputeId, Replaces, Hex64, Held, IsDigestText, InLedger, Base;
    RefusedPlainly(lib, ledger, d);
    ParentIs(ledger, d);
    ComposedId(lib, ledger, d);
    var s := Compose(lib, ledger, d).capsule;
    var base := Base(d, ledger, d.membersFor(ConfirmsHeld(ledger, d)).value);
    var id := ComputeId(lib, (base + d.payload)["canonicalization_id" := Text(d.canonicalization)]).value;
    assert s["capsule_id"] == Text(id);
  }

  lemma SealedHolds(lib: Library, whole: Capsule, declared: string, id: string)
    ensures
      var s := Sealed(lib, whole["canonicalization_id" := Text(declared)], id);
      && "capsule_id" in s && s["capsule_id"] == Text(id)
      && "signature" in s && s["signature"] == lib.sign(id).0 && "key_id" in s && s["key_id"] == lib.sign(id).1
      && "canonicalization_id" in s && s["canonicalization_id"] == Text(declared)
      && forall name :: !Identity(name) ==> (name in s <==> name in whole) && (name in s ==> s[name] == whole[name])
  {
    IdentityNames();
  }

  predicate Identity(name: string) {
    name == "capsule_id" || name == "signature" || name == "key_id" || name == "canonicalization_id"
  }

  lemma IdentityNames()
    ensures "capsule_id" != "signature" && "capsule_id" != "key_id" && "capsule_id" != "canonicalization_id"
    ensures "signature" != "key_id" && "signature" != "canonicalization_id" && "key_id" != "canonicalization_id"
    ensures !Identity("chain") && !Identity("references")
    ensures forall name :: Identity(name) ==> name in RESERVED
  {
    assert |"capsule_id"| == 10 && |"signature"| == 9 && |"key_id"| == 6 && |"canonicalization_id"| == 19;
    assert |"chain"| == 5 && |"references"| == 10 && "references"[0] != "capsule_id"[0];
  }

  lemma NoClash(base: Capsule, payload: Capsule)
    requires !Clashes(base, payload)
    ensures forall name :: name in payload ==> name !in base && name !in RESERVED
  {}

  lemma BaseNames(ledger: seq<Capsule>, d: Draft, members: Capsule)
    requires d.confirms.Some? ==> Hex64(d.confirms.value)
    ensures
      var base := Base(d, ledger, members);
      && (forall name :: name in members && !Identity(name) && name != "chain" && name != "references" ==>
            name in base && base[name] == members[name])
      && (forall name :: name in base ==>
            || Identity(name) || (name == "chain" && ConfirmsHeld(ledger, d))
            || (name == "references" && (d.references.Some? || (d.confirms.Some? && !ConfirmsHeld(ledger, d))))
            || (name in members && name != "chain" && name != "references"))
  {
    hide ParentOf, ReferencesOf, ChainLink, EncodeAll, Hex64, ConfirmsHeld;
    ParentIs(ledger, d);
  }

  // ---------------------------------------------------------------- appending

  predicate Bookkeeping(c: Capsule) {
    "kind" in c && (c["kind"] == Text("checkpoint_stamp") || c["kind"] == Text("disclosure_record")
                    || c["kind"] == Text("checkpoint_witness_backfill") || c["kind"] == Text("archived_segment"))
  }

  /** What appending answers: a record whose id is not held goes to the end; an id held is answered with its position
      if the stored capsule is the same, and is a conflict if it is not. */
  lemma AppendPlainly(ledger: seq<Capsule>, c: Capsule, id: string)
    requires HasId(c, id) && Hex64(id) && !Bookkeeping(c)
    ensures !Held(ledger, id) ==> Append(ledger, c) == Emitted(c, |ledger|)
    ensures forall i: nat :: i < |ledger| && HasId(ledger[i], id) && !Held(ledger[..i], id) ==>
      Append(ledger, c) == if ledger[i] == c then Emitted(c, i) else Raised(Conflict)
  {
    hide Hex64, IsDigestText, Held, Position, Holds;
    DigestTextPlainly(id);
    NotEmptyId(id);
    HeldIs(ledger, id);
    PositionMeaning(ledger, id);
    forall i: nat | i < |ledger| && HasId(ledger[i], id) && !Held(ledger[..i], id) ensures Position(ledger, id) == Some(i) {
      HeldIs(ledger[..i], id);
      PositionFirst(ledger, id, i);
    }
  }

  lemma {:induction false} PositionFirst(ledger: seq<Capsule>, id: string, i: nat)
    requires i < |ledger| && IdOf(ledger[i]) == id && !Holds(ledger[..i], id)
    ensures Position(ledger, id) == Some(i)
  {
    hide IdOf;
    var n := |ledger| - 1;
    if i == n {
      PositionMeaning(ledger[..n], id);
    } else {
      assert ledger[..n][..i] == ledger[..i];
      PositionFirst(ledger[..n], id, i);
    }
  }

  /** A capsule without a 64-digit id, or of a bookkeeping kind, is refused. */
  lemma NotAppended(ledger: seq<Capsule>, c: Capsule)
    ensures Append(ledger, c) == Raised(InvalidId) <==>
      Bookkeeping(c) || "capsule_id" !in c || !c["capsule_id"].Text? || !Hex64(c["capsule_id"].text)
  {
    hide Hex64, IsDigestText, Position;
    DigestTextPlainly(IdOf(c));
    NotEmptyId(IdOf(c));
  }

  /** One emit as a whole: refused, it leaves the ledger; composed, it adds exactly the sealed capsule if its id is new,
      and nothing otherwise. */
  lemma EmitPlainly(lib: Library, ledger: seq<Capsule>, d: Draft)
    ensures
      var why := Refusal(d, ConfirmsHeld(ledger, d));
      if why.Some? then Emit(lib, ledger, d) == Raised(why.value) && After(lib, ledger, d) == ledger
      else
        && Compose(lib, ledger, d).Composed?
        && var c := Compose(lib, ledger, d).capsule;
        && ComputeId(lib, c).Some?
        && var id := ComputeId(lib, c).value;
        if !Hex64(id) || Bookkeeping(c) then Emit(lib, ledger, d) == Raised(InvalidId) && After(lib, ledger, d) == ledger
        else if Held(ledger, id) then
          After(lib, ledger, d) == ledger && (Emit(lib, ledger, d).Emitted? ==> Emit(lib, ledger, d).capsule == c)
        else Emit(lib, ledger, d) == Emitted(c, |ledger|) && After(lib, ledger, d) == ledger + [c]
  {
    hide Compose, ComputeId, Hex64, IsDigestText, Held, Holds, Position, ConfirmsHeld, IsRecord, Bookkeeping;
    RefusedPlainly(lib, ledger, d);
    if Compose(lib, ledger, d).Composed? {
      var c := Compose(lib, ledger, d).capsule;
      SealedPlainly(lib, ledger, d);
      var id := ComputeId(lib, c).value;
      NotAppended(ledger, c);
      NotEmptyId(id);
      DigestTextPlainly(id);
      PositionMeaning(ledger, id);
      if Hex64(id) && !Bookkeeping(c) {
        HeldIs(ledger, id);
        AppendPlainly(ledger, c, id);
      }
    }
  }
}
