/** Emitting capsules to a ledger: identity, chain or citation, append, and the pending approvals read back. */
module Ledger {
  import opened Bytes
  import opened JsonData

  type Capsule = map<string, Json>

  /** JCS, its absent-field normalization, SHA-256 in hex, and the producer envelope with its key id. */
  datatype Library = Library(
    jcs: Capsule -> seq<byte>, normalize: Capsule -> Capsule, sha: seq<byte> -> string, sign: string -> (Json, Json))

  // ---------------------------------------------------------------- identity

  const LOCAL := {"capsule_id", "signature", "key_id"}

  /** An absent or null declaration means the vintage algorithm. */
  function Algorithm(c: Capsule): Json {
    if "canonicalization_id" !in c || c["canonicalization_id"].Null? then Text("jcs-n") else c["canonicalization_id"]
  }

  /** `canonical_capsule_bytes`; `None` is the unsupported-algorithm error. */
  function CanonicalBytes(lib: Library, c: Capsule): Option<seq<byte>> {
    if Algorithm(c) == Text("jcs-n") then Some(lib.jcs(lib.normalize(c - LOCAL - {"chain"})))
    else if Algorithm(c) == Text("jcs") then Some(lib.jcs(c - LOCAL))
    else None
  }

  function ComputeId(lib: Library, c: Capsule): Option<string> {
    var bs := CanonicalBytes(lib, c);
    if bs.None? then None else Some(lib.sha(bs.value))
  }

  lemma LocalNames()
    ensures "canonicalization_id" !in LOCAL && "chain" !in LOCAL
    ensures "canonicalization_id" != "chain"
    ensures "canonicalization_id" != "references" && "chain" != "references" && "references" !in LOCAL
  {
    assert "chain"[1] == 'h' && "canonicalization_id"[1] == 'a';
    assert |"capsule_id"| == 10 && |"references"| == 10 && "capsule_id"[0] != "references"[0];
  }

  /** The id is a function of the content: whoever signs, with whatever key, and whatever id is already written,
      it recomputes the same. */
  lemma IdIgnoresSigner(lib: Library, c: Capsule, d: Capsule)
    requires c - LOCAL == d - LOCAL
    ensures ComputeId(lib, c) == ComputeId(lib, d)
  {
    LocalNames();
    assert "canonicalization_id" in c <==> "canonicalization_id" in c - LOCAL;
    assert "canonicalization_id" in d <==> "canonicalization_id" in d - LOCAL;
    if "canonicalization_id" in c {
      assert c["canonicalization_id"] == (c - LOCAL)["canonicalization_id"];
      assert d["canonicalization_id"] == (d - LOCAL)["canonicalization_id"];
    }
  }

  ghost predicate JcsInjective(lib: Library) {
    forall x: Capsule, y: Capsule :: lib.jcs(x) == lib.jcs(y) ==> x == y
  }

  /** Under the declared `jcs` algorithm an id names one content, chain link included, or SHA-256 collides. */
  lemma IdBindsContent(lib: Library, c: Capsule, d: Capsule)
    requires JcsInjective(lib)
    requires Algorithm(c) == Text("jcs") && Algorithm(d) == Text("jcs")
    ensures ComputeId(lib, c) == ComputeId(lib, d) <==>
      || c - LOCAL == d - LOCAL
      || (lib.jcs(c - LOCAL) != lib.jcs(d - LOCAL) && lib.sha(lib.jcs(c - LOCAL)) == lib.sha(lib.jcs(d - LOCAL)))
  {
    assert "jcs" != "jcs-n";
  }

  /** The vintage algorithm leaves the chain link out of the id. */
  lemma VintageForgetsChain(lib: Library, c: Capsule, link: Json)
    requires Algorithm(c) == Text("jcs-n")
    ensures ComputeId(lib, c["chain" := link]) == ComputeId(lib, c)
  {
    LocalNames();
    assert c["chain" := link] - LOCAL - {"chain"} == c - LOCAL - {"chain"};
  }

  // ---------------------------------------------------------------- emitting

  datatype Reference = Reference(kind: string, digestAlg: string, digest: string, purpose: Option<string>)

  function Encode(r: Reference): Json {
    Object(map["type" := Text(r.kind), "digest_alg" := Text(r.digestAlg), "digest" := Text(r.digest)]
           + if r.purpose.Some? then map["citation_purpose" := Text(r.purpose.value)] else map[])
  }

  /** The arguments of one emit. `membersFor(chained)` is what the builder writes apart from the chain, the
      references and the two identity members, `None` where it refuses; its assurance block says whether the
      capsule is chained. */
  datatype Draft = Draft(
    membersFor: bool -> Option<Capsule>, confirms: Option<string>, relation: Option<string>,
    references: Option<seq<Reference>>, payload: Capsule, canonicalization: string)

  datatype Error = BadRelation | BadParent | Refused | PayloadConflict | Unsupported | InvalidId | Conflict

  datatype Outcome = Emitted(capsule: Capsule, at: nat) | Raised(error: Error)

  const REGISTERED := {"follows", "confirms", "supersedes", "epoch_opens", "duplicates"}
  const RESERVED := {"canonicalization_id", "capsule_id", "signature", "key_id"}
  const BOOKKEEPING :=
    {"checkpoint_stamp", "disclosure_record", "checkpoint_witness_backfill", "archived_segment"}

  function IdOf(c: Capsule): string {
    if "capsule_id" in c && c["capsule_id"].Text? then c["capsule_id"].text else ""
  }

  predicate Holds(ledger: seq<Capsule>, id: string) {
    exists i :: 0 <= i < |ledger| && IdOf(ledger[i]) == id
  }

  /** A value that is no capsule id counts as held, so that it reaches the chain path and is refused there. */
  predicate InLedger(id: string, ledger: seq<Capsule>) {
    !IsDigestText(id) || Holds(ledger, id)
  }

  predicate Cites(refs: seq<Reference>, id: string) {
    exists i :: 0 <= i < |refs| && refs[i].digestAlg == "SHA-256" && refs[i].digest == id
  }

  function CiteForeign(id: string, refs: Option<seq<Reference>>): seq<Reference> {
    var given := if refs.Some? then refs.value else [];
    if Cites(given, id) then given
    else given + [Reference("agent-action-capsule", "SHA-256", id, Some("responds_to"))]
  }

  function ParentOf(d: Draft, ledger: seq<Capsule>): Option<string> {
    if d.confirms.Some? && InLedger(d.confirms.value, ledger) then d.confirms else None
  }

  function ReferencesOf(d: Draft, ledger: seq<Capsule>): Option<seq<Reference>> {
    if d.confirms.Some? && !InLedger(d.confirms.value, ledger) then Some(CiteForeign(d.confirms.value, d.references))
    else d.references
  }

  function ChainLink(parent: string, relation: Option<string>): Json {
    Object(map["parent_capsule_id" := Text(parent),
               "relation" := Text(if relation.Some? then relation.value else "follows")])
  }

  function EncodeAll(refs: seq<Reference>): Json {
    Array(seq(|refs|, i requires 0 <= i < |refs| => Encode(refs[i])))
  }

  /** The sealed builder output, before the profile's own members. */
  function Base(d: Draft, ledger: seq<Capsule>, members: Capsule): Capsule {
    var parent, refs := ParentOf(d, ledger), ReferencesOf(d, ledger);
    var bare := members - {"chain", "references"};
    var linked := if parent.Some? then bare["chain" := ChainLink(parent.value, d.relation)] else bare;
    var cited := if refs.Some? then linked["references" := EncodeAll(refs.value)] else linked;
    cited["capsule_id" := Null]["canonicalization_id" := Text("jcs")]
  }

  predicate Clashes(base: Capsule, payload: Capsule) {
    exists name :: name in payload && (name in base || name in RESERVED)
  }

  /** Identity, then the envelope over it. */
  function Sealed(lib: Library, c: Capsule, id: string): Capsule {
    c["capsule_id" := Text(id)]["signature" := lib.sign(id).0]["key_id" := lib.sign(id).1]
  }

  datatype Composed = Composed(capsule: Capsule) | Failed(error: Error)

  function Compose(lib: Library, ledger: seq<Capsule>, d: Draft): Composed {
    var parent := ParentOf(d, ledger);
    if d.relation.Some? && d.relation.value !in REGISTERED then Failed(BadRelation)
    else if d.relation.Some? && d.relation.value != "confirms" && d.confirms.None? then Failed(BadRelation)
    else if parent.Some? && !IsDigestText(parent.value) then Failed(BadParent)
    else if d.membersFor(parent.Some?).None? then Failed(Refused)
    else
      var base := Base(d, ledger, d.membersFor(parent.Some?).value);
      if Clashes(base, d.payload) then Failed(PayloadConflict)
      else
        var c := (base + d.payload)["canonicalization_id" := Text(d.canonicalization)];
        var id := ComputeId(lib, c);
        if id.None? then Failed(Unsupported) else Composed(Sealed(lib, c, id.value))
  }

  predicate IsRecord(c: Capsule) {
    "kind" !in c || !c["kind"].Text? || c["kind"].text !in BOOKKEEPING
  }

  function Position(ledger: seq<Capsule>, id: string): Option<nat> {
    if ledger == [] then None
    else
      var before := Position(ledger[..|ledger| - 1], id);
      if before.Some? then before else if IdOf(ledger[|ledger| - 1]) == id then Some(|ledger| - 1) else None
  }

  lemma {:induction false} PositionMeaning(ledger: seq<Capsule>, id: string)
    ensures Position(ledger, id).Some? <==> Holds(ledger, id)
    ensures Position(ledger, id).Some? ==>
      Position(ledger, id).value < |ledger| && IdOf(ledger[Position(ledger, id).value]) == id
  {
    if ledger != [] {
      var front := ledger[..|ledger| - 1];
      PositionMeaning(front, id);
      assert forall i :: 0 <= i < |front| ==> front[i] == ledger[i];
    }
  }

  /** `append_line`: an id already held is never written again. */
  function Append(ledger: seq<Capsule>, c: Capsule): Outcome {
    var at := Position(ledger, IdOf(c));
    if !IsDigestText(IdOf(c)) || !IsRecord(c) then Raised(InvalidId)
    else if at.None? then Emitted(c, |ledger|)
    else if at.value < |ledger| && ledger[at.value] == c then Emitted(c, at.value)
    else Raised(Conflict)
  }

  function Emit(lib: Library, ledger: seq<Capsule>, d: Draft): Outcome {
    var c := Compose(lib, ledger, d);
    if c.Failed? then Raised(c.error) else Append(ledger, c.capsule)
  }

  function After(lib: Library, ledger: seq<Capsule>, d: Draft): seq<Capsule> {
    var o := Emit(lib, ledger, d);
    if o.Emitted? && o.at == |ledger| then ledger + [o.capsule] else ledger
  }

  function Run(lib: Library, ledger: seq<Capsule>, ds: seq<Draft>): seq<Capsule>
    decreases |ds|
  {
    if ds == [] then ledger else Run(lib, After(lib, ledger, ds[0]), ds[1..])
  }

  // ---------------------------------------------------------------- what every run keeps

  /** Every stored capsule's id recomputes from the stored record, and no id is stored twice. */
  ghost predicate LedgerOk(lib: Library, ledger: seq<Capsule>) {
    && (forall i :: 0 <= i < |ledger| ==> IsDigestText(IdOf(ledger[i])) && ComputeId(lib, ledger[i]) == Some(IdOf(ledger[i])))
    && (forall i, j :: 0 <= i < j < |ledger| ==> IdOf(ledger[i]) != IdOf(ledger[j]))
  }

  lemma ComposedId(lib: Library, ledger: seq<Capsule>, d: Draft)
    requires Compose(lib, ledger, d).Composed?
    ensures
      var c := Compose(lib, ledger, d).capsule;
      ComputeId(lib, c) == Some(IdOf(c))
  {
    hide ComputeId, Clashes, Base;
    var base := Base(d, ledger, d.membersFor(ParentOf(d, ledger).Some?).value);
    var c := (base + d.payload)["canonicalization_id" := Text(d.canonicalization)];
    var s := Compose(lib, ledger, d).capsule;
    assert s - LOCAL == c - LOCAL;
    IdIgnoresSigner(lib, s, c);
  }

  lemma StepOk(lib: Library, ledger: seq<Capsule>, d: Draft)
    requires LedgerOk(lib, ledger)
    ensures LedgerOk(lib, After(lib, ledger, d))
  {
    hide Compose, ComputeId, IsDigestText, IdOf, IsRecord;
    var o := Emit(lib, ledger, d);
    if o.Emitted? && o.at == |ledger| {
      ComposedId(lib, ledger, d);
      PositionMeaning(ledger, IdOf(o.capsule));
    }
  }

  lemma {:induction false} RunOk(lib: Library, ledger: seq<Capsule>, ds: seq<Draft>)
    requires LedgerOk(lib, ledger)
    ensures LedgerOk(lib, Run(lib, ledger, ds)) && ledger <= Run(lib, ledger, ds)
    decreases |ds|
  {
    hide LedgerOk, Emit;
    if ds != [] {
      StepOk(lib, ledger, ds[0]);
      RunOk(lib, After(lib, ledger, ds[0]), ds[1..]);
    }
  }

  // ---------------------------------------------------------------- chain or citation

  function Link(c: Capsule): Capsule {
    if "chain" in c && c["chain"].Object? then c["chain"].members else map[]
  }

  function Parent(c: Capsule): Option<string> {
    if "parent_capsule_id" in Link(c) && Link(c)["parent_capsule_id"].Text? then Some(Link(c)["parent_capsule_id"].text)
    else None
  }

  /** The parent of every capsule is an entry at a strictly smaller position. */
  ghost predicate Chained(ledger: seq<Capsule>) {
    forall i :: 0 <= i < |ledger| && Parent(ledger[i]).Some? ==> Holds(ledger[..i], Parent(ledger[i]).value)
  }

  lemma ComposedMembers(lib: Library, ledger: seq<Capsule>, d: Draft)
    requires Compose(lib, ledger, d).Composed?
    ensures
      var c := Compose(lib, ledger, d).capsule;
      && (ParentOf(d, ledger).Some? ==>
            "chain" in c && c["chain"] == ChainLink(ParentOf(d, ledger).value, d.relation) && "chain" !in d.payload)
      && (ParentOf(d, ledger).None? ==>
            ("chain" in c <==> "chain" in d.payload) && ("chain" in c ==> c["chain"] == d.payload["chain"]))
      && (ReferencesOf(d, ledger).Some? ==>
            "references" in c && c["references"] == EncodeAll(ReferencesOf(d, ledger).value)
            && "references" !in d.payload)
      && (ReferencesOf(d, ledger).None? ==>
            ("references" in c <==> "references" in d.payload)
            && ("references" in c ==> c["references"] == d.payload["references"]))
  {
    hide ComputeId, ParentOf, ReferencesOf, ChainLink, EncodeAll;
    LocalNames();
    var members := d.membersFor(ParentOf(d, ledger).Some?).value;
    var base := Base(d, ledger, members);
    BaseMembers(d, ledger, members);
    assert "chain" in d.payload && "chain" in base ==> Clashes(base, d.payload);
    assert "references" in d.payload && "references" in base ==> Clashes(base, d.payload);
  }

  lemma BaseMembers(d: Draft, ledger: seq<Capsule>, members: Capsule)
    ensures
      var base := Base(d, ledger, members);
      && ("chain" in base <==> ParentOf(d, ledger).Some?)
      && ("chain" in base ==> base["chain"] == ChainLink(ParentOf(d, ledger).value, d.relation))
      && ("references" in base <==> ReferencesOf(d, ledger).Some?)
      && ("references" in base ==> base["references"] == EncodeAll(ReferencesOf(d, ledger).value))
  {
    hide ParentOf, ReferencesOf, ChainLink, EncodeAll;
    LocalNames();
  }

  const WRITTEN := {"chain", "references", "canonicalization_id", "capsule_id", "signature", "key_id"}

  /** Every other member of a capsule without profile members is the builder's. */
  lemma ComposedKeeps(lib: Library, ledger: seq<Capsule>, d: Draft, name: string)
    requires Compose(lib, ledger, d).Composed? && d.payload == map[] && name !in WRITTEN
    ensures
      var c, members := Compose(lib, ledger, d).capsule, d.membersFor(ParentOf(d, ledger).Some?);
      && members.Some? && (name in c <==> name in members.value)
      && (name in c ==> c[name] == members.value[name])
  {
    hide ComputeId, ParentOf, ReferencesOf, ChainLink, EncodeAll, Clashes;
  }

  /** A `confirms` argument that is a capsule id becomes the chain link or a citation of that digest, never both:
      held, it is the link and the references are those given, or those of the payload if none were; not held, it is
      cited once, after the given references, and no link is written for it. */
  lemma ChainXorCite(lib: Library, ledger: seq<Capsule>, d: Draft)
    requires d.confirms.Some? && Compose(lib, ledger, d).Composed?
    ensures IsDigestText(d.confirms.value)
    ensures
      var c, id := Compose(lib, ledger, d).capsule, d.confirms.value;
      && (Holds(ledger, id) ==>
            && Parent(c) == Some(id)
            && ("references" in c <==> d.references.Some? || "references" in d.payload)
            && (d.references.Some? ==> c["references"] == EncodeAll(d.references.value))
            && (d.references.None? && "references" in c ==> c["references"] == d.payload["references"]))
      && (!Holds(ledger, id) ==>
            && ("chain" in c ==> "chain" in d.payload)
            && "references" in c && c["references"] == EncodeAll(CiteForeign(id, d.references))
            && Cites(CiteForeign(id, d.references), id)
            && (d.references.Some? ==> d.references.value <= CiteForeign(id, d.references)))
  {
    hide Compose, EncodeAll, IsDigestText;
    ConfirmsValid(lib, ledger, d);
    ComposedMembers(lib, ledger, d);
    CitesIt(d.confirms.value, d.references);
    assert "relation" != "parent_capsule_id";
  }

  lemma ConfirmsValid(lib: Library, ledger: seq<Capsule>, d: Draft)
    requires d.confirms.Some? && Compose(lib, ledger, d).Composed?
    ensures IsDigestText(d.confirms.value)
  {
    hide IsDigestText, Base, ComputeId, Clashes, Holds;
  }

  lemma CitesIt(id: string, refs: Option<seq<Reference>>)
    ensures Cites(CiteForeign(id, refs), id)
  {
    var given := if refs.Some? then refs.value else [];
    var cited := CiteForeign(id, refs);
    assert Cites(given, id) || (cited[|given|].digest == id && cited[|given|].digestAlg == "SHA-256");
  }

  /** Whether a profile's own member smuggles in a link the ledger cannot vouch for. */
  ghost predicate PayloadLinkHeld(d: Draft, ledger: seq<Capsule>) {
    "chain" in d.payload ==>
      Parent(map["chain" := d.payload["chain"]]).Some? ==> Holds(ledger, Parent(map["chain" := d.payload["chain"]]).value)
  }

  /** One emit keeps every parent earlier exactly when the payload brings no link of its own to an id the ledger
      does not hold: the clash check only guards a `chain` the builder wrote. */
  lemma StepChained(lib: Library, ledger: seq<Capsule>, d: Draft)
    requires Chained(ledger) && Emit(lib, ledger, d).Emitted? && Emit(lib, ledger, d).at == |ledger|
    ensures Chained(After(lib, ledger, d)) <==> PayloadLinkHeld(d, ledger)
  {
    hide Compose, EncodeAll, IsDigestText, Holds;
    ComposedMembers(lib, ledger, d);
    var c := Emit(lib, ledger, d).capsule;
    var next := After(lib, ledger, d);
    assert "relation" != "parent_capsule_id";
    ChainedSnoc(ledger, c);
    if ParentOf(d, ledger).Some? {
      ParentHeld(lib, ledger, d);
      assert Parent(c) == ParentOf(d, ledger);
    } else if "chain" in d.payload {
      assert Parent(c) == Parent(map["chain" := d.payload["chain"]]);
    }
  }

  lemma ParentHeld(lib: Library, ledger: seq<Capsule>, d: Draft)
    requires Compose(lib, ledger, d).Composed? && ParentOf(d, ledger).Some?
    ensures Holds(ledger, ParentOf(d, ledger).value)
  {
    hide IsDigestText, Base, ComputeId, Clashes, Holds;
  }

  lemma ChainedSnoc(ledger: seq<Capsule>, c: Capsule)
    requires Chained(ledger)
    ensures Chained(ledger + [c]) <==> (Parent(c).Some? ==> Holds(ledger, Parent(c).value))
  {
    hide Holds, Parent;
    var next := ledger + [c];
    assert next[..|ledger|] == ledger && next[|ledger|] == c;
    forall i | 0 <= i < |ledger| ensures next[..i] == ledger[..i] && next[i] == ledger[i] {}
  }

  /** Over every run of emits whose payload members write no `chain`, every parent is an earlier entry. */
  lemma {:induction false} RunChained(lib: Library, ledger: seq<Capsule>, ds: seq<Draft>)
    requires Chained(ledger) && forall i :: 0 <= i < |ds| ==> "chain" !in ds[i].payload
    ensures Chained(Run(lib, ledger, ds))
    decreases |ds|
  {
    hide Chained, Emit;
    if ds != [] {
      var o := Emit(lib, ledger, ds[0]);
      if o.Emitted? && o.at == |ledger| { StepChained(lib, ledger, ds[0]); }
      RunChained(lib, After(lib, ledger, ds[0]), ds[1..]);
    }
  }

  /** The entries from i up its parents to a root; well defined because positions fall. */
  ghost function Ancestry(ledger: seq<Capsule>, i: nat): seq<nat>
    requires Chained(ledger) && i < |ledger|
    decreases i
  {
    if Parent(ledger[i]).None? then [i]
    else
      PositionMeaning(ledger[..i], Parent(ledger[i]).value);
      [i] + Ancestry(ledger, Position(ledger[..i], Parent(ledger[i]).value).value)
  }

  /** The parent walk falls at every step and ends at a capsule without a parent. */
  lemma {:induction false} AncestryEnds(ledger: seq<Capsule>, i: nat)
    requires Chained(ledger) && i < |ledger|
    ensures
      var up := Ancestry(ledger, i);
      && 0 < |up| <= i + 1 && up[0] == i
      && (forall k :: 0 <= k < |up| ==> up[k] < |ledger|)
      && (forall k :: 0 <= k < |up| - 1 ==>
            up[k + 1] < up[k] && Parent(ledger[up[k]]) == Some(IdOf(ledger[up[k + 1]])))
      && Parent(ledger[up[|up| - 1]]).None?
    decreases i
  {
    hide Parent, IdOf, Chained;
    if Parent(ledger[i]).Some? {
      ParentBefore(ledger, i);
      AncestryEnds(ledger, Position(ledger[..i], Parent(ledger[i]).value).value);
    }
  }

  lemma ParentBefore(ledger: seq<Capsule>, i: nat)
    requires Chained(ledger) && i < |ledger| && Parent(ledger[i]).Some?
    ensures
      var at := Position(ledger[..i], Parent(ledger[i]).value);
      at.Some? && at.value < i && IdOf(ledger[at.value]) == Parent(ledger[i]).value
  {
    PositionMeaning(ledger[..i], Parent(ledger[i]).value);
  }

  /** The clash check does let such a link through: a capsule with no parent argument, on an empty ledger, whose
      payload writes a `chain` to an id nobody holds. */
  lemma ForgedLink(lib: Library)
    requires forall x :: IsDigestText(lib.sha(x))
    ensures
      var d := Draft(_ => Some(map[]), None, None, None, map["chain" := ChainLink("nobody", None)], "jcs");
      Emit(lib, [], d).Emitted? && !Chained(After(lib, [], d))
  {
    hide IsDigestText, Chained;
    LocalNames();
    var link := ChainLink("nobody", None);
    var d := Draft(_ => Some(map[]), None, None, None, map["chain" := link], "jcs");
    var base := Base(d, [], map[]);
    assert base == map["capsule_id" := Null, "canonicalization_id" := Text("jcs")];
    assert !Clashes(base, d.payload);
    var c := (base + d.payload)["canonicalization_id" := Text("jcs")];
    assert c["canonicalization_id"] == Text("jcs") && "jcs" != "jcs-n";
    var s := Compose(lib, [], d).capsule;
    assert "kind" !in s by { assert |"kind"| == 4 && |"chain"| == 5 && |"key_id"| == 6; }
    NothingChained();
    assert "relation" != "parent_capsule_id";
    assert Parent(s) == Some("nobody");
    StepChained(lib, [], d);
  }

  lemma NothingChained()
    ensures Chained([])
  {}

  // ---------------------------------------------------------------- the code as written

  class LedgerWriter {
    const lib: Library
    var lines: seq<Capsule>

    constructor (lib: Library)
      ensures this.lib == lib && lines == [] && LedgerOk(lib, lines) && Chained(lines)
    {
      this.lib := lib;
      lines := [];
    }

    /** `_append_capsule`. */
    method AppendLine(capsule: Capsule) returns (r: Outcome)
      modifies this`lines
      ensures r == Append(old(lines), capsule) && (r.Emitted? ==> r.capsule == capsule)
      ensures lines == if r.Emitted? && r.at == |old(lines)| then old(lines) + [capsule] else old(lines)
    {
      PositionMeaning(lines, IdOf(capsule));
      if !IsDigestText(IdOf(capsule)) || !IsRecord(capsule) {
        return Raised(InvalidId);
      }
      var existing := Position(lines, IdOf(capsule));
      if existing.Some? {
        if lines[existing.value] != capsule {
          return Raised(Conflict);
        }
        return Emitted(capsule, existing.value);
      }
      lines := lines + [capsule];
      return Emitted(capsule, |lines| - 1);
    }

    /** `_emit_capsule_at`, from the relation checks to the append. */
    method EmitCapsule(d: Draft) returns (r: Outcome)
      modifies this`lines
      ensures r == Emit(lib, old(lines), d)
      ensures lines == After(lib, old(lines), d)
      ensures old(LedgerOk(lib, lines)) ==> LedgerOk(lib, lines)
    {
      hide Compose, Append, LedgerOk;
      if LedgerOk(lib, lines) { StepOk(lib, lines, d); }
      var built := BuildCapsule(lib, lines, d);
      if built.Failed? {
        return Raised(built.error);
      }
      r := AppendLine(built.capsule);
    }
  }

  /** The profile's own members, one after another; none may replace a member already written. */
  method AddMembers(base: Capsule, payload: Capsule) returns (clash: bool, capsule: Capsule)
    ensures clash == Clashes(base, payload)
    ensures !clash ==> capsule == base + payload
  {
    capsule := base;
    var names := payload.Keys;
    assert capsule == base + (payload - names);
    while names != {}
      invariant names <= payload.Keys
      invariant forall n :: n in payload && n !in names ==> n !in base && n !in RESERVED
      invariant capsule == base + (payload - names)
      decreases names
    {
      var name :| name in names;
      if name in capsule || name in RESERVED {
        return true, capsule;
      }
      PayloadGrows(base, payload, names, name);
      capsule := capsule[name := payload[name]];
      names := names - {name};
    }
    assert payload - {} == payload;
    return false, capsule;
  }

  /** The chain-or-cite and identity parts: a capsule dictionary built and then written into. */
  method BuildCapsule(lib: Library, lines: seq<Capsule>, d: Draft) returns (r: Composed)
    ensures r == Compose(lib, lines, d)
  {
    hide ComputeId, IsDigestText, InLedger, ChainLink, EncodeAll, Clashes, CiteForeign;
    if d.relation.Some? && d.relation.value !in REGISTERED {
      return Failed(BadRelation);
    }
    if d.relation.Some? && d.relation.value != "confirms" && d.confirms.None? {
      return Failed(BadRelation);
    }
    var parent, references := d.confirms, d.references;
    if d.confirms.Some? && !InLedger(d.confirms.value, lines) {
      parent := None;
      references := Some(CiteForeign(d.confirms.value, references));
    }
    if parent.Some? && !IsDigestText(parent.value) {
      return Failed(BadParent);
    }
    var members := d.membersFor(parent.Some?);
    if members.None? {
      return Failed(Refused);
    }
    var capsule := members.value - {"chain", "references"};
    if parent.Some? {
      capsule := capsule["chain" := ChainLink(parent.value, d.relation)];
    }
    if references.Some? {
      capsule := capsule["references" := EncodeAll(references.value)];
    }
    capsule := capsule["capsule_id" := Null]["canonicalization_id" := Text("jcs")];
    assert capsule == Base(d, lines, members.value);
    var clash, whole := AddMembers(capsule, d.payload);
    if clash {
      return Failed(PayloadConflict);
    }
    capsule := whole["canonicalization_id" := Text(d.canonicalization)];
    var id := ComputeId(lib, capsule);
    if id.None? {
      return Failed(Unsupported);
    }
    capsule := capsule["capsule_id" := Text(id.value)];
    var envelope := lib.sign(id.value);
    capsule := capsule["signature" := envelope.0]["key_id" := envelope.1];
    return Composed(capsule);
  }

  lemma PayloadGrows(base: Capsule, payload: Capsule, names: set<string>, name: string)
    requires name in names && names <= payload.Keys
    ensures (base + (payload - names))[name := payload[name]] == base + (payload - (names - {name}))
  {}
}
