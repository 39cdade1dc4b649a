/** Cutting a checkpoint-chain segment out of a log: which checkpoints are taken, the replay of the log
    into a range, one consistency proof and one leaf tally per link. */
module ChainBuild {
  import opened Bytes
  import opened Mmr
  import opened Consistency
  import opened ChainVerify

  // ---------------------------------------------------------------- log entries and their kinds

  datatype AdjudicationBlock = AdjudicationBlock(source: string, verdict: Option<string>)

  /** A log entry as the builder reads it; an empty string stands for an absent or empty member. */
  datatype Entry = Entry(
    id: string, kind: string, checkpoint: Option<Checkpoint>, cose: string,
    relation: string, block: Option<AdjudicationBlock>)

  const STAMP_KIND := "checkpoint_stamp"
  const CORROBORATED := "corroborated"
  const INCONCLUSIVE := "inconclusive"
  const CONTRADICTED_PREFIX := "contradicted:"
  const CONTRADICTED_SELF := "contradicted_self"
  const CONTRADICTED_OTHER := "contradicted_other"
  const ADJUDICATION := "adjudication"

  predicate IsAdjudication(e: Entry) {
    e.relation == "adjudicates" || (e.block.Some? && e.block.value.source == "twin_comparison")
  }

  function DefaultClassify(e: Entry): string {
    if e.kind != "" then (if e.kind == STAMP_KIND then "stamp" else e.kind)
    else if IsAdjudication(e) then ADJUDICATION
    else "capsule"
  }

  function VerdictOf(e: Entry): Option<string> {
    if e.block.Some? then e.block.value.verdict else None
  }

  /** The verdict shapes an adjudication may be sealed with. */
  predicate ValidVerdict(v: string) {
    v == CORROBORATED || v == INCONCLUSIVE || (CONTRADICTED_PREFIX <= v && |v| > |CONTRADICTED_PREFIX|)
  }

  /** The bucket a verdict falls in, if any. */
  function Bucket(v: string, self: Option<string>): Option<string> {
    if v == CORROBORATED then Some(CORROBORATED)
    else if v == INCONCLUSIVE then Some(INCONCLUSIVE)
    else if CONTRADICTED_PREFIX <= v then
      if self == Some(v[|CONTRADICTED_PREFIX|..]) then Some(CONTRADICTED_SELF) else Some(CONTRADICTED_OTHER)
    else None
  }

  // ---------------------------------------------------------------- tallies

  function Get(m: map<string, nat>, k: string): nat {
    if k in m then m[k] else 0
  }

  function Add(m: map<string, nat>, k: string): map<string, nat> {
    m[k := Get(m, k) + 1]
  }

  /** How many of the labels are k. */
  function Occurrences(labels: seq<string>, k: string): nat {
    if labels == [] then 0
    else Occurrences(labels[..|labels| - 1], k) + if labels[|labels| - 1] == k then 1 else 0
  }

  lemma {:induction false} OccurrencesAppend(a: seq<string>, b: seq<string>, k: string)
    ensures Occurrences(a + b, k) == Occurrences(a, k) + Occurrences(b, k)
  {
    if b == [] {
      assert a + b == a;
    } else {
      var b' := b[..|b| - 1];
      assert (a + b)[..|a + b| - 1] == a + b';
      OccurrencesAppend(a, b', k);
    }
  }

  /** `m` counts exactly the labels: a key for each label that occurs, with its number of occurrences. */
  ghost predicate Counts(m: map<string, nat>, labels: seq<string>) {
    forall k :: Get(m, k) == Occurrences(labels, k) && (k in m <==> Occurrences(labels, k) > 0)
  }

  lemma CountsAdd(m: map<string, nat>, labels: seq<string>, k: string)
    requires Counts(m, labels)
    ensures Counts(Add(m, k), labels + [k])
  {
    assert (labels + [k])[..|labels|] == labels;
  }

  /** The sum of all counts. */
  ghost function Total(m: map<string, nat>): nat {
    if m == map[] then 0
    else
      var k :| k in m;
      m[k] + Total(m - {k})
  }

  lemma {:induction false} TotalSplit(m: map<string, nat>, k: string)
    requires k in m
    ensures Total(m) == m[k] + Total(m - {k})
    decreases |m|
  {
    var j :| j in m && Total(m) == m[j] + Total(m - {j});
    if j != k {
      TotalSplit(m - {j}, k);
      TotalSplit(m - {k}, j);
      assert m - {j} - {k} == m - {k} - {j};
    }
  }

  lemma TotalAdd(m: map<string, nat>, k: string)
    ensures Total(Add(m, k)) == Total(m) + 1
  {
    TotalSplit(Add(m, k), k);
    if k in m {
      TotalSplit(m, k);
      assert Add(m, k) - {k} == m - {k};
    } else {
      assert Add(m, k) - {k} == m;
    }
  }

  function Labels(es: seq<Entry>, classify: Entry -> string): (r: seq<string>)
    ensures |r| == |es| && forall i :: 0 <= i < |es| ==> r[i] == classify(es[i])
  {
    seq(|es|, i requires 0 <= i < |es| => classify(es[i]))
  }

  function Adjudicated(es: seq<Entry>, classify: Entry -> string): seq<Entry> {
    if es == [] then []
    else
      var last := es[|es| - 1];
      Adjudicated(es[..|es| - 1], classify) + if classify(last) == ADJUDICATION then [last] else []
  }

  function CountLabels(labels: seq<string>): map<string, nat> {
    if labels == [] then map[] else Add(CountLabels(labels[..|labels| - 1]), labels[|labels| - 1])
  }

  /** A tally is exact per kind, and its counts sum to the number of leaves. */
  lemma {:induction false} CountLabelsExact(labels: seq<string>)
    ensures Counts(CountLabels(labels), labels)
    ensures Total(CountLabels(labels)) == |labels|
  {
    if labels != [] {
      var init, k := labels[..|labels| - 1], labels[|labels| - 1];
      CountLabelsExact(init);
      CountsAdd(CountLabels(init), init, k);
      TotalAdd(CountLabels(init), k);
      assert init + [k] == labels;
    }
  }

  /** The leaf tally loop: the counts per kind and the adjudications among the leaves. */
  method TallyLeaves(own: seq<Entry>, classify: Entry -> string)
    returns (counts: map<string, nat>, adjudications: seq<Entry>)
    ensures counts == CountLabels(Labels(own, classify))
    ensures adjudications == Adjudicated(own, classify)
  {
    counts, adjudications := map[], [];
    for i := 0 to |own|
      invariant counts == CountLabels(Labels(own[..i], classify))
      invariant adjudications == Adjudicated(own[..i], classify)
    {
      var k := classify(own[i]);
      counts := counts[k := (if k in counts then counts[k] else 0) + 1];
      if k == ADJUDICATION { adjudications := adjudications + [own[i]]; }
      assert own[..i + 1][..i] == own[..i];
      assert Labels(own[..i + 1], classify)[..i] == Labels(own[..i], classify);
    }
    assert own[..|own|] == own;
  }

  const NO_VERDICTS: map<string, nat> :=
    map[CORROBORATED := 0, CONTRADICTED_SELF := 0, CONTRADICTED_OTHER := 0, INCONCLUSIVE := 0]

  function BucketOf(e: Entry, self: Option<string>): Option<string> {
    if VerdictOf(e).Some? then Bucket(VerdictOf(e).value, self) else None
  }

  function VerdictRoles(es: seq<Entry>, self: Option<string>): map<string, nat> {
    if es == [] then NO_VERDICTS
    else
      var m, b := VerdictRoles(es[..|es| - 1], self), BucketOf(es[|es| - 1], self);
      if b.Some? then Add(m, b.value) else m
  }

  /** `_verdict_role_counts` */
  method VerdictRoleCounts(es: seq<Entry>, self: Option<string>) returns (counts: map<string, nat>)
    ensures counts == VerdictRoles(es, self)
  {
    counts := NO_VERDICTS;
    for i := 0 to |es|
      invariant counts == VerdictRoles(es[..i], self)
      invariant counts.Keys == NO_VERDICTS.Keys
    {
      assert es[..i + 1][..i] == es[..i];
      var verdict := VerdictOf(es[i]);
      if verdict.None? { continue; }
      var v := verdict.value;
      if v == CORROBORATED {
        counts := counts[CORROBORATED := counts[CORROBORATED] + 1];
      } else if v == INCONCLUSIVE {
        counts := counts[INCONCLUSIVE := counts[INCONCLUSIVE] + 1];
      } else if CONTRADICTED_PREFIX <= v {
        var owner := v[|CONTRADICTED_PREFIX|..];
        if self.Some? && owner == self.value {
          counts := counts[CONTRADICTED_SELF := counts[CONTRADICTED_SELF] + 1];
        } else {
          counts := counts[CONTRADICTED_OTHER := counts[CONTRADICTED_OTHER] + 1];
        }
      }
    }
    assert es[..|es|] == es;
  }

  lemma {:induction false} RolesKeys(es: seq<Entry>, self: Option<string>)
    ensures VerdictRoles(es, self).Keys == {CORROBORATED, CONTRADICTED_SELF, CONTRADICTED_OTHER, INCONCLUSIVE}
  {
    if es != [] { RolesKeys(es[..|es| - 1], self); }
  }

  lemma {:induction false} RolesTotal(es: seq<Entry>, self: Option<string>)
    ensures Total(VerdictRoles(es, self)) <= |es|
    ensures Total(VerdictRoles(es, self)) == |es| <==> forall e :: e in es ==> BucketOf(e, self).Some?
  {
    hide Total, BucketOf;
    if es == [] {
      ZeroTotal();
    } else {
      var init, last := es[..|es| - 1], es[|es| - 1];
      assert es == init + [last];
      RolesTotal(init, self);
      var b := BucketOf(last, self);
      if b.Some? { TotalAdd(VerdictRoles(init, self), b.value); }
    }
  }

  /** The four buckets are always present, never sum to more than the adjudications, and sum to exactly
      their number when every one of them carries a valid verdict. */
  lemma BucketsSum(es: seq<Entry>, self: Option<string>)
    ensures VerdictRoles(es, self).Keys == {CORROBORATED, CONTRADICTED_SELF, CONTRADICTED_OTHER, INCONCLUSIVE}
    ensures Total(VerdictRoles(es, self)) <= |es|
    ensures Total(VerdictRoles(es, self)) == |es| <==> forall e :: e in es ==> BucketOf(e, self).Some?
    ensures (forall e :: e in es ==> VerdictOf(e).Some? && ValidVerdict(VerdictOf(e).value))
            ==> Total(VerdictRoles(es, self)) == |es|
  {
    hide Total, VerdictRoles;
    RolesKeys(es, self);
    RolesTotal(es, self);
  }

  lemma ZeroTotal()
    ensures Total(NO_VERDICTS) == 0
  {
    TotalZeros(NO_VERDICTS);
  }

  lemma {:induction false} TotalZeros(m: map<string, nat>)
    requires forall k :: k in m ==> m[k] == 0
    ensures Total(m) == 0
    decreases |m|
  {
    if m != map[] {
      var k :| k in m && Total(m) == m[k] + Total(m - {k});
      TotalZeros(m - {k});
    }
  }

  // ---------------------------------------------------------------- selecting checkpoints

  datatype Request = Request(last: Option<int>, fromSize: Option<int>, toSize: Option<int>)

  datatype Refusal = EmptyLog | BadSelection | NoCheckpoint | BeyondLatest | UnknownSize | OutOfOrder | SizeMismatch

  /** `Crashed` is an exception other than ChainSegmentError: a missing member, bad hexadecimal, or a
      size no range has. */
  datatype Built = Built(segment: Segment) | Refused(why: Refusal) | Crashed

  predicate WellFormed(r: Request) {
    if r.last.Some? then r.fromSize.None? && r.toSize.None? && r.last.value > 0
    else r.fromSize.Some? && r.toSize.Some? && 0 <= r.fromSize.value <= r.toSize.value
  }

  function Stamps(es: seq<Entry>): seq<Entry> {
    if es == [] then []
    else (if es[0].kind == STAMP_KIND then [es[0]] else []) + Stamps(es[1..])
  }

  function Checkpoints(stamps: seq<Entry>): Option<seq<Checkpoint>> {
    if stamps == [] then Some([])
    else
      match (stamps[0].checkpoint, Checkpoints(stamps[1..]))
      case (Some(cp), Some(rest)) => Some([cp] + rest)
      case _ => None
  }

  /** The COSE text of the last stamp of that size that carries one. */
  function CoseBySize(stamps: seq<Entry>, size: int): string {
    if stamps == [] then ""
    else
      var rest := CoseBySize(stamps[1..], size);
      if rest != "" then rest
      else if stamps[0].checkpoint.Some? && stamps[0].checkpoint.value.mmrSize == size then stamps[0].cose
      else ""
  }

  /** The last checkpoint of that size. */
  function BySize(cps: seq<Checkpoint>, size: int): (r: Option<Checkpoint>)
    ensures r.Some? ==> r.value in cps && r.value.mmrSize == size
    ensures r.None? ==> forall cp :: cp in cps ==> cp.mmrSize != size
  {
    if cps == [] then None
    else if cps[|cps| - 1].mmrSize == size then Some(cps[|cps| - 1])
    else BySize(cps[..|cps| - 1], size)
  }

  /** The first position of an equal checkpoint. */
  function IndexOf(cps: seq<Checkpoint>, cp: Checkpoint): (i: nat)
    ensures cp in cps ==> i < |cps| && cps[i] == cp && cp !in cps[..i]
  {
    if cps == [] || cps[0] == cp then 0 else 1 + IndexOf(cps[1..], cp)
  }

  datatype Selection = Chosen(lo: nat, hi: nat) | Denied(why: Refusal)

  /** Which checkpoints a request takes, as a slice of the log's checkpoints. */
  function Select(r: Request, cps: seq<Checkpoint>): (s: Selection)
    requires WellFormed(r) && cps != []
    ensures s.Chosen? ==> s.lo < s.hi <= |cps|
  {
    if r.last.Some? then Chosen(if r.last.value < |cps| then |cps| - r.last.value else 0, |cps|)
    else
      var from, to := r.fromSize.value, r.toSize.value;
      if BySize(cps, to).None? then
        Denied(if to > cps[|cps| - 1].mmrSize then BeyondLatest else UnknownSize)
      else if from != 0 && BySize(cps, from).None? then Denied(UnknownSize)
      else
        var end := IndexOf(cps, BySize(cps, to).value);
        var start := if from == 0 then 0 else IndexOf(cps, BySize(cps, from).value);
        if start > end then Denied(OutOfOrder) else Chosen(start, end + 1)
  }

  // ---------------------------------------------------------------- building the links

  /** What stays fixed while the links of one segment are built. */
  datatype Job = Job(
    h: Hash, entries: seq<Entry>, stamps: seq<Entry>, nodes: seq<Digest>,
    classify: Entry -> string, self: Option<string>, wantDigests: bool)

  function Slice(es: seq<Entry>, lo: nat, hi: nat): seq<Entry> {
    var top := if hi <= |es| then hi else |es|;
    if lo <= top then es[lo..top] else []
  }

  function Ids(es: seq<Entry>): (r: seq<string>)
    ensures |r| == |es| && forall i :: 0 <= i < |es| ==> r[i] == es[i].id
  {
    seq(|es|, i requires 0 <= i < |es| => es[i].id)
  }

  /** The leaves a checkpoint covers that the one before it did not; `None` is an impossible size. */
  function OwnLeaves(j: Job, cp: Checkpoint): Option<seq<Entry>> {
    match (LeavesOf(cp.prevSize), LeavesOf(cp.mmrSize))
    case (Some(a), Some(b)) => Some(Slice(j.entries, a, b))
    case _ => None
  }

  function CoseBytes(text: string): Option<Option<seq<byte>>> {
    if text == "" then Some(None)
    else
      match FromHex(text)
      case Some(bs) => Some(Some(bs))
      case None => None
  }

  function ProofFor(j: Job, prior: Option<Checkpoint>, cp: Checkpoint): Option<Option<ConsistencyProof>> {
    if prior.None? then Some(None)
    else
      match BuildProof(j.nodes, prior.value.mmrSize, cp.mmrSize)
      case Some(p) => Some(Some(p))
      case None => None
  }

  /** One link; `None` is a crash. */
  function MakeLink(j: Job, prior: Option<Checkpoint>, cp: Checkpoint): Option<Link> {
    match (ProofFor(j, prior, cp), OwnLeaves(j, cp), CoseBytes(CoseBySize(j.stamps, cp.mmrSize)))
    case (Some(proof), Some(own), Some(cose)) =>
      var adjudications := Adjudicated(own, j.classify);
      Some(Link(cp, proof, cose, CountLabels(Labels(own, j.classify)),
                if adjudications == [] then None else Some(VerdictRoles(adjudications, j.self)),
                if j.wantDigests then Some(Ids(own)) else None))
    case _ => None
  }

  function PriorOf(cps: seq<Checkpoint>, i: nat): Option<Checkpoint>
    requires i < |cps|
  {
    if i == 0 then None else Some(cps[i - 1])
  }

  function LinkAt(j: Job, cps: seq<Checkpoint>, i: nat): Option<Link>
    requires i < |cps|
  {
    MakeLink(j, PriorOf(cps, i), cps[i])
  }

  function MakeLinks(j: Job, cps: seq<Checkpoint>): Option<seq<Link>>
    decreases |cps|
  {
    if cps == [] then Some([])
    else
      var n := |cps| - 1;
      match (MakeLinks(j, cps[..n]), LinkAt(j, cps, n))
      case (Some(links), Some(link)) => Some(links + [link])
      case _ => None
  }

  method BuildLinks(j: Job, cps: seq<Checkpoint>) returns (links: Option<seq<Link>>)
    ensures links == MakeLinks(j, cps)
  {
    hide ProofFor, OwnLeaves, CoseBytes, CoseBySize, Labels, Adjudicated, CountLabels, VerdictRoles;
    var built := [];
    var prior := None;
    for i := 0 to |cps|
      invariant prior == if i == 0 then None else Some(cps[i - 1])
      invariant MakeLinks(j, cps[..i]) == Some(built)
    {
      assert cps[..i + 1][..i] == cps[..i];
      var cp := cps[i];
      var proof, own, cose := ProofFor(j, prior, cp), OwnLeaves(j, cp), CoseBytes(CoseBySize(j.stamps, cp.mmrSize));
      if proof.None? || own.None? || cose.None? {
        MakeLinksPrefix(j, cps, i + 1);
        return None;
      }
      var counts, adjudications := TallyLeaves(own.value, j.classify);
      var roles := None;
      if adjudications != [] {
        var tally := VerdictRoleCounts(adjudications, j.self);
        roles := Some(tally);
      }
      built := built + [Link(cp, proof.value, cose.value, counts, roles,
                             if j.wantDigests then Some(Ids(own.value)) else None)];
      prior := Some(cp);
    }
    assert cps[..|cps|] == cps;
    links := Some(built);
  }

  lemma {:induction false} MakeLinksPrefix(j: Job, cps: seq<Checkpoint>, k: nat)
    requires k <= |cps|
    ensures MakeLinks(j, cps[..k]).None? ==> MakeLinks(j, cps).None?
    decreases |cps|
  {
    hide MakeLink;
    if k == |cps| {
      assert cps[..k] == cps;
    } else {
      var n := |cps| - 1;
      MakeLinksPrefix(j, cps[..n], k);
      assert cps[..n][..k] == cps[..k];
    }
  }

  // ---------------------------------------------------------------- building the segment

  /** The leaf bodies of the entries; `None` is an id that is not hexadecimal. */
  function Bodies(es: seq<Entry>): Option<seq<seq<byte>>> {
    if es == [] then Some([])
    else
      match (Bodies(es[..|es| - 1]), FromHex(es[|es| - 1].id))
      case (Some(init), Some(body)) => Some(init + [body])
      case _ => None
  }

  lemma {:induction false} BodiesPrefix(es: seq<Entry>, k: nat)
    requires k <= |es|
    ensures Bodies(es).Some? ==> |Bodies(es).value| == |es|
    ensures Bodies(es).Some? ==> Bodies(es[..k]) == Some(Bodies(es).value[..k])
    decreases |es|
  {
    if es != [] {
      var init := es[..|es| - 1];
      BodiesPrefix(init, if k <= |init| then k else |init|);
      assert init[..|init|] == init;
      if k == |es| {
        assert es[..k] == es;
        if Bodies(es).Some? { assert Bodies(es).value[..k] == Bodies(es).value; }
      } else {
        assert es[..k] == init[..k];
        if Bodies(es).Some? { assert Bodies(es).value[..k] == Bodies(init).value[..k]; }
      }
    }
  }

  function Build(h: Hash, entries: seq<Entry>, r: Request, self: Option<string>, classify: Entry -> string,
                 wantDigests: bool): Built
  {
    var stamps := Stamps(entries);
    if entries == [] then Refused(EmptyLog)
    else if !WellFormed(r) then Refused(BadSelection)
    else if Checkpoints(stamps).None? then Crashed
    else
      var cps := Checkpoints(stamps).value;
      if cps == [] then Refused(NoCheckpoint)
      else
        match Select(r, cps)
        case Denied(why) => Refused(why)
        case Chosen(lo, hi) => BuildFrom(h, entries, stamps, cps[lo..hi], self, classify, wantDigests)
  }

  function BuildFrom(h: Hash, entries: seq<Entry>, stamps: seq<Entry>, chosen: seq<Checkpoint>, self: Option<string>,
                     classify: Entry -> string, wantDigests: bool): Built
    requires chosen != []
  {
    var size := chosen[|chosen| - 1].mmrSize;
    if LeavesOf(size).None? then Crashed
    else
      var covered := Slice(entries, 0, LeavesOf(size).value);
      if Bodies(covered).None? then Crashed
      else
        var ls := Bodies(covered).value;
        var ns := Nodes(h, ls, 0, |ls|, 0);
        if |ns| != size then Refused(SizeMismatch)
        else
          match MakeLinks(Job(h, entries, stamps, ns, classify, self, wantDigests), chosen)
          case None => Crashed
          case Some(links) => Built(Segment(1, links))
  }

  /** Replay entries into a fresh node store. */
  method Replay(h: Hash, es: seq<Entry>) returns (ns: Option<seq<Digest>>)
    ensures ns == if Bodies(es).None? then None
                  else Some(Nodes(h, Bodies(es).value, 0, |Bodies(es).value|, 0))
  {
    hide Nodes, FromHex;
    var store := new NodeStore();
    NodesEmpty(h, [], 0, 0);
    BodiesPrefix(es, 0);
    for i := 0 to |es|
      invariant Bodies(es[..i]).Some? && |Bodies(es[..i]).value| == i
      invariant store.nodes == Nodes(h, Bodies(es[..i]).value, 0, i, 0)
    {
      assert es[..i + 1][..i] == es[..i];
      var body := FromHex(es[i].id);
      if body.None? {
        BodiesPrefix(es, i + 1);
        return None;
      }
      ghost var ls := Bodies(es[..i + 1]).value;
      NodesAgree(h, Bodies(es[..i]).value, ls, 0, i, 0);
      store.AddLeaf(h, ls, i, body.value);
    }
    assert es[..|es|] == es;
    ns := Some(store.nodes);
  }

  /** `chain_segment` */
  method BuildSegment(h: Hash, entries: seq<Entry>, r: Request, self: Option<string>, classify: Entry -> string,
                      wantDigests: bool) returns (o: Built)
    ensures o == Build(h, entries, r, self, classify, wantDigests)
  {
    hide Nodes, Bodies, MakeLinks, Stamps, Checkpoints, Select, LeavesOf, Slice, WellFormed;
    if entries == [] { return Refused(EmptyLog); }
    if !WellFormed(r) { return Refused(BadSelection); }
    var stamps := Stamps(entries);
    var all := Checkpoints(stamps);
    if all.None? { return Crashed; }
    var cps := all.value;
    if cps == [] { return Refused(NoCheckpoint); }
    var choice := Select(r, cps);
    if choice.Denied? { return Refused(choice.why); }
    var chosen := cps[choice.lo..choice.hi];
    var size := chosen[|chosen| - 1].mmrSize;
    var leaves := LeavesOf(size);
    if leaves.None? { return Crashed; }
    var ns := Replay(h, Slice(entries, 0, leaves.value));
    if ns.None? { return Crashed; }
    if |ns.value| != size { return Refused(SizeMismatch); }
    var links := BuildLinks(Job(h, entries, stamps, ns.value, classify, self, wantDigests), chosen);
    if links.None? { return Crashed; }
    o := Built(Segment(1, links.value));
  }
}
