/** A chain segment as a JSON object and back. */
module ChainSerial {
  import opened Bytes
  import opened JsonData
  import Mmr
  import opened Consistency
  import opened ChainVerify
  import opened ChainBuild
  import opened ChainHistory

  /** The checkpoint record's own conversion pair, defined elsewhere. */
  datatype Codec = Codec(encode: Checkpoint -> Json, decode: Json -> Option<Checkpoint>)

  ghost predicate Inverse(c: Codec) {
    forall cp :: c.decode(c.encode(cp)) == Some(cp)
  }

  function Field(j: Json, name: string): Json {
    if j.Object? && name in j.members then j.members[name] else Null
  }

  predicate Carries(j: Json, name: string) {
    j.Object? && name in j.members
  }

  function Strings(ss: seq<string>): (j: Json)
    ensures j.Array? && |j.items| == |ss| && forall i :: 0 <= i < |ss| ==> j.items[i] == Text(ss[i])
  {
    Array(seq(|ss|, i requires 0 <= i < |ss| => Text(ss[i])))
  }

  function ToStrings(j: Json): Option<seq<string>> {
    if j.Array? && forall x :: x in j.items ==> x.Text? then
      Some(seq(|j.items|, i requires 0 <= i < |j.items| => j.items[i].text))
    else None
  }

  lemma StringsRoundTrip(ss: seq<string>)
    ensures ToStrings(Strings(ss)) == Some(ss)
  {
    assert ToStrings(Strings(ss)).value == ss;
  }

  function CountsToJson(m: map<string, nat>): Json {
    Object(map k | k in m :: Int(m[k]))
  }

  /** `dict(...)` over a table of counts; an absent, null or empty value reads as the empty table. */
  function CountsFromJson(j: Json): Option<map<string, nat>> {
    if j.Null? then Some(map[])
    else if j.Object? && forall k :: k in j.members ==> j.members[k].Int? && j.members[k].n >= 0 then
      Some(map k | k in j.members :: j.members[k].n as nat)
    else None
  }

  lemma CountsRoundTrip(m: map<string, nat>)
    ensures CountsFromJson(CountsToJson(m)) == Some(m)
  {
    assert CountsFromJson(CountsToJson(m)).value == m;
  }

  function PathsToJson(ps: seq<seq<string>>): Json {
    Array(seq(|ps|, i requires 0 <= i < |ps| => Strings(ps[i])))
  }

  function PathsFromItems(items: seq<Json>): Option<seq<seq<string>>> {
    if items == [] then Some([])
    else
      match (ToStrings(items[0]), PathsFromItems(items[1..]))
      case (Some(p), Some(rest)) => Some([p] + rest)
      case _ => None
  }

  lemma {:induction false} PathsRoundTrip(ps: seq<seq<string>>)
    ensures PathsToJson(ps).Array? && PathsFromItems(PathsToJson(ps).items) == Some(ps)
  {
    hide ToStrings, Strings;
    if ps != [] {
      StringsRoundTrip(ps[0]);
      PathsRoundTrip(ps[1..]);
      assert PathsToJson(ps).items[1..] == PathsToJson(ps[1..]).items;
      assert [ps[0]] + ps[1..] == ps;
    }
  }

  /** `_consistency_proof_to_dict` */
  function ProofToJson(p: ConsistencyProof): Json {
    Object(map["v" := Int(p.v), "kind" := Text(p.kind), "size_a" := Int(p.sizeA), "size_b" := Int(p.sizeB),
             "old_peaks" := Strings(p.oldPeaks), "witness" := PathsToJson(p.siblings), "new_peaks" := Strings(p.newPeaks)])
  }

  /** `_consistency_proof_from_dict`; `None` is a missing or ill-typed member. */
  function ProofFromJson(j: Json): Option<ConsistencyProof> {
    var v, kind, a, b := Field(j, "v"), Field(j, "kind"), Field(j, "size_a"), Field(j, "size_b");
    var olds, paths, news := ToStrings(Field(j, "old_peaks")), Field(j, "witness"), ToStrings(Field(j, "new_peaks"));
    if v.Int? && kind.Text? && a.Int? && b.Int? && olds.Some? && news.Some?
       && paths.Array? && PathsFromItems(paths.items).Some? then
      Some(ConsistencyProof(v.n, kind.text, a.n, b.n, olds.value, PathsFromItems(paths.items).value, news.value))
    else None
  }

  lemma ProofRoundTrip(p: ConsistencyProof)
    ensures ProofFromJson(ProofToJson(p)) == Some(p)
  {
    hide ToStrings, Strings, PathsToJson, PathsFromItems;
    StringsRoundTrip(p.oldPeaks);
    StringsRoundTrip(p.newPeaks);
    PathsRoundTrip(p.siblings);
  }

  function CoreMembers(c: Codec, l: Link): map<string, Json> {
    map["checkpoint" := c.encode(l.checkpoint),
        "checkpoint_cose" := if l.cose.Some? then Text(ToHex(l.cose.value)) else Null,
        "consistency_proof" := if l.proof.Some? then ProofToJson(l.proof.value) else Null,
        "leaf_counts" := CountsToJson(l.leafCounts)]
  }

  function SplitMember(l: Link): map<string, Json> {
    if l.adjudication.Some? then map["adjudication" := CountsToJson(l.adjudication.value)] else map[]
  }

  function DigestsMember(l: Link): map<string, Json> {
    if l.leafDigests.Some? then map["leaf_digests" := Strings(l.leafDigests.value)] else map[]
  }

  /** `CheckpointLink.to_dict`: the adjudication split and the leaf digests are members only when present. */
  function LinkToJson(c: Codec, l: Link): Json {
    Object(CoreMembers(c, l) + SplitMember(l) + DigestsMember(l))
  }

  function OptCounts(j: Json, name: string): Option<Option<map<string, nat>>> {
    if !Carries(j, name) then Some(None)
    else
      match CountsFromJson(Field(j, name))
      case Some(m) => Some(Some(m))
      case None => None
  }

  function OptStrings(j: Json, name: string): Option<Option<seq<string>>> {
    if !Carries(j, name) then Some(None)
    else
      match ToStrings(Field(j, name))
      case Some(ss) => Some(Some(ss))
      case None => None
  }

  /** An empty or absent text reads as absent bytes. */
  function OptBytes(j: Json): Option<Option<seq<byte>>> {
    if j == Null || j == Text("") then Some(None)
    else if j.Text? && FromHex(j.text).Some? then Some(FromHex(j.text))
    else None
  }

  function OptProof(j: Json): Option<Option<ConsistencyProof>> {
    if j == Null then Some(None)
    else
      match ProofFromJson(j)
      case Some(p) => Some(Some(p))
      case None => None
  }

  /** `CheckpointLink.from_dict` */
  function LinkFromJson(c: Codec, j: Json): Option<Link> {
    match (c.decode(Field(j, "checkpoint")), OptProof(Field(j, "consistency_proof")), OptBytes(Field(j, "checkpoint_cose")),
           CountsFromJson(Field(j, "leaf_counts")), OptCounts(j, "adjudication"), OptStrings(j, "leaf_digests"))
    case (Some(cp), Some(proof), Some(cose), Some(counts), Some(split), Some(digests)) =>
      Some(Link(cp, proof, cose, counts, split, digests))
    case _ => None
  }

  lemma MemberNames()
    ensures "adjudication" !in {"checkpoint", "checkpoint_cose", "consistency_proof", "leaf_counts", "leaf_digests"}
    ensures "leaf_digests" !in {"checkpoint", "checkpoint_cose", "consistency_proof", "leaf_counts", "adjudication"}
  {
    assert "adjudication"[0] != "leaf_digests"[0];
  }

  lemma OptionalMembers(l: Link)
    ensures SplitMember(l).Keys == (if l.adjudication.Some? then {"adjudication"} else {})
    ensures DigestsMember(l).Keys == (if l.leafDigests.Some? then {"leaf_digests"} else {})
    ensures l.adjudication.Some? ==> SplitMember(l)["adjudication"] == CountsToJson(l.adjudication.value)
    ensures l.leafDigests.Some? ==> DigestsMember(l)["leaf_digests"] == Strings(l.leafDigests.value)
  {
    hide Strings, CountsToJson;
  }

  lemma CoreNames(c: Codec, l: Link)
    ensures CoreMembers(c, l).Keys == {"checkpoint", "checkpoint_cose", "consistency_proof", "leaf_counts"}
    ensures CoreMembers(c, l)["checkpoint"] == c.encode(l.checkpoint)
    ensures CoreMembers(c, l)["leaf_counts"] == CountsToJson(l.leafCounts)
    ensures CoreMembers(c, l)["consistency_proof"] == (if l.proof.Some? then ProofToJson(l.proof.value) else Null)
    ensures CoreMembers(c, l)["checkpoint_cose"] == (if l.cose.Some? then Text(ToHex(l.cose.value)) else Null)
  {
    hide CountsToJson, ProofToJson, ToHex;
  }

  lemma LinkMembers(c: Codec, l: Link)
    ensures var j := LinkToJson(c, l);
            && Field(j, "checkpoint") == c.encode(l.checkpoint)
            && Field(j, "leaf_counts") == CountsToJson(l.leafCounts)
            && Field(j, "consistency_proof") == (if l.proof.Some? then ProofToJson(l.proof.value) else Null)
            && Field(j, "checkpoint_cose") == (if l.cose.Some? then Text(ToHex(l.cose.value)) else Null)
            && Carries(j, "adjudication") == l.adjudication.Some?
            && (l.adjudication.Some? ==> Field(j, "adjudication") == CountsToJson(l.adjudication.value))
            && Carries(j, "leaf_digests") == l.leafDigests.Some?
            && (l.leafDigests.Some? ==> Field(j, "leaf_digests") == Strings(l.leafDigests.value))
  {
    hide Strings, CountsToJson, ProofToJson, ToHex, CoreMembers, SplitMember, DigestsMember;
    MemberNames();
    CoreNames(c, l);
    OptionalMembers(l);
  }

  /** What comes back of a link. */
  function Returned(l: Link): Link {
    if l.cose == Some([]) then l.(cose := None) else l
  }

  /** A link comes back as it was, except that empty COSE bytes come back as absent. */
  lemma LinkRoundTrip(c: Codec, l: Link)
    requires Inverse(c)
    ensures LinkFromJson(c, LinkToJson(c, l)) == Some(Returned(l))
  {
    hide ToStrings, Strings, CountsToJson, CountsFromJson, ProofToJson, ProofFromJson, FromHex, ToHex, LinkToJson, Field, Carries;
    LinkMembers(c, l);
    CountsRoundTrip(l.leafCounts);
    if l.proof.Some? {
      ProofRoundTrip(l.proof.value);
      ProofIsObject(l.proof.value);
    }
    if l.adjudication.Some? { CountsRoundTrip(l.adjudication.value); }
    if l.leafDigests.Some? { StringsRoundTrip(l.leafDigests.value); }
    if l.cose.Some? {
      HexRoundTrip(l.cose.value);
      EmptyHex();
    }
  }

  lemma ProofIsObject(p: ConsistencyProof)
    ensures ProofToJson(p) != Null
  {}

  lemma EmptyHex()
    ensures ToHex([]) == ""
  {}

  function SegmentToJson(c: Codec, s: Segment): Json {
    Object(map["v" := Int(s.v), "links" := Array(seq(|s.links|, i requires 0 <= i < |s.links| => LinkToJson(c, s.links[i])))])
  }

  function LinksFromItems(c: Codec, items: seq<Json>): Option<seq<Link>> {
    if items == [] then Some([])
    else
      match (LinkFromJson(c, items[0]), LinksFromItems(c, items[1..]))
      case (Some(l), Some(rest)) => Some([l] + rest)
      case _ => None
  }

  function SegmentFromJson(c: Codec, j: Json): Option<Segment> {
    var v, links := Field(j, "v"), Field(j, "links");
    if v.Int? && links.Array? && LinksFromItems(c, links.items).Some? then
      Some(Segment(v.n, LinksFromItems(c, links.items).value))
    else None
  }

  predicate NoEmptyCose(links: seq<Link>) {
    forall l :: l in links ==> l.cose != Some([])
  }

  function ReturnedAll(links: seq<Link>): seq<Link> {
    seq(|links|, i requires 0 <= i < |links| => Returned(links[i]))
  }

  lemma ReturnedSame(links: seq<Link>)
    ensures ReturnedAll(links) == links <==> NoEmptyCose(links)
  {
    if NoEmptyCose(links) {
      assert forall i :: 0 <= i < |links| ==> links[i] in links;
    }
    if ReturnedAll(links) == links {
      forall l | l in links ensures l.cose != Some([]) {
        var i :| 0 <= i < |links| && links[i] == l;
        assert ReturnedAll(links)[i] == links[i];
      }
    }
  }

  lemma {:induction false} LinksRoundTrip(c: Codec, links: seq<Link>, items: seq<Json>)
    requires Inverse(c) && |items| == |links|
    requires forall i :: 0 <= i < |links| ==> items[i] == LinkToJson(c, links[i])
    ensures LinksFromItems(c, items) == Some(ReturnedAll(links))
  {
    hide LinkToJson, LinkFromJson, Inverse, Returned;
    if links != [] {
      LinkRoundTrip(c, links[0]);
      LinksRoundTrip(c, links[1..], items[1..]);
      assert [Returned(links[0])] + ReturnedAll(links[1..]) == ReturnedAll(links);
    }
  }

  /** ROUND TRIP. `from_dict(to_dict(s))` always reads, and gives `s` back exactly when no link carries
      empty COSE bytes. */
  lemma SegmentRoundTrip(c: Codec, s: Segment)
    requires Inverse(c)
    ensures SegmentFromJson(c, SegmentToJson(c, s)).Some?
    ensures SegmentFromJson(c, SegmentToJson(c, s)) == Some(s) <==> NoEmptyCose(s.links)
  {
    hide SegmentFromJson, SegmentToJson, Inverse, ReturnedAll, NoEmptyCose;
    SegmentReads(c, s);
    ReturnedSame(s.links);
  }

  lemma SegmentReads(c: Codec, s: Segment)
    requires Inverse(c)
    ensures SegmentFromJson(c, SegmentToJson(c, s)) == Some(Segment(s.v, ReturnedAll(s.links)))
  {
    hide LinkToJson, LinkFromJson, Inverse, ReturnedAll;
    LinksRoundTrip(c, s.links, Field(SegmentToJson(c, s), "links").items);
  }

  // ---------------------------------------------------------------- verification after the journey

  lemma ReturnedChecks(t: Trust, links: seq<Link>, i: nat)
    requires i < |links|
    ensures CheckAt(t, ReturnedAll(links), i) == CheckAt(t, links, i)
    ensures ReturnedAll(links)[i].checkpoint == links[i].checkpoint
  {
    hide VerifyConsistency, FromHex;
  }

  lemma {:induction false} WitnessedReturned(t: Trust, links: seq<Link>, d: nat)
    requires d <= |links|
    ensures WitnessedIn(t, ReturnedAll(links)[..d]) == WitnessedIn(t, links[..d])
  {
    hide Stamped, Returned;
    if d > 0 {
      WitnessedReturned(t, links, d - 1);
      ReturnedChecks(t, links, d - 1);
      assert links[..d][..d - 1] == links[..d - 1];
      assert ReturnedAll(links)[..d][..d - 1] == ReturnedAll(links)[..d - 1];
    }
  }

  /** Verification never reads the COSE bytes, so a segment that went through `to_dict` and `from_dict` gets the very
      verdict it would have got, whatever it is. */
  lemma VerdictTravels(c: Codec, t: Trust, s: Segment)
    requires Inverse(c)
    ensures SegmentFromJson(c, SegmentToJson(c, s)).Some?
    ensures Verdict(t, SegmentFromJson(c, SegmentToJson(c, s)).value.links) == Verdict(t, s.links)
  {
    hide SegmentFromJson, SegmentToJson, Inverse, CheckAt, WitnessedIn, Returned, DepthFrom;
    SegmentReads(c, s);
    var links, back := s.links, ReturnedAll(s.links);
    forall i | 0 <= i < |links|
      ensures CheckAt(t, back, i) == CheckAt(t, links, i) && back[i].checkpoint == links[i].checkpoint
    {
      ReturnedChecks(t, links, i);
    }
    DepthBound(t, links, 0);
    DepthUnique(t, back, 0, Depth(t, links));
    WitnessedReturned(t, links, Depth(t, links));
    WitnessedReturned(t, links, |links|);
    assert links[..|links|] == links && back[..|back|] == back;
  }

  /** From an honest log, through serialization, to acceptance at full depth. */
  lemma HonestSegmentTravels(c: Codec, t: Trust, entries: seq<Entry>, n: int, self: Option<string>,
                             classify: Entry -> string, want: bool)
    requires Inverse(c) && Honest(t, entries) && Stamps(entries) != [] && n > 0
    ensures var o := Build(t.h(), entries, Request(Some(n), None, None), self, classify, want);
            && o.Built? && SegmentFromJson(c, SegmentToJson(c, o.segment)).Some?
            && var links := SegmentFromJson(c, SegmentToJson(c, o.segment)).value.links;
            Accepted(t, links) && Depth(t, links) == |links| == if n < |Stamps(entries)| then n else |Stamps(entries)|
  {
    hide Build, SegmentFromJson, SegmentToJson, Inverse, Honest, Stamps, Depth, Verdict;
    LastNAccepted(t, entries, n, self, classify, want);
    HonestStamps(t, entries);
    var s := Build(t.h(), entries, Request(Some(n), None, None), self, classify, want).segment;
    VerdictTravels(c, t, s);
    SegmentReads(c, s);
    AcceptedIff(t, s.links);
    AcceptedIff(t, SegmentFromJson(c, SegmentToJson(c, s)).value.links);
  }

  lemma HonestStamps(t: Trust, entries: seq<Entry>)
    requires Honest(t, entries)
    ensures |Checkpoints(Stamps(entries)).value| == |Stamps(entries)|
  {
    hide HonestChain, Bodies, Stamps, Checkpoints, FromHex;
    CheckpointCount(Stamps(entries));
  }

  /** A segment the builder returns comes back exactly when no stamp it used carries COSE text that is
      nothing but blanks, the one text that is present yet decodes to no bytes. */
  lemma BuiltSegmentRoundTrip(c: Codec, h: Mmr.Hash, entries: seq<Entry>, chosen: seq<Checkpoint>, self: Option<string>,
                              classify: Entry -> string, want: bool)
    requires Inverse(c) && chosen != []
    requires BuildFrom(h, entries, Stamps(entries), chosen, self, classify, want).Built?
    ensures var s := BuildFrom(h, entries, Stamps(entries), chosen, self, classify, want).segment;
            SegmentFromJson(c, SegmentToJson(c, s)) == Some(s) <==>
            forall cp :: cp in chosen ==> var text := CoseBySize(Stamps(entries), cp.mmrSize); text == "" || !AllBlank(text)
  {
    hide BuildFrom, LinkToJson, LinkFromJson, SegmentFromJson, SegmentToJson, MakeLinks, FromHex, AllBlank,
         CoseBySize, Stamps, Inverse;
    var s := BuildFrom(h, entries, Stamps(entries), chosen, self, classify, want).segment;
    SegmentRoundTrip(c, s);
    var j := BuiltFrom(h, entries, chosen, self, classify, want);
    MakeLinksAt(j, chosen);
    forall i | 0 <= i < |chosen|
      ensures s.links[i].cose == Some([]) <==>
              CoseBySize(Stamps(entries), chosen[i].mmrSize) != "" && AllBlank(CoseBySize(Stamps(entries), chosen[i].mmrSize))
    {
      LinkCose(j, chosen, i);
      EmptyHexText(CoseBySize(Stamps(entries), chosen[i].mmrSize));
    }
    if NoEmptyCose(s.links) {
      forall cp | cp in chosen
        ensures CoseBySize(Stamps(entries), cp.mmrSize) == "" || !AllBlank(CoseBySize(Stamps(entries), cp.mmrSize))
      {
        var i :| 0 <= i < |chosen| && chosen[i] == cp;
        assert s.links[i] in s.links;
      }
    }
  }

  lemma LinkCose(j: Job, cps: seq<Checkpoint>, i: nat)
    requires i < |cps| && LinkAt(j, cps, i).Some?
    ensures CoseBytes(CoseBySize(j.stamps, cps[i].mmrSize)) == Some(LinkAt(j, cps, i).value.cose)
  {
    hide CountLabels, Labels, Adjudicated, VerdictRoles, BuildProof, CoseBySize, OwnLeaves, ProofFor, FromHex;
  }
}
