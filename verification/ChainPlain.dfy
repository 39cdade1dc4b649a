/** What the chain verifier and builder do, in plain terms: over links, entries and indices alone. */
module ChainPlain {
  import opened Bytes
  import opened Mmr
  import opened Consistency
  import opened ChainVerify
  import opened ChainBuild
  import opened ChainHistory

  // ---------------------------------------------------------------- the verifier

  /** Link i is signed and, unless it is the first, names the size and root of the checkpoint before it and carries a
      consistency proof that bridges the two roots. */
  ghost predicate LinkHolds(t: Trust, links: seq<Link>, i: nat)
    requires i < |links|
  {
    var cp := links[i].checkpoint;
    && t.signed(cp)
    && (i > 0 ==>
          var prev := links[i - 1].checkpoint;
          && cp.prevSize == prev.mmrSize && cp.prevRoot == prev.root
          && links[i].proof.Some? && FromHex(prev.root).Some? && FromHex(cp.root).Some?
          && VerifyConsistency(t.h(), FromHex(prev.root).value, prev.mmrSize,
                               FromHex(cp.root).value, cp.mmrSize, links[i].proof.value))
  }

  lemma GoodHolds(t: Trust, links: seq<Link>, i: nat)
    requires i < |links|
    ensures CheckAt(t, links, i) == Good <==> LinkHolds(t, links, i)
  {
    hide VerifyConsistency, FromHex, Hasher;
  }

  /** A segment is accepted exactly when it has links and every one of them holds, the first one's signature
      included. */
  lemma AcceptedPlainly(t: Trust, links: seq<Link>)
    ensures Accepted(t, links) <==> links != [] && forall i :: 0 <= i < |links| ==> LinkHolds(t, links, i)
  {
    hide CheckAt, LinkHolds, Accepted;
    forall i | 0 <= i < |links| ensures CheckAt(t, links, i) == Good <==> LinkHolds(t, links, i) {
      GoodHolds(t, links, i);
    }
    AcceptedIff(t, links);
  }

  /** One of the checkpoint's witness stamps checks out. */
  ghost predicate HasStamp(t: Trust, l: Link) {
    exists w :: w in l.checkpoint.witnesses && t.stamped(l.checkpoint, w)
  }

  /** The witnessed ones among the first d links. */
  ghost function StampedBelow(t: Trust, links: seq<Link>, d: nat): set<nat>
    requires d <= |links|
  {
    set i: nat | i < d && HasStamp(t, links[i])
  }

  lemma StampedIs(t: Trust, l: Link)
    ensures Stamped(t, l.checkpoint) <==> HasStamp(t, l)
  {}

  lemma {:induction false} WitnessedCounts(t: Trust, links: seq<Link>, d: nat)
    requires d <= |links|
    ensures WitnessedIn(t, links[..d]) == |StampedBelow(t, links, d)|
  {
    hide Stamped, HasStamp;
    if d == 0 {
      assert StampedBelow(t, links, 0) == {};
    } else {
      WitnessedCounts(t, links, d - 1);
      StampedIs(t, links[d - 1]);
      assert links[..d][..d - 1] == links[..d - 1];
      var before, after := StampedBelow(t, links, d - 1), StampedBelow(t, links, d);
      if Stamped(t, links[d - 1].checkpoint) {
        assert after == before + {d - 1};
      } else {
        assert after == before;
      }
    }
  }

  /** The error a broken link is reported with: its signature first, then the chaining, then the missing proof, then
      the proof that does not bridge. */
  function Complaint(t: Trust, links: seq<Link>, d: nat): Reason
    requires d < |links|
  {
    if !t.signed(links[d].checkpoint) || d == 0 then BadSignature
    else if links[d].checkpoint.prevSize != links[d - 1].checkpoint.mmrSize
            || links[d].checkpoint.prevRoot != links[d - 1].checkpoint.root then
      NotChained(links[d - 1].checkpoint.mmrSize)
    else if links[d].proof.None? then NoProof
    else NotBridged(links[d - 1].checkpoint.mmrSize)
  }

  /** At the first link that does not hold the walk stops: it raises if the link is signed, chains and carries a proof
      but one of the two roots is no hexadecimal, and otherwise reports that link's size and complaint, the number of
      links before it, and how many of those are witnessed. */
  lemma BrokenPlainly(t: Trust, links: seq<Link>, d: nat)
    requires d < |links| && !LinkHolds(t, links, d) && forall j :: 0 <= j < d ==> LinkHolds(t, links, j)
    ensures
      var undecodable := d > 0 && (FromHex(links[d - 1].checkpoint.root).None? || FromHex(links[d].checkpoint.root).None?);
      if Complaint(t, links, d).NotBridged? && undecodable then Verdict(t, links) == Raised
      else
        var broken := Broken(links[d].checkpoint.mmrSize, Complaint(t, links, d));
        Verdict(t, links) == Done(Result(false, [broken], broken, d, |StampedBelow(t, links, d)|, |links|))
  {
    hide VerifyConsistency, FromHex, Hasher, WitnessedIn, StampedBelow, DepthFrom;
    forall i | 0 <= i < |links| ensures CheckAt(t, links, i) == Good <==> LinkHolds(t, links, i) {
      GoodHolds(t, links, i);
    }
    DepthUnique(t, links, 0, d);
    WitnessedCounts(t, links, d);
  }

  /** An accepted segment is reported unbroken, with its whole length as depth and its witnessed links counted; an
      empty one is refused. */
  lemma UnbrokenPlainly(t: Trust, links: seq<Link>)
    requires forall i :: 0 <= i < |links| ==> LinkHolds(t, links, i)
    ensures Verdict(t, links) ==
      if links == [] then Done(Result(false, [NoCheckpoints], NoCheckpoints, 0, 0, 0))
      else Done(Result(true, [], Unbroken, |links|, |StampedBelow(t, links, |links|)|, |links|))
  {
    hide CheckAt, LinkHolds, WitnessedIn, StampedBelow, DepthFrom;
    forall i | 0 <= i < |links| ensures CheckAt(t, links, i) == Good {
      GoodHolds(t, links, i);
    }
    DepthUnique(t, links, 0, |links|);
    WitnessedCounts(t, links, |links|);
    assert links[..|links|] == links;
  }

  // ---------------------------------------------------------------- what the builder reads from stamps

  /** Entry e is a checkpoint stamp over that size with COSE text. */
  predicate CarriesCose(e: Entry, size: int) {
    e.kind == "checkpoint_stamp" && e.checkpoint.Some? && e.checkpoint.value.mmrSize == size && e.cose != ""
  }

  /** The last such entry of the log. */
  ghost predicate LastCarrier(entries: seq<Entry>, size: int, k: nat) {
    k < |entries| && CarriesCose(entries[k], size)
    && forall m :: k < m < |entries| ==> !CarriesCose(entries[m], size)
  }

  ghost predicate NoCarrier(entries: seq<Entry>, size: int) {
    forall k :: 0 <= k < |entries| ==> !CarriesCose(entries[k], size)
  }

  lemma CarrierCons(head: Entry, rest: seq<Entry>, size: int)
    ensures NoCarrier([head] + rest, size) <==> !CarriesCose(head, size) && NoCarrier(rest, size)
    ensures forall k: nat :: LastCarrier(rest, size, k) ==> LastCarrier([head] + rest, size, k + 1)
    ensures CarriesCose(head, size) && NoCarrier(rest, size) ==> LastCarrier([head] + rest, size, 0)
  {
    hide CarriesCose;
    var all := [head] + rest;
    assert all[0] == head && forall i :: 0 < i < |all| ==> all[i] == rest[i - 1];
    assert forall i :: 0 <= i < |rest| ==> rest[i] == all[i + 1];
  }

  lemma CoseUnfold(e: Entry, rest: seq<Entry>, size: int)
    ensures CoseBySize(Stamps([e] + rest), size) ==
      if CoseBySize(Stamps(rest), size) != "" then CoseBySize(Stamps(rest), size)
      else if CarriesCose(e, size) then e.cose else ""
  {
    assert ([e] + rest)[1..] == rest;
    if e.kind == STAMP_KIND { assert ([e] + Stamps(rest))[1..] == Stamps(rest); }
    else { assert [] + Stamps(rest) == Stamps(rest); }
  }

  lemma {:induction false} CoseOfEntries(entries: seq<Entry>, size: int) returns (k: nat)
    ensures CoseBySize(Stamps(entries), size) == "" <==> NoCarrier(entries, size)
    ensures CoseBySize(Stamps(entries), size) != "" ==>
      LastCarrier(entries, size, k) && CoseBySize(Stamps(entries), size) == entries[k].cose
  {
    hide LastCarrier, NoCarrier;
    k := 0;
    if entries == [] {
      NoneCarries(size);
    } else {
      var head, rest := entries[0], entries[1..];
      assert entries == [head] + rest;
      var m := CoseOfEntries(rest, size);
      CoseUnfold(head, rest, size);
      CarrierCons(head, rest, size);
      if CoseBySize(Stamps(rest), size) != "" {
        k := m + 1;
        CarrierIndex(rest, size, m);
      }
    }
  }

  lemma NoneCarries(size: int)
    ensures NoCarrier([], size) && CoseBySize(Stamps([]), size) == ""
  {}

  lemma CarrierIndex(entries: seq<Entry>, size: int, k: nat)
    requires LastCarrier(entries, size, k)
    ensures k < |entries| && !NoCarrier(entries, size)
  {}

  // ---------------------------------------------------------------- what a link holds

  /** The entries with index lo up to hi (or the end of the log) that the classifier gives that kind. */
  ghost function Classified(entries: seq<Entry>, lo: nat, hi: nat, classify: Entry -> string, kind: string): set<nat> {
    set x: nat | lo <= x < hi && x < |entries| && HasKind(entries[x], classify, kind)
  }

  predicate HasKind(e: Entry, classify: Entry -> string, kind: string) {
    classify(e) == kind
  }

  /** Which verdicts each of the four buckets counts. */
  predicate FallsIn(v: string, self: Option<string>, bucket: string) {
    if bucket == "corroborated" then v == "corroborated"
    else if bucket == "inconclusive" then v == "inconclusive"
    else if bucket == "contradicted_self" then self.Some? && v == "contradicted:" + self.value
    else if bucket == "contradicted_other" then
      "contradicted:" <= v && (self.None? || v != "contradicted:" + self.value)
    else false
  }

  predicate Judged(e: Entry, classify: Entry -> string, self: Option<string>, bucket: string) {
    classify(e) == "adjudication" && e.block.Some? && e.block.value.verdict.Some?
    && FallsIn(e.block.value.verdict.value, self, bucket)
  }

  /** The adjudications among those entries whose verdict falls in the bucket. */
  ghost function JudgedAt(entries: seq<Entry>, lo: nat, hi: nat, classify: Entry -> string, self: Option<string>,
                          bucket: string): set<nat>
  {
    set x: nat | lo <= x < hi && x < |entries| && Judged(entries[x], classify, self, bucket)
  }

  lemma ClassifiedSnoc(entries: seq<Entry>, lo: nat, hi: nat, classify: Entry -> string, kind: string)
    requires lo < hi <= |entries|
    ensures |Classified(entries, lo, hi, classify, kind)|
            == |Classified(entries, lo, hi - 1, classify, kind)| + if classify(entries[hi - 1]) == kind then 1 else 0
  {
    assert HasKind(entries[hi - 1], classify, kind) <==> classify(entries[hi - 1]) == kind;
    hide HasKind;
    var before, after := Classified(entries, lo, hi - 1, classify, kind), Classified(entries, lo, hi, classify, kind);
    if HasKind(entries[hi - 1], classify, kind) { assert after == before + {hi - 1}; } else { assert after == before; }
  }

  lemma JudgedSnoc(entries: seq<Entry>, lo: nat, hi: nat, classify: Entry -> string, self: Option<string>,
                   bucket: string)
    requires lo < hi <= |entries|
    ensures |JudgedAt(entries, lo, hi, classify, self, bucket)|
            == |JudgedAt(entries, lo, hi - 1, classify, self, bucket)|
               + if Judged(entries[hi - 1], classify, self, bucket) then 1 else 0
  {
    hide Judged;
    var before := JudgedAt(entries, lo, hi - 1, classify, self, bucket);
    var after := JudgedAt(entries, lo, hi, classify, self, bucket);
    var found := Judged(entries[hi - 1], classify, self, bucket);
    assert after <= before + {hi - 1} && before <= after && hi - 1 !in before && (hi - 1 in after <==> found);
    assert after == if found then before + {hi - 1} else before;
  }

  lemma LastOfSlice(entries: seq<Entry>, lo: nat, hi: nat)
    requires lo < hi <= |entries|
    ensures entries[lo..hi] != [] && entries[lo..hi][..hi - lo - 1] == entries[lo..hi - 1]
    ensures entries[lo..hi][hi - lo - 1] == entries[hi - 1]
  {}

  lemma {:induction false} LabelsCounted(entries: seq<Entry>, lo: nat, hi: nat, classify: Entry -> string, kind: string)
    requires lo <= hi <= |entries|
    ensures Occurrences(Labels(entries[lo..hi], classify), kind) == |Classified(entries, lo, hi, classify, kind)|
    decreases hi
  {
    hide Classified;
    if lo == hi {
      NothingClassified(entries, lo, classify, kind);
      assert entries[lo..hi] == [];
    } else {
      LabelsCounted(entries, lo, hi - 1, classify, kind);
      LastOfSlice(entries, lo, hi);
      ClassifiedSnoc(entries, lo, hi, classify, kind);
      assert Labels(entries[lo..hi], classify)[..hi - lo - 1] == Labels(entries[lo..hi - 1], classify);
    }
  }

  lemma NothingClassified(entries: seq<Entry>, lo: nat, classify: Entry -> string, kind: string)
    ensures Classified(entries, lo, lo, classify, kind) == {}
  {}

  lemma NothingJudged(entries: seq<Entry>, lo: nat, classify: Entry -> string, self: Option<string>, bucket: string)
    ensures JudgedAt(entries, lo, lo, classify, self, bucket) == {}
  {}

  /** The four counts of one link. */
  ghost predicate RolesCounted(m: map<string, nat>, entries: seq<Entry>, lo: nat, hi: nat, classify: Entry -> string,
                               self: Option<string>)
  {
    && m.Keys == {"corroborated", "inconclusive", "contradicted_self", "contradicted_other"}
    && forall bucket :: bucket in m ==> m[bucket] == |JudgedAt(entries, lo, hi, classify, self, bucket)|
  }

  lemma BucketFalls(v: string, self: Option<string>, bucket: string)
    requires bucket in {"corroborated", "inconclusive", "contradicted_self", "contradicted_other"}
    ensures Bucket(v, self) == Some(bucket) <==> FallsIn(v, self, bucket)
    ensures Bucket(v, self).Some? ==>
      Bucket(v, self).value in {"corroborated", "inconclusive", "contradicted_self", "contradicted_other"}
  {
    assert "corroborated"[2] != "contradicted:"[2] && "inconclusive"[0] != "contradicted:"[0];
    assert |"contradicted_self"| != |"contradicted_other"|;
    if "contradicted:" <= v { assert v == "contradicted:" + v[|"contradicted:"|..]; }
  }

  lemma {:induction false} RolesJudged(entries: seq<Entry>, lo: nat, hi: nat, classify: Entry -> string,
                                       self: Option<string>)
    requires lo <= hi <= |entries|
    ensures RolesCounted(VerdictRoles(Adjudicated(entries[lo..hi], classify), self), entries, lo, hi, classify, self)
    decreases hi
  {
    hide JudgedAt, Bucket, FallsIn;
    var names := {"corroborated", "inconclusive", "contradicted_self", "contradicted_other"};
    if lo == hi {
      assert entries[lo..hi] == [];
      forall bucket | bucket in names ensures |JudgedAt(entries, lo, hi, classify, self, bucket)| == 0 {
        NothingJudged(entries, lo, classify, self, bucket);
      }
    } else {
      RolesJudged(entries, lo, hi - 1, classify, self);
      LastOfSlice(entries, lo, hi);
      RolesStep(entries, lo, hi, classify, self);
    }
  }

  lemma RolesStep(entries: seq<Entry>, lo: nat, hi: nat, classify: Entry -> string, self: Option<string>)
    requires lo < hi <= |entries|
    requires RolesCounted(VerdictRoles(Adjudicated(entries[lo..hi - 1], classify), self), entries, lo, hi - 1, classify,
                          self)
    ensures RolesCounted(VerdictRoles(Adjudicated(entries[lo..hi], classify), self), entries, lo, hi, classify, self)
  {
    hide JudgedAt, Bucket, FallsIn, VerdictRoles;
    var names := {"corroborated", "inconclusive", "contradicted_self", "contradicted_other"};
    var e := entries[hi - 1];
    var before := VerdictRoles(Adjudicated(entries[lo..hi - 1], classify), self);
    var after := VerdictRoles(Adjudicated(entries[lo..hi], classify), self);
    LastOfSlice(entries, lo, hi);
    AdjudicatedSnoc(entries[lo..hi], classify);
    RolesSnoc(Adjudicated(entries[lo..hi - 1], classify), e, self);
    forall bucket | bucket in names
      ensures bucket in after && after[bucket] == |JudgedAt(entries, lo, hi, classify, self, bucket)|
    {
      JudgedSnoc(entries, lo, hi, classify, self, bucket);
      if VerdictOf(e).Some? { BucketFalls(VerdictOf(e).value, self, bucket); }
    }
    if VerdictOf(e).Some? { BucketFalls(VerdictOf(e).value, self, "corroborated"); }
  }

  lemma AdjudicatedSnoc(es: seq<Entry>, classify: Entry -> string)
    requires es != []
    ensures Adjudicated(es, classify) == Adjudicated(es[..|es| - 1], classify)
            + if classify(es[|es| - 1]) == "adjudication" then [es[|es| - 1]] else []
  {}

  lemma RolesSnoc(es: seq<Entry>, e: Entry, self: Option<string>)
    ensures VerdictRoles(es + [e], self) ==
      if BucketOf(e, self).Some? then Add(VerdictRoles(es, self), BucketOf(e, self).value) else VerdictRoles(es, self)
    ensures es + [] == es
  {
    assert (es + [e])[..|es|] == es;
  }

  lemma SliceWithin(entries: seq<Entry>, lo: nat, hi: nat) returns (top: nat)
    ensures if lo <= hi && lo <= |entries| then lo <= top <= |entries| && top <= hi && (top == hi || top == |entries|)
            else top == lo
    ensures Slice(entries, lo, hi) == if lo <= top <= |entries| then entries[lo..top] else []
  {
    top := if lo <= hi && lo <= |entries| then (if hi <= |entries| then hi else |entries|) else lo;
    if lo == top && lo <= |entries| { assert entries[lo..top] == []; }
  }

  lemma SliceCounted(entries: seq<Entry>, lo: nat, hi: nat, classify: Entry -> string, self: Option<string>)
    ensures forall kind ::
      Occurrences(Labels(Slice(entries, lo, hi), classify), kind) == |Classified(entries, lo, hi, classify, kind)|
    ensures RolesCounted(VerdictRoles(Adjudicated(Slice(entries, lo, hi), classify), self), entries, lo, hi, classify, self)
  {
    hide Slice, HasKind, Judged, Occurrences, VerdictRoles, Adjudicated;
    var top := SliceWithin(entries, lo, hi);
    var end := if lo <= top <= |entries| then top else 0;
    var start := if lo <= top <= |entries| then lo else 0;
    assert Slice(entries, lo, hi) == entries[start..end];
    forall kind ensures
      Occurrences(Labels(Slice(entries, lo, hi), classify), kind) == |Classified(entries, lo, hi, classify, kind)|
    {
      LabelsCounted(entries, start, end, classify, kind);
      assert Classified(entries, lo, hi, classify, kind) == Classified(entries, start, end, classify, kind);
    }
    RolesJudged(entries, start, end, classify, self);
    forall bucket
      ensures JudgedAt(entries, lo, hi, classify, self, bucket) == JudgedAt(entries, start, end, classify, self, bucket)
    {}
  }

  function Span(lo: nat, hi: nat): nat {
    if lo <= hi then hi - lo else 0
  }

  /** What a built link says of the entries its checkpoint covers and the one before it did not. */
  ghost predicate LeavesTallied(entries: seq<Entry>, l: Link, classify: Entry -> string, self: Option<string>, want: bool)
  {
    && LeavesOf(l.checkpoint.prevSize).Some? && LeavesOf(l.checkpoint.mmrSize).Some?
    && var lo, hi := LeavesOf(l.checkpoint.prevSize).value, LeavesOf(l.checkpoint.mmrSize).value;
    && (forall kind ::
          && (kind in l.leafCounts <==> Classified(entries, lo, hi, classify, kind) != {})
          && (kind in l.leafCounts ==> l.leafCounts[kind] == |Classified(entries, lo, hi, classify, kind)|))
    && (l.adjudication.Some? <==> Classified(entries, lo, hi, classify, "adjudication") != {})
    && (l.adjudication.Some? ==> RolesCounted(l.adjudication.value, entries, lo, hi, classify, self))
    && l.leafDigests.Some? == want
    && (want ==>
          && |l.leafDigests.value| == Span(lo, if hi <= |entries| then hi else |entries|)
          && forall m :: 0 <= m < |l.leafDigests.value| ==>
               lo + m < |entries| && l.leafDigests.value[m] == entries[lo + m].id)
  }

  lemma DigestsListed(entries: seq<Entry>, lo: nat, hi: nat)
    ensures |Ids(Slice(entries, lo, hi))| == Span(lo, if hi <= |entries| then hi else |entries|)
    ensures forall m :: 0 <= m < |Ids(Slice(entries, lo, hi))| ==>
      lo + m < |entries| && Ids(Slice(entries, lo, hi))[m] == entries[lo + m].id
  {}

  /** The envelope of a link: none when no stamp of its size carries COSE text, else what the last such stamp's text
      decodes to. */
  ghost predicate CoseTaken(entries: seq<Entry>, l: Link) {
    && (l.cose.None? <==> NoCarrier(entries, l.checkpoint.mmrSize))
    && (l.cose.Some? ==>
          exists k: nat :: LastCarrier(entries, l.checkpoint.mmrSize, k) && FromHex(entries[k].cose) == l.cose)
  }

  lemma LinkTallied(j: Job, prior: Option<Checkpoint>, cp: Checkpoint)
    requires MakeLink(j, prior, cp).Some?
    ensures LeavesTallied(j.entries, MakeLink(j, prior, cp).value, j.classify, j.self, j.wantDigests)
  {
    hide BuildProof, CoseBySize, CountLabels, Labels, Adjudicated, VerdictRoles, Occurrences, Classified, RolesCounted,
         LeavesOf, Slice, FromHex;
    var l := MakeLink(j, prior, cp).value;
    var lo, hi := LeavesOf(cp.prevSize).value, LeavesOf(cp.mmrSize).value;
    var own := Slice(j.entries, lo, hi);
    SliceCounted(j.entries, lo, hi, j.classify, j.self);
    DigestsListed(j.entries, lo, hi);
    CountLabelsExact(Labels(own, j.classify));
    AdjudicatedCount(own, j.classify);
    forall kind ensures
      && (kind in l.leafCounts <==> Classified(j.entries, lo, hi, j.classify, kind) != {})
      && (kind in l.leafCounts ==> l.leafCounts[kind] == |Classified(j.entries, lo, hi, j.classify, kind)|)
    {
      assert Get(l.leafCounts, kind) == Occurrences(Labels(own, j.classify), kind);
    }
    assert |Classified(j.entries, lo, hi, j.classify, "adjudication")| == |Adjudicated(own, j.classify)|;
  }

  lemma LinkEnvelope(j: Job, prior: Option<Checkpoint>, cp: Checkpoint)
    requires MakeLink(j, prior, cp).Some? && j.stamps == Stamps(j.entries)
    ensures CoseTaken(j.entries, MakeLink(j, prior, cp).value)
  {
    hide BuildProof, CoseBySize, Stamps, CountLabels, Labels, Adjudicated, VerdictRoles, LeavesOf, Slice, FromHex,
         NoCarrier, LastCarrier;
    var k := CoseOfEntries(j.entries, cp.mmrSize);
    if MakeLink(j, prior, cp).value.cose.Some? { CarrierIndex(j.entries, cp.mmrSize, k); }
  }

  /** Link i has the proof from the link before it to it over the nodes of the leaves the last link covers, and the
      first one has none. */
  ghost predicate ProofGiven(h: Hash, entries: seq<Entry>, links: seq<Link>, i: nat)
    requires i < |links|
  {
    && (i == 0 <==> links[i].proof.None?)
    && (i > 0 ==>
          && LeavesOf(links[|links| - 1].checkpoint.mmrSize).Some?
          && var top := LeavesOf(links[|links| - 1].checkpoint.mmrSize).value;
          && top <= |entries| && Bodies(entries[..top]).Some? && |Bodies(entries[..top]).value| == top
          && BuildProof(Nodes(h, Bodies(entries[..top]).value, 0, top, 0),
                        links[i - 1].checkpoint.mmrSize, links[i].checkpoint.mmrSize) == links[i].proof)
  }

  /** Every link of a built segment, honest log or not: the leaves it tallies by kind and by verdict, the digests it
      lists, the envelope it takes, and the proof from the link before it. */
  lemma LinkPlainly(h: Hash, entries: seq<Entry>, r: Request, self: Option<string>, classify: Entry -> string,
                    want: bool, i: nat)
    requires Build(h, entries, r, self, classify, want).Built?
    requires i < |Build(h, entries, r, self, classify, want).segment.links|
    ensures
      var links := Build(h, entries, r, self, classify, want).segment.links;
      LeavesTallied(entries, links[i], classify, self, want) && CoseTaken(entries, links[i])
      && ProofGiven(h, entries, links, i)
  {
    hide Build, BuildFrom, Stamps, Select, Checkpoints, MakeLinks, LeavesTallied, CoseTaken, ProofGiven,
         BuildProof, LeavesOf, Nodes, Bodies, Slice, NodeCount;
    var chosen := BuiltFrom(h, entries, r, self, classify, want);
    var j := SegmentJob(h, entries, chosen, self, classify, want);
    JobLink(j, chosen, i);
    JobProof(h, j, chosen, i);
  }

  lemma JobLink(j: Job, chosen: seq<Checkpoint>, i: nat)
    requires MakeLinks(j, chosen).Some? && j.stamps == Stamps(j.entries) && i < |MakeLinks(j, chosen).value|
    ensures LeavesTallied(j.entries, MakeLinks(j, chosen).value[i], j.classify, j.self, j.wantDigests)
    ensures CoseTaken(j.entries, MakeLinks(j, chosen).value[i])
  {
    hide Stamps, MakeLinks, MakeLink, LeavesTallied, CoseTaken;
    MakeLinksAt(j, chosen);
    assert LinkAt(j, chosen, i).Some?;
    LinkTallied(j, PriorOf(chosen, i), chosen[i]);
    LinkEnvelope(j, PriorOf(chosen, i), chosen[i]);
  }

  lemma JobProof(h: Hash, j: Job, chosen: seq<Checkpoint>, i: nat)
    requires MakeLinks(j, chosen).Some? && i < |MakeLinks(j, chosen).value| && chosen != []
    requires LeavesOf(chosen[|chosen| - 1].mmrSize).Some?
    requires var top := LeavesOf(chosen[|chosen| - 1].mmrSize).value;
             && top <= |j.entries| && Bodies(j.entries[..top]).Some? && |Bodies(j.entries[..top]).value| == top
             && j.nodes == Nodes(h, Bodies(j.entries[..top]).value, 0, top, 0)
    ensures ProofGiven(h, j.entries, MakeLinks(j, chosen).value, i)
  {
    hide MakeLinks, BuildProof, LeavesOf, Nodes, Bodies, LinkAt;
    var links := MakeLinks(j, chosen).value;
    JobCheckpoints(j, chosen);
    LinkAtProof(j, chosen, i);
  }

  lemma JobCheckpoints(j: Job, chosen: seq<Checkpoint>)
    requires MakeLinks(j, chosen).Some?
    ensures |MakeLinks(j, chosen).value| == |chosen|
    ensures forall i :: 0 <= i < |chosen| ==> MakeLinks(j, chosen).value[i].checkpoint == chosen[i]
  {
    hide MakeLinks;
    LinkCheckpoints(j, chosen);
    assert forall i :: 0 <= i < |chosen| ==> CheckpointsOf(MakeLinks(j, chosen).value)[i] == chosen[i];
  }

  lemma LinkAtProof(j: Job, chosen: seq<Checkpoint>, i: nat)
    requires MakeLinks(j, chosen).Some? && i < |chosen| && |MakeLinks(j, chosen).value| == |chosen|
    ensures
      var l := MakeLinks(j, chosen).value[i];
      && (i == 0 <==> l.proof.None?)
      && (i > 0 ==> BuildProof(j.nodes, chosen[i - 1].mmrSize, chosen[i].mmrSize) == l.proof)
  {
    hide MakeLinks, MakeLink, BuildProof;
    MakeLinksAt(j, chosen);
    assert LinkAt(j, chosen, i).Some?;
    LinkProof(j, PriorOf(chosen, i), chosen[i]);
  }

  /** The checkpoints a built segment was built from. */
  lemma BuiltFrom(h: Hash, entries: seq<Entry>, r: Request, self: Option<string>, classify: Entry -> string, want: bool)
    returns (chosen: seq<Checkpoint>)
    requires Build(h, entries, r, self, classify, want).Built?
    ensures WellFormed(r) && Checkpoints(Stamps(entries)).Some? && Checkpoints(Stamps(entries)).value != []
    ensures var s := Select(r, Checkpoints(Stamps(entries)).value);
            s.Chosen? && chosen == Checkpoints(Stamps(entries)).value[s.lo..s.hi]
    ensures chosen != []
    ensures BuildFrom(h, entries, Stamps(entries), chosen, self, classify, want)
            == Build(h, entries, r, self, classify, want)
  {
    hide BuildFrom, Stamps, Checkpoints, Select, WellFormed;
    var s := Select(r, Checkpoints(Stamps(entries)).value);
    chosen := Checkpoints(Stamps(entries)).value[s.lo..s.hi];
  }

  lemma LinkProof(j: Job, prior: Option<Checkpoint>, cp: Checkpoint)
    requires MakeLink(j, prior, cp).Some?
    ensures MakeLink(j, prior, cp).value.checkpoint == cp
    ensures MakeLink(j, prior, cp).value.proof.None? <==> prior.None?
    ensures prior.Some? ==> BuildProof(j.nodes, prior.value.mmrSize, cp.mmrSize) == MakeLink(j, prior, cp).value.proof
  {
    hide BuildProof, CoseBySize, CountLabels, Labels, Adjudicated, VerdictRoles, LeavesOf, Slice, FromHex;
  }

  lemma SegmentJob(h: Hash, entries: seq<Entry>, chosen: seq<Checkpoint>, self: Option<string>,
                   classify: Entry -> string, want: bool) returns (j: Job)
    requires chosen != [] && BuildFrom(h, entries, Stamps(entries), chosen, self, classify, want).Built?
    ensures j.entries == entries && j.stamps == Stamps(entries) && j.classify == classify && j.wantDigests == want
    ensures j.self == self
    ensures MakeLinks(j, chosen) == Some(BuildFrom(h, entries, Stamps(entries), chosen, self, classify, want).segment.links)
    ensures LeavesOf(chosen[|chosen| - 1].mmrSize).Some?
    ensures var top := LeavesOf(chosen[|chosen| - 1].mmrSize).value;
            && top <= |entries| && Bodies(entries[..top]).Some? && |Bodies(entries[..top]).value| == top
            && j.nodes == Nodes(h, Bodies(entries[..top]).value, 0, top, 0)
  {
    hide MakeLinks, LeavesOf, Bodies, Nodes, NodeCount;
    var size := chosen[|chosen| - 1].mmrSize;
    var top := LeavesOf(size).value;
    var covered := Slice(entries, 0, top);
    var ls := Bodies(covered).value;
    BodiesPrefix(covered, 0);
    NodesShape(h, ls, 0, |ls|, 0);
    LeavesOfNodes(size);
    NodeCountInjective(|ls|, top);
    assert covered == entries[..top];
    j := Job(h, entries, Stamps(entries), Nodes(h, ls, 0, |ls|, 0), classify, self, want);
  }

  // ---------------------------------------------------------------- the shipped classifier

  /** A checkpoint stamp is a "stamp", any other kind is its own label, and an entry without a kind is an
      "adjudication" when it adjudicates or carries a twin comparison, else a "capsule". */
  lemma ClassifierPlainly(e: Entry)
    ensures DefaultClassify(e) == "stamp" <==> e.kind == "checkpoint_stamp" || e.kind == "stamp"
    ensures DefaultClassify(e) == "adjudication" <==>
      || e.kind == "adjudication"
      || (e.kind == "" && (e.relation == "adjudicates"
                           || (e.block.Some? && e.block.value.source == "twin_comparison")))
    ensures e.kind != "" && e.kind != "checkpoint_stamp" ==> DefaultClassify(e) == e.kind
    ensures e.kind == "" && DefaultClassify(e) != "adjudication" ==> DefaultClassify(e) == "capsule"
  {
    assert "stamp" != "adjudication" && "stamp" != "capsule" && "capsule" != "adjudication";
    assert "checkpoint_stamp" != "adjudication" && "checkpoint_stamp" != "";
  }

  // ---------------------------------------------------------------- what the builder refuses

  /** A selection that asks for a positive last count alone, or for two sizes in order alone. */
  predicate Selects(last: Option<int>, from: Option<int>, to: Option<int>) {
    || (last.Some? && last.value > 0 && from.None? && to.None?)
    || (last.None? && from.Some? && to.Some? && 0 <= from.value <= to.value)
  }

  ghost predicate NoStamps(entries: seq<Entry>) {
    forall i :: 0 <= i < |entries| ==> entries[i].kind != "checkpoint_stamp"
  }

  lemma {:induction false} StampsEmpty(entries: seq<Entry>)
    ensures Stamps(entries) == [] <==> NoStamps(entries)
  {
    if entries != [] {
      StampsEmpty(entries[1..]);
      assert forall i :: 0 < i < |entries| ==> entries[i] == entries[1..][i - 1];
      assert forall i :: 0 <= i < |entries[1..]| ==> entries[1..][i] == entries[i + 1];
    }
  }

  predicate IsStamp(e: Entry) {
    e.kind == "checkpoint_stamp"
  }

  /** The places of the checkpoint stamps, in order. */
  ghost predicate StampPlaces(entries: seq<Entry>, at: seq<nat>) {
    && (forall k :: 0 <= k < |at| ==> at[k] < |entries| && IsStamp(entries[at[k]]))
    && (forall j, k :: 0 <= j < k < |at| ==> at[j] < at[k])
    && (forall i: nat :: i < |entries| && IsStamp(entries[i]) ==> i in at)
  }

  /** The stamps the builder reads are the entries at those places. */
  lemma {:induction false} StampsPlainly(entries: seq<Entry>) returns (at: seq<nat>)
    ensures StampPlaces(entries, at) && |Stamps(entries)| == |at|
    ensures forall k :: 0 <= k < |at| ==> at[k] < |entries| && Stamps(entries)[k] == entries[at[k]]
  {
    hide IsStamp, Stamps, StampPlaces;
    if entries == [] {
      at := [];
      NoStampsRead();
    } else {
      var front, last := entries[..|entries| - 1], entries[|entries| - 1];
      var before := StampsPlainly(front);
      assert entries == front + [last];
      StampsSnoc(front, last);
      StampIs(last);
      PlacesSnoc(front, last, before);
      at := before + if IsStamp(last) then [|front|] else [];
    }
  }

  lemma PlacesSnoc(front: seq<Entry>, last: Entry, before: seq<nat>)
    requires StampPlaces(front, before)
    ensures StampPlaces(front + [last], before + if IsStamp(last) then [|front|] else [])
  {
    hide IsStamp;
    var all, whole := before + (if IsStamp(last) then [|front|] else []), front + [last];
    forall i: nat | i < |whole| && IsStamp(whole[i]) ensures i in all {
      if i < |front| { assert i in before; }
    }
  }

  lemma StampIs(e: Entry)
    ensures IsStamp(e) <==> e.kind == STAMP_KIND
  {}

  lemma NoStampsRead()
    ensures Stamps([]) == [] && StampPlaces([], [])
  {}

  lemma {:induction false} CheckpointsEach(stamps: seq<Entry>)
    ensures Checkpoints(stamps).Some? <==> forall k :: 0 <= k < |stamps| ==> stamps[k].checkpoint.Some?
    ensures Checkpoints(stamps).Some? ==>
      |Checkpoints(stamps).value| == |stamps|
      && forall k :: 0 <= k < |stamps| ==> stamps[k].checkpoint == Some(Checkpoints(stamps).value[k])
  {
    if stamps != [] {
      CheckpointsEach(stamps[1..]);
      assert forall k :: 0 < k < |stamps| ==> stamps[k] == stamps[1..][k - 1];
      assert forall k :: 0 <= k < |stamps[1..]| ==> stamps[1..][k] == stamps[k + 1];
    }
  }

  /** The checkpoints the builder reads are those of the stamps, in log order; a stamp without one is a crash, which is
      looked for before anything but an empty log and a bad selection. */
  lemma CheckpointsPlainly(h: Hash, entries: seq<Entry>, r: Request, self: Option<string>, classify: Entry -> string,
                           want: bool) returns (at: seq<nat>)
    ensures StampPlaces(entries, at)
    ensures Checkpoints(Stamps(entries)).Some? <==>
      forall k :: 0 <= k < |at| ==> at[k] < |entries| && entries[at[k]].checkpoint.Some?
    ensures Checkpoints(Stamps(entries)).Some? ==>
      var cps := Checkpoints(Stamps(entries)).value;
      |cps| == |at| && forall k :: 0 <= k < |at| ==> at[k] < |entries| && entries[at[k]].checkpoint == Some(cps[k])
    ensures entries != [] && Selects(r.last, r.fromSize, r.toSize) && Checkpoints(Stamps(entries)).None? ==>
      Build(h, entries, r, self, classify, want).Crashed?
  {
    hide StampPlaces, Stamps, Checkpoints, BuildFrom, Select;
    at := StampsPlainly(entries);
    CheckpointsEach(Stamps(entries));
    assert forall k :: 0 <= k < |at| ==> Stamps(entries)[k] == entries[at[k]];
  }

  /** The leaf bodies are the entries' own ids decoded, one for one; an id that does not decode is a crash. */
  lemma {:induction false} BodiesPlainly(es: seq<Entry>)
    ensures Bodies(es).Some? <==> forall i :: 0 <= i < |es| ==> FromHex(es[i].id).Some?
    ensures Bodies(es).Some? ==>
      |Bodies(es).value| == |es| && forall i :: 0 <= i < |es| ==> FromHex(es[i].id) == Some(Bodies(es).value[i])
  {
    hide FromHex;
    if es != [] {
      var init := es[..|es| - 1];
      BodiesPlainly(init);
      assert forall i :: 0 <= i < |init| ==> init[i] == es[i];
    }
  }

  /** The refusals that come before any size is looked at, in their order. */
  lemma RefusedPlainly(h: Hash, entries: seq<Entry>, r: Request, self: Option<string>, classify: Entry -> string,
                       want: bool)
    ensures
      var o := Build(h, entries, r, self, classify, want);
      && (entries == [] ==> o == Refused(EmptyLog))
      && (entries != [] && !Selects(r.last, r.fromSize, r.toSize) ==> o == Refused(BadSelection))
      && (entries != [] && Selects(r.last, r.fromSize, r.toSize) && NoStamps(entries) ==> o == Refused(NoCheckpoint))
      && (o.Built? ==> entries != [] && Selects(r.last, r.fromSize, r.toSize) && !NoStamps(entries))
  {
    hide BuildFrom, Select, NoStamps;
    StampsEmpty(entries);
    CheckpointCount(Stamps(entries));
  }

  /** On any log, honest or not, `last=N` takes the final min(N, all) checkpoints, in order. */
  lemma LastTaken(h: Hash, entries: seq<Entry>, n: int, self: Option<string>, classify: Entry -> string, want: bool)
    requires Build(h, entries, Request(Some(n), None, None), self, classify, want).Built?
    ensures Checkpoints(Stamps(entries)).Some? && n > 0
    ensures
      var cps := Checkpoints(Stamps(entries)).value;
      var taken := CheckpointsOf(Build(h, entries, Request(Some(n), None, None), self, classify, want).segment.links);
      && |taken| == (if n < |cps| then n else |cps|)
      && forall i :: 0 <= i < |taken| ==> taken[i] == cps[|cps| - |taken| + i]
  {
    hide Build, BuildFrom, Stamps, Checkpoints, MakeLinks;
    var chosen := BuiltFrom(h, entries, Request(Some(n), None, None), self, classify, want);
    var j := SegmentJob(h, entries, chosen, self, classify, want);
    LinkCheckpoints(j, chosen);
  }

  /** The checkpoint at that place equals the last one of that size, and no earlier one does. */
  ghost predicate Boundary(cps: seq<Checkpoint>, size: int, at: nat) {
    exists k: nat :: at <= k < |cps| && LastOfSize(cps, size, k) && cps[at] == cps[k]
                     && forall m :: 0 <= m < at ==> cps[m] != cps[k]
  }

  ghost predicate LastOfSize(cps: seq<Checkpoint>, size: int, k: nat)
    requires k < |cps|
  {
    cps[k].mmrSize == size && forall m :: k < m < |cps| ==> cps[m].mmrSize != size
  }

  lemma {:induction false} BySizeLast(cps: seq<Checkpoint>, size: int) returns (k: nat)
    requires BySize(cps, size).Some?
    ensures k < |cps| && LastOfSize(cps, size, k) && BySize(cps, size) == Some(cps[k])
  {
    if cps[|cps| - 1].mmrSize == size {
      k := |cps| - 1;
    } else {
      k := BySizeLast(cps[..|cps| - 1], size);
    }
  }

  lemma BoundaryFound(cps: seq<Checkpoint>, size: int)
    ensures BySize(cps, size).Some? <==> HasSize(cps, size)
    ensures BySize(cps, size).Some? ==>
      IndexOf(cps, BySize(cps, size).value) < |cps| && Boundary(cps, size, IndexOf(cps, BySize(cps, size).value))
  {
    if BySize(cps, size).Some? {
      var k := BySizeLast(cps, size);
      var at := IndexOf(cps, cps[k]);
      assert forall m :: 0 <= m < at ==> cps[..at][m] == cps[m];
    }
  }

  /** What two sizes in order select, or why they are refused: the end must be a size some checkpoint has, the start
      must be one too unless it is 0, and the start may not lie behind the end. */
  lemma SizesPlainly(cps: seq<Checkpoint>, from: int, to: int)
    requires cps != [] && 0 <= from <= to
    ensures
      var s := Select(Request(None, Some(from), Some(to)), cps);
      && (!HasSize(cps, to) ==> s == Denied(if to > cps[|cps| - 1].mmrSize then BeyondLatest else UnknownSize))
      && (HasSize(cps, to) && from != 0 && !HasSize(cps, from) ==> s == Denied(UnknownSize))
      && (HasSize(cps, to) && (from == 0 || HasSize(cps, from)) ==>
            exists lo: nat, end: nat :: Between(cps, from, to, lo, end)
              && s == if lo > end then Denied(OutOfOrder) else Chosen(lo, end + 1))
  {
    hide BySize, IndexOf, Boundary, HasSize;
    BoundaryFound(cps, to);
    BoundaryFound(cps, from);
    if HasSize(cps, to) && (from == 0 || HasSize(cps, from)) {
      var end := IndexOf(cps, BySize(cps, to).value);
      var lo := if from == 0 then 0 else IndexOf(cps, BySize(cps, from).value);
      assert Between(cps, from, to, lo, end);
    }
  }

  ghost predicate Between(cps: seq<Checkpoint>, from: int, to: int, lo: nat, end: nat) {
    && end < |cps| && Boundary(cps, to, end)
    && if from == 0 then lo == 0 else lo < |cps| && Boundary(cps, from, lo)
  }

  /** On any log, honest or not, two sizes are answered with the checkpoints from one boundary to the other. */
  lemma SizesTaken(h: Hash, entries: seq<Entry>, from: int, to: int, self: Option<string>, classify: Entry -> string,
                   want: bool)
    requires Build(h, entries, Request(None, Some(from), Some(to)), self, classify, want).Built?
    ensures Checkpoints(Stamps(entries)).Some?
    ensures
      var cps := Checkpoints(Stamps(entries)).value;
      var taken := CheckpointsOf(Build(h, entries, Request(None, Some(from), Some(to)), self, classify, want).segment.links);
      exists lo: nat, end: nat :: lo <= end && Between(cps, from, to, lo, end) && taken == cps[lo..end + 1]
  {
    hide Build, BuildFrom, Stamps, Checkpoints, MakeLinks, Select, Between, HasSize;
    var r := Request(None, Some(from), Some(to));
    var chosen := BuiltFrom(h, entries, r, self, classify, want);
    var j := SegmentJob(h, entries, chosen, self, classify, want);
    LinkCheckpoints(j, chosen);
    SizesPlainly(Checkpoints(Stamps(entries)).value, from, to);
  }

  /** The size refusals reach the caller. */
  lemma SizesRefused(h: Hash, entries: seq<Entry>, from: int, to: int, self: Option<string>, classify: Entry -> string,
                     want: bool)
    requires entries != [] && 0 <= from <= to && Checkpoints(Stamps(entries)).Some? && Stamps(entries) != []
    ensures
      var cps := Checkpoints(Stamps(entries)).value;
      var s := Select(Request(None, Some(from), Some(to)), cps);
      cps != [] && (s.Denied? ==>
        Build(h, entries, Request(None, Some(from), Some(to)), self, classify, want) == Refused(s.why))
  {
    hide BuildFrom, Stamps, Select;
    CheckpointCount(Stamps(entries));
  }

  /** A log cut shorter than its last chosen checkpoint covers is refused, never served. */
  lemma TruncatedRefused(h: Hash, entries: seq<Entry>, n: int, self: Option<string>, classify: Entry -> string,
                         want: bool)
    requires n > 0 && Bodies(entries).Some? && Checkpoints(Stamps(entries)).Some? && Stamps(entries) != []
    requires var cps := Checkpoints(Stamps(entries)).value;
             cps != [] && LeavesOf(cps[|cps| - 1].mmrSize).Some? && LeavesOf(cps[|cps| - 1].mmrSize).value > |entries|
    ensures Build(h, entries, Request(Some(n), None, None), self, classify, want) == Refused(SizeMismatch)
  {
    hide Nodes, Bodies, Stamps, Checkpoints, LeavesOf, NodeCount, MakeLinks;
    var cps := Checkpoints(Stamps(entries)).value;
    var size := cps[|cps| - 1].mmrSize;
    StampsPresent(entries);
    BodiesPrefix(entries, 0);
    assert Slice(entries, 0, LeavesOf(size).value) == entries;
    NodesShape(h, Bodies(entries).value, 0, |entries|, 0);
    LeavesOfNodes(size);
    NodeCountMonotone(|entries|, LeavesOf(size).value);
  }

  lemma StampsPresent(entries: seq<Entry>)
    ensures Stamps(entries) != [] ==> entries != []
  {}
}
