/** What a built segment says about the log it was cut from: honest logs always verify, the requested
    checkpoints are the ones returned, and every leaf is accounted for exactly once. */
module ChainHistory {
  import opened Bytes
  import opened Mmr
  import opened Consistency
  import opened ChainVerify
  import opened ChainBuild

  // ---------------------------------------------------------------- the links of a built segment

  lemma LinkAtPrefix(j: Job, cps: seq<Checkpoint>, n: nat)
    requires n <= |cps|
    ensures forall i :: 0 <= i < n ==> LinkAt(j, cps[..n], i) == LinkAt(j, cps, i)
  {
    hide MakeLink;
  }

  /** The builder succeeds exactly when every link can be built, and then returns those links in order. */
  lemma {:induction false} MakeLinksAt(j: Job, cps: seq<Checkpoint>)
    ensures MakeLinks(j, cps).Some? <==> forall i :: 0 <= i < |cps| ==> LinkAt(j, cps, i).Some?
    ensures MakeLinks(j, cps).Some? ==>
      |MakeLinks(j, cps).value| == |cps| && forall i :: 0 <= i < |cps| ==> LinkAt(j, cps, i) == Some(MakeLinks(j, cps).value[i])
    decreases |cps|
  {
    hide LinkAt;
    if cps != [] {
      MakeLinksAt(j, cps[..|cps| - 1]);
      LinkAtPrefix(j, cps, |cps| - 1);
    }
  }

  function CheckpointsOf(links: seq<Link>): (r: seq<Checkpoint>)
    ensures |r| == |links| && forall i :: 0 <= i < |r| ==> r[i] == links[i].checkpoint
  {
    seq(|links|, i requires 0 <= i < |links| => links[i].checkpoint)
  }

  // ---------------------------------------------------------------- honest logs

  /** A checkpoint an honest writer stamps after `prior`: signed, over a prefix of the leaves no shorter than the
      prior one's, and naming the prior one. The first one names any size up to its own that a range can have. */
  ghost predicate HonestNext(t: Trust, ls: seq<seq<byte>>, prior: Option<Checkpoint>, cp: Checkpoint) {
    && t.signed(cp)
    && LeavesOf(cp.mmrSize).Some? && LeavesOf(cp.mmrSize).value <= |ls|
    && FromHex(cp.root) == Some(RootAt(t.h(), ls, LeavesOf(cp.mmrSize).value))
    && cp.prevSize <= cp.mmrSize
    && if prior.None? then LeavesOf(cp.prevSize).Some?
       else cp.prevSize == prior.value.mmrSize && cp.prevRoot == prior.value.root
  }

  ghost predicate HonestAt(t: Trust, ls: seq<seq<byte>>, cps: seq<Checkpoint>, i: nat)
    requires i < |cps|
  {
    HonestNext(t, ls, PriorOf(cps, i), cps[i])
  }

  ghost predicate HonestChain(t: Trust, ls: seq<seq<byte>>, cps: seq<Checkpoint>) {
    forall i :: 0 <= i < |cps| ==> HonestAt(t, ls, cps, i)
  }

  ghost predicate Honest(t: Trust, entries: seq<Entry>) {
    && Bodies(entries).Some? && Checkpoints(Stamps(entries)).Some?
    && HonestChain(t, Bodies(entries).value, Checkpoints(Stamps(entries)).value)
    && forall s :: s in Stamps(entries) ==> s.cose == "" || FromHex(s.cose).Some?
  }

  lemma {:induction false} SizesGrow(t: Trust, ls: seq<seq<byte>>, cps: seq<Checkpoint>, i: nat, k: nat)
    requires HonestChain(t, ls, cps) && i < k < |cps|
    ensures cps[i].mmrSize <= cps[k].mmrSize
    decreases k
  {
    hide HonestAt, RootAt, LeavesOf;
    HonestStep(t, ls, cps, k);
    if i < k - 1 { SizesGrow(t, ls, cps, i, k - 1); }
  }

  lemma HonestStep(t: Trust, ls: seq<seq<byte>>, cps: seq<Checkpoint>, k: nat)
    requires HonestChain(t, ls, cps) && 0 < k < |cps|
    ensures cps[k].prevSize == cps[k - 1].mmrSize <= cps[k].mmrSize && cps[k].prevRoot == cps[k - 1].root
  {
    hide RootAt, LeavesOf;
    assert HonestAt(t, ls, cps, k);
  }

  lemma LeavesInOrder(a: int, b: int)
    requires LeavesOf(a).Some? && LeavesOf(b).Some? && a <= b
    ensures LeavesOf(a).value <= LeavesOf(b).value
  {
    LeavesOfNodes(a);
    LeavesOfNodes(b);
    if LeavesOf(a).value > LeavesOf(b).value { NodeCountMonotone(LeavesOf(b).value, LeavesOf(a).value); }
  }

  lemma {:induction false} CoseDecodes(stamps: seq<Entry>, size: int)
    requires forall s :: s in stamps ==> s.cose == "" || FromHex(s.cose).Some?
    ensures CoseBytes(CoseBySize(stamps, size)).Some?
  {
    hide FromHex;
    if stamps != [] { CoseDecodes(stamps[1..], size); }
  }

  /** The proof between two honest checkpoints exists and bridges them. */
  lemma HonestProof(t: Trust, ls: seq<seq<byte>>, cps: seq<Checkpoint>, i: nat, top: nat, ns: seq<Digest>)
    requires HonestChain(t, ls, cps) && 0 < i < |cps|
    requires LeavesOf(cps[i].mmrSize).Some? && LeavesOf(cps[i].mmrSize).value <= top <= |ls|
    requires ns == Nodes(t.h(), ls[..top], 0, top, 0)
    ensures var p := BuildProof(ns, cps[i - 1].mmrSize, cps[i].mmrSize);
            && p.Some? && FromHex(cps[i - 1].root).Some? && FromHex(cps[i].root).Some?
            && VerifyConsistency(t.h(), FromHex(cps[i - 1].root).value, cps[i - 1].mmrSize,
                                 FromHex(cps[i].root).value, cps[i].mmrSize, p.value)
  {
    hide VerifyConsistency, BuildProof, Nodes, Root, FromHex, NodeCount, LeavesOf;
    assert HonestAt(t, ls, cps, i - 1) && HonestAt(t, ls, cps, i);
    var a, b := LeavesOf(cps[i - 1].mmrSize).value, LeavesOf(cps[i].mmrSize).value;
    LeavesOfNodes(cps[i - 1].mmrSize);
    LeavesOfNodes(cps[i].mmrSize);
    LeavesInOrder(cps[i - 1].mmrSize, cps[i].mmrSize);
    ConsistencyComplete(t.h(), ls[..top], a, b);
    RootAgree(t.h(), ls, a);
    RootAgree(t.h(), ls, b);
    RootAgree(t.h(), ls[..top], a);
    RootAgree(t.h(), ls[..top], b);
    assert ls[..top][..a] == ls[..a] && ls[..top][..b] == ls[..b];
  }

  /** Every link cut from an honest log is built, and checks out against the link before it. */
  lemma HonestLink(t: Trust, ls: seq<seq<byte>>, cps: seq<Checkpoint>, lo: nat, i: nat, j: Job, top: nat)
    requires HonestChain(t, ls, cps) && lo <= i < |cps|
    requires LeavesOf(cps[i].mmrSize).Some? && LeavesOf(cps[i].mmrSize).value <= top <= |ls|
    requires j.nodes == Nodes(t.h(), ls[..top], 0, top, 0)
    requires forall s :: s in j.stamps ==> s.cose == "" || FromHex(s.cose).Some?
    ensures var prior := if i == lo then None else Some(cps[i - 1]);
            MakeLink(j, prior, cps[i]).Some? && MakeLink(j, prior, cps[i]).value.checkpoint == cps[i]
            && CheckLink(t, prior, MakeLink(j, prior, cps[i]).value) == Good
  {
    hide VerifyConsistency, BuildProof, Nodes, FromHex, CountLabels, Labels, Adjudicated, VerdictRoles, CoseBySize, RootAt;
    assert HonestAt(t, ls, cps, i);
    CoseDecodes(j.stamps, cps[i].mmrSize);
    if i > 0 { assert HonestAt(t, ls, cps, i - 1); }
    if i > lo { HonestProof(t, ls, cps, i, top, j.nodes); }
  }

  /** The links of a run of checkpoints are all built, and each checks out against the one before it. */
  lemma HonestLinks(t: Trust, ls: seq<seq<byte>>, cps: seq<Checkpoint>, lo: nat, hi: nat, j: Job, top: nat)
    requires HonestChain(t, ls, cps) && lo < hi <= |cps|
    requires LeavesOf(cps[hi - 1].mmrSize) == Some(top) && top <= |ls| && j.nodes == Nodes(t.h(), ls[..top], 0, top, 0)
    requires forall s :: s in j.stamps ==> s.cose == "" || FromHex(s.cose).Some?
    ensures MakeLinks(j, cps[lo..hi]).Some?
    ensures var links := MakeLinks(j, cps[lo..hi]).value;
            && CheckpointsOf(links) == cps[lo..hi]
            && forall i :: 0 <= i < |links| ==> CheckAt(t, links, i) == Good
  {
    hide MakeLinks, MakeLink, CheckLink, HonestChain, LeavesOf, Nodes, FromHex, Hasher;
    var chosen := cps[lo..hi];
    MakeLinksAt(j, chosen);
    forall i | 0 <= i < |chosen|
      ensures LinkAt(j, chosen, i).Some? && LinkAt(j, chosen, i).value.checkpoint == chosen[i]
      ensures CheckLink(t, PriorOf(chosen, i), LinkAt(j, chosen, i).value) == Good
    {
      CoveredBelow(t, ls, cps, lo + i, hi - 1);
      HonestLink(t, ls, cps, lo, lo + i, j, top);
    }
    var links := MakeLinks(j, chosen).value;
    forall i | 0 <= i < |links| ensures CheckAt(t, links, i) == Good {}
  }

  /** From an honest log, any run of its checkpoints builds into an accepted segment of exactly them. */
  lemma HonestRun(t: Trust, entries: seq<Entry>, lo: nat, hi: nat, self: Option<string>, classify: Entry -> string, want: bool)
    requires Honest(t, entries) && lo < hi <= |Checkpoints(Stamps(entries)).value|
    ensures var chosen := Checkpoints(Stamps(entries)).value[lo..hi];
            var o := BuildFrom(t.h(), entries, Stamps(entries), chosen, self, classify, want);
            && o.Built? && CheckpointsOf(o.segment.links) == chosen
            && Accepted(t, o.segment.links) && Depth(t, o.segment.links) == hi - lo
  {
    hide MakeLinks, HonestChain, NodeCount, LeavesOf, Bodies, Stamps, Checkpoints, Nodes, Accepted, Depth, FromHex, CheckAt, Hasher;
    var ls, cps := Bodies(entries).value, Checkpoints(Stamps(entries)).value;
    var chosen := cps[lo..hi];
    var top := TopOf(t, entries, hi);
    BodiesPrefix(entries, top);
    NodesShape(t.h(), ls[..top], 0, top, 0);
    LeavesOfNodes(cps[hi - 1].mmrSize);
    var j := Job(t.h(), entries, Stamps(entries), Nodes(t.h(), ls[..top], 0, top, 0), classify, self, want);
    HonestLinks(t, ls, cps, lo, hi, j, top);
    AcceptedIff(t, MakeLinks(j, chosen).value);
  }

  lemma TopOf(t: Trust, entries: seq<Entry>, hi: nat) returns (top: nat)
    requires Honest(t, entries) && 0 < hi <= |Checkpoints(Stamps(entries)).value|
    ensures var size := Checkpoints(Stamps(entries)).value[hi - 1].mmrSize;
            LeavesOf(size) == Some(top) && top <= |Bodies(entries).value|
    ensures |Bodies(entries).value| == |entries|
    ensures Slice(entries, 0, top) == entries[..top]
  {
    hide RootAt, LeavesOf, Bodies, Stamps, Checkpoints;
    var cps := Checkpoints(Stamps(entries)).value;
    assert HonestAt(t, Bodies(entries).value, cps, hi - 1);
    top := LeavesOf(cps[hi - 1].mmrSize).value;
    BodiesPrefix(entries, 0);
  }

  lemma CoveredBelow(t: Trust, ls: seq<seq<byte>>, cps: seq<Checkpoint>, i: nat, k: nat)
    requires HonestChain(t, ls, cps) && i <= k < |cps|
    ensures LeavesOf(cps[i].mmrSize).Some? && LeavesOf(cps[k].mmrSize).Some?
    ensures LeavesOf(cps[i].mmrSize).value <= LeavesOf(cps[k].mmrSize).value
  {
    hide RootAt, LeavesOf;
    assert HonestAt(t, ls, cps, i) && HonestAt(t, ls, cps, k);
    if i < k { SizesGrow(t, ls, cps, i, k); }
    LeavesInOrder(cps[i].mmrSize, cps[k].mmrSize);
  }

  /** COMPLETENESS, last N. An honest log answers `last=N` with its final min(N, all) checkpoints, and
      the answer is accepted to its full depth. */
  lemma LastNAccepted(t: Trust, entries: seq<Entry>, n: int, self: Option<string>, classify: Entry -> string, want: bool)
    requires Honest(t, entries) && Stamps(entries) != [] && n > 0
    ensures var cps := Checkpoints(Stamps(entries)).value;
            var m := if n < |cps| then n else |cps|;
            var o := Build(t.h(), entries, Request(Some(n), None, None), self, classify, want);
            && o.Built? && CheckpointsOf(o.segment.links) == cps[|cps| - m..]
            && Accepted(t, o.segment.links) && Depth(t, o.segment.links) == |o.segment.links| == m
  {
    hide BuildFrom, HonestChain, Accepted, Depth;
    CheckpointCount(Stamps(entries));
    var cps := Checkpoints(Stamps(entries)).value;
    var lo := if n < |cps| then |cps| - n else 0;
    HonestRun(t, entries, lo, |cps|, self, classify, want);
    assert cps[lo..|cps|] == cps[lo..];
  }

  lemma {:induction false} CheckpointCount(stamps: seq<Entry>)
    ensures Checkpoints(stamps).Some? ==> |Checkpoints(stamps).value| == |stamps|
  {
    if stamps != [] { CheckpointCount(stamps[1..]); }
  }

  /** The checkpoints whose size lies between two bounds. */
  function InRange(cps: seq<Checkpoint>, from: int, to: int): seq<Checkpoint> {
    if cps == [] then []
    else
      var last := cps[|cps| - 1];
      InRange(cps[..|cps| - 1], from, to) + if from <= last.mmrSize <= to then [last] else []
  }

  lemma InRangeUnfold(cps: seq<Checkpoint>, from: int, to: int)
    ensures cps == [] ==> InRange(cps, from, to) == []
    ensures cps != [] ==>
      var last := cps[|cps| - 1];
      InRange(cps, from, to) == InRange(cps[..|cps| - 1], from, to) + if from <= last.mmrSize <= to then [last] else []
  {}

  lemma {:induction false} RangeIsSlice(cps: seq<Checkpoint>, lo: nat, hi: nat, from: int, to: int)
    requires lo <= hi <= |cps|
    requires forall i :: 0 <= i < |cps| ==> (from <= cps[i].mmrSize <= to <==> lo <= i < hi)
    ensures InRange(cps, from, to) == cps[lo..hi]
    decreases |cps|
  {
    hide InRange;
    InRangeUnfold(cps, from, to);
    if cps != [] {
      var n := |cps| - 1;
      if hi == |cps| && lo < hi {
        RangeIsSlice(cps[..n], lo, n, from, to);
        assert cps[lo..hi] == cps[..n][lo..n] + [cps[n]];
      } else if hi == |cps| {
        RangeIsSlice(cps[..n], n, n, from, to);
        assert !(from <= cps[n].mmrSize <= to);
      } else {
        RangeIsSlice(cps[..n], lo, hi, from, to);
        assert cps[lo..hi] == cps[..n][lo..hi];
      }
    }
  }

  ghost predicate HasSize(cps: seq<Checkpoint>, size: int) {
    exists i :: 0 <= i < |cps| && cps[i].mmrSize == size
  }

  ghost predicate FirstAt(cps: seq<Checkpoint>, k: nat, size: int) {
    k < |cps| && cps[k].mmrSize == size && forall i :: 0 <= i < k ==> cps[i].mmrSize != size
  }

  ghost predicate LastAt(cps: seq<Checkpoint>, k: nat, size: int) {
    k < |cps| && cps[k].mmrSize == size && forall i :: k < i < |cps| ==> cps[i].mmrSize != size
  }

  /** Sizes that repeat do not hide a boundary: the last checkpoint of the lower size is a copy of the first one of
      that size, and the last checkpoint of the upper size is a copy of no earlier one. Always so when no size
      repeats. */
  ghost predicate BoundariesPlain(cps: seq<Checkpoint>, from: int, to: int) {
    && (from != 0 ==> forall i: nat, k: nat :: FirstAt(cps, i, from) && LastAt(cps, k, from) ==> cps[i] == cps[k])
    && (forall k: nat :: LastAt(cps, k, to) ==> cps[k] !in cps[..k])
  }

  lemma {:induction false} LastOfSize(cps: seq<Checkpoint>, size: int) returns (k: nat)
    requires HasSize(cps, size)
    ensures LastAt(cps, k, size) && BySize(cps, size) == Some(cps[k])
  {
    var n := |cps| - 1;
    if cps[n].mmrSize == size {
      k := n;
    } else {
      var i :| 0 <= i < |cps| && cps[i].mmrSize == size;
      assert cps[..n][i] == cps[i];
      k := LastOfSize(cps[..n], size);
    }
  }

  lemma {:induction false} FirstOfSize(cps: seq<Checkpoint>, size: int, i: nat) returns (k: nat)
    requires i < |cps| && cps[i].mmrSize == size
    ensures FirstAt(cps, k, size) && k <= i
  {
    if j :| 0 <= j < i && cps[j].mmrSize == size { k := FirstOfSize(cps, size, j); } else { k := i; }
  }

  /** Where the lower bound's slice starts: between the first and the last checkpoint of that size, at the first one
      exactly when the two are copies. */
  lemma StartOfSlice(cps: seq<Checkpoint>, size: int) returns (first: nat, last: nat)
    requires HasSize(cps, size)
    ensures FirstAt(cps, first, size) && LastAt(cps, last, size) && BySize(cps, size) == Some(cps[last])
    ensures first <= IndexOf(cps, cps[last]) <= last
    ensures IndexOf(cps, cps[last]) == first <==> cps[first] == cps[last]
  {
    hide BySize;
    last := LastOfSize(cps, size);
    first := FirstOfSize(cps, size, last);
    IndexBounds(cps, last, first);
  }

  lemma IndexBounds(cps: seq<Checkpoint>, k: nat, i: nat)
    requires i <= k < |cps|
    ensures IndexOf(cps, cps[k]) <= k && cps[IndexOf(cps, cps[k])] == cps[k]
    ensures cps[i] == cps[k] ==> IndexOf(cps, cps[k]) <= i
  {
    hide IndexOf;
    var at := IndexOf(cps, cps[k]);
    assert forall m :: 0 <= m < at ==> cps[..at][m] == cps[m];
  }

  /** On a chain of growing sizes both bounds select whenever both name a checkpoint, never out of order, and they
      select the filter by those bounds exactly when no repeated size hides a boundary. */
  lemma SelectSizes(t: Trust, ls: seq<seq<byte>>, cps: seq<Checkpoint>, from: int, to: int)
    requires HonestChain(t, ls, cps) && cps != [] && 0 <= from <= to
    ensures var s := Select(Request(None, Some(from), Some(to)), cps);
            && (s.Chosen? <==> HasSize(cps, to) && (from == 0 || HasSize(cps, from)))
            && (s.Chosen? ==> (cps[s.lo..s.hi] == InRange(cps, from, to) <==> BoundariesPlain(cps, from, to)))
            && (s.Denied? ==> (s.why == BeyondLatest <==> to > cps[|cps| - 1].mmrSize) && s.why != OutOfOrder)
  {
    hide HonestChain, IndexOf, InRange, BoundariesPlain;
    if HasSize(cps, to) {
      var i, e := StartOfSlice(cps, to);
      if e < |cps| - 1 { SizesGrow(t, ls, cps, e, |cps| - 1); }
      if from == 0 {
        SlicesCompare(t, ls, cps, from, to, 0, 0, 0, e);
      } else if HasSize(cps, from) {
        var b, k := StartOfSlice(cps, from);
        if e < k { SizesGrow(t, ls, cps, e, k); }
        SlicesCompare(t, ls, cps, from, to, b, k, IndexOf(cps, cps[k]), e);
      }
    }
  }

  /** `b` is the first index in range, `lo` the selected start, `e` the last checkpoint of the upper size. */
  lemma SlicesCompare(t: Trust, ls: seq<seq<byte>>, cps: seq<Checkpoint>, from: int, to: int, b: nat, k: nat, lo: nat,
                      e: nat)
    requires HonestChain(t, ls, cps) && 0 <= from <= to && e < |cps| && LastAt(cps, e, to)
    requires if from == 0 then b == lo == 0
             else FirstAt(cps, b, from) && LastAt(cps, k, from) && k <= e && lo == IndexOf(cps, cps[k])
                  && b <= lo <= k && (lo == b <==> cps[b] == cps[k])
    ensures lo <= IndexOf(cps, cps[e]) <= e
    ensures cps[lo..IndexOf(cps, cps[e]) + 1] == InRange(cps, from, to) <==> BoundariesPlain(cps, from, to)
  {
    hide HonestChain, IndexOf, InRange, BoundariesPlain, FirstAt, LastAt;
    var end := IndexOf(cps, cps[e]);
    IndexBounds(cps, e, e);
    InRangeIs(t, ls, cps, from, to, b, e);
    IndexOfLast(cps, e);
    PlainMeans(cps, from, to, b, k, e);
    OrderKept(t, ls, cps, from, to, k, lo, e);
    SlicesEqual(cps, lo, end + 1, b, e + 1);
  }

  lemma SlicesEqual<T>(s: seq<T>, lo: nat, hi: nat, b: nat, e: nat)
    requires b <= lo <= hi <= e <= |s|
    ensures s[lo..hi] == s[b..e] <==> lo == b && hi == e
  {
    assert |s[lo..hi]| == hi - lo && |s[b..e]| == e - b;
  }

  lemma PlainMeans(cps: seq<Checkpoint>, from: int, to: int, b: nat, k: nat, e: nat)
    requires LastAt(cps, e, to) && (from != 0 ==> FirstAt(cps, b, from) && LastAt(cps, k, from))
    ensures BoundariesPlain(cps, from, to) <==> (from == 0 || cps[b] == cps[k]) && cps[e] !in cps[..e]
  {
    forall m: nat | LastAt(cps, m, to) ensures m == e {}
    if from != 0 {
      forall i: nat | FirstAt(cps, i, from) ensures i == b {}
      forall m: nat | LastAt(cps, m, from) ensures m == k {}
    }
  }

  lemma OrderKept(t: Trust, ls: seq<seq<byte>>, cps: seq<Checkpoint>, from: int, to: int, k: nat, lo: nat, e: nat)
    requires HonestChain(t, ls, cps) && 0 <= from <= to && LastAt(cps, e, to)
    requires if from == 0 then lo == 0 else LastAt(cps, k, from) && lo == IndexOf(cps, cps[k]) && lo <= k
    ensures lo <= IndexOf(cps, cps[e])
  {
    hide HonestChain, IndexOf;
    var end := IndexOf(cps, cps[e]);
    IndexBounds(cps, e, e);
    if from != 0 {
      if from == to { assert k == e; } else if end <= k { SameOrGrow(t, ls, cps, end, k); }
    }
  }

  lemma SameOrGrow(t: Trust, ls: seq<seq<byte>>, cps: seq<Checkpoint>, i: nat, k: nat)
    requires HonestChain(t, ls, cps) && i <= k < |cps|
    ensures cps[i].mmrSize <= cps[k].mmrSize
  {
    hide HonestChain;
    if i < k { SizesGrow(t, ls, cps, i, k); }
  }

  lemma IndexOfLast(cps: seq<Checkpoint>, e: nat)
    requires e < |cps|
    ensures IndexOf(cps, cps[e]) == e <==> cps[e] !in cps[..e]
  {
    hide IndexOf;
    var at := IndexOf(cps, cps[e]);
    IndexBounds(cps, e, e);
    assert at < e ==> cps[..e][at] == cps[e];
  }

  lemma InRangeIs(t: Trust, ls: seq<seq<byte>>, cps: seq<Checkpoint>, from: int, to: int, b: nat, e: nat)
    requires HonestChain(t, ls, cps) && 0 <= from <= to && LastAt(cps, e, to) && b <= e
    requires if from == 0 then b == 0 else FirstAt(cps, b, from)
    ensures InRange(cps, from, to) == cps[b..e + 1]
  {
    hide HonestChain, InRange;
    forall i | 0 <= i < |cps| ensures from <= cps[i].mmrSize <= to <==> b <= i < e + 1 {
      HonestSize(t, ls, cps, i);
      if i < b { SizesGrow(t, ls, cps, i, b); }
      if b < i { SizesGrow(t, ls, cps, b, i); }
      if i < e { SizesGrow(t, ls, cps, i, e); }
      if e < i { SizesGrow(t, ls, cps, e, i); }
    }
    RangeIsSlice(cps, b, e + 1, from, to);
  }

  ghost predicate DistinctSizes(cps: seq<Checkpoint>) {
    forall i, k :: 0 <= i < k < |cps| ==> cps[i].mmrSize != cps[k].mmrSize
  }

  /** Without repeated sizes the boundaries are plain. */
  lemma DistinctSizesPlain(cps: seq<Checkpoint>, from: int, to: int)
    requires DistinctSizes(cps)
    ensures BoundariesPlain(cps, from, to)
  {
    forall i: nat, k: nat | FirstAt(cps, i, from) && LastAt(cps, k, from) ensures cps[i] == cps[k] {
      assert i == k;
    }
  }

  lemma HonestSize(t: Trust, ls: seq<seq<byte>>, cps: seq<Checkpoint>, i: nat)
    requires HonestChain(t, ls, cps) && i < |cps|
    ensures cps[i].mmrSize >= 0
  {
    assert HonestAt(t, ls, cps, i);
  }

  /** COMPLETENESS, by size. An honest log answers `from_size`/`to_size` exactly when both name a checkpoint (0 names
      the start), and the answer is accepted to its full depth. It holds exactly the checkpoints between the two
      sizes unless a repeated size hides a boundary. */
  lemma SizesAccepted(t: Trust, entries: seq<Entry>, from: int, to: int, self: Option<string>, classify: Entry -> string, want: bool)
    requires Honest(t, entries) && Stamps(entries) != [] && 0 <= from <= to
    ensures var cps := Checkpoints(Stamps(entries)).value;
            var o := Build(t.h(), entries, Request(None, Some(from), Some(to)), self, classify, want);
            && (o.Built? <==> HasSize(cps, to) && (from == 0 || HasSize(cps, from)))
            && (!o.Built? ==> o.Refused? && o.why == if to > cps[|cps| - 1].mmrSize then BeyondLatest else UnknownSize)
            && (o.Built? ==> (CheckpointsOf(o.segment.links) == InRange(cps, from, to) <==> BoundariesPlain(cps, from, to))
                             && Accepted(t, o.segment.links) && Depth(t, o.segment.links) == |o.segment.links|)
  {
    hide BuildFrom, HonestChain, Accepted, Depth, InRange, Select, HasSize, BoundariesPlain;
    CheckpointCount(Stamps(entries));
    var cps := Checkpoints(Stamps(entries)).value;
    SelectSizes(t, Bodies(entries).value, cps, from, to);
    var s := Select(Request(None, Some(from), Some(to)), cps);
    if s.Chosen? { HonestRun(t, entries, s.lo, s.hi, self, classify, want); }
    else { DeniedWhy(cps, from, to); }
  }

  /** On an honest log that repeats no size, two sizes select exactly the checkpoints with a size between them. */
  lemma DistinctSizesAccepted(t: Trust, entries: seq<Entry>, from: int, to: int, self: Option<string>,
                              classify: Entry -> string, want: bool)
    requires Honest(t, entries) && Stamps(entries) != [] && 0 <= from <= to
    requires DistinctSizes(Checkpoints(Stamps(entries)).value)
    ensures var cps := Checkpoints(Stamps(entries)).value;
            var o := Build(t.h(), entries, Request(None, Some(from), Some(to)), self, classify, want);
            && (o.Built? <==> HasSize(cps, to) && (from == 0 || HasSize(cps, from)))
            && (o.Built? ==> CheckpointsOf(o.segment.links) == InRange(cps, from, to) && Accepted(t, o.segment.links))
  {
    hide Build, HonestChain, Accepted, InRange, HasSize, BoundariesPlain, Depth, DistinctSizes;
    DistinctSizesPlain(Checkpoints(Stamps(entries)).value, from, to);
    SizesAccepted(t, entries, from, to, self, classify, want);
  }

  lemma DeniedWhy(cps: seq<Checkpoint>, from: int, to: int)
    requires cps != [] && 0 <= from <= to
    ensures var s := Select(Request(None, Some(from), Some(to)), cps);
            s.Denied? ==> s.why == BeyondLatest || s.why == UnknownSize || s.why == OutOfOrder
  {}

  // ---------------------------------------------------------------- leaf accounting

  function Joined(links: seq<Link>): seq<string> {
    if links == [] then []
    else
      var last := links[|links| - 1];
      Joined(links[..|links| - 1]) + if last.leafDigests.Some? then last.leafDigests.value else []
  }

  function KindSum(links: seq<Link>, k: string): nat {
    if links == [] then 0
    else KindSum(links[..|links| - 1], k) + Get(links[|links| - 1].leafCounts, k)
  }

  ghost function LeafSum(links: seq<Link>): nat {
    if links == [] then 0
    else LeafSum(links[..|links| - 1]) + Total(links[|links| - 1].leafCounts)
  }

  /** Consecutive checkpoints name each other's size, and the first does not run backwards. */
  predicate Chained(cps: seq<Checkpoint>) {
    && (cps != [] ==> cps[0].prevSize <= cps[0].mmrSize)
    && forall i :: 0 < i < |cps| ==> cps[i].prevSize == cps[i - 1].mmrSize
  }

  /** What the links say together about the leaves between the first checkpoint's start and the last one's end. */
  ghost predicate Accounts(links: seq<Link>, leaves: seq<Entry>, classify: Entry -> string, want: bool) {
    && (want ==> Joined(links) == Ids(leaves))
    && (forall k :: KindSum(links, k) == Occurrences(Labels(leaves, classify), k))
    && LeafSum(links) == |leaves|
  }

  lemma AccountsStep(links: seq<Link>, leaves: seq<Entry>, link: Link, own: seq<Entry>, classify: Entry -> string, want: bool)
    requires Accounts(links, leaves, classify, want)
    requires link.leafCounts == CountLabels(Labels(own, classify))
    requires want ==> link.leafDigests == Some(Ids(own))
    ensures Accounts(links + [link], leaves + own, classify, want)
  {
    hide CountLabels, Total;
    var all := links + [link];
    assert all[..|links|] == links;
    CountLabelsExact(Labels(own, classify));
    assert Labels(leaves + own, classify) == Labels(leaves, classify) + Labels(own, classify);
    forall k ensures KindSum(all, k) == Occurrences(Labels(leaves + own, classify), k) {
      OccurrencesAppend(Labels(leaves, classify), Labels(own, classify), k);
      assert Counts(CountLabels(Labels(own, classify)), Labels(own, classify));
      assert Get(link.leafCounts, k) == Occurrences(Labels(own, classify), k);
    }
    if want { assert Ids(leaves + own) == Ids(leaves) + Ids(own); }
  }

  lemma MakeLinksUnfold(j: Job, cps: seq<Checkpoint>)
    requires cps != [] && MakeLinks(j, cps).Some?
    ensures var n := |cps| - 1;
            && MakeLinks(j, cps[..n]).Some? && LinkAt(j, cps, n).Some?
            && MakeLinks(j, cps).value == MakeLinks(j, cps[..n]).value + [LinkAt(j, cps, n).value]
  {
    hide LinkAt;
  }

  lemma ChainedInit(cps: seq<Checkpoint>)
    requires Chained(cps) && |cps| > 1
    ensures Chained(cps[..|cps| - 1]) && cps[|cps| - 1].prevSize == cps[|cps| - 2].mmrSize
  {}

  lemma AccountsExtend(j: Job, links: seq<Link>, link: Link, lo: nat, a: nat, b: nat)
    requires lo <= a <= b <= |j.entries| && Accounts(links, j.entries[lo..a], j.classify, j.wantDigests)
    requires link.leafCounts == CountLabels(Labels(j.entries[a..b], j.classify))
    requires j.wantDigests ==> link.leafDigests == Some(Ids(j.entries[a..b]))
    ensures Accounts(links + [link], j.entries[lo..b], j.classify, j.wantDigests)
  {
    hide Accounts, CountLabels, Labels;
    AccountsStep(links, j.entries[lo..a], link, j.entries[a..b], j.classify, j.wantDigests);
    assert j.entries[lo..a] + j.entries[a..b] == j.entries[lo..b];
  }

  lemma {:induction false} LinksAccount(j: Job, cps: seq<Checkpoint>)
    requires cps != [] && Chained(cps) && MakeLinks(j, cps).Some?
    ensures LeavesOf(cps[0].prevSize).Some? && LeavesOf(cps[|cps| - 1].mmrSize).Some?
    ensures var lo, hi := LeavesOf(cps[0].prevSize).value, LeavesOf(cps[|cps| - 1].mmrSize).value;
            lo <= hi && (hi <= |j.entries| ==> Accounts(MakeLinks(j, cps).value, j.entries[lo..hi], j.classify, j.wantDigests))
    decreases |cps|
  {
    hide LeavesOf, Accounts, MakeLink, MakeLinks, CountLabels, Labels;
    var n := |cps| - 1;
    MakeLinksUnfold(j, cps);
    var link := LinkAt(j, cps, n).value;
    if n > 0 { ChainedInit(cps); }
    LinkMeans(j, PriorOf(cps, n), cps[n]);
    var a, b := LeavesOf(cps[n].prevSize).value, LeavesOf(cps[n].mmrSize).value;
    LeavesInOrder(cps[n].prevSize, cps[n].mmrSize);
    if n == 0 {
      MakeNone(j);
      assert cps[..0] == [];
      NothingAccounts(j.classify, j.wantDigests);
      if b <= |j.entries| {
        assert j.entries[a..a] == [];
        AccountsExtend(j, [], link, a, a, b);
      }
    } else {
      LinksAccount(j, cps[..n]);
      if b <= |j.entries| {
        AccountsExtend(j, MakeLinks(j, cps[..n]).value, link, LeavesOf(cps[0].prevSize).value, a, b);
      }
    }
  }

  lemma MakeNone(j: Job)
    ensures MakeLinks(j, []) == Some([])
  {}

  lemma NothingAccounts(classify: Entry -> string, want: bool)
    ensures Accounts([], [], classify, want)
  {
    assert Labels([], classify) == [] && Ids([]) == [];
  }

  lemma LinkMeans(j: Job, prior: Option<Checkpoint>, cp: Checkpoint)
    requires MakeLink(j, prior, cp).Some?
    requires prior.Some? ==> cp.prevSize == prior.value.mmrSize
    requires prior.None? ==> cp.prevSize <= cp.mmrSize
    ensures cp.prevSize <= cp.mmrSize && LeavesOf(cp.prevSize).Some? && LeavesOf(cp.mmrSize).Some?
    ensures var a, b, link := LeavesOf(cp.prevSize).value, LeavesOf(cp.mmrSize).value, MakeLink(j, prior, cp).value;
            a <= b <= |j.entries| ==>
              && link.leafCounts == CountLabels(Labels(j.entries[a..b], j.classify))
              && (j.wantDigests ==> link.leafDigests == Some(Ids(j.entries[a..b])))
  {
    hide CountLabels, Labels, Adjudicated, VerdictRoles, CoseBySize, LeafCount;
  }

  /** A built segment covers no leaf past the end of the log. */
  lemma BuiltFrom(h: Hash, entries: seq<Entry>, chosen: seq<Checkpoint>, self: Option<string>, classify: Entry -> string, want: bool)
    returns (j: Job)
    requires chosen != [] && BuildFrom(h, entries, Stamps(entries), chosen, self, classify, want).Built?
    ensures j.entries == entries && j.stamps == Stamps(entries) && j.classify == classify && j.wantDigests == want
    ensures MakeLinks(j, chosen) == Some(BuildFrom(h, entries, Stamps(entries), chosen, self, classify, want).segment.links)
    ensures LeavesOf(chosen[|chosen| - 1].mmrSize).Some? && LeavesOf(chosen[|chosen| - 1].mmrSize).value <= |entries|
  {
    hide MakeLinks, LeavesOf, Bodies, Nodes, NodeCount;
    var size := chosen[|chosen| - 1].mmrSize;
    var covered := Slice(entries, 0, LeavesOf(size).value);
    var ls := Bodies(covered).value;
    BodiesPrefix(covered, 0);
    NodesShape(h, ls, 0, |ls|, 0);
    LeavesOfNodes(size);
    NodeCountInjective(|ls|, LeavesOf(size).value);
    j := Job(h, entries, Stamps(entries), Nodes(h, ls, 0, |ls|, 0), classify, self, want);
  }

  /** The links account for the log's slice from the first checkpoint's previous size to the last one's size. */
  ghost predicate SliceAccounted(entries: seq<Entry>, links: seq<Link>, classify: Entry -> string, want: bool) {
    && links != []
    && LeavesOf(links[0].checkpoint.prevSize).Some? && LeavesOf(links[|links| - 1].checkpoint.mmrSize).Some?
    && var lo, hi := LeavesOf(links[0].checkpoint.prevSize).value, LeavesOf(links[|links| - 1].checkpoint.mmrSize).value;
    lo <= hi <= |entries| && Accounts(links, entries[lo..hi], classify, want)
  }

  /** LEAF ACCOUNTING. Over any chained segment the builder returns, honest log or not, the links' leaf
      digests concatenate to the log's own slice, and per kind and in total no leaf is lost or counted
      twice. */
  lemma SegmentAccounts(h: Hash, entries: seq<Entry>, r: Request, self: Option<string>, classify: Entry -> string, want: bool)
    requires Build(h, entries, r, self, classify, want).Built?
    requires Chained(CheckpointsOf(Build(h, entries, r, self, classify, want).segment.links))
    ensures SliceAccounted(entries, Build(h, entries, r, self, classify, want).segment.links, classify, want)
  {
    hide BuildFrom, Stamps, LeavesOf, Accounts, MakeLinks, MakeLink, Select;
    var s := Select(r, Checkpoints(Stamps(entries)).value);
    var chosen := Checkpoints(Stamps(entries)).value[s.lo..s.hi];
    var j := BuiltFrom(h, entries, chosen, self, classify, want);
    MakeLinksAt(j, chosen);
    LinkCheckpoints(j, chosen);
    LinksAccount(j, chosen);
  }

  /** Over every honest log every segment is chained, so every segment accounts for its leaves. */
  lemma HonestSegmentAccounts(t: Trust, entries: seq<Entry>, r: Request, self: Option<string>,
                              classify: Entry -> string, want: bool)
    requires Honest(t, entries) && Build(t.h(), entries, r, self, classify, want).Built?
    ensures SliceAccounted(entries, Build(t.h(), entries, r, self, classify, want).segment.links, classify, want)
  {
    hide BuildFrom, Stamps, Checkpoints, LeavesOf, SliceAccounted, MakeLinks, MakeLink, Select, HonestChain, Chained, Bodies;
    var cps := Checkpoints(Stamps(entries)).value;
    var s := Select(r, cps);
    var chosen := cps[s.lo..s.hi];
    var j := BuiltFrom(t.h(), entries, chosen, self, classify, want);
    LinkCheckpoints(j, chosen);
    HonestChained(t, Bodies(entries).value, cps, s.lo, s.hi);
    SegmentAccounts(t.h(), entries, r, self, classify, want);
  }

  lemma HonestChained(t: Trust, ls: seq<seq<byte>>, cps: seq<Checkpoint>, lo: nat, hi: nat)
    requires HonestChain(t, ls, cps) && lo < hi <= |cps|
    ensures Chained(cps[lo..hi])
  {
    hide RootAt, LeavesOf, FromHex;
    assert HonestAt(t, ls, cps, lo);
    forall i | 0 < i < hi - lo ensures cps[lo..hi][i].prevSize == cps[lo..hi][i - 1].mmrSize {
      assert HonestAt(t, ls, cps, lo + i);
    }
  }

  // ---------------------------------------------------------------- the shipped vocabulary

  lemma {:induction false} StampsSnoc(es: seq<Entry>, e: Entry)
    ensures Stamps(es + [e]) == Stamps(es) + if e.kind == STAMP_KIND then [e] else []
  {
    hide Stamps;
    StampsUnfold(es + [e]);
    if es == [] {
      assert es + [e] == [e] && [e][1..] == [];
      StampsNone();
    } else {
      assert (es + [e])[1..] == es[1..] + [e];
      StampsSnoc(es[1..], e);
      StampsUnfold(es);
    }
  }

  lemma StampsUnfold(es: seq<Entry>)
    requires es != []
    ensures Stamps(es) == (if es[0].kind == STAMP_KIND then [es[0]] else []) + Stamps(es[1..])
  {}

  lemma StampsNone()
    ensures Stamps([]) == []
  {}

  /** How many entries have the kind "stamp" itself, which the shipped classifier passes through. */
  function LiteralStamps(es: seq<Entry>): nat {
    if es == [] then 0
    else LiteralStamps(es[..|es| - 1]) + if es[|es| - 1].kind == "stamp" then 1 else 0
  }

  lemma {:induction false} LiteralNone(es: seq<Entry>)
    ensures LiteralStamps(es) == 0 <==> forall e :: e in es ==> e.kind != "stamp"
  {
    if es != [] {
      LiteralNone(es[..|es| - 1]);
      assert es == es[..|es| - 1] + [es[|es| - 1]];
    }
  }

  lemma {:induction false} StampLabels(es: seq<Entry>)
    ensures Occurrences(Labels(es, DefaultClassify), "stamp") == |Stamps(es)| + LiteralStamps(es)
  {
    hide Stamps;
    if es == [] {
      StampsNone();
    } else {
      var init, last := es[..|es| - 1], es[|es| - 1];
      assert es == init + [last];
      StampLabels(init);
      StampsSnoc(init, last);
      assert Labels(es, DefaultClassify)[..|es| - 1] == Labels(init, DefaultClassify);
      LabelNames();
    }
  }

  lemma LabelNames()
    ensures STAMP_KIND != "stamp" && ADJUDICATION != "stamp" && "capsule" != "stamp" && "" != "stamp"
  {}

  /** Under the shipped classifier the stamps a segment tallies are exactly the checkpoint stamps among its leaves,
      unless some entry carries the kind "stamp" literally. */
  lemma StampsTallied(t: Trust, entries: seq<Entry>, r: Request, self: Option<string>, want: bool)
    requires Honest(t, entries) && Build(t.h(), entries, r, self, DefaultClassify, want).Built?
    ensures
      var links := Build(t.h(), entries, r, self, DefaultClassify, want).segment.links;
      && SliceAccounted(entries, links, DefaultClassify, want)
      && var lo, hi := LeavesOf(links[0].checkpoint.prevSize).value, LeavesOf(links[|links| - 1].checkpoint.mmrSize).value;
      KindSum(links, "stamp") == |Stamps(entries[lo..hi])| <==> forall e :: e in entries[lo..hi] ==> e.kind != "stamp"
  {
    hide Build, Honest, LeavesOf, Stamps, KindSum, LeafSum, Joined, DefaultClassify, Labels, Occurrences;
    HonestSegmentAccounts(t, entries, r, self, DefaultClassify, want);
    var links := Build(t.h(), entries, r, self, DefaultClassify, want).segment.links;
    var lo, hi := LeavesOf(links[0].checkpoint.prevSize).value, LeavesOf(links[|links| - 1].checkpoint.mmrSize).value;
    StampLabels(entries[lo..hi]);
    LiteralNone(entries[lo..hi]);
  }

  // ---------------------------------------------------------------- adjudications

  lemma {:induction false} AdjudicatedCount(es: seq<Entry>, classify: Entry -> string)
    ensures |Adjudicated(es, classify)| == Occurrences(Labels(es, classify), ADJUDICATION)
    ensures forall e :: e in Adjudicated(es, classify) ==> e in es && classify(e) == ADJUDICATION
  {
    if es != [] {
      var init := es[..|es| - 1];
      AdjudicatedCount(init, classify);
      assert Labels(es, classify)[..|es| - 1] == Labels(init, classify);
      assert es == init + [es[|es| - 1]];
    }
  }

  ghost predicate ValidAdjudication(e: Entry) {
    VerdictOf(e).Some? && ValidVerdict(VerdictOf(e).value)
  }

  /** A link splits its adjudications by verdict exactly when it covers one; the split never exceeds their count, and
      meets it when all verdicts are valid. */
  ghost predicate SplitConsistent(l: Link, valid: bool) {
    && (l.adjudication.Some? <==> ADJUDICATION in l.leafCounts)
    && (l.adjudication.Some? ==> Total(l.adjudication.value) <= l.leafCounts[ADJUDICATION])
    && (l.adjudication.Some? && valid ==> Total(l.adjudication.value) == l.leafCounts[ADJUDICATION])
  }

  lemma LinkSplits(j: Job, prior: Option<Checkpoint>, cp: Checkpoint, valid: bool)
    requires MakeLink(j, prior, cp).Some?
    requires valid ==> forall e :: e in j.entries && j.classify(e) == ADJUDICATION ==> ValidAdjudication(e)
    ensures SplitConsistent(MakeLink(j, prior, cp).value, valid)
  {
    hide CountLabels, Labels, Adjudicated, VerdictRoles, CoseBySize, BuildProof, Total, Occurrences, LeavesOf;
    var own := OwnLeaves(j, cp).value;
    var adjudications := Adjudicated(own, j.classify);
    CountLabelsExact(Labels(own, j.classify));
    assert Get(CountLabels(Labels(own, j.classify)), ADJUDICATION) == Occurrences(Labels(own, j.classify), ADJUDICATION);
    AdjudicatedCount(own, j.classify);
    BucketsSum(adjudications, j.self);
    assert forall e :: e in own ==> e in j.entries;
  }

  /** In every segment the builder returns, every link's verdict split fits the adjudications it counts. */
  lemma SegmentSplits(h: Hash, entries: seq<Entry>, r: Request, self: Option<string>, classify: Entry -> string,
                      want: bool, valid: bool)
    requires Build(h, entries, r, self, classify, want).Built?
    requires valid ==> forall e :: e in entries && classify(e) == ADJUDICATION ==> ValidAdjudication(e)
    ensures forall l :: l in Build(h, entries, r, self, classify, want).segment.links ==> SplitConsistent(l, valid)
  {
    hide BuildFrom, Stamps, MakeLinks, MakeLink, Select, SplitConsistent, ValidAdjudication;
    var s := Select(r, Checkpoints(Stamps(entries)).value);
    var chosen := Checkpoints(Stamps(entries)).value[s.lo..s.hi];
    var j := BuiltFrom(h, entries, chosen, self, classify, want);
    MakeLinksAt(j, chosen);
    var links := Build(h, entries, r, self, classify, want).segment.links;
    forall l | l in links ensures SplitConsistent(l, valid) {
      var i :| 0 <= i < |links| && links[i] == l;
      LinkSplits(j, PriorOf(chosen, i), chosen[i], valid);
    }
  }

  lemma LinkCheckpoints(j: Job, cps: seq<Checkpoint>)
    requires MakeLinks(j, cps).Some?
    ensures CheckpointsOf(MakeLinks(j, cps).value) == cps
  {
    hide MakeLinks, CountLabels, Labels, Adjudicated, VerdictRoles, BuildProof;
    MakeLinksAt(j, cps);
  }
}
