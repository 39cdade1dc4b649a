/** Logs and segments on which the checkpoint chain does not do what is said of it. */
module ChainExamples {
  import opened Bytes
  import opened JsonData
  import opened Mmr
  import opened Consistency
  import opened ChainVerify
  import opened ChainBuild
  import opened ChainHistory
  import opened ChainWriter
  import opened ChainSerial

  // ---------------------------------------------------------------- a walk that raises

  function At1(root: string, prevRoot: string, size: int, prevSize: int): Checkpoint {
    Checkpoint("log", size, root, prevSize, prevRoot, "", "", "", [])
  }

  /** Two signed checkpoints that chain and carry a proof, the first with a root that is no hexadecimal. */
  function BadRootLinks(p: ConsistencyProof): seq<Link> {
    [Link(At1("zz", "", 1, 0), None, None, map[], None, None),
     Link(At1("00", "zz", 3, 1), Some(p), None, map[], None, None)]
  }

  /** On that segment the walk raises instead of returning a result. */
  lemma WalkRaises(t: Trust, p: ConsistencyProof)
    requires forall cp :: t.signed(cp)
    ensures Verdict(t, BadRootLinks(p)).Raised?
  {
    hide VerifyConsistency;
    var links := BadRootLinks(p);
    assert FromHex("zz").None?;
    assert CheckAt(t, links, 0) == Good && CheckAt(t, links, 1) == Raises;
    DepthUnique(t, links, 0, 1);
  }

  // ---------------------------------------------------------------- honest logs of one record

  /** A record of the log. */
  function RecordOf(body: seq<byte>): Entry {
    Entry(ToHex(body), "", None, "", "", None)
  }

  /** A checkpoint stamp over the log's first record. */
  function StampOf(body: seq<byte>, cp: Checkpoint, cose: string): Entry {
    Entry(ToHex(body), STAMP_KIND, Some(cp), cose, "", None)
  }

  /** The checkpoint over the one record `body`, after a prior one or as the first. */
  function OneLeaf(t: Trust, body: seq<byte>, time: string, prior: Option<Checkpoint>): Checkpoint {
    Checkpoint("log", 1, ToHex(Root(t.h(), [body])), if prior.Some? then 1 else 0,
               if prior.Some? then prior.value.root else "", "", time, "", [])
  }

  lemma OneLeafSizes()
    ensures LeavesOf(0) == Some(0) && LeavesOf(1) == Some(1)
  {
    NodeCountZero();
    assert PopCount(1) == 1 && NodeCount(1) == 1;
    LeafCountInverse(0, 0);
    LeafCountInverse(1, 1);
  }

  lemma OneRecordHonest(t: Trust, body: seq<byte>)
    ensures Honest(t, [RecordOf(body)]) && Bodies([RecordOf(body)]) == Some([body])
    ensures Stamps([RecordOf(body)]) == [] && Checkpoints([]) == Some([])
  {
    hide ToHex, FromHex, Honest, Bodies, Stamps, Checkpoints;
    HexRoundTrip(body);
    NothingWritten(t);
    EmptyLog(t);
    var e := RecordOf(body);
    KindsDiffer();
    WriteKeepsHonest(t, [], e);
    BodiesSnoc([], e);
    StampsSnoc([], e);
    assert [] + [e] == [e] && [] + [body] == [body];
  }

  lemma KindsDiffer()
    ensures "" != STAMP_KIND
  {}

  lemma EmptyLog(t: Trust)
    ensures Bodies([]) == Some([]) && Stamps([]) == [] && Checkpoints([]) == Some([])
  {}

  lemma StampHonest(t: Trust, entries: seq<Entry>, body: seq<byte>, ls: seq<seq<byte>>, cps: seq<Checkpoint>,
                    stamp: seq<byte>, cp: Checkpoint, cose: string)
    requires Honest(t, entries) && Bodies(entries) == Some(ls) && ls != [] && ls[0] == body
    requires Checkpoints(Stamps(entries)) == Some(cps)
    requires t.signed(cp) && (cps == [] || cps[|cps| - 1].mmrSize == 1)
    requires cp == OneLeaf(t, body, cp.timestamp, if cps == [] then None else Some(cps[|cps| - 1]))
    requires cose == "" || FromHex(cose).Some?
    ensures var e := StampOf(stamp, cp, cose);
            && Honest(t, entries + [e]) && Bodies(entries + [e]) == Some(ls + [stamp])
            && Stamps(entries + [e]) == Stamps(entries) + [e]
            && Checkpoints(Stamps(entries + [e])) == Some(cps + [cp])
  {
    hide ToHex, FromHex, Honest, Bodies, Stamps, Checkpoints, Root, RootAt, LeavesOf;
    var e := StampOf(stamp, cp, cose);
    HexRoundTrip(stamp);
    HexRoundTrip(Root(t.h(), [body]));
    OneLeafSizes();
    RootAgree(t.h(), ls, 1);
    assert ls[..1] == [body];
    WriteKeepsHonest(t, entries, e);
    BodiesSnoc(entries, e);
    StampsSnoc(entries, e);
    CheckpointsSnoc(Stamps(entries), e);
  }

  /** One record and its first stamp. */
  lemma OneStampHonest(t: Trust, body: seq<byte>, stamp: seq<byte>, time: string, cose: string)
    requires forall cp :: t.signed(cp)
    requires cose == "" || FromHex(cose).Some?
    ensures
      var cp := OneLeaf(t, body, time, None);
      var log := [RecordOf(body)] + [StampOf(stamp, cp, cose)];
      && Honest(t, log) && Bodies(log) == Some([body, stamp]) && Stamps(log) == [StampOf(stamp, cp, cose)]
      && Checkpoints(Stamps(log)) == Some([cp])
  {
    hide ToHex, FromHex, Honest, Bodies, Stamps, Checkpoints, Root;
    var cp := OneLeaf(t, body, time, None);
    var e := StampOf(stamp, cp, cose);
    OneRecordHonest(t, body);
    StampHonest(t, [RecordOf(body)], body, [body], [], stamp, cp, cose);
    assert [] + [e] == [e] && [] + [cp] == [cp] && [body] + [stamp] == [body, stamp];
  }

  // ---------------------------------------------------------------- a segment that does not come back

  lemma BlankText()
    ensures FromHex(" ") == Some([]) && AllBlank(" ") && " " != ""
  {
    assert " "[1..] == "";
  }

  function BlankCoseLog(t: Trust, body: seq<byte>, stamp: seq<byte>): seq<Entry> {
    [RecordOf(body)] + [StampOf(stamp, OneLeaf(t, body, "1", None), " ")]
  }

  /** An honest log whose stamp has the COSE text " ": its segment is built, and does not come back from JSON. */
  lemma BlankCoseLost(c: Codec, t: Trust, body: seq<byte>, stamp: seq<byte>, self: Option<string>,
                      classify: Entry -> string, want: bool)
    requires Inverse(c) && forall cp :: t.signed(cp)
    ensures Honest(t, BlankCoseLog(t, body, stamp))
    ensures var o := Build(t.h(), BlankCoseLog(t, body, stamp), Request(Some(1), None, None), self, classify, want);
            && o.Built? && Accepted(t, o.segment.links)
            && SegmentFromJson(c, SegmentToJson(c, o.segment)) != Some(o.segment)
  {
    hide ToHex, FromHex, Honest, Bodies, Stamps, Checkpoints, Inverse, BuildFrom, SegmentFromJson, SegmentToJson, Accepted, Root, AllBlank;
    var entries, cp := BlankCoseLog(t, body, stamp), OneLeaf(t, body, "1", None);
    var e := StampOf(stamp, cp, " ");
    BlankText();
    OneStampHonest(t, body, stamp, "1", " ");
    LastNAccepted(t, entries, 1, self, classify, want);
    var chosen := [cp];
    assert chosen[0..1] == chosen;
    CoseOfOne(e);
    BuiltSegmentRoundTrip(c, t.h(), entries, chosen, self, classify, want);
    assert cp in chosen;
  }

  lemma CoseOfOne(e: Entry)
    requires e.checkpoint.Some?
    ensures CoseBySize([e], e.checkpoint.value.mmrSize) == e.cose
  {
    assert [e][1..] == [] && CoseBySize([], e.checkpoint.value.mmrSize) == "";
  }

  // ---------------------------------------------------------------- a repeated size

  function RepeatedLog(t: Trust, body: seq<byte>, stamp: seq<byte>): seq<Entry> {
    var first := OneLeaf(t, body, "1", None);
    [RecordOf(body)] + [StampOf(stamp, first, "")] + [StampOf(stamp, OneLeaf(t, body, "2", Some(first)), "")]
  }

  lemma TwoStampsHonest(t: Trust, body: seq<byte>, stamp: seq<byte>)
    requires forall cp :: t.signed(cp)
    ensures
      var first := OneLeaf(t, body, "1", None);
      var second := OneLeaf(t, body, "2", Some(first));
      && Honest(t, RepeatedLog(t, body, stamp)) && Stamps(RepeatedLog(t, body, stamp)) != []
      && Checkpoints(Stamps(RepeatedLog(t, body, stamp))) == Some([first, second])
  {
    hide ToHex, FromHex, Honest, Bodies, Stamps, Checkpoints, Root;
    var first := OneLeaf(t, body, "1", None);
    var second := OneLeaf(t, body, "2", Some(first));
    var one, two := StampOf(stamp, first, ""), StampOf(stamp, second, "");
    OneStampHonest(t, body, stamp, "1", "");
    StampHonest(t, [RecordOf(body)] + [one], body, [body, stamp], [first], stamp, second, "");
    assert [first] + [second] == [first, second];
  }

  /** An honest log with two checkpoints of one size: asking for that size at both ends is answered and accepted, but
      with the later checkpoint only. */
  lemma RepeatedSizeHides(t: Trust, body: seq<byte>, stamp: seq<byte>, self: Option<string>, classify: Entry -> string,
                          want: bool)
    requires forall cp :: t.signed(cp)
    ensures Honest(t, RepeatedLog(t, body, stamp))
    ensures
      var entries := RepeatedLog(t, body, stamp);
      var first := OneLeaf(t, body, "1", None);
      var second := OneLeaf(t, body, "2", Some(first));
      var cps := Checkpoints(Stamps(entries)).value;
      var o := Build(t.h(), entries, Request(None, Some(1), Some(1)), self, classify, want);
      && o.Built? && Accepted(t, o.segment.links)
      && CheckpointsOf(o.segment.links) == [second] && InRange(cps, 1, 1) == [first, second]
      && !BoundariesPlain(cps, 1, 1)
  {
    hide ToHex, FromHex, Honest, Bodies, Stamps, Checkpoints, BuildFrom, Accepted, Root, BoundariesPlain, CheckpointsOf;
    var first := OneLeaf(t, body, "1", None);
    var second := OneLeaf(t, body, "2", Some(first));
    var entries := RepeatedLog(t, body, stamp);
    TwoStampsHonest(t, body, stamp);
    assert "1"[0] != "2"[0];
    SelectsLater(first, second);
    HonestRun(t, entries, 1, 2, self, classify, want);
    assert [first, second][1..2] == [second];
    SizesAccepted(t, entries, 1, 1, self, classify, want);
  }

  lemma SelectsLater(a: Checkpoint, b: Checkpoint)
    requires a.mmrSize == b.mmrSize == 1 && a != b
    ensures Select(Request(None, Some(1), Some(1)), [a, b]) == Chosen(1, 2)
    ensures InRange([a, b], 1, 1) == [a, b]
  {
    var cps := [a, b];
    assert BySize(cps, 1) == Some(b);
    assert cps[1..] == [b] && IndexOf([b], b) == 0;
    assert cps[..1] == [a] && cps[0..2] == cps;
    RangeIsSlice(cps, 0, 2, 1, 1);
  }
}
