/** Honest logs are the logs an honest writer writes: records and checkpoint stamps, one after another. */
module ChainWriter {
  import opened Bytes
  import opened Mmr
  import opened Consistency
  import opened ChainVerify
  import opened ChainBuild
  import opened ChainHistory

  /** The checkpoint an honest writer may stamp now. */
  ghost predicate MayStamp(t: Trust, ls: seq<seq<byte>>, cps: seq<Checkpoint>, cp: Checkpoint) {
    HonestNext(t, ls, if cps == [] then None else Some(cps[|cps| - 1]), cp)
  }

  /** What may be written next to an honest log. */
  ghost predicate MayWrite(t: Trust, entries: seq<Entry>, e: Entry)
    requires Honest(t, entries)
  {
    FromHex(e.id).Some?
    && (e.kind == STAMP_KIND ==>
          && (e.cose == "" || FromHex(e.cose).Some?) && e.checkpoint.Some?
          && MayStamp(t, Bodies(entries).value, Checkpoints(Stamps(entries)).value, e.checkpoint.value))
  }

  lemma {:induction false} CheckpointsSnoc(stamps: seq<Entry>, s: Entry)
    requires Checkpoints(stamps).Some? && s.checkpoint.Some?
    ensures Checkpoints(stamps + [s]) == Some(Checkpoints(stamps).value + [s.checkpoint.value])
  {
    if stamps == [] {
      var none: seq<Checkpoint> := [];
      assert stamps + [s] == [s] && [s][1..] == [] && Checkpoints([]) == Some(none);
      assert [s.checkpoint.value] + none == none + [s.checkpoint.value];
    } else {
      assert (stamps + [s])[1..] == stamps[1..] + [s];
      CheckpointsSnoc(stamps[1..], s);
      var rest := Checkpoints(stamps[1..]).value;
      assert [stamps[0].checkpoint.value] + (rest + [s.checkpoint.value])
          == [stamps[0].checkpoint.value] + rest + [s.checkpoint.value];
    }
  }

  lemma BodiesSnoc(es: seq<Entry>, e: Entry)
    requires Bodies(es).Some? && FromHex(e.id).Some?
    ensures Bodies(es + [e]) == Some(Bodies(es).value + [FromHex(e.id).value])
  {
    hide FromHex;
    assert (es + [e])[..|es|] == es;
  }

  /** Later leaves change no earlier root. */
  lemma RootStays(h: Hash, ls: seq<seq<byte>>, b: seq<byte>, n: nat)
    requires n <= |ls|
    ensures RootAt(h, ls + [b], n) == RootAt(h, ls, n)
  {
    hide RootAt, Root;
    RootAgree(h, ls, n);
    RootAgree(h, ls + [b], n);
    assert (ls + [b])[..n] == ls[..n];
  }

  lemma ChainGrows(t: Trust, ls: seq<seq<byte>>, b: seq<byte>, cps: seq<Checkpoint>)
    requires HonestChain(t, ls, cps)
    ensures HonestChain(t, ls + [b], cps)
  {
    hide RootAt, LeavesOf, FromHex;
    forall i | 0 <= i < |cps| ensures HonestAt(t, ls + [b], cps, i) {
      assert HonestAt(t, ls, cps, i);
      RootStays(t.h(), ls, b, LeavesOf(cps[i].mmrSize).value);
    }
  }

  lemma ChainSnoc(t: Trust, ls: seq<seq<byte>>, cps: seq<Checkpoint>, cp: Checkpoint)
    requires HonestChain(t, ls, cps) && MayStamp(t, ls, cps, cp)
    ensures HonestChain(t, ls, cps + [cp])
  {
    hide RootAt, LeavesOf, FromHex;
    var more := cps + [cp];
    forall i | 0 <= i < |more| ensures HonestAt(t, ls, more, i) {
      if i < |cps| { assert HonestAt(t, ls, cps, i); }
    }
  }

  /** Every permitted write keeps the log honest. */
  lemma WriteKeepsHonest(t: Trust, entries: seq<Entry>, e: Entry)
    requires Honest(t, entries) && MayWrite(t, entries, e)
    ensures Honest(t, entries + [e])
  {
    hide HonestChain, MayStamp, Bodies, Stamps, Checkpoints, FromHex;
    var ls, cps, b := Bodies(entries).value, Checkpoints(Stamps(entries)).value, FromHex(e.id).value;
    StampsSnoc(entries, e);
    BodiesSnoc(entries, e);
    if e.kind == STAMP_KIND {
      CheckpointsSnoc(Stamps(entries), e);
      ChainSnoc(t, ls, cps, e.checkpoint.value);
      ChainGrows(t, ls, b, cps + [e.checkpoint.value]);
    } else {
      ChainGrows(t, ls, b, cps);
      assert Stamps(entries) + [] == Stamps(entries);
    }
  }

  lemma NothingWritten(t: Trust)
    ensures Honest(t, [])
  {
    hide RootAt, LeavesOf;
    assert Checkpoints([]) == Some([]) && Bodies([]) == Some([]);
  }

  /** A log written from nothing by permitted writes. */
  ghost predicate Written(t: Trust, entries: seq<Entry>) {
    entries == []
    || (Written(t, entries[..|entries| - 1]) && Honest(t, entries[..|entries| - 1])
        && MayWrite(t, entries[..|entries| - 1], entries[|entries| - 1]))
  }

  lemma WrittenHonest(t: Trust, entries: seq<Entry>)
    requires Written(t, entries)
    ensures Honest(t, entries)
  {
    hide Honest, MayWrite;
    if entries == [] {
      NothingWritten(t);
    } else {
      var n := |entries| - 1;
      WriteKeepsHonest(t, entries[..n], entries[n]);
      assert entries == entries[..n] + [entries[n]];
    }
  }

  /** Whatever such a writer wrote, any depth asked for is answered and accepted. */
  lemma WrittenLogAccepted(t: Trust, entries: seq<Entry>, n: int, self: Option<string>, classify: Entry -> string,
                           want: bool)
    requires Written(t, entries) && Stamps(entries) != [] && n > 0
    ensures var o := Build(t.h(), entries, Request(Some(n), None, None), self, classify, want);
            o.Built? && Accepted(t, o.segment.links)
  {
    hide Build, Accepted, Stamps, Honest;
    WrittenHonest(t, entries);
    LastNAccepted(t, entries, n, self, classify, want);
  }

  /** Whatever such a writer wrote, two sizes are answered exactly when both name a checkpoint, and accepted. */
  lemma WrittenSizesAccepted(t: Trust, entries: seq<Entry>, from: int, to: int, self: Option<string>,
                             classify: Entry -> string, want: bool)
    requires Written(t, entries) && Stamps(entries) != [] && 0 <= from <= to
    ensures Honest(t, entries)
    ensures var cps := Checkpoints(Stamps(entries)).value;
            var o := Build(t.h(), entries, Request(None, Some(from), Some(to)), self, classify, want);
            && (o.Built? <==> HasSize(cps, to) && (from == 0 || HasSize(cps, from)))
            && (o.Built? ==> Accepted(t, o.segment.links)
                             && (CheckpointsOf(o.segment.links) == InRange(cps, from, to) <==> BoundariesPlain(cps, from, to)))
  {
    hide Build, Accepted, Stamps, Checkpoints, BoundariesPlain, InRange, HasSize, HonestChain;
    WrittenHonest(t, entries);
    SizesAccepted(t, entries, from, to, self, classify, want);
  }

  /** Whatever such a writer wrote, every segment cut from it accounts for every leaf it covers. */
  lemma WrittenSegmentAccounts(t: Trust, entries: seq<Entry>, r: Request, self: Option<string>,
                               classify: Entry -> string, want: bool)
    requires Written(t, entries) && Build(t.h(), entries, r, self, classify, want).Built?
    ensures SliceAccounted(entries, Build(t.h(), entries, r, self, classify, want).segment.links, classify, want)
  {
    hide Build, Honest, SliceAccounted;
    WrittenHonest(t, entries);
    HonestSegmentAccounts(t, entries, r, self, classify, want);
  }
}
