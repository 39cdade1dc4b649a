/** Selecting a bundle's records by scanning a log page by page while it may be growing. */
module LogScan {
  import opened Bytes

  // ---------------------------------------------------------------- scope

  /** A record as the scan reads it; the empty string stands for an absent or empty field. */
  datatype Capsule = Capsule(
    capsuleId: string, servingExchange: string, settlementExchange: string,
    servedBy: string, requesting: string, timestamp: string)

  /** The scope options; the empty string stands for an option not given. */
  datatype Args = Args(all: bool, record: string, exchange: string, peer: string, since: string, until: string)

  function ExchangeId(c: Capsule): string {
    if c.servingExchange != "" then c.servingExchange else c.settlementExchange
  }

  function Peers(c: Capsule): set<string> {
    {c.servedBy, c.requesting} - {""}
  }

  /** Python's order on strings. */
  predicate AtMost(a: string, b: string) {
    a == "" || (b != "" && (a[0] < b[0] || (a[0] == b[0] && AtMost(a[1..], b[1..]))))
  }

  predicate InScope(c: Capsule, args: Args) {
    if args.all then true
    else if args.record != "" then c.capsuleId == args.record
    else if args.exchange != "" then ExchangeId(c) == args.exchange
    else if args.peer != "" then args.peer in Peers(c)
    else (args.since == "" || AtMost(args.since, c.timestamp)) && (args.until == "" || AtMost(c.timestamp, args.until))
  }

  // ---------------------------------------------------------------- what a scan should find

  datatype Lookup = Found(capsule: Capsule) | NotFound | Failed(code: string)

  datatype Reason = Repeats | NotARecord

  datatype NonRecord = NonRecord(seqNo: nat, why: Reason)

  datatype Scan = Scan(selected: seq<Capsule>, leftOut: nat, nonRecord: Option<NonRecord>)

  datatype Result = Scanned(scan: Scan) | Raised(code: string)

  /** What stays fixed during a scan: the artifact store, the scope, and the checkpoint's last sequence number. */
  datatype Query = Query(get: string -> Lookup, args: Args, upTo: Option<nat>)

  /** A log is its leaves in order; the leaf at index i has sequence number i + 1. */
  type Log = seq<string>

  predicate FirstAt(log: Log, i: nat)
    requires i < |log|
  {
    log[i] !in log[..i]
  }

  predicate Chosen(q: Query, log: Log, i: nat)
    requires i < |log|
  {
    FirstAt(log, i) && q.get(log[i]).Found? && InScope(q.get(log[i]).capsule, q.args)
  }

  /** The in-scope first occurrences among the leaves lo..hi, in log order. */
  function Picked(q: Query, log: Log, lo: nat, hi: nat): seq<Capsule>
    requires hi <= |log|
  {
    if hi <= lo then []
    else Picked(q, log, lo, hi - 1) + if Chosen(q, log, hi - 1) then [q.get(log[hi - 1]).capsule] else []
  }

  predicate IsRecord(q: Query, log: Log, i: nat)
    requires i < |log|
  {
    FirstAt(log, i) && !q.get(log[i]).NotFound?
  }

  function Describe(q: Query, log: Log, i: nat): NonRecord
    requires i < |log|
  {
    NonRecord(i + 1, if FirstAt(log, i) then NotARecord else Repeats)
  }

  function FirstNonRecord(q: Query, log: Log, n: nat): Option<NonRecord>
    requires n <= |log|
  {
    if n == 0 then None
    else
      var before := FirstNonRecord(q, log, n - 1);
      if before.Some? || IsRecord(q, log, n - 1) then before else Some(Describe(q, log, n - 1))
  }

  /** How much of an n-leaf log the checkpoint covers. */
  function Covered(q: Query, n: nat): nat {
    if q.upTo.None? then 0 else if q.upTo.value < n then q.upTo.value else n
  }

  /** Up to where records are selected rather than left out. */
  function SelectTo(q: Query, n: nat): nat {
    if q.upTo.None? then n else Covered(q, n)
  }

  predicate FailsAt(q: Query, log: Log, i: nat)
    requires i < |log|
  {
    FirstAt(log, i) && q.get(log[i]).Failed?
  }

  function FirstFailure(q: Query, log: Log, n: nat): Option<string>
    requires n <= |log|
  {
    if n == 0 then None
    else
      var before := FirstFailure(q, log, n - 1);
      if before.Some? || !FailsAt(q, log, n - 1) then before else Some(q.get(log[n - 1]).code)
  }

  /** The whole result over the first n leaves, with no pages in sight. */
  function Expected(q: Query, log: Log, n: nat): Result
    requires n <= |log|
  {
    var failure := FirstFailure(q, log, n);
    if failure.Some? then Raised(failure.value)
    else Scanned(Scan(Picked(q, log, 0, SelectTo(q, n)), |Picked(q, log, SelectTo(q, n), n)|,
                      FirstNonRecord(q, log, Covered(q, n))))
  }

  /** A leaf that `--all` finds no fault with, said without recursion. */
  lemma {:induction false} NonRecordMeaning(q: Query, log: Log, n: nat)
    requires n <= |log|
    ensures FirstNonRecord(q, log, n).None? <==> forall i :: 0 <= i < n ==> IsRecord(q, log, i)
    ensures FirstNonRecord(q, log, n).Some? ==>
      var x := FirstNonRecord(q, log, n).value;
      && 0 < x.seqNo <= n && !IsRecord(q, log, x.seqNo - 1) && x == Describe(q, log, x.seqNo - 1)
      && forall i :: 0 <= i < x.seqNo - 1 ==> IsRecord(q, log, i)
  {
    if n != 0 { NonRecordMeaning(q, log, n - 1); }
  }

  /** The indices behind a selection, for saying that nothing is picked twice and nothing is missed. */
  function PickedAt(q: Query, log: Log, lo: nat, hi: nat): seq<nat>
    requires hi <= |log|
  {
    if hi <= lo then [] else PickedAt(q, log, lo, hi - 1) + if Chosen(q, log, hi - 1) then [hi - 1] else []
  }

  ghost predicate Lists(q: Query, log: Log, at: seq<nat>, picked: seq<Capsule>) {
    |at| == |picked|
    && forall j :: 0 <= j < |at| ==>
         at[j] < |log| && Chosen(q, log, at[j]) && picked[j] == q.get(log[at[j]]).capsule
  }

  ghost predicate Ascending(at: seq<nat>) {
    forall j, k :: 0 <= j < k < |at| ==> at[j] < at[k]
  }

  lemma {:induction false} PickedLists(q: Query, log: Log, lo: nat, hi: nat)
    requires hi <= |log|
    ensures Lists(q, log, PickedAt(q, log, lo, hi), Picked(q, log, lo, hi))
  {
    hide FirstAt;
    if lo < hi { PickedLists(q, log, lo, hi - 1); }
  }

  lemma {:induction false} PickedComplete(q: Query, log: Log, lo: nat, hi: nat)
    requires hi <= |log|
    ensures forall i :: i in PickedAt(q, log, lo, hi) <==> lo <= i < hi && Chosen(q, log, i)
  {
    hide Chosen;
    if lo < hi { PickedComplete(q, log, lo, hi - 1); }
  }

  lemma AscendingSnoc(at: seq<nat>, i: nat)
    requires Ascending(at) && forall x :: x in at ==> x < i
    ensures Ascending(at + [i])
  {
    assert forall j :: 0 <= j < |at| ==> at[j] in at;
  }

  lemma {:induction false} PickedAscending(q: Query, log: Log, lo: nat, hi: nat)
    requires hi <= |log|
    ensures Ascending(PickedAt(q, log, lo, hi))
  {
    hide Ascending, Chosen;
    if lo < hi {
      PickedAscending(q, log, lo, hi - 1);
      PickedComplete(q, log, lo, hi - 1);
      AscendingSnoc(PickedAt(q, log, lo, hi - 1), hi - 1);
      assert PickedAt(q, log, lo, hi - 1) + [] == PickedAt(q, log, lo, hi - 1);
    } else {
      AscendingNone();
    }
  }

  lemma AscendingNone()
    ensures Ascending([])
  {}

  /** A selection is exactly the in-scope first occurrences in log order, with pairwise distinct leaf ids. */
  lemma {:induction false} PickedMeaning(q: Query, log: Log, lo: nat, hi: nat)
    requires hi <= |log|
    ensures
      var at := PickedAt(q, log, lo, hi);
      && Lists(q, log, at, Picked(q, log, lo, hi)) && Ascending(at)
      && (forall i :: i in at <==> lo <= i < hi && Chosen(q, log, i))
      && (forall j, k :: 0 <= j < k < |at| && at[j] < |log| && at[k] < |log| ==> log[at[j]] != log[at[k]])
  {
    PickedLists(q, log, lo, hi);
    PickedComplete(q, log, lo, hi);
    PickedAscending(q, log, lo, hi);
    var at := PickedAt(q, log, lo, hi);
    forall j, k | 0 <= j < k < |at| && at[j] < |log| && at[k] < |log| ensures log[at[j]] != log[at[k]] {
      FirstsDiffer(log, at[j], at[k]);
    }
  }

  lemma FirstsDiffer(log: Log, i: nat, k: nat)
    requires i < k < |log| && FirstAt(log, k)
    ensures log[i] != log[k]
  {
    assert log[..k][i] == log[i];
  }

  // ---------------------------------------------------------------- stability

  /** Growth past n changes nothing found within n. */
  lemma {:induction false} PrefixStable(q: Query, log: Log, grown: Log, lo: nat, n: nat)
    requires n <= |log| && n <= |grown| && log[..n] == grown[..n]
    ensures Picked(q, log, lo, n) == Picked(q, grown, lo, n)
    ensures FirstNonRecord(q, log, n) == FirstNonRecord(q, grown, n)
    ensures FirstFailure(q, log, n) == FirstFailure(q, grown, n)
  {
    if n != 0 {
      SameAt(log, grown, n);
      PrefixStable(q, log, grown, lo, n - 1);
    }
  }

  lemma SameAt(log: Log, grown: Log, n: nat)
    requires 0 < n <= |log| && n <= |grown| && log[..n] == grown[..n]
    ensures log[..n - 1] == grown[..n - 1] && log[n - 1] == grown[n - 1]
  {
    assert log[..n][..n - 1] == log[..n - 1] && grown[..n][..n - 1] == grown[..n - 1];
    assert log[..n][n - 1] == log[n - 1] && grown[..n][n - 1] == grown[n - 1];
  }

  // ---------------------------------------------------------------- the paged scan

  ghost predicate Growing(views: seq<Log>) {
    views != [] && forall i, j :: 0 <= i <= j < |views| ==> views[i] <= views[j]
  }

  /** `r` is the result of one pass over n leaves, at least those present when the scan began. */
  ghost predicate OnePass(q: Query, views: seq<Log>, n: nat, r: Result) {
    views != [] && |views[0]| <= n <= |views[|views| - 1]| && r == Expected(q, views[|views| - 1], n)
  }

  /** `scan_entries` on the log as it stands when a page is asked for. */
  function Page(log: Log, after: nat, limit: nat): seq<string> {
    if |log| <= after then [] else if |log| - after <= limit then log[after..] else log[after..after + limit]
  }

  lemma {:induction false} FailureStays(q: Query, log: Log, i: nat, n: nat)
    requires i <= n <= |log| && FirstFailure(q, log, i).Some?
    ensures FirstFailure(q, log, n) == FirstFailure(q, log, i)
  {
    if i < n { FailureStays(q, log, i, n - 1); }
  }

  /** One more leaf. */
  lemma ExpectedStep(q: Query, log: Log, i: nat)
    requires i < |log| && Expected(q, log, i).Scanned?
    ensures
      var s := Expected(q, log, i).scan;
      var within := q.upTo.Some? && i + 1 <= q.upTo.value;
      var flagged := s.(nonRecord := if within && s.nonRecord.None? then Some(Describe(q, log, i)) else s.nonRecord);
      Expected(q, log, i + 1) ==
        if !FirstAt(log, i) then Scanned(flagged)
        else
          match q.get(log[i])
          case Failed(code) => Raised(code)
          case NotFound => Scanned(flagged)
          case Found(c) =>
            if !InScope(c, q.args) then Scanned(s)
            else if q.upTo.Some? && i + 1 > q.upTo.value then Scanned(s.(leftOut := s.leftOut + 1))
            else Scanned(s.(selected := s.selected + [c]))
  {
    hide InScope, FirstAt;
    var s := Expected(q, log, i).scan;
    PickedEmpty(q, log, i);
    PickedEmpty(q, log, i + 1);
    assert s.selected + [] == s.selected;
  }

  lemma PickedEmpty(q: Query, log: Log, n: nat)
    requires n <= |log|
    ensures Picked(q, log, n, n) == []
  {}

  /** The scan as written. `views` are the log's states as successive pages are read, the last one for all later
      pages. The result is that of one pass over the leaves present when the scan ends, and, for a checkpoint the
      first view covers, depends on neither the page size nor what was appended meanwhile. */
  method RecordsInScope(q: Query, views: seq<Log>, limit: nat) returns (r: Result)
    requires Growing(views) && limit > 0
    ensures exists n :: OnePass(q, views, n, r)
    ensures q.upTo.Some? && q.upTo.value <= |views[0]| && r.Scanned? ==>
      && r.scan.selected == Picked(q, views[0], 0, q.upTo.value)
      && r.scan.nonRecord == FirstNonRecord(q, views[0], q.upTo.value)
  {
    hide Picked, FirstNonRecord, FirstFailure, InScope, FirstAt, Expected, Leaves, Page;
    ghost var log := views[|views| - 1];
    var seen: set<string> := {};
    var scan := Scan([], 0, None);
    var after := 0;
    var pages := 0;
    ExpectedNothing(q, log);
    NoLeaves();
    assert log[..0] == [];
    while true
      invariant 0 <= after <= |log| && pages >= 0
      invariant seen == Leaves(log[..after])
      invariant Expected(q, log, after) == Scanned(scan)
      decreases |log| - after
    {
      var now := views[if pages < |views| then pages else |views| - 1];
      assert views[0] <= now <= log;
      var page := Page(now, after, limit);
      pages := pages + 1;
      if page == [] {
        PageEnds(now, after, limit);
        if q.upTo.Some? && q.upTo.value <= |views[0]| { ExpectedBounded(q, views, after); }
        assert OnePass(q, views, after, Scanned(scan));
        return Scanned(scan);
      }
      var i := 0;
      PageReads(now, log, after, limit);
      while i < |page|
        invariant 0 <= i <= |page| && after + |page| <= |log|
        invariant seen == Leaves(log[..after + i])
        invariant Expected(q, log, after + i) == Scanned(scan)
      {
        var entry, seqNo := page[i], after + i + 1;
        var within := q.upTo.Some? && seqNo <= q.upTo.value;
        ExpectedStep(q, log, after + i);
        SeenIsFirst(log, after + i, seen);
        SeenGrows(log, after + i, seen);
        i := i + 1;
        if entry in seen {
          if within && scan.nonRecord.None? {
            scan := scan.(nonRecord := Some(NonRecord(seqNo, Repeats)));
          }
          continue;
        }
        seen := seen + {entry};
        var found := q.get(entry);
        if found.NotFound? {
          if within && scan.nonRecord.None? {
            scan := scan.(nonRecord := Some(NonRecord(seqNo, NotARecord)));
          }
          continue;
        }
        if found.Failed? {
          ExpectedRaised(q, views, seqNo, found.code);
          return Raised(found.code);
        }
        if !InScope(found.capsule, q.args) {
          continue;
        }
        if q.upTo.Some? && seqNo > q.upTo.value {
          scan := scan.(leftOut := scan.leftOut + 1);
        } else {
          scan := scan.(selected := scan.selected + [found.capsule]);
        }
      }
      after := after + |page|;
    }
  }

  lemma PageEnds(now: Log, after: nat, limit: nat)
    requires limit > 0
    ensures Page(now, after, limit) == [] <==> |now| <= after
  {}

  lemma NoLeaves()
    ensures Leaves([]) == {}
  {}

  lemma ExpectedNothing(q: Query, log: Log)
    ensures Expected(q, log, 0) == Scanned(Scan([], 0, None))
  {}

  lemma PageReads(now: Log, log: Log, after: nat, limit: nat)
    requires now <= log
    ensures Page(now, after, limit) == [] || after + |Page(now, after, limit)| <= |log|
    ensures forall i :: 0 <= i < |Page(now, after, limit)| ==>
      after + i < |log| && Page(now, after, limit)[i] == log[after + i]
  {}

  function Leaves(log: Log): set<string> {
    set x | x in log
  }

  lemma SeenIsFirst(log: Log, i: nat, seen: set<string>)
    requires i < |log| && seen == Leaves(log[..i])
    ensures log[i] in seen <==> !FirstAt(log, i)
  {}

  lemma SeenGrows(log: Log, i: nat, seen: set<string>)
    requires i < |log| && seen == Leaves(log[..i])
    ensures seen + {log[i]} == Leaves(log[..i + 1])
  {
    assert log[..i + 1] == log[..i] + [log[i]];
  }

  lemma ExpectedRaised(q: Query, views: seq<Log>, i: nat, code: string)
    requires Growing(views) && i <= |views[|views| - 1]| && Expected(q, views[|views| - 1], i) == Raised(code)
    ensures exists n :: OnePass(q, views, n, Raised(code))
  {
    var log := views[|views| - 1];
    FailureStays(q, log, i, |log|);
    assert views[0] <= log;
    assert OnePass(q, views, |log|, Raised(code));
  }

  lemma ExpectedBounded(q: Query, views: seq<Log>, n: nat)
    requires Growing(views) && |views[0]| <= n <= |views[|views| - 1]|
    requires Expected(q, views[|views| - 1], n).Scanned? && q.upTo.Some? && q.upTo.value <= |views[0]|
    ensures
      var s := Expected(q, views[|views| - 1], n).scan;
      && s.selected == Picked(q, views[0], 0, q.upTo.value)
      && s.nonRecord == FirstNonRecord(q, views[0], q.upTo.value)
  {
    var log := views[|views| - 1];
    assert views[0] <= log;
    PrefixStable(q, views[0], log, 0, q.upTo.value);
  }

  // ---------------------------------------------------------------- what a bundle asks for

  datatype Plan =
    | Nothing(past: nat)
    | Failure(code: string)
    | Bundle(root: string, others: seq<string>, intervalFrom: Option<nat>, closureDepth: nat, leftOut: nat)

  /** Every one of the first n leaves is a record of its own. */
  ghost predicate AllRecords(q: Query, log: Log, n: nat)
    requires n <= |log|
  {
    forall i :: 0 <= i < n ==> FirstAt(log, i) && q.get(log[i]).Found?
  }

  lemma {:induction false} NoFailure(q: Query, log: Log, n: nat)
    requires n <= |log| && FirstFailure(q, log, n).None?
    ensures forall i :: 0 <= i < n ==> !FailsAt(q, log, i)
  {
    if n != 0 { NoFailure(q, log, n - 1); }
  }

  lemma RangeExactly(q: Query, views: seq<Log>, n: nat, scan: Scan)
    requires Growing(views) && OnePass(q, views, n, Scanned(scan))
    requires q.upTo.Some? && q.upTo.value <= |views[0]|
    ensures scan.nonRecord.None? <==> AllRecords(q, views[0], q.upTo.value)
  {
    var b, log := q.upTo.value, views[|views| - 1];
    assert views[0] <= log;
    ExpectedBounded(q, views, n);
    NonRecordMeaning(q, views[0], b);
    NoFailure(q, log, n);
    forall i | 0 <= i < b ensures IsRecord(q, views[0], i) <==> FirstAt(views[0], i) && q.get(views[0][i]).Found? {
      assert log[i] == views[0][i] && log[..i] == views[0][..i];
      assert !FailsAt(q, log, i);
    }
    if AllRecords(q, views[0], b) {
      forall i | 0 <= i < b ensures IsRecord(q, views[0], i) {
        assert FirstAt(views[0], i);
      }
    }
  }

  function Ids(cs: seq<Capsule>): seq<string> {
    seq(|cs|, i requires 0 <= i < |cs| => cs[i].capsuleId)
  }

  /** What a bundle asks of the builder after a scan of n leaves: the last selected record as root and the others before
      it; `--all` sets the range and the closure itself, a scoped bundle takes the given ones. */
  ghost predicate PlanFits(q: Query, views: seq<Log>, n: nat, intervalFrom: Option<nat>, closureDepth: Option<nat>,
                           p: Plan)
  {
    && views != [] && |views[0]| <= n <= |views[|views| - 1]|
    && var r := Expected(q, views[|views| - 1], n);
    if r.Raised? then p == Failure(r.code)
    else if r.scan.selected == [] then p == Nothing(r.scan.leftOut)
    else
      && p.Bundle? && p.leftOut == r.scan.leftOut && |p.others| + 1 == |r.scan.selected|
      && p.root == r.scan.selected[|p.others|].capsuleId
      && (forall k :: 0 <= k < |p.others| ==> p.others[k] == r.scan.selected[k].capsuleId)
      && p.intervalFrom == (if !q.args.all then intervalFrom else if r.scan.nonRecord.Some? then None else Some(1))
      && p.closureDepth == (if q.args.all then 2 else if closureDepth.Some? then closureDepth.value else 0)
  }

  ghost predicate Planned(q: Query, views: seq<Log>, intervalFrom: Option<nat>, closureDepth: Option<nat>, p: Plan) {
    exists n: nat :: PlanFits(q, views, n, intervalFrom, closureDepth, p)
  }

  /** What `bundle` asks of the builder. `--all` takes the range from sequence number 1 exactly when every leaf
      up to the pinned checkpoint is a distinct record. */
  method PlanBundle(get: string -> Lookup, args: Args, checkpoint: Option<nat>, intervalFrom: Option<nat>,
                    closureDepth: Option<nat>, views: seq<Log>) returns (p: Plan)
    requires Growing(views)
    ensures Planned(Query(get, args, if args.all then checkpoint else None), views, intervalFrom, closureDepth, p)
    ensures args.all && checkpoint.Some? && checkpoint.value <= |views[0]| && p.Bundle? ==>
      var q := Query(get, args, checkpoint);
      && (p.intervalFrom == Some(1) <==> AllRecords(q, views[0], checkpoint.value))
      && p.others + [p.root] == Ids(Picked(q, views[0], 0, checkpoint.value))
      && p.closureDepth == 2
    ensures args.all && checkpoint.Some? && checkpoint.value <= |views[0]| && p.Nothing? ==>
      Picked(Query(get, args, checkpoint), views[0], 0, checkpoint.value) == []
  {
    hide Picked, AllRecords, Expected;
    var q := Query(get, args, if args.all then checkpoint else None);
    var r := RecordsInScope(q, views, 1000);
    ghost var n :| OnePass(q, views, n, r);
    if r.Raised? {
      assert PlanFits(q, views, n, intervalFrom, closureDepth, Failure(r.code));
      return Failure(r.code);
    }
    if args.all && checkpoint.Some? && checkpoint.value <= |views[0]| { RangeExactly(q, views, n, r.scan); }
    if r.scan.selected == [] {
      assert PlanFits(q, views, n, intervalFrom, closureDepth, Nothing(r.scan.leftOut));
      return Nothing(r.scan.leftOut);
    }
    var ids := Ids(r.scan.selected);
    var from := intervalFrom;
    if args.all {
      from := if r.scan.nonRecord.Some? then None else Some(1);
    }
    var closure := if args.all then 2 else if closureDepth.Some? then closureDepth.value else 0;
    assert ids[..|ids| - 1] + [ids[|ids| - 1]] == ids;
    p := Bundle(ids[|ids| - 1], ids[..|ids| - 1], from, closure, r.scan.leftOut);
    assert PlanFits(q, views, n, intervalFrom, closureDepth, p);
  }
}
