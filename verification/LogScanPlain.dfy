/** What a scan finds, in plain terms: over leaves and the fields of records alone. */
module LogScanPlain {
  import opened Bytes
  import opened LogScan

  /** Which record each option selects: all of them; the one of that id; those of that exchange, by their serving side
      and only without one by their settlement side; those a named peer served or requested; those no earlier than
      `since` and no later than `until`. */
  ghost predicate ScopeHolds(c: Capsule, args: Args) {
    if args.all then true
    else if args.record != "" then c.capsuleId == args.record
    else if args.exchange != "" then
      c.servingExchange == args.exchange || (c.servingExchange == "" && c.settlementExchange == args.exchange)
    else if args.peer != "" then c.servedBy == args.peer || c.requesting == args.peer
    else
      && (args.since == "" || !Before(c.timestamp, args.since))
      && (args.until == "" || !Before(args.until, c.timestamp))
  }

  lemma {:induction false} AtMostIs(a: string, b: string)
    ensures AtMost(a, b) <==> !Before(b, a)
    decreases |a|
  {
    if a == [] || b == [] || a[0] != b[0] {
      assert a != [] && (b == [] || b[0] < a[0]) ==> FirstDifference(b, a, 0);
      if k: nat :| FirstDifference(b, a, k) { DifferenceHead(b, a, k); }
    } else {
      AtMostIs(a[1..], b[1..]);
      if k: nat :| FirstDifference(b[1..], a[1..], k) {
        assert a[..k + 1] == [a[0]] + a[1..][..k] && b[..k + 1] == [b[0]] + b[1..][..k];
        assert FirstDifference(b, a, k + 1);
      }
      if k: nat :| FirstDifference(b, a, k) {
        assert k > 0;
        assert a[1..][..k - 1] == a[..k][1..] && b[1..][..k - 1] == b[..k][1..];
        assert FirstDifference(b[1..], a[1..], k - 1);
      }
    }
  }

  lemma ScopePlainly(c: Capsule, args: Args)
    ensures InScope(c, args) <==> ScopeHolds(c, args)
  {
    hide AtMost, Before;
    AtMostIs(args.since, c.timestamp);
    AtMostIs(c.timestamp, args.until);
  }

  // ---------------------------------------------------------------- leaves

  /** Leaf i repeats an earlier one. */
  ghost predicate Repeated(log: Log, i: nat)
    requires i < |log|
  {
    exists j :: 0 <= j < i && log[j] == log[i]
  }

  /** Leaf i is new, the store holds a record for it, and the record is in scope. */
  ghost predicate Wanted(q: Query, log: Log, i: nat)
    requires i < |log|
  {
    !Repeated(log, i) && q.get(log[i]).Found? && ScopeHolds(q.get(log[i]).capsule, q.args)
  }

  lemma FirstIs(log: Log, i: nat)
    requires i < |log|
    ensures FirstAt(log, i) <==> !Repeated(log, i)
  {
    assert forall j :: 0 <= j < i ==> log[..i][j] == log[j];
  }

  lemma WantedIs(q: Query, log: Log, i: nat)
    requires i < |log|
    ensures LogScan.Chosen(q, log, i) <==> Wanted(q, log, i)
  {
    hide ScopeHolds, InScope, FirstAt, Repeated;
    FirstIs(log, i);
    if q.get(log[i]).Found? { ScopePlainly(q.get(log[i]).capsule, q.args); }
  }

  /** The list is the records at those ascending places, which are all and only the wanted leaves from lo to hi. */
  ghost predicate ListsWanted(q: Query, log: Log, lo: nat, hi: nat, at: seq<nat>, list: seq<Capsule>)
    requires hi <= |log|
  {
    && |list| == |at|
    && (forall k :: 0 <= k < |at| ==>
          lo <= at[k] < hi && Wanted(q, log, at[k]) && list[k] == q.get(log[at[k]]).capsule)
    && (forall j, k :: 0 <= j < k < |at| ==> at[j] < at[k])
    && (forall i: nat :: lo <= i < hi && Wanted(q, log, i) ==> i in at)
  }

  lemma PickedPlainly(q: Query, log: Log, lo: nat, hi: nat) returns (at: seq<nat>)
    requires hi <= |log|
    ensures ListsWanted(q, log, lo, hi, at, Picked(q, log, lo, hi))
  {
    hide Wanted, Picked, PickedAt, LogScan.Chosen;
    at := PickedAt(q, log, lo, hi);
    PickedMeaning(q, log, lo, hi);
    forall i: nat | i < |log| ensures LogScan.Chosen(q, log, i) <==> Wanted(q, log, i) { WantedIs(q, log, i); }
    forall k | 0 <= k < |at| ensures lo <= at[k] < hi && Wanted(q, log, at[k]) {
      assert at[k] in at;
    }
    PickedIs(q, log, lo, hi, at);
  }

  lemma PickedIs(q: Query, log: Log, lo: nat, hi: nat, at: seq<nat>)
    requires hi <= |log| && Lists(q, log, at, Picked(q, log, lo, hi))
    ensures |Picked(q, log, lo, hi)| == |at|
    ensures forall k :: 0 <= k < |at| ==>
      at[k] < |log| && q.get(log[at[k]]).Found? && Picked(q, log, lo, hi)[k] == q.get(log[at[k]]).capsule
  {
    hide Picked, FirstAt, InScope;
  }

  /** Leaf i is not a record of its own: it repeats, or the store does not hold it. */
  ghost predicate Faulty(q: Query, log: Log, i: nat)
    requires i < |log|
  {
    Repeated(log, i) || q.get(log[i]).NotFound?
  }

  /** Leaf i makes the scan fail: it is new and reading it goes wrong. */
  ghost predicate Fails(q: Query, log: Log, i: nat)
    requires i < |log|
  {
    !Repeated(log, i) && q.get(log[i]).Failed?
  }

  lemma FaultyPlainly(q: Query, log: Log, n: nat)
    requires n <= |log|
    ensures FirstNonRecord(q, log, n).None? <==> forall i: nat :: i < n ==> !Faulty(q, log, i)
    ensures forall i: nat :: i < n && Faulty(q, log, i) && (forall j: nat :: j < i ==> !Faulty(q, log, j)) ==>
      FirstNonRecord(q, log, n) == Some(NonRecord(i + 1, if Repeated(log, i) then Repeats else NotARecord))
  {
    hide FirstNonRecord, FirstAt, Repeated;
    NonRecordMeaning(q, log, n);
    forall i: nat | i < n ensures FirstAt(log, i) <==> !Repeated(log, i) { FirstIs(log, i); }
    assert forall i: nat :: i < n ==> (LogScan.IsRecord(q, log, i) <==> !Faulty(q, log, i));
  }

  lemma {:induction false} FailsPlainly(q: Query, log: Log, n: nat)
    requires n <= |log|
    ensures FirstFailure(q, log, n).None? <==> forall i: nat :: i < n ==> !Fails(q, log, i)
    ensures forall i: nat :: i < n && Fails(q, log, i) && (forall j: nat :: j < i ==> !Fails(q, log, j)) ==>
      FirstFailure(q, log, n) == Some(q.get(log[i]).code)
  {
    hide FirstFailure, Fails;
    FailureStep(q, log, n);
    if n != 0 { FailsPlainly(q, log, n - 1); }
  }

  lemma FailureStep(q: Query, log: Log, n: nat)
    requires n <= |log|
    ensures n == 0 ==> FirstFailure(q, log, n) == None
    ensures n > 0 ==>
      FirstFailure(q, log, n) ==
        if FirstFailure(q, log, n - 1).Some? then FirstFailure(q, log, n - 1)
        else if Fails(q, log, n - 1) then Some(FailureCode(q, log, n - 1)) else None
    ensures forall i: nat :: i < n && Fails(q, log, i) ==> FailureCode(q, log, i) == q.get(log[i]).code
  {
    hide FirstAt, Repeated;
    if n > 0 { FirstIs(log, n - 1); }
  }

  function FailureCode(q: Query, log: Log, i: nat): string
    requires i < |log|
  {
    match q.get(log[i])
    case Failed(code) => code
    case _ => ""
  }

  /** One pass over the first n leaves. It fails at the first new leaf that cannot be read. Otherwise it selects the
      wanted leaves up to the checkpoint, counts those behind it, and names the first leaf up to it that repeats or has
      no record; without a checkpoint it selects all wanted leaves and names none. */
  lemma ScanPlainly(q: Query, log: Log, n: nat) returns (at: seq<nat>, past: seq<nat>)
    requires n <= |log|
    ensures Expected(q, log, n).Raised? <==> exists i: nat :: i < n && Fails(q, log, i)
    ensures forall i: nat :: i < n && Fails(q, log, i) && (forall j: nat :: j < i ==> !Fails(q, log, j)) ==>
      Expected(q, log, n) == Raised(q.get(log[i]).code)
    ensures Expected(q, log, n).Scanned? ==>
      var s := Expected(q, log, n).scan;
      var bound := if q.upTo.Some? && q.upTo.value < n then q.upTo.value else n;
      var covered := if q.upTo.Some? then bound else 0;
      && ListsWanted(q, log, 0, bound, at, s.selected)
      && s.leftOut == |past| && (exists list :: ListsWanted(q, log, bound, n, past, list))
      && (s.nonRecord.None? <==> forall i: nat :: i < covered ==> !Faulty(q, log, i))
      && (forall i: nat :: i < covered && Faulty(q, log, i) && (forall j: nat :: j < i ==> !Faulty(q, log, j)) ==>
            s.nonRecord == Some(NonRecord(i + 1, if Repeated(log, i) then Repeats else NotARecord)))
  {
    hide Picked, FirstNonRecord, FirstFailure, ListsWanted, Fails, Faulty, Repeated;
    FailsPlainly(q, log, n);
    var bound := if q.upTo.Some? && q.upTo.value < n then q.upTo.value else n;
    FaultyPlainly(q, log, if q.upTo.Some? then bound else 0);
    at := PickedPlainly(q, log, 0, bound);
    past := PickedPlainly(q, log, bound, n);
    WantedCount(q, log, bound, n, past, Picked(q, log, bound, n));
  }

  lemma WantedCount(q: Query, log: Log, lo: nat, hi: nat, at: seq<nat>, list: seq<Capsule>)
    requires hi <= |log| && ListsWanted(q, log, lo, hi, at, list)
    ensures |list| == |at|
  {}
}
