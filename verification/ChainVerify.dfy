/** The offline walk over a checkpoint chain: what it accepts, how deep it gets, and what an accepted
    chain says about the log behind it. */
module ChainVerify {
  import opened Bytes
  import opened Mmr
  import opened Consistency

  datatype Witness = Witness(tsUrl: string, stamp: string)

  datatype Checkpoint = Checkpoint(
    logId: string, mmrSize: int, root: string, prevSize: int, prevRoot: string,
    keyId: string, timestamp: string, signature: string, witnesses: seq<Witness>)

  /** One checkpoint and what is needed to check that it extends the one before it. */
  datatype Link = Link(
    checkpoint: Checkpoint, proof: Option<ConsistencyProof>, cose: Option<seq<byte>>,
    leafCounts: map<string, nat>, adjudication: Option<map<string, nat>>, leafDigests: Option<seq<string>>)

  datatype Segment = Segment(v: int, links: seq<Link>)

  /** What the walk takes on trust: the hash of byte strings, the signature check, and the witness stamp check. */
  datatype Trust = Trust(sha: Sha, signed: Checkpoint -> bool, stamped: (Checkpoint, Witness) -> bool) {
    function h(): Hash { Hasher(sha) }
  }

  datatype Reason = BadSignature | NotChained(priorSize: int) | NoProof | NotBridged(priorSize: int)

  /** `Raises` is the ValueError of decoding a root that is not hexadecimal. */
  datatype Check = Good | Bad(reason: Reason) | Raises

  function CheckLink(t: Trust, prior: Option<Checkpoint>, link: Link): Check {
    var cp := link.checkpoint;
    if !t.signed(cp) then Bad(BadSignature)
    else if prior.None? then Good
    else
      var prev := prior.value;
      if cp.prevSize != prev.mmrSize || cp.prevRoot != prev.root then Bad(NotChained(prev.mmrSize))
      else if link.proof.None? then Bad(NoProof)
      else if FromHex(prev.root).None? || FromHex(cp.root).None? then Raises
      else if VerifyConsistency(t.h(), FromHex(prev.root).value, prev.mmrSize, FromHex(cp.root).value, cp.mmrSize,
                                link.proof.value) then Good
      else Bad(NotBridged(prev.mmrSize))
  }

  datatype Continuity = NoCheckpoints | Unbroken | Broken(size: int, reason: Reason)

  datatype Result = Result(ok: bool, errors: seq<Continuity>, continuity: Continuity, depth: nat, witnessed: nat, total: nat)

  datatype Outcome = Done(result: Result) | Raised

  predicate Stamped(t: Trust, cp: Checkpoint) {
    exists w :: w in cp.witnesses && t.stamped(cp, w)
  }

  // ---------------------------------------------------------------- the verdict, stated over indices

  function CheckAt(t: Trust, links: seq<Link>, i: nat): Check
    requires i < |links|
  {
    CheckLink(t, if i == 0 then None else Some(links[i - 1].checkpoint), links[i])
  }

  /** Good links in a row from link i on. */
  function DepthFrom(t: Trust, links: seq<Link>, i: nat): nat
    requires i <= |links|
    decreases |links| - i
  {
    if i == |links| || CheckAt(t, links, i) != Good then 0 else 1 + DepthFrom(t, links, i + 1)
  }

  function Depth(t: Trust, links: seq<Link>): nat {
    DepthFrom(t, links, 0)
  }

  function WitnessedIn(t: Trust, links: seq<Link>): nat {
    if links == [] then 0
    else WitnessedIn(t, links[..|links| - 1]) + if Stamped(t, links[|links| - 1].checkpoint) then 1 else 0
  }

  /** The outcome of the walk, given only the length of the longest good prefix. */
  function Verdict(t: Trust, links: seq<Link>): Outcome {
    DepthBound(t, links, 0);
    var d := Depth(t, links);
    if links == [] then Done(Result(false, [NoCheckpoints], NoCheckpoints, 0, 0, 0))
    else if d == |links| then Done(Result(true, [], Unbroken, d, WitnessedIn(t, links), |links|))
    else
      match CheckAt(t, links, d)
      case Raises => Raised
      case Bad(reason) =>
        var broken := Broken(links[d].checkpoint.mmrSize, reason);
        Done(Result(false, [broken], broken, d, WitnessedIn(t, links[..d]), |links|))
      case Good => Raised
  }

  lemma {:induction false} DepthBound(t: Trust, links: seq<Link>, i: nat)
    requires i <= |links|
    ensures DepthFrom(t, links, i) <= |links| - i
    ensures forall j :: i <= j < i + DepthFrom(t, links, i) ==> CheckAt(t, links, j) == Good
    ensures i + DepthFrom(t, links, i) < |links| ==> CheckAt(t, links, i + DepthFrom(t, links, i)) != Good
    decreases |links| - i
  {
    hide CheckAt;
    if i < |links| && CheckAt(t, links, i) == Good { DepthBound(t, links, i + 1); }
  }

  lemma {:induction false} DepthUnique(t: Trust, links: seq<Link>, i: nat, d: nat)
    requires i + d <= |links|
    requires forall j :: i <= j < i + d ==> CheckAt(t, links, j) == Good
    requires i + d < |links| ==> CheckAt(t, links, i + d) != Good
    ensures DepthFrom(t, links, i) == d
    decreases d
  {
    hide CheckAt;
    if d > 0 { DepthUnique(t, links, i + 1, d - 1); }
  }

  /** `verify_chain_segment`: stop at the first broken link. */
  method VerifyChainSegment(t: Trust, segment: Segment) returns (o: Outcome)
    ensures o == Verdict(t, segment.links)
  {
    hide CheckLink, DepthFrom;
    var links := segment.links;
    if links == [] {
      return Done(Result(false, [NoCheckpoints], NoCheckpoints, 0, 0, 0));
    }
    var errors, continuity, depth, witnessed := [], Unbroken, 0, 0;
    var prior := None;
    var i := 0;
    while i < |links|
      invariant 0 <= i <= |links| && depth == i
      invariant prior == if i == 0 then None else Some(links[i - 1].checkpoint)
      invariant errors == [] && continuity == Unbroken
      invariant witnessed == WitnessedIn(t, links[..i])
      invariant forall j :: 0 <= j < i ==> CheckAt(t, links, j) == Good
    {
      var check := CheckLink(t, prior, links[i]);
      assert check == CheckAt(t, links, i);
      if check != Good {
        DepthUnique(t, links, 0, i);
        if check == Raises { return Raised; }
        continuity := Broken(links[i].checkpoint.mmrSize, check.reason);
        errors := errors + [continuity];
        break;
      }
      depth := depth + 1;
      assert links[..i + 1][..i] == links[..i];
      if Stamped(t, links[i].checkpoint) { witnessed := witnessed + 1; }
      prior := Some(links[i].checkpoint);
      i := i + 1;
    }
    if i == |links| {
      DepthUnique(t, links, 0, i);
      assert links[..i] == links;
    }
    o := Done(Result(errors == [], errors, continuity, depth, witnessed, |links|));
  }

  // ---------------------------------------------------------------- what the verdict says

  predicate Accepted(t: Trust, links: seq<Link>) {
    Verdict(t, links).Done? && Verdict(t, links).result.ok
  }

  /** Accepted means non-empty with every single link good, and then the depth is the whole length. */
  lemma AcceptedIff(t: Trust, links: seq<Link>)
    ensures Accepted(t, links) <==> links != [] && forall i :: 0 <= i < |links| ==> CheckAt(t, links, i) == Good
    ensures Accepted(t, links) <==> links != [] && Depth(t, links) == |links|
  {
    DepthBound(t, links, 0);
    if forall i :: 0 <= i < |links| ==> CheckAt(t, links, i) == Good { DepthUnique(t, links, 0, |links|); }
  }

  /** The reported depth is the length of the longest prefix that would be accepted on its own, and a
      prefix of k links verifies to depth min(k, depth). */
  lemma DepthOfPrefix(t: Trust, links: seq<Link>, k: nat)
    requires k <= |links|
    ensures Depth(t, links[..k]) == if k <= Depth(t, links) then k else Depth(t, links)
    ensures k > 0 ==> (Accepted(t, links[..k]) <==> k <= Depth(t, links))
  {
    hide CheckLink, Accepted, DepthFrom;
    var d := Depth(t, links);
    DepthBound(t, links, 0);
    var m := if k <= d then k else d;
    forall j | 0 <= j < k ensures CheckAt(t, links[..k], j) == CheckAt(t, links, j) {}
    DepthUnique(t, links[..k], 0, m);
    AcceptedIff(t, links[..k]);
  }

  lemma {:induction false} WitnessedBound(t: Trust, links: seq<Link>)
    ensures WitnessedIn(t, links) <= |links|
  {
    if links != [] { WitnessedBound(t, links[..|links| - 1]); }
  }

  /** The witnessed count never exceeds the depth reached, broken chain or not. */
  lemma WitnessedWithinDepth(t: Trust, links: seq<Link>)
    requires Verdict(t, links).Done?
    ensures Verdict(t, links).result.witnessed <= Verdict(t, links).result.depth <= Verdict(t, links).result.total
    ensures Verdict(t, links).result.total == |links|
  {
    DepthBound(t, links, 0);
    WitnessedBound(t, links[..Depth(t, links)]);
    if Depth(t, links) == |links| { assert links[..|links|] == links; }
  }

  /** Two accepted chains that share a boundary checkpoint splice into one accepted chain. */
  lemma Splice(t: Trust, a: seq<Link>, b: seq<Link>)
    requires Accepted(t, a) && Accepted(t, b)
    requires a[|a| - 1].checkpoint == b[0].checkpoint
    ensures Accepted(t, a + b[1..]) && Depth(t, a + b[1..]) == |a| + |b| - 1
  {
    AcceptedIff(t, a);
    AcceptedIff(t, b);
    var links := a + b[1..];
    forall i | 0 <= i < |links| ensures CheckAt(t, links, i) == Good {
      if i < |a| {
        assert CheckAt(t, links, i) == CheckAt(t, a, i);
      } else {
        var j := i - |a| + 1;
        assert CheckAt(t, links, i) == CheckAt(t, b, j);
      }
    }
    AcceptedIff(t, links);
  }

  /** Link i is signed, names the prior checkpoint and carries a proof, but one of the two roots is not
      hexadecimal. */
  predicate UndecodableRoot(t: Trust, links: seq<Link>, i: nat)
    requires 0 < i < |links|
  {
    var prev, cp := links[i - 1].checkpoint, links[i].checkpoint;
    && t.signed(cp) && links[i].proof.Some? && cp.prevSize == prev.mmrSize && cp.prevRoot == prev.root
    && (FromHex(prev.root).None? || FromHex(cp.root).None?)
  }

  /** The walk is documented never to raise. It raises exactly when every link before some link i is
      good and link i has an undecodable root. */
  lemma RaisesExactly(t: Trust, links: seq<Link>)
    ensures Verdict(t, links).Raised? <==>
      exists i :: 0 < i < |links| && UndecodableRoot(t, links, i) && forall j :: 0 <= j < i ==> CheckAt(t, links, j) == Good
  {
    hide FromHex, VerifyConsistency;
    DepthBound(t, links, 0);
    if Verdict(t, links).Raised? {
      assert UndecodableRoot(t, links, Depth(t, links));
    }
    if i :| 0 < i < |links| && UndecodableRoot(t, links, i) && forall j :: 0 <= j < i ==> CheckAt(t, links, j) == Good {
      DepthUnique(t, links, 0, i);
    }
  }

  // ---------------------------------------------------------------- soundness of an accepted chain

  /** The checkpoint commits to exactly the leaves `ls`. */
  ghost predicate Commits(h: Hash, cp: Checkpoint, ls: seq<seq<byte>>) {
    cp.mmrSize == NodeCount(|ls|) && FromHex(cp.root) == Some(Root(h, ls))
  }

  lemma LeafHash(h: Hash, ls: seq<seq<byte>>, start: nat, base: nat)
    requires start < |ls|
    ensures NodeHash(h, ls, start, 0, base) == h(LeafPre(ls[start]))
  {}

  lemma LeafInputs(sha: Sha, ls: seq<seq<byte>>, start: nat, base: nat)
    requires start < |ls|
    ensures TreeInputs(sha, ls, start, 0, base) == {Layout(LeafPre(ls[start]))}
  {
    hide Layout;
  }

  lemma {:induction false} NodeHashBinds(sha: Sha, inputs: set<seq<byte>>, ls: seq<seq<byte>>, ms: seq<seq<byte>>,
                                         start: nat, k: nat, base: nat)
    requires !Collision(sha, inputs) && start + Pow2(k) <= |ls| && start + Pow2(k) <= |ms|
    requires TreeInputs(sha, ls, start, k, base) + TreeInputs(sha, ms, start, k, base) <= inputs
    requires NodeHash(Hasher(sha), ls, start, k, base) == NodeHash(Hasher(sha), ms, start, k, base)
    ensures forall i :: start <= i < start + Pow2(k) ==> ls[i] == ms[i]
    decreases k
  {
    hide NodeHash, TreeNodes, TreeInputs, Collision, Layout, Hasher;
    var h := Hasher(sha);
    if k == 0 {
      LeafHash(h, ls, start, base);
      LeafHash(h, ms, start, base);
      LeafInputs(sha, ls, start, base);
      LeafInputs(sha, ms, start, base);
      LeafBinds(sha, inputs, ls[start], ms[start]);
    } else {
      var w := Pow2(k - 1);
      var mid := base + 2 * w - 1;
      TreeUnfold(h, ls, start, k - 1, w, base);
      TreeUnfold(h, ms, start, k - 1, w, base);
      TreeInputsUnfold(sha, ls, start, k - 1, w, base);
      TreeInputsUnfold(sha, ms, start, k - 1, w, base);
      ParentBinds(sha, inputs, base + 4 * w - 2,
                  NodeHash(h, ls, start, k - 1, base), NodeHash(h, ls, start + w, k - 1, mid),
                  NodeHash(h, ms, start, k - 1, base), NodeHash(h, ms, start + w, k - 1, mid));
      NodeHashBinds(sha, inputs, ls, ms, start, k - 1, base);
      NodeHashBinds(sha, inputs, ls, ms, start + w, k - 1, mid);
    }
  }

  lemma {:induction false} PeakOverLeaf(n: nat, base: nat, start: nat, i: nat) returns (j: nat)
    requires start <= i < start + n
    ensures j < |Peaks(n, base, start)|
    ensures Peaks(n, base, start)[j].start <= i < Peaks(n, base, start)[j].start + Pow2(Peaks(n, base, start)[j].height)
    decreases n
  {
    var k := TopHeight(n);
    if i < start + Pow2(k) {
      j := 0;
    } else {
      j := PeakOverLeaf(n - Pow2(k), base + 2 * Pow2(k) - 1, start + Pow2(k), i);
      j := j + 1;
    }
  }

  /** A root commits to one list of leaves of its size, or two of the byte strings hashed for the two lists collide. */
  lemma RootBinds(sha: Sha, ls: seq<seq<byte>>, ms: seq<seq<byte>>)
    requires |ls| == |ms| && Root(Hasher(sha), ls) == Root(Hasher(sha), ms)
    ensures ls == ms || Collision(sha, RootInputs(sha, ls) + RootInputs(sha, ms))
  {
    hide Collision, RootInputs, Root, Hasher;
    var inputs := RootInputs(sha, ls) + RootInputs(sha, ms);
    if !Collision(sha, inputs) {
      LeavesAgree(sha, inputs, ls, ms);
    }
  }

  lemma LeavesAgree(sha: Sha, inputs: set<seq<byte>>, ls: seq<seq<byte>>, ms: seq<seq<byte>>)
    requires |ls| == |ms| && Root(Hasher(sha), ls) == Root(Hasher(sha), ms)
    requires !Collision(sha, inputs) && RootInputs(sha, ls) + RootInputs(sha, ms) <= inputs
    ensures ls == ms
  {
    hide Nodes, NodeHash, TreeNodes, Has, NodeCount, Peaks, Bag, Collision, NodesInputs, BagInputs, TreeInputs, Hasher;
    var h, n := Hasher(sha), |ls|;
    BagInjective(sha, inputs, StorePeaks(h, ls, n), StorePeaks(h, ms, n));
    forall i | 0 <= i < n ensures ls[i] == ms[i] {
      var j := PeakOverLeaf(n, 0, 0, i);
      var p := Peaks(n, 0, 0)[j];
      PeakInStore(h, ls, n, p);
      PeakInStore(h, ms, n, p);
      PeakInputs(sha, ls, 0, n, 0, p);
      PeakInputs(sha, ms, 0, n, 0, p);
      assert StorePeaks(h, ls, n)[j] == StorePeaks(h, ms, n)[j];
      NodeHashBinds(sha, inputs, ls, ms, p.start, p.height, p.base);
    }
  }

  lemma LeavesOfNodes(size: int)
    requires LeavesOf(size).Some?
    ensures size == NodeCount(LeavesOf(size).value)
  {
    LeafCountInverse(size, LeavesOf(size).value);
  }

  lemma {:induction false} NodeCountInjective(a: nat, b: nat)
    requires NodeCount(a) == NodeCount(b)
    ensures a == b
  {
    if a < b { NodeCountMonotone(a, b); }
    if b < a { NodeCountMonotone(b, a); }
  }

  lemma GoodLink(t: Trust, links: seq<Link>, j: nat)
    requires 0 < j < |links| && CheckAt(t, links, j) == Good
    ensures var prev, cp, proof := links[j - 1].checkpoint, links[j].checkpoint, links[j].proof;
            && t.signed(cp) && cp.prevSize == prev.mmrSize && cp.prevRoot == prev.root && proof.Some?
            && FromHex(prev.root).Some? && FromHex(cp.root).Some?
            && VerifyConsistency(t.h(), FromHex(prev.root).value, prev.mmrSize, FromHex(cp.root).value, cp.mmrSize, proof.value)
  {}

  /** The byte strings hashed for the roots of a log and of all its prefixes. */
  ghost function LogInputs(sha: Sha, ls: seq<seq<byte>>): set<seq<byte>> {
    RootInputs(sha, ls) + if ls == [] then {} else LogInputs(sha, ls[..|ls| - 1])
  }

  lemma {:induction false} PrefixInputs(sha: Sha, ls: seq<seq<byte>>, n: nat)
    requires n <= |ls|
    ensures LogInputs(sha, ls[..n]) <= LogInputs(sha, ls) && RootInputs(sha, ls[..n]) <= LogInputs(sha, ls)
    decreases |ls|
  {
    hide RootInputs;
    if n == |ls| {
      assert ls[..n] == ls;
    } else {
      assert ls[..|ls| - 1][..n] == ls[..n];
      PrefixInputs(sha, ls[..|ls| - 1], n);
    }
  }

  /** The byte strings hashed to check the consistency proofs of a chain. */
  ghost function WalkInputs(sha: Sha, links: seq<Link>): set<seq<byte>> {
    if links == [] then {}
    else
      var last := links[|links| - 1];
      WalkInputs(sha, links[..|links| - 1]) + if last.proof.Some? then CheckInputs(sha, last.proof.value) else {}
  }

  lemma {:induction false} LinkInputs(sha: Sha, links: seq<Link>, j: nat)
    requires j < |links| && links[j].proof.Some?
    ensures CheckInputs(sha, links[j].proof.value) <= WalkInputs(sha, links)
    decreases |links|
  {
    hide CheckInputs;
    if j < |links| - 1 { LinkInputs(sha, links[..|links| - 1], j); }
  }

  lemma MoreInputs(sha: Sha, few: set<seq<byte>>, many: set<seq<byte>>)
    requires few <= many && Collision(sha, few)
    ensures Collision(sha, many)
  {}

  lemma {:induction false} PrefixCommitted(t: Trust, inputs: set<seq<byte>>, links: seq<Link>, i: nat, j: nat,
                                           ls: seq<seq<byte>>)
    requires Accepted(t, links) && i <= j < |links| && Commits(t.h(), links[j].checkpoint, ls)
    requires !Collision(t.sha, inputs) && LogInputs(t.sha, ls) + WalkInputs(t.sha, links) <= inputs
    ensures exists n :: 0 <= n <= |ls| && Commits(t.h(), links[i].checkpoint, ls[..n])
    decreases j - i
  {
    hide Root, NodeCount, Collision, CheckAt, VerifyConsistency, LeavesOf, LogInputs, WalkInputs, RootInputs, CheckInputs;
    hide Hasher;
    if i == j {
      assert ls[..|ls|] == ls;
    } else {
      AcceptedIff(t, links);
      var prev, cp, p := links[j - 1].checkpoint, links[j].checkpoint, links[j].proof;
      GoodLink(t, links, j);
      ConsistencySound(t.sha, ls, FromHex(prev.root).value, prev.mmrSize, p.value);
      LinkInputs(t.sha, links, j);
      PrefixInputs(t.sha, ls, |ls|);
      assert ls[..|ls|] == ls;
      if Collision(t.sha, RootInputs(t.sha, ls) + CheckInputs(t.sha, p.value)) {
        MoreInputs(t.sha, RootInputs(t.sha, ls) + CheckInputs(t.sha, p.value), inputs);
      }
      var n := LeavesOf(prev.mmrSize).value;
      LeavesOfNodes(prev.mmrSize);
      assert Commits(t.h(), prev, ls[..n]);
      PrefixInputs(t.sha, ls, n);
      PrefixCommitted(t, inputs, links, i, j - 1, ls[..n]);
      var m :| 0 <= m <= n && Commits(t.h(), links[i].checkpoint, ls[..n][..m]);
      assert ls[..n][..m] == ls[..m];
    }
  }

  /** If a later checkpoint of an accepted chain commits to `ls`, every earlier one commits to a prefix of `ls`:
      nothing was rewritten between them, unless two different byte strings among those hashed for the log and for the
      proofs have one digest. */
  lemma NoRewrite(t: Trust, links: seq<Link>, i: nat, j: nat, ls: seq<seq<byte>>)
    requires Accepted(t, links) && i <= j < |links|
    requires Commits(t.h(), links[j].checkpoint, ls)
    ensures || (exists n :: 0 <= n <= |ls| && Commits(t.h(), links[i].checkpoint, ls[..n]))
            || Collision(t.sha, LogInputs(t.sha, ls) + WalkInputs(t.sha, links))
  {
    hide Commits, Collision, Accepted, LogInputs, WalkInputs;
    var inputs := LogInputs(t.sha, ls) + WalkInputs(t.sha, links);
    if !Collision(t.sha, inputs) {
      PrefixCommitted(t, inputs, links, i, j, ls);
    }
  }

  /** SOUNDNESS. In an accepted chain, whatever leaf list an earlier checkpoint commits to is a prefix of whatever leaf
      list a later one commits to, unless two different byte strings among those hashed for the two logs and for the
      proofs have one digest. */
  lemma AcceptedChainIsAppendOnly(t: Trust, links: seq<Link>, i: nat, j: nat, a: seq<seq<byte>>, b: seq<seq<byte>>)
    requires Accepted(t, links) && i <= j < |links|
    requires Commits(t.h(), links[i].checkpoint, a) && Commits(t.h(), links[j].checkpoint, b)
    ensures a <= b || Collision(t.sha, RootInputs(t.sha, a) + LogInputs(t.sha, b) + WalkInputs(t.sha, links))
  {
    hide Root, NodeCount, Collision, Accepted, LogInputs, WalkInputs, RootInputs, Hasher;
    var inputs := RootInputs(t.sha, a) + LogInputs(t.sha, b) + WalkInputs(t.sha, links);
    if !Collision(t.sha, inputs) {
      PrefixCommitted(t, inputs, links, i, j, b);
      var n :| 0 <= n <= |b| && Commits(t.h(), links[i].checkpoint, b[..n]);
      NodeCountInjective(|a|, n);
      RootBinds(t.sha, a, b[..n]);
      PrefixInputs(t.sha, b, n);
      if Collision(t.sha, RootInputs(t.sha, a) + RootInputs(t.sha, b[..n])) {
        MoreInputs(t.sha, RootInputs(t.sha, a) + RootInputs(t.sha, b[..n]), inputs);
      }
    }
  }
}
