/** Consistency proofs between two sizes of one range: how a prover cuts them from a node store, how a
    verifier checks them from the two roots alone, and that the check is sound and complete. */
module Consistency {
  import opened Bytes
  import opened Mmr

  /** One step from a node to its parent: the position hashed into the parent, and the sibling's position. */
  datatype Step = Step(parent: nat, sibling: nat, targetIsRight: bool)

  /** The path from node `target` up to the root of the tree of height k whose first node is at `base`. */
  function LocatePath(base: nat, k: nat, target: nat): seq<Step>
    requires base <= target <= base + 2 * Pow2(k) - 2
    decreases k
  {
    if k == 0 || target == base + 2 * Pow2(k) - 2 then []
    else
      var w := Pow2(k - 1);
      if target < base + 2 * w - 1 then
        LocatePath(base, k - 1, target) + [Step(base + 4 * w - 2, base + 4 * w - 3, false)]
      else
        LocatePath(base + 2 * w - 1, k - 1, target) + [Step(base + 4 * w - 2, base + 2 * w - 2, true)]
  }

  lemma LocateUnfold(base: nat, k: nat, target: nat)
    requires base <= target <= base + 2 * Pow2(k) - 2
    ensures k == 0 || target == base + 2 * Pow2(k) - 2 ==> LocatePath(base, k, target) == []
    ensures k > 0 && target != base + 2 * Pow2(k) - 2 ==>
      var w := Pow2(k - 1);
      LocatePath(base, k, target)
      == if target < base + 2 * w - 1 then LocatePath(base, k - 1, target) + [Step(base + 4 * w - 2, base + 4 * w - 3, false)]
         else LocatePath(base + 2 * w - 1, k - 1, target) + [Step(base + 4 * w - 2, base + 2 * w - 2, true)]
  {}

  function ParentPre(s: Step, below: Digest, sibling: Digest): Preimage {
    if s.targetIsRight then InteriorPre(s.parent, sibling, below) else InteriorPre(s.parent, below, sibling)
  }

  /** Hash `acc` up the path, one sibling a step. */
  function Fold(h: Hash, acc: Digest, path: seq<Step>, siblings: seq<Digest>): Digest
    requires |path| == |siblings|
    decreases |path|
  {
    if path == [] then acc
    else
      var last := |path| - 1;
      h(ParentPre(path[last], Fold(h, acc, path[..last], siblings[..last]), siblings[last]))
  }

  lemma FoldSnoc(h: Hash, acc: Digest, path: seq<Step>, s: Step, siblings: seq<Digest>)
    requires |path| + 1 == |siblings|
    ensures Fold(h, acc, path + [s], siblings) == h(ParentPre(s, Fold(h, acc, path, siblings[..|path|]), siblings[|path|]))
  {
    assert (path + [s])[..|path|] == path;
  }

  /** The proof as it travels: digests in hexadecimal. */
  datatype ConsistencyProof = ConsistencyProof(
    v: int, kind: string, sizeA: int, sizeB: int,
    oldPeaks: seq<string>, siblings: seq<seq<string>>, newPeaks: seq<string>)

  /** A digest on the wire: hexadecimal of exactly 32 bytes. */
  function DecodeDigest(s: string): Option<Digest> {
    var d := FromHex(s);
    if d.Some? && |d.value| == 32 then Some(d.value) else None
  }

  function DecodeDigests(hs: seq<string>): (r: Option<seq<Digest>>)
    ensures r.Some? ==> |r.value| == |hs| && forall i :: 0 <= i < |hs| ==> DecodeDigest(hs[i]) == Some(r.value[i])
  {
    if hs == [] then Some([])
    else
      match (DecodeDigest(hs[0]), DecodeDigests(hs[1..]))
      case (Some(d), Some(ds)) => Some([d] + ds)
      case _ => None
  }

  function EncodeDigests(ds: seq<Digest>): (hs: seq<string>)
    ensures |hs| == |ds| && forall i :: 0 <= i < |ds| ==> hs[i] == ToHex(ds[i])
  {
    seq(|ds|, i requires 0 <= i < |ds| => ToHex(ds[i]))
  }

  lemma DigestRoundTrip(d: Digest)
    ensures DecodeDigest(ToHex(d)) == Some(d)
  {
    hide FromHex, ToHex;
    HexRoundTrip(d);
  }

  lemma EncodeCons(ds: seq<Digest>)
    requires ds != []
    ensures EncodeDigests(ds) != [] && EncodeDigests(ds)[0] == ToHex(ds[0])
    ensures EncodeDigests(ds)[1..] == EncodeDigests(ds[1..])
  {
    hide ToHex;
  }

  lemma {:induction false} DigestsRoundTrip(ds: seq<Digest>)
    ensures DecodeDigests(EncodeDigests(ds)) == Some(ds)
  {
    hide ToHex, DecodeDigest, EncodeDigests;
    if ds != [] {
      DigestRoundTrip(ds[0]);
      DigestsRoundTrip(ds[1..]);
      EncodeCons(ds);
      assert ds == [ds[0]] + ds[1..];
    } else {
      assert EncodeDigests(ds) == [];
    }
  }

  /** The first peak at or after a position. */
  function FindPeak(ps: seq<Peak>, pos: nat): (j: nat)
    ensures j <= |ps|
    ensures j < |ps| ==> pos <= ps[j].Position()
  {
    if ps == [] || pos <= ps[0].Position() then 0 else 1 + FindPeak(ps[1..], pos)
  }

  /** One old peak climbs to the new peak above it. */
  predicate Climbs(h: Hash, pos: nat, node: Digest, siblings: seq<string>, ps: seq<Peak>, news: seq<Digest>)
    requires |news| == |ps|
  {
    var j := FindPeak(ps, pos);
    && j < |ps| && ps[j].base <= pos
    && var path := LocatePath(ps[j].base, ps[j].height, pos);
    && |siblings| == |path| && DecodeDigests(siblings).Some?
    && Fold(h, node, path, DecodeDigests(siblings).value) == news[j]
  }

  function LeavesOf(size: int): Option<nat> {
    if size < 0 then None else LeafCount(size)
  }

  /** The decoded part of the check: both roots bag up, and every old peak climbs into the new range. */
  predicate Bridges(h: Hash, na: nat, rootA: seq<byte>, olds: seq<Digest>, nb: nat, rootB: seq<byte>, news: seq<Digest>,
                    siblings: seq<seq<string>>)
  {
    var pa, pb := Peaks(na, 0, 0), Peaks(nb, 0, 0);
    && |olds| == |pa| == |siblings| && |news| == |pb|
    && Bag(h, olds) == rootA && Bag(h, news) == rootB
    && forall i :: 0 <= i < |pa| ==> Climbs(h, pa[i].Position(), olds[i], siblings[i], pb, news)
  }

  /** `verify_consistency`: every malformed proof is a plain `false`. */
  predicate VerifyConsistency(h: Hash, rootA: seq<byte>, sizeA: int, rootB: seq<byte>, sizeB: int, p: ConsistencyProof) {
    && p.v == 1 && p.kind == "consistency" && p.sizeA == sizeA && p.sizeB == sizeB && sizeA <= sizeB
    && LeavesOf(sizeA).Some? && LeavesOf(sizeB).Some?
    && DecodeDigests(p.oldPeaks).Some? && DecodeDigests(p.newPeaks).Some?
    && Bridges(h, LeavesOf(sizeA).value, rootA, DecodeDigests(p.oldPeaks).value,
               LeavesOf(sizeB).value, rootB, DecodeDigests(p.newPeaks).value, p.siblings)
  }

  // ---------------------------------------------------------------- soundness

  /** The byte strings hashed into the nodes of one perfect tree. */
  ghost function TreeInputs(sha: Sha, ls: seq<seq<byte>>, start: nat, k: nat, base: nat): set<seq<byte>>
    requires start + Pow2(k) <= |ls|
    decreases k
  {
    if k == 0 then {Layout(LeafPre(ls[start]))}
    else
      var w := Pow2(k - 1);
      {Layout(InteriorPre(base + 4 * w - 2, NodeHash(Hasher(sha), ls, start, k - 1, base),
                          NodeHash(Hasher(sha), ls, start + w, k - 1, base + 2 * w - 1)))}
      + TreeInputs(sha, ls, start, k - 1, base) + TreeInputs(sha, ls, start + w, k - 1, base + 2 * w - 1)
  }

  lemma TreeInputsUnfold(sha: Sha, ls: seq<seq<byte>>, start: nat, k: nat, w: nat, base: nat)
    requires w == Pow2(k) && start + w + w <= |ls|
    ensures Pow2(k + 1) == 2 * w
    ensures TreeInputs(sha, ls, start, k + 1, base)
            == {Layout(InteriorPre(base + 4 * w - 2, NodeHash(Hasher(sha), ls, start, k, base),
                                   NodeHash(Hasher(sha), ls, start + w, k, base + 2 * w - 1)))}
               + TreeInputs(sha, ls, start, k, base) + TreeInputs(sha, ls, start + w, k, base + 2 * w - 1)
  {
    hide Layout, Hasher, NodeHash;
  }

  /** The byte strings hashed up a path. */
  ghost function FoldInputs(sha: Sha, acc: Digest, path: seq<Step>, siblings: seq<Digest>): set<seq<byte>>
    requires |path| == |siblings|
    decreases |path|
  {
    if path == [] then {}
    else
      var last := |path| - 1;
      {Layout(ParentPre(path[last], Fold(Hasher(sha), acc, path[..last], siblings[..last]), siblings[last]))}
      + FoldInputs(sha, acc, path[..last], siblings[..last])
  }

  lemma FoldInputsSnoc(sha: Sha, acc: Digest, path: seq<Step>, s: Step, siblings: seq<Digest>)
    requires |path| + 1 == |siblings|
    ensures FoldInputs(sha, acc, path + [s], siblings)
            == {Layout(ParentPre(s, Fold(Hasher(sha), acc, path, siblings[..|path|]), siblings[|path|]))}
               + FoldInputs(sha, acc, path, siblings[..|path|])
  {
    hide Layout, Hasher, Fold, ParentPre;
    assert (path + [s])[..|path|] == path;
  }

  /** A path that ends at a tree's root last passes the root of the half it comes from. */
  lemma LeftStep(sha: Sha, inputs: set<seq<byte>>, ls: seq<seq<byte>>, start: nat, k: nat, w: nat, base: nat,
                 acc: Digest, path: seq<Step>, siblings: seq<Digest>)
    requires !Collision(sha, inputs) && w == Pow2(k) && start + w + w <= |ls| && |path| + 1 == |siblings|
    requires TreeInputs(sha, ls, start, k + 1, base) <= inputs
    requires var s := Step(base + 4 * w - 2, base + 4 * w - 3, false);
             && FoldInputs(sha, acc, path + [s], siblings) <= inputs
             && Pow2(k + 1) == 2 * w
             && Fold(Hasher(sha), acc, path + [s], siblings) == NodeHash(Hasher(sha), ls, start, k + 1, base)
    ensures TreeInputs(sha, ls, start, k, base) <= inputs
    ensures FoldInputs(sha, acc, path, siblings[..|path|]) <= inputs
    ensures Fold(Hasher(sha), acc, path, siblings[..|path|]) == NodeHash(Hasher(sha), ls, start, k, base)
  {
    hide TreeNodes, NodeHash, Fold, TreeInputs, FoldInputs, Collision, Layout, Hasher, Pow2;
    var h, s := Hasher(sha), Step(base + 4 * w - 2, base + 4 * w - 3, false);
    TreeUnfold(h, ls, start, k, w, base);
    TreeInputsUnfold(sha, ls, start, k, w, base);
    FoldSnoc(h, acc, path, s, siblings);
    FoldInputsSnoc(sha, acc, path, s, siblings);
    ParentBinds(sha, inputs, base + 4 * w - 2, Fold(h, acc, path, siblings[..|path|]), siblings[|path|],
                NodeHash(h, ls, start, k, base), NodeHash(h, ls, start + w, k, base + 2 * w - 1));
  }

  lemma RightStep(sha: Sha, inputs: set<seq<byte>>, ls: seq<seq<byte>>, start: nat, k: nat, w: nat, base: nat,
                  acc: Digest, path: seq<Step>, siblings: seq<Digest>)
    requires !Collision(sha, inputs) && w == Pow2(k) && start + w + w <= |ls| && |path| + 1 == |siblings|
    requires TreeInputs(sha, ls, start, k + 1, base) <= inputs
    requires var s := Step(base + 4 * w - 2, base + 2 * w - 2, true);
             && FoldInputs(sha, acc, path + [s], siblings) <= inputs
             && Pow2(k + 1) == 2 * w
             && Fold(Hasher(sha), acc, path + [s], siblings) == NodeHash(Hasher(sha), ls, start, k + 1, base)
    ensures TreeInputs(sha, ls, start + w, k, base + 2 * w - 1) <= inputs
    ensures FoldInputs(sha, acc, path, siblings[..|path|]) <= inputs
    ensures Fold(Hasher(sha), acc, path, siblings[..|path|])
            == NodeHash(Hasher(sha), ls, start + w, k, base + 2 * w - 1)
  {
    hide TreeNodes, NodeHash, Fold, TreeInputs, FoldInputs, Collision, Layout, Hasher, Pow2;
    var h, s := Hasher(sha), Step(base + 4 * w - 2, base + 2 * w - 2, true);
    TreeUnfold(h, ls, start, k, w, base);
    TreeInputsUnfold(sha, ls, start, k, w, base);
    FoldSnoc(h, acc, path, s, siblings);
    FoldInputsSnoc(sha, acc, path, s, siblings);
    ParentBinds(sha, inputs, base + 4 * w - 2, siblings[|path|], Fold(h, acc, path, siblings[..|path|]),
                NodeHash(h, ls, start, k, base), NodeHash(h, ls, start + w, k, base + 2 * w - 1));
  }

  lemma LeftIndex(h: Hash, ls: seq<seq<byte>>, start: nat, k: nat, w: nat, base: nat, i: nat)
    requires w == Pow2(k) && start + w + w <= |ls| && i < 2 * w - 1
    ensures Pow2(k + 1) == 2 * w && |TreeNodes(h, ls, start, k, base)| == 2 * w - 1
    ensures |TreeNodes(h, ls, start, k + 1, base)| == 4 * w - 1
    ensures TreeNodes(h, ls, start, k + 1, base)[i] == TreeNodes(h, ls, start, k, base)[i]
  {
    hide TreeNodes, NodeHash, Pow2;
    TreeUnfold(h, ls, start, k, w, base);
    TreeShape(h, ls, start, k, base);
    TreeShape(h, ls, start, k + 1, base);
  }

  lemma RightIndex(h: Hash, ls: seq<seq<byte>>, start: nat, k: nat, w: nat, base: nat, i: nat)
    requires w == Pow2(k) && start + w + w <= |ls| && i < 2 * w - 1
    ensures Pow2(k + 1) == 2 * w && |TreeNodes(h, ls, start + w, k, base + 2 * w - 1)| == 2 * w - 1
    ensures |TreeNodes(h, ls, start, k + 1, base)| == 4 * w - 1
    ensures TreeNodes(h, ls, start, k + 1, base)[2 * w - 1 + i] == TreeNodes(h, ls, start + w, k, base + 2 * w - 1)[i]
  {
    hide TreeNodes, NodeHash, Pow2;
    TreeUnfold(h, ls, start, k, w, base);
    TreeShape(h, ls, start, k, base);
    TreeShape(h, ls, start + w, k, base + 2 * w - 1);
    TreeShape(h, ls, start, k + 1, base);
  }

  /** A path that folds to the root of a tree can only start from the tree's own node. */
  lemma {:induction false} PathSound(sha: Sha, inputs: set<seq<byte>>, ls: seq<seq<byte>>, start: nat, k: nat, base: nat,
                                     target: nat, acc: Digest, siblings: seq<Digest>)
    requires !Collision(sha, inputs) && start + Pow2(k) <= |ls|
    requires base <= target <= base + 2 * Pow2(k) - 2
    requires |siblings| == |LocatePath(base, k, target)|
    requires TreeInputs(sha, ls, start, k, base) <= inputs
    requires FoldInputs(sha, acc, LocatePath(base, k, target), siblings) <= inputs
    requires Fold(Hasher(sha), acc, LocatePath(base, k, target), siblings) == NodeHash(Hasher(sha), ls, start, k, base)
    ensures |TreeNodes(Hasher(sha), ls, start, k, base)| == 2 * Pow2(k) - 1
    ensures acc == TreeNodes(Hasher(sha), ls, start, k, base)[target - base]
    decreases k
  {
    hide TreeNodes, NodeHash, Fold, LocatePath, TreeInputs, FoldInputs, Collision, Hasher;
    var h := Hasher(sha);
    LocateUnfold(base, k, target);
    TreeShape(h, ls, start, k, base);
    if k == 0 || target == base + 2 * Pow2(k) - 2 {
      FoldEmpty(h, acc, siblings);
    } else {
      var w := Pow2(k - 1);
      var wit := siblings[..|siblings| - 1];
      if target < base + 2 * w - 1 {
        LeftStep(sha, inputs, ls, start, k - 1, w, base, acc, LocatePath(base, k - 1, target), siblings);
        PathSound(sha, inputs, ls, start, k - 1, base, target, acc, wit);
        LeftIndex(h, ls, start, k - 1, w, base, target - base);
      } else {
        RightStep(sha, inputs, ls, start, k - 1, w, base, acc, LocatePath(base + 2 * w - 1, k - 1, target), siblings);
        PathSound(sha, inputs, ls, start + w, k - 1, base + 2 * w - 1, target, acc, wit);
        RightIndex(h, ls, start, k - 1, w, base, target - base - 2 * w + 1);
      }
    }
  }

  lemma FoldEmpty(h: Hash, acc: Digest, siblings: seq<Digest>)
    requires siblings == []
    ensures Fold(h, acc, [], siblings) == acc
  {}

  lemma HasIndex<T>(ns: seq<T>, at: nat, part: seq<T>, i: nat)
    requires Has(ns, at, part) && i < |part|
    ensures at + i < |ns| && ns[at + i] == part[i]
  {}

  /** Every peak hash of a range sits in its store at the peak's position, and is that peak's root. */
  lemma PeakInStore(h: Hash, ls: seq<seq<byte>>, n: nat, p: Peak)
    requires n <= |ls| && p in Peaks(n, 0, 0)
    ensures Within(p, n, 0, 0) && |Nodes(h, ls, 0, n, 0)| == NodeCount(n)
    ensures Has(Nodes(h, ls, 0, n, 0), p.base, TreeNodes(h, ls, p.start, p.height, p.base))
    ensures |TreeNodes(h, ls, p.start, p.height, p.base)| == 2 * Pow2(p.height) - 1
    ensures Nodes(h, ls, 0, n, 0)[p.Position()] == NodeHash(h, ls, p.start, p.height, p.base)
  {
    hide Nodes, TreeNodes, NodeHash, NodeCount, Has, Peaks, Pow2;
    PeakSlice(h, ls, 0, n, 0, p);
    NodesShape(h, ls, 0, n, 0);
    RootInStore(h, ls, p.start, p.height, p.base, Nodes(h, ls, 0, n, 0));
    TreeShape(h, ls, p.start, p.height, p.base);
  }

  /** The byte strings hashed into the nodes of a range. */
  ghost function NodesInputs(sha: Sha, ls: seq<seq<byte>>, start: nat, n: nat, base: nat): set<seq<byte>>
    requires start + n <= |ls|
    decreases n
  {
    if n == 0 then {}
    else
      var k := TopHeight(n);
      TreeInputs(sha, ls, start, k, base)
      + NodesInputs(sha, ls, start + Pow2(k), n - Pow2(k), base + 2 * Pow2(k) - 1)
  }

  lemma PeaksAndInputs(sha: Sha, ls: seq<seq<byte>>, start: nat, n: nat, base: nat)
    requires start + n <= |ls|
    ensures n == 0 ==> Peaks(n, base, start) == []
    ensures n > 0 ==>
      var k := TopHeight(n);
      && 0 < Pow2(k) <= n
      && Peaks(n, base, start) == [Peak(base, start, k)] + Peaks(n - Pow2(k), base + 2 * Pow2(k) - 1, start + Pow2(k))
      && NodesInputs(sha, ls, start, n, base)
         == TreeInputs(sha, ls, start, k, base) + NodesInputs(sha, ls, start + Pow2(k), n - Pow2(k), base + 2 * Pow2(k) - 1)
  {
    hide TreeInputs, TopHeight, Pow2;
  }

  lemma {:induction false} PeakInputs(sha: Sha, ls: seq<seq<byte>>, start: nat, n: nat, base: nat, p: Peak)
    requires start + n <= |ls| && p in Peaks(n, base, start)
    ensures p.start + Pow2(p.height) <= |ls|
    ensures TreeInputs(sha, ls, p.start, p.height, p.base) <= NodesInputs(sha, ls, start, n, base)
    decreases n
  {
    hide TreeInputs, NodesInputs, Peaks, TopHeight, Pow2;
    PeaksAndInputs(sha, ls, start, n, base);
    var k := TopHeight(n);
    if p != Peak(base, start, k) {
      PeakInputs(sha, ls, start + Pow2(k), n - Pow2(k), base + 2 * Pow2(k) - 1, p);
    }
  }

  /** A digest that folds to a peak of the log's store is the node the store holds at that position. */
  lemma PeakClimb(sha: Sha, inputs: set<seq<byte>>, ls: seq<seq<byte>>, p: Peak, pos: nat, node: Digest,
                  siblings: seq<Digest>)
    requires !Collision(sha, inputs) && p in Peaks(|ls|, 0, 0) && p.base <= pos <= p.Position()
    requires |siblings| == |LocatePath(p.base, p.height, pos)|
    requires NodesInputs(sha, ls, 0, |ls|, 0) <= inputs
    requires FoldInputs(sha, node, LocatePath(p.base, p.height, pos), siblings) <= inputs
    requires p.Position() < |Nodes(Hasher(sha), ls, 0, |ls|, 0)|
    requires Fold(Hasher(sha), node, LocatePath(p.base, p.height, pos), siblings)
             == Nodes(Hasher(sha), ls, 0, |ls|, 0)[p.Position()]
    ensures node == Nodes(Hasher(sha), ls, 0, |ls|, 0)[pos]
  {
    hide Nodes, TreeNodes, NodeHash, NodeCount, Has, Fold, LocatePath, Peaks, Pow2;
    hide Collision, TreeInputs, NodesInputs, FoldInputs, Hasher;
    var i := pos - p.base;
    PeakInStore(Hasher(sha), ls, |ls|, p);
    PeakInputs(sha, ls, 0, |ls|, 0, p);
    PathSound(sha, inputs, ls, p.start, p.height, p.base, pos, node, siblings);
    HasIndex(Nodes(Hasher(sha), ls, 0, |ls|, 0), p.base, TreeNodes(Hasher(sha), ls, p.start, p.height, p.base), i);
  }

  /** The byte strings hashed to check that one old peak climbs. */
  ghost function ClimbInputs(sha: Sha, pos: nat, node: Digest, siblings: seq<string>, ps: seq<Peak>): set<seq<byte>> {
    var j := FindPeak(ps, pos);
    if j < |ps| && ps[j].base <= pos && DecodeDigests(siblings).Some?
       && |siblings| == |LocatePath(ps[j].base, ps[j].height, pos)| then
      FoldInputs(sha, node, LocatePath(ps[j].base, ps[j].height, pos), DecodeDigests(siblings).value)
    else {}
  }

  lemma ClimbsSound(sha: Sha, inputs: set<seq<byte>>, ls: seq<seq<byte>>, pos: nat, node: Digest, siblings: seq<string>,
                    news: seq<Digest>)
    requires !Collision(sha, inputs) && NodesInputs(sha, ls, 0, |ls|, 0) <= inputs
    requires ClimbInputs(sha, pos, node, siblings, Peaks(|ls|, 0, 0)) <= inputs
    requires |news| == |Peaks(|ls|, 0, 0)| && news == StorePeaks(Hasher(sha), ls, |ls|)
    requires Climbs(Hasher(sha), pos, node, siblings, Peaks(|ls|, 0, 0), news)
    ensures pos < |Nodes(Hasher(sha), ls, 0, |ls|, 0)| && node == Nodes(Hasher(sha), ls, 0, |ls|, 0)[pos]
  {
    hide Nodes, TreeNodes, NodeHash, NodeCount, Has, Fold, LocatePath, Peaks, DecodeDigests;
    hide Collision, NodesInputs, FoldInputs, Hasher;
    var ps := Peaks(|ls|, 0, 0);
    var p := ps[FindPeak(ps, pos)];
    PeakInStore(Hasher(sha), ls, |ls|, p);
    PeakClimb(sha, inputs, ls, p, pos, node, DecodeDigests(siblings).value);
  }

  /** The peak hashes of the first n leaves. */
  function StorePeaks(h: Hash, ls: seq<seq<byte>>, n: nat): (ds: seq<Digest>)
    requires n <= |ls|
    ensures |ds| == |Peaks(n, 0, 0)|
    ensures forall i :: 0 <= i < |ds| ==>
      Peaks(n, 0, 0)[i].Position() < |Nodes(h, ls, 0, n, 0)| && ds[i] == Nodes(h, ls, 0, n, 0)[Peaks(n, 0, 0)[i].Position()]
    ensures Bag(h, ds) == RootAt(h, ls, n)
  {
    PeaksBounds(n, 0, 0);
    NodesShape(h, ls, 0, n, 0);
    PeakHashes(Nodes(h, ls, 0, n, 0), Peaks(n, 0, 0))
  }

  lemma {:induction false} PopCountStep(n: nat)
    ensures PopCount(n + 1) <= PopCount(n) + 1
  {
    if n % 2 == 1 { PopCountStep(n / 2); }
  }

  lemma {:induction false} NodeCountMonotone(a: nat, b: nat)
    requires a < b
    ensures NodeCount(a) < NodeCount(b)
    decreases b
  {
    PopCountStep(b - 1);
    if a < b - 1 { NodeCountMonotone(a, b - 1); }
  }

  /** The byte strings hashed to compute the root of a log. */
  ghost function RootInputs(sha: Sha, ls: seq<seq<byte>>): set<seq<byte>> {
    NodesInputs(sha, ls, 0, |ls|, 0) + BagInputs(sha, StorePeaks(Hasher(sha), ls, |ls|))
  }

  /** The byte strings hashed to check that the first n old peaks climb. */
  ghost function ClimbsInputs(sha: Sha, pa: seq<Peak>, olds: seq<Digest>, siblings: seq<seq<string>>, pb: seq<Peak>,
                              n: nat): set<seq<byte>>
    requires |olds| == |siblings| == |pa| && n <= |pa|
  {
    if n == 0 then {}
    else
      ClimbsInputs(sha, pa, olds, siblings, pb, n - 1)
      + ClimbInputs(sha, pa[n - 1].Position(), olds[n - 1], siblings[n - 1], pb)
  }

  lemma {:induction false} ClimbAmong(sha: Sha, pa: seq<Peak>, olds: seq<Digest>, siblings: seq<seq<string>>,
                                      pb: seq<Peak>, n: nat, i: nat)
    requires |olds| == |siblings| == |pa| && i < n <= |pa|
    ensures ClimbInputs(sha, pa[i].Position(), olds[i], siblings[i], pb) <= ClimbsInputs(sha, pa, olds, siblings, pb, n)
  {
    hide ClimbInputs;
    if i < n - 1 { ClimbAmong(sha, pa, olds, siblings, pb, n - 1, i); }
  }

  /** The byte strings hashed to check a proof that has decoded. */
  ghost function BridgeInputs(sha: Sha, na: nat, olds: seq<Digest>, nb: nat, news: seq<Digest>,
                              siblings: seq<seq<string>>): set<seq<byte>>
    requires |olds| == |siblings| == |Peaks(na, 0, 0)|
  {
    BagInputs(sha, olds) + BagInputs(sha, news)
    + ClimbsInputs(sha, Peaks(na, 0, 0), olds, siblings, Peaks(nb, 0, 0), |olds|)
  }

  /** The byte strings hashed to check a proof as it travels. */
  ghost function CheckInputs(sha: Sha, p: ConsistencyProof): set<seq<byte>> {
    if LeavesOf(p.sizeA).Some? && LeavesOf(p.sizeB).Some? && DecodeDigests(p.oldPeaks).Some?
       && DecodeDigests(p.newPeaks).Some?
       && |p.oldPeaks| == |p.siblings| == |Peaks(LeavesOf(p.sizeA).value, 0, 0)| then
      BridgeInputs(sha, LeavesOf(p.sizeA).value, DecodeDigests(p.oldPeaks).value,
                   LeavesOf(p.sizeB).value, DecodeDigests(p.newPeaks).value, p.siblings)
    else {}
  }

  lemma BridgesSound(sha: Sha, inputs: set<seq<byte>>, ls: seq<seq<byte>>, na: nat, rootA: seq<byte>, olds: seq<Digest>,
                     news: seq<Digest>, siblings: seq<seq<string>>)
    requires !Collision(sha, inputs) && RootInputs(sha, ls) <= inputs && na <= |ls|
    requires Bridges(Hasher(sha), na, rootA, olds, |ls|, Root(Hasher(sha), ls), news, siblings)
    requires BridgeInputs(sha, na, olds, |ls|, news, siblings) <= inputs
    ensures rootA == Root(Hasher(sha), ls[..na])
  {
    hide Nodes, TreeNodes, NodeHash, NodeCount, Has, Fold, LocatePath, Climbs, Bag, Peaks, DecodeDigests;
    hide Collision, Hasher, NodesInputs, BagInputs, ClimbInputs, ClimbsInputs;
    var h, nb := Hasher(sha), |ls|;
    var pa, pb := Peaks(na, 0, 0), Peaks(nb, 0, 0);
    BagInjective(sha, inputs, news, StorePeaks(h, ls, nb));
    NodesPrefix(h, ls, 0, na, nb, 0);
    PeaksBounds(na, 0, 0);
    NodesShape(h, ls, 0, na, 0);
    forall i | 0 <= i < |pa| ensures olds[i] == StorePeaks(h, ls, na)[i] {
      ClimbAmong(sha, pa, olds, siblings, pb, |olds|, i);
      ClimbsSound(sha, inputs, ls, pa[i].Position(), olds[i], siblings[i], news);
      assert Within(pa[i], na, 0, 0);
    }
    assert olds == StorePeaks(h, ls, na);
    RootAgree(h, ls, na);
  }

  /** SOUNDNESS. If the newer root commits to the leaves `ls`, a proof that verifies forces the older root to be the
      root over the first leaves of `ls`, as many as the older size covers, unless two different byte strings among
      those hashed for the newer root and for the check have one digest. */
  lemma ConsistencySound(sha: Sha, ls: seq<seq<byte>>, rootA: seq<byte>, sizeA: int, p: ConsistencyProof)
    requires VerifyConsistency(Hasher(sha), rootA, sizeA, Root(Hasher(sha), ls), NodeCount(|ls|), p)
    ensures LeavesOf(sizeA).Some? && LeavesOf(sizeA).value <= |ls|
    ensures rootA == Root(Hasher(sha), ls[..LeavesOf(sizeA).value])
            || Collision(sha, RootInputs(sha, ls) + CheckInputs(sha, p))
  {
    hide Bridges, BridgeInputs, RootInputs, Collision, Root, Hasher, NodeCount, LeafCount, DecodeDigests, Peaks;
    var na, nb := LeavesOf(sizeA).value, |ls|;
    LeafCountInverse(sizeA, na);
    LeafCountInverse(NodeCount(nb), nb);
    if na > nb { NodeCountMonotone(nb, na); }
    var inputs := RootInputs(sha, ls) + CheckInputs(sha, p);
    var olds, news := DecodeDigests(p.oldPeaks).value, DecodeDigests(p.newPeaks).value;
    BridgesLengths(Hasher(sha), na, rootA, olds, nb, Root(Hasher(sha), ls), news, p.siblings);
    if !Collision(sha, inputs) {
      BridgesSound(sha, inputs, ls, na, rootA, olds, news, p.siblings);
    }
  }

  lemma BridgesLengths(h: Hash, na: nat, rootA: seq<byte>, olds: seq<Digest>, nb: nat, rootB: seq<byte>,
                       news: seq<Digest>, siblings: seq<seq<string>>)
    requires Bridges(h, na, rootA, olds, nb, rootB, news, siblings)
    ensures |olds| == |siblings| == |Peaks(na, 0, 0)|
  {}

  // ---------------------------------------------------------------- completeness

  function At(ns: seq<Digest>, i: nat): Digest {
    if i < |ns| then ns[i] else ZERO_ROOT
  }

  function Siblings(ns: seq<Digest>, path: seq<Step>): (ds: seq<Digest>)
    ensures |ds| == |path| && forall i :: 0 <= i < |path| ==> ds[i] == At(ns, path[i].sibling)
  {
    seq(|path|, i requires 0 <= i < |path| => At(ns, path[i].sibling))
  }

  /** A store that holds a tree holds both its subtrees, with the three roots where the path looks for them. */
  lemma TreeInStore(h: Hash, ls: seq<seq<byte>>, start: nat, k: nat, w: nat, base: nat, ns: seq<Digest>)
    requires w == Pow2(k) && start + w + w <= |ls|
    requires Has(ns, base, TreeNodes(h, ls, start, k + 1, base))
    ensures Has(ns, base, TreeNodes(h, ls, start, k, base))
    ensures Has(ns, base + 2 * w - 1, TreeNodes(h, ls, start + w, k, base + 2 * w - 1))
    ensures base + 4 * w - 1 <= |ns|
    ensures ns[base + 2 * w - 2] == NodeHash(h, ls, start, k, base)
    ensures ns[base + 4 * w - 3] == NodeHash(h, ls, start + w, k, base + 2 * w - 1)
    ensures NodeHash(h, ls, start, k + 1, base)
            == h(InteriorPre(base + 4 * w - 2, ns[base + 2 * w - 2], ns[base + 4 * w - 3]))
  {
    hide TreeNodes, NodeHash, Has, Pow2;
    var left, right := TreeNodes(h, ls, start, k, base), TreeNodes(h, ls, start + w, k, base + 2 * w - 1);
    TreeUnfold(h, ls, start, k, w, base);
    TreeShape(h, ls, start, k + 1, base);
    TreeShape(h, ls, start, k, base);
    TreeShape(h, ls, start + w, k, base + 2 * w - 1);
    HasParts(ns, base, left, right, [NodeHash(h, ls, start, k + 1, base)]);
    HasIndex(ns, base, left, 2 * w - 2);
    HasIndex(ns, base + 2 * w - 1, right, 2 * w - 2);
    HasIndex(ns, base, TreeNodes(h, ls, start, k + 1, base), 4 * w - 2);
  }

  lemma RootInStore(h: Hash, ls: seq<seq<byte>>, start: nat, k: nat, base: nat, ns: seq<Digest>)
    requires start + Pow2(k) <= |ls| && Has(ns, base, TreeNodes(h, ls, start, k, base))
    ensures base + 2 * Pow2(k) - 1 <= |ns|
    ensures ns[base + 2 * Pow2(k) - 2] == NodeHash(h, ls, start, k, base)
  {
    hide TreeNodes, NodeHash, Has;
    TreeShape(h, ls, start, k, base);
    HasIndex(ns, base, TreeNodes(h, ls, start, k, base), 2 * Pow2(k) - 2);
  }

  /** A store that holds a tree folds any of its nodes up to the tree's root. */
  lemma {:induction false} PathComplete(h: Hash, ls: seq<seq<byte>>, start: nat, k: nat, base: nat, target: nat,
                                        ns: seq<Digest>)
    requires start + Pow2(k) <= |ls| && base <= target <= base + 2 * Pow2(k) - 2
    requires Has(ns, base, TreeNodes(h, ls, start, k, base))
    ensures base + 2 * Pow2(k) - 1 <= |ns|
    ensures Fold(h, ns[target], LocatePath(base, k, target), Siblings(ns, LocatePath(base, k, target)))
            == NodeHash(h, ls, start, k, base)
    decreases k
  {
    hide TreeNodes, NodeHash, Fold, Has, LocatePath, Siblings;
    RootInStore(h, ls, start, k, base, ns);
    if k == 0 || target == base + 2 * Pow2(k) - 2 {
      LocateUnfold(base, k, target);
      NoSiblings(h, ns, ns[target]);
    } else {
      var w := Pow2(k - 1);
      TreeInStore(h, ls, start, k - 1, w, base, ns);
      if target < base + 2 * w - 1 {
        PathComplete(h, ls, start, k - 1, base, target, ns);
        PathLeft(h, ls, start, k - 1, w, base, target, ns);
      } else {
        PathComplete(h, ls, start + w, k - 1, base + 2 * w - 1, target, ns);
        PathRight(h, ls, start, k - 1, w, base, target, ns);
      }
    }
  }

  lemma PathLeft(h: Hash, ls: seq<seq<byte>>, start: nat, k: nat, w: nat, base: nat, target: nat, ns: seq<Digest>)
    requires w == Pow2(k) && start + w + w <= |ls| && base <= target < base + 2 * w - 1
    requires Pow2(k + 1) == 2 * w && Has(ns, base, TreeNodes(h, ls, start, k + 1, base)) && target < |ns|
    requires Fold(h, ns[target], LocatePath(base, k, target), Siblings(ns, LocatePath(base, k, target)))
             == NodeHash(h, ls, start, k, base)
    ensures Fold(h, ns[target], LocatePath(base, k + 1, target), Siblings(ns, LocatePath(base, k + 1, target)))
            == NodeHash(h, ls, start, k + 1, base)
  {
    hide TreeNodes, NodeHash, Fold, Has, LocatePath, Siblings, Pow2;
    LocateUnfold(base, k + 1, target);
    TreeInStore(h, ls, start, k, w, base, ns);
    FoldLeft(h, ns, ns[target], LocatePath(base, k, target), base + 4 * w - 2, base + 4 * w - 3);
  }

  lemma PathRight(h: Hash, ls: seq<seq<byte>>, start: nat, k: nat, w: nat, base: nat, target: nat, ns: seq<Digest>)
    requires w == Pow2(k) && start + w + w <= |ls| && base + 2 * w - 1 <= target < base + 4 * w - 2
    requires Pow2(k + 1) == 2 * w && Has(ns, base, TreeNodes(h, ls, start, k + 1, base)) && target < |ns|
    requires Fold(h, ns[target], LocatePath(base + 2 * w - 1, k, target), Siblings(ns, LocatePath(base + 2 * w - 1, k, target)))
             == NodeHash(h, ls, start + w, k, base + 2 * w - 1)
    ensures Fold(h, ns[target], LocatePath(base, k + 1, target), Siblings(ns, LocatePath(base, k + 1, target)))
            == NodeHash(h, ls, start, k + 1, base)
  {
    hide TreeNodes, NodeHash, Fold, Has, LocatePath, Siblings, Pow2;
    LocateUnfold(base, k + 1, target);
    TreeInStore(h, ls, start, k, w, base, ns);
    FoldRight(h, ns, ns[target], LocatePath(base + 2 * w - 1, k, target), base + 4 * w - 2, base + 2 * w - 2);
  }

  lemma NoSiblings(h: Hash, ns: seq<Digest>, acc: Digest)
    ensures Siblings(ns, []) == [] && Fold(h, acc, [], Siblings(ns, [])) == acc
  {}

  lemma FoldLeft(h: Hash, ns: seq<Digest>, acc: Digest, path: seq<Step>, parent: nat, sibling: nat)
    requires sibling < |ns|
    ensures var s := Step(parent, sibling, false);
            Fold(h, acc, path + [s], Siblings(ns, path + [s]))
            == h(InteriorPre(parent, Fold(h, acc, path, Siblings(ns, path)), ns[sibling]))
  {
    FoldSiblings(h, ns, acc, path, Step(parent, sibling, false));
  }

  lemma FoldRight(h: Hash, ns: seq<Digest>, acc: Digest, path: seq<Step>, parent: nat, sibling: nat)
    requires sibling < |ns|
    ensures var s := Step(parent, sibling, true);
            Fold(h, acc, path + [s], Siblings(ns, path + [s]))
            == h(InteriorPre(parent, ns[sibling], Fold(h, acc, path, Siblings(ns, path))))
  {
    FoldSiblings(h, ns, acc, path, Step(parent, sibling, true));
  }

  lemma FoldSiblings(h: Hash, ns: seq<Digest>, acc: Digest, path: seq<Step>, s: Step)
    ensures Fold(h, acc, path + [s], Siblings(ns, path + [s]))
            == h(ParentPre(s, Fold(h, acc, path, Siblings(ns, path)), At(ns, s.sibling)))
  {
    hide Fold, ParentPre;
    FoldSnoc(h, acc, path, s, Siblings(ns, path + [s]));
    assert Siblings(ns, path + [s])[..|path|] == Siblings(ns, path);
  }

  lemma HasParts<T>(ns: seq<T>, at: nat, a: seq<T>, b: seq<T>, c: seq<T>)
    requires Has(ns, at, a + b + c)
    ensures Has(ns, at, a) && Has(ns, at + |a|, b)
  {
    forall i | 0 <= i < |b| ensures b[i] == ns[at + |a| + i] {
      assert (a + b + c)[|a| + i] == b[i];
    }
    forall i | 0 <= i < |a| ensures a[i] == ns[at + i] {
      assert (a + b + c)[i] == a[i];
    }
  }

  lemma {:induction false} FindPeakCovers(n: nat, base: nat, start: nat, pos: nat)
    requires base <= pos < base + NodeCount(n)
    ensures var j := FindPeak(Peaks(n, base, start), pos);
            j < |Peaks(n, base, start)| && Peaks(n, base, start)[j].base <= pos
    decreases n
  {
    hide NodeCount, FindPeak, TopHeight;
    if n > 0 {
      var k := TopHeight(n);
      var base' := base + 2 * Pow2(k) - 1;
      NodeCountTop(n);
      FindPeakCons(Peak(base, start, k), Peaks(n - Pow2(k), base', start + Pow2(k)), pos);
      if pos >= base' {
        FindPeakCovers(n - Pow2(k), base', start + Pow2(k), pos);
      }
    } else {
      ScaleZero(0);
    }
  }

  lemma FindPeakCons(p: Peak, ps: seq<Peak>, pos: nat)
    ensures FindPeak([p] + ps, pos) == if pos <= p.Position() then 0 else 1 + FindPeak(ps, pos)
  {}

  /** The sibling hashes that carry the node at `pos` to the peak above it. */
  function WitnessFor(ns: seq<Digest>, pos: nat, ps: seq<Peak>): seq<string> {
    var j := FindPeak(ps, pos);
    if j < |ps| && ps[j].base <= pos && ps[j].Position() < |ns| then
      EncodeDigests(Siblings(ns, LocatePath(ps[j].base, ps[j].height, pos)))
    else []
  }

  function Witnesses(ns: seq<Digest>, pa: seq<Peak>, pb: seq<Peak>): (r: seq<seq<string>>)
    ensures |r| == |pa| && forall i :: 0 <= i < |pa| ==> r[i] == WitnessFor(ns, pa[i].Position(), pb)
  {
    seq(|pa|, i requires 0 <= i < |pa| => WitnessFor(ns, pa[i].Position(), pb))
  }

  /** `consistency_proof`; `None` is the InvalidArgumentError for sizes the store cannot bridge. */
  function BuildProof(ns: seq<Digest>, sizeA: int, sizeB: int): Option<ConsistencyProof> {
    if LeavesOf(sizeA).None? || LeavesOf(sizeB).None? || sizeA > sizeB || sizeB > |ns| then None
    else
      var pa, pb := Peaks(LeavesOf(sizeA).value, 0, 0), Peaks(LeavesOf(sizeB).value, 0, 0);
      PeaksBounds(LeavesOf(sizeA).value, 0, 0);
      PeaksBounds(LeavesOf(sizeB).value, 0, 0);
      LeafCountInverse(sizeA, LeavesOf(sizeA).value);
      LeafCountInverse(sizeB, LeavesOf(sizeB).value);
      Some(ConsistencyProof(
        1, "consistency", sizeA, sizeB, EncodeDigests(PeakHashes(ns, pa)),
        Witnesses(ns, pa, pb), EncodeDigests(PeakHashes(ns, pb))))
  }

  lemma ClimbsComplete(h: Hash, ls: seq<seq<byte>>, n: nat, ns: seq<Digest>, pos: nat)
    requires n <= |ls| && Nodes(h, ls, 0, n, 0) <= ns && pos < NodeCount(n)
    ensures pos < |ns|
    ensures Climbs(h, pos, ns[pos], WitnessFor(ns, pos, Peaks(n, 0, 0)), Peaks(n, 0, 0), StorePeaks(h, ls, n))
  {
    hide Nodes, TreeNodes, NodeHash, NodeCount, Has, Fold, LocatePath, Peaks, DecodeDigests;
    NodesShape(h, ls, 0, n, 0);
    FindPeakCovers(n, 0, 0, pos);
    var ps := Peaks(n, 0, 0);
    var p := ps[FindPeak(ps, pos)];
    PeakInStore(h, ls, n, p);
    HasPrefix(Nodes(h, ls, 0, n, 0), ns, p.base, TreeNodes(h, ls, p.start, p.height, p.base));
    PathComplete(h, ls, p.start, p.height, p.base, pos, ns);
    DigestsRoundTrip(Siblings(ns, LocatePath(p.base, p.height, pos)));
  }

  lemma HasPrefix<T>(a: seq<T>, b: seq<T>, at: nat, part: seq<T>)
    requires a <= b && Has(a, at, part)
    ensures Has(b, at, part)
  {}

  lemma PrefixPeaks(h: Hash, ls: seq<seq<byte>>, n: nat, ns: seq<Digest>)
    requires n <= |ls| && Nodes(h, ls, 0, n, 0) <= ns
    ensures forall p :: p in Peaks(n, 0, 0) ==> p.Position() < |ns|
    ensures PeakHashes(ns, Peaks(n, 0, 0)) == StorePeaks(h, ls, n)
  {
    hide Nodes, Peaks, NodeCount;
    PeaksBounds(n, 0, 0);
    NodesShape(h, ls, 0, n, 0);
  }

  lemma SizesInOrder(a: nat, b: nat)
    requires a <= b
    ensures NodeCount(a) <= NodeCount(b)
    ensures LeavesOf(NodeCount(a)) == Some(a)
  {
    if a < b { NodeCountMonotone(a, b); }
    LeafCountInverse(NodeCount(a), a);
  }

  lemma BridgesComplete(h: Hash, ls: seq<seq<byte>>, a: nat, b: nat, ns: seq<Digest>)
    requires a <= b <= |ls| && Nodes(h, ls, 0, b, 0) <= ns
    ensures Bridges(h, a, RootAt(h, ls, a), StorePeaks(h, ls, a), b, RootAt(h, ls, b), StorePeaks(h, ls, b),
                    Witnesses(ns, Peaks(a, 0, 0), Peaks(b, 0, 0)))
  {
    hide Nodes, NodeCount, Climbs, Bag, Peaks, WitnessFor;
    NodesPrefix(h, ls, 0, a, b, 0);
    SizesInOrder(a, b);
    PeaksBounds(a, 0, 0);
    var pa, pb := Peaks(a, 0, 0), Peaks(b, 0, 0);
    forall i | 0 <= i < |pa|
      ensures Climbs(h, pa[i].Position(), StorePeaks(h, ls, a)[i], WitnessFor(ns, pa[i].Position(), pb), pb, StorePeaks(h, ls, b))
    {
      assert Within(pa[i], a, 0, 0);
      ClimbsComplete(h, ls, b, ns, pa[i].Position());
    }
  }

  /** COMPLETENESS. The proof cut from a log's own store bridges any two of its sizes. */
  lemma ConsistencyComplete(h: Hash, ls: seq<seq<byte>>, a: nat, b: nat)
    requires a <= b <= |ls|
    ensures var r := BuildProof(Nodes(h, ls, 0, |ls|, 0), NodeCount(a), NodeCount(b));
            r.Some? && VerifyConsistency(h, RootAt(h, ls, a), NodeCount(a), RootAt(h, ls, b), NodeCount(b), r.value)
  {
    hide Nodes, NodeCount, LeavesOf, Bag, Peaks, DecodeDigests, Bridges, EncodeDigests, Witnesses, RootAt, PeakHashes;
    var ns := Nodes(h, ls, 0, |ls|, 0);
    SizesInOrder(a, b);
    SizesInOrder(b, |ls|);
    BuiltProof(h, ls, a, b);
    NodesPrefix(h, ls, 0, b, |ls|, 0);
    DigestsRoundTrip(StorePeaks(h, ls, a));
    DigestsRoundTrip(StorePeaks(h, ls, b));
    BridgesComplete(h, ls, a, b, ns);
  }

  /** The proof the builder cuts, part by part. */
  lemma BuiltProof(h: Hash, ls: seq<seq<byte>>, a: nat, b: nat)
    requires a <= b <= |ls|
    ensures var ns := Nodes(h, ls, 0, |ls|, 0);
            BuildProof(ns, NodeCount(a), NodeCount(b)) == Some(ConsistencyProof(
              1, "consistency", NodeCount(a), NodeCount(b), EncodeDigests(StorePeaks(h, ls, a)),
              Witnesses(ns, Peaks(a, 0, 0), Peaks(b, 0, 0)), EncodeDigests(StorePeaks(h, ls, b))))
  {
    hide Nodes, NodeCount, LeavesOf, Bag, Peaks, EncodeDigests, Witnesses, RootAt, PeakHashes, StorePeaks;
    var ns := Nodes(h, ls, 0, |ls|, 0);
    SizesInOrder(a, b);
    SizesInOrder(b, |ls|);
    NodesShape(h, ls, 0, |ls|, 0);
    NodesPrefix(h, ls, 0, a, |ls|, 0);
    NodesPrefix(h, ls, 0, b, |ls|, 0);
    PrefixPeaks(h, ls, a, ns);
    PrefixPeaks(h, ls, b, ns);
  }
}
