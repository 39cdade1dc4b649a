/** The range spelled out on five leaves, as the reference vectors compute it by hand. */
module MmrPlain {
  import opened Bytes
  import opened Mmr
  import opened Consistency

  lemma FivePeaks()
    ensures Peaks(5, 0, 0) == [Peak(0, 0, 2), Peak(7, 4, 0)]
    ensures Pow2(0) == 1 && Pow2(1) == 2 && Pow2(2) == 4
    ensures NodeCount(5) == 8
  {
    assert Pow2(1) == 2 * Pow2(0) && Pow2(2) == 2 * Pow2(1) && Pow2(3) == 2 * Pow2(2);
    TopHeightUnique(5, 2);
    TopHeightUnique(1, 0);
    assert Peaks(0, 8, 5) == [];
    assert Peaks(1, 7, 4) == [Peak(7, 4, 0)] + Peaks(0, 8, 5);
    assert PopCount(5) == 1 + PopCount(2) && PopCount(2) == 0 + PopCount(1) && PopCount(1) == 1 + PopCount(0);
  }

  lemma EightBytes(n: nat)
    requires n < 256
    ensures BigEndian(n, 8) == [0, 0, 0, 0, 0, 0, 0, n]
  {
    Zeros(7);
    assert n / 256 == 0 && n % 256 == n;
    assert BigEndian(n, 8) == BigEndian(0, 7) + [n];
  }

  lemma {:induction false} Zeros(k: nat)
    ensures |BigEndian(0, k)| == k && forall i :: 0 <= i < k ==> BigEndian(0, k)[i] == 0
  {
    if k > 0 { Zeros(k - 1); }
  }

  lemma FiveHashes(h: Hash, b: seq<seq<byte>>)
    requires |b| == 5 && Pow2(0) == 1 && Pow2(1) == 2 && Pow2(2) == 4
    ensures NodeHash(h, b, 4, 0, 7) == h(LeafPre(b[4]))
    ensures NodeHash(h, b, 0, 2, 0) ==
      h(InteriorPre(6, h(InteriorPre(2, h(LeafPre(b[0])), h(LeafPre(b[1])))),
                       h(InteriorPre(5, h(LeafPre(b[2])), h(LeafPre(b[3]))))))
  {
    TreeUnfold(h, b, 0, 1, 2, 0);
    TreeUnfold(h, b, 0, 0, 1, 0);
    TreeUnfold(h, b, 2, 0, 1, 3);
  }

  lemma BagTwo(h: Hash, x: Digest, y: Digest)
    ensures Bag(h, [x, y]) == h(BagPre(y, x))
  {
    assert [x, y][1..] == [y];
  }

  lemma FiveBagged(h: Hash, b: seq<seq<byte>>)
    requires |b| == 5
    ensures Root(h, b) ==
      h(BagPre(h(LeafPre(b[4])),
               h(InteriorPre(6, h(InteriorPre(2, h(LeafPre(b[0])), h(LeafPre(b[1])))),
                                h(InteriorPre(5, h(LeafPre(b[2])), h(LeafPre(b[3]))))))))
  {
    hide Nodes, NodeHash, TreeNodes, Peaks, Bag, Pow2, NodeCount;
    FivePeaks();
    FiveHashes(h, b);
    var x, y := Peak(0, 0, 2), Peak(7, 4, 0);
    assert x in Peaks(5, 0, 0) && y in Peaks(5, 0, 0);
    PeakInStore(h, b, 5, x);
    PeakInStore(h, b, 5, y);
    assert PeakHashes(Nodes(h, b, 0, 5, 0), Peaks(5, 0, 0)) == [NodeHash(h, b, 0, 2, 0), NodeHash(h, b, 4, 0, 7)];
    BagTwo(h, NodeHash(h, b, 0, 2, 0), NodeHash(h, b, 4, 0, 7));
  }

  lemma PairHash(sha: Sha, position: nat, l: Digest, r: Digest)
    requires 0 < position < 256
    ensures Hasher(sha)(InteriorPre(position - 1, l, r)) == sha([0, 0, 0, 0, 0, 0, 0, position] + l + r)
  {
    hide BigEndian;
    EightBytes(position);
    assert Layout(InteriorPre(position - 1, l, r)) == [0, 0, 0, 0, 0, 0, 0, position] + l + r;
    assert Hasher(sha)(InteriorPre(position - 1, l, r)) == sha(Layout(InteriorPre(position - 1, l, r)));
  }

  lemma LeafHashed(sha: Sha, body: seq<byte>)
    ensures Hasher(sha)(LeafPre(body)) == sha([0] + body)
  {
    assert Hasher(sha)(LeafPre(body)) == sha(Layout(LeafPre(body)));
  }

  lemma BagHashed(sha: Sha, right: Digest, left: Digest)
    ensures Hasher(sha)(BagPre(right, left)) == sha(right + left)
  {
    assert Hasher(sha)(BagPre(right, left)) == sha(Layout(BagPre(right, left)));
  }

  /** The root over five leaves: two pairs under positions 2 and 5, those under position 6, bagged behind the fifth leaf.
      A leaf is hashed behind a zero byte, a pair behind its position counted from one in eight bytes. */
  lemma FiveLeafRoot(sha: Sha, b: seq<seq<byte>>)
    requires |b| == 5
    ensures
      var p2 := sha([0, 0, 0, 0, 0, 0, 0, 3] + sha([0] + b[0]) + sha([0] + b[1]));
      var p5 := sha([0, 0, 0, 0, 0, 0, 0, 6] + sha([0] + b[2]) + sha([0] + b[3]));
      var p6 := sha([0, 0, 0, 0, 0, 0, 0, 7] + p2 + p5);
      Root(Hasher(sha), b) == sha(sha([0] + b[4]) + p6)
  {
    hide Root, Layout, Hasher;
    var h := Hasher(sha);
    FiveBagged(h, b);
    forall i | 0 <= i < 5 ensures h(LeafPre(b[i])) == sha([0] + b[i]) { LeafHashed(sha, b[i]); }
    var l0, l1, l2, l3 := sha([0] + b[0]), sha([0] + b[1]), sha([0] + b[2]), sha([0] + b[3]);
    var p2 := sha([0, 0, 0, 0, 0, 0, 0, 3] + l0 + l1);
    var p5 := sha([0, 0, 0, 0, 0, 0, 0, 6] + l2 + l3);
    var p6 := sha([0, 0, 0, 0, 0, 0, 0, 7] + p2 + p5);
    PairHash(sha, 3, l0, l1);
    PairHash(sha, 6, l2, l3);
    PairHash(sha, 7, p2, p5);
    BagHashed(sha, sha([0] + b[4]), p6);
  }

  lemma {:induction false} PeaksCount(n: nat, base: nat, start: nat)
    ensures |Peaks(n, base, start)| == PopCount(n)
    decreases n
  {
    hide TopHeight;
    if n > 0 {
      var k := TopHeight(n);
      PopCountTop(k, n - Pow2(k));
      PeaksCount(n - Pow2(k), base + 2 * Pow2(k) - 1, start + Pow2(k));
    }
  }

  /** A digest on the wire: hexadecimal of 32 bytes. */
  ghost predicate Wire(s: string) {
    FromHex(s).Some? && |FromHex(s).value| == 32
  }

  lemma {:induction false} WireDigests(hs: seq<string>)
    ensures DecodeDigests(hs).Some? <==> forall i :: 0 <= i < |hs| ==> Wire(hs[i])
  {
    hide FromHex;
    if hs != [] {
      WireDigests(hs[1..]);
      assert forall i :: 0 < i < |hs| ==> hs[i] == hs[1..][i - 1];
      assert forall i :: 0 <= i < |hs[1..]| ==> hs[1..][i] == hs[i + 1];
    }
  }

  /** What every accepted consistency proof looks like, whatever the roots: version 1 of its kind, naming the two sizes,
      which are sizes a range has, in order; one digest for each old and each new peak, and one list of siblings for each
      old peak; every digest is 32 bytes. */
  lemma ProofShape(h: Hash, rootA: seq<byte>, sizeA: int, rootB: seq<byte>, sizeB: int, p: ConsistencyProof)
    returns (na: nat, nb: nat)
    requires VerifyConsistency(h, rootA, sizeA, rootB, sizeB, p)
    ensures p.v == 1 && p.kind == "consistency" && p.sizeA == sizeA && p.sizeB == sizeB && sizeA <= sizeB
    ensures sizeA == 2 * na - PopCount(na) && sizeB == 2 * nb - PopCount(nb)
    ensures |p.oldPeaks| == PopCount(na) == |p.siblings| && |p.newPeaks| == PopCount(nb)
    ensures forall i :: 0 <= i < |p.oldPeaks| ==> Wire(p.oldPeaks[i])
    ensures forall i :: 0 <= i < |p.newPeaks| ==> Wire(p.newPeaks[i])
    ensures forall i :: 0 <= i < |p.siblings| ==> forall k :: 0 <= k < |p.siblings[i]| ==> Wire(p.siblings[i][k])
  {
    hide LocatePath, Fold, Bag, Peaks, PopCount, DecodeDigests, FindPeak, Wire, LeafCount, Pow2;
    na, nb := LeavesOf(sizeA).value, LeavesOf(sizeB).value;
    LeafCountInverse(sizeA, na);
    LeafCountInverse(sizeB, nb);
    PeaksCount(na, 0, 0);
    PeaksCount(nb, 0, 0);
    WireDigests(p.oldPeaks);
    WireDigests(p.newPeaks);
    forall i | 0 <= i < |p.siblings| ensures forall k :: 0 <= k < |p.siblings[i]| ==> Wire(p.siblings[i][k]) {
      WireDigests(p.siblings[i]);
      assert Climbs(h, Peaks(na, 0, 0)[i].Position(), DecodeDigests(p.oldPeaks).value[i], p.siblings[i],
                    Peaks(nb, 0, 0), DecodeDigests(p.newPeaks).value);
    }
  }
}
