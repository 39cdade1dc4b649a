/** The Merkle Mountain Range a checkpoint commits to: node positions, peaks, the bagged root, and
    the consistency proof between two sizes. Hashing is a parameter. */
module Mmr {
  import opened Bytes

  /** Every digest has the length of a SHA-256. */
  type Digest = d: seq<byte> | |d| == 32 witness ZERO_ROOT

  const ZERO_ROOT: seq<byte> :=
    [0, 0, 0, 0, 0, 0, 0, 0, 0, 0, 0, 0, 0, 0, 0, 0, 0, 0, 0, 0, 0, 0, 0, 0, 0, 0, 0, 0, 0, 0, 0, 0]

  /** What is hashed: a leaf body, two children under the position of their parent, or two bagged peaks. */
  datatype Preimage =
    | LeafPre(body: seq<byte>)
    | InteriorPre(position: nat, left: Digest, right: Digest)
    | BagPre(right: Digest, left: Digest)

  type Hash = Preimage -> Digest

  /** A hash of byte strings. */
  type Sha = seq<byte> -> Digest

  /** The bytes that are hashed: a zero before a leaf body, the position counted from one before two children, and
      two bagged peaks as they are. */
  function Layout(x: Preimage): seq<byte> {
    match x
    case LeafPre(body) => [0] + body
    case InteriorPre(position, left, right) => BigEndian(position + 1, 8) + left + right
    case BagPre(right, left) => right + left
  }

  function Hasher(sha: Sha): Hash {
    x => sha(Layout(x))
  }

  /** Two different byte strings among those of `inputs` with one digest. */
  ghost predicate Collision(sha: Sha, inputs: set<seq<byte>>) {
    exists u, v :: u in inputs && v in inputs && u != v && sha(u) == sha(v)
  }

  lemma NoCollision(sha: Sha, inputs: set<seq<byte>>, u: seq<byte>, v: seq<byte>)
    requires !Collision(sha, inputs) && u in inputs && v in inputs && sha(u) == sha(v)
    ensures u == v
  {}

  lemma HalvesEqual(a: seq<byte>, b: seq<byte>, x: seq<byte>, y: seq<byte>)
    requires a + x == b + y && |a| == |b|
    ensures a == b && x == y
  {
    assert (a + x)[..|a|] == a && (b + y)[..|b|] == b && (a + x)[|a|..] == x && (b + y)[|b|..] == y;
  }

  /** Outside collisions a parent determines its children, a bag its two parts and a leaf digest its body. */
  lemma ParentBinds(sha: Sha, inputs: set<seq<byte>>, position: nat, l: Digest, r: Digest, l': Digest, r': Digest)
    requires !Collision(sha, inputs)
    requires Layout(InteriorPre(position, l, r)) in inputs && Layout(InteriorPre(position, l', r')) in inputs
    requires Hasher(sha)(InteriorPre(position, l, r)) == Hasher(sha)(InteriorPre(position, l', r'))
    ensures l == l' && r == r'
  {
    hide BigEndian, Collision;
    NoCollision(sha, inputs, Layout(InteriorPre(position, l, r)), Layout(InteriorPre(position, l', r')));
    var at := BigEndian(position + 1, 8);
    HalvesEqual(at + l, at + l', r, r');
    HalvesEqual(at, at, l, l');
  }

  lemma BagBinds(sha: Sha, inputs: set<seq<byte>>, r: Digest, l: Digest, r': Digest, l': Digest)
    requires !Collision(sha, inputs)
    requires Layout(BagPre(r, l)) in inputs && Layout(BagPre(r', l')) in inputs
    requires Hasher(sha)(BagPre(r, l)) == Hasher(sha)(BagPre(r', l'))
    ensures l == l' && r == r'
  {
    hide Collision;
    NoCollision(sha, inputs, Layout(BagPre(r, l)), Layout(BagPre(r', l')));
    HalvesEqual(r, r', l, l');
  }

  lemma LeafBinds(sha: Sha, inputs: set<seq<byte>>, b: seq<byte>, b': seq<byte>)
    requires !Collision(sha, inputs) && Layout(LeafPre(b)) in inputs && Layout(LeafPre(b')) in inputs
    requires Hasher(sha)(LeafPre(b)) == Hasher(sha)(LeafPre(b'))
    ensures b == b'
  {
    hide Collision;
    NoCollision(sha, inputs, Layout(LeafPre(b)), Layout(LeafPre(b')));
    HalvesEqual([0], [0], b, b');
  }

  // ---------------------------------------------------------------- sizes

  function Pow2(k: nat): (p: nat)
    ensures p > 0
  {
    if k == 0 then 1 else 2 * Pow2(k - 1)
  }

  function PopCount(n: nat): nat {
    if n == 0 then 0 else n % 2 + PopCount(n / 2)
  }

  /** Nodes in the range over n leaves. */
  function NodeCount(n: nat): nat {
    PopCountBound(n);
    2 * n - PopCount(n)
  }

  lemma PopCountBound(n: nat)
    ensures PopCount(n) <= n
    ensures n > 0 ==> PopCount(n) > 0
  {}

  /** The height of the tallest perfect tree that fits n leaves. */
  function TopHeight(n: nat): (k: nat)
    requires n > 0
    ensures Pow2(k) <= n < 2 * Pow2(k)
  {
    if n == 1 then 0 else 1 + TopHeight(n / 2)
  }

  lemma {:induction false} PopCountTop(k: nat, r: nat)
    requires r < Pow2(k)
    ensures PopCount(Pow2(k) + r) == 1 + PopCount(r)
  {
    if k > 0 {
      PopCountTop(k - 1, r / 2);
      assert (Pow2(k) + r) / 2 == Pow2(k - 1) + r / 2;
      assert (Pow2(k) + r) % 2 == r % 2;
    }
  }

  lemma NodeCountZero()
    ensures NodeCount(0) == 0
  {}

  lemma NodeCountTop(n: nat)
    requires n > 0
    ensures NodeCount(n) == 2 * Pow2(TopHeight(n)) - 1 + NodeCount(n - Pow2(TopHeight(n)))
  {
    PopCountTop(TopHeight(n), n - Pow2(TopHeight(n)));
  }

  /** Leaves under `size` nodes using perfect trees lower than `k`, each height at most once. */
  function LeafCountFrom(size: nat, k: nat): Option<nat> {
    if k == 0 then
      if size == 0 then Some(0) else None
    else
      var tree := 2 * Pow2(k - 1) - 1;
      if tree <= size then
        match LeafCountFrom(size - tree, k - 1)
        case None => None
        case Some(m) => Some(m + Pow2(k - 1))
      else
        LeafCountFrom(size, k - 1)
  }

  /** The leaf count of a node count; `None` is the InvalidArgumentError for a size no range has. */
  function LeafCount(size: nat): Option<nat> {
    LeafCountFrom(size, size)
  }

  lemma {:induction false} LeafCountOfNodes(n: nat, k: nat)
    requires n < Pow2(k)
    ensures LeafCountFrom(NodeCount(n), k) == Some(n)
  {
    if k > 0 {
      var half := Pow2(k - 1);
      if n < half {
        LeafCountOfNodes(n, k - 1);
      } else {
        PopCountTop(k - 1, n - half);
        LeafCountOfNodes(n - half, k - 1);
      }
    }
  }

  lemma {:induction false} NodesOfLeafCount(size: nat, k: nat)
    requires LeafCountFrom(size, k).Some?
    ensures LeafCountFrom(size, k).value < Pow2(k)
    ensures NodeCount(LeafCountFrom(size, k).value) == size
  {
    if k > 0 {
      var tree := 2 * Pow2(k - 1) - 1;
      if tree <= size {
        NodesOfLeafCount(size - tree, k - 1);
        PopCountTop(k - 1, LeafCountFrom(size - tree, k - 1).value);
      } else {
        NodesOfLeafCount(size, k - 1);
      }
    }
  }

  lemma Pow2Exceeds(k: nat)
    ensures k < Pow2(k)
  {}

  /** `LeafCount` is the exact inverse of `NodeCount`: it accepts the sizes of ranges and no others. */
  lemma LeafCountInverse(size: nat, n: nat)
    ensures LeafCount(size) == Some(n) <==> size == NodeCount(n)
  {
    if size == NodeCount(n) {
      Pow2Exceeds(size);
      PopCountBound(n);
      Pow2Exceeds(n);
      LeafCountOfNodes(n, size);
    }
    if LeafCount(size) == Some(n) {
      NodesOfLeafCount(size, size);
    }
  }

  // ---------------------------------------------------------------- trees, stores and roots

  /** The root of the perfect tree of height k over the leaves from `start`, first node at `base`. */
  function NodeHash(h: Hash, ls: seq<seq<byte>>, start: nat, k: nat, base: nat): Digest
    requires start + Pow2(k) <= |ls|
    decreases k
  {
    if k == 0 then h(LeafPre(ls[start]))
    else
      h(InteriorPre(base + 2 * Pow2(k) - 2, NodeHash(h, ls, start, k - 1, base),
                    NodeHash(h, ls, start + Pow2(k - 1), k - 1, base + Pow2(k) - 1)))
  }

  /** Every node of that tree in append order. */
  function TreeNodes(h: Hash, ls: seq<seq<byte>>, start: nat, k: nat, base: nat): seq<Digest>
    requires start + Pow2(k) <= |ls|
    decreases k
  {
    if k == 0 then [NodeHash(h, ls, start, k, base)]
    else
      TreeNodes(h, ls, start, k - 1, base) + TreeNodes(h, ls, start + Pow2(k - 1), k - 1, base + Pow2(k) - 1)
        + [NodeHash(h, ls, start, k, base)]
  }

  /** A peak: the perfect tree of `height` over the leaves from `start`, first node at `base`. */
  datatype Peak = Peak(base: nat, start: nat, height: nat) {
    function Position(): nat { base + 2 * Pow2(height) - 2 }
  }

  /** The peaks of a range over n leaves, tallest first. */
  function Peaks(n: nat, base: nat, start: nat): seq<Peak> {
    if n == 0 then []
    else
      var k := TopHeight(n);
      [Peak(base, start, k)] + Peaks(n - Pow2(k), base + 2 * Pow2(k) - 1, start + Pow2(k))
  }

  /** The node store of the range over the n leaves from `start`, first node at `base`. */
  function Nodes(h: Hash, ls: seq<seq<byte>>, start: nat, n: nat, base: nat): seq<Digest>
    requires start + n <= |ls|
    decreases n
  {
    if n == 0 then []
    else
      var k := TopHeight(n);
      TreeNodes(h, ls, start, k, base) + Nodes(h, ls, start + Pow2(k), n - Pow2(k), base + 2 * Pow2(k) - 1)
  }

  lemma {:induction false} TreeShape(h: Hash, ls: seq<seq<byte>>, start: nat, k: nat, base: nat)
    requires start + Pow2(k) <= |ls|
    ensures var ns := TreeNodes(h, ls, start, k, base);
            |ns| == 2 * Pow2(k) - 1 && ns[|ns| - 1] == NodeHash(h, ls, start, k, base)
    decreases k
  {
    if k > 0 {
      TreeShape(h, ls, start, k - 1, base);
      TreeShape(h, ls, start + Pow2(k - 1), k - 1, base + Pow2(k) - 1);
    }
  }

  lemma {:induction false} NodesShape(h: Hash, ls: seq<seq<byte>>, start: nat, n: nat, base: nat)
    requires start + n <= |ls|
    ensures |Nodes(h, ls, start, n, base)| == NodeCount(n)
    decreases n
  {
    hide TreeNodes, NodeHash, NodeCount;
    if n > 0 {
      var k := TopHeight(n);
      NodeCountTop(n);
      TreeShape(h, ls, start, k, base);
      NodesShape(h, ls, start + Pow2(k), n - Pow2(k), base + 2 * Pow2(k) - 1);
    } else {
      NodeCountZero();
    }
  }

  lemma NodesEmpty(h: Hash, ls: seq<seq<byte>>, start: nat, base: nat)
    requires start <= |ls|
    ensures Nodes(h, ls, start, 0, base) == []
  {}

  lemma TreeUnfold(h: Hash, ls: seq<seq<byte>>, start: nat, k: nat, w: nat, base: nat)
    requires w == Pow2(k) && start + w + w <= |ls|
    ensures Pow2(k + 1) == 2 * w
    ensures TreeNodes(h, ls, start, k + 1, base)
            == TreeNodes(h, ls, start, k, base) + TreeNodes(h, ls, start + w, k, base + 2 * w - 1)
               + [NodeHash(h, ls, start, k + 1, base)]
    ensures NodeHash(h, ls, start, k + 1, base)
            == h(InteriorPre(base + 4 * w - 2, NodeHash(h, ls, start, k, base),
                             NodeHash(h, ls, start + w, k, base + 2 * w - 1)))
  {}

  lemma PrefixConcat<T>(a: seq<T>, b: seq<T>, c: seq<T>, d: seq<T>)
    requires b <= c
    ensures a + b <= a + c + d && b <= c + d
  {}

  lemma NodesUnfold(h: Hash, ls: seq<seq<byte>>, start: nat, n: nat, k: nat, base: nat)
    requires start + n <= |ls| && Pow2(k) <= n < 2 * Pow2(k)
    ensures Nodes(h, ls, start, n, base)
            == TreeNodes(h, ls, start, k, base) + Nodes(h, ls, start + Pow2(k), n - Pow2(k), base + 2 * Pow2(k) - 1)
    ensures NodeCount(n) == 2 * Pow2(k) - 1 + NodeCount(n - Pow2(k))
  {
    hide TreeNodes, NodeHash, NodeCount, TopHeight;
    TopHeightUnique(n, k);
    NodeCountTop(n);
  }

  function PeakHashes(ns: seq<Digest>, ps: seq<Peak>): (r: seq<Digest>)
    requires forall p :: p in ps ==> p.Position() < |ns|
    ensures |r| == |ps|
    ensures forall i :: 0 <= i < |ps| ==> r[i] == ns[ps[i].Position()]
  {
    seq(|ps|, i requires 0 <= i < |ps| => ns[ps[i].Position()])
  }

  /** Bag the peaks right to left; the empty range has the all-zero root. */
  function Bag(h: Hash, ps: seq<Digest>): Digest {
    if ps == [] then ZERO_ROOT
    else if |ps| == 1 then ps[0]
    else h(BagPre(Bag(h, ps[1..]), ps[0]))
  }

  /** The byte strings hashed to bag peaks. */
  ghost function BagInputs(sha: Sha, ps: seq<Digest>): set<seq<byte>> {
    if |ps| <= 1 then {} else {Layout(BagPre(Bag(Hasher(sha), ps[1..]), ps[0]))} + BagInputs(sha, ps[1..])
  }

  /** The bagged root determines the peak list, or two of the strings hashed to bag either list collide. */
  lemma {:induction false} BagInjective(sha: Sha, inputs: set<seq<byte>>, a: seq<Digest>, b: seq<Digest>)
    requires BagInputs(sha, a) + BagInputs(sha, b) <= inputs
    requires |a| == |b| && Bag(Hasher(sha), a) == Bag(Hasher(sha), b)
    ensures a == b || Collision(sha, inputs)
  {
    hide Collision, Layout, Hasher;
    if |a| > 1 && !Collision(sha, inputs) {
      BagBinds(sha, inputs, Bag(Hasher(sha), a[1..]), a[0], Bag(Hasher(sha), b[1..]), b[0]);
      BagInjective(sha, inputs, a[1..], b[1..]);
      assert a == [a[0]] + a[1..] && b == [b[0]] + b[1..];
    }
  }

  ghost predicate Within(p: Peak, n: nat, base: nat, start: nat) {
    && base <= p.base && p.Position() < base + NodeCount(n)
    && start <= p.start && p.start + Pow2(p.height) <= start + n
  }

  lemma {:induction false} PeakBounds(n: nat, base: nat, start: nat, p: Peak)
    requires p in Peaks(n, base, start)
    ensures Within(p, n, base, start)
    decreases n
  {
    hide NodeCount, TopHeight;
    var k := TopHeight(n);
    NodeCountTop(n);
    if p != Peak(base, start, k) {
      PeakBounds(n - Pow2(k), base + 2 * Pow2(k) - 1, start + Pow2(k), p);
    }
  }

  lemma PeaksBounds(n: nat, base: nat, start: nat)
    ensures forall p :: p in Peaks(n, base, start) ==> Within(p, n, base, start)
  {
    hide Peaks, Within;
    forall p | p in Peaks(n, base, start) ensures Within(p, n, base, start) {
      PeakBounds(n, base, start, p);
    }
  }

  /** The root a checkpoint over the first n leaves carries. */
  function RootAt(h: Hash, ls: seq<seq<byte>>, n: nat): Digest
    requires n <= |ls|
  {
    PeaksBounds(n, 0, 0);
    NodesShape(h, ls, 0, n, 0);
    Bag(h, PeakHashes(Nodes(h, ls, 0, n, 0), Peaks(n, 0, 0)))
  }

  /** The root of the range over `ls`. */
  function Root(h: Hash, ls: seq<seq<byte>>): Digest {
    RootAt(h, ls, |ls|)
  }

  /** `ns` has `part` at offset `at`. */
  ghost predicate Has<T>(ns: seq<T>, at: nat, part: seq<T>) {
    at + |part| <= |ns| && forall i :: 0 <= i < |part| ==> part[i] == ns[at + i]
  }

  lemma HasTail<T>(a: seq<T>, b: seq<T>, at: nat, part: seq<T>)
    requires Has(b, at, part)
    ensures Has(a + b, |a| + at, part)
  {}

  lemma HasHead<T>(a: seq<T>, b: seq<T>)
    ensures Has(a + b, 0, a)
  {}

  /** The stretch of the store under a peak is that peak's tree. */
  lemma {:induction false} PeakSlice(h: Hash, ls: seq<seq<byte>>, start: nat, n: nat, base: nat, p: Peak)
    requires start + n <= |ls| && p in Peaks(n, base, start)
    ensures Within(p, n, base, start)
    ensures Has(Nodes(h, ls, start, n, base), p.base - base, TreeNodes(h, ls, p.start, p.height, p.base))
    decreases n
  {
    hide Nodes, TreeNodes, NodeCount, NodeHash, Has;
    PeaksBounds(n, base, start);
    var k := TopHeight(n);
    NodesUnfold(h, ls, start, n, k, base);
    var tree := TreeNodes(h, ls, start, k, base);
    var tail := Nodes(h, ls, start + Pow2(k), n - Pow2(k), base + 2 * Pow2(k) - 1);
    if p == Peak(base, start, k) {
      HasHead(tree, tail);
    } else {
      PeakSlice(h, ls, start + Pow2(k), n - Pow2(k), base + 2 * Pow2(k) - 1, p);
      TreeShape(h, ls, start, k, base);
      HasTail(tree, tail, p.base - (base + 2 * Pow2(k) - 1), TreeNodes(h, ls, p.start, p.height, p.base));
    }
  }

  lemma {:induction false} TopHeightUnique(n: nat, k: nat)
    requires Pow2(k) <= n < 2 * Pow2(k)
    ensures TopHeight(n) == k
  {
    if k > 0 { TopHeightUnique(n / 2, k - 1); }
  }

  lemma {:induction false} TreePrefix(h: Hash, ls: seq<seq<byte>>, start: nat, k: nat, base: nat, n: nat)
    requires start + Pow2(k) <= |ls| && n < Pow2(k)
    ensures Nodes(h, ls, start, n, base) <= TreeNodes(h, ls, start, k, base)
    decreases k
  {
    hide Nodes, TreeNodes, NodeCount, NodeHash;
    if n == 0 {
      NodesEmpty(h, ls, start, base);
    } else {
      var half := Pow2(k - 1);
      TreeUnfold(h, ls, start, k - 1, half, base);
      var left, right := TreeNodes(h, ls, start, k - 1, base), TreeNodes(h, ls, start + half, k - 1, base + 2 * half - 1);
      var root := [NodeHash(h, ls, start, k, base)];
      if n < half {
        TreePrefix(h, ls, start, k - 1, base, n);
        PrefixConcat([], Nodes(h, ls, start, n, base), left, right + root);
        assert left + right + root == left + (right + root);
      } else {
        NodesUnfold(h, ls, start, n, k - 1, base);
        TreePrefix(h, ls, start + half, k - 1, base + 2 * half - 1, n - half);
        PrefixConcat(left, Nodes(h, ls, start + half, n - half, base + 2 * half - 1), right, root);
      }
    }
  }

  /** The store is append-only: the nodes over fewer leaves are a prefix of the nodes over more. */
  lemma {:induction false} NodesPrefix(h: Hash, ls: seq<seq<byte>>, start: nat, m: nat, n: nat, base: nat)
    requires m <= n && start + n <= |ls|
    ensures Nodes(h, ls, start, m, base) <= Nodes(h, ls, start, n, base)
    decreases n
  {
    hide Nodes, TreeNodes, NodeCount, NodeHash;
    if m == 0 {
      NodesEmpty(h, ls, start, base);
    } else {
      var k := TopHeight(n);
      var tree, base' := TreeNodes(h, ls, start, k, base), base + 2 * Pow2(k) - 1;
      NodesUnfold(h, ls, start, n, k, base);
      var rest := Nodes(h, ls, start + Pow2(k), n - Pow2(k), base');
      if m < Pow2(k) {
        TreePrefix(h, ls, start, k, base, m);
        PrefixConcat([], Nodes(h, ls, start, m, base), tree, rest);
      } else {
        NodesUnfold(h, ls, start, m, k, base);
        NodesPrefix(h, ls, start + Pow2(k), m - Pow2(k), n - Pow2(k), base');
        PrefixConcat(tree, Nodes(h, ls, start + Pow2(k), m - Pow2(k), base'), rest, []);
      }
    }
  }

  lemma {:induction false} TreeAgree(h: Hash, ls: seq<seq<byte>>, ms: seq<seq<byte>>, start: nat, k: nat, base: nat)
    requires start + Pow2(k) <= |ls| && start + Pow2(k) <= |ms|
    requires forall i :: start <= i < start + Pow2(k) ==> ls[i] == ms[i]
    ensures NodeHash(h, ls, start, k, base) == NodeHash(h, ms, start, k, base)
    ensures TreeNodes(h, ls, start, k, base) == TreeNodes(h, ms, start, k, base)
    decreases k
  {
    if k > 0 {
      TreeAgree(h, ls, ms, start, k - 1, base);
      TreeAgree(h, ls, ms, start + Pow2(k - 1), k - 1, base + Pow2(k) - 1);
    }
  }

  /** The store depends only on the leaves it covers. */
  lemma {:induction false} NodesAgree(h: Hash, ls: seq<seq<byte>>, ms: seq<seq<byte>>, start: nat, n: nat, base: nat)
    requires start + n <= |ls| && start + n <= |ms|
    requires forall i :: start <= i < start + n ==> ls[i] == ms[i]
    ensures Nodes(h, ls, start, n, base) == Nodes(h, ms, start, n, base)
    decreases n
  {
    hide Nodes, TreeNodes, NodeCount;
    if n == 0 {
      NodesEmpty(h, ls, start, base);
      NodesEmpty(h, ms, start, base);
    } else {
      var k := TopHeight(n);
      NodesUnfold(h, ls, start, n, k, base);
      NodesUnfold(h, ms, start, n, k, base);
      TreeAgree(h, ls, ms, start, k, base);
      NodesAgree(h, ls, ms, start + Pow2(k), n - Pow2(k), base + 2 * Pow2(k) - 1);
    }
  }

  lemma RootAgree(h: Hash, ls: seq<seq<byte>>, n: nat)
    requires n <= |ls|
    ensures RootAt(h, ls, n) == Root(h, ls[..n])
  {
    NodesAgree(h, ls, ls[..n], 0, n, 0);
  }

  // ---------------------------------------------------------------- appending

  /** m * 2^k */
  function Scale(m: nat, k: nat): nat {
    if k == 0 then m else 2 * Scale(m, k - 1)
  }

  lemma {:induction false} ScaleFacts(m: nat, d: nat, k: nat)
    ensures Scale(m + d, k) == Scale(m, k) + Scale(d, k)
    ensures Scale(1, k) == Pow2(k)
    ensures Scale(2 * m, k) == Scale(m, k + 1)
  {
    if k > 0 { ScaleFacts(m, d, k - 1); }
  }

  lemma {:induction false} ScalePopCount(m: nat, k: nat)
    ensures PopCount(Scale(m, k)) == PopCount(m)
  {
    if k > 0 { ScalePopCount(m, k - 1); }
  }

  lemma {:induction false} ScalePow2(j: nat, k: nat)
    ensures Scale(Pow2(j), k) == Pow2(j + k)
  {
    if k > 0 { ScalePow2(j, k - 1); }
  }

  lemma NodeCountAppend(m: nat, k: nat)
    ensures Scale(2 * m + 1, k) == Scale(2 * m, k) + Pow2(k)
    ensures NodeCount(Scale(2 * m + 1, k)) == NodeCount(Scale(2 * m, k)) + 2 * Pow2(k) - 1
  {
    ScaleFacts(2 * m, 1, k);
    ScalePopCount(2 * m, k);
    ScalePopCount(2 * m + 1, k);
    assert (2 * m + 1) / 2 == m && (2 * m) / 2 == m;
  }

  /** The top bit of 2m * 2^k is that of m, and adding 2^k below it does not move it. */
  lemma TopOfScaled(m: nat, k: nat, g: nat, r: nat)
    requires m > 0 && g == TopHeight(m) && r == m - Pow2(g)
    ensures Pow2(g + 1 + k) <= Scale(2 * m, k) < Scale(2 * m + 1, k) < 2 * Pow2(g + 1 + k)
    ensures Scale(2 * r, k) == Scale(2 * m, k) - Pow2(g + 1 + k)
    ensures Scale(2 * r + 1, k) == Scale(2 * m + 1, k) - Pow2(g + 1 + k)
  {
    hide TopHeight, Scale;
    ScalePow2(g + 1, k);
    ScaleFacts(2 * r, Pow2(g + 1), k);
    ScaleFacts(2 * r + 1, Pow2(g + 1), k);
    ScaleFacts(2 * r, 1, k);
    ScaleFacts(2 * r + 1, Pow2(g + 1) - 2 * r - 1, k);
    ScaleFacts(2 * r + 1 - 1, 1, k);
    assert 2 * m == 2 * r + Pow2(g + 1);
    ScalePositive(Pow2(g + 1) - 2 * r - 1, k);
  }

  lemma {:induction false} ScalePositive(m: nat, k: nat)
    requires m > 0
    ensures Scale(m, k) > 0
  {
    if k > 0 { ScalePositive(m, k - 1); }
  }

  /** Appending a perfect tree lower than every peak of a range extends its store by that tree. */
  lemma {:induction false} NodesAppendTree(h: Hash, ls: seq<seq<byte>>, start: nat, m: nat, k: nat, base: nat)
    requires start + Scale(2 * m + 1, k) <= |ls|
    ensures Scale(2 * m + 1, k) == Scale(2 * m, k) + Pow2(k)
    ensures Nodes(h, ls, start, Scale(2 * m + 1, k), base)
            == Nodes(h, ls, start, Scale(2 * m, k), base)
               + TreeNodes(h, ls, start + Scale(2 * m, k), k, base + NodeCount(Scale(2 * m, k)))
    decreases m
  {
    hide Nodes, TreeNodes, NodeCount, NodeHash, Scale, TopHeight;
    NodeCountAppend(m, k);
    var n := Scale(2 * m, k);
    if m == 0 {
      ScaleZero(k);
      NodesUnfold(h, ls, start, Pow2(k), k, base);
      NodesEmpty(h, ls, start, base);
      NodesEmpty(h, ls, start + Pow2(k), base + 2 * Pow2(k) - 1);
    } else {
      var g := TopHeight(m);
      var r, top, base' := m - Pow2(g), Pow2(g + 1 + k), base + 2 * Pow2(g + 1 + k) - 1;
      TopOfScaled(m, k, g, r);
      NodesUnfold(h, ls, start, n, g + 1 + k, base);
      NodesUnfold(h, ls, start, n + Pow2(k), g + 1 + k, base);
      NodesAppendTree(h, ls, start + top, r, k, base');
      assert base' + NodeCount(n - top) == base + NodeCount(n);
    }
  }

  lemma {:induction false} ScaleZero(k: nat)
    ensures Scale(0, k) == 0 == NodeCount(0)
  {
    if k > 0 { ScaleZero(k - 1); }
  }

  lemma LeafTree(h: Hash, ls: seq<seq<byte>>, n: nat)
    requires n < |ls|
    ensures TreeNodes(h, ls, n, 0, NodeCount(n)) == [h(LeafPre(ls[n]))]
  {}

  /** The node store of one range: nodes are only ever appended. */
  class NodeStore {
    var nodes: seq<Digest>

    constructor ()
      ensures nodes == []
    {
      nodes := [];
    }

    /** Append leaf number n of `ls` and every interior node it completes: one merge per trailing one
        bit of n, each parent hashed under the position it takes. */
    method AddLeaf(h: Hash, ghost ls: seq<seq<byte>>, n: nat, body: seq<byte>)
      requires n < |ls| && ls[n] == body && nodes == Nodes(h, ls, 0, n, 0)
      modifies this
      ensures nodes == Nodes(h, ls, 0, n + 1, 0)
      ensures old(nodes) <= nodes
    {
      hide Nodes, TreeNodes, NodeCount, NodeHash;
      LeafTree(h, ls, n);
      nodes := nodes + [h(LeafPre(body))];
      var m, width := n, 1;
      ghost var k: nat := 0;
      while m % 2 == 1
        invariant width == Pow2(k) && Scale(m, k) + Pow2(k) == n + 1
        invariant nodes == Nodes(h, ls, 0, Scale(m, k), 0) + TreeNodes(h, ls, Scale(m, k), k, NodeCount(Scale(m, k)))
        invariant old(nodes) <= nodes
        decreases m
      {
        ghost var half := m / 2;
        NodeCountAppend(half, k);
        NodesAppendTree(h, ls, 0, half, k, 0);
        MergeStep(h, ls, Scale(2 * half, k), k, NodeCount(Scale(2 * half, k)), nodes);
        nodes := nodes + [h(InteriorPre(|nodes|, nodes[|nodes| - 2 * width], nodes[|nodes| - 1]))];
        ScaleFacts(half, 0, k);
        m, width, k := m / 2, 2 * width, k + 1;
      }
      NodeCountAppend(m / 2, k);
      NodesAppendTree(h, ls, 0, m / 2, k, 0);
    }
  }

  /** Two finished trees of height k at the end of the store merge into one of height k + 1. */
  lemma MergeStep(h: Hash, ls: seq<seq<byte>>, cut: nat, k: nat, base: nat, was: seq<Digest>)
    requires cut + Pow2(k) + Pow2(k) <= |ls| && base == NodeCount(cut)
    requires was == Nodes(h, ls, 0, cut, 0) + TreeNodes(h, ls, cut, k, base)
                    + TreeNodes(h, ls, cut + Pow2(k), k, base + 2 * Pow2(k) - 1)
    ensures cut + Pow2(k + 1) <= |ls| && |was| >= 2 * Pow2(k)
    ensures was + [h(InteriorPre(|was|, was[|was| - 2 * Pow2(k)], was[|was| - 1]))]
            == Nodes(h, ls, 0, cut, 0) + TreeNodes(h, ls, cut, k + 1, base)
  {
    hide *;
    var w := Pow2(k);
    TreeUnfold(h, ls, cut, k, w, base);
    NodesShape(h, ls, 0, cut, 0);
    TreeShape(h, ls, cut, k, base);
    TreeShape(h, ls, cut + w, k, base + 2 * w - 1);
    MergeTail(h, was, Nodes(h, ls, 0, cut, 0), TreeNodes(h, ls, cut, k, base),
              TreeNodes(h, ls, cut + w, k, base + 2 * w - 1), w);
  }

  lemma MergeTail(h: Hash, was: seq<Digest>, a: seq<Digest>, b: seq<Digest>, c: seq<Digest>, width: nat)
    requires width > 0 && was == a + b + c && |b| == |c| == 2 * width - 1
    ensures |was| == |a| + 4 * width - 2
    ensures was + [h(InteriorPre(|was|, was[|was| - 2 * width], was[|was| - 1]))]
            == a + (b + c + [h(InteriorPre(|a| + 4 * width - 2, b[|b| - 1], c[|c| - 1]))])
  {}
}
