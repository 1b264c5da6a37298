/** The ledger's Merkle tree: the bottom-up layer loop that computes a block's
    events_root, the tree it denotes, and what the root commits to.

    SHA-256 over two concatenated digests is an arbitrary function `pair`, so
    nothing here assumes that collisions do not exist. The binding results are
    extractors: two different answers with one root yield two explicit inputs
    on which `pair` collides.
 */
module Merkle {

  // ── The shape of the tree over n leaves ────────────────────────────────────

  function Pow2(h: nat): (p: nat)
    ensures p > 0
  {
    if h == 0 then 1 else 2 * Pow2(h - 1)
  }

  /** The number of passes the layer loop makes over n leaves. */
  function Height(n: nat): nat {
    if n <= 1 then 0 else 1 + Height((n + 1) / 2)
  }

  /** How many nodes the layer h passes up has. */
  function Count(n: nat, h: nat): nat {
    if h == 0 then n else (Count(n, h - 1) + 1) / 2
  }

  /** Height is the ceiling of the binary logarithm. */
  lemma {:induction false} HeightIsCeilingLog2(n: nat)
    requires n > 0
    ensures n <= Pow2(Height(n))
    ensures n > 1 ==> Pow2(Height(n) - 1) < n
  {
    if n > 1 {
      HeightIsCeilingLog2((n + 1) / 2);
    }
  }

  lemma {:induction false} CountFromBelow(n: nat, h: nat)
    ensures Count(n, h + 1) == Count((n + 1) / 2, h)
  {
    if h > 0 {
      CountFromBelow(n, h - 1);
    }
  }

  lemma {:induction false} TopHasOneNode(n: nat)
    requires n > 0
    ensures Count(n, Height(n)) == 1
  {
    if n > 1 {
      TopHasOneNode((n + 1) / 2);
      CountFromBelow(n, Height((n + 1) / 2));
    }
  }

  // ── The tree, defined from the top ─────────────────────────────────────────

  /** The right child of node k at height h; a node without one of its own has its left child twice. */
  function RightChild(n: nat, h: nat, k: nat): (c: nat)
    requires h > 0 && k < Count(n, h)
    ensures c < Count(n, h - 1)
  {
    if 2 * k + 1 < Count(n, h - 1) then 2 * k + 1 else 2 * k
  }

  function Node<H>(pair: (H, H) -> H, leaves: seq<H>, h: nat, k: nat): H
    requires k < Count(|leaves|, h)
    decreases h
  {
    if h == 0 then leaves[k]
    else pair(Node(pair, leaves, h - 1, 2 * k), Node(pair, leaves, h - 1, RightChild(|leaves|, h, k)))
  }

  function Root<H>(pair: (H, H) -> H, zero: H, leaves: seq<H>): H {
    if leaves == [] then zero
    else
      TopHasOneNode(|leaves|);
      Node(pair, leaves, Height(|leaves|), 0)
  }

  /** The digests of each two neighbours of an even layer. */
  function HashPairs<H>(pair: (H, H) -> H, layer: seq<H>): (next: seq<H>)
    requires |layer| % 2 == 0
    ensures |next| == |layer| / 2
    ensures forall i :: 0 <= i < |next| ==> next[i] == pair(layer[2 * i], layer[2 * i + 1])
  {
    seq(|layer| / 2, i requires 0 <= i < |layer| / 2 => pair(layer[2 * i], layer[2 * i + 1]))
  }

  /** The layer is the one the tree has h passes above the leaves. */
  ghost predicate IsLayer<H>(pair: (H, H) -> H, leaves: seq<H>, h: nat, layer: seq<H>) {
    && |layer| == Count(|leaves|, h)
    && forall k :: 0 <= k < |layer| ==> layer[k] == Node(pair, leaves, h, k)
  }

  lemma {:induction false} NextIsLayer<H>(pair: (H, H) -> H, leaves: seq<H>, h: nat, layer: seq<H>, even: seq<H>)
    requires IsLayer(pair, leaves, h, layer)
    requires |layer| <= |even| == 2 * Count(|leaves|, h + 1)
    requires forall i :: 0 <= i < |even| ==> even[i] == layer[if i < |layer| then i else i - 1]
    ensures IsLayer(pair, leaves, h + 1, HashPairs(pair, even))
  {
  }

  /** merkle_root: the layer is evened out and halved in place until one digest is left. */
  method MerkleRoot<H>(pair: (H, H) -> H, zero: H, leaves: seq<H>) returns (root: H)
    ensures root == Root(pair, zero, leaves)
  {
    if |leaves| == 0 {
      return zero;
    }
    if |leaves| == 1 {
      return leaves[0];
    }
    var layer := leaves;
    ghost var h := 0;
    while |layer| > 1
      invariant |layer| > 0
      invariant IsLayer(pair, leaves, h, layer)
      invariant Height(|leaves|) == h + Height(|layer|)
      decreases |layer|
    {
      ghost var before := layer;
      if |layer| % 2 == 1 {
        layer := layer + [layer[|layer| - 1]];
      }
      NextIsLayer(pair, leaves, h, before, layer);
      layer := HashPairs(pair, layer);
      h := h + 1;
    }
    return layer[0];
  }

  // ── Inclusion proofs ───────────────────────────────────────────────────────

  datatype Path<H> = Top | Sibling(node: H, above: Path<H>) {
    function Length(): nat {
      if Top? then 0 else 1 + above.Length()
    }
  }

  /** The node at height h that fills position p of the complete binary tree of height top. */
  function Slot(n: nat, top: nat, h: nat, p: nat): (k: nat)
    requires h <= top && Count(n, top) == 1
    ensures k < Count(n, h)
    decreases top - h
  {
    if h == top then 0
    else
      var up := Slot(n, top, h + 1, p / 2);
      if p % 2 == 0 then 2 * up else RightChild(n, h + 1, up)
  }

  /** The position sharing a parent with p. */
  function Beside(p: nat): nat {
    if p % 2 == 0 then p + 1 else p - 1
  }

  /** The siblings met on the way from position p at height h to the root. */
  function PathFrom<H>(pair: (H, H) -> H, leaves: seq<H>, top: nat, h: nat, p: nat): Path<H>
    requires h <= top && Count(|leaves|, top) == 1
    decreases top - h
  {
    if h == top then Top
    else Sibling(Node(pair, leaves, h, Slot(|leaves|, top, h, Beside(p))), PathFrom(pair, leaves, top, h + 1, p / 2))
  }

  /** What a verifier recomputes from a node, its position and a path. */
  function Fold<H>(pair: (H, H) -> H, node: H, p: nat, path: Path<H>): H
    decreases path
  {
    match path
    case Top => node
    case Sibling(s, above) => Fold(pair, if p % 2 == 0 then pair(node, s) else pair(s, node), p / 2, above)
  }

  /** From any position at any height, the path folds to the top node. */
  lemma {:induction false} PathFolds<H>(pair: (H, H) -> H, leaves: seq<H>, top: nat, h: nat, p: nat)
    requires h <= top && Count(|leaves|, top) == 1
    ensures PathFrom(pair, leaves, top, h, p).Length() == top - h
    ensures Fold(pair, Node(pair, leaves, h, Slot(|leaves|, top, h, p)), p, PathFrom(pair, leaves, top, h, p))
         == Node(pair, leaves, top, 0)
    decreases top - h
  {
    if h < top {
      assert Beside(p) / 2 == p / 2;
      PathFolds(pair, leaves, top, h + 1, p / 2);
    }
  }

  /** A position that names an actual node is filled by that node. */
  lemma {:induction false} RealSlot(n: nat, top: nat, h: nat, p: nat)
    requires h <= top && Count(n, top) == 1 && p < Count(n, h)
    ensures Slot(n, top, h, p) == p
    decreases top - h
  {
    if h < top {
      RealSlot(n, top, h + 1, p / 2);
    }
  }

  function SiblingPath<H>(pair: (H, H) -> H, leaves: seq<H>, i: nat): Path<H>
    requires i < |leaves|
  {
    TopHasOneNode(|leaves|);
    PathFrom(pair, leaves, Height(|leaves|), 0, i)
  }

  /** Every leaf has a path of exactly ceil(log2 n) siblings, and it folds to the root. */
  lemma {:induction false} PathFoldsToRoot<H>(pair: (H, H) -> H, zero: H, leaves: seq<H>, i: nat)
    requires i < |leaves|
    ensures SiblingPath(pair, leaves, i).Length() == Height(|leaves|)
    ensures Fold(pair, leaves[i], i, SiblingPath(pair, leaves, i)) == Root(pair, zero, leaves)
  {
    TopHasOneNode(|leaves|);
    RealSlot(|leaves|, Height(|leaves|), 0, i);
    PathFolds(pair, leaves, Height(|leaves|), 0, i);
  }

  // ── What a root commits to ─────────────────────────────────────────────────

  datatype Collision<H> = Collision(left1: H, right1: H, left2: H, right2: H)

  predicate IsCollision<H(==)>(pair: (H, H) -> H, c: Collision<H>) {
    && (c.left1, c.right1) != (c.left2, c.right2)
    && pair(c.left1, c.right1) == pair(c.left2, c.right2)
  }

  ghost predicate CollisionFree<H(!new)>(pair: (H, H) -> H) {
    forall c: Collision<H> :: !IsCollision(pair, c)
  }

  /** Two different openings of one position, by paths of one length, to one value collide. */
  lemma {:induction false} FoldCollision<H>(pair: (H, H) -> H, x: H, p: Path<H>, y: H, q: Path<H>, i: nat)
    returns (c: Collision<H>)
    requires p.Length() == q.Length() && (x, p) != (y, q)
    requires Fold(pair, x, i, p) == Fold(pair, y, i, q)
    ensures IsCollision(pair, c)
    decreases p
  {
    if p.Top? {
      assert false;
    } else if i % 2 == 0 {
      c := Collision(x, p.node, y, q.node);
      if !IsCollision(pair, c) {
        c := FoldCollision(pair, pair(x, p.node), p.above, pair(y, q.node), q.above, i / 2);
      }
    } else {
      c := Collision(p.node, x, q.node, y);
      if !IsCollision(pair, c) {
        c := FoldCollision(pair, pair(p.node, x), p.above, pair(q.node, y), q.above, i / 2);
      }
    }
  }

  /** An accepted proof of the right length names the stored leaf and is the
      stored path; anything else that the root accepts is a hash collision. */
  lemma {:induction false} AcceptedProofIsGenuine<H>(pair: (H, H) -> H, zero: H, leaves: seq<H>, i: nat, x: H,
      path: Path<H>)
    returns (c: Collision<H>)
    requires i < |leaves| && path.Length() == Height(|leaves|)
    requires Fold(pair, x, i, path) == Root(pair, zero, leaves)
    ensures (x == leaves[i] && path == SiblingPath(pair, leaves, i)) || IsCollision(pair, c)
  {
    PathFoldsToRoot(pair, zero, leaves, i);
    c := Collision(x, x, x, x);
    if x != leaves[i] || path != SiblingPath(pair, leaves, i) {
      c := FoldCollision(pair, x, path, leaves[i], SiblingPath(pair, leaves, i), i);
    }
  }

  /** Among lists of one length the root binds the list: a second list with the
      same root exhibits a collision, through every odd layer's repeated node. */
  lemma {:induction false} SameLengthRootBinds<H>(pair: (H, H) -> H, zero: H, a: seq<H>,
      b: seq<H>) returns (c: Collision<H>)
    requires |a| == |b| && a != b
    requires Root(pair, zero, a) == Root(pair, zero, b)
    ensures IsCollision(pair, c)
  {
    var i :| 0 <= i < |a| && a[i] != b[i];
    PathFoldsToRoot(pair, zero, a, i);
    PathFoldsToRoot(pair, zero, b, i);
    c := FoldCollision(pair, a[i], SiblingPath(pair, a, i), b[i], SiblingPath(pair, b, i), i);
  }

  lemma {:induction false} LayersAgreeAbove<H>(pair: (H, H) -> H, a: seq<H>, b: seq<H>, h: nat, k: nat)
    requires h > 0 && k < Count(|a|, h)
    requires Count(|a|, 1) == Count(|b|, 1)
    requires forall j :: 0 <= j < Count(|a|, 1) ==> Node(pair, a, 1, j) == Node(pair, b, 1, j)
    ensures Count(|a|, h) == Count(|b|, h) && Node(pair, a, h, k) == Node(pair, b, h, k)
    decreases h
  {
    if h > 1 {
      LayersAgreeAbove(pair, a, b, h - 1, 2 * k);
      LayersAgreeAbove(pair, a, b, h - 1, RightChild(|a|, h, k));
    }
  }

  /** The length matters: an odd list longer than one and the same list with its
      last leaf repeated have one root, whatever the hash. */
  lemma {:induction false} RepeatedLastLeafSharesRoot<H>(pair: (H, H) -> H, zero: H, a: seq<H>)
    requires |a| % 2 == 1 && |a| > 1
    ensures a + [a[|a| - 1]] != a
    ensures Root(pair, zero, a + [a[|a| - 1]]) == Root(pair, zero, a)
  {
    var b := a + [a[|a| - 1]];
    TopHasOneNode(|a|);
    forall j | 0 <= j < Count(|a|, 1)
      ensures Node(pair, a, 1, j) == Node(pair, b, 1, j)
    {
      assert Node(pair, a, 0, 2 * j) == Node(pair, b, 0, 2 * j);
    }
    LayersAgreeAbove(pair, a, b, Height(|a|), 0);
  }

  /** The leaf that fills position i of the complete tree. */
  function FilledLeaf<H>(leaves: seq<H>, i: nat): H
    requires leaves != []
  {
    TopHasOneNode(|leaves|);
    leaves[Slot(|leaves|, Height(|leaves|), 0, i)]
  }

  /** The layer of a that lies as high above its leaves as a's tree is taller than b's
      fills every position of its complete tree as b's leaves do.
   */
  ghost predicate CutFillsLike<H(!new)>(pair: (H, H) -> H, a: seq<H>, b: seq<H>)
    requires a != [] && b != [] && Height(|a|) >= Height(|b|)
  {
    TopHasOneNode(|a|);
    var top, cut := Height(|a|), Height(|a|) - Height(|b|);
    forall i: nat :: Node(pair, a, cut, Slot(|a|, top, cut, i)) == FilledLeaf(b, i)
  }

  /** A node that fills a position hashes the nodes that fill the two positions below. */
  lemma {:induction false} NodeAtSlot<H>(pair: (H, H) -> H, leaves: seq<H>, top: nat, h: nat, p: nat)
    requires 0 < h <= top && Count(|leaves|, top) == 1
    ensures Node(pair, leaves, h, Slot(|leaves|, top, h, p))
            == pair(Node(pair, leaves, h - 1, Slot(|leaves|, top, h - 1, 2 * p)),
                    Node(pair, leaves, h - 1, Slot(|leaves|, top, h - 1, 2 * p + 1)))
  {
    assert (2 * p) / 2 == p == (2 * p + 1) / 2;
    assert Slot(|leaves|, top, h - 1, 2 * p) == 2 * Slot(|leaves|, top, h, p);
  }

  lemma {:induction false} ChildDiffers<H>(pair: (H, H) -> H, a: seq<H>, top: nat, g: nat, b: seq<H>, topB: nat,
      h: nat, p: nat)
    returns (q: nat)
    requires Count(|a|, top) == 1 && Count(|b|, topB) == 1 && 0 < g <= top && 0 < h <= topB
    requires Node(pair, a, g, Slot(|a|, top, g, p)) != Node(pair, b, h, Slot(|b|, topB, h, p))
    ensures Node(pair, a, g - 1, Slot(|a|, top, g - 1, q)) != Node(pair, b, h - 1, Slot(|b|, topB, h - 1, q))
  {
    NodeAtSlot(pair, a, top, g, p);
    NodeAtSlot(pair, b, topB, h, p);
    var left := Node(pair, a, g - 1, Slot(|a|, top, g - 1, 2 * p)) == Node(pair, b, h - 1, Slot(|b|, topB, h - 1, 2 * p));
    q := if left then 2 * p + 1 else 2 * p;
  }

  /** Where two trees differ at a position, the cut and the leaves differ at one below it. */
  lemma {:induction false} DifferenceReachesCut<H>(pair: (H, H) -> H, a: seq<H>, top: nat, g: nat, b: seq<H>,
      topB: nat, h: nat, p: nat)
    returns (i: nat)
    requires Count(|a|, top) == 1 && Count(|b|, topB) == 1 && h <= topB && h <= g <= top
    requires Node(pair, a, g, Slot(|a|, top, g, p)) != Node(pair, b, h, Slot(|b|, topB, h, p))
    ensures Node(pair, a, g - h, Slot(|a|, top, g - h, i)) != Node(pair, b, 0, Slot(|b|, topB, 0, i))
    decreases h
  {
    i := p;
    if h > 0 {
      i := ChildDiffers(pair, a, top, g, b, topB, h, p);
      i := DifferenceReachesCut(pair, a, top, g - 1, b, topB, h - 1, i);
    }
  }

  /** Exactly which lists share a root, at any lengths and whatever the leaves: those of
      which the taller tree, cut at the height of the other, fills its positions as the
      other's leaves do.
   */
  lemma {:induction false} RootsEqualExactly<H(!new)>(pair: (H, H) -> H, zero: H, a: seq<H>, b: seq<H>)
    requires CollisionFree(pair) && a != [] && b != [] && Height(|a|) >= Height(|b|)
    ensures Root(pair, zero, a) == Root(pair, zero, b) <==> CutFillsLike(pair, a, b)
  {
    TopHasOneNode(|a|);
    TopHasOneNode(|b|);
    var top, h := Height(|a|), Height(|b|);
    if CutFillsLike(pair, a, b) {
      if Root(pair, zero, a) != Root(pair, zero, b) {
        var i := DifferenceReachesCut(pair, a, top, top, b, h, h, 0);
      }
    } else if Root(pair, zero, a) == Root(pair, zero, b) {
      var cut := top - h;
      var i: nat :| Node(pair, a, cut, Slot(|a|, top, cut, i)) != FilledLeaf(b, i);
      PathFolds(pair, a, top, cut, i);
      PathFolds(pair, b, h, 0, i);
      var c := FoldCollision(pair, Node(pair, a, cut, Slot(|a|, top, cut, i)), PathFrom(pair, a, top, cut, i),
                             FilledLeaf(b, i), PathFrom(pair, b, h, 0, i), i);
    }
  }

  /** The zero root is shared with the empty list by the lone zero leaf only, if zero is no digest. */
  lemma {:induction false} EmptyRootExactly<H(!new)>(pair: (H, H) -> H, zero: H, a: seq<H>)
    requires forall l, r :: pair(l, r) != zero
    ensures Root(pair, zero, a) == Root(pair, zero, []) <==> a == [] || a == [zero]
  {
    if |a| > 1 {
      TopHasOneNode(|a|);
      var h := Height(|a|);
      assert Root(pair, zero, a)
             == pair(Node(pair, a, h - 1, 0), Node(pair, a, h - 1, RightChild(|a|, h, 0)));
    }
  }

  /** The two lists fill every position of trees of one height alike. */
  ghost predicate SameFilling<H>(a: seq<H>, b: seq<H>)
    requires a != [] && b != []
  {
    Height(|a|) == Height(|b|) && forall i: nat :: FilledLeaf(a, i) == FilledLeaf(b, i)
  }

  /** No leaf is itself the digest of a pair. */
  ghost predicate Separated<H(!new)>(pair: (H, H) -> H, leaves: seq<H>) {
    forall l, r :: pair(l, r) !in leaves
  }

  lemma {:induction false} HeightsMatch<H(!new)>(pair: (H, H) -> H, a: seq<H>, b: seq<H>)
    requires CollisionFree(pair) && Separated(pair, b) && a != [] && b != [] && Height(|a|) > Height(|b|)
    ensures !CutFillsLike(pair, a, b)
  {
    TopHasOneNode(|a|);
    TopHasOneNode(|b|);
    var top, cut := Height(|a|), Height(|a|) - Height(|b|);
    var k := Slot(|a|, top, cut, 0);
    var digest := pair(Node(pair, a, cut - 1, 2 * k), Node(pair, a, cut - 1, RightChild(|a|, cut, k)));
    assert Node(pair, a, cut, k) == digest;
    assert digest !in b && FilledLeaf(b, 0) in b;
  }

  lemma {:induction false} CutAtLeaves<H(!new)>(pair: (H, H) -> H, a: seq<H>, b: seq<H>)
    requires a != [] && b != [] && Height(|a|) == Height(|b|)
    ensures CutFillsLike(pair, a, b) <==> SameFilling(a, b)
  {
    TopHasOneNode(|a|);
    forall i: nat
      ensures Node(pair, a, 0, Slot(|a|, Height(|a|), 0, i)) == FilledLeaf(a, i)
    {
    }
  }

  /** Where no leaf is itself the digest of a pair, lists that share a root are of one height and fill it alike. */
  lemma {:induction false} SeparatedRootsEqualExactly<H(!new)>(pair: (H, H) -> H, zero: H, a: seq<H>, b: seq<H>)
    requires CollisionFree(pair) && Separated(pair, a) && Separated(pair, b)
    requires a != [] && b != []
    ensures Root(pair, zero, a) == Root(pair, zero, b) <==> SameFilling(a, b)
  {
    if Height(|a|) >= Height(|b|) {
      RootsEqualExactly(pair, zero, a, b);
      if Height(|a|) > Height(|b|) {
        HeightsMatch(pair, a, b);
      } else {
        CutAtLeaves(pair, a, b);
      }
    } else {
      RootsEqualExactly(pair, zero, b, a);
      HeightsMatch(pair, b, a);
    }
  }

  /** Lists of one length with one filling are one list, so on a single length
      the exact condition is equality. */
  lemma {:induction false} SameFillingSameLength<H>(a: seq<H>, b: seq<H>)
    requires |a| == |b| && a != [] && SameFilling(a, b)
    ensures a == b
  {
    TopHasOneNode(|a|);
    forall i | 0 <= i < |a|
      ensures a[i] == b[i]
    {
      RealSlot(|a|, Height(|a|), 0, i);
      assert FilledLeaf(a, i) == FilledLeaf(b, i);
    }
  }
}
