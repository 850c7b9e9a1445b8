/**
 * What equal roots say about the inputs hashed to get them. No hash is injective, so each result
 * reads "the inputs agree, or these two finite sets of hashed inputs contain a collision".
 */
module Binding {
  import opened Common
  import opened Merkle
  import opened Material

  /** Two different hashed inputs, one from each side, with the same digest. */
  ghost predicate Collision(sha384: Sha384, xs: set<Bytes>, ys: set<Bytes>) {
    exists x, y :: x in xs && y in ys && x != y && sha384(x) == sha384(y)
  }

  /** Equal digests of two hashed inputs: the inputs agree unless they collide. */
  lemma SameInput(sha384: Sha384, x: Bytes, y: Bytes, xs: set<Bytes>, ys: set<Bytes>)
    requires x in xs && y in ys && sha384(x) == sha384(y)
    ensures x == y || Collision(sha384, xs, ys)
  {
  }

  lemma MoreInputs(sha384: Sha384, xs: set<Bytes>, ys: set<Bytes>, xs': set<Bytes>, ys': set<Bytes>)
    requires xs <= xs' && ys <= ys'
    ensures Collision(sha384, xs, ys) ==> Collision(sha384, xs', ys')
  {
    if Collision(sha384, xs, ys) {
      var x, y :| x in xs && y in ys && x != y && sha384(x) == sha384(y);
      assert x in xs' && y in ys';
    }
  }

  // ----- What each computation hashes --------------------------------------------------------

  function LeafInput(leafBytes: Bytes): Bytes {
    [LEAF_PREFIX] + leafBytes
  }

  function NodeInput(left: Bytes, right: Bytes): Bytes {
    [INTERNAL_PREFIX] + left + right
  }

  function LeafInputs(items: seq<Bytes>): set<Bytes> {
    set i | 0 <= i < |items| :: LeafInput(items[i])
  }

  function NodeInputs(sha384: Sha384, t: Tree): set<Bytes> {
    match t
    case Leaf(_) => {}
    case Node(l, r) =>
      {NodeInput(Value(sha384, l), Value(sha384, r))} + NodeInputs(sha384, l) + NodeInputs(sha384, r)
  }

  /** Everything hashed to get the root over a list of items. */
  function TreeInputs(sha384: Sha384, items: seq<Bytes>): set<Bytes> {
    if items == [] then {LeafInput([])}
    else LeafInputs(items) + NodeInputs(sha384, TreeOf(LeafHashes(sha384, items)))
  }

  function StepInput(acc: Digest, s: Sibling): Bytes {
    if s.side.Left? then NodeInput(s.hash, acc) else NodeInput(acc, s.hash)
  }

  /** Everything hashed to climb from leaf bytes along a path. */
  function ClimbInputs(sha384: Sha384, leafBytes: Bytes, path: seq<Sibling>): set<Bytes> {
    if path == [] then {LeafInput(leafBytes)}
    else
      var below := path[..|path| - 1];
      ClimbInputs(sha384, leafBytes, below)
      + {StepInput(Climb(sha384, HashLeaf(sha384, leafBytes), below), path[|path| - 1])}
  }

  lemma SplitNode(l: Bytes, r: Bytes, l': Bytes, r': Bytes)
    requires NodeInput(l, r) == NodeInput(l', r') && |r| == |r'|
    ensures l == l' && r == r'
  {
    var x := NodeInput(l, r);
    assert |l| == |l'|;
    assert l == x[1..1 + |l|] && l' == x[1..1 + |l|];
    assert r == x[1 + |l|..] && r' == x[1 + |l|..];
  }

  lemma LeafIsNotNode(leafBytes: Bytes, l: Bytes, r: Bytes)
    ensures LeafInput(leafBytes) != NodeInput(l, r)
  {
    assert LeafInput(leafBytes)[0] != NodeInput(l, r)[0];
  }

  lemma SameLeaf(a: Bytes, b: Bytes)
    requires LeafInput(a) == LeafInput(b)
    ensures a == b
  {
    assert a == LeafInput(a)[1..] && b == LeafInput(b)[1..];
  }

  lemma SplitItems(sha384: Sha384, items: seq<Bytes>, l: Tree, r: Tree)
    requires Frontier(Node(l, r)) == LeafHashes(sha384, items)
    ensures |Frontier(l)| <= |items|
    ensures var k := |Frontier(l)|;
            && Frontier(l) == LeafHashes(sha384, items[..k]) && Frontier(r) == LeafHashes(sha384, items[k..])
            && LeafInputs(items[..k]) <= LeafInputs(items) && LeafInputs(items[k..]) <= LeafInputs(items)
            && items == items[..k] + items[k..]
  {
    var k := |Frontier(l)|;
    var hashes := LeafHashes(sha384, items);
    assert Frontier(l) == hashes[..k] && Frontier(r) == hashes[k..];
    PartInputs(items, k);
  }

  lemma PartInputs(items: seq<Bytes>, k: nat)
    requires k <= |items|
    ensures LeafInputs(items[..k]) <= LeafInputs(items) && LeafInputs(items[k..]) <= LeafInputs(items)
  {
    forall x | x in LeafInputs(items[k..]) ensures x in LeafInputs(items) {
      var i :| 0 <= i < |items| - k && x == LeafInput(items[k..][i]);
      assert x == LeafInput(items[k + i]);
    }
  }

  // ----- Inclusion ---------------------------------------------------------------------------

  /** A climb of any shape that ends at a tree's value started from one of the tree's leaves. */
  lemma {:induction false} ClimbBinds(sha384: Sha384, leafBytes: Bytes, path: seq<Sibling>, items: seq<Bytes>, t: Tree)
    requires Frontier(t) == LeafHashes(sha384, items)
    requires Climb(sha384, HashLeaf(sha384, leafBytes), path) == Value(sha384, t)
    ensures leafBytes in items
            || Collision(sha384, ClimbInputs(sha384, leafBytes, path), LeafInputs(items) + NodeInputs(sha384, t))
    decreases t
  {
    var xs, ys := ClimbInputs(sha384, leafBytes, path), LeafInputs(items) + NodeInputs(sha384, t);
    var x := if path == [] then LeafInput(leafBytes)
             else StepInput(Climb(sha384, HashLeaf(sha384, leafBytes), path[..|path| - 1]), path[|path| - 1]);
    match t {
      case Leaf(h) =>
        assert items == [items[0]] && h == HashLeaf(sha384, items[0]);
        SameInput(sha384, x, LeafInput(items[0]), xs, ys);
        if path == [] {
          if x == LeafInput(items[0]) { SameLeaf(leafBytes, items[0]); }
        } else {
          LeafIsNotNode(items[0], path[|path| - 1].hash, Climb(sha384, HashLeaf(sha384, leafBytes), path[..|path| - 1]));
          LeafIsNotNode(items[0], Climb(sha384, HashLeaf(sha384, leafBytes), path[..|path| - 1]), path[|path| - 1].hash);
        }
      case Node(l, r) =>
        SplitItems(sha384, items, l, r);
        var y := NodeInput(Value(sha384, l), Value(sha384, r));
        SameInput(sha384, x, y, xs, ys);
        if path == [] {
          LeafIsNotNode(leafBytes, Value(sha384, l), Value(sha384, r));
        } else if x == y {
          var below, last := path[..|path| - 1], path[|path| - 1];
          var acc := Climb(sha384, HashLeaf(sha384, leafBytes), below);
          var k := |Frontier(l)|;
          if last.side.Left? {
            SplitNode(last.hash, acc, Value(sha384, l), Value(sha384, r));
            ClimbBinds(sha384, leafBytes, below, items[k..], r);
            MoreInputs(sha384, ClimbInputs(sha384, leafBytes, below), LeafInputs(items[k..]) + NodeInputs(sha384, r), xs, ys);
          } else {
            SplitNode(acc, last.hash, Value(sha384, l), Value(sha384, r));
            ClimbBinds(sha384, leafBytes, below, items[..k], l);
            MoreInputs(sha384, ClimbInputs(sha384, leafBytes, below), LeafInputs(items[..k]) + NodeInputs(sha384, l), xs, ys);
          }
        }
    }
  }

  /** A witness of any shape that folds bytes to a tree's root proves they are a leaf, the empty claim on an empty tree aside. */
  lemma WitnessBinds(sha384: Sha384, leafBytes: Bytes, w: MerkleWitness, items: seq<Bytes>)
    requires leafBytes != [] || items != []
    requires Folded(sha384, HashLeaf(sha384, leafBytes), w) == TreeRoot(sha384, LeafHashes(sha384, items))
    ensures leafBytes in items
            || Collision(sha384, ClimbInputs(sha384, leafBytes, Steps(w)), TreeInputs(sha384, items))
  {
    var path := Steps(w);
    if items == [] {
      var xs := ClimbInputs(sha384, leafBytes, path);
      if path == [] {
        SameInput(sha384, LeafInput(leafBytes), LeafInput([]), xs, {LeafInput([])});
        if LeafInput(leafBytes) == LeafInput([]) { SameLeaf(leafBytes, []); }
      } else {
        var acc, last := Climb(sha384, HashLeaf(sha384, leafBytes), path[..|path| - 1]), path[|path| - 1];
        SameInput(sha384, StepInput(acc, last), LeafInput([]), xs, {LeafInput([])});
        LeafIsNotNode([], last.hash, acc);
        LeafIsNotNode([], acc, last.hash);
      }
    } else {
      TreeKeepsLeaves(LeafHashes(sha384, items));
      ClimbBinds(sha384, leafBytes, path, items, TreeOf(LeafHashes(sha384, items)));
    }
  }

  // ----- Whole trees -------------------------------------------------------------------------

  lemma {:induction false} TreesBind(sha384: Sha384, a: seq<Bytes>, s: Tree, b: seq<Bytes>, t: Tree)
    requires Frontier(s) == LeafHashes(sha384, a) && Frontier(t) == LeafHashes(sha384, b)
    requires Value(sha384, s) == Value(sha384, t)
    ensures a == b
            || Collision(sha384, LeafInputs(a) + NodeInputs(sha384, s), LeafInputs(b) + NodeInputs(sha384, t))
    decreases s
  {
    var xs, ys := LeafInputs(a) + NodeInputs(sha384, s), LeafInputs(b) + NodeInputs(sha384, t);
    match (s, t) {
      case (Leaf(_), Leaf(_)) =>
        assert a == [a[0]] && b == [b[0]];
        SameInput(sha384, LeafInput(a[0]), LeafInput(b[0]), xs, ys);
        if LeafInput(a[0]) == LeafInput(b[0]) { SameLeaf(a[0], b[0]); }
      case (Leaf(_), Node(l, r)) =>
        assert a == [a[0]];
        SameInput(sha384, LeafInput(a[0]), NodeInput(Value(sha384, l), Value(sha384, r)), xs, ys);
        LeafIsNotNode(a[0], Value(sha384, l), Value(sha384, r));
      case (Node(l, r), Leaf(_)) =>
        assert b == [b[0]];
        SameInput(sha384, NodeInput(Value(sha384, l), Value(sha384, r)), LeafInput(b[0]), xs, ys);
        LeafIsNotNode(b[0], Value(sha384, l), Value(sha384, r));
      case (Node(l, r), Node(l', r')) =>
        SplitItems(sha384, a, l, r);
        SplitItems(sha384, b, l', r');
        var i, j := |Frontier(l)|, |Frontier(l')|;
        SameInput(sha384, NodeInput(Value(sha384, l), Value(sha384, r)), NodeInput(Value(sha384, l'), Value(sha384, r')), xs, ys);
        if NodeInput(Value(sha384, l), Value(sha384, r)) == NodeInput(Value(sha384, l'), Value(sha384, r')) {
          SplitNode(Value(sha384, l), Value(sha384, r), Value(sha384, l'), Value(sha384, r'));
          TreesBind(sha384, a[..i], l, b[..j], l');
          TreesBind(sha384, a[i..], r, b[j..], r');
          MoreInputs(sha384, LeafInputs(a[..i]) + NodeInputs(sha384, l), LeafInputs(b[..j]) + NodeInputs(sha384, l'), xs, ys);
          MoreInputs(sha384, LeafInputs(a[i..]) + NodeInputs(sha384, r), LeafInputs(b[j..]) + NodeInputs(sha384, r'), xs, ys);
        }
    }
  }

  predicate NoneEmpty(items: seq<Bytes>) {
    forall i :: 0 <= i < |items| ==> items[i] != []
  }

  /** An empty tree's root is the hash of no bytes at all, which no tree of real items has. */
  lemma EmptyBinds(sha384: Sha384, b: seq<Bytes>)
    requires NoneEmpty(b) && b != []
    requires TreeRoot(sha384, []) == TreeRoot(sha384, LeafHashes(sha384, b))
    ensures Collision(sha384, TreeInputs(sha384, []), TreeInputs(sha384, b))
    ensures Collision(sha384, TreeInputs(sha384, b), TreeInputs(sha384, []))
  {
    var t := TreeOf(LeafHashes(sha384, b));
    TreeKeepsLeaves(LeafHashes(sha384, b));
    var x := LeafInput([]);
    var y := if t.Leaf? then LeafInput(b[0]) else NodeInput(Value(sha384, t.left), Value(sha384, t.right));
    if t.Leaf? {
      if LeafInput([]) == LeafInput(b[0]) { SameLeaf([], b[0]); }
      assert t.hash == HashLeaf(sha384, b[0]);
    } else {
      LeafIsNotNode([], Value(sha384, t.left), Value(sha384, t.right));
    }
    assert x != y && sha384(x) == sha384(y) && x in TreeInputs(sha384, []) && y in TreeInputs(sha384, b);
  }

  /** Equal roots over non-empty items mean equal item lists, whatever their lengths. */
  lemma RootsBind(sha384: Sha384, a: seq<Bytes>, b: seq<Bytes>)
    requires NoneEmpty(a) && NoneEmpty(b)
    requires TreeRoot(sha384, LeafHashes(sha384, a)) == TreeRoot(sha384, LeafHashes(sha384, b))
    ensures a == b || Collision(sha384, TreeInputs(sha384, a), TreeInputs(sha384, b))
  {
    if a == [] && b != [] {
      assert LeafHashes(sha384, a) == [];
      EmptyBinds(sha384, b);
    } else if a != [] && b == [] {
      assert LeafHashes(sha384, b) == [];
      EmptyBinds(sha384, a);
    } else if a != [] {
      TreeKeepsLeaves(LeafHashes(sha384, a));
      TreeKeepsLeaves(LeafHashes(sha384, b));
      TreesBind(sha384, a, TreeOf(LeafHashes(sha384, a)), b, TreeOf(LeafHashes(sha384, b)));
    }
  }

  // ----- The upper tree ----------------------------------------------------------------------

  function SingleInput(child: Bytes): Bytes {
    [SINGLE_CHILD_PREFIX] + child
  }

  /** The ten inputs hashed to get a block root from its parts. */
  function UpperInputs(sha384: Sha384, u: UpperTree): set<Bytes> {
    var d51, d52 := NodeInput(u.previousBlockRoot, u.allBlockHashesRoot), NodeInput(u.stateRoot, u.consensusRoot);
    var d53, d54 := NodeInput(u.inputRoot, u.outputRoot), NodeInput(u.stateChangesRoot, u.traceRoot);
    var d41, d42 := NodeInput(sha384(d51), sha384(d52)), NodeInput(sha384(d53), sha384(d54));
    var top := NodeInput(sha384(d41), sha384(d42));
    var fixed := SingleInput(sha384(top));
    var stamp := LeafInput(u.timestamp);
    {d51, d52, d53, d54, d41, d42, top, fixed, stamp, NodeInput(sha384(stamp), sha384(fixed))}
  }

  /** Same parts, except that the two chain hashes are only pinned as one concatenation. */
  predicate SameParts(u: UpperTree, v: UpperTree) {
    && u.previousBlockRoot + u.allBlockHashesRoot == v.previousBlockRoot + v.allBlockHashesRoot
    && u.stateRoot == v.stateRoot && u.consensusRoot == v.consensusRoot
    && u.inputRoot == v.inputRoot && u.outputRoot == v.outputRoot
    && u.stateChangesRoot == v.stateChangesRoot && u.traceRoot == v.traceRoot
    && u.timestamp == v.timestamp
  }

  /** Two hashed node inputs with the same digest have the same children. */
  lemma NodeStep(sha384: Sha384, l: Bytes, r: Bytes, l': Bytes, r': Bytes, xs: set<Bytes>, ys: set<Bytes>)
    requires NodeInput(l, r) in xs && NodeInput(l', r') in ys && |r| == |r'|
    requires sha384(NodeInput(l, r)) == sha384(NodeInput(l', r'))
    ensures (l == l' && r == r') || Collision(sha384, xs, ys)
  {
    SameInput(sha384, NodeInput(l, r), NodeInput(l', r'), xs, ys);
    if NodeInput(l, r) == NodeInput(l', r') {
      SplitNode(l, r, l', r');
    }
  }

  /** From the root down to the single-child node's child, and the timestamp beside it. */
  lemma TopBinds(sha384: Sha384, stamp: Bytes, top: Bytes, stamp': Bytes, top': Bytes, xs: set<Bytes>, ys: set<Bytes>)
    requires LeafInput(stamp) in xs && LeafInput(stamp') in ys
    requires SingleInput(sha384(top)) in xs && SingleInput(sha384(top')) in ys
    requires NodeInput(sha384(LeafInput(stamp)), sha384(SingleInput(sha384(top)))) in xs
    requires NodeInput(sha384(LeafInput(stamp')), sha384(SingleInput(sha384(top')))) in ys
    requires sha384(NodeInput(sha384(LeafInput(stamp)), sha384(SingleInput(sha384(top)))))
             == sha384(NodeInput(sha384(LeafInput(stamp')), sha384(SingleInput(sha384(top')))))
    ensures (stamp == stamp' && sha384(top) == sha384(top')) || Collision(sha384, xs, ys)
  {
    var fixed, fixed' := SingleInput(sha384(top)), SingleInput(sha384(top'));
    NodeStep(sha384, sha384(LeafInput(stamp)), sha384(fixed), sha384(LeafInput(stamp')), sha384(fixed'), xs, ys);
    if !Collision(sha384, xs, ys) {
      SameInput(sha384, LeafInput(stamp), LeafInput(stamp'), xs, ys);
      SameLeaf(stamp, stamp');
      SameInput(sha384, fixed, fixed', xs, ys);
      assert sha384(top) == fixed[1..] && sha384(top') == fixed'[1..];
    }
  }

  /** Down two levels of internal nodes at once. */
  lemma FourBind(sha384: Sha384, a: Bytes, b: Bytes, c: Bytes, d: Bytes, a': Bytes, b': Bytes, c': Bytes, d': Bytes,
                 xs: set<Bytes>, ys: set<Bytes>)
    requires NodeInput(sha384(a), sha384(b)) in xs && NodeInput(sha384(c), sha384(d)) in xs
    requires NodeInput(sha384(a'), sha384(b')) in ys && NodeInput(sha384(c'), sha384(d')) in ys
    requires NodeInput(sha384(NodeInput(sha384(a), sha384(b))), sha384(NodeInput(sha384(c), sha384(d)))) in xs
    requires NodeInput(sha384(NodeInput(sha384(a'), sha384(b'))), sha384(NodeInput(sha384(c'), sha384(d')))) in ys
    requires sha384(NodeInput(sha384(NodeInput(sha384(a), sha384(b))), sha384(NodeInput(sha384(c), sha384(d)))))
             == sha384(NodeInput(sha384(NodeInput(sha384(a'), sha384(b'))), sha384(NodeInput(sha384(c'), sha384(d')))))
    ensures (sha384(a) == sha384(a') && sha384(b) == sha384(b') && sha384(c) == sha384(c') && sha384(d) == sha384(d'))
            || Collision(sha384, xs, ys)
  {
    NodeStep(sha384, sha384(NodeInput(sha384(a), sha384(b))), sha384(NodeInput(sha384(c), sha384(d))),
             sha384(NodeInput(sha384(a'), sha384(b'))), sha384(NodeInput(sha384(c'), sha384(d'))), xs, ys);
    if !Collision(sha384, xs, ys) {
      NodeStep(sha384, sha384(a), sha384(b), sha384(a'), sha384(b'), xs, ys);
      NodeStep(sha384, sha384(c), sha384(d), sha384(c'), sha384(d'), xs, ys);
    }
  }

  /** Equal block roots mean equal parts, the split between the two chain hashes aside. */
  lemma UpperBinds(sha384: Sha384, u: UpperTree, v: UpperTree)
    requires BlockRoot(sha384, u) == BlockRoot(sha384, v)
    ensures SameParts(u, v) || Collision(sha384, UpperInputs(sha384, u), UpperInputs(sha384, v))
  {
    var xs, ys := UpperInputs(sha384, u), UpperInputs(sha384, v);
    var d51, d52 := NodeInput(u.previousBlockRoot, u.allBlockHashesRoot), NodeInput(u.stateRoot, u.consensusRoot);
    var d53, d54 := NodeInput(u.inputRoot, u.outputRoot), NodeInput(u.stateChangesRoot, u.traceRoot);
    var e51, e52 := NodeInput(v.previousBlockRoot, v.allBlockHashesRoot), NodeInput(v.stateRoot, v.consensusRoot);
    var e53, e54 := NodeInput(v.inputRoot, v.outputRoot), NodeInput(v.stateChangesRoot, v.traceRoot);
    var d41, d42 := NodeInput(sha384(d51), sha384(d52)), NodeInput(sha384(d53), sha384(d54));
    var e41, e42 := NodeInput(sha384(e51), sha384(e52)), NodeInput(sha384(e53), sha384(e54));
    TopBinds(sha384, u.timestamp, NodeInput(sha384(d41), sha384(d42)), v.timestamp, NodeInput(sha384(e41), sha384(e42)), xs, ys);
    if !Collision(sha384, xs, ys) {
      FourBind(sha384, d51, d52, d53, d54, e51, e52, e53, e54, xs, ys);
      NodeStep(sha384, u.stateRoot, u.consensusRoot, v.stateRoot, v.consensusRoot, xs, ys);
      NodeStep(sha384, u.inputRoot, u.outputRoot, v.inputRoot, v.outputRoot, xs, ys);
      NodeStep(sha384, u.stateChangesRoot, u.traceRoot, v.stateChangesRoot, v.traceRoot, xs, ys);
      SameInput(sha384, d51, e51, xs, ys);
      assert u.previousBlockRoot + u.allBlockHashesRoot == d51[1..];
      assert v.previousBlockRoot + v.allBlockHashesRoot == e51[1..];
    }
  }

  // ----- The input sets are complete ---------------------------------------------------------
  // Two hash functions that agree on one of these sets give the same result: nothing else is hashed.

  predicate Agree(f: Sha384, g: Sha384, inputs: set<Bytes>) {
    forall x :: x in inputs ==> f(x) == g(x)
  }

  lemma {:induction false} NodeInputsSuffice(f: Sha384, g: Sha384, t: Tree)
    requires Agree(f, g, NodeInputs(f, t))
    ensures Value(f, t) == Value(g, t)
  {
    if t.Node? {
      NodeInputsSuffice(f, g, t.left);
      NodeInputsSuffice(f, g, t.right);
      assert NodeInput(Value(f, t.left), Value(f, t.right)) in NodeInputs(f, t);
    }
  }

  lemma TreeInputsSuffice(f: Sha384, g: Sha384, items: seq<Bytes>)
    requires Agree(f, g, TreeInputs(f, items))
    ensures TreeRoot(f, LeafHashes(f, items)) == TreeRoot(g, LeafHashes(g, items))
  {
    if items == [] {
      assert LeafInput([]) in TreeInputs(f, items);
      assert LeafHashes(f, items) == [] && LeafHashes(g, items) == [];
    } else {
      forall i | 0 <= i < |items| ensures LeafHashes(f, items)[i] == LeafHashes(g, items)[i] {
        assert LeafInput(items[i]) in TreeInputs(f, items);
      }
      assert LeafHashes(f, items) == LeafHashes(g, items);
      NodeInputsSuffice(f, g, TreeOf(LeafHashes(f, items)));
    }
  }

  lemma {:induction false} ClimbInputsSuffice(f: Sha384, g: Sha384, leafBytes: Bytes, path: seq<Sibling>)
    requires Agree(f, g, ClimbInputs(f, leafBytes, path))
    ensures Climb(f, HashLeaf(f, leafBytes), path) == Climb(g, HashLeaf(g, leafBytes), path)
  {
    if path == [] {
      assert LeafInput(leafBytes) in ClimbInputs(f, leafBytes, path);
    } else {
      var below := path[..|path| - 1];
      ClimbInputsSuffice(f, g, leafBytes, below);
      assert StepInput(Climb(f, HashLeaf(f, leafBytes), below), path[|path| - 1]) in ClimbInputs(f, leafBytes, path);
    }
  }

  lemma UpperInputsSuffice(f: Sha384, g: Sha384, u: UpperTree)
    requires Agree(f, g, UpperInputs(f, u))
    ensures BlockRoot(f, u) == BlockRoot(g, u)
  {
    var d51, d52 := NodeInput(u.previousBlockRoot, u.allBlockHashesRoot), NodeInput(u.stateRoot, u.consensusRoot);
    var d53, d54 := NodeInput(u.inputRoot, u.outputRoot), NodeInput(u.stateChangesRoot, u.traceRoot);
    assert f(d51) == g(d51) && f(d52) == g(d52) && f(d53) == g(d53) && f(d54) == g(d54);
    var d41, d42 := NodeInput(f(d51), f(d52)), NodeInput(f(d53), f(d54));
    assert f(d41) == g(d41) && f(d42) == g(d42);
    var top := NodeInput(f(d41), f(d42));
    assert f(top) == g(top);
    var fixed, stamp := SingleInput(f(top)), LeafInput(u.timestamp);
    assert f(fixed) == g(fixed) && f(stamp) == g(stamp);
    assert f(NodeInput(f(stamp), f(fixed))) == g(NodeInput(f(stamp), f(fixed)));
  }
}
