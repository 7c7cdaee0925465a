/**
 * How the diff's integer addresses meet the walk of src/apply.rs:18-33.
 * The reference here is a diff that names every node by its path in the old
 * tree instead of by a counter; the theorems say when binding the counted
 * addresses to the walk of the rendered old tree gives exactly that diff.
 */
module Sync {
  import opened Tree
  import opened Diff
  import opened DiffFacts
  import opened Live
  import opened Apply

  // ---------------------------------------------------------------------
  // The reference: the diff with path addresses
  // ---------------------------------------------------------------------

  /** `diff_node` with each patch addressed by the old node's path, `base` for this node. */
  function PathNodeDiff(oldNode: VNode, newNode: VNode, base: Path): seq<Patch<Path>>
    decreases oldNode, 2
  {
    if newNode.tag != oldNode.tag then [Patch(base, ReplaceNode(newNode))]
    else
      var m := Min(|oldNode.children|, |newNode.children|);
      AttributePatches(Intended, oldNode, newNode, base)
        + (CountPatches(oldNode, newNode, base) + PathPairsDiff(oldNode, newNode, m, base))
  }

  /** The first `k` shared pairs, child `j` at `base + [j]`. */
  function PathPairsDiff(oldNode: VNode, newNode: VNode, k: nat, base: Path): seq<Patch<Path>>
    requires k <= |oldNode.children| && k <= |newNode.children|
    decreases oldNode, 0, k
  {
    if k == 0 then []
    else PathPairsDiff(oldNode, newNode, k - 1, base)
           + PathPairDiff(oldNode.children[k - 1], newNode.children[k - 1], base + [k - 1])
  }

  function PathPairDiff(oldChild: Child, newChild: Child, at: Path): seq<Patch<Path>>
    decreases oldChild
  {
    match (oldChild, newChild)
    case (Node(o), Node(n)) => PathNodeDiff(o, n, at)
    case (Text(s), Text(t)) => if s != t then [Patch(at, ReplaceText(t))] else []
    case (_, Text(t)) => [Patch(at, ReplaceText(t))]
    case (_, Node(n)) => [Patch(at, ReplaceNode(n))]
  }

  // ---------------------------------------------------------------------
  // Binding and placement
  // ---------------------------------------------------------------------

  /** `qs` is `ps` with every address replaced by the walked node it indexes. */
  predicate Binds(ns: seq<Path>, ps: seq<Patch<int>>, qs: seq<Patch<Path>>)
  {
    && |ps| == |qs|
    && forall k :: 0 <= k < |ps| ==>
         0 <= ps[k].node < |ns| && ns[ps[k].node] == qs[k].node && ps[k].operation == qs[k].operation
  }

  lemma {:induction false} BindsConcat(ns: seq<Path>, ps: seq<Patch<int>>, qs: seq<Patch<Path>>, ps': seq<Patch<int>>, qs': seq<Patch<Path>>)
    requires Binds(ns, ps, qs) && Binds(ns, ps', qs')
    ensures Binds(ns, ps + ps', qs + qs')
  {
    forall k | 0 <= k < |ps + ps'|
      ensures 0 <= (ps + ps')[k].node < |ns| && ns[(ps + ps')[k].node] == (qs + qs')[k].node
      ensures (ps + ps')[k].operation == (qs + qs')[k].operation
    {
      if k >= |ps| {
        assert (ps + ps')[k] == ps'[k - |ps|] && (qs + qs')[k] == qs'[k - |ps|];
      }
    }
  }

  lemma {:induction false} BindsDirect(ns: seq<Path>, ps: seq<Patch<int>>, qs: seq<Patch<Path>>)
    requires Binds(ns, ps, qs)
    ensures Direct(ns, ps) == qs
  {
  }

  /** The attribute patches of one node, at its address and at its path. */
  lemma {:induction false} KeysBind(mode: Mode, ns: seq<Path>, oldA: map<string, Attr>, newA: map<string, Attr>, ks: seq<string>, index: nat, base: Path)
    requires index < |ns| && ns[index] == base
    ensures Binds(ns, KeysPatches(mode, oldA, newA, ks, index), KeysPatches(mode, oldA, newA, ks, base))
  {
    if ks != [] {
      KeysBind(mode, ns, oldA, newA, ks[..|ks| - 1], index, base);
      var k := ks[|ks| - 1];
      BindsConcat(ns, KeysPatches(mode, oldA, newA, ks[..|ks| - 1], index), KeysPatches(mode, oldA, newA, ks[..|ks| - 1], base),
                  KeyPatches(mode, oldA, newA, k, index), KeyPatches(mode, oldA, newA, k, base));
    }
  }

  lemma {:induction false} OwnPatchesBind(mode: Mode, ns: seq<Path>, oldNode: VNode, newNode: VNode, index: nat, base: Path)
    requires index < |ns| && ns[index] == base
    ensures Binds(ns, AttributePatches(mode, oldNode, newNode, index), AttributePatches(mode, oldNode, newNode, base))
    ensures Binds(ns, CountPatches(oldNode, newNode, index), CountPatches(oldNode, newNode, base))
  {
    KeysBind(mode, ns, oldNode.attributes, newNode.attributes,
             Keys.SortedKeys(KeyUnion(oldNode.attributes, newNode.attributes)), index, base);
  }

  /** The walk `ns` holds the pre-order of `t` at `base` from position `index` on. */
  predicate Placed(ns: seq<Path>, index: nat, t: LNode, base: Path)
  {
    index + |PreOrder(t, base)| <= |ns| && ns[index..index + |PreOrder(t, base)|] == PreOrder(t, base)
  }

  lemma {:induction false} PlacedHead(ns: seq<Path>, index: nat, t: LNode, base: Path)
    requires Placed(ns, index, t, base)
    ensures index < |ns| && ns[index] == base
  {
    assert ns[index] == ns[index..index + |PreOrder(t, base)|][0];
  }

  /** A span of consecutive children splits at any child between its ends. */
  lemma {:induction false} SpanSplit(cs: seq<LNode>, base: Path, i: nat, k: nat, j: nat)
    requires i <= k <= j <= |cs|
    ensures Span(cs, base, i, j) == Span(cs, base, i, k) + Span(cs, base, k, j)
    decreases j
  {
    if j == k {
      assert Span(cs, base, k, j) == [];
    } else {
      SpanSplit(cs, base, i, k, j - 1);
      var last := PreOrder(cs[j - 1], base + [j - 1]);
      assert Span(cs, base, i, j) == Span(cs, base, i, j - 1) + last;
      assert Span(cs, base, k, j) == Span(cs, base, k, j - 1) + last;
      ConcatAssoc(Span(cs, base, i, k), Span(cs, base, k, j - 1), last);
    }
  }

  lemma {:induction false} SliceMiddle(ns: seq<Path>, index: nat, x: seq<Path>, y: seq<Path>, z: seq<Path>)
    requires index + |x + y + z| <= |ns| && ns[index..index + |x + y + z|] == x + y + z
    ensures ns[index + |x|..index + |x| + |y|] == y
  {
    forall a | 0 <= a < |y|
      ensures ns[index + |x| + a] == y[a]
    {
      assert ns[index + |x| + a] == ns[index..index + |x + y + z|][|x| + a];
    }
  }

  /**
   * Child `j` of a placed node is placed right after the node itself and
   * the subtrees of children `0..j-1`, which is where the counter puts it.
   */
  lemma {:induction false} PlacedChild(ns: seq<Path>, index: nat, oldNode: VNode, base: Path, j: nat)
    requires Placed(ns, index, Materialize(oldNode), base) && j < |oldNode.children|
    ensures Placed(ns, index + 1 + CountChildren(oldNode.children[..j]), MaterializeChild(oldNode.children[j]), base + [j])
  {
    var ks := Kids(Materialize(oldNode));
    assert ks == MaterializeKids(oldNode.children);
    assert |Span(ks, base, 0, j)| == CountChildren(oldNode.children[..j]) by {
      SpanLength(oldNode.children, base, j);
    }
    assert ks[j] == MaterializeChild(oldNode.children[j]);
    PlacedKid(ns, index, Materialize(oldNode), base, j);
  }

  /** The same on the live side: child `j` follows the node and its earlier siblings. */
  lemma {:induction false} PlacedKid(ns: seq<Path>, index: nat, t: LNode, base: Path, j: nat)
    requires Placed(ns, index, t, base) && j < |Kids(t)|
    ensures Placed(ns, index + 1 + |Span(Kids(t), base, 0, j)|, Kids(t)[j], base + [j])
  {
    var ks := Kids(t);
    var x, y, z := [base] + Span(ks, base, 0, j), PreOrder(ks[j], base + [j]), Span(ks, base, j + 1, |ks|);
    assert PreOrder(t, base) == x + y + z by {
      PreOrderAround(t, base, j);
    }
    assert |x| == 1 + |Span(ks, base, 0, j)|;
    assert index + |x + y + z| <= |ns| && ns[index..index + |x + y + z|] == x + y + z;
    SliceMiddle(ns, index, x, y, z);
    assert index + |x| + |y| <= |ns| && ns[index + |x|..index + |x| + |y|] == y;
  }

  /** The pre-order of a node around the subtree of its child `j`. */
  lemma {:induction false} PreOrderAround(t: LNode, base: Path, j: nat)
    requires j < |Kids(t)|
    ensures PreOrder(t, base)
         == [base] + Span(Kids(t), base, 0, j) + PreOrder(Kids(t)[j], base + [j]) + Span(Kids(t), base, j + 1, |Kids(t)|)
  {
    var ks := Kids(t);
    var a, b, c := Span(ks, base, 0, j), PreOrder(ks[j], base + [j]), Span(ks, base, j + 1, |ks|);
    assert Span(ks, base, j, |ks|) == b + c by {
      SpanFront(ks, base, j, |ks|);
    }
    assert Span(ks, base, 0, |ks|) == a + (b + c) by {
      SpanSplit(ks, base, 0, j, |ks|);
    }
    assert PreOrder(t, base) == [base] + (a + (b + c)) by {
      PreOrderKids(t, base);
    }
    ConcatAssoc(a, b, c);
    ConcatAssoc([base], a + b, c);
    ConcatAssoc([base], a, b);
  }

  // ---------------------------------------------------------------------
  // The intended counter binds every patch to its own node
  // ---------------------------------------------------------------------

  lemma {:induction false} NodeBinds(ns: seq<Path>, oldNode: VNode, newNode: VNode, index: nat, base: Path)
    requires Placed(ns, index, Materialize(oldNode), base)
    ensures Binds(ns, NodeDiff(Intended, oldNode, newNode, index).patches, PathNodeDiff(oldNode, newNode, base))
    decreases oldNode, 2
  {
    PlacedHead(ns, index, Materialize(oldNode), base);
    if newNode.tag == oldNode.tag {
      var m := Min(|oldNode.children|, |newNode.children|);
      OwnPatchesBind(Intended, ns, oldNode, newNode, index, base);
      PairsBind(ns, oldNode, newNode, m, index, base);
      BindsConcat(ns, CountPatches(oldNode, newNode, index), CountPatches(oldNode, newNode, base),
                  PairsDiff(Intended, oldNode, newNode, m, index).patches, PathPairsDiff(oldNode, newNode, m, base));
      BindsConcat(ns, AttributePatches(Intended, oldNode, newNode, index), AttributePatches(Intended, oldNode, newNode, base),
                  ChildrenDiff(Intended, oldNode, newNode, index).patches,
                  CountPatches(oldNode, newNode, base) + PathPairsDiff(oldNode, newNode, m, base));
    }
  }

  lemma {:induction false} PairsBind(ns: seq<Path>, oldNode: VNode, newNode: VNode, k: nat, index: nat, base: Path)
    requires k <= |oldNode.children| && k <= |newNode.children|
    requires Placed(ns, index, Materialize(oldNode), base)
    ensures Binds(ns, PairsDiff(Intended, oldNode, newNode, k, index).patches, PathPairsDiff(oldNode, newNode, k, base))
    decreases oldNode, 0, k
  {
    if k > 0 {
      var j := k - 1;
      var d := PairsDiff(Intended, oldNode, newNode, j, index);
      var e := PairDiff(Intended, oldNode.children[j], newNode.children[j], d.next + 1).patches;
      var pe := PathPairDiff(oldNode.children[j], newNode.children[j], base + [j]);
      assert Binds(ns, d.patches, PathPairsDiff(oldNode, newNode, j, base)) by {
        PairsBind(ns, oldNode, newNode, j, index, base);
      }
      assert Binds(ns, e, pe) by {
        PairsDiffCounterIntended(oldNode, newNode, j, index);
        PlacedChild(ns, index, oldNode, base, j);
        PairBinds(ns, oldNode.children[j], newNode.children[j], d.next + 1, base + [j]);
      }
      assert PairsDiff(Intended, oldNode, newNode, k, index).patches == d.patches + e by {
        PairsDiffStep(Intended, oldNode, newNode, j, index);
      }
      assert PathPairsDiff(oldNode, newNode, k, base) == PathPairsDiff(oldNode, newNode, j, base) + pe;
      BindsConcat(ns, d.patches, PathPairsDiff(oldNode, newNode, j, base), e, pe);
    }
  }

  lemma {:induction false} PairBinds(ns: seq<Path>, oldChild: Child, newChild: Child, index: nat, at: Path)
    requires Placed(ns, index, MaterializeChild(oldChild), at)
    ensures Binds(ns, PairDiff(Intended, oldChild, newChild, index).patches, PathPairDiff(oldChild, newChild, at))
    decreases oldChild
  {
    PlacedHead(ns, index, MaterializeChild(oldChild), at);
    if oldChild.Node? && newChild.Node? {
      NodeBinds(ns, oldChild.node, newChild.node, index, at);
    }
  }

  /**
   * With the intended counter, binding the diff's addresses to the walk of
   * the rendered old tree at `base` yields the path-addressed diff.
   */
  lemma {:induction false} DiffResolves(oldNode: VNode, newNode: VNode, base: Path)
    ensures Resolve(PreOrder(Materialize(oldNode), base), NodeDiff(Intended, oldNode, newNode, 0).patches, 0)
         == Ok(PathNodeDiff(oldNode, newNode, base))
  {
    var ns := PreOrder(Materialize(oldNode), base);
    var ps := NodeDiff(Intended, oldNode, newNode, 0).patches;
    PreOrderLength(oldNode, base);
    DiffAddresses(Intended, oldNode, newNode);
    ResolveAscending(ns, ps, 0);
    assert ns[0..|ns|] == ns;
    NodeBinds(ns, oldNode, newNode, 0, base);
    BindsDirect(ns, ps, PathNodeDiff(oldNode, newNode, base));
  }

  /**
   * `apply` of the intended diff on a document whose subtree at `root`
   * renders `oldNode` runs the path-addressed diff, bound to the document.
   */
  lemma {:induction false} RunDiff(mode: Mode, f: Forest, root: Path, oldNode: VNode, newNode: VNode)
    requires |f| > 0 && ValidPath(f[0], root) && At(f[0], root) == Materialize(oldNode)
    ensures Run(mode, f, root, NodeDiff(Intended, oldNode, newNode, 0).patches)
         == ExecAll(mode, f, Lift(PathNodeDiff(oldNode, newNode, root)))
  {
    PreOrderLength(oldNode, root);
    DiffResolves(oldNode, newNode, root);
  }

  // ---------------------------------------------------------------------
  // The counter as written, where it is right and where it is not
  // ---------------------------------------------------------------------

  lemma {:induction false} NodeModesAgree(oldNode: VNode, newNode: VNode, index: int)
    requires SyncedBelow(oldNode, newNode) && KindsKept(oldNode, newNode)
    ensures NodeDiff(AsWritten, oldNode, newNode, index).patches == NodeDiff(Intended, oldNode, newNode, index).patches
    decreases oldNode, 2
  {
    if newNode.tag == oldNode.tag {
      var m := Min(|oldNode.children|, |newNode.children|);
      AttributePatchesModesAgree(oldNode, newNode, index);
      PairsSyncedAll(oldNode, newNode, m);
      PairsModesAgree(oldNode, newNode, m, index);
    }
  }

  lemma {:induction false} PairsModesAgree(oldNode: VNode, newNode: VNode, k: nat, index: int)
    requires k <= |oldNode.children| && k <= |newNode.children|
    requires PairsSynced(oldNode, newNode, k)
    requires forall j :: 0 <= j < k ==> ChildKindsKept(oldNode.children[j], newNode.children[j])
    ensures PairsDiff(AsWritten, oldNode, newNode, k, index).patches == PairsDiff(Intended, oldNode, newNode, k, index).patches
    decreases oldNode, 0, k
  {
    if k > 0 {
      var j := k - 1;
      PairsModesAgree(oldNode, newNode, j, index);
      PairsDiffCounterSynced(oldNode, newNode, j, index);
      PairsDiffCounterIntended(oldNode, newNode, j, index);
      var at := PairsDiff(Intended, oldNode, newNode, j, index).next + 1;
      PairModesAgree(oldNode.children[j], newNode.children[j], at);
      PairsDiffStep(AsWritten, oldNode, newNode, j, index);
      PairsDiffStep(Intended, oldNode, newNode, j, index);
    }
  }

  lemma {:induction false} PairModesAgree(oldChild: Child, newChild: Child, index: int)
    requires ChildSynced(oldChild, newChild) && ChildKindsKept(oldChild, newChild)
    ensures PairDiff(AsWritten, oldChild, newChild, index).patches == PairDiff(Intended, oldChild, newChild, index).patches
    decreases oldChild
  {
    if oldChild.Node? && newChild.Node? {
      NodeModesAgree(oldChild.node, newChild.node, index);
    }
  }

  /**
   * The diff as written binds correctly whenever no shared old child with
   * children of its own is replaced wholesale and no attribute changes kind.
   */
  lemma {:induction false} DiffResolvesSynced(oldNode: VNode, newNode: VNode, base: Path)
    requires SyncedBelow(oldNode, newNode) && KindsKept(oldNode, newNode)
    ensures Resolve(PreOrder(Materialize(oldNode), base), NodeDiff(AsWritten, oldNode, newNode, 0).patches, 0)
         == Ok(PathNodeDiff(oldNode, newNode, base))
  {
    NodeModesAgree(oldNode, newNode, 0);
    DiffResolves(oldNode, newNode, base);
  }

  /**
   * The counter as written, on a text replacing an element with a child:
   * `div[p["a"], "b"]` against `div["x", "c"]`.
   */
  const DesyncInner := VNode("p", map[], [Text("a")], [])
  const DesyncOld := VNode("div", map[], [Node(DesyncInner), Text("b")], [])
  const DesyncNew := VNode("div", map[], [Text("x"), Text("c")], [])

  /** The second text is counted at 2, as if `p` had no child. */
  lemma {:induction false} DesyncDiff()
    ensures NodeDiff(AsWritten, DesyncOld, DesyncNew, 0).patches == [Patch(1, ReplaceText("x")), Patch(2, ReplaceText("c"))]
  {
    var o, n := DesyncOld, DesyncNew;
    assert Keys.SortedKeys(KeyUnion(o.attributes, n.attributes)) == [];
    assert AttributePatches(AsWritten, o, n, 0) == [];
    assert CountPatches(o, n, 0) == [];
    assert PairsDiff(AsWritten, o, n, 0, 0) == Diffed([], 0);
    assert PairDiff(AsWritten, Node(DesyncInner), Text("x"), 1) == Diffed([Patch(1, ReplaceText("x"))], 1);
    assert PairsDiff(AsWritten, o, n, 1, 0) == Diffed([Patch(1, ReplaceText("x"))], 1) by {
      PairsDiffStep(AsWritten, o, n, 0, 0);
    }
    assert PairDiff(AsWritten, Text("b"), Text("c"), 2) == Diffed([Patch(2, ReplaceText("c"))], 2);
    assert PairsDiff(AsWritten, o, n, 2, 0).patches == [Patch(1, ReplaceText("x")), Patch(2, ReplaceText("c"))] by {
      PairsDiffStep(AsWritten, o, n, 1, 0);
    }
    assert ChildrenDiff(AsWritten, o, n, 0).patches == PairsDiff(AsWritten, o, n, 2, 0).patches;
  }

  const DesyncRendered := LElem("div", map[], map[], [LElem("p", map[], map[], [LText("a")]), LText("b")])

  /** The rendered old tree. */
  lemma {:induction false} DesyncRender()
    ensures Materialize(DesyncOld) == DesyncRendered
  {
    var none: map<string, Value> := map[];
    assert AttrValues(map[], Attribute) == none && AttrValues(map[], Property) == none;
    assert MaterializeKids(DesyncInner.children) == [LText("a")];
    assert Materialize(DesyncInner) == LElem("p", map[], map[], [LText("a")]);
    assert MaterializeKids(DesyncOld.children) == [Materialize(DesyncInner), LText("b")];
  }

  /** Its walk: the root, `p`, `"a"`, `"b"`. */
  lemma {:induction false} DesyncWalk()
    ensures PreOrder(DesyncRendered, []) == [[], [0], [0, 0], [1]]
  {
    var lp := LElem("p", map[], map[], [LText("a")]);
    assert Span([LText("a")], [0], 0, 1) == [[0, 0]] by {
      assert Span([LText("a")], [0], 0, 0) == [];
      assert [0] + [0] == [0, 0];
    }
    assert PreOrder(lp, [0]) == [[0], [0, 0]];
    assert Span([lp, LText("b")], [], 0, 1) == [[0], [0, 0]] by {
      assert Span([lp, LText("b")], [], 0, 0) == [];
      assert [] + [0] == [0];
    }
    assert Span([lp, LText("b")], [], 0, 2) == [[0], [0, 0], [1]] by {
      assert [] + [1] == [1];
    }
  }

  /** What the path-addressed diff asks for: the texts at `[0]` and at `[1]`. */
  lemma {:induction false} DesyncReference()
    ensures PathNodeDiff(DesyncOld, DesyncNew, []) == [Patch([0], ReplaceText("x")), Patch([1], ReplaceText("c"))]
  {
    var o, n := DesyncOld, DesyncNew;
    var root: Path := [];
    assert Keys.SortedKeys(KeyUnion(o.attributes, n.attributes)) == [];
    assert AttributePatches(Intended, o, n, root) == [];
    assert CountPatches(o, n, root) == [];
    assert [] + [0] == [0] && [] + [1] == [1];
    assert PathPairsDiff(o, n, 1, []) == [Patch([0], ReplaceText("x"))];
    assert PathPairsDiff(o, n, 2, []) == [Patch([0], ReplaceText("x")), Patch([1], ReplaceText("c"))];
  }

  /** Replacing a child of the root. */
  lemma {:induction false} PutChild(t: LNode, i: nat, x: LNode)
    requires t.LElem? && i < |t.children|
    ensures ValidPath(t, [i]) && At(t, [i]) == t.children[i]
    ensures Put(t, [i], x) == t.(children := t.children[i := x])
  {
    assert Init([i]) == [] && Last([i]) == i;
  }

  /**
   * The two bound patches run on the rendered old tree. The first takes
   * `"a"` out of `p`; the second is bound to `"a"` and follows it out.
   */
  lemma {:induction false} DesyncExec()
    ensures ExecAll(AsWritten, [DesyncRendered], Lift([Patch([0], ReplaceText("x")), Patch([0, 0], ReplaceText("c"))]))
         == Ok([LElem("div", map[], map[], [LElem("p", map[], map[], [LText("x")]), LText("b")]), LText("c")])
  {
    var f := [DesyncRendered];
    var t := DesyncRendered;
    var bs := Lift([Patch([0], ReplaceText("x")), Patch([0, 0], ReplaceText("c"))]);
    var p1 := LElem("p", map[], map[], [LText("x")]);
    var t1 := LElem("div", map[], map[], [p1, LText("b")]);
    assert bs[0] == Patch(Handle(0, [0]), ReplaceText("x")) && bs[1] == Patch(Handle(0, [0, 0]), ReplaceText("c"));
    PutChild(t, 0, p1);
    assert t.children[0 := p1] == t1.children;
    assert TextContent("x") == [LText("x")];
    assert Edit(AsWritten, t, [0], ReplaceText("x")) == Ok(Edited(t1, [LText("a")]));
    assert Holds(f, bs[0].node) && f[0 := t1] + [LText("a")] == [t1, LText("a")];
    assert Exec(AsWritten, f, bs[0]) == Ok([t1, LText("a")]);
    assert [0, 0][|[0]|..] == [0] && Below([0], [0, 0]);
    assert Track(AsWritten, f, bs[0], bs[1].node) == Handle(1, []);
    var rest := Retarget(AsWritten, f, bs[0], bs[1..]);
    assert rest == [Patch(Handle(1, []), ReplaceText("c"))];
    assert Edit(AsWritten, LText("a"), [], ReplaceText("c")) == Ok(Edited(LText("c"), []));
    assert Holds([t1, LText("a")], rest[0].node) && [t1, LText("a")][1 := LText("c")] + [] == [t1, LText("c")];
    assert Exec(AsWritten, [t1, LText("a")], rest[0]) == Ok([t1, LText("c")]);
    assert ExecAll(AsWritten, [t1, LText("c")], Retarget(AsWritten, [t1, LText("a")], rest[0], rest[1..])) == Ok([t1, LText("c")]);
  }

  /** The two counters land on `"a"` and on `"a"`'s text, not on `"b"`. */
  lemma {:induction false} DesyncResolve()
    ensures Resolve(PreOrder(Materialize(DesyncOld), []), [Patch(1, ReplaceText("x")), Patch(2, ReplaceText("c"))], 0)
         == Ok([Patch([0], ReplaceText("x")), Patch([0, 0], ReplaceText("c"))])
  {
    var ps := [Patch(1, ReplaceText("x")), Patch(2, ReplaceText("c"))];
    var ns := [[], [0], [0, 0], [1]];
    assert PreOrder(Materialize(DesyncOld), []) == ns by {
      DesyncRender();
      DesyncWalk();
    }
    assert Resolve(ns, ps, 0) == Ok([Patch([0], ReplaceText("x")), Patch([0, 0], ReplaceText("c"))]) by {
      assert Ascending(ps) && Within(ps, 0, |ns| - 1);
      ResolveAscending(ns, ps, 0);
      assert Direct(ns, ps) == [Patch([0], ReplaceText("x")), Patch([0, 0], ReplaceText("c"))];
    }
  }

  lemma {:induction false} DesyncRun()
    ensures Run(AsWritten, [Materialize(DesyncOld)], [], [Patch(1, ReplaceText("x")), Patch(2, ReplaceText("c"))])
         == Ok([LElem("div", map[], map[], [LElem("p", map[], map[], [LText("x")]), LText("b")]), LText("c")])
  {
    var ps := [Patch(1, ReplaceText("x")), Patch(2, ReplaceText("c"))];
    var bound := [Patch([0], ReplaceText("x")), Patch([0, 0], ReplaceText("c"))];
    var f := [DesyncRendered];
    assert [Materialize(DesyncOld)] == f by {
      DesyncRender();
    }
    assert Resolve(PreOrder(At(f[0], []), []), ps, 0) == Ok(bound) by {
      DesyncRender();
      DesyncResolve();
    }
    assert Run(AsWritten, f, [], ps) == ExecAll(AsWritten, f, Lift(bound));
    DesyncExec();
  }

  /**
   * The walk gives address 2 to the old `"a"` inside `p`, not to `"b"`:
   * `"b"` is never touched, and the second text lands on `"a"`, which the
   * first patch has already taken out of the document.
   */
  lemma {:induction false} CounterDesync()
    ensures var ps := NodeDiff(AsWritten, DesyncOld, DesyncNew, 0).patches;
            && Resolve(PreOrder(Materialize(DesyncOld), []), ps, 0)
               == Ok([Patch([0], ReplaceText("x")), Patch([0, 0], ReplaceText("c"))])
            && PathNodeDiff(DesyncOld, DesyncNew, []) == [Patch([0], ReplaceText("x")), Patch([1], ReplaceText("c"))]
            && Run(AsWritten, [Materialize(DesyncOld)], [], ps)
               == Ok([LElem("div", map[], map[], [LElem("p", map[], map[], [LText("x")]), LText("b")]), LText("c")])
  {
    DesyncDiff();
    DesyncResolve();
    DesyncReference();
    DesyncRun();
  }

  /**
   * The same miscount ends in a panic when the later patch replaces a
   * node: `div[p["a"], span]` against `div["x", q]` binds the replacement
   * to `"a"`, which has no parent by then.
   */
  const PanicOld := VNode("div", map[], [Node(DesyncInner), Node(VNode("span", map[], [], []))], [])
  const PanicNew := VNode("div", map[], [Text("x"), Node(VNode("q", map[], [], []))], [])
  const PanicRendered := LElem("div", map[], map[], [LElem("p", map[], map[], [LText("a")]), LElem("span", map[], map[], [])])

  /** The replacement is counted at 2, which the walk gives to `"a"`. */
  lemma {:induction false} PanicPatches()
    ensures NodeDiff(AsWritten, PanicOld, PanicNew, 0).patches
         == [Patch(1, ReplaceText("x")), Patch(2, ReplaceNode(VNode("q", map[], [], [])))]
  {
    var o, n := PanicOld, PanicNew;
    var q := VNode("q", map[], [], []);
    assert Keys.SortedKeys(KeyUnion(o.attributes, n.attributes)) == [];
    assert AttributePatches(AsWritten, o, n, 0) == [];
    assert CountPatches(o, n, 0) == [];
    assert PairsDiff(AsWritten, o, n, 0, 0) == Diffed([], 0);
    NodeDiffTagChange(AsWritten, VNode("span", map[], [], []), q, 2);
    assert PairsDiff(AsWritten, o, n, 2, 0).patches == [Patch(1, ReplaceText("x")), Patch(2, ReplaceNode(q))] by {
      PairsDiffStep(AsWritten, o, n, 1, 0);
    }
    assert ChildrenDiff(AsWritten, o, n, 0).patches == PairsDiff(AsWritten, o, n, 2, 0).patches;
  }

  /** The rendered old tree. */
  lemma {:induction false} PanicRender()
    ensures Materialize(PanicOld) == PanicRendered
  {
    var o := PanicOld;
    var none: map<string, Value> := map[];
    assert AttrValues(map[], Attribute) == none && AttrValues(map[], Property) == none;
    assert MaterializeKids(DesyncInner.children) == [LText("a")];
    assert Materialize(VNode("span", map[], [], [])) == LElem("span", map[], map[], []);
    assert MaterializeKids(o.children) == PanicRendered.children;
  }

  /** Its walk: the root, `p`, `"a"`, `span`. */
  lemma {:induction false} PanicWalk()
    ensures PreOrder(PanicRendered, []) == [[], [0], [0, 0], [1]]
  {
    var lp := LElem("p", map[], map[], [LText("a")]);
    var ls := LElem("span", map[], map[], []);
    assert Span([LText("a")], [0], 0, 1) == [[0, 0]] by {
      assert Span([LText("a")], [0], 0, 0) == [];
      assert [0] + [0] == [0, 0];
    }
    assert PreOrder(lp, [0]) == [[0], [0, 0]];
    assert PreOrder(ls, [1]) == [[1]];
    assert Span([lp, ls], [], 0, 1) == [[0], [0, 0]] by {
      assert Span([lp, ls], [], 0, 0) == [];
      assert [] + [0] == [0];
    }
    assert Span([lp, ls], [], 0, 2) == [[0], [0, 0], [1]] by {
      assert [] + [1] == [1];
    }
  }

  lemma {:induction false} PanicExec()
    ensures ExecAll(AsWritten, [PanicRendered], Lift([Patch([0], ReplaceText("x")), Patch([0, 0], ReplaceNode(VNode("q", map[], [], [])))]))
         == Err(NoParent)
  {
    var q := VNode("q", map[], [], []);
    var f := [PanicRendered];
    var bound := [Patch([0], ReplaceText("x")), Patch([0, 0], ReplaceNode(q))];
    var bs := Lift(bound);
    assert bs[0] == Patch(Handle(0, [0]), ReplaceText("x")) && bs[1] == Patch(Handle(0, [0, 0]), ReplaceNode(q));
    var p1 := LElem("p", map[], map[], [LText("x")]);
    var t1 := PanicRendered.(children := [p1, LElem("span", map[], map[], [])]);
    PutChild(PanicRendered, 0, p1);
    assert PanicRendered.children[0 := p1] == t1.children;
    assert TextContent("x") == [LText("x")];
    assert Edit(AsWritten, PanicRendered, [0], ReplaceText("x")) == Ok(Edited(t1, [LText("a")]));
    assert Holds(f, bs[0].node) && f[0 := t1] + [LText("a")] == [t1, LText("a")];
    assert Exec(AsWritten, f, bs[0]) == Ok([t1, LText("a")]);
    assert [0, 0][|[0]|..] == [0] && Below([0], [0, 0]);
    var rest := Retarget(AsWritten, f, bs[0], bs[1..]);
    assert rest == [Patch(Handle(1, []), ReplaceNode(q))];
    assert Exec(AsWritten, [t1, LText("a")], rest[0]) == Err(NoParent);
    assert ExecAll(AsWritten, f, bs) == Err(NoParent);
  }

  /** Both counters are bound into `p`: to `p` itself and to `"a"`. */
  lemma {:induction false} PanicResolve()
    ensures Resolve(PreOrder(Materialize(PanicOld), []), NodeDiff(AsWritten, PanicOld, PanicNew, 0).patches, 0)
         == Ok([Patch([0], ReplaceText("x")), Patch([0, 0], ReplaceNode(VNode("q", map[], [], [])))])
  {
    var q := VNode("q", map[], [], []);
    var ps := [Patch(1, ReplaceText("x")), Patch(2, ReplaceNode(q))];
    var ns := [[], [0], [0, 0], [1]];
    assert NodeDiff(AsWritten, PanicOld, PanicNew, 0).patches == ps by {
      PanicPatches();
    }
    assert PreOrder(Materialize(PanicOld), []) == ns by {
      PanicRender();
      PanicWalk();
    }
    assert Resolve(ns, ps, 0) == Ok([Patch([0], ReplaceText("x")), Patch([0, 0], ReplaceNode(q))]) by {
      assert Ascending(ps) && Within(ps, 0, |ns| - 1);
      ResolveAscending(ns, ps, 0);
      assert Direct(ns, ps) == [Patch([0], ReplaceText("x")), Patch([0, 0], ReplaceNode(q))];
    }
  }

  lemma {:induction false} CounterPanics()
    ensures var ps := NodeDiff(AsWritten, PanicOld, PanicNew, 0).patches;
            && Resolve(PreOrder(Materialize(PanicOld), []), ps, 0)
               == Ok([Patch([0], ReplaceText("x")), Patch([0, 0], ReplaceNode(VNode("q", map[], [], [])))])
            && Run(AsWritten, [Materialize(PanicOld)], [], ps) == Err(NoParent)
  {
    var ps := NodeDiff(AsWritten, PanicOld, PanicNew, 0).patches;
    var bound := [Patch([0], ReplaceText("x")), Patch([0, 0], ReplaceNode(VNode("q", map[], [], [])))];
    var f := [PanicRendered];
    assert ps != [] by {
      PanicPatches();
    }
    assert [Materialize(PanicOld)] == f by {
      PanicRender();
    }
    assert Resolve(PreOrder(At(f[0], []), []), ps, 0) == Ok(bound) by {
      PanicRender();
      PanicResolve();
    }
    assert Run(AsWritten, f, [], ps) == ExecAll(AsWritten, f, Lift(bound));
    PanicExec();
  }

}
