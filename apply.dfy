/**
 * Applying a patch list to the live document (src/apply.rs:11-104): first
 * every integer address is bound to a live node by one forward walk, then
 * the operations run in order against the tree.
 */
module Apply {
  import opened Tree
  import opened Diff
  import opened DiffFacts
  import opened Live
  import opened Walker

  /** What aborts a run: a panic in the source, or an exception the host throws. */
  datatype Fatal =
    | RanOutOfNodes   // an address past the last walked node
    | NoParent        // `parent_node().unwrap()` on a node without parent
    | NotAnElement    // an element operation on a text node
    | NoChildToRemove // `removeChild(lastChild)` with no child left

  datatype Result<T> = Ok(value: T) | Err(error: Fatal)

  // ---------------------------------------------------------------------
  // Address resolution (src/apply.rs:18-33)
  // ---------------------------------------------------------------------

  /** Bound patches put in front of the resolution of the rest. */
  function Prepend(done: seq<Patch<Path>>, r: Result<seq<Patch<Path>>>): Result<seq<Patch<Path>>>
  {
    match r
    case Ok(rest) => Ok(done + rest)
    case Err(e) => Err(e)
  }

  /**
   * The binding pass with the walker standing at index `pos` of the walk
   * `ns`: the walker moves forward to the patch's address, or stays where
   * it is when the address is not ahead of it, and the patch is bound to
   * the node it stands on. Walking past the last node is fatal.
   */
  function Resolve(ns: seq<Path>, ps: seq<Patch<int>>, pos: nat): (r: Result<seq<Patch<Path>>>)
    requires pos < |ns|
    ensures r.Ok? ==> |r.value| == |ps|
    ensures r.Ok? ==> forall k :: 0 <= k < |ps| ==> r.value[k].operation == ps[k].operation && r.value[k].node in ns
    decreases |ps|
  {
    if ps == [] then Ok([])
    else
      var target := if ps[0].node > pos then ps[0].node else pos;
      if target >= |ns| then Err(RanOutOfNodes)
      else Prepend([ps[0].At(ns[target])], Resolve(ns, ps[1..], target))
  }

  /** Resolution fails exactly when some address lies past the walk. */
  lemma {:induction false} ResolveFailsIff(ns: seq<Path>, ps: seq<Patch<int>>, pos: nat)
    requires pos < |ns|
    ensures Resolve(ns, ps, pos).Err? <==> exists k :: 0 <= k < |ps| && ps[k].node >= |ns|
    ensures Resolve(ns, ps, pos).Err? ==> Resolve(ns, ps, pos).error == RanOutOfNodes
    decreases |ps|
  {
    if ps != [] {
      var target := if ps[0].node > pos then ps[0].node else pos;
      if target < |ns| {
        ResolveFailsIff(ns, ps[1..], target);
        if exists k :: 0 <= k < |ps| && ps[k].node >= |ns| {
          var k :| 0 <= k < |ps| && ps[k].node >= |ns|;
          assert ps[1..][k - 1] == ps[k];
        }
        if exists k :: 0 <= k < |ps| - 1 && ps[1..][k].node >= |ns| {
          var k :| 0 <= k < |ps| - 1 && ps[1..][k].node >= |ns|;
          assert ps[k + 1] == ps[1..][k];
        }
      }
    }
  }

  /** Resolving from patch `i` on, when its address lies past the walk. */
  lemma {:induction false} ResolvePast(ns: seq<Path>, ps: seq<Patch<int>>, i: nat, pos: nat)
    requires i < |ps| && pos < |ns| && ps[i].node >= |ns|
    ensures Resolve(ns, ps[i..], pos) == Err(RanOutOfNodes)
  {
    assert ps[i..][0] == ps[i];
  }

  /** Resolving from patch `i` on binds it at the walker's next stop, then goes on from there. */
  lemma {:induction false} ResolveNext(ns: seq<Path>, ps: seq<Patch<int>>, i: nat, pos: nat, target: nat)
    requires i < |ps| && pos < |ns| && target < |ns|
    requires target == if ps[i].node > pos then ps[i].node else pos
    ensures Resolve(ns, ps[i..], pos) == Prepend([ps[i].At(ns[target])], Resolve(ns, ps[i + 1..], target))
  {
    assert ps[i..][0] == ps[i] && ps[i..][1..] == ps[i + 1..];
  }

  /** Each patch bound to the walked node whose index is its address. */
  function Direct(ns: seq<Path>, ps: seq<Patch<int>>): (r: seq<Patch<Path>>)
    requires forall k :: 0 <= k < |ps| ==> 0 <= ps[k].node < |ns|
    ensures |r| == |ps|
  {
    seq(|ps|, k requires 0 <= k < |ps| => ps[k].At(ns[ps[k].node]))
  }

  lemma {:induction false} DirectCons(ns: seq<Path>, ps: seq<Patch<int>>)
    requires ps != [] && forall k :: 0 <= k < |ps| ==> 0 <= ps[k].node < |ns|
    ensures Direct(ns, ps) == [ps[0].At(ns[ps[0].node])] + Direct(ns, ps[1..])
  {
    var all, tail := Direct(ns, ps), Direct(ns, ps[1..]);
    forall k | 0 < k < |ps|
      ensures all[k] == tail[k - 1]
    {
      assert ps[1..][k - 1] == ps[k];
    }
  }

  /** The addresses after the first are still non-decreasing, and none lies before the first. */
  lemma {:induction false} AscendingTail(ps: seq<Patch<int>>, lo: int, hi: int)
    requires ps != [] && Ascending(ps) && Within(ps, lo, hi)
    ensures Ascending(ps[1..]) && Within(ps[1..], ps[0].node, hi)
  {
    var tail := ps[1..];
    forall a, b | 0 <= a < b < |tail|
      ensures tail[a].node <= tail[b].node
    {
      assert tail[a] == ps[a + 1] && tail[b] == ps[b + 1];
    }
    forall a | 0 <= a < |tail|
      ensures ps[0].node <= tail[a].node <= hi
    {
      assert tail[a] == ps[a + 1];
    }
  }

  /**
   * For non-decreasing addresses that are not behind the walker, every
   * patch is bound to the node whose walk index equals its address.
   */
  lemma {:induction false} ResolveAscending(ns: seq<Path>, ps: seq<Patch<int>>, pos: nat)
    requires pos < |ns| && Ascending(ps) && Within(ps, pos, |ns| - 1)
    ensures Resolve(ns, ps, pos) == Ok(Direct(ns, ps))
    decreases |ps|
  {
    if ps != [] {
      AscendingTail(ps, pos, |ns| - 1);
      var first := [ps[0].At(ns[ps[0].node])];
      assert Resolve(ns, ps, pos) == Prepend(first, Resolve(ns, ps[1..], ps[0].node));
      assert Resolve(ns, ps[1..], ps[0].node) == Ok(Direct(ns, ps[1..])) by {
        ResolveAscending(ns, ps[1..], ps[0].node);
      }
      DirectCons(ns, ps);
    }
  }

  // ---------------------------------------------------------------------
  // Updating the live tree
  // ---------------------------------------------------------------------

  /** The node with its children replaced; a text node has none to replace. */
  function WithKids(n: LNode, ks: seq<LNode>): LNode
  {
    if n.LElem? then n.(children := ks) else n
  }

  /** The tree with the node at `p` replaced by `x`. */
  function Put(t: LNode, p: Path, x: LNode): LNode
    requires ValidPath(t, p)
    decreases |p|
  {
    if p == [] then x
    else
      var q := Init(p);
      var n := At(t, q);
      Put(t, q, WithKids(n, Kids(n)[Last(p) := x]))
  }

  /** After the update the path leads to the new node. */
  lemma {:induction false} PutAt(t: LNode, p: Path, x: LNode)
    requires ValidPath(t, p)
    ensures ValidPath(Put(t, p, x), p) && At(Put(t, p, x), p) == x
    decreases |p|
  {
    if p != [] {
      var q, l := Init(p), Last(p);
      var n := At(t, q);
      var n' := WithKids(n, Kids(n)[l := x]);
      PutAt(t, q, n');
      assert p == q + [l];
      ChildPath(Put(t, q, n'), q, l);
    }
  }

  /** Below the updated path lies the new node's subtree. */
  lemma {:induction false} PutBelow(t: LNode, q: Path, y: LNode, s: Path)
    requires ValidPath(t, q) && ValidPath(y, s)
    ensures ValidPath(Put(t, q, y), q + s) && At(Put(t, q, y), q + s) == At(y, s)
  {
    PutAt(t, q, y);
    AtConcat(Put(t, q, y), q, s);
  }

  /**
   * Nothing else changes: a node that is neither inside the replaced
   * subtree nor one of its ancestors is where it was and as it was.
   */
  lemma {:induction false} PutFrame(t: LNode, p: Path, x: LNode, r: Path)
    requires ValidPath(t, p) && ValidPath(t, r)
    requires !Below(p, r) && !Below(r, p)
    ensures ValidPath(Put(t, p, x), r) && At(Put(t, p, x), r) == At(t, r)
    decreases |p|
  {
    var q, l := Init(p), Last(p);
    var n := At(t, q);
    var n' := WithKids(n, Kids(n)[l := x]);
    assert p == q + [l];
    if Below(q, r) {
      PutFrameInside(t, q, l, x, r);
    } else {
      PutFrame(t, q, n', r);
    }
  }

  /** A path below `q` but not below its child `l` goes on through another child. */
  lemma {:induction false} OtherBranch(q: Path, l: nat, r: Path)
    requires Below(q, r) && !Below(q + [l], r) && r != q
    ensures |q| < |r| && r[|q|] != l && r == q + ([r[|q|]] + r[|q| + 1..])
  {
    assert r[..|q|] == q;
  }

  /** The case of `PutFrame` where `r` lies inside another child of the parent of `p`. */
  lemma {:induction false} PutFrameInside(t: LNode, q: Path, l: nat, x: LNode, r: Path)
    requires ValidPath(t, q + [l]) && ValidPath(t, r)
    requires Below(q, r) && !Below(q + [l], r) && r != q
    ensures var n := At(t, q);
            ValidPath(t, q) && l < |Kids(n)|
            && var y := Put(t, q, WithKids(n, Kids(n)[l := x]));
            ValidPath(y, r) && At(y, r) == At(t, r)
  {
    assert ValidPath(t, q) && l < |Kids(At(t, q))| by {
      ChildPath(t, q, l);
    }
    var n := At(t, q);
    var n' := WithKids(n, Kids(n)[l := x]);
    OtherBranch(q, l, r);
    var l', rest := r[|q|], r[|q| + 1..];
    var s := [l'] + rest;
    assert ValidPath(n, s) && At(t, r) == At(n, s) by {
      AtConcat(t, q, s);
    }
    assert ValidPath(n', s) && At(n', s) == At(n, s) by {
      FirstStep(n, l', rest);
      FirstStep(n', l', rest);
    }
    assert ValidPath(Put(t, q, n'), q + s) && At(Put(t, q, n'), q + s) == At(n', s) by {
      PutBelow(t, q, n', s);
    }
  }

  /** `Attr::set`: an attribute through setAttribute, a property by assignment. */
  function SetAttr(n: LNode, a: Attr): LNode
    requires n.LElem?
  {
    if a.kind == Attribute then n.(attributes := n.attributes[a.key := a.value])
    else n.(properties := n.properties[a.key := a.value])
  }

  /** `Attr::remove`: removeAttribute, or delete of the property. */
  function RemoveAttr(n: LNode, a: Attr): LNode
    requires n.LElem?
  {
    if a.kind == Attribute then n.(attributes := n.attributes - {a.key})
    else n.(properties := n.properties - {a.key})
  }

  /** Before child `pos` when there is one (a negative `pos` counts as huge), else at the end. */
  function InsertKid(ks: seq<LNode>, pos: int, x: LNode): seq<LNode>
  {
    if 0 <= pos < |ks| then ks[..pos] + [x] + ks[pos..] else ks + [x]
  }


  /** `set_text_content` on an element: the children give way to one text node, or to none for "". */
  function TextContent(s: string): seq<LNode>
  {
    if s == [] then [] else [LText(s)]
  }

  function Reversed<T>(s: seq<T>): (r: seq<T>)
    ensures |r| == |s| && forall i :: 0 <= i < |s| ==> r[i] == s[|s| - 1 - i]
  {
    if s == [] then [] else Reversed(s[1..]) + [s[0]]
  }

  // ---------------------------------------------------------------------
  // Host nodes and the patches on them (src/apply.rs:39-104)
  // ---------------------------------------------------------------------

  /**
   * The host's nodes: tree 0 is the document, and each later tree is a
   * node that a patch took out of a tree, with whatever still hangs below
   * it, in the order the patches took them out. A node taken out of the
   * document lives on as long as a bound patch still refers to it.
   */
  type Forest = seq<LNode>

  /** A reference to a host node: which tree of the forest, and the node's path in that tree. */
  datatype Handle = Handle(tree: nat, path: Path)

  predicate Holds(f: Forest, h: Handle)
  {
    h.tree < |f| && ValidPath(f[h.tree], h.path)
  }

  /** What a patch leaves of the tree it works on, and the nodes it takes out of that tree. */
  datatype Edited = Edited(tree: LNode, removed: seq<LNode>)

  /**
   * `apply_patch` on the node at `p` of tree `t`. ReplaceNode needs a
   * parent and takes the old node out; element operations on a text node
   * are fatal; RemoveLast takes the last children out one by one, last
   * first, and is fatal when they run out; Append on a text node is fatal
   * unless there is nothing to append. As written, text content on an
   * element takes its children out and keeps the element, and an insert
   * before an existing child is refused by the host and changes nothing;
   * intended, the element gives way to a text node and the insert puts
   * the new node before child `pos`.
   */
  function Edit(mode: Mode, t: LNode, p: Path, op: Operation): Result<Edited>
    requires ValidPath(t, p)
  {
    var n := At(t, p);
    var ks := Kids(n);
    match op
    case ReplaceNode(v) =>
      if p == [] then Err(NoParent) else Ok(Edited(Put(t, p, Materialize(v)), [n]))
    case RemoveAttribute(a) =>
      if n.LText? then Err(NotAnElement) else Ok(Edited(Put(t, p, RemoveAttr(n, a)), []))
    case SetAttribute(a) =>
      if n.LText? then Err(NotAnElement) else Ok(Edited(Put(t, p, SetAttr(n, a)), []))
    case ReplaceText(s) =>
      if n.LText? then Ok(Edited(Put(t, p, LText(s)), []))
      else if mode == AsWritten then Ok(Edited(Put(t, p, n.(children := TextContent(s))), ks))
      else if p == [] then Err(NoParent)
      else Ok(Edited(Put(t, p, LText(s)), [n]))
    case RemoveLast(count) =>
      if 0 <= count <= |ks| then Ok(Edited(Put(t, p, WithKids(n, ks[..|ks| - count])), Reversed(ks[|ks| - count..])))
      else Err(NoChildToRemove)
    case Append(cs) =>
      if cs != [] && n.LText? then Err(NotAnElement)
      else Ok(Edited(Put(t, p, WithKids(n, ks + MaterializeKids(cs))), []))
    case Insert(pos, v) =>
      if mode == AsWritten && 0 <= pos < |ks| then Ok(Edited(t, []))
      else if n.LText? then Err(NotAnElement)
      else Ok(Edited(Put(t, p, WithKids(n, InsertKid(ks, pos, Materialize(v)))), []))
  }

  /** A patch changes its tree only at the patched node. */
  lemma {:induction false} EditFrame(mode: Mode, t: LNode, p: Path, op: Operation)
    requires ValidPath(t, p)
    ensures var r := Edit(mode, t, p, op);
            r.Ok? ==> ValidPath(r.value.tree, p) && (r.value.tree == t || r.value.tree == Put(t, p, At(r.value.tree, p)))
  {
    var r := Edit(mode, t, p, op);
    if r.Ok? && r.value.tree != t {
      var x := Changed(mode, At(t, p), op);
      EditPut(mode, t, p, op);
      PutAt(t, p, x);
    }
  }

  /** The node a patch that changes its tree puts at the patched path. */
  function Changed(mode: Mode, n: LNode, op: Operation): LNode
  {
    match op
    case ReplaceNode(v) => Materialize(v)
    case RemoveAttribute(a) => if n.LElem? then RemoveAttr(n, a) else n
    case SetAttribute(a) => if n.LElem? then SetAttr(n, a) else n
    case ReplaceText(s) => if n.LText? || mode == Intended then LText(s) else n.(children := TextContent(s))
    case RemoveLast(count) => if 0 <= count <= |Kids(n)| then WithKids(n, Kids(n)[..|Kids(n)| - count]) else n
    case Append(cs) => WithKids(n, Kids(n) + MaterializeKids(cs))
    case Insert(pos, v) => WithKids(n, InsertKid(Kids(n), pos, Materialize(v)))
  }

  /** Each patch that changes the tree puts one node at the patched path. */
  lemma {:induction false} EditPut(mode: Mode, t: LNode, p: Path, op: Operation)
    requires ValidPath(t, p) && Edit(mode, t, p, op).Ok? && Edit(mode, t, p, op).value.tree != t
    ensures Edit(mode, t, p, op).value.tree == Put(t, p, Changed(mode, At(t, p), op))
  {
    match op
    case ReplaceNode(v) =>
    case RemoveAttribute(a) =>
    case SetAttribute(a) =>
    case ReplaceText(s) =>
    case RemoveLast(count) =>
    case Append(cs) =>
    case Insert(pos, v) =>
  }

  /**
   * One bound patch on the forest: the tree holding the node is updated
   * and the nodes taken out are appended; every other tree stays as it
   * was. A handle that names no node changes nothing.
   */
  function Exec(mode: Mode, f: Forest, patch: Patch<Handle>): (r: Result<Forest>)
    ensures r.Ok? ==> |f| <= |r.value|
    ensures r.Ok? ==> forall i :: 0 <= i < |f| && i != patch.node.tree ==> r.value[i] == f[i]
  {
    var h := patch.node;
    if !Holds(f, h) then Ok(f)
    else
      match Edit(mode, f[h.tree], h.path, patch.operation)
      case Err(e) => Err(e)
      case Ok(d) => Ok(f[h.tree := d.tree] + d.removed)
  }

  /**
   * Where the node `h` is once `patch` has run on `f`: a node the patch
   * took out, and everything below it, moves into the tree appended for
   * it; an intended insert moves the later siblings one place on; every
   * other handle stays.
   */
  function Track(mode: Mode, f: Forest, patch: Patch<Handle>, h: Handle): Handle
  {
    var at := patch.node;
    if !Holds(f, at) || h.tree != at.tree || !Below(at.path, h.path) then h
    else
      var n := At(f[at.tree], at.path);
      var ks := Kids(n);
      var s := h.path[|at.path|..];
      match patch.operation
      case ReplaceNode(_) =>
        if at.path == [] then h else Handle(|f|, s)
      case ReplaceText(_) =>
        if n.LText? then h
        else if mode == Intended then (if at.path == [] then h else Handle(|f|, s))
        else if s == [] then h
        else Handle(|f| + s[0], s[1..])
      case RemoveLast(count) =>
        if 0 <= count <= |ks| && s != [] && |ks| - count <= s[0] < |ks| then Handle(|f| + (|ks| - 1 - s[0]), s[1..])
        else h
      case Insert(pos, _) =>
        if mode == Intended && n.LElem? && 0 <= pos < |ks| && s != [] && pos <= s[0] then
          Handle(h.tree, at.path + ([s[0] + 1] + s[1..]))
        else h
      case _ => h
  }

  /** The later bound patches, each following its node after `patch` has run. */
  function Retarget(mode: Mode, f: Forest, patch: Patch<Handle>, bs: seq<Patch<Handle>>): (r: seq<Patch<Handle>>)
    ensures |r| == |bs|
    ensures forall k :: 0 <= k < |bs| ==> r[k].operation == bs[k].operation && r[k].node == Track(mode, f, patch, bs[k].node)
  {
    seq(|bs|, k requires 0 <= k < |bs| => bs[k].At(Track(mode, f, patch, bs[k].node)))
  }

  /** The bound patches run one after another; the first failure ends the run. */
  function ExecAll(mode: Mode, f: Forest, bs: seq<Patch<Handle>>): (r: Result<Forest>)
    ensures r.Ok? ==> |f| <= |r.value|
    decreases |bs|
  {
    if bs == [] then Ok(f)
    else
      match Exec(mode, f, bs[0])
      case Err(e) => Err(e)
      case Ok(g) => ExecAll(mode, g, Retarget(mode, f, bs[0], bs[1..]))
  }

  /** Patches bound to nodes of the document, tree 0. */
  function Lift(bs: seq<Patch<Path>>): (r: seq<Patch<Handle>>)
    ensures |r| == |bs|
  {
    seq(|bs|, k requires 0 <= k < |bs| => bs[k].At(Handle(0, bs[k].node)))
  }

  /**
   * `apply`: nothing for no patches; otherwise every patch is bound to a
   * node of the walk of the subtree at `root`, and an address past the
   * walk is fatal before anything runs; then the bound patches run.
   */
  function Run(mode: Mode, f: Forest, root: Path, ps: seq<Patch<int>>): (r: Result<Forest>)
    requires |f| > 0 && ValidPath(f[0], root)
    ensures ps == [] ==> r == Ok(f)
    ensures (exists k :: 0 <= k < |ps| && ps[k].node >= |PreOrder(At(f[0], root), root)|) ==> r == Err(RanOutOfNodes)
    ensures r.Ok? ==> |f| <= |r.value|
  {
    if ps == [] then Ok(f)
    else
      var ns := PreOrder(At(f[0], root), root);
      ResolveFailsIff(ns, ps, 0);
      match Resolve(ns, ps, 0)
      case Err(e) => Err(e)
      case Ok(bs) => ExecAll(mode, f, Lift(bs))
  }

  // ---------------------------------------------------------------------
  // One patch on the node it is bound to
  // ---------------------------------------------------------------------

  lemma {:induction false} ExecReplaceNode(mode: Mode, f: Forest, h: Handle, v: VNode)
    requires Holds(f, h)
    ensures var r := Exec(mode, f, Patch(h, ReplaceNode(v)));
            && (r.Err? <==> h.path == [])
            && (r.Err? ==> r.error == NoParent)
            && (r.Ok? ==> && ValidPath(r.value[h.tree], h.path) && At(r.value[h.tree], h.path) == Materialize(v)
                          && r.value[|f|..] == [At(f[h.tree], h.path)])
  {
    if h.path != [] {
      PutAt(f[h.tree], h.path, Materialize(v));
    }
  }

  lemma {:induction false} ExecSetAttribute(mode: Mode, f: Forest, h: Handle, a: Attr)
    requires Holds(f, h)
    ensures var r := Exec(mode, f, Patch(h, SetAttribute(a)));
            var n := At(f[h.tree], h.path);
            && (r.Err? <==> n.LText?)
            && (r.Ok? ==> && |r.value| == |f| && ValidPath(r.value[h.tree], h.path)
                          && var m := At(r.value[h.tree], h.path);
                          && m.LElem? && m.tag == n.tag && m.children == n.children
                          && (a.kind == Attribute ==> m.attributes == n.attributes[a.key := a.value] && m.properties == n.properties)
                          && (a.kind == Property ==> m.properties == n.properties[a.key := a.value] && m.attributes == n.attributes))
  {
    var n := At(f[h.tree], h.path);
    if n.LElem? {
      PutAt(f[h.tree], h.path, SetAttr(n, a));
    }
  }

  lemma {:induction false} ExecRemoveAttribute(mode: Mode, f: Forest, h: Handle, a: Attr)
    requires Holds(f, h)
    ensures var r := Exec(mode, f, Patch(h, RemoveAttribute(a)));
            var n := At(f[h.tree], h.path);
            && (r.Err? <==> n.LText?)
            && (r.Ok? ==> && |r.value| == |f| && ValidPath(r.value[h.tree], h.path)
                          && var m := At(r.value[h.tree], h.path);
                          && m.LElem? && m.tag == n.tag && m.children == n.children
                          && (a.kind == Attribute ==> m.attributes == n.attributes - {a.key} && m.properties == n.properties)
                          && (a.kind == Property ==> m.properties == n.properties - {a.key} && m.attributes == n.attributes))
  {
    var n := At(f[h.tree], h.path);
    if n.LElem? {
      PutAt(f[h.tree], h.path, RemoveAttr(n, a));
    }
  }

  lemma {:induction false} ExecReplaceText(mode: Mode, f: Forest, h: Handle, s: string)
    requires Holds(f, h)
    ensures var r := Exec(mode, f, Patch(h, ReplaceText(s)));
            var n := At(f[h.tree], h.path);
            && (n.LText? ==> r.Ok? && |r.value| == |f| && ValidPath(r.value[h.tree], h.path)
                             && At(r.value[h.tree], h.path) == LText(s))
            && (n.LElem? && mode == AsWritten ==>
                  r.Ok? && ValidPath(r.value[h.tree], h.path) && At(r.value[h.tree], h.path) == n.(children := TextContent(s))
                  && r.value[|f|..] == n.children)
            && (n.LElem? && mode == Intended ==>
                  && (r.Err? <==> h.path == [])
                  && (r.Ok? ==> ValidPath(r.value[h.tree], h.path) && At(r.value[h.tree], h.path) == LText(s)
                                && r.value[|f|..] == [n]))
  {
    var t, p, n := f[h.tree], h.path, At(f[h.tree], h.path);
    if n.LText? {
      PutAt(t, p, LText(s));
    } else if mode == AsWritten {
      PutAt(t, p, n.(children := TextContent(s)));
    } else if p != [] {
      PutAt(t, p, LText(s));
    }
  }

  lemma {:induction false} ExecRemoveLast(mode: Mode, f: Forest, h: Handle, count: int)
    requires Holds(f, h)
    ensures var r := Exec(mode, f, Patch(h, RemoveLast(count)));
            var ks := Kids(At(f[h.tree], h.path));
            && (r.Ok? <==> 0 <= count <= |ks|)
            && (r.Err? ==> r.error == NoChildToRemove)
            && (r.Ok? ==> && ValidPath(r.value[h.tree], h.path) && Kids(At(r.value[h.tree], h.path)) == ks[..|ks| - count]
                          && r.value[|f|..] == Reversed(ks[|ks| - count..]))
  {
    var t := f[h.tree];
    var n := At(t, h.path);
    var ks := Kids(n);
    if 0 <= count <= |ks| {
      var m := WithKids(n, ks[..|ks| - count]);
      assert Kids(m) == ks[..|ks| - count];
      assert ValidPath(Put(t, h.path, m), h.path) && At(Put(t, h.path, m), h.path) == m by {
        PutAt(t, h.path, m);
      }
      ExecRemoved(mode, f, h, count);
    } else {
      assert Exec(mode, f, Patch(h, RemoveLast(count))) == Err(NoChildToRemove) by {
        assert Edit(mode, t, h.path, RemoveLast(count)) == Err(NoChildToRemove);
      }
    }
  }

  /** In range, the removal puts the shortened node in place and appends the taken children. */
  lemma {:induction false} ExecRemoved(mode: Mode, f: Forest, h: Handle, count: int)
    requires Holds(f, h)
    requires 0 <= count <= |Kids(At(f[h.tree], h.path))|
    ensures var n := At(f[h.tree], h.path);
            var ks := Kids(n);
            var r := Exec(mode, f, Patch(h, RemoveLast(count)));
            && r.Ok?
            && r.value[h.tree] == Put(f[h.tree], h.path, WithKids(n, ks[..|ks| - count]))
            && r.value[|f|..] == Reversed(ks[|ks| - count..])
  {
    var n := At(f[h.tree], h.path);
    var ks := Kids(n);
    var g := f[h.tree := Put(f[h.tree], h.path, WithKids(n, ks[..|ks| - count]))] + Reversed(ks[|ks| - count..]);
    assert Exec(mode, f, Patch(h, RemoveLast(count))) == Ok(g);
    assert g[|f|..] == Reversed(ks[|ks| - count..]);
  }

  lemma {:induction false} ExecAppend(mode: Mode, f: Forest, h: Handle, cs: seq<Child>)
    requires Holds(f, h)
    ensures var r := Exec(mode, f, Patch(h, Append(cs)));
            var n := At(f[h.tree], h.path);
            && (r.Err? <==> cs != [] && n.LText?)
            && (r.Ok? ==> && |r.value| == |f| && ValidPath(r.value[h.tree], h.path)
                          && Kids(At(r.value[h.tree], h.path)) == Kids(n) + MaterializeKids(cs))
  {
    var n := At(f[h.tree], h.path);
    if !(cs != [] && n.LText?) {
      PutAt(f[h.tree], h.path, WithKids(n, Kids(n) + MaterializeKids(cs)));
    }
  }

  /** Intended: the new node goes before child `pos` when there is one, else at the end. */
  lemma {:induction false} ExecInsert(f: Forest, h: Handle, pos: int, v: VNode)
    requires Holds(f, h)
    ensures var r := Exec(Intended, f, Patch(h, Insert(pos, v)));
            var ks := Kids(At(f[h.tree], h.path));
            && (r.Err? <==> At(f[h.tree], h.path).LText?)
            && (r.Ok? ==> |r.value| == |f| && ValidPath(r.value[h.tree], h.path))
            && (r.Ok? && 0 <= pos < |ks| ==> Kids(At(r.value[h.tree], h.path)) == ks[..pos] + [Materialize(v)] + ks[pos..])
            && (r.Ok? && !(0 <= pos < |ks|) ==> Kids(At(r.value[h.tree], h.path)) == ks + [Materialize(v)])
  {
    var n := At(f[h.tree], h.path);
    if n.LElem? {
      PutAt(f[h.tree], h.path, WithKids(n, InsertKid(Kids(n), pos, Materialize(v))));
    }
  }

  /**
   * As written, an insert before an existing child changes nothing, and an
   * insert past the last child appends; the intended insert gives the node
   * one more child in both cases.
   */
  lemma {:induction false} InsertRefused(f: Forest, h: Handle, pos: int, v: VNode)
    requires Holds(f, h)
    ensures var ks := Kids(At(f[h.tree], h.path));
            0 <= pos < |ks| ==> Exec(AsWritten, f, Patch(h, Insert(pos, v))) == Ok(f)
    ensures var n := At(f[h.tree], h.path);
            !(0 <= pos < |Kids(n)|) ==> Exec(AsWritten, f, Patch(h, Insert(pos, v))) == Exec(Intended, f, Patch(h, Insert(pos, v)))
    ensures var r := Exec(Intended, f, Patch(h, Insert(pos, v)));
            r.Ok? ==> r != Ok(f)
  {
    var n := At(f[h.tree], h.path);
    if 0 <= pos < |Kids(n)| {
      assert f[h.tree := f[h.tree]] + [] == f;
    }
    var r := Exec(Intended, f, Patch(h, Insert(pos, v)));
    if r.Ok? {
      ExecInsert(f, h, pos, v);
      var m := At(r.value[h.tree], h.path);
      assert |Kids(m)| == |Kids(n)| + 1;
      assert r.value[h.tree] != f[h.tree];
    }
  }

  // ---------------------------------------------------------------------
  // The live document and the imperative procedures
  // ---------------------------------------------------------------------

  /** `failure` and the forest `f` left behind report the outcome `r`. */
  predicate Reports(failure: Option<Fatal>, f: Forest, r: Result<Forest>)
  {
    && (failure.None? <==> r.Ok?)
    && (failure.None? ==> f == r.value)
    && (failure.Some? ==> failure.value == r.error)
  }

  class Document {
    /** The document, tree 0, and the nodes patches took out of it. */
    var nodes: Forest

    constructor (tree: LNode)
      ensures nodes == [tree]
    {
      nodes := [tree];
    }

    /** `apply_patch`: one bound patch on the node it refers to. */
    method ApplyPatch(patch: Patch<Handle>) returns (failure: Option<Fatal>)
      modifies this
      ensures Reports(failure, nodes, Exec(AsWritten, old(nodes), patch))
    {
      failure := None;
      var k, p := patch.node.tree, patch.node.path;
      if !(k < |nodes| && ValidPath(nodes[k], p)) {
        return;
      }
      var t := nodes[k];
      var n := At(t, p);
      match patch.operation
      case ReplaceNode(v) =>
        match ParentNode(p) {
          case None =>
            failure := Some(NoParent);
          case Some(parent) =>
            var siblings := Kids(At(t, parent));
            nodes := nodes[k := Put(t, parent, WithKids(At(t, parent), siblings[Last(p) := Materialize(v)]))] + [n];
        }
      case RemoveAttribute(a) =>
        if n.LText? {
          failure := Some(NotAnElement);
        } else {
          nodes := nodes[k := Put(t, p, RemoveAttr(n, a))] + [];
        }
      case SetAttribute(a) =>
        if n.LText? {
          failure := Some(NotAnElement);
        } else {
          nodes := nodes[k := Put(t, p, SetAttr(n, a))] + [];
        }
      case ReplaceText(s) =>
        if n.LText? {
          nodes := nodes[k := Put(t, p, LText(s))] + [];
        } else {
          // the text-content setter takes every child out, then puts in one text node
          nodes := nodes[k := Put(t, p, n.(children := TextContent(s)))] + n.children;
        }
      case RemoveLast(count) =>
        failure := RemoveLastChildren(k, p, count);
      case Append(cs) =>
        failure := AppendChildren(k, p, cs);
      case Insert(pos, v) =>
        var ks := Kids(n);
        if 0 <= pos < |ks| {
          // `insert_before(&sibling, &new_child)` asks for `sibling` before
          // `new_child`, which is no child of the node: the host refuses,
          // and the refusal is dropped
          nodes := nodes[k := t] + [];
        } else if n.LText? {
          failure := Some(NotAnElement);
        } else {
          nodes := nodes[k := Put(t, p, WithKids(n, ks + [Materialize(v)]))] + [];
        }
    }

    /**
     * `apply`: binds every patch to a node of a forward walk over the
     * subtree at `root`, then applies the bound patches in order. An
     * address past the walk is fatal before anything is applied.
     */
    method Apply(root: Path, patches: seq<Patch<int>>) returns (failure: Option<Fatal>)
      requires |nodes| > 0 && ValidPath(nodes[0], root)
      modifies this
      ensures Reports(failure, nodes, Run(AsWritten, old(nodes), root, patches))
      ensures patches != [] && Resolve(PreOrder(At(old(nodes)[0], root), root), patches, 0).Err? ==> nodes == old(nodes)
    {
      failure := None;
      if |patches| == 0 {
        return;
      }
      var bound := Bind(root, patches);
      match bound {
        case Err(e) =>
          failure := Some(e);
        case Ok(withNodes) =>
          failure := ApplyAll(Lift(withNodes));
      }
    }

    /**
     * The first loop of `apply`: the walk moves forward to each patch's
     * address in turn, and the patch is bound to the node it stands on.
     */
    method Bind(root: Path, patches: seq<Patch<int>>) returns (r: Result<seq<Patch<Path>>>)
      requires |nodes| > 0 && ValidPath(nodes[0], root) && patches != []
      ensures r == Resolve(PreOrder(At(nodes[0], root), root), patches, 0)
    {
      ghost var ns := PreOrder(At(nodes[0], root), root);
      var walk := new DomIterator(nodes[0], root);
      var first, _ := walk.Next();
      var current: Path;
      match first {
        case None =>
          assert false;
        case Some(n) =>
          current := n;
      }
      var index := 0;
      var withNodes: seq<Patch<Path>> := [];
      assert Prepend([], Resolve(ns, patches[0..], 0)) == Resolve(ns, patches, 0) by {
        assert patches[0..] == patches;
        PrependNothing(Resolve(ns, patches, 0));
      }
      for i := 0 to |patches|
        invariant walk.Valid() && walk.doc == nodes[0]
        invariant 0 <= index < |ns| && current == ns[index]
        invariant walk.Remaining() == ns[index + 1..]
        invariant Resolve(ns, patches, 0) == Prepend(withNodes, Resolve(ns, patches[i..], index))
      {
        var patch := patches[i];
        ghost var index0 := index;
        var found;
        index, current, found := Seek(walk, ns, index, current, patch.node);
        if !found {
          ResolvePast(ns, patches, i, index0);
          return Err(RanOutOfNodes);
        }
        ResolveNext(ns, patches, i, index0, index);
        PrependPrepend(withNodes, [patch.At(current)], Resolve(ns, patches[i + 1..], index));
        withNodes := withNodes + [patch.At(current)];
      }
      assert withNodes + [] == withNodes;
      return Ok(withNodes);
    }

    /**
     * The inner loop of the binding pass: the walk moves forward until its
     * index reaches `address`, and fails when the walk ends first.
     */
    static method Seek(walk: DomIterator, ghost ns: seq<Path>, index0: nat, current0: Path, address: int)
      returns (index: nat, current: Path, found: bool)
      requires walk.Valid() && index0 < |ns| && current0 == ns[index0]
      requires walk.Remaining() == ns[index0 + 1..]
      modifies walk
      ensures walk.Valid()
      ensures found <==> address < |ns|
      ensures found ==> index == (if address > index0 then address else index0)
      ensures found ==> index < |ns| && current == ns[index] && walk.Remaining() == ns[index + 1..]
    {
      index, current := index0, current0;
      while index < address
        invariant walk.Valid()
        invariant index0 <= index < |ns| && current == ns[index]
        invariant index0 < address ==> index <= address
        invariant address <= index0 ==> index == index0
        invariant walk.Remaining() == ns[index + 1..]
        decreases address - index
      {
        var next := Step(walk, ns, index);
        if next.None? {
          return index, current, false;
        }
        current := next.value;
        index := index + 1;
      }
      found := true;
    }

    /** One move of the walk, seen as a position in `ns`. */
    static method Step(walk: DomIterator, ghost ns: seq<Path>, index: nat) returns (next: Option<Path>)
      requires walk.Valid() && index < |ns| && walk.Remaining() == ns[index + 1..]
      modifies walk
      ensures walk.Valid()
      ensures next.None? <==> index + 1 == |ns|
      ensures next.Some? ==> next.value == ns[index + 1] && walk.Remaining() == ns[index + 2..]
    {
      ghost var asked;
      next, asked := walk.Next();
      if next.Some? {
        SeekStep(ns, index);
      }
    }

    /**
     * The second loop of `apply`: the bound patches one after another, each
     * on the node it was bound to wherever that node now is.
     */
    method ApplyAll(bs: seq<Patch<Handle>>) returns (failure: Option<Fatal>)
      modifies this
      ensures Reports(failure, nodes, ExecAll(AsWritten, old(nodes), bs))
    {
      failure := None;
      ghost var f0 := nodes;
      var rest := bs;
      while rest != []
        invariant ExecAll(AsWritten, f0, bs) == ExecAll(AsWritten, nodes, rest) && failure == None
        decreases |rest|
      {
        var before := nodes;
        failure := ApplyPatch(rest[0]);
        if failure.Some? {
          return;
        }
        rest := Retarget(AsWritten, before, rest[0], rest[1..]);
      }
    }

    /** The host loop `while (i--) removeChild(lastChild)` on the node at `p` of tree `k`. */
    method RemoveLastChildren(k: nat, p: Path, count: int) returns (failure: Option<Fatal>)
      requires k < |nodes| && ValidPath(nodes[k], p)
      modifies this
      ensures Reports(failure, nodes, Exec(AsWritten, old(nodes), Patch(Handle(k, p), RemoveLast(count))))
    {
      var n := At(nodes[k], p);
      var kept, removed, ok := DetachLast(Kids(n), count);
      failure := if ok then None else Some(NoChildToRemove);
      RemovedLast(nodes, k, p, count, kept, removed, failure);
      nodes := nodes[k := Put(nodes[k], p, WithKids(n, kept))] + removed;
    }

    /**
     * The same loop on the node's children: the last child is taken out
     * `count` times, and the loop fails once no child is left (a negative
     * count runs until then).
     */
    static method DetachLast(kids0: seq<LNode>, count: int) returns (kids: seq<LNode>, removed: seq<LNode>, ok: bool)
      ensures ok <==> 0 <= count <= |kids0|
      ensures ok ==> kids == kids0[..|kids0| - count] && removed == Reversed(kids0[|kids0| - count..])
    {
      kids, removed := kids0, [];
      assert kids0[|kids0|..] == [] && kids0[..|kids0|] == kids0;
      var i := count;
      ghost var m: nat := 0;
      while i != 0
        invariant m <= |kids0| && i == count - m && (count >= 0 ==> m <= count)
        invariant kids == kids0[..|kids0| - m]
        invariant removed == Reversed(kids0[|kids0| - m..])
        decreases |kids0| - m
      {
        if |kids| == 0 {
          return kids, removed, false;
        }
        DetachOne(kids0, m);
        removed := removed + [kids[|kids| - 1]];
        kids := kids[..|kids| - 1];
        i, m := i - 1, m + 1;
      }
      ok := true;
    }

    /** The loop over the children to append to the node at `p` of tree `k`, one host node each. */
    method AppendChildren(k: nat, p: Path, cs: seq<Child>) returns (failure: Option<Fatal>)
      requires k < |nodes| && ValidPath(nodes[k], p)
      modifies this
      ensures Reports(failure, nodes, Exec(AsWritten, old(nodes), Patch(Handle(k, p), Append(cs))))
    {
      failure := None;
      ghost var t0 := nodes[k];
      ghost var n0 := At(t0, p);
      var tree := nodes[k];
      assert cs[..0] == [] && MaterializeKids([]) == [] && Kids(n0) + [] == Kids(n0);
      assert WithKids(n0, Kids(n0)) == n0;
      PutSame(t0, p);
      for j := 0 to |cs|
        invariant nodes == old(nodes) && ValidPath(tree, p)
        invariant tree == Put(t0, p, WithKids(n0, Kids(n0) + MaterializeKids(cs[..j])))
        invariant 0 < j ==> n0.LElem?
      {
        var n := At(tree, p);
        assert n == WithKids(n0, Kids(n0) + MaterializeKids(cs[..j])) by {
          PutAt(t0, p, WithKids(n0, Kids(n0) + MaterializeKids(cs[..j])));
        }
        if n.LText? {
          return Some(NotAnElement);
        }
        var child := MaterializeChild(cs[j]);
        var longer := n.(children := n.children + [child]);
        assert longer == WithKids(n0, Kids(n0) + MaterializeKids(cs[..j + 1])) by {
          assert MaterializeKids(cs[..j + 1]) == MaterializeKids(cs[..j]) + [child];
        }
        PutTwice(t0, p, WithKids(n0, Kids(n0) + MaterializeKids(cs[..j])), longer);
        PutAt(t0, p, longer);
        tree := Put(tree, p, longer);
      }
      assert cs[..|cs|] == cs;
      nodes := nodes[k := tree] + [];
    }
  }

  lemma {:induction false} PrependNothing(r: Result<seq<Patch<Path>>>)
    ensures Prepend([], r) == r
  {
    if r.Ok? {
      assert [] + r.value == r.value;
    }
  }

  /** Binding patches in two batches is binding them in one. */
  lemma {:induction false} PrependPrepend(a: seq<Patch<Path>>, b: seq<Patch<Path>>, r: Result<seq<Patch<Path>>>)
    ensures Prepend(a + b, r) == Prepend(a, Prepend(b, r))
  {
    if r.Ok? {
      assert (a + b) + r.value == a + (b + r.value);
    }
  }

  /** One step of the walk: the next path to yield, and the ones after it. */
  lemma SeekStep(ns: seq<Path>, index: nat)
    requires index + 1 < |ns|
    ensures ns[index + 1..][0] == ns[index + 1] && ns[index + 1..][1..] == ns[index + 2..]
  {
  }

  /** What `RemoveLastChildren` leaves is what `RemoveLast` does. */
  lemma {:induction false} RemovedLast(f: Forest, k: nat, p: Path, count: int, kept: seq<LNode>, removed: seq<LNode>, failure: Option<Fatal>)
    requires k < |f| && ValidPath(f[k], p)
    requires var ks := Kids(At(f[k], p));
             && (failure.None? <==> 0 <= count <= |ks|) && (failure.Some? ==> failure.value == NoChildToRemove)
             && (failure.None? ==> kept == ks[..|ks| - count] && removed == Reversed(ks[|ks| - count..]))
    ensures Reports(failure, f[k := Put(f[k], p, WithKids(At(f[k], p), kept))] + removed, Exec(AsWritten, f, Patch(Handle(k, p), RemoveLast(count))))
  {
    var t := f[k];
    var n := At(t, p);
    assert Holds(f, Handle(k, p));
    if failure.None? {
      assert Edit(AsWritten, t, p, RemoveLast(count)) == Ok(Edited(Put(t, p, WithKids(n, kept)), removed));
    } else {
      assert Edit(AsWritten, t, p, RemoveLast(count)) == Err(NoChildToRemove);
    }
  }

  /** One more child off the end: the child list shrinks by one, and the taken children grow by it. */
  lemma {:induction false} DetachOne(k0: seq<LNode>, m: nat)
    requires m < |k0|
    ensures k0[..|k0| - m][..|k0| - m - 1] == k0[..|k0| - (m + 1)]
    ensures Reversed(k0[|k0| - m..]) + [k0[..|k0| - m][|k0| - m - 1]] == Reversed(k0[|k0| - (m + 1)..])
  {
    assert k0[|k0| - (m + 1)..][1..] == k0[|k0| - m..];
  }

  /** A second update at the same path overrides the first. */
  lemma {:induction false} PutTwice(t: LNode, p: Path, x: LNode, y: LNode)
    requires ValidPath(t, p)
    ensures ValidPath(Put(t, p, x), p) && Put(Put(t, p, x), p, y) == Put(t, p, y)
    decreases |p|
  {
    PutAt(t, p, x);
    if p != [] {
      var q, l := Init(p), Last(p);
      var n := At(t, q);
      var n' := WithKids(n, Kids(n)[l := x]);
      PutAt(t, q, n');
      PutTwice(t, q, n', WithKids(n', Kids(n')[l := y]));
      assert WithKids(n', Kids(n')[l := y]) == WithKids(n, Kids(n)[l := y]);
      assert p == q + [l];
      ChildPath(t, q, l);
    }
  }

  /** Putting back the node that is there changes nothing. */
  lemma {:induction false} PutSame(t: LNode, p: Path)
    requires ValidPath(t, p)
    ensures Put(t, p, At(t, p)) == t
    decreases |p|
  {
    if p != [] {
      var q, l := Init(p), Last(p);
      var n := At(t, q);
      assert WithKids(n, Kids(n)[l := At(t, p)]) == n;
      PutSame(t, q);
    }
  }
}
