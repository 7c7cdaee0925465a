/**
 * How bound patches keep referring to the same host node while earlier
 * patches rearrange the forest (src/apply.rs:35-37): which patches can move
 * a node, and when a run of patches splits into two runs one after the other.
 */
module Handles {
  import opened Tree
  import opened Diff
  import opened Live
  import opened Apply

  /** The operations that can take a node, or a node above it, out of its place. */
  predicate Moves(op: Operation)
  {
    op.ReplaceNode? || op.ReplaceText? || op.RemoveLast? || op.Insert?
  }

  /** `a` may move the node `h`: it is at `h` or above it, and its operation moves nodes. */
  predicate Reaches(a: Patch<Handle>, h: Handle)
  {
    Moves(a.operation) && a.node.tree == h.tree && Below(a.node.path, h.path)
  }

  /**
   * A handle the patch cannot reach stays where it is; one it reaches either
   * stays, or moves into a tree the patch appended, or (an insert) moves
   * within the patched node's subtree.
   */
  lemma {:induction false} TrackStays(mode: Mode, f: Forest, a: Patch<Handle>, h: Handle)
    ensures !Reaches(a, h) ==> Track(mode, f, a, h) == h
    ensures var t := Track(mode, f, a, h);
            || t == h
            || (!a.operation.Insert? && t.tree >= |f|)
            || (a.operation.Insert? && t.tree == h.tree && Below(a.node.path, t.path))
  {
    var t := Track(mode, f, a, h);
    if t != h && a.operation.Insert? {
      var s := h.path[|a.node.path|..];
      assert t.path == a.node.path + ([s[0] + 1] + s[1..]);
      assert t.path[..|a.node.path|] == a.node.path;
    }
  }

  /**
   * A handle in another tree, or in another branch of the same tree, is not
   * retargeted and names the same node afterwards.
   */
  lemma {:induction false} TrackFollows(mode: Mode, f: Forest, a: Patch<Handle>, h: Handle)
    requires Holds(f, h) && Exec(mode, f, a).Ok?
    requires a.node.tree != h.tree || (!Below(a.node.path, h.path) && !Below(h.path, a.node.path))
    ensures var g := Exec(mode, f, a).value;
            Track(mode, f, a, h) == h && Holds(g, h) && At(g[h.tree], h.path) == At(f[h.tree], h.path)
  {
    var g := Exec(mode, f, a).value;
    if Holds(f, a.node) && a.node.tree == h.tree {
      var t, p := f[h.tree], a.node.path;
      var d := Edit(mode, t, p, a.operation).value;
      assert g[h.tree] == d.tree;
      EditFrame(mode, t, p, a.operation);
      if d.tree != t {
        PutFrame(t, p, At(d.tree, p), h.path);
      }
    }
  }

  /** `h` is the patched node or one of its ancestors: its own content may change, so only its place is kept. */
  predicate Around(a: Patch<Handle>, h: Handle)
  {
    h.tree == a.node.tree && Below(h.path, a.node.path)
  }

  /**
   * Node identity: after a patch, the handle `Track` gives names a node, and
   * for every handle other than the patched node and its ancestors that
   * node is the one the handle named before, whether it stayed in its tree,
   * moved into a tree the patch appended, or moved along with an insert.
   * The patched node itself is followed when a patch takes it out.
   */
  lemma {:induction false} TrackMoves(mode: Mode, f: Forest, a: Patch<Handle>, h: Handle)
    requires Holds(f, h) && Exec(mode, f, a).Ok?
    ensures var g := Exec(mode, f, a).value;
            var t := Track(mode, f, a, h);
            && Holds(g, t)
            && (t != h || !Around(a, h) ==> At(g[t.tree], t.path) == At(f[h.tree], h.path))
  {
    var at := a.node;
    if !Holds(f, at) || h.tree != at.tree {
    } else if !Below(at.path, h.path) {
      if Below(h.path, at.path) {
        AncestorStays(mode, f, a, h);
      } else {
        TrackFollows(mode, f, a, h);
      }
    } else {
      DescendantMoves(mode, f, a, h);
    }
  }

  /** An ancestor of the patched node keeps its handle, and the handle still names a node. */
  lemma {:induction false} AncestorStays(mode: Mode, f: Forest, a: Patch<Handle>, h: Handle)
    requires Holds(f, h) && Holds(f, a.node) && Exec(mode, f, a).Ok?
    requires h.tree == a.node.tree && Below(h.path, a.node.path) && !Below(a.node.path, h.path)
    ensures Track(mode, f, a, h) == h && Holds(Exec(mode, f, a).value, h)
  {
    var t, p := f[h.tree], a.node.path;
    var d := Edit(mode, t, p, a.operation).value;
    EditFrame(mode, t, p, a.operation);
    assert p == h.path + p[|h.path|..];
    PrefixValid(d.tree, h.path, p[|h.path|..]);
  }

  /** The first step below `p` on the way to `q` picks a child of the node at `p`, and the rest of the way is in that child. */
  lemma {:induction false} Descend(t: LNode, p: Path, q: Path)
    requires ValidPath(t, p) && ValidPath(t, q) && Below(p, q) && |p| < |q|
    ensures var ks, s := Kids(At(t, p)), q[|p|..];
            && s[0] < |ks| && ValidPath(ks[s[0]], s[1..]) && At(t, q) == At(ks[s[0]], s[1..])
  {
    var s := q[|p|..];
    assert q == p + ([s[0]] + s[1..]);
    AtConcat(t, p, [s[0]] + s[1..]);
    FirstStep(At(t, p), s[0], s[1..]);
  }

  /** A path below `p` is `p`, then one step, then the rest of the way. */
  lemma {:induction false} SplitAt(p: Path, q: Path)
    requires Below(p, q) && |p| < |q|
    ensures var s := q[|p|..]; q == p + ([s[0]] + s[1..])
  {
    var s := q[|p|..];
    assert q == p + s;
    assert s == [s[0]] + s[1..];
  }

  /** After `y` is put at `p`, the path through child `j` of `y` leads where it leads in that child. */
  lemma {:induction false} PutIntoChild(t: LNode, p: Path, y: LNode, j: nat, rest: Path)
    requires ValidPath(t, p) && j < |Kids(y)| && ValidPath(Kids(y)[j], rest)
    ensures ValidPath(Put(t, p, y), p + ([j] + rest)) && At(Put(t, p, y), p + ([j] + rest)) == At(Kids(y)[j], rest)
  {
    FirstStep(y, j, rest);
    PutBelow(t, p, y, [j] + rest);
  }

  /** Below a node that `y` replaces at `p`, a path through a child `y` keeps reaches what it reached. */
  lemma {:induction false} KeepBelow(t: LNode, p: Path, q: Path, y: LNode)
    requires ValidPath(t, p) && ValidPath(t, q) && Below(p, q) && |p| < |q|
    requires var i, ks := q[|p|..][0], Kids(At(t, p));
             i < |ks| ==> i < |Kids(y)| && Kids(y)[i] == ks[i]
    ensures ValidPath(Put(t, p, y), q) && At(Put(t, p, y), q) == At(t, q)
  {
    var s := q[|p|..];
    Descend(t, p, q);
    PutIntoChild(t, p, y, s[0], s[1..]);
    SplitAt(p, q);
  }

  /** Below a node that `y` replaces at `p`, whose child `i + 1` is the old child `i`: the path through `i` now goes through `i + 1`. */
  lemma {:induction false} ShiftBelow(t: LNode, p: Path, q: Path, y: LNode)
    requires ValidPath(t, p) && ValidPath(t, q) && Below(p, q) && |p| < |q|
    requires var i, ks := q[|p|..][0], Kids(At(t, p));
             i < |ks| ==> i + 1 < |Kids(y)| && Kids(y)[i + 1] == ks[i]
    ensures var s := q[|p|..];
            var r := p + ([s[0] + 1] + s[1..]);
            ValidPath(Put(t, p, y), r) && At(Put(t, p, y), r) == At(t, q)
  {
    var s := q[|p|..];
    Descend(t, p, q);
    PutIntoChild(t, p, y, s[0] + 1, s[1..]);
  }

  /** The first step below `p` on the way to `q`, when the node at `p` is an element. */
  lemma {:induction false} StepBelow(t: LNode, p: Path, q: Path)
    requires ValidPath(t, p) && ValidPath(t, q) && Below(p, q) && |p| < |q|
    ensures var n, s := At(t, p), q[|p|..];
            && n.LElem? && s[0] < |n.children|
            && ValidPath(n.children[s[0]], s[1..]) && At(n.children[s[0]], s[1..]) == At(t, q)
  {
    Descend(t, p, q);
  }

  /** The patched node and the nodes below it, operation by operation. */
  lemma {:induction false} DescendantMoves(mode: Mode, f: Forest, a: Patch<Handle>, h: Handle)
    requires Holds(f, h) && Holds(f, a.node) && Exec(mode, f, a).Ok?
    requires h.tree == a.node.tree && Below(a.node.path, h.path)
    ensures var g := Exec(mode, f, a).value;
            var t := Track(mode, f, a, h);
            && Holds(g, t)
            && (t != h || !Around(a, h) ==> At(g[t.tree], t.path) == At(f[h.tree], h.path))
  {
    if h.path == a.node.path {
      ReachedTop(mode, f, a, h);
    } else {
      match a.operation
      case ReplaceNode(_) => ChildTakenOut(mode, f, a, h);
      case ReplaceText(_) => ChildTakenOut(mode, f, a, h);
      case RemoveLast(_) => ChildRemoved(mode, f, a, h);
      case Insert(pos, v) => InsertMoves(mode, f, a, h, pos, v);
      case _ => ChildKept(mode, f, a, h);
    }
  }

  /** A node strictly below the patched one: where it is within the patched node's subtree. */
  lemma {:induction false} Inside(f: Forest, a: Patch<Handle>, h: Handle)
    requires Holds(f, h) && Holds(f, a.node)
    requires h.tree == a.node.tree && Below(a.node.path, h.path) && h.path != a.node.path
    ensures var p, s := a.node.path, h.path[|a.node.path|..];
            var n := At(f[h.tree], p);
            && s != [] && h.path == p + ([s[0]] + s[1..])
            && n.LElem? && s[0] < |n.children|
            && ValidPath(n.children[s[0]], s[1..]) && At(f[h.tree], h.path) == At(n.children[s[0]], s[1..])
  {
    var p, s := a.node.path, h.path[|a.node.path|..];
    assert h.path == p + s;
    assert s == [s[0]] + s[1..];
    AtConcat(f[h.tree], p, s);
    FirstStep(At(f[h.tree], p), s[0], s[1..]);
  }

  /** ReplaceNode, or text content on an element: the node below goes out with the patched node or its children. */
  lemma {:induction false} ChildTakenOut(mode: Mode, f: Forest, a: Patch<Handle>, h: Handle)
    requires Holds(f, h) && Holds(f, a.node) && Exec(mode, f, a).Ok? && (a.operation.ReplaceNode? || a.operation.ReplaceText?)
    requires h.tree == a.node.tree && Below(a.node.path, h.path) && h.path != a.node.path
    ensures var g := Exec(mode, f, a).value;
            var t := Track(mode, f, a, h);
            Holds(g, t) && At(g[t.tree], t.path) == At(f[h.tree], h.path)
  {
    if a.operation.ReplaceNode? || mode == Intended {
      WholeTakenOut(mode, f, a, h);
    } else {
      KidsTakenOut(f, a, h);
    }
  }

  /** ReplaceNode, or intended text content: the patched node goes into tree `|f|`, with the node below it. */
  lemma {:induction false} WholeTakenOut(mode: Mode, f: Forest, a: Patch<Handle>, h: Handle)
    requires Holds(f, h) && Holds(f, a.node) && Exec(mode, f, a).Ok?
    requires a.operation.ReplaceNode? || (a.operation.ReplaceText? && mode == Intended)
    requires h.tree == a.node.tree && Below(a.node.path, h.path) && h.path != a.node.path
    ensures var g := Exec(mode, f, a).value;
            var t := Track(mode, f, a, h);
            Holds(g, t) && At(g[t.tree], t.path) == At(f[h.tree], h.path)
  {
    Inside(f, a, h);
    var k, p := h.tree, a.node.path;
    var s := h.path[|p|..];
    var n := At(f[k], p);
    ExecIs(mode, f, a);
    var d := Edit(mode, f[k], p, a.operation).value;
    assert d.removed == [n];
    assert Track(mode, f, a, h) == Handle(|f|, s);
    AtConcat(f[k], p, s);
    LandsOut(f, Exec(mode, f, a).value, h, Track(mode, f, a, h), d.tree, d.removed, 0);
  }

  /** Text content on an element, as written: child `i` goes into tree `|f| + i`, with the node below it. */
  lemma {:induction false} KidsTakenOut(f: Forest, a: Patch<Handle>, h: Handle)
    requires Holds(f, h) && Holds(f, a.node) && Exec(AsWritten, f, a).Ok? && a.operation.ReplaceText?
    requires h.tree == a.node.tree && Below(a.node.path, h.path) && h.path != a.node.path
    ensures var g := Exec(AsWritten, f, a).value;
            var t := Track(AsWritten, f, a, h);
            Holds(g, t) && At(g[t.tree], t.path) == At(f[h.tree], h.path)
  {
    Inside(f, a, h);
    var k, p := h.tree, a.node.path;
    var s := h.path[|p|..];
    var n := At(f[k], p);
    ExecIs(AsWritten, f, a);
    var d := Edit(AsWritten, f[k], p, a.operation).value;
    assert d.removed == n.children;
    assert Track(AsWritten, f, a, h) == Handle(|f| + s[0], s[1..]);
    LandsOut(f, Exec(AsWritten, f, a).value, h, Track(AsWritten, f, a, h), d.tree, d.removed, s[0]);
  }

  /** RemoveLast: a removed child goes into its own tree; a kept child stays. */
  lemma {:induction false} ChildRemoved(mode: Mode, f: Forest, a: Patch<Handle>, h: Handle)
    requires Holds(f, h) && Holds(f, a.node) && Exec(mode, f, a).Ok? && a.operation.RemoveLast?
    requires h.tree == a.node.tree && Below(a.node.path, h.path) && h.path != a.node.path
    ensures var g := Exec(mode, f, a).value;
            var t := Track(mode, f, a, h);
            Holds(g, t) && At(g[t.tree], t.path) == At(f[h.tree], h.path)
  {
    Inside(f, a, h);
    var ks := Kids(At(f[h.tree], a.node.path));
    if |ks| - a.operation.count <= h.path[|a.node.path|..][0] {
      RemovedOut(mode, f, a, h);
    } else {
      RemovedKept(mode, f, a, h);
    }
  }

  /** What RemoveLast leaves of its tree, and the children it takes out, last first. */
  lemma {:induction false} RemoveLastIs(mode: Mode, f: Forest, a: Patch<Handle>)
    requires Holds(f, a.node) && Exec(mode, f, a).Ok? && a.operation.RemoveLast?
    ensures var k, p := a.node.tree, a.node.path;
            var n := At(f[k], p);
            var keep := |Kids(n)| - a.operation.count;
            && 0 <= keep <= |Kids(n)|
            && Exec(mode, f, a).value == f[k := Put(f[k], p, WithKids(n, Kids(n)[..keep]))] + Reversed(Kids(n)[keep..])
  {
    ExecIs(mode, f, a);
  }

  /** RemoveLast on a removed child: it goes into tree `|f| + (|ks| - 1 - i)`. */
  lemma {:induction false} RemovedOut(mode: Mode, f: Forest, a: Patch<Handle>, h: Handle)
    requires Holds(f, h) && Holds(f, a.node) && Exec(mode, f, a).Ok? && a.operation.RemoveLast?
    requires h.tree == a.node.tree && Below(a.node.path, h.path) && h.path != a.node.path
    requires var s := h.path[|a.node.path|..];
             s != [] && |Kids(At(f[h.tree], a.node.path))| - a.operation.count <= s[0]
    ensures var g := Exec(mode, f, a).value;
            var t := Track(mode, f, a, h);
            Holds(g, t) && At(g[t.tree], t.path) == At(f[h.tree], h.path)
  {
    RemoveLastIs(mode, f, a);
    StepBelow(f[h.tree], a.node.path, h.path);
    RemovedTrack(mode, f, a, h);
    OutLands(f, Exec(mode, f, a).value, h, Track(mode, f, a, h), a.node.path, a.operation.count);
  }

  /** Where RemoveLast moves a node below a child it takes out. */
  lemma {:induction false} RemovedTrack(mode: Mode, f: Forest, a: Patch<Handle>, h: Handle)
    requires Holds(f, a.node) && a.operation.RemoveLast? && h.tree == a.node.tree && Below(a.node.path, h.path)
    requires var s, ks := h.path[|a.node.path|..], Kids(At(f[h.tree], a.node.path));
             s != [] && 0 <= a.operation.count <= |ks| && |ks| - a.operation.count <= s[0] < |ks|
    ensures var s, ks := h.path[|a.node.path|..], Kids(At(f[h.tree], a.node.path));
            Track(mode, f, a, h) == Handle(|f| + (|ks| - 1 - s[0]), s[1..])
  {
  }

  /** RemoveLast on a kept child: it stays where it is. */
  lemma {:induction false} RemovedKept(mode: Mode, f: Forest, a: Patch<Handle>, h: Handle)
    requires Holds(f, h) && Holds(f, a.node) && Exec(mode, f, a).Ok? && a.operation.RemoveLast?
    requires h.tree == a.node.tree && Below(a.node.path, h.path) && h.path != a.node.path
    requires var s := h.path[|a.node.path|..];
             s != [] && s[0] < |Kids(At(f[h.tree], a.node.path))| - a.operation.count
    ensures var g := Exec(mode, f, a).value;
            var t := Track(mode, f, a, h);
            Holds(g, t) && At(g[t.tree], t.path) == At(f[h.tree], h.path)
  {
    RemoveLastIs(mode, f, a);
    var k, p := h.tree, a.node.path;
    var n := At(f[k], p);
    var keep := |Kids(n)| - a.operation.count;
    var y := WithKids(n, Kids(n)[..keep]);
    assert Track(mode, f, a, h) == h;
    KeepBelow(f[k], p, h.path, y);
    LandsIn(f, Exec(mode, f, a).value, h, h, Put(f[k], p, y), Reversed(Kids(n)[keep..]));
  }

  /** Attribute patches and Append: every child stays where it is. */
  lemma {:induction false} ChildKept(mode: Mode, f: Forest, a: Patch<Handle>, h: Handle)
    requires Holds(f, h) && Holds(f, a.node) && Exec(mode, f, a).Ok?
    requires a.operation.RemoveAttribute? || a.operation.SetAttribute? || a.operation.Append?
    requires h.tree == a.node.tree && Below(a.node.path, h.path) && h.path != a.node.path
    ensures var g := Exec(mode, f, a).value;
            var t := Track(mode, f, a, h);
            Holds(g, t) && At(g[t.tree], t.path) == At(f[h.tree], h.path)
  {
    var k, p := h.tree, a.node.path;
    var y := Changed(mode, At(f[k], p), a.operation);
    ExecIs(mode, f, a);
    assert Edit(mode, f[k], p, a.operation).value == Edited(Put(f[k], p, y), []);
    KeepBelow(f[k], p, h.path, y);
    LandsIn(f, Exec(mode, f, a).value, h, Track(mode, f, a, h), Put(f[k], p, y), []);
  }

  /** The patched node itself: taken out whole, or left at its place. */
  lemma {:induction false} ReachedTop(mode: Mode, f: Forest, a: Patch<Handle>, h: Handle)
    requires Holds(f, h) && Holds(f, a.node) && Exec(mode, f, a).Ok? && h == a.node
    ensures var g := Exec(mode, f, a).value;
            var t := Track(mode, f, a, h);
            Holds(g, t) && (t != h ==> At(g[t.tree], t.path) == At(f[h.tree], h.path))
  {
    var k, p := h.tree, h.path;
    var d := Edit(mode, f[k], p, a.operation).value;
    EditFrame(mode, f[k], p, a.operation);
    assert h.path[|p|..] == [];
  }

  /** An insert: the later siblings move one place on in the intended host; nothing moves as written. */
  lemma {:induction false} InsertMoves(mode: Mode, f: Forest, a: Patch<Handle>, h: Handle, pos: int, v: VNode)
    requires Holds(f, h) && Holds(f, a.node) && Exec(mode, f, a).Ok? && a.operation == Insert(pos, v)
    requires h.tree == a.node.tree && Below(a.node.path, h.path) && h.path != a.node.path
    ensures var g := Exec(mode, f, a).value;
            var t := Track(mode, f, a, h);
            Holds(g, t) && At(g[t.tree], t.path) == At(f[h.tree], h.path)
  {
    Inside(f, a, h);
    InsertIs(mode, f, a, pos, v);
    InsertTrack(mode, f, a, h, pos, v);
    var n := At(f[h.tree], a.node.path);
    var i := h.path[|a.node.path|..][0];
    if mode == AsWritten && 0 <= pos < |n.children| {
      StaysPut(f, Exec(mode, f, a).value, h, f[h.tree]);
    } else if mode == Intended && 0 <= pos <= i {
      ShiftLands(f, Exec(mode, f, a).value, h, Track(mode, f, a, h), a.node.path, pos, Materialize(v));
    } else {
      InsertKeeps(mode, f, a, h, pos, v);
    }
  }

  /** The forest after an intended insert at `p` before child `pos`, and a handle moved one place on: it names the node it named. */
  lemma {:induction false} ShiftLands(f: Forest, g: Forest, h: Handle, t: Handle, p: Path, pos: int, x: LNode)
    requires Holds(f, h) && ValidPath(f[h.tree], p) && Below(p, h.path) && |p| < |h.path|
    requires var n, s := At(f[h.tree], p), h.path[|p|..];
             && n.LElem? && 0 <= pos <= s[0]
             && h.tree < |g| && g[h.tree] == Put(f[h.tree], p, WithKids(n, InsertKid(n.children, pos, x)))
             && t == Handle(h.tree, p + ([s[0] + 1] + s[1..]))
    ensures Holds(g, t) && At(g[t.tree], t.path) == At(f[h.tree], h.path)
  {
    var k, n := h.tree, At(f[h.tree], p);
    ShiftPut(f[k], p, h.path, pos, x);
    Landed(f, g, h, t, Put(f[k], p, WithKids(n, InsertKid(n.children, pos, x))));
  }

  /** Below an element at `p` that gains a child before child `i` or an earlier one, the path through `i` now goes through `i + 1`. */
  lemma {:induction false} ShiftPut(t: LNode, p: Path, q: Path, pos: int, x: LNode)
    requires ValidPath(t, p) && ValidPath(t, q) && Below(p, q) && |p| < |q|
    requires var n, s := At(t, p), q[|p|..]; n.LElem? && 0 <= pos <= s[0]
    ensures var n, s := At(t, p), q[|p|..];
            var y, r := WithKids(n, InsertKid(n.children, pos, x)), p + ([s[0] + 1] + s[1..]);
            ValidPath(Put(t, p, y), r) && At(Put(t, p, y), r) == At(t, q)
  {
    var n, s := At(t, p), q[|p|..];
    InsertedKids(n, pos, x, s[0]);
    ShiftBelow(t, p, q, WithKids(n, InsertKid(n.children, pos, x)));
  }

  /** Child `i` of `n` is child `i + 1` once a node is inserted before child `i` or an earlier one. */
  lemma {:induction false} InsertedKids(n: LNode, pos: int, x: LNode, i: nat)
    requires n.LElem? && 0 <= pos <= i
    ensures var y := WithKids(n, InsertKid(n.children, pos, x));
            i < |Kids(n)| ==> i + 1 < |Kids(y)| && Kids(y)[i + 1] == Kids(n)[i]
  {
    InsertKidAt(n.children, pos, x, i);
  }

  /** The forest after RemoveLast at `p`, and a handle moved into the tree of the removed child it was in: it names the node it named. */
  lemma {:induction false} OutLands(f: Forest, g: Forest, h: Handle, t: Handle, p: Path, count: int)
    requires Holds(f, h) && ValidPath(f[h.tree], p) && Below(p, h.path) && |p| < |h.path|
    requires var ks, s := Kids(At(f[h.tree], p)), h.path[|p|..];
             var keep := |ks| - count;
             && 0 <= keep <= s[0] < |ks|
             && g == f[h.tree := Put(f[h.tree], p, WithKids(At(f[h.tree], p), ks[..keep]))] + Reversed(ks[keep..])
             && t == Handle(|f| + (|ks| - 1 - s[0]), s[1..])
    ensures Holds(g, t) && At(g[t.tree], t.path) == At(f[h.tree], h.path)
  {
    var k, ks, s := h.tree, Kids(At(f[h.tree], p)), h.path[|p|..];
    var keep := |ks| - count;
    Descend(f[k], p, h.path);
    ReversedAt(ks, keep, s[0]);
    AppendedAt(f[k := Put(f[k], p, WithKids(At(f[k], p), ks[..keep]))], Reversed(ks[keep..]), |ks| - 1 - s[0]);
    Landed(f, g, h, t, ks[s[0]]);
  }

  /** Child `i`, taken out with the children from `keep` on, last first, is the `|ks| - 1 - i`-th taken out. */
  lemma {:induction false} ReversedAt(ks: seq<LNode>, keep: nat, i: nat)
    requires keep <= i < |ks|
    ensures |ks| - 1 - i < |Reversed(ks[keep..])| && Reversed(ks[keep..])[|ks| - 1 - i] == ks[i]
  {
    assert ks[keep..][i - keep] == ks[i];
  }

  /** The `j`-th tree appended after `front`. */
  lemma {:induction false} AppendedAt(front: Forest, rm: seq<LNode>, j: nat)
    requires j < |rm|
    ensures (front + rm)[|front| + j] == rm[j]
  {
  }

  /** An insert that moves nothing: an append, or an insert after the node's own branch. */
  lemma {:induction false} InsertKeeps(mode: Mode, f: Forest, a: Patch<Handle>, h: Handle, pos: int, v: VNode)
    requires Holds(f, h) && Holds(f, a.node) && Exec(mode, f, a).Ok? && a.operation == Insert(pos, v)
    requires h.tree == a.node.tree && Below(a.node.path, h.path) && h.path != a.node.path
    requires var s, ks := h.path[|a.node.path|..], Kids(At(f[h.tree], a.node.path));
             s != [] && !(mode == AsWritten && 0 <= pos < |ks|) && !(mode == Intended && 0 <= pos <= s[0])
    ensures var g := Exec(mode, f, a).value;
            var t := Track(mode, f, a, h);
            Holds(g, t) && At(g[t.tree], t.path) == At(f[h.tree], h.path)
  {
    InsertIs(mode, f, a, pos, v);
    InsertTrack(mode, f, a, h, pos, v);
    var k, p := h.tree, a.node.path;
    var n := At(f[k], p);
    var s := h.path[|p|..];
    var y := WithKids(n, InsertKid(n.children, pos, Materialize(v)));
    InsertKidAt(n.children, pos, Materialize(v), s[0]);
    KeepBelow(f[k], p, h.path, y);
    LandsIn(f, Exec(mode, f, a).value, h, h, Put(f[k], p, y), []);
  }

  /** Inserting before `pos` keeps the children before it and moves the others one place on. */
  lemma {:induction false} InsertKidAt(ks: seq<LNode>, pos: int, x: LNode, i: nat)
    ensures var r := InsertKid(ks, pos, x);
            && (i < |ks| && 0 <= pos <= i ==> i + 1 < |r| && r[i + 1] == ks[i])
            && (i < |ks| && !(0 <= pos <= i) ==> i < |r| && r[i] == ks[i])
  {
  }

  /** Where an insert moves a node below the patched one. */
  lemma {:induction false} InsertTrack(mode: Mode, f: Forest, a: Patch<Handle>, h: Handle, pos: int, v: VNode)
    requires Holds(f, h) && Holds(f, a.node) && a.operation == Insert(pos, v) && At(f[a.node.tree], a.node.path).LElem?
    requires h.tree == a.node.tree && Below(a.node.path, h.path) && h.path != a.node.path
    ensures var p, s := a.node.path, h.path[|a.node.path|..];
            var ks := At(f[h.tree], p).children;
            s != [] &&
            Track(mode, f, a, h) == if mode == Intended && 0 <= pos <= s[0] && pos < |ks| then Handle(h.tree, p + ([s[0] + 1] + s[1..])) else h
  {
  }

  /** A handle whose tree in `g` is `x` names, at its path there, the node `h` named. */
  lemma {:induction false} Landed(f: Forest, g: Forest, h: Handle, t: Handle, x: LNode)
    requires Holds(f, h) && t.tree < |g| && g[t.tree] == x
    requires ValidPath(x, t.path) && At(x, t.path) == At(f[h.tree], h.path)
    ensures Holds(g, t) && At(g[t.tree], t.path) == At(f[h.tree], h.path)
  {
  }

  /** A handle in a tree replaced by `x` names, at its new path, the node it named. */
  lemma {:induction false} LandsIn(f: Forest, g: Forest, h: Handle, t: Handle, x: LNode, rm: seq<LNode>)
    requires Holds(f, h) && g == f[h.tree := x] + rm && t.tree == h.tree
    requires ValidPath(x, t.path) && At(x, t.path) == At(f[h.tree], h.path)
    ensures Holds(g, t) && At(g[t.tree], t.path) == At(f[h.tree], h.path)
  {
  }

  /** A handle into the `j`-th tree a patch appended names, at its path there, the node it named. */
  lemma {:induction false} LandsOut(f: Forest, g: Forest, h: Handle, t: Handle, x: LNode, rm: seq<LNode>, j: nat)
    requires Holds(f, h) && g == f[h.tree := x] + rm && j < |rm| && t.tree == |f| + j
    requires ValidPath(rm[j], t.path) && At(rm[j], t.path) == At(f[h.tree], h.path)
    ensures Holds(g, t) && At(g[t.tree], t.path) == At(f[h.tree], h.path)
  {
    assert g[t.tree] == rm[j];
  }

  /** A patch that succeeds on a node: the tree its edit leaves, followed by the nodes it took out. */
  lemma {:induction false} ExecIs(mode: Mode, f: Forest, a: Patch<Handle>)
    requires Holds(f, a.node) && Exec(mode, f, a).Ok?
    ensures var d := Edit(mode, f[a.node.tree], a.node.path, a.operation);
            d.Ok? && Exec(mode, f, a).value == f[a.node.tree := d.value.tree] + d.value.removed
  {
  }

  /** A handle whose tree the patch leaves as it is names the same node. */
  lemma {:induction false} StaysPut(f: Forest, g: Forest, h: Handle, x: LNode)
    requires Holds(f, h) && g == f[h.tree := x] && x == f[h.tree]
    ensures Holds(g, h) && At(g[h.tree], h.path) == At(f[h.tree], h.path)
  {
  }

  /** What an insert does to the forest, and where it moves a node. */
  lemma {:induction false} InsertIs(mode: Mode, f: Forest, a: Patch<Handle>, pos: int, v: VNode)
    requires Holds(f, a.node) && Exec(mode, f, a).Ok? && a.operation == Insert(pos, v)
    ensures var k, p := a.node.tree, a.node.path;
            var n := At(f[k], p);
            && n.LElem?
            && (mode == AsWritten && 0 <= pos < |n.children| ==> Exec(mode, f, a).value == f)
            && (!(mode == AsWritten && 0 <= pos < |n.children|) ==>
                  Exec(mode, f, a).value == f[k := Put(f[k], p, WithKids(n, InsertKid(n.children, pos, Materialize(v))))])
  {
  }

  /** After a patch, every later bound patch still names a node. */
  lemma {:induction false} RetargetHolds(mode: Mode, f: Forest, a: Patch<Handle>, bs: seq<Patch<Handle>>)
    requires Exec(mode, f, a).Ok? && forall j :: 0 <= j < |bs| ==> Holds(f, bs[j].node)
    ensures var r := Retarget(mode, f, a, bs);
            forall j :: 0 <= j < |r| ==> Holds(Exec(mode, f, a).value, r[j].node)
  {
    forall j | 0 <= j < |bs|
      ensures Holds(Exec(mode, f, a).value, Retarget(mode, f, a, bs)[j].node)
    {
      TrackMoves(mode, f, a, bs[j].node);
    }
  }

  lemma {:induction false} BelowTrans(a: Path, b: Path, c: Path)
    requires Below(a, b) && Below(b, c)
    ensures Below(a, c)
  {
    assert c[..|a|] == c[..|b|][..|a|];
  }

  // ---------------------------------------------------------------------
  // Splitting a run
  // ---------------------------------------------------------------------

  /** A run of `bs` after a run that ended in `r`. */
  function Then(mode: Mode, r: Result<Forest>, bs: seq<Patch<Handle>>): (t: Result<Forest>)
    ensures r.Err? ==> t == r
    ensures bs == [] ==> t == r
  {
    match r
    case Err(e) => Err(e)
    case Ok(g) => ExecAll(mode, g, bs)
  }

  /** No patch of `front` can move a node of `bs`. */
  predicate Apart(front: seq<Patch<Handle>>, bs: seq<Patch<Handle>>)
  {
    forall i, j :: 0 <= i < |front| && 0 <= j < |bs| ==> !Reaches(front[i], bs[j].node)
  }

  predicate InTrees(bs: seq<Patch<Handle>>, n: nat)
  {
    forall j :: 0 <= j < |bs| ==> bs[j].node.tree < n
  }

  predicate NoInserts(bs: seq<Patch<Handle>>)
  {
    forall j :: 0 <= j < |bs| ==> !bs[j].operation.Insert?
  }

  lemma {:induction false} RetargetConcat(mode: Mode, f: Forest, a: Patch<Handle>, xs: seq<Patch<Handle>>, ys: seq<Patch<Handle>>)
    ensures Retarget(mode, f, a, xs + ys) == Retarget(mode, f, a, xs) + Retarget(mode, f, a, ys)
  {
  }

  /** Patches whose nodes `a` leaves where they are are not retargeted. */
  lemma {:induction false} RetargetFixed(mode: Mode, f: Forest, a: Patch<Handle>, bs: seq<Patch<Handle>>)
    requires forall j :: 0 <= j < |bs| ==> Track(mode, f, a, bs[j].node) == bs[j].node
    ensures Retarget(mode, f, a, bs) == bs
  {
  }

  /**
   * A run of `front + bs` is a run of `front` followed by a run of `bs`, when
   * `front` inserts nothing and cannot move the nodes of `bs`, and these all
   * lie in the trees that exist before the run.
   */
  lemma {:induction false} ExecAllConcat(mode: Mode, f: Forest, front: seq<Patch<Handle>>, bs: seq<Patch<Handle>>)
    requires Apart(front, bs) && InTrees(bs, |f|) && NoInserts(front)
    ensures ExecAll(mode, f, front + bs) == Then(mode, ExecAll(mode, f, front), bs)
    decreases |front|
  {
    if front == [] {
      assert front + bs == bs;
    } else {
      var a := front[0];
      assert (front + bs)[0] == a && (front + bs)[1..] == front[1..] + bs;
      match Exec(mode, f, a)
      case Err(_) =>
      case Ok(g) =>
        RetargetConcat(mode, f, a, front[1..], bs);
        forall j | 0 <= j < |bs|
          ensures Track(mode, f, a, bs[j].node) == bs[j].node
        {
          TrackStays(mode, f, a, bs[j].node);
        }
        RetargetFixed(mode, f, a, bs);
        var rest := Retarget(mode, f, a, front[1..]);
        forall i, j | 0 <= i < |rest| && 0 <= j < |bs|
          ensures !Reaches(rest[i], bs[j].node)
        {
          assert front[1..][i] == front[i + 1];
          TrackStays(mode, f, a, front[i + 1].node);
        }
        assert NoInserts(rest) by {
          forall i | 0 <= i < |rest| ensures !rest[i].operation.Insert? {
            assert front[1..][i] == front[i + 1];
          }
        }
        ExecAllConcat(mode, g, rest, bs);
    }
  }

  lemma {:induction false} ExecAllOne(mode: Mode, f: Forest, a: Patch<Handle>)
    ensures ExecAll(mode, f, [a]) == Exec(mode, f, a)
  {
    assert [a][1..] == [];
  }

  lemma {:induction false} LiftConcat(xs: seq<Patch<Path>>, ys: seq<Patch<Path>>)
    ensures Lift(xs + ys) == Lift(xs) + Lift(ys)
  {
  }
}
