/**
 * The pre-order walker over a live subtree (src/dom_iterator.rs; the same
 * walker is repeated as `NodeIterator` in src/apply.rs:106-174). It moves
 * with first-child, next-sibling and parent only, and stops when it climbs
 * back to its root.
 */
module Walker {
  import opened Live

  /**
   * The paths that follow the whole subtree at `c` in the pre-order of the
   * subtree at `root`: the later siblings of `c` with their subtrees, then
   * those of each ancestor, up to `root`.
   */
  function After(doc: LNode, root: Path, c: Path): seq<Path>
    requires ValidPath(doc, c) && Below(root, c)
    decreases |c|
  {
    if |c| == |root| then []
    else
      var p := Init(c);
      assert c[..|root|] == p[..|root|];
      Span(Kids(At(doc, p)), p, Last(c) + 1, |Kids(At(doc, p))|) + After(doc, root, p)
  }

  /** Leaving the subtree of `c` for its parent's subtree, inside `root`. */
  lemma {:induction false} UpOne(doc: LNode, root: Path, c: Path)
    requires ValidPath(doc, c) && Below(root, c) && |root| < |c|
    ensures ValidPath(doc, Init(c)) && Below(root, Init(c))
    ensures Last(c) < |Kids(At(doc, Init(c)))|
  {
    assert c[..|root|] == Init(c)[..|root|];
  }

  /** What follows child `i` of `c`: its later siblings, then what follows `c`. */
  lemma {:induction false} AfterChild(doc: LNode, root: Path, c: Path, i: nat)
    requires ValidPath(doc, c) && Below(root, c) && i < |Kids(At(doc, c))|
    ensures ValidPath(doc, c + [i]) && Below(root, c + [i])
    ensures After(doc, root, c + [i])
         == Span(Kids(At(doc, c)), c, i + 1, |Kids(At(doc, c))|) + After(doc, root, c)
  {
    ChildPath(doc, c, i);
    assert (c + [i])[..|root|] == c[..|root|];
  }

  /** A node without children is a pre-order of one. */
  lemma {:induction false} Leaf(t: LNode, base: Path)
    requires Kids(t) == []
    ensures PreOrder(t, base) == [base]
  {
  }

  /** Moving to the first child takes exactly one path off the walk. */
  lemma {:induction false} StepDown(doc: LNode, root: Path, c: Path)
    requires ValidPath(doc, c) && Below(root, c) && |Kids(At(doc, c))| > 0
    ensures ValidPath(doc, c + [0]) && Below(root, c + [0])
    ensures PreOrder(At(doc, c), c) + After(doc, root, c)
         == [c] + (PreOrder(At(doc, c + [0]), c + [0]) + After(doc, root, c + [0]))
  {
    var ks := Kids(At(doc, c));
    ChildPath(doc, c, 0);
    AfterChild(doc, root, c, 0);
    PreOrderKids(At(doc, c), c);
    SpanFront(ks, c, 0, |ks|);
  }

  /** Moving to the next sibling, inside `root`, takes exactly one path off the walk. */
  lemma {:induction false} StepAcross(doc: LNode, root: Path, p: Path, l: nat)
    requires ValidPath(doc, p) && Below(root, p) && l + 1 < |Kids(At(doc, p))|
    ensures ValidPath(doc, p + [l]) && ValidPath(doc, p + [l + 1]) && Below(root, p + [l + 1])
    ensures After(doc, root, p + [l]) == PreOrder(At(doc, p + [l + 1]), p + [l + 1]) + After(doc, root, p + [l + 1])
  {
    var ks := Kids(At(doc, p));
    var s := p + [l + 1];
    ChildPath(doc, p, l);
    ChildPath(doc, p, l + 1);
    AfterChild(doc, root, p, l + 1);
    var a, b, c := Span(ks, p, l + 1, |ks|), Span(ks, p, l + 2, |ks|), After(doc, root, p);
    assert After(doc, root, p + [l]) == a + c by {
      AfterChild(doc, root, p, l);
    }
    assert After(doc, root, s) == b + c by {
      AfterChild(doc, root, p, l + 1);
    }
    assert a == PreOrder(ks[l + 1], s) + b by {
      SpanFront(ks, p, l + 1, |ks|);
    }
  }

  /** The next sibling inside `root`, in terms of `StepAcross`. */
  lemma {:induction false} StepToSibling(doc: LNode, root: Path, c: Path, s: Path)
    requires ValidPath(doc, c) && Below(root, c) && |root| < |c|
    requires NextSibling(doc, c) == Some(s)
    ensures ValidPath(doc, s) && Below(root, s)
    ensures After(doc, root, c) == PreOrder(At(doc, s), s) + After(doc, root, s)
  {
    var p, l := Init(c), Last(c);
    assert c == p + [l];
    assert ValidPath(doc, p) && Below(root, p) && l + 1 < |Kids(At(doc, p))| && s == p + [l + 1] by {
      UpOne(doc, root, c);
    }
    StepAcross(doc, root, p, l);
  }

  /** A last child is followed by what follows its parent. */
  lemma {:induction false} LastChild(doc: LNode, root: Path, c: Path)
    requires ValidPath(doc, c) && Below(root, c) && |root| < |c|
    requires NextSibling(doc, c) == None
    ensures ValidPath(doc, Init(c)) && Below(root, Init(c))
    ensures After(doc, root, c) == After(doc, root, Init(c))
  {
    UpOne(doc, root, c);
  }

  lemma {:induction false} BelowRootStrictly(root: Path, p: Path)
    requires Below(root, p) && p != root
    ensures |root| < |p|
  {
  }

  /**
   * `DomIterator`: the walk's root, the node to be returned next, and
   * whether the walk is over. The document stays fixed while it walks.
   */
  class DomIterator {
    const doc: LNode
    const root: Path
    var current: Path
    var finished: bool

    ghost predicate Valid()
      reads this
    {
      ValidPath(doc, root) && ValidPath(doc, current) && Below(root, current)
    }

    /** The paths the walk has still to yield, in order. */
    ghost function Remaining(): seq<Path>
      requires Valid()
      reads this
    {
      if finished then [] else PreOrder(At(doc, current), current) + After(doc, root, current)
    }

    /** `DomIterator::new`: the walk starts at the root. */
    constructor (doc: LNode, root: Path)
      requires ValidPath(doc, root)
      ensures Valid() && this.doc == doc && this.root == root && !finished
      ensures Remaining() == PreOrder(At(doc, root), root)
    {
      this.doc := doc;
      this.root := root;
      current := root;
      finished := false;
      new;
      assert root[..|root|] == root;
    }

    /**
     * `Iterator::next`: yields the current node and moves to the next one
     * in pre-order, or yields nothing once finished. `asked` lists the
     * nodes whose next sibling was looked up: all strictly inside the
     * root's subtree, so the root's own siblings are never examined.
     */
    method Next() returns (r: Option<Path>, ghost asked: seq<Path>)
      requires Valid()
      modifies this
      ensures Valid()
      ensures old(finished) ==> r == None && finished && Remaining() == []
      ensures !old(finished) ==> r == Some(old(current)) && Remaining() == old(Remaining())[1..]
      ensures r.None? <==> old(Remaining()) == []
      ensures r.Some? ==> r.value == old(Remaining())[0]
      ensures r.Some? ==> Below(root, r.value) && ValidPath(doc, r.value)
      ensures forall q :: q in asked ==> Below(root, q) && q != root
      ensures old(finished) ==> finished
    {
      if finished {
        return None, [];
      }
      var here := current;
      asked := Advance();
      return Some(here), asked;
    }

    /** The moves of `next` after the current node has been taken. */
    method Advance() returns (ghost asked: seq<Path>)
      requires Valid() && !finished
      modifies this
      ensures Valid()
      ensures Remaining() == old(Remaining())[1..]
      ensures forall q :: q in asked ==> Below(root, q) && q != root
    {
      asked := [];
      match FirstChild(doc, current)
      case Some(child) =>
        StepDown(doc, root, current);
        current := child;
      case None =>
        Leaf(At(doc, current), current);
        if current == root {
          finished := true;
        } else {
          BelowRootStrictly(root, current);
          asked := [current];
          match NextSibling(doc, current)
          case Some(sibling) =>
            StepToSibling(doc, root, current, sibling);
            current := sibling;
          case None =>
            var more := Climb(current);
            asked := asked + more;
        }
    }

    /**
     * The loop over the ancestors of a last child `next`: done on reaching
     * the root, otherwise on to the first ancestor with a next sibling.
     */
    method Climb(next0: Path) returns (ghost asked: seq<Path>)
      requires Valid() && !finished
      requires ValidPath(doc, next0) && Below(root, next0) && |root| < |next0|
      requires NextSibling(doc, next0) == None
      modifies this
      ensures Valid()
      ensures Remaining() == After(doc, root, next0)
      ensures forall q :: q in asked ==> Below(root, q) && q != root
    {
      asked := [];
      var next := next0;
      while true
        invariant ValidPath(doc, next) && Below(root, next) && |root| < |next|
        invariant NextSibling(doc, next) == None
        invariant After(doc, root, next) == After(doc, root, next0)
        invariant !finished && Valid()
        invariant forall q :: q in asked ==> Below(root, q) && q != root
        decreases |next|
      {
        LastChild(doc, root, next);
        match ParentNode(next)
        case None =>
          assert false;
        case Some(parent) =>
          if parent == root {
            finished := true;
            return;
          }
          BelowRootStrictly(root, parent);
          asked := asked + [parent];
          match NextSibling(doc, parent)
          case Some(aunt) =>
            StepToSibling(doc, root, parent, aunt);
            current := aunt;
            return;
          case None =>
            next := parent;
      }
    }
  }
}
