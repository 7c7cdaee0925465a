/**
 * The live document: an abstract host tree of text nodes and elements.
 * A node is addressed by its path of child indices from the document's
 * top; the host moves first-child, next-sibling and parent are functions
 * on paths. Materialisation turns a virtual node into the live subtree
 * that element creation builds (src/root.rs, `create_element`), and
 * PreOrder is the order in which the walker visits a subtree.
 */
module Live {
  import opened Tree
  import opened Diff
  import DiffFacts

  datatype Option<T> = None | Some(value: T)

  datatype LNode =
    | LText(text: string)
    | LElem(tag: string, attributes: map<string, Value>, properties: map<string, Value>, children: seq<LNode>)

  /** A node handle: child indices from the top of the document. */
  type Path = seq<nat>

  /** The children of a live node; a text node has none. */
  function Kids(t: LNode): seq<LNode>
  {
    if t.LElem? then t.children else []
  }

  function Init(p: Path): Path
    requires p != []
  {
    p[..|p| - 1]
  }

  function Last(p: Path): nat
    requires p != []
  {
    p[|p| - 1]
  }

  /** Every step of `p` names an existing child. */
  predicate ValidPath(t: LNode, p: Path)
    decreases |p|, 0
  {
    p == [] || (ValidPath(t, Init(p)) && Last(p) < |Kids(At(t, Init(p)))|)
  }

  /** The node a valid path leads to. */
  function At(t: LNode, p: Path): LNode
    requires ValidPath(t, p)
    decreases |p|, 1
  {
    if p == [] then t else Kids(At(t, Init(p)))[Last(p)]
  }

  /** One more step down: child `i` of the node at `p`. */
  lemma {:induction false} ChildPath(t: LNode, p: Path, i: nat)
    ensures Init(p + [i]) == p && Last(p + [i]) == i
    ensures ValidPath(t, p + [i]) <==> ValidPath(t, p) && i < |Kids(At(t, p))|
    ensures ValidPath(t, p + [i]) ==> At(t, p + [i]) == Kids(At(t, p))[i]
  {
    assert (p + [i])[..|p|] == p;
  }

  /** A path can be followed in two legs. */
  lemma {:induction false} AtConcat(t: LNode, a: Path, b: Path)
    requires ValidPath(t, a)
    ensures ValidPath(t, a + b) <==> ValidPath(At(t, a), b)
    ensures ValidPath(t, a + b) ==> At(t, a + b) == At(At(t, a), b)
    decreases |b|
  {
    if b == [] {
      assert a + b == a;
    } else {
      var b', i := Init(b), Last(b);
      assert b == b' + [i];
      assert a + b == (a + b') + [i];
      AtConcat(t, a, b');
      ChildPath(t, a + b', i);
      ChildPath(At(t, a), b', i);
    }
  }

  /** The first step of a path picks a child of the top node. */
  lemma {:induction false} FirstStep(t: LNode, m: nat, q: Path)
    ensures ValidPath(t, [m] + q) <==> m < |Kids(t)| && ValidPath(Kids(t)[m], q)
    ensures ValidPath(t, [m] + q) ==> At(t, [m] + q) == At(Kids(t)[m], q)
  {
    ChildPath(t, [], m);
    assert [] + [m] == [m];
    if m < |Kids(t)| {
      AtConcat(t, [m], q);
    } else if ValidPath(t, [m] + q) {
      PrefixValid(t, [m], q);
    }
  }

  /** A prefix of a valid path is valid. */
  lemma {:induction false} PrefixValid(t: LNode, a: Path, b: Path)
    requires ValidPath(t, a + b)
    ensures ValidPath(t, a)
    decreases |b|
  {
    if b == [] {
      assert a + b == a;
    } else {
      var b', i := Init(b), Last(b);
      assert b == b' + [i];
      assert a + b == (a + b') + [i];
      ChildPath(t, a + b', i);
      PrefixValid(t, a, b');
    }
  }

  // ---------------------------------------------------------------------
  // Host moves (stdweb's `first_child`, `next_sibling`, `parent_node`)
  // ---------------------------------------------------------------------

  /** `first_child`: the handle of child 0, when there is a child. */
  function FirstChild(doc: LNode, p: Path): (r: Option<Path>)
    requires ValidPath(doc, p)
    ensures r.Some? <==> |Kids(At(doc, p))| > 0
    ensures r.Some? ==> ValidPath(doc, r.value) && At(doc, r.value) == Kids(At(doc, p))[0]
                        && ParentNode(r.value) == Some(p)
  {
    if |Kids(At(doc, p))| > 0 then ChildPath(doc, p, 0); Some(p + [0]) else None
  }

  /** `next_sibling`: the handle of the next child of the same parent, when there is one. */
  function NextSibling(doc: LNode, p: Path): (r: Option<Path>)
    requires ValidPath(doc, p)
    ensures r.Some? <==> p != [] && Last(p) + 1 < |Kids(At(doc, Init(p)))|
    ensures r.Some? ==> ValidPath(doc, r.value) && At(doc, r.value) == Kids(At(doc, Init(p)))[Last(p) + 1]
                        && ParentNode(r.value) == ParentNode(p)
  {
    if p != [] && Last(p) + 1 < |Kids(At(doc, Init(p)))| then
      ChildPath(doc, Init(p), Last(p) + 1);
      Some(Init(p) + [Last(p) + 1])
    else None
  }

  /** `parent_node`: the top of the tree has none; any other node's parent is one step up. */
  function ParentNode(p: Path): (r: Option<Path>)
    ensures r.Some? <==> p != []
    ensures r.Some? ==> r.value + [Last(p)] == p
  {
    if p == [] then None else Some(Init(p))
  }

  // ---------------------------------------------------------------------
  // Materialisation (`create_element` in src/root.rs)
  // ---------------------------------------------------------------------

  /** The values of the attributes of one kind, by key. */
  function AttrValues(attrs: map<string, Attr>, kind: AttrKind): (r: map<string, Value>)
    ensures forall k :: k in r <==> k in attrs && attrs[k].kind == kind
    ensures forall k :: k in r ==> r[k] == attrs[k].value
  {
    map k | k in attrs && attrs[k].kind == kind :: attrs[k].value
  }

  /**
   * The live element built from a virtual node: attributes of kind
   * Attribute go through setAttribute, those of kind Property become
   * properties, and each child is materialised in order. Listeners are
   * host callbacks and leave no trace in the tree.
   */
  function Materialize(v: VNode): (r: LNode)
    ensures r.LElem? && r.tag == v.tag && |r.children| == |v.children|
    ensures forall k :: k in v.attributes ==> (k in r.attributes <==> k !in r.properties)
    ensures forall k :: k in r.attributes || k in r.properties ==> k in v.attributes
    decreases v
  {
    LElem(v.tag, AttrValues(v.attributes, Attribute), AttrValues(v.attributes, Property), MaterializeKids(v.children))
  }

  /** Each child materialised, in order. */
  function MaterializeKids(cs: seq<Child>): (r: seq<LNode>)
    ensures |r| == |cs|
    decreases cs
  {
    seq(|cs|, k requires 0 <= k < |cs| => MaterializeChild(cs[k]))
  }

  /** A text child becomes a text node, a node child an element. */
  function MaterializeChild(c: Child): LNode
    decreases c
  {
    match c
    case Text(s) => LText(s)
    case Node(n) => Materialize(n)
  }

  lemma {:induction false} MaterializeShape(v: VNode)
    ensures Materialize(v).LElem? && Materialize(v).tag == v.tag
    ensures |Kids(Materialize(v))| == |v.children|
    ensures forall k :: 0 <= k < |v.children| ==> Kids(Materialize(v))[k] == MaterializeChild(v.children[k])
  {
  }

  /** Listeners take no part in the live tree. */
  lemma {:induction false} MaterializeIgnoresListeners(v: VNode, ls: seq<Listener>)
    ensures Materialize(v.(listeners := ls)) == Materialize(v)
  {
  }

  // ---------------------------------------------------------------------
  // Pre-order
  // ---------------------------------------------------------------------

  /** The paths of a subtree whose top is at `base`, node before children. */
  function PreOrder(t: LNode, base: Path): (r: seq<Path>)
    ensures r != [] && r[0] == base
    decreases t
  {
    match t
    case LText(_) => [base]
    case LElem(_, _, _, cs) => [base] + Span(cs, base, 0, |cs|)
  }

  /** The pre-orders of children `i..j` of the node at `base`, one after another. */
  function Span(cs: seq<LNode>, base: Path, i: nat, j: nat): seq<Path>
    requires j <= |cs|
    decreases cs, j
  {
    if j <= i then [] else Span(cs, base, i, j - 1) + PreOrder(cs[j - 1], base + [j - 1])
  }

  lemma {:induction false} PreOrderKids(t: LNode, base: Path)
    ensures PreOrder(t, base) == [base] + Span(Kids(t), base, 0, |Kids(t)|)
  {
  }

  /** A span starts with the pre-order of its first child. */
  lemma {:induction false} SpanFront(cs: seq<LNode>, base: Path, i: nat, j: nat)
    requires i < j <= |cs|
    ensures Span(cs, base, i, j) == PreOrder(cs[i], base + [i]) + Span(cs, base, i + 1, j)
    decreases j
  {
    if j - 1 > i {
      SpanFront(cs, base, i, j - 1);
    }
  }

  /** How many nodes are below the children `cs[..j]`: one per node. */
  lemma {:induction false} SpanLength(cs: seq<Child>, base: Path, j: nat)
    requires j <= |cs|
    ensures |Span(MaterializeKids(cs), base, 0, j)| == CountChildren(cs[..j])
    decreases cs, j
  {
    var ms := MaterializeKids(cs);
    if j == 0 {
      assert cs[..j] == [];
    } else {
      SpanLength(cs, base, j - 1);
      DiffFacts.CountChildrenTake(cs, j);
      ChildPreOrderLength(cs[j - 1], base + [j - 1]);
    }
  }

  lemma {:induction false} ChildPreOrderLength(c: Child, base: Path)
    ensures |PreOrder(MaterializeChild(c), base)| == 1 + Descendants(c)
    decreases c, 1
  {
    if c.Node? {
      PreOrderLength(c.node, base);
    }
  }

  /**
   * A materialised subtree has `1 + count_children(children)` nodes, the
   * numbering that the diff's counter runs over.
   */
  lemma {:induction false} PreOrderLength(v: VNode, base: Path)
    ensures |PreOrder(Materialize(v), base)| == 1 + CountChildren(v.children)
    decreases v, 0
  {
    SpanLength(v.children, base, |v.children|);
    assert v.children[..|v.children|] == v.children;
  }

  /** `q` lies in the subtree of the node at `base`. */
  predicate Below(base: Path, q: Path)
  {
    |base| <= |q| && q[..|base|] == base
  }

  /** Every path listed is `base` followed by a valid path of the subtree. */
  lemma {:induction false} PreOrderInside(t: LNode, base: Path)
    ensures forall q :: q in PreOrder(t, base) ==> Below(base, q) && ValidPath(t, q[|base|..])
    decreases t, 1
  {
    assert base[|base|..] == [];
    if t.LElem? {
      SpanInside(t, t.children, base, |t.children|);
    }
  }

  lemma {:induction false} SpanInside(t: LNode, cs: seq<LNode>, base: Path, j: nat)
    requires t.LElem? && cs == t.children && j <= |cs|
    ensures forall q :: q in Span(cs, base, 0, j) ==>
      |base| < |q| && q[..|base|] == base && q[|base|] < j && ValidPath(t, q[|base|..])
    decreases cs, j
  {
    if j > 0 {
      var b := base + [j - 1];
      assert Span(cs, base, 0, j) == Span(cs, base, 0, j - 1) + PreOrder(cs[j - 1], b);
      SpanInside(t, cs, base, j - 1);
      PreOrderInside(cs[j - 1], b);
      forall q | q in PreOrder(cs[j - 1], b)
        ensures |base| < |q| && q[..|base|] == base && q[|base|] < j && ValidPath(t, q[|base|..])
      {
        assert q[..|base|] == q[..|b|][..|base|];
        assert q[|base|] == q[..|b|][|base|];
        var rest := q[|b|..];
        assert q[|base|..] == [j - 1] + rest;
        FirstStep(t, j - 1, rest);
      }
    }
  }

  /** No path is listed twice. */
  predicate DistinctPaths(ps: seq<Path>)
  {
    forall a, b :: 0 <= a < b < |ps| ==> ps[a] != ps[b]
  }

  lemma {:induction false} PreOrderDistinct(t: LNode, base: Path)
    ensures DistinctPaths(PreOrder(t, base))
    decreases t, 1
  {
    if t.LElem? {
      SpanInside(t, t.children, base, |t.children|);
      SpanDistinct(t, t.children, base, |t.children|);
      var s := Span(t.children, base, 0, |t.children|);
      assert forall a :: 0 <= a < |s| ==> s[a] in s;
    }
  }

  lemma {:induction false} SpanDistinct(t: LNode, cs: seq<LNode>, base: Path, j: nat)
    requires t.LElem? && cs == t.children && j <= |cs|
    ensures DistinctPaths(Span(cs, base, 0, j))
    decreases cs, j
  {
    if j > 0 {
      var s := Span(cs, base, 0, j - 1);
      var b := base + [j - 1];
      var u := PreOrder(cs[j - 1], b);
      SpanDistinct(t, cs, base, j - 1);
      SpanInside(t, cs, base, j - 1);
      PreOrderDistinct(cs[j - 1], b);
      PreOrderInside(cs[j - 1], b);
      forall a, c | 0 <= a < |s| && 0 <= c < |u|
        ensures s[a] != u[c]
      {
        assert s[a] in s && u[c] in u;
        assert u[c][|base|] == u[c][..|b|][|base|];
      }
      assert Span(cs, base, 0, j) == s + u;
    }
  }

  /** Every node of the subtree is listed. */
  lemma {:induction false} PreOrderComplete(t: LNode, base: Path, q: Path)
    requires ValidPath(t, q)
    ensures base + q in PreOrder(t, base)
    decreases t, 1
  {
    if q == [] {
      assert base + q == base;
    } else {
      var m, rest := q[0], q[1..];
      assert q == [m] + rest;
      FirstStep(t, m, rest);
      PreOrderComplete(Kids(t)[m], base + [m], rest);
      assert base + q == (base + [m]) + rest;
      SpanHas(t.children, base, m, |t.children|, base + q);
    }
  }

  /** A span lists the pre-order of each of its children. */
  lemma {:induction false} SpanHas(cs: seq<LNode>, base: Path, m: nat, j: nat, q: Path)
    requires m < j <= |cs| && q in PreOrder(cs[m], base + [m])
    ensures q in Span(cs, base, 0, j)
    decreases j
  {
    if m < j - 1 {
      SpanHas(cs, base, m, j - 1, q);
    }
  }
}
