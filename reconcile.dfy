/**
 * What diffing and then applying achieves (src/diff.rs:1-152 with
 * src/apply.rs:11-104): on a document whose subtree at `root` was built
 * from the old node, running the diff's patches leaves that subtree built
 * from the new node, and every other tree of the forest as it was. The
 * intended diff and patching reconcile every pair of keyed trees; as
 * written they do so when no attribute changes kind, no element is
 * replaced by a text and no shared old child with children of its own is
 * replaced wholesale, and the counterexamples below show each condition is
 * needed.
 */
module Reconcile {
  import opened Tree
  import opened Diff
  import opened DiffFacts
  import opened Live
  import opened Apply
  import opened Handles
  import opened Sync
  import Keys

  // ---------------------------------------------------------------------
  // Hypotheses
  // ---------------------------------------------------------------------

  /** Every attribute map of the tree is stored under its own keys, as the builders store it. */
  predicate KeyedTree(v: VNode)
    decreases v
  {
    && KeyedByOwnKey(v.attributes)
    && forall k :: 0 <= k < |v.children| ==> KeyedChild(v.children[k])
  }

  predicate KeyedChild(c: Child)
    decreases c
  {
    c.Node? ==> KeyedTree(c.node)
  }

  /** Nowhere does the diff compare an old element with a new text. */
  predicate ElementsKept(oldNode: VNode, newNode: VNode)
    decreases oldNode
  {
    oldNode.tag == newNode.tag ==>
      forall k :: 0 <= k < |oldNode.children| && k < |newNode.children| ==>
        ChildKept(oldNode.children[k], newNode.children[k])
  }

  predicate ChildKept(oldChild: Child, newChild: Child)
    decreases oldChild
  {
    match oldChild
    case Text(_) => true
    case Node(o) =>
      match newChild
      case Text(_) => false
      case Node(n) => ElementsKept(o, n)
  }

  /** Tree 0 may change and trees may be appended; the other trees stay. */
  predicate Keeps(f: Forest, g: Forest)
  {
    |f| <= |g| && forall i :: 0 < i < |f| ==> g[i] == f[i]
  }

  // ---------------------------------------------------------------------
  // Where the reference diff's patches go
  // ---------------------------------------------------------------------

  /** Every patch lies below `base`, and none is an insert. */
  predicate Under(ps: seq<Patch<Path>>, base: Path)
  {
    forall i :: 0 <= i < |ps| ==> Below(base, ps[i].node) && !ps[i].operation.Insert?
  }

  /** Every patch lies below child `j` of `base` for some `j < k`, and none is an insert. */
  predicate UnderFirst(ps: seq<Patch<Path>>, base: Path, k: nat)
  {
    forall i :: 0 <= i < |ps| ==>
      && |base| < |ps[i].node| && Below(base, ps[i].node) && ps[i].node[|base|] < k
      && !ps[i].operation.Insert?
  }

  lemma {:induction false} NodeUnder(oldNode: VNode, newNode: VNode, base: Path)
    ensures Under(PathNodeDiff(oldNode, newNode, base), base)
    decreases oldNode, 2
  {
    if newNode.tag == oldNode.tag {
      var m := Min(|oldNode.children|, |newNode.children|);
      AttributePatchesProvenance(Intended, oldNode, newNode, base);
      PairsUnder(oldNode, newNode, m, base);
      var a := AttributePatches(Intended, oldNode, newNode, base);
      var c := CountPatches(oldNode, newNode, base);
      var ps := PathPairsDiff(oldNode, newNode, m, base);
      var all: seq<Patch<Path>> := a + (c + ps);
      forall i | 0 <= i < |all|
        ensures Below(base, all[i].node) && !all[i].operation.Insert?
      {
        if i < |a| {
          assert a[i] in a;
        } else if i < |a| + |c| {
          assert all[i] == c[i - |a|];
        } else {
          assert all[i] == ps[i - |a| - |c|];
        }
      }
    }
  }

  lemma {:induction false} PairsUnder(oldNode: VNode, newNode: VNode, k: nat, base: Path)
    requires k <= |oldNode.children| && k <= |newNode.children|
    ensures UnderFirst(PathPairsDiff(oldNode, newNode, k, base), base, k)
    decreases oldNode, 0, k
  {
    if k > 0 {
      var j := k - 1;
      var d := PathPairsDiff(oldNode, newNode, j, base);
      var e := PathPairDiff(oldNode.children[j], newNode.children[j], base + [j]);
      PairsUnder(oldNode, newNode, j, base);
      PairUnder(oldNode.children[j], newNode.children[j], base + [j]);
      var all: seq<Patch<Path>> := d + e;
      forall i | 0 <= i < |all|
        ensures && |base| < |all[i].node| && Below(base, all[i].node) && all[i].node[|base|] < k
                && !all[i].operation.Insert?
      {
        if i >= |d| {
          var q := e[i - |d|].node;
          assert all[i] == e[i - |d|];
          assert Below(base, base + [j]);
          BelowTrans(base, base + [j], q);
          assert q[|base|] == q[..|base| + 1][|base|];
        }
      }
    }
  }

  lemma {:induction false} PairUnder(oldChild: Child, newChild: Child, at: Path)
    ensures Under(PathPairDiff(oldChild, newChild, at), at)
    decreases oldChild
  {
    if oldChild.Node? && newChild.Node? {
      NodeUnder(oldChild.node, newChild.node, at);
    }
  }

  /** Patches below different children of `base` cannot move each other's nodes. */
  lemma {:induction false} PairsApart(d: seq<Patch<Path>>, e: seq<Patch<Path>>, base: Path, j: nat)
    requires UnderFirst(d, base, j) && Under(e, base + [j])
    ensures Apart(Lift(d), Lift(e)) && NoInserts(Lift(d)) && InTrees(Lift(e), 1)
  {
    forall x, y | 0 <= x < |d| && 0 <= y < |e|
      ensures !Reaches(Lift(d)[x], Lift(e)[y].node)
    {
      var p, q := d[x].node, e[y].node;
      assert q[..|base| + 1] == base + [j];
      if Below(p, q) {
        assert q[|base|] == q[..|p|][|base|];
      }
    }
  }

  // ---------------------------------------------------------------------
  // Attribute patches
  // ---------------------------------------------------------------------

  /** The effect of one operation on a node, for the operations that only touch attributes. */
  function Touch(n: LNode, op: Operation): LNode
  {
    if !n.LElem? then n
    else
      match op
      case SetAttribute(a) => SetAttr(n, a)
      case RemoveAttribute(a) => RemoveAttr(n, a)
      case _ => n
  }

  function TouchAll(n: LNode, ps: seq<Patch<Path>>): LNode
    decreases |ps|
  {
    if ps == [] then n else TouchAll(Touch(n, ps[0].operation), ps[1..])
  }

  lemma {:induction false} TouchAllConcat(n: LNode, a: seq<Patch<Path>>, b: seq<Patch<Path>>)
    ensures TouchAll(n, a + b) == TouchAll(TouchAll(n, a), b)
    decreases |a|
  {
    if a == [] {
      assert a + b == b;
    } else {
      assert (a + b)[0] == a[0] && (a + b)[1..] == a[1..] + b;
      TouchAllConcat(Touch(n, a[0].operation), a[1..], b);
    }
  }

  predicate AttrOp(op: Operation)
  {
    op.SetAttribute? || op.RemoveAttribute?
  }

  /** The first attribute patch of a run touches the element and leaves the rest of the run as it is. */
  lemma {:induction false} TouchFirst(mode: Mode, g: Forest, base: Path, ps: seq<Patch<Path>>)
    requires |g| > 0 && ValidPath(g[0], base) && At(g[0], base).LElem?
    requires |ps| > 0 && ps[0].node == base && AttrOp(ps[0].operation)
    ensures ExecAll(mode, g, Lift(ps))
         == ExecAll(mode, g[0 := Put(g[0], base, Touch(At(g[0], base), ps[0].operation))], Lift(ps[1..]))
  {
    var b := Lift(ps);
    var g' := g[0 := Put(g[0], base, Touch(At(g[0], base), ps[0].operation))];
    assert b[0] == Patch(Handle(0, base), ps[0].operation);
    assert Exec(mode, g, b[0]) == Ok(g') by {
      assert g' + [] == g';
    }
    assert Retarget(mode, g, b[0], b[1..]) == Lift(ps[1..]);
  }

  /** A run of attribute patches at `base` touches the element there, and nothing else. */
  lemma {:induction false} ExecAllTouch(mode: Mode, g: Forest, base: Path, ps: seq<Patch<Path>>)
    requires |g| > 0 && ValidPath(g[0], base) && At(g[0], base).LElem?
    requires forall i :: 0 <= i < |ps| ==> ps[i].node == base && AttrOp(ps[i].operation)
    ensures ExecAll(mode, g, Lift(ps)) == Ok(g[0 := Put(g[0], base, TouchAll(At(g[0], base), ps))])
    decreases |ps|
  {
    if ps == [] {
      PutSame(g[0], base);
      assert g[0 := g[0]] == g;
    } else {
      var x := Touch(At(g[0], base), ps[0].operation);
      var g' := g[0 := Put(g[0], base, x)];
      assert ValidPath(g'[0], base) && At(g'[0], base) == x && x.LElem? by {
        PutAt(g[0], base, x);
      }
      assert forall i :: 0 <= i < |ps[1..]| ==> ps[1..][i].node == base && AttrOp(ps[1..][i].operation) by {
        forall i | 0 <= i < |ps[1..]| ensures ps[1..][i] == ps[i + 1] {}
      }
      ExecAllTouch(mode, g', base, ps[1..]);
      TouchCons(mode, g, base, ps);
    }
  }

  /** One step of the run above: the first patch, then the rest on the touched element. */
  lemma {:induction false} TouchCons(mode: Mode, g: Forest, base: Path, ps: seq<Patch<Path>>)
    requires |g| > 0 && ValidPath(g[0], base) && At(g[0], base).LElem?
    requires |ps| > 0 && ps[0].node == base && AttrOp(ps[0].operation)
    requires var g' := g[0 := Put(g[0], base, Touch(At(g[0], base), ps[0].operation))];
             && ValidPath(g'[0], base)
             && ExecAll(mode, g', Lift(ps[1..])) == Ok(g'[0 := Put(g'[0], base, TouchAll(Touch(At(g[0], base), ps[0].operation), ps[1..]))])
    ensures ExecAll(mode, g, Lift(ps)) == Ok(g[0 := Put(g[0], base, TouchAll(At(g[0], base), ps))])
  {
    var x := Touch(At(g[0], base), ps[0].operation);
    var g' := g[0 := Put(g[0], base, x)];
    var y := TouchAll(x, ps[1..]);
    TouchFirst(mode, g, base, ps);
    assert At(g'[0], base) == x by {
      PutAt(g[0], base, x);
    }
    assert g'[0 := Put(g'[0], base, y)] == g[0 := Put(g[0], base, y)] by {
      PutTwice(g[0], base, x, y);
    }
  }

  /**
   * The attributes and properties with the keys of `done` as in `newA`
   * and all other keys as in `oldA`.
   */
  function Mixed(oldA: map<string, Attr>, newA: map<string, Attr>, done: set<string>, kind: AttrKind): map<string, Value>
  {
    map x | x in oldA.Keys + newA.Keys
              && ((x in done && x in newA && newA[x].kind == kind) || (x !in done && x in oldA && oldA[x].kind == kind))
          :: if x in done then newA[x].value else oldA[x].value
  }

  function AttrState(n: LNode, oldA: map<string, Attr>, newA: map<string, Attr>, done: set<string>): LNode
    requires n.LElem?
  {
    n.(attributes := Mixed(oldA, newA, done, Attribute), properties := Mixed(oldA, newA, done, Property))
  }

  /** Marking `k` done changes the mixed map only at `k`, to the new value of `k` if it has this kind. */
  lemma {:induction false} MixedAt(oldA: map<string, Attr>, newA: map<string, Attr>, done: set<string>, k: string, kind: AttrKind)
    requires k !in done
    ensures var before, after := Mixed(oldA, newA, done, kind), Mixed(oldA, newA, done + {k}, kind);
            && (k in before <==> k in oldA && oldA[k].kind == kind)
            && (k in newA && newA[k].kind == kind ==> after == before[k := newA[k].value])
            && (!(k in newA && newA[k].kind == kind) ==> after == before - {k})
  {
  }

  /** The patches of one key bring that key from its old state to its new one. */
  lemma {:induction false} KeyStep(n: LNode, oldA: map<string, Attr>, newA: map<string, Attr>, done: set<string>, k: string, base: Path)
    requires n.LElem? && k !in done && KeyedByOwnKey(oldA) && KeyedByOwnKey(newA)
    ensures TouchAll(AttrState(n, oldA, newA, done), KeyPatches(Intended, oldA, newA, k, base))
         == AttrState(n, oldA, newA, done + {k})
  {
    var ps := KeyPatches(Intended, oldA, newA, k, base);
    if ps == [] {
      MixedSame(oldA, newA, done, k, Attribute);
      MixedSame(oldA, newA, done, k, Property);
    } else if |ps| == 1 {
      KeyStepOne(n, oldA, newA, done, k, base);
    } else {
      KeyStepTwo(n, oldA, newA, done, k, base);
    }
  }

  /** Marking done a key whose attribute does not change leaves the mixed map as it is. */
  lemma {:induction false} MixedSame(oldA: map<string, Attr>, newA: map<string, Attr>, done: set<string>, k: string, kind: AttrKind)
    requires (k in oldA <==> k in newA) && (k in oldA ==> oldA[k] == newA[k])
    ensures Mixed(oldA, newA, done, kind) == Mixed(oldA, newA, done + {k}, kind)
  {
    var before, after := Mixed(oldA, newA, done, kind), Mixed(oldA, newA, done + {k}, kind);
    assert before.Keys == after.Keys;
    forall x | x in before ensures before[x] == after[x] {
    }
  }

  /** A key that is only removed or only set. */
  lemma {:induction false} KeyStepOne(n: LNode, oldA: map<string, Attr>, newA: map<string, Attr>, done: set<string>, k: string, base: Path)
    requires n.LElem? && k !in done && KeyedByOwnKey(oldA) && KeyedByOwnKey(newA)
    requires |KeyPatches(Intended, oldA, newA, k, base)| == 1
    ensures TouchAll(AttrState(n, oldA, newA, done), KeyPatches(Intended, oldA, newA, k, base))
         == AttrState(n, oldA, newA, done + {k})
  {
    var before := AttrState(n, oldA, newA, done);
    var after := AttrState(n, oldA, newA, done + {k});
    var ps := KeyPatches(Intended, oldA, newA, k, base);
    MixedAt(oldA, newA, done, k, Attribute);
    MixedAt(oldA, newA, done, k, Property);
    var a := ps[0].operation.attr;
    assert ps[1..] == [] && TouchAll(before, ps) == Touch(before, ps[0].operation);
    if ps[0].operation.RemoveAttribute? {
      assert k !in newA && a == oldA[k];
      SingleKey(before, after, a, false);
    } else {
      assert k in newA && a == newA[k];
      SingleKey(before, after, a, true);
    }
  }

  /** A key that changes kind: the old attribute is removed, then the new one set. */
  lemma {:induction false} KeyStepTwo(n: LNode, oldA: map<string, Attr>, newA: map<string, Attr>, done: set<string>, k: string, base: Path)
    requires n.LElem? && k !in done && KeyedByOwnKey(oldA) && KeyedByOwnKey(newA)
    requires |KeyPatches(Intended, oldA, newA, k, base)| > 1
    ensures TouchAll(AttrState(n, oldA, newA, done), KeyPatches(Intended, oldA, newA, k, base))
         == AttrState(n, oldA, newA, done + {k})
  {
    var before := AttrState(n, oldA, newA, done);
    var after := AttrState(n, oldA, newA, done + {k});
    var ps := KeyPatches(Intended, oldA, newA, k, base);
    assert k in oldA && k in newA && oldA[k].kind != newA[k].kind;
    MixedAt(oldA, newA, done, k, Attribute);
    MixedAt(oldA, newA, done, k, Property);
    var mid := RemoveAttr(before, oldA[k]);
    assert ps[1..][1..] == [];
    assert TouchAll(before, ps) == TouchAll(mid, ps[1..]);
    assert TouchAll(mid, ps[1..]) == SetAttr(mid, newA[k]);
    assert TouchAll(before, ps).attributes == after.attributes;
    assert TouchAll(before, ps).properties == after.properties;
  }

  /** One removal or one setting of the key of `a`, where that is all that changes. */
  lemma {:induction false} SingleKey(before: LNode, after: LNode, a: Attr, set_: bool)
    requires before.LElem? && after.LElem? && before.tag == after.tag && before.children == after.children
    requires set_ ==> after.attributes == (if a.kind == Attribute then before.attributes[a.key := a.value] else before.attributes - {a.key})
    requires set_ ==> after.properties == (if a.kind == Property then before.properties[a.key := a.value] else before.properties - {a.key})
    requires set_ ==> (a.kind == Attribute ==> a.key !in before.properties) && (a.kind == Property ==> a.key !in before.attributes)
    requires !set_ ==> after.attributes == before.attributes - {a.key} && after.properties == before.properties - {a.key}
    requires !set_ ==> (a.kind == Attribute ==> a.key !in before.properties) && (a.kind == Property ==> a.key !in before.attributes)
    ensures (if set_ then SetAttr(before, a) else RemoveAttr(before, a)) == after
  {
  }

  lemma {:induction false} KeysRun(n: LNode, oldA: map<string, Attr>, newA: map<string, Attr>, ks: seq<string>, base: Path)
    requires n.LElem? && Keys.Distinct(ks) && KeyedByOwnKey(oldA) && KeyedByOwnKey(newA)
    ensures TouchAll(AttrState(n, oldA, newA, {}), KeysPatches(Intended, oldA, newA, ks, base))
         == AttrState(n, oldA, newA, set k | k in ks)
  {
    if ks == [] {
      assert (set k | k in ks) == {};
    } else {
      var init, x := ks[..|ks| - 1], ks[|ks| - 1];
      var start := AttrState(n, oldA, newA, {});
      var done := set k | k in init;
      var front := KeysPatches(Intended, oldA, newA, init, base);
      var last := KeyPatches(Intended, oldA, newA, x, base);
      assert KeysPatches(Intended, oldA, newA, ks, base) == front + last;
      DistinctInit(ks);
      KeysRun(n, oldA, newA, init, base);
      TouchAllConcat(start, front, last);
      KeyStep(n, oldA, newA, done, x, base);
      assert (set k | k in ks) == done + {x} by {
        assert ks == init + [x];
      }
    }
  }

  lemma {:induction false} MixedEnds(oldA: map<string, Attr>, newA: map<string, Attr>, all: set<string>, kind: AttrKind)
    requires oldA.Keys + newA.Keys <= all
    ensures Mixed(oldA, newA, {}, kind) == AttrValues(oldA, kind)
    ensures Mixed(oldA, newA, all, kind) == AttrValues(newA, kind)
  {
  }

  /** The intended attribute patches turn the element's attributes and properties into the new ones. */
  lemma {:induction false} AttrsRun(mode: Mode, g: Forest, base: Path, oldNode: VNode, newNode: VNode, ks: seq<LNode>)
    requires |g| > 0 && ValidPath(g[0], base)
    requires At(g[0], base) == LElem(oldNode.tag, AttrValues(oldNode.attributes, Attribute), AttrValues(oldNode.attributes, Property), ks)
    requires KeyedByOwnKey(oldNode.attributes) && KeyedByOwnKey(newNode.attributes)
    ensures ExecAll(mode, g, Lift(AttributePatches(Intended, oldNode, newNode, base)))
         == Ok(g[0 := Put(g[0], base, LElem(oldNode.tag, AttrValues(newNode.attributes, Attribute), AttrValues(newNode.attributes, Property), ks))])
  {
    var oldA, newA := oldNode.attributes, newNode.attributes;
    var names := Keys.SortedKeys(KeyUnion(oldA, newA));
    var n := At(g[0], base);
    AttributePatchesProvenance(Intended, oldNode, newNode, base);
    var ps := AttributePatches(Intended, oldNode, newNode, base);
    forall i | 0 <= i < |ps| ensures ps[i].node == base && AttrOp(ps[i].operation) {
      assert ps[i] in ps;
    }
    ExecAllTouch(mode, g, base, ps);
    Keys.SortedKeysEnumerates(KeyUnion(oldA, newA));
    MixedEnds(oldA, newA, (set k | k in names), Attribute);
    MixedEnds(oldA, newA, (set k | k in names), Property);
    assert AttrState(n, oldA, newA, {}) == n;
    KeysRun(n, oldA, newA, names, base);
  }

  // ---------------------------------------------------------------------
  // Child patches
  // ---------------------------------------------------------------------

  lemma {:induction false} MaterializeKidsSplit(cs: seq<Child>, m: nat)
    requires m <= |cs|
    ensures MaterializeKids(cs) == MaterializeKids(cs[..m]) + MaterializeKids(cs[m..])
  {
    var all, l, r := MaterializeKids(cs), MaterializeKids(cs[..m]), MaterializeKids(cs[m..]);
    forall i | 0 <= i < |cs|
      ensures all[i] == (l + r)[i]
    {
      assert all[i] == MaterializeChild(cs[i]);
      if i < m {
        assert l[i] == MaterializeChild(cs[..m][i]);
      } else {
        assert r[i - m] == MaterializeChild(cs[m..][i - m]);
      }
    }
    assert |all| == |l + r|;
  }

  /** An update below child `j` of `base`, after an update at `base`, is one update at `base`. */
  lemma {:induction false} PutChildOf(t: LNode, base: Path, x: LNode, j: nat, y: LNode)
    requires ValidPath(t, base) && x.LElem? && j < |x.children|
    ensures ValidPath(Put(t, base, x), base + [j]) && At(Put(t, base, x), base + [j]) == x.children[j]
    ensures Put(Put(t, base, x), base + [j], y) == Put(t, base, x.(children := x.children[j := y]))
  {
    PutAt(t, base, x);
    ChildPath(Put(t, base, x), base, j);
    PutTwice(t, base, x, x.(children := x.children[j := y]));
  }

  /** A first patch that leaves the later ones bound where they are. */
  lemma {:induction false} FirstThen(mode: Mode, g: Forest, a: Patch<Handle>, rest: seq<Patch<Handle>>, g': Forest)
    requires Exec(mode, g, a) == Ok(g')
    requires forall i :: 0 <= i < |rest| ==> Track(mode, g, a, rest[i].node) == rest[i].node
    ensures ExecAll(mode, g, [a] + rest) == ExecAll(mode, g', rest)
  {
    assert ([a] + rest)[0] == a && ([a] + rest)[1..] == rest;
    RetargetFixed(mode, g, a, rest);
  }

  /**
   * The forest the count patch leaves: the element at `base` with its
   * children cut to the new count, or with the new children appended; the
   * children it takes out are appended to the forest, last first.
   */
  function Recounted(g: Forest, base: Path, oldNode: VNode, newNode: VNode, x: LNode): Forest
    requires |g| > 0 && ValidPath(g[0], base) && x.LElem? && |x.children| == |oldNode.children|
  {
    var oldLen, newLen := |oldNode.children|, |newNode.children|;
    if oldLen > newLen then g[0 := Put(g[0], base, x.(children := x.children[..newLen]))] + Reversed(x.children[newLen..])
    else g[0 := Put(g[0], base, x.(children := x.children + MaterializeKids(newNode.children[oldLen..])))]
  }

  /**
   * The count patch, then the pairs: the removal takes out only children
   * past the shared ones, and the append moves nothing.
   */
  lemma {:induction false} CountRun(mode: Mode, g: Forest, base: Path, oldNode: VNode, newNode: VNode, x: LNode, rest: seq<Patch<Path>>)
    requires |g| > 0 && ValidPath(g[0], base) && At(g[0], base) == x
    requires x.LElem? && |x.children| == |oldNode.children|
    requires UnderFirst(rest, base, Min(|oldNode.children|, |newNode.children|))
    ensures var g' := Recounted(g, base, oldNode, newNode, x);
            var oldLen, newLen := |oldNode.children|, |newNode.children|;
            var ks := if oldLen > newLen then x.children[..newLen]
                      else x.children + MaterializeKids(newNode.children[oldLen..]);
            && Keeps(g, g') && g'[0] == Put(g[0], base, x.(children := ks))
            && ExecAll(mode, g, Lift(CountPatches(oldNode, newNode, base) + rest)) == ExecAll(mode, g', Lift(rest))
  {
    var c := CountPatches(oldNode, newNode, base);
    var oldLen, newLen := |oldNode.children|, |newNode.children|;
    LiftConcat(c, rest);
    if oldLen == newLen {
      assert x.children + MaterializeKids(newNode.children[oldLen..]) == x.children;
      PutSame(g[0], base);
      assert g[0 := g[0]] == g;
      assert c + rest == rest;
    } else if oldLen > newLen {
      assert Lift(c) == [Patch(Handle(0, base), RemoveLast(oldLen - newLen))];
      RemoveRun(mode, g, base, x, newLen, rest);
    } else {
      assert Lift(c) == [Patch(Handle(0, base), Append(newNode.children[oldLen..]))];
      AppendRun(mode, g, base, x, newNode.children[oldLen..], Lift(rest));
    }
  }

  /** The removal of the children past `newLen` leaves the patches below the first `newLen` bound where they were. */
  lemma {:induction false} RemoveRun(mode: Mode, g: Forest, base: Path, x: LNode, newLen: nat, rest: seq<Patch<Path>>)
    requires |g| > 0 && ValidPath(g[0], base) && At(g[0], base) == x
    requires x.LElem? && newLen < |x.children| && UnderFirst(rest, base, newLen)
    ensures ExecAll(mode, g, [Patch(Handle(0, base), RemoveLast(|x.children| - newLen))] + Lift(rest))
         == ExecAll(mode, g[0 := Put(g[0], base, x.(children := x.children[..newLen]))] + Reversed(x.children[newLen..]), Lift(rest))
  {
    var a := Patch(Handle(0, base), RemoveLast(|x.children| - newLen));
    var y := x.(children := x.children[..newLen]);
    var out := Reversed(x.children[newLen..]);
    assert x.children[..|x.children| - (|x.children| - newLen)] == x.children[..newLen];
    assert Edit(mode, g[0], base, a.operation) == Ok(Edited(Put(g[0], base, y), out));
    assert Exec(mode, g, a) == Ok(g[0 := Put(g[0], base, y)] + out);
    forall i | 0 <= i < |Lift(rest)|
      ensures Track(mode, g, a, Lift(rest)[i].node) == Lift(rest)[i].node
    {
      var q := rest[i].node;
      assert q[|base|..][0] == q[|base|];
    }
    FirstThen(mode, g, a, Lift(rest), g[0 := Put(g[0], base, y)] + out);
  }

  /** An append moves no node. */
  lemma {:induction false} AppendRun(mode: Mode, g: Forest, base: Path, x: LNode, cs: seq<Child>, rest: seq<Patch<Handle>>)
    requires |g| > 0 && ValidPath(g[0], base) && At(g[0], base) == x && x.LElem?
    ensures ExecAll(mode, g, [Patch(Handle(0, base), Append(cs))] + rest)
         == ExecAll(mode, g[0 := Put(g[0], base, x.(children := x.children + MaterializeKids(cs)))], rest)
  {
    var a := Patch(Handle(0, base), Append(cs));
    var y := x.(children := x.children + MaterializeKids(cs));
    assert Edit(mode, g[0], base, a.operation) == Ok(Edited(Put(g[0], base, y), []));
    assert Exec(mode, g, a) == Ok(g[0 := Put(g[0], base, y)] + []);
    assert g[0 := Put(g[0], base, y)] + [] == g[0 := Put(g[0], base, y)];
    FirstThen(mode, g, a, rest, g[0 := Put(g[0], base, y)]);
  }

  /**
   * After the first `k` shared pairs, the first `k` children are built from
   * the new children, and the others are as they were.
   */
  lemma {:induction false} PairsRun(mode: Mode, g: Forest, base: Path, oldNode: VNode, newNode: VNode, k: nat, x: LNode)
    requires k <= |oldNode.children| && k <= |newNode.children|
    requires |g| > 0 && ValidPath(g[0], base) && At(g[0], base) == x
    requires x.LElem? && k <= |x.children|
    requires forall j :: 0 <= j < k ==> x.children[j] == MaterializeChild(oldNode.children[j])
    requires KeyedTree(oldNode) && KeyedTree(newNode)
    requires mode == Intended || (oldNode.tag == newNode.tag && ElementsKept(oldNode, newNode))
    ensures var r := ExecAll(mode, g, Lift(PathPairsDiff(oldNode, newNode, k, base)));
            && r.Ok? && Keeps(g, r.value)
            && r.value[0] == Put(g[0], base, x.(children := MaterializeKids(newNode.children[..k]) + x.children[k..]))
    decreases oldNode, 0, k
  {
    if k == 0 {
      assert x.(children := MaterializeKids(newNode.children[..0]) + x.children[0..]) == x;
      PutSame(g[0], base);
    } else {
      var j := k - 1;
      PairsSplit(mode, g, base, oldNode, newNode, j);
      PairsRun(mode, g, base, oldNode, newNode, j, x);
      var g1 := ExecAll(mode, g, Lift(PathPairsDiff(oldNode, newNode, j, base))).value;
      var x1 := x.(children := MaterializeKids(newNode.children[..j]) + x.children[j..]);
      var v := MaterializeChild(newNode.children[j]);
      PutChildOf(g[0], base, x1, j, v);
      assert x1.children[j] == MaterializeChild(oldNode.children[j]);
      assert KeyedChild(oldNode.children[j]) && KeyedChild(newNode.children[j]);
      assert mode == Intended || ChildKept(oldNode.children[j], newNode.children[j]);
      PairRun(mode, g1, base + [j], oldNode.children[j], newNode.children[j]);
      KidsStep(newNode.children, x.children, j);
      assert x1.(children := x1.children[j := v]) == x.(children := MaterializeKids(newNode.children[..k]) + x.children[k..]);
    }
  }

  /** The patches of pair `j` run after those of the pairs before it, which cannot move them. */
  lemma {:induction false} PairsSplit(mode: Mode, g: Forest, base: Path, oldNode: VNode, newNode: VNode, j: nat)
    requires j < |oldNode.children| && j < |newNode.children| && |g| > 0
    ensures ExecAll(mode, g, Lift(PathPairsDiff(oldNode, newNode, j + 1, base)))
         == Then(mode, ExecAll(mode, g, Lift(PathPairsDiff(oldNode, newNode, j, base))),
                 Lift(PathPairDiff(oldNode.children[j], newNode.children[j], base + [j])))
  {
    var d := PathPairsDiff(oldNode, newNode, j, base);
    var e := PathPairDiff(oldNode.children[j], newNode.children[j], base + [j]);
    assert PathPairsDiff(oldNode, newNode, j + 1, base) == d + e;
    LiftConcat(d, e);
    PairsUnder(oldNode, newNode, j, base);
    PairUnder(oldNode.children[j], newNode.children[j], base + [j]);
    PairsApart(d, e, base, j);
    ExecAllConcat(mode, g, Lift(d), Lift(e));
  }

  lemma {:induction false} KidsStep(cs: seq<Child>, xs: seq<LNode>, j: nat)
    requires j < |cs| && j < |xs|
    ensures (MaterializeKids(cs[..j]) + xs[j..])[j := MaterializeChild(cs[j])] == MaterializeKids(cs[..j + 1]) + xs[j + 1..]
  {
    assert MaterializeKids(cs[..j + 1]) == MaterializeKids(cs[..j]) + [MaterializeChild(cs[j])];
  }

  /** One shared pair, at `at`, which has a parent. */
  lemma {:induction false} PairRun(mode: Mode, g: Forest, at: Path, oldChild: Child, newChild: Child)
    requires |g| > 0 && ValidPath(g[0], at) && at != [] && At(g[0], at) == MaterializeChild(oldChild)
    requires KeyedChild(oldChild) && KeyedChild(newChild)
    requires mode == Intended || ChildKept(oldChild, newChild)
    ensures var r := ExecAll(mode, g, Lift(PathPairDiff(oldChild, newChild, at)));
            r.Ok? && Keeps(g, r.value) && r.value[0] == Put(g[0], at, MaterializeChild(newChild))
    decreases oldChild
  {
    var ps := PathPairDiff(oldChild, newChild, at);
    match (oldChild, newChild)
    case (Node(o), Node(n)) =>
      NodeRun(mode, g, at, o, n);
    case (Text(s), Text(t)) =>
      if s == t {
        PutSame(g[0], at);
      } else {
        ExecAllOne(mode, g, Lift(ps)[0]);
        assert Lift(ps) == [Lift(ps)[0]];
        assert g[0 := Put(g[0], at, LText(t))] + [] == g[0 := Put(g[0], at, LText(t))];
      }
    case (Node(o), Text(t)) =>
      ExecAllOne(mode, g, Lift(ps)[0]);
      assert Lift(ps) == [Lift(ps)[0]];
    case (Text(_), Node(n)) =>
      ExecAllOne(mode, g, Lift(ps)[0]);
      assert Lift(ps) == [Lift(ps)[0]];
  }

  /** The element at `base` once the attributes are new and the children still old. */
  function Restyled(oldNode: VNode, newNode: VNode): LNode
  {
    LElem(oldNode.tag, AttrValues(newNode.attributes, Attribute), AttrValues(newNode.attributes, Property), MaterializeKids(oldNode.children))
  }

  /** The children at `base` once the count patch has run. */
  function Counted(oldNode: VNode, newNode: VNode): seq<LNode>
  {
    var oldKids, oldLen, newLen := MaterializeKids(oldNode.children), |oldNode.children|, |newNode.children|;
    if oldLen > newLen then oldKids[..newLen] else oldKids + MaterializeKids(newNode.children[oldLen..])
  }

  /** The attribute patches come first, move no node, and restyle the element. */
  lemma {:induction false} AttrPhase(mode: Mode, f: Forest, base: Path, oldNode: VNode, newNode: VNode)
    requires |f| > 0 && ValidPath(f[0], base) && At(f[0], base) == Materialize(oldNode)
    requires KeyedByOwnKey(oldNode.attributes) && KeyedByOwnKey(newNode.attributes) && oldNode.tag == newNode.tag
    ensures var m := Min(|oldNode.children|, |newNode.children|);
            ExecAll(mode, f, Lift(PathNodeDiff(oldNode, newNode, base))) ==
            ExecAll(mode, f[0 := Put(f[0], base, Restyled(oldNode, newNode))],
                    Lift(CountPatches(oldNode, newNode, base) + PathPairsDiff(oldNode, newNode, m, base)))
  {
    var m := Min(|oldNode.children|, |newNode.children|);
    var a := AttributePatches(Intended, oldNode, newNode, base);
    var cp := CountPatches(oldNode, newNode, base) + PathPairsDiff(oldNode, newNode, m, base);
    LiftConcat(a, cp);
    AttributePatchesProvenance(Intended, oldNode, newNode, base);
    assert Apart(Lift(a), Lift(cp)) && NoInserts(Lift(a)) by {
      forall i | 0 <= i < |a| ensures AttrOp(a[i].operation) {
        assert a[i] in a;
      }
    }
    ExecAllConcat(mode, f, Lift(a), Lift(cp));
    AttrsRun(mode, f, base, oldNode, newNode, MaterializeKids(oldNode.children));
  }

  /** After the pairs, the element is the one built from the new node. */
  lemma {:induction false} Rebuilt(oldNode: VNode, newNode: VNode)
    requires oldNode.tag == newNode.tag
    ensures var m := Min(|oldNode.children|, |newNode.children|);
            var x2 := Restyled(oldNode, newNode).(children := Counted(oldNode, newNode));
            && |x2.children| >= m
            && (forall j :: 0 <= j < m ==> x2.children[j] == MaterializeChild(oldNode.children[j]))
            && x2.(children := MaterializeKids(newNode.children[..m]) + x2.children[m..]) == Materialize(newNode)
  {
    var m := Min(|oldNode.children|, |newNode.children|);
    MaterializeKidsSplit(newNode.children, m);
    assert newNode.children[..|newNode.children|] == newNode.children;
  }

  /**
   * The reference diff run on a forest whose tree 0 holds, at `base`, the
   * element built from `oldNode` leaves there the element built from
   * `newNode`.
   */
  lemma {:induction false} NodeRun(mode: Mode, f: Forest, base: Path, oldNode: VNode, newNode: VNode)
    requires |f| > 0 && ValidPath(f[0], base) && At(f[0], base) == Materialize(oldNode)
    requires KeyedTree(oldNode) && KeyedTree(newNode)
    requires base != [] || oldNode.tag == newNode.tag
    requires mode == Intended || ElementsKept(oldNode, newNode)
    ensures var r := ExecAll(mode, f, Lift(PathNodeDiff(oldNode, newNode, base)));
            r.Ok? && Keeps(f, r.value) && r.value[0] == Put(f[0], base, Materialize(newNode))
    decreases oldNode, 2
  {
    if newNode.tag != oldNode.tag {
      var ps := PathNodeDiff(oldNode, newNode, base);
      ExecAllOne(mode, f, Lift(ps)[0]);
      assert Lift(ps) == [Lift(ps)[0]];
    } else {
      KeptRun(mode, f, base, oldNode, newNode);
    }
  }

  /** The same, for an element whose tag stays: its attributes, its count of children, then the shared pairs. */
  lemma {:induction false} KeptRun(mode: Mode, f: Forest, base: Path, oldNode: VNode, newNode: VNode)
    requires |f| > 0 && ValidPath(f[0], base) && At(f[0], base) == Materialize(oldNode)
    requires KeyedTree(oldNode) && KeyedTree(newNode) && oldNode.tag == newNode.tag
    requires mode == Intended || ElementsKept(oldNode, newNode)
    ensures var r := ExecAll(mode, f, Lift(PathNodeDiff(oldNode, newNode, base)));
            r.Ok? && Keeps(f, r.value) && r.value[0] == Put(f[0], base, Materialize(newNode))
    decreases oldNode, 1
  {
    var m := Min(|oldNode.children|, |newNode.children|);
    var p := PathPairsDiff(oldNode, newNode, m, base);
    var x1 := Restyled(oldNode, newNode);
    // the attribute patches first
    AttrPhase(mode, f, base, oldNode, newNode);
    var g1 := f[0 := Put(f[0], base, x1)];
    PutAt(f[0], base, x1);
    // then the count patch
    PairsUnder(oldNode, newNode, m, base);
    CountRun(mode, g1, base, oldNode, newNode, x1, p);
    var x2 := x1.(children := Counted(oldNode, newNode));
    var g2 := Recounted(g1, base, oldNode, newNode, x1);
    PutTwice(f[0], base, x1, x2);
    PutAt(f[0], base, x2);
    // then the shared pairs
    Rebuilt(oldNode, newNode);
    PairsRun(mode, g2, base, oldNode, newNode, m, x2);
    PutTwice(f[0], base, x2, x2.(children := MaterializeKids(newNode.children[..m]) + x2.children[m..]));
  }

  // ---------------------------------------------------------------------
  // Diff, then apply
  // ---------------------------------------------------------------------

  /**
   * The intended diff and patching reconcile: on a document whose subtree
   * at `root` was built from `oldNode`, `apply` of `diff(oldNode, newNode)`
   * leaves that subtree built from `newNode`, the rest of the document as
   * it was, and the other trees of the forest untouched. The root itself
   * cannot be replaced, having no parent. With the host as written the same
   * holds when no element gives way to a text.
   */
  lemma {:induction false} DiffThenApply(mode: Mode, f: Forest, root: Path, oldNode: VNode, newNode: VNode)
    requires |f| > 0 && ValidPath(f[0], root) && At(f[0], root) == Materialize(oldNode)
    requires KeyedTree(oldNode) && KeyedTree(newNode)
    requires root != [] || oldNode.tag == newNode.tag
    requires mode == Intended || ElementsKept(oldNode, newNode)
    ensures var r := Run(mode, f, root, NodeDiff(Intended, oldNode, newNode, 0).patches);
            && r.Ok? && r.value[0] == Put(f[0], root, Materialize(newNode))
            && forall i :: 0 < i < |f| ==> r.value[i] == f[i]
  {
    RunDiff(mode, f, root, oldNode, newNode);
    NodeRun(mode, f, root, oldNode, newNode);
  }

  /**
   * The source as written reconciles when no shared old child with
   * children is replaced wholesale, no attribute changes kind, and no
   * element gives way to a text.
   */
  lemma {:induction false} AsWrittenDiffThenApply(f: Forest, root: Path, oldNode: VNode, newNode: VNode)
    requires |f| > 0 && ValidPath(f[0], root) && At(f[0], root) == Materialize(oldNode)
    requires KeyedTree(oldNode) && KeyedTree(newNode)
    requires root != [] || oldNode.tag == newNode.tag
    requires SyncedBelow(oldNode, newNode) && KindsKept(oldNode, newNode) && ElementsKept(oldNode, newNode)
    ensures var r := Run(AsWritten, f, root, NodeDiff(AsWritten, oldNode, newNode, 0).patches);
            && r.Ok? && r.value[0] == Put(f[0], root, Materialize(newNode))
            && forall i :: 0 < i < |f| ==> r.value[i] == f[i]
  {
    NodeModesAgree(oldNode, newNode, 0);
    DiffThenApply(AsWritten, f, root, oldNode, newNode);
  }

  // ---------------------------------------------------------------------
  // What the source as written leaves behind
  // ---------------------------------------------------------------------

  function KindOld(v: Value): VNode
  {
    VNode("div", map["k" := Attr(Attribute, "k", v)], [], [])
  }

  function KindNew(v: Value): VNode
  {
    VNode("div", map["k" := Attr(Property, "k", v)], [], [])
  }

  lemma {:induction false} KindDiff(v: Value)
    ensures NodeDiff(AsWritten, KindOld(v), KindNew(v), 0).patches == [Patch(0, SetAttribute(Attr(Property, "k", v)))]
  {
    var o, n := KindOld(v), KindNew(v);
    var a := Attr(Property, "k", v);
    Keys.SortedKeysEnumerates({"k"});
    var ks := Keys.SortedKeys({"k"});
    assert ks == ["k"] by {
      assert |ks| == 1 && "k" in ks;
    }
    assert KeyUnion(o.attributes, n.attributes) == {"k"};
    assert KeysPatches(AsWritten, o.attributes, n.attributes, ks, 0) == [Patch(0, SetAttribute(a))] by {
      assert ks[..0] == [];
    }
    assert ChildrenDiff(AsWritten, o, n, 0).patches == [];
  }

  lemma {:induction false} KindRender(v: Value)
    ensures Materialize(KindOld(v)) == LElem("div", map["k" := v], map[], [])
    ensures Materialize(KindNew(v)) == LElem("div", map[], map["k" := v], [])
  {
    var o, n := KindOld(v), KindNew(v);
    var none: map<string, Value> := map[];
    assert AttrValues(o.attributes, Attribute) == map["k" := v] && AttrValues(o.attributes, Property) == none;
    assert AttrValues(n.attributes, Attribute) == none && AttrValues(n.attributes, Property) == map["k" := v];
    assert MaterializeKids([]) == [];
  }

  /** The property patch on the rendered old element keeps its attribute. */
  lemma {:induction false} KindExec(v: Value)
    ensures var t := LElem("div", map["k" := v], map[], []);
            ExecAll(AsWritten, [t], Lift([Patch([], SetAttribute(Attr(Property, "k", v)))])) ==
            Ok([LElem("div", map["k" := v], map["k" := v], [])])
  {
    var a := Attr(Property, "k", v);
    var t := LElem("div", map["k" := v], map[], []);
    var bs := Lift([Patch([], SetAttribute(a))]);
    assert bs == [Patch(Handle(0, []), SetAttribute(a))];
    var t1 := LElem("div", map["k" := v], map["k" := v], []);
    assert Edit(AsWritten, t, [], SetAttribute(a)) == Ok(Edited(t1, []));
    assert Holds([t], bs[0].node) && [t][0 := t1] + [] == [t1];
    assert Exec(AsWritten, [t], bs[0]) == Ok([t1]);
    ExecAllOne(AsWritten, [t], bs[0]);
  }

  lemma {:induction false} KindRun(v: Value)
    ensures Run(AsWritten, [Materialize(KindOld(v))], [], [Patch(0, SetAttribute(Attr(Property, "k", v)))])
         == Ok([LElem("div", map["k" := v], map["k" := v], [])])
  {
    var ps := [Patch(0, SetAttribute(Attr(Property, "k", v)))];
    var bound := [Patch([], SetAttribute(Attr(Property, "k", v)))];
    var f := [LElem("div", map["k" := v], map[], [])];
    assert [Materialize(KindOld(v))] == f by {
      KindRender(v);
    }
    assert PreOrder(At(f[0], []), []) == [[]];
    assert Resolve([[]], ps, 0) == Ok(bound) by {
      assert Ascending(ps) && Within(ps, 0, 0);
      ResolveAscending([[]], ps, 0);
      assert Direct([[]], ps) == bound;
    }
    assert Run(AsWritten, f, [], ps) == ExecAll(AsWritten, f, Lift(bound));
    KindExec(v);
  }

  /**
   * An attribute that becomes a property of the same value is only set as
   * a property: the old attribute stays on the element, which the new
   * virtual node does not have.
   */
  lemma {:induction false} KindSwitch(v: Value)
    ensures var ps := NodeDiff(AsWritten, KindOld(v), KindNew(v), 0).patches;
            && ps == [Patch(0, SetAttribute(Attr(Property, "k", v)))]
            && Run(AsWritten, [Materialize(KindOld(v))], [], ps)
               == Ok([LElem("div", map["k" := v], map["k" := v], [])])
            && Materialize(KindNew(v)) == LElem("div", map[], map["k" := v], [])
  {
    KindDiff(v);
    KindRender(v);
    KindRun(v);
  }

  function ShadowOld(): VNode
  {
    VNode("div", map[], [Node(VNode("p", map[], [], []))], [])
  }

  function ShadowNew(): VNode
  {
    VNode("div", map[], [Text("x")], [])
  }

  lemma {:induction false} ShadowDiff()
    ensures NodeDiff(AsWritten, ShadowOld(), ShadowNew(), 0).patches == [Patch(1, ReplaceText("x"))]
  {
    var o, n := ShadowOld(), ShadowNew();
    var pv := VNode("p", map[], [], []);
    assert Keys.SortedKeys({}) == [];
    assert AttributePatches(AsWritten, o, n, 0) == [];
    assert CountPatches(o, n, 0) == [];
    assert PairsDiff(AsWritten, o, n, 0, 0) == Diffed([], 0);
    assert PairDiff(AsWritten, Node(pv), Text("x"), 1) == Diffed([Patch(1, ReplaceText("x"))], 1);
    assert PairsDiff(AsWritten, o, n, 1, 0).patches == [Patch(1, ReplaceText("x"))] by {
      PairsDiffStep(AsWritten, o, n, 0, 0);
    }
  }

  lemma {:induction false} ShadowRender()
    ensures Materialize(ShadowOld()) == LElem("div", map[], map[], [LElem("p", map[], map[], [])])
    ensures Materialize(ShadowNew()) == LElem("div", map[], map[], [LText("x")])
    ensures PreOrder(Materialize(ShadowOld()), []) == [[], [0]]
  {
    var o, n := ShadowOld(), ShadowNew();
    var pv := VNode("p", map[], [], []);
    var none: map<string, Value> := map[];
    assert AttrValues(map[], Attribute) == none && AttrValues(map[], Property) == none;
    var lp := LElem("p", none, none, []);
    var t := LElem("div", none, none, [lp]);
    assert MaterializeKids([]) == [];
    assert Materialize(pv) == lp;
    assert MaterializeKids(o.children) == [lp];
    assert MaterializeKids(n.children) == [LText("x")];
    assert PreOrder(lp, [0]) == [[0]];
    assert Span([lp], [], 0, 1) == [[0]] by {
      assert Span([lp], [], 0, 0) == [];
      assert [] + [0] == [0];
    }
  }

  lemma {:induction false} ShadowExec()
    ensures ExecAll(AsWritten, [Materialize(ShadowOld())], Lift([Patch([0], ReplaceText("x"))]))
         == Ok([LElem("div", map[], map[], [LElem("p", map[], map[], [LText("x")])])])
  {
    ShadowRender();
    var none: map<string, Value> := map[];
    var t := LElem("div", none, none, [LElem("p", none, none, [])]);
    var bs := Lift([Patch([0], ReplaceText("x"))]);
    assert bs == [Patch(Handle(0, [0]), ReplaceText("x"))];
    var p1 := LElem("p", none, none, [LText("x")]);
    var t1 := LElem("div", none, none, [p1]);
    PutChild(t, 0, p1);
    assert t.children[0 := p1] == t1.children;
    assert TextContent("x") == [LText("x")];
    assert Edit(AsWritten, t, [0], ReplaceText("x")) == Ok(Edited(t1, []));
    assert Holds([t], bs[0].node) && [t][0 := t1] + [] == [t1];
    assert Exec(AsWritten, [t], bs[0]) == Ok([t1]);
    ExecAllOne(AsWritten, [t], bs[0]);
  }

  lemma {:induction false} ShadowRun()
    ensures Run(AsWritten, [Materialize(ShadowOld())], [], [Patch(1, ReplaceText("x"))])
         == Ok([LElem("div", map[], map[], [LElem("p", map[], map[], [LText("x")])])])
  {
    var ps := [Patch(1, ReplaceText("x"))];
    var f := [Materialize(ShadowOld())];
    var bound := [Patch([0], ReplaceText("x"))];
    assert PreOrder(At(f[0], []), []) == [[], [0]] by {
      ShadowRender();
    }
    assert Resolve([[], [0]], ps, 0) == Ok(bound) by {
      assert Ascending(ps) && Within(ps, 0, 1);
      ResolveAscending([[], [0]], ps, 0);
      assert Direct([[], [0]], ps) == bound;
    }
    assert Run(AsWritten, f, [], ps) == ExecAll(AsWritten, f, Lift(bound));
    ShadowExec();
  }

  /**
   * An element that gives way to a text gets the text as its content:
   * the document keeps the element where the new virtual node has a text.
   */
  lemma {:induction false} TextOverElement()
    ensures var ps := NodeDiff(AsWritten, ShadowOld(), ShadowNew(), 0).patches;
            && ps == [Patch(1, ReplaceText("x"))]
            && Run(AsWritten, [Materialize(ShadowOld())], [], ps)
               == Ok([LElem("div", map[], map[], [LElem("p", map[], map[], [LText("x")])])])
            && Materialize(ShadowNew()) == LElem("div", map[], map[], [LText("x")])
  {
    ShadowDiff();
    ShadowRun();
    ShadowRender();
  }
}
