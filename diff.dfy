/**
 * The positional diff (src/diff.rs:1-152): compares two node snapshots and
 * emits a flat sequence of patches, each tagged with the pre-order address
 * of the node it applies to. One address counter is threaded through the
 * whole recursion.
 *
 * The spec functions NodeDiff, ChildrenDiff, PairsDiff and PairDiff give the
 * patches and the counter after a call; the methods Diff, DiffNode,
 * DiffAttributes and DiffChildren are the source's imperative procedures,
 * which push onto a patch vector and bump the counter, proved equal to them.
 */
module Diff {
  import opened Tree
  import Keys

  datatype Operation =
    | ReplaceNode(node: VNode)
    | ReplaceText(text: string)
    | RemoveAttribute(attr: Attr)
    | SetAttribute(attr: Attr)
    | RemoveLast(count: int)
    | Append(children: seq<Child>)
    | Insert(position: int, node: VNode)
  {
    /** `Operation::at`: the patch that applies this operation at `index`. */
    function At(index: int): (p: Patch<int>)
      ensures p.node == index && p.operation == this
    {
      Patch(index, this)
    }
  }

  /** An operation bound to a node: an address first, a live node later. */
  datatype Patch<K> = Patch(node: K, operation: Operation)
  {
    /** `Patch::at`: rebinds the patch to another node, keeping the operation. */
    function At<K2>(node': K2): (p: Patch<K2>)
      ensures p.node == node' && p.operation == operation
    {
      Patch(node', operation)
    }
  }

  /**
   * The source as written, or as evidently intended where they differ.
   * In the diff, `Intended` moves the counter past the old descendants of an
   * old child replaced wholesale (a tag change, a text over a node, a node
   * over a text), which src/diff.rs:66-69 and 125-133 leave where it is, and
   * removes the old attribute before setting the new one when a key changes
   * kind, where src/diff.rs:90-92 only sets the new one. In `apply_patch`,
   * `Intended` replaces an element by a text node where src/apply.rs:65-66
   * sets its text content, and inserts before child `pos` where
   * src/apply.rs:95-96 hands the two nodes to `insert_before` the wrong way
   * round.
   */
  datatype Mode = AsWritten | Intended

  /** The counter after an old child at `index` that is replaced wholesale. */
  function Past(mode: Mode, oldChild: Child, index: int): (r: int)
    ensures mode == AsWritten ==> r == index
    ensures mode == Intended ==> r == index + Descendants(oldChild)
  {
    if mode == Intended then index + Descendants(oldChild) else index
  }

  /** The patches emitted so far and the counter's value afterwards. */
  datatype Diffed = Diffed(patches: seq<Patch<int>>, next: int)

  /**
   * `count_children`: each child counts 1, and a node child also counts its
   * own children, recursively; so this is the number of nodes below a parent
   * with these children.
   */
  function CountChildren(children: seq<Child>): (r: nat)
    ensures r >= |children|
    decreases children
  {
    if children == [] then 0
    else CountChildren(children[..|children| - 1]) + 1 + Descendants(children[|children| - 1])
  }

  /** How many nodes lie strictly below a child. */
  function Descendants(c: Child): nat
    decreases c
  {
    match c
    case Text(_) => 0
    case Node(n) => CountChildren(n.children)
  }

  lemma {:induction false} CountChildrenConcat(a: seq<Child>, b: seq<Child>)
    ensures CountChildren(a + b) == CountChildren(a) + CountChildren(b)
    decreases |b|
  {
    if b == [] {
      assert a + b == a;
    } else {
      var b' := b[..|b| - 1];
      assert (a + b)[..|a + b| - 1] == a + b';
      CountChildrenConcat(a, b');
    }
  }

  // ---------------------------------------------------------------------
  // Attribute diff (src/diff.rs:75-96)
  // ---------------------------------------------------------------------

  /** The keys present on either side. */
  function KeyUnion(oldA: map<string, Attr>, newA: map<string, Attr>): set<string>
  {
    oldA.Keys + newA.Keys
  }

  /**
   * What one key contributes, at `node`: a removal when only old has it, a
   * set when only new has it or both have unequal attributes, nothing when
   * both are equal; intended, a key that changes kind also loses its old
   * attribute first.
   */
  function KeyPatches<K>(mode: Mode, oldA: map<string, Attr>, newA: map<string, Attr>, k: string, node: K): seq<Patch<K>>
  {
    if k !in newA then (if k in oldA then [Patch(node, RemoveAttribute(oldA[k]))] else [])
    else if k !in oldA then [Patch(node, SetAttribute(newA[k]))]
    else if oldA[k] == newA[k] then []
    else if mode == Intended && oldA[k].kind != newA[k].kind then
      [Patch(node, RemoveAttribute(oldA[k])), Patch(node, SetAttribute(newA[k]))]
    else [Patch(node, SetAttribute(newA[k]))]
  }

  /** The patches of the keys `ks`, in the order of `ks`. */
  function KeysPatches<K>(mode: Mode, oldA: map<string, Attr>, newA: map<string, Attr>, ks: seq<string>, node: K): seq<Patch<K>>
  {
    if ks == [] then []
    else KeysPatches(mode, oldA, newA, ks[..|ks| - 1], node) + KeyPatches(mode, oldA, newA, ks[|ks| - 1], node)
  }

  /** The attribute patches of a node pair, visiting the keys in ascending order. */
  function AttributePatches<K>(mode: Mode, oldNode: VNode, newNode: VNode, node: K): seq<Patch<K>>
  {
    KeysPatches(mode, oldNode.attributes, newNode.attributes, Keys.SortedKeys(KeyUnion(oldNode.attributes, newNode.attributes)), node)
  }

  // ---------------------------------------------------------------------
  // Child diff (src/diff.rs:98-142)
  // ---------------------------------------------------------------------

  /** The one removal or append, at `node`, that reconciles the child counts. */
  function CountPatches<K>(oldNode: VNode, newNode: VNode, node: K): seq<Patch<K>>
  {
    var oldLen, newLen := |oldNode.children|, |newNode.children|;
    if oldLen > newLen then [Patch(node, RemoveLast(oldLen - newLen))]
    else if oldLen < newLen then [Patch(node, Append(newNode.children[oldLen..]))]
    else []
  }

  function Min(a: int, b: int): int
  {
    if a <= b then a else b
  }

  /**
   * `diff_node`: a tag change replaces the node and stops there, leaving the
   * counter where it is; otherwise the attributes and then the children.
   */
  function NodeDiff(mode: Mode, oldNode: VNode, newNode: VNode, index: int): (r: Diffed)
    ensures index <= r.next
    decreases oldNode, 2
  {
    if newNode.tag != oldNode.tag then
      Diffed([ReplaceNode(newNode).At(index)], Past(mode, Node(oldNode), index))
    else
      var c := ChildrenDiff(mode, oldNode, newNode, index);
      Diffed(AttributePatches(mode, oldNode, newNode, index) + c.patches, c.next)
  }

  /**
   * `diff_children`: the count patch at the parent's address, then each
   * shared pair, then the counter is moved past the removed old children.
   */
  function ChildrenDiff(mode: Mode, oldNode: VNode, newNode: VNode, index: int): (r: Diffed)
    ensures index + Min(|oldNode.children|, |newNode.children|) <= r.next
    decreases oldNode, 1
  {
    var oldLen, newLen := |oldNode.children|, |newNode.children|;
    var pairs := PairsDiff(mode, oldNode, newNode, Min(oldLen, newLen), index);
    var skipped := if oldLen > newLen then CountChildren(oldNode.children[newLen..]) else 0;
    Diffed(CountPatches(oldNode, newNode, index) + pairs.patches, pairs.next + skipped)
  }

  /**
   * The first `k` shared pairs: for each, the counter is bumped by one and
   * the pair is compared at the new value.
   */
  function PairsDiff(mode: Mode, oldNode: VNode, newNode: VNode, k: nat, index: int): (r: Diffed)
    requires k <= |oldNode.children| && k <= |newNode.children|
    ensures index + k <= r.next
    decreases oldNode, 0, k
  {
    if k == 0 then Diffed([], index)
    else
      var d := PairsDiff(mode, oldNode, newNode, k - 1, index);
      var e := PairDiff(mode, oldNode.children[k - 1], newNode.children[k - 1], d.next + 1);
      Diffed(d.patches + e.patches, e.next)
  }

  /** One shared pair, compared at `index`. */
  function PairDiff(mode: Mode, oldChild: Child, newChild: Child, index: int): (r: Diffed)
    ensures index <= r.next
    decreases oldChild
  {
    match (oldChild, newChild)
    case (Node(o), Node(n)) => NodeDiff(mode, o, n, index)
    case (Text(s), Text(t)) => Diffed(if s != t then [ReplaceText(t).At(index)] else [], index)
    case (_, Text(t)) => Diffed([ReplaceText(t).At(index)], Past(mode, oldChild, index))
    case (_, Node(n)) => Diffed([ReplaceNode(n).At(index)], Past(mode, oldChild, index))
  }

  // ---------------------------------------------------------------------
  // The imperative procedures
  // ---------------------------------------------------------------------

  /** `diff`: the root pair is at address 0. */
  method Diff(oldNode: VNode, newNode: VNode) returns (patches: seq<Patch<int>>)
    ensures patches == NodeDiff(AsWritten, oldNode, newNode, 0).patches
  {
    var index;
    patches, index := DiffNode(oldNode, newNode, [], 0);
    EmptyConcat(NodeDiff(AsWritten, oldNode, newNode, 0).patches);
  }

  method DiffNode(oldNode: VNode, newNode: VNode, patches0: seq<Patch<int>>, index0: int)
    returns (patches: seq<Patch<int>>, index: int)
    ensures patches == patches0 + NodeDiff(AsWritten, oldNode, newNode, index0).patches
    ensures index == NodeDiff(AsWritten, oldNode, newNode, index0).next
    decreases oldNode, 2
  {
    patches, index := patches0, index0;
    if newNode.tag != oldNode.tag {
      patches := patches + [ReplaceNode(newNode).At(index)];
      return;
    }
    patches := DiffAttributes(oldNode, newNode, patches, index);
    patches, index := DiffChildren(oldNode, newNode, patches, index);
    ConcatAssoc(patches0, AttributePatches(AsWritten, oldNode, newNode, index0), ChildrenDiff(AsWritten, oldNode, newNode, index0).patches);
  }

  lemma {:induction false} KeysPatchesStep<K>(mode: Mode, oldA: map<string, Attr>, newA: map<string, Attr>, ks: seq<string>, i: nat, node: K)
    requires i < |ks|
    ensures KeysPatches(mode, oldA, newA, ks[..i + 1], node)
         == KeysPatches(mode, oldA, newA, ks[..i], node) + KeyPatches(mode, oldA, newA, ks[i], node)
  {
    assert ks[..i + 1][..i] == ks[..i];
  }

  /**
   * `diff_attributes`: visits the union of the two key sets (in ascending
   * order here) and emits what each key contributes.
   */
  method DiffAttributes(oldNode: VNode, newNode: VNode, patches0: seq<Patch<int>>, index: int)
    returns (patches: seq<Patch<int>>)
    ensures patches == patches0 + AttributePatches(AsWritten, oldNode, newNode, index)
  {
    var oldA, newA := oldNode.attributes, newNode.attributes;
    var keys := Keys.SortedKeys(oldA.Keys + newA.Keys);
    Keys.SortedKeysEnumerates(oldA.Keys + newA.Keys);
    patches := DiffKeys(oldA, newA, keys, patches0, index);
  }

  /** The loop over an enumeration of the key union. */
  method DiffKeys(oldA: map<string, Attr>, newA: map<string, Attr>, keys: seq<string>, patches0: seq<Patch<int>>, index: int)
    returns (patches: seq<Patch<int>>)
    requires forall k :: k in keys ==> k in KeyUnion(oldA, newA)
    ensures patches == patches0 + KeysPatches(AsWritten, oldA, newA, keys, index)
  {
    patches := patches0;
    for i := 0 to |keys|
      invariant patches == patches0 + KeysPatches(AsWritten, oldA, newA, keys[..i], index)
    {
      KeysPatchesStep(AsWritten, oldA, newA, keys, i, index);
      ConcatAssoc(patches0, KeysPatches(AsWritten, oldA, newA, keys[..i], index), KeyPatches(AsWritten, oldA, newA, keys[i], index));
      assert keys[i] in keys;
      patches := DiffKey(oldA, newA, keys[i], patches, index);
    }
    assert keys[..|keys|] == keys;
  }

  /** The body of the loop over the key union. */
  method DiffKey(oldA: map<string, Attr>, newA: map<string, Attr>, key: string, patches0: seq<Patch<int>>, index: int)
    returns (patches: seq<Patch<int>>)
    requires key in KeyUnion(oldA, newA)
    ensures patches == patches0 + KeyPatches(AsWritten, oldA, newA, key, index)
  {
    patches := patches0;
    if key !in newA {
      patches := patches + [RemoveAttribute(oldA[key]).At(index)];
    } else if key !in oldA {
      patches := patches + [SetAttribute(newA[key]).At(index)];
    } else {
      var newAttr := newA[key];
      if oldA[key] != newAttr {
        patches := patches + [SetAttribute(newAttr).At(index)];
      }
    }
  }

  method DiffChildren(oldNode: VNode, newNode: VNode, patches0: seq<Patch<int>>, index0: int)
    returns (patches: seq<Patch<int>>, index: int)
    ensures patches == patches0 + ChildrenDiff(AsWritten, oldNode, newNode, index0).patches
    ensures index == ChildrenDiff(AsWritten, oldNode, newNode, index0).next
    decreases oldNode, 1
  {
    var oldLen, newLen := |oldNode.children|, |newNode.children|;
    patches, index := patches0, index0;
    if oldLen > newLen {
      patches := patches + [RemoveLast(oldLen - newLen).At(index)];
    } else if oldLen < newLen {
      patches := patches + [Append(newNode.children[oldLen..]).At(index)];
    }
    ghost var head := patches;
    assert head == patches0 + CountPatches(oldNode, newNode, index0);
    for k := 0 to Min(oldLen, newLen)
      invariant patches == head + PairsDiff(AsWritten, oldNode, newNode, k, index0).patches
      invariant index == PairsDiff(AsWritten, oldNode, newNode, k, index0).next
    {
      patches, index := DiffNextPair(oldNode, newNode, k, head, patches, index0, index);
    }
    ConcatAssoc(patches0, CountPatches(oldNode, newNode, index0),
      PairsDiff(AsWritten, oldNode, newNode, Min(oldLen, newLen), index0).patches);
    if oldLen > newLen {
      index := index + CountChildren(oldNode.children[newLen..]);
    }
  }

  lemma {:induction false} EmptyConcat<T>(s: seq<T>)
    ensures [] + s == s
  {
  }

  lemma {:induction false} ConcatAssoc<T>(a: seq<T>, b: seq<T>, c: seq<T>)
    ensures (a + b) + c == a + (b + c)
  {
  }

  lemma {:induction false} PairsDiffStep(mode: Mode, oldNode: VNode, newNode: VNode, k: nat, index: int)
    requires k < |oldNode.children| && k < |newNode.children|
    ensures PairsDiff(mode, oldNode, newNode, k + 1, index).patches
         == PairsDiff(mode, oldNode, newNode, k, index).patches
          + PairDiff(mode, oldNode.children[k], newNode.children[k], PairsDiff(mode, oldNode, newNode, k, index).next + 1).patches
    ensures PairsDiff(mode, oldNode, newNode, k + 1, index).next
         == PairDiff(mode, oldNode.children[k], newNode.children[k], PairsDiff(mode, oldNode, newNode, k, index).next + 1).next
  {
  }

  /** `PairsDiffStep` with the patches emitted before the pairs in front. */
  lemma {:induction false} PairsDiffExtend(mode: Mode, oldNode: VNode, newNode: VNode, k: nat, index: int, head: seq<Patch<int>>)
    requires k < |oldNode.children| && k < |newNode.children|
    ensures var d := PairsDiff(mode, oldNode, newNode, k, index);
            var e := PairDiff(mode, oldNode.children[k], newNode.children[k], d.next + 1);
            && head + PairsDiff(mode, oldNode, newNode, k + 1, index).patches == (head + d.patches) + e.patches
            && PairsDiff(mode, oldNode, newNode, k + 1, index).next == e.next
  {
    var d := PairsDiff(mode, oldNode, newNode, k, index);
    var e := PairDiff(mode, oldNode.children[k], newNode.children[k], d.next + 1);
    PairsDiffStep(mode, oldNode, newNode, k, index);
    ConcatAssoc(head, d.patches, e.patches);
  }

  /** The body of the loop over the zipped children: bump the counter, then compare pair `k`. */
  method DiffNextPair(oldNode: VNode, newNode: VNode, k: nat, ghost head: seq<Patch<int>>,
                      patches0: seq<Patch<int>>, ghost index0: int, index: int)
    returns (patches: seq<Patch<int>>, next: int)
    requires k < |oldNode.children| && k < |newNode.children|
    requires patches0 == head + PairsDiff(AsWritten, oldNode, newNode, k, index0).patches
    requires index == PairsDiff(AsWritten, oldNode, newNode, k, index0).next
    ensures patches == head + PairsDiff(AsWritten, oldNode, newNode, k + 1, index0).patches
    ensures next == PairsDiff(AsWritten, oldNode, newNode, k + 1, index0).next
    decreases oldNode, 0
  {
    patches, next := DiffPair(oldNode.children[k], newNode.children[k], patches0, index + 1);
    PairsDiffExtend(AsWritten, oldNode, newNode, k, index0, head);
  }

  /** One shared pair, compared at `index`. */
  method DiffPair(oldChild: Child, newChild: Child, patches0: seq<Patch<int>>, index: int)
    returns (patches: seq<Patch<int>>, next: int)
    ensures patches == patches0 + PairDiff(AsWritten, oldChild, newChild, index).patches
    ensures next == PairDiff(AsWritten, oldChild, newChild, index).next
    decreases oldChild
  {
    patches, next := patches0, index;
    if oldChild.Node? && newChild.Node? {
      patches, next := DiffNode(oldChild.node, newChild.node, patches, index);
    } else if oldChild.Text? && newChild.Text? {
      if oldChild.text != newChild.text {
        patches := patches + [ReplaceText(newChild.text).At(index)];
      }
    } else if newChild.Text? {
      patches := patches + [ReplaceText(newChild.text).At(index)];
    } else {
      patches := patches + [ReplaceNode(newChild.node).At(index)];
    }
  }
}
