/**
 * What the diff promises: no patches exactly for equal trees, the per-key
 * attribute patches, the count patch, addresses that never decrease and stay
 * inside the old tree's numbering, and the counter moving past exactly the
 * old subtree when no replacement below discards old descendants.
 */
module DiffFacts {
  import opened Tree
  import opened Diff
  import Keys

  /** Addresses never decrease along the sequence. */
  predicate Ascending(ps: seq<Patch<int>>)
  {
    forall a, b :: 0 <= a < b < |ps| ==> ps[a].node <= ps[b].node
  }

  /** Every address lies in `lo..hi`. */
  predicate Within(ps: seq<Patch<int>>, lo: int, hi: int)
  {
    forall a :: 0 <= a < |ps| ==> lo <= ps[a].node <= hi
  }

  lemma {:induction false} AscendingConcat(ps: seq<Patch<int>>, qs: seq<Patch<int>>, lo: int, mid: int, mid': int, hi: int)
    requires Ascending(ps) && Within(ps, lo, mid)
    requires Ascending(qs) && Within(qs, mid', hi)
    requires mid <= mid' && lo <= mid' && mid <= hi
    ensures Ascending(ps + qs) && Within(ps + qs, lo, hi)
  {
  }

  /** The ordering facts of two consecutive runs of patches carry over to their join. */
  lemma {:induction false} AscendingJoin(r: Diffed, d: Diffed, e: Diffed, lo: int)
    requires r.patches == d.patches + e.patches && r.next == e.next
    requires Ascending(d.patches) && Within(d.patches, lo, d.next) && lo - 1 <= d.next
    requires Ascending(e.patches) && Within(e.patches, d.next + 1, e.next) && d.next + 1 <= e.next
    ensures Ascending(r.patches) && Within(r.patches, lo, r.next) && lo - 1 <= r.next
  {
    AscendingConcat(d.patches, e.patches, lo, d.next, d.next + 1, e.next);
  }

  lemma {:induction false} ConcatPrefix<T>(a: seq<T>, b: seq<T>)
    ensures (a + b)[..|a|] == a
    ensures forall i :: |a| <= i < |a + b| ==> (a + b)[i] == b[i - |a|]
  {
  }

  lemma {:induction false} TakeTake<T>(s: seq<T>, k: nat)
    requires 0 < k <= |s|
    ensures s[..k][..k - 1] == s[..k - 1] && s[..k][k - 1] == s[k - 1]
  {
  }

  lemma {:induction false} TakeDrop<T>(s: seq<T>, m: nat)
    requires m <= |s|
    ensures s[..m] + s[m..] == s && s[..|s|] == s
  {
  }

  /** The nodes below the first `k` children: those below `k - 1`, plus child `k - 1` and its own. */
  lemma {:induction false} CountChildrenTake(cs: seq<Child>, k: nat)
    requires 0 < k <= |cs|
    ensures CountChildren(cs[..k]) == CountChildren(cs[..k - 1]) + 1 + Descendants(cs[k - 1])
  {
    TakeTake(cs, k);
  }

  /** Mode splits at any point of the child list. */
  lemma {:induction false} CountChildrenSplit(cs: seq<Child>, m: nat)
    requires m <= |cs|
    ensures CountChildren(cs) == CountChildren(cs[..m]) + CountChildren(cs[m..])
  {
    TakeDrop(cs, m);
    CountChildrenConcat(cs[..m], cs[m..]);
  }

  // ---------------------------------------------------------------------
  // Attributes
  // ---------------------------------------------------------------------

  /** The key needs a patch: it is missing on one side, or the attributes differ. */
  predicate KeyChanged(oldA: map<string, Attr>, newA: map<string, Attr>, k: string)
  {
    k in KeyUnion(oldA, newA) && !(k in oldA && k in newA && oldA[k] == newA[k])
  }

  function ChangedKeys(oldA: map<string, Attr>, newA: map<string, Attr>): set<string>
  {
    set k | k in KeyUnion(oldA, newA) && KeyChanged(oldA, newA, k)
  }

  /**
   * One key's contribution: nothing exactly when the key is unchanged, a
   * removal when only old has it, a set of the new attribute when new has
   * it and it changed; intended, a change of kind is a removal of the old
   * attribute and then a set. Every patch is an attribute patch at `node`.
   */
  lemma {:induction false} KeyPatchesShape<K>(mode: Mode, oldA: map<string, Attr>, newA: map<string, Attr>, k: string, node: K)
    ensures |KeyPatches(mode, oldA, newA, k, node)| == 0 <==> !KeyChanged(oldA, newA, k)
    ensures mode == AsWritten ==> |KeyPatches(mode, oldA, newA, k, node)| == (if KeyChanged(oldA, newA, k) then 1 else 0)
    ensures k in oldA && k !in newA ==> KeyPatches(mode, oldA, newA, k, node) == [Patch(node, RemoveAttribute(oldA[k]))]
    ensures k in newA && KeyChanged(oldA, newA, k) && (mode == AsWritten || k !in oldA || oldA[k].kind == newA[k].kind)
            ==> KeyPatches(mode, oldA, newA, k, node) == [Patch(node, SetAttribute(newA[k]))]
    ensures mode == Intended && k in oldA && k in newA && oldA[k].kind != newA[k].kind
            ==> KeyPatches(mode, oldA, newA, k, node) == [Patch(node, RemoveAttribute(oldA[k])), Patch(node, SetAttribute(newA[k]))]
    ensures forall p :: p in KeyPatches(mode, oldA, newA, k, node) ==>
              p.node == node && (p.operation.RemoveAttribute? || p.operation.SetAttribute?)
  {
  }

  /** As written, for a duplicate-free enumeration, one patch per changed key and none for the others. */
  lemma {:induction false} KeysPatchesCount<K>(oldA: map<string, Attr>, newA: map<string, Attr>, ks: seq<string>, node: K)
    requires Keys.Distinct(ks)
    ensures |KeysPatches(AsWritten, oldA, newA, ks, node)| == |set k | k in ks && KeyChanged(oldA, newA, k)|
  {
    if ks != [] {
      var init, x := ks[..|ks| - 1], ks[|ks| - 1];
      DistinctInit(ks);
      KeysPatchesCount(oldA, newA, init, node);
      KeyPatchesShape(AsWritten, oldA, newA, x, node);
      ChangedAmongSnoc(oldA, newA, ks);
    }
  }

  lemma {:induction false} DistinctInit(ks: seq<string>)
    requires Keys.Distinct(ks) && ks != []
    ensures Keys.Distinct(ks[..|ks| - 1]) && ks[|ks| - 1] !in ks[..|ks| - 1]
  {
  }

  /** The changed keys among `ks`: those among all but the last, plus the last if it changed. */
  lemma {:induction false} ChangedAmongSnoc(oldA: map<string, Attr>, newA: map<string, Attr>, ks: seq<string>)
    requires ks != []
    ensures var init, x := ks[..|ks| - 1], ks[|ks| - 1];
            (set k | k in ks && KeyChanged(oldA, newA, k))
            == (set k | k in init && KeyChanged(oldA, newA, k)) + (if KeyChanged(oldA, newA, x) then {x} else {})
  {
    assert ks == ks[..|ks| - 1] + [ks[|ks| - 1]];
  }

  /** Every key of the enumeration contributes its patches. */
  lemma {:induction false} KeysPatchesIncludes<K>(mode: Mode, oldA: map<string, Attr>, newA: map<string, Attr>, ks: seq<string>, k: string, node: K)
    requires k in ks
    ensures forall p :: p in KeyPatches(mode, oldA, newA, k, node) ==> p in KeysPatches(mode, oldA, newA, ks, node)
  {
    var init, x := ks[..|ks| - 1], ks[|ks| - 1];
    assert ks == init + [x];
    if k != x {
      KeysPatchesIncludes(mode, oldA, newA, init, k, node);
    }
  }

  /** Every patch is part of the contribution of some key of the enumeration. */
  lemma {:induction false} KeysPatchesProvenance<K>(mode: Mode, oldA: map<string, Attr>, newA: map<string, Attr>, ks: seq<string>, p: Patch<K>, node: K)
    requires p in KeysPatches(mode, oldA, newA, ks, node)
    ensures exists k :: k in ks && p in KeyPatches(mode, oldA, newA, k, node)
  {
    var init, x := ks[..|ks| - 1], ks[|ks| - 1];
    assert ks == init + [x];
    if p in KeysPatches(mode, oldA, newA, init, node) {
      KeysPatchesProvenance(mode, oldA, newA, init, p, node);
      var k :| k in init && p in KeyPatches(mode, oldA, newA, k, node);
      assert k in ks;
    } else {
      assert p in KeyPatches(mode, oldA, newA, x, node);
    }
  }

  /** No patches for the keys `ks` exactly when none of them changed. */
  lemma {:induction false} KeysPatchesEmpty<K>(mode: Mode, oldA: map<string, Attr>, newA: map<string, Attr>, ks: seq<string>, node: K)
    ensures |KeysPatches(mode, oldA, newA, ks, node)| == 0 <==> forall k :: k in ks ==> !KeyChanged(oldA, newA, k)
  {
    if ks != [] {
      var init, x := ks[..|ks| - 1], ks[|ks| - 1];
      assert ks == init + [x];
      KeysPatchesEmpty(mode, oldA, newA, init, node);
      KeyPatchesShape(mode, oldA, newA, x, node);
    }
  }

  /**
   * `diff_attributes`, counted: as written, exactly one patch per changed
   * key. The proofs of this and the next three hold for any duplicate-free
   * enumeration of the keys, so none of them depends on the visiting order.
   */
  lemma {:induction false} AttributePatchesCount<K>(oldNode: VNode, newNode: VNode, node: K)
    ensures |AttributePatches(AsWritten, oldNode, newNode, node)| == |ChangedKeys(oldNode.attributes, newNode.attributes)|
  {
    var oldA, newA := oldNode.attributes, newNode.attributes;
    var ks := Keys.SortedKeys(KeyUnion(oldA, newA));
    Keys.SortedKeysEnumerates(KeyUnion(oldA, newA));
    KeysPatchesCount(oldA, newA, ks, node);
    assert (set k | k in ks && KeyChanged(oldA, newA, k)) == ChangedKeys(oldA, newA);
  }

  /**
   * `diff_attributes`, covered: a key only in old gives the removal of the
   * old attribute, a key only in new or with unequal attributes the set of
   * the new one.
   */
  lemma {:induction false} AttributePatchesCover<K>(mode: Mode, oldNode: VNode, newNode: VNode, node: K)
    ensures forall k :: k in oldNode.attributes && k !in newNode.attributes ==>
              Patch(node, RemoveAttribute(oldNode.attributes[k])) in AttributePatches(mode, oldNode, newNode, node)
    ensures forall k :: k in newNode.attributes && KeyChanged(oldNode.attributes, newNode.attributes, k) ==>
              Patch(node, SetAttribute(newNode.attributes[k])) in AttributePatches(mode, oldNode, newNode, node)
  {
    CoverRemoved(mode, oldNode, newNode, node);
    CoverSet(mode, oldNode, newNode, node);
  }

  lemma {:induction false} CoverRemoved<K>(mode: Mode, oldNode: VNode, newNode: VNode, node: K)
    ensures forall k :: k in oldNode.attributes && k !in newNode.attributes ==>
              Patch(node, RemoveAttribute(oldNode.attributes[k])) in AttributePatches(mode, oldNode, newNode, node)
  {
    var oldA, newA := oldNode.attributes, newNode.attributes;
    var ks := Keys.SortedKeys(KeyUnion(oldA, newA));
    Keys.SortedKeysEnumerates(KeyUnion(oldA, newA));
    forall k | k in oldA && k !in newA
      ensures Patch(node, RemoveAttribute(oldA[k])) in KeysPatches(mode, oldA, newA, ks, node)
    {
      assert KeyPatches(mode, oldA, newA, k, node) == [Patch(node, RemoveAttribute(oldA[k]))];
      KeysPatchesIncludes(mode, oldA, newA, ks, k, node);
    }
  }

  lemma {:induction false} CoverSet<K>(mode: Mode, oldNode: VNode, newNode: VNode, node: K)
    ensures forall k :: k in newNode.attributes && KeyChanged(oldNode.attributes, newNode.attributes, k) ==>
              Patch(node, SetAttribute(newNode.attributes[k])) in AttributePatches(mode, oldNode, newNode, node)
  {
    var oldA, newA := oldNode.attributes, newNode.attributes;
    var ks := Keys.SortedKeys(KeyUnion(oldA, newA));
    Keys.SortedKeysEnumerates(KeyUnion(oldA, newA));
    forall k | k in newA && KeyChanged(oldA, newA, k)
      ensures Patch(node, SetAttribute(newA[k])) in KeysPatches(mode, oldA, newA, ks, node)
    {
      var kp := KeyPatches(mode, oldA, newA, k, node);
      assert Patch(node, SetAttribute(newA[k])) in kp;
      KeysPatchesIncludes(mode, oldA, newA, ks, k, node);
    }
  }

  /**
   * `diff_attributes`, nothing else: every patch is an attribute patch at
   * the node's address, contributed by a changed key.
   */
  lemma {:induction false} AttributePatchesProvenance<K>(mode: Mode, oldNode: VNode, newNode: VNode, node: K)
    ensures forall p :: p in AttributePatches(mode, oldNode, newNode, node) ==>
              && p.node == node && (p.operation.RemoveAttribute? || p.operation.SetAttribute?)
              && exists k :: KeyChanged(oldNode.attributes, newNode.attributes, k)
                          && p in KeyPatches(mode, oldNode.attributes, newNode.attributes, k, node)
  {
    var oldA, newA := oldNode.attributes, newNode.attributes;
    var ks := Keys.SortedKeys(KeyUnion(oldA, newA));
    Keys.SortedKeysEnumerates(KeyUnion(oldA, newA));
    forall p | p in KeysPatches(mode, oldA, newA, ks, node)
      ensures p.node == node && (p.operation.RemoveAttribute? || p.operation.SetAttribute?)
      ensures exists k :: KeyChanged(oldA, newA, k) && p in KeyPatches(mode, oldA, newA, k, node)
    {
      KeysPatchesProvenance(mode, oldA, newA, ks, p, node);
      var k :| k in ks && p in KeyPatches(mode, oldA, newA, k, node);
      KeyPatchesShape(mode, oldA, newA, k, node);
    }
  }

  /** No attribute patch exactly when the attribute maps are equal. */
  lemma {:induction false} AttributePatchesEmptyIff<K>(mode: Mode, oldNode: VNode, newNode: VNode, node: K)
    ensures |AttributePatches(mode, oldNode, newNode, node)| == 0 <==> oldNode.attributes == newNode.attributes
  {
    var oldA, newA := oldNode.attributes, newNode.attributes;
    var ks := Keys.SortedKeys(KeyUnion(oldA, newA));
    Keys.SortedKeysEnumerates(KeyUnion(oldA, newA));
    KeysPatchesEmpty(mode, oldA, newA, ks, node);
    if oldA != newA && forall k :: k in ks ==> !KeyChanged(oldA, newA, k) {
      forall k | k in KeyUnion(oldA, newA)
        ensures k in oldA && k in newA && oldA[k] == newA[k]
      {
        assert k in ks && !KeyChanged(oldA, newA, k);
      }
      assert false;
    }
  }

  /** No shared key changes kind between the two attribute maps. */
  predicate SameKinds(oldA: map<string, Attr>, newA: map<string, Attr>)
  {
    forall k :: k in oldA && k in newA ==> oldA[k].kind == newA[k].kind
  }

  /** Where no key changes kind, the intended attribute diff is the one as written. */
  lemma {:induction false} KeysPatchesModesAgree<K>(oldA: map<string, Attr>, newA: map<string, Attr>, ks: seq<string>, node: K)
    requires SameKinds(oldA, newA)
    ensures KeysPatches(AsWritten, oldA, newA, ks, node) == KeysPatches(Intended, oldA, newA, ks, node)
  {
    if ks != [] {
      KeysPatchesModesAgree(oldA, newA, ks[..|ks| - 1], node);
    }
  }

  lemma {:induction false} AttributePatchesModesAgree<K>(oldNode: VNode, newNode: VNode, node: K)
    requires SameKinds(oldNode.attributes, newNode.attributes)
    ensures AttributePatches(AsWritten, oldNode, newNode, node) == AttributePatches(Intended, oldNode, newNode, node)
  {
    KeysPatchesModesAgree(oldNode.attributes, newNode.attributes,
                          Keys.SortedKeys(KeyUnion(oldNode.attributes, newNode.attributes)), node);
  }

  // ---------------------------------------------------------------------
  // Shape of one node's patches
  // ---------------------------------------------------------------------

  /**
   * A tag change replaces the node and emits nothing else; as written the
   * counter stays where it is, intended it moves past the old subtree.
   */
  lemma {:induction false} NodeDiffTagChange(mode: Mode, oldNode: VNode, newNode: VNode, index: int)
    requires oldNode.tag != newNode.tag
    ensures NodeDiff(mode, oldNode, newNode, index).patches == [Patch(index, ReplaceNode(newNode))]
    ensures mode == AsWritten ==> NodeDiff(mode, oldNode, newNode, index).next == index
    ensures mode == Intended ==> NodeDiff(mode, oldNode, newNode, index).next == index + CountChildren(oldNode.children)
  {
  }

  /**
   * With equal tags, the node's own patches (the attribute patches, then the
   * count patch) come first, and every patch after them is at a larger
   * address: a parent's patches precede its descendants'.
   */
  lemma {:induction false} NodeDiffOwnPatchesFirst(mode: Mode, oldNode: VNode, newNode: VNode, index: int)
    requires oldNode.tag == newNode.tag
    ensures var ps := NodeDiff(mode, oldNode, newNode, index).patches;
            var own := AttributePatches(mode, oldNode, newNode, index) + CountPatches(oldNode, newNode, index);
            && |own| <= |ps| && ps[..|own|] == own
            && forall a :: |own| <= a < |ps| ==> ps[a].node > index
  {
    var m := Min(|oldNode.children|, |newNode.children|);
    var own := AttributePatches(mode, oldNode, newNode, index) + CountPatches(oldNode, newNode, index);
    var pairs := PairsDiff(mode, oldNode, newNode, m, index).patches;
    PairsDiffAscending(mode, oldNode, newNode, m, index);
    ConcatAssoc(AttributePatches(mode, oldNode, newNode, index), CountPatches(oldNode, newNode, index), pairs);
    ConcatPrefix(own, pairs);
  }

  /**
   * The count patch: a shrinking child list gets `RemoveLast(old - new)` at
   * the parent, a growing one `Append` of the new trailing children, equal
   * lengths neither; no other patch at that address is a removal or append.
   */
  lemma {:induction false} NodeDiffCountPatch(mode: Mode, oldNode: VNode, newNode: VNode, index: int)
    requires oldNode.tag == newNode.tag
    ensures var ps := NodeDiff(mode, oldNode, newNode, index).patches;
            var oldLen, newLen := |oldNode.children|, |newNode.children|;
            && (oldLen > newLen ==> Patch(index, RemoveLast(oldLen - newLen)) in ps)
            && (oldLen < newLen ==> Patch(index, Append(newNode.children[oldLen..])) in ps)
            && (forall p :: p in ps && p.node == index && p.operation.RemoveLast? ==>
                  oldLen > newLen && p.operation.count == oldLen - newLen)
            && (forall p :: p in ps && p.node == index && p.operation.Append? ==>
                  oldLen < newLen && p.operation.children == newNode.children[oldLen..])
  {
    NodeDiffPatchesAtOwnAddress(mode, oldNode, newNode, index);
    NodeDiffOwnPatchesFirst(mode, oldNode, newNode, index);
    AttributePatchesProvenance(mode, oldNode, newNode, index);
    var ps := NodeDiff(mode, oldNode, newNode, index).patches;
    var attrs := AttributePatches(mode, oldNode, newNode, index);
    var count := CountPatches(oldNode, newNode, index);
    if count != [] {
      assert ps[|attrs|] == ps[..|attrs + count|][|attrs|] == (attrs + count)[|attrs|] == count[0];
    }
  }

  /** The patches at the node's own address are its attribute and count patches. */
  lemma {:induction false} NodeDiffPatchesAtOwnAddress(mode: Mode, oldNode: VNode, newNode: VNode, index: int)
    requires oldNode.tag == newNode.tag
    ensures forall p :: p in NodeDiff(mode, oldNode, newNode, index).patches && p.node == index ==>
              p in AttributePatches(mode, oldNode, newNode, index) || p in CountPatches(oldNode, newNode, index)
  {
    NodeDiffOwnPatchesFirst(mode, oldNode, newNode, index);
    var ps := NodeDiff(mode, oldNode, newNode, index).patches;
    var own := AttributePatches(mode, oldNode, newNode, index) + CountPatches(oldNode, newNode, index);
    forall p | p in ps && p.node == index
      ensures p in own
    {
      var a :| 0 <= a < |ps| && ps[a] == p;
      assert a < |own|;
      assert ps[..|own|][a] == p;
    }
  }

  // ---------------------------------------------------------------------
  // No patches exactly for equal trees
  // ---------------------------------------------------------------------

  /** The first `k` shared pairs are equal. */
  predicate PairsEq(oldNode: VNode, newNode: VNode, k: nat)
    requires k <= |oldNode.children| && k <= |newNode.children|
  {
    k == 0 || (PairsEq(oldNode, newNode, k - 1) && ChildEq(oldNode.children[k - 1], newNode.children[k - 1]))
  }

  lemma {:induction false} PairsEqAll(oldNode: VNode, newNode: VNode, k: nat)
    requires k <= |oldNode.children| && k <= |newNode.children|
    ensures PairsEq(oldNode, newNode, k) <==> forall j :: 0 <= j < k ==> ChildEq(oldNode.children[j], newNode.children[j])
  {
    if k > 0 {
      PairsEqAll(oldNode, newNode, k - 1);
    }
  }

  /** No patches for a node pair only if the nodes are equal. */
  lemma {:induction false} NodeDiffEmptyOnlyIfEqual(mode: Mode, oldNode: VNode, newNode: VNode, index: int)
    requires |NodeDiff(mode, oldNode, newNode, index).patches| == 0
    ensures NodeEq(oldNode, newNode)
    decreases oldNode, 2
  {
    var m := Min(|oldNode.children|, |newNode.children|);
    AttributePatchesEmptyIff(mode, oldNode, newNode, index);
    PairsDiffEmptyOnlyIfEqual(mode, oldNode, newNode, m, index);
    PairsEqAll(oldNode, newNode, m);
  }

  lemma {:induction false} PairsDiffEmptyOnlyIfEqual(mode: Mode, oldNode: VNode, newNode: VNode, k: nat, index: int)
    requires k <= |oldNode.children| && k <= |newNode.children|
    requires |PairsDiff(mode, oldNode, newNode, k, index).patches| == 0
    ensures PairsEq(oldNode, newNode, k)
    decreases oldNode, 0, k
  {
    if k > 0 {
      var j := k - 1;
      var d := PairsDiff(mode, oldNode, newNode, j, index);
      var e := PairDiff(mode, oldNode.children[j], newNode.children[j], d.next + 1);
      assert PairsDiff(mode, oldNode, newNode, j + 1, index).patches == d.patches + e.patches by {
        PairsDiffStep(mode, oldNode, newNode, j, index);
      }
      PairsDiffEmptyOnlyIfEqual(mode, oldNode, newNode, j, index);
      PairDiffEmptyOnlyIfEqual(mode, oldNode.children[j], newNode.children[j], d.next + 1);
    }
  }

  lemma {:induction false} PairDiffEmptyOnlyIfEqual(mode: Mode, oldChild: Child, newChild: Child, index: int)
    requires |PairDiff(mode, oldChild, newChild, index).patches| == 0
    ensures ChildEq(oldChild, newChild)
    decreases oldChild
  {
    if oldChild.Node? && newChild.Node? {
      NodeDiffEmptyOnlyIfEqual(mode, oldChild.node, newChild.node, index);
    }
  }

  /** Equal nodes give no patches. */
  lemma {:induction false} NodeDiffEmptyIfEqual(mode: Mode, oldNode: VNode, newNode: VNode, index: int)
    requires NodeEq(oldNode, newNode)
    ensures |NodeDiff(mode, oldNode, newNode, index).patches| == 0
    decreases oldNode, 2
  {
    var m := Min(|oldNode.children|, |newNode.children|);
    AttributePatchesEmptyIff(mode, oldNode, newNode, index);
    PairsEqAll(oldNode, newNode, m);
    PairsDiffEmptyIfEqual(mode, oldNode, newNode, m, index);
  }

  lemma {:induction false} PairsDiffEmptyIfEqual(mode: Mode, oldNode: VNode, newNode: VNode, k: nat, index: int)
    requires k <= |oldNode.children| && k <= |newNode.children|
    requires PairsEq(oldNode, newNode, k)
    ensures |PairsDiff(mode, oldNode, newNode, k, index).patches| == 0
    decreases oldNode, 0, k
  {
    if k > 0 {
      var j := k - 1;
      var d := PairsDiff(mode, oldNode, newNode, j, index);
      var e := PairDiff(mode, oldNode.children[j], newNode.children[j], d.next + 1);
      assert PairsDiff(mode, oldNode, newNode, j + 1, index).patches == d.patches + e.patches by {
        PairsDiffStep(mode, oldNode, newNode, j, index);
      }
      PairsDiffEmptyIfEqual(mode, oldNode, newNode, j, index);
      PairDiffEmptyIfEqual(mode, oldNode.children[j], newNode.children[j], d.next + 1);
    }
  }

  lemma {:induction false} PairDiffEmptyIfEqual(mode: Mode, oldChild: Child, newChild: Child, index: int)
    requires ChildEq(oldChild, newChild)
    ensures |PairDiff(mode, oldChild, newChild, index).patches| == 0
    decreases oldChild
  {
    if oldChild.Node? {
      NodeDiffEmptyIfEqual(mode, oldChild.node, newChild.node, index);
    }
  }

  /** `diff` returns nothing exactly when the trees are equal (listeners aside). */
  lemma {:induction false} DiffEmptyIffEqual(mode: Mode, oldNode: VNode, newNode: VNode)
    ensures |NodeDiff(mode, oldNode, newNode, 0).patches| == 0 <==> NodeEq(oldNode, newNode)
  {
    if |NodeDiff(mode, oldNode, newNode, 0).patches| == 0 {
      NodeDiffEmptyOnlyIfEqual(mode, oldNode, newNode, 0);
    }
    if NodeEq(oldNode, newNode) {
      NodeDiffEmptyIfEqual(mode, oldNode, newNode, 0);
    }
  }

  // ---------------------------------------------------------------------
  // Addresses and the counter
  // ---------------------------------------------------------------------

  /** The counter never moves back and never passes the old subtree. */
  lemma {:induction false} NodeDiffCounterBounds(mode: Mode, oldNode: VNode, newNode: VNode, index: int)
    ensures index <= NodeDiff(mode, oldNode, newNode, index).next <= index + CountChildren(oldNode.children)
    decreases oldNode, 2
  {
    if oldNode.tag == newNode.tag {
      var m := Min(|oldNode.children|, |newNode.children|);
      PairsDiffCounterBounds(mode, oldNode, newNode, m, index);
      CountChildrenSplit(oldNode.children, m);
    }
  }

  lemma {:induction false} PairsDiffCounterBounds(mode: Mode, oldNode: VNode, newNode: VNode, k: nat, index: int)
    requires k <= |oldNode.children| && k <= |newNode.children|
    ensures index + k <= PairsDiff(mode, oldNode, newNode, k, index).next <= index + CountChildren(oldNode.children[..k])
    decreases oldNode, 0, k
  {
    if k > 0 {
      var j := k - 1;
      var d := PairsDiff(mode, oldNode, newNode, j, index);
      var e := PairDiff(mode, oldNode.children[j], newNode.children[j], d.next + 1);
      var before, grown := CountChildren(oldNode.children[..j]), Descendants(oldNode.children[j]);
      assert PairsDiff(mode, oldNode, newNode, k, index).next == e.next by {
        PairsDiffStep(mode, oldNode, newNode, j, index);
      }
      assert index + j <= d.next <= index + before by {
        PairsDiffCounterBounds(mode, oldNode, newNode, j, index);
      }
      assert d.next + 1 <= e.next <= d.next + 1 + grown by {
        PairDiffCounterBounds(mode, oldNode.children[j], newNode.children[j], d.next + 1);
      }
      assert CountChildren(oldNode.children[..k]) == before + 1 + grown by {
        CountChildrenTake(oldNode.children, k);
      }
    }
  }

  lemma {:induction false} PairDiffCounterBounds(mode: Mode, oldChild: Child, newChild: Child, index: int)
    ensures index <= PairDiff(mode, oldChild, newChild, index).next <= index + Descendants(oldChild)
    decreases oldChild
  {
    if oldChild.Node? && newChild.Node? {
      NodeDiffCounterBounds(mode, oldChild.node, newChild.node, index);
    }
  }

  /**
   * Addresses never decrease and lie between the node's address and the
   * counter's final value.
   */
  lemma {:induction false} NodeDiffAscending(mode: Mode, oldNode: VNode, newNode: VNode, index: int)
    ensures Ascending(NodeDiff(mode, oldNode, newNode, index).patches)
    ensures Within(NodeDiff(mode, oldNode, newNode, index).patches, index, NodeDiff(mode, oldNode, newNode, index).next)
    ensures index <= NodeDiff(mode, oldNode, newNode, index).next
    decreases oldNode, 2
  {
    if oldNode.tag == newNode.tag {
      var m := Min(|oldNode.children|, |newNode.children|);
      var pairs := PairsDiff(mode, oldNode, newNode, m, index);
      var own := AttributePatches(mode, oldNode, newNode, index) + CountPatches(oldNode, newNode, index);
      assert Ascending(pairs.patches) && Within(pairs.patches, index + 1, pairs.next) && index <= pairs.next by {
        PairsDiffAscending(mode, oldNode, newNode, m, index);
      }
      ConcatAssoc(AttributePatches(mode, oldNode, newNode, index), CountPatches(oldNode, newNode, index), pairs.patches);
      OwnPatchesAtIndex(mode, oldNode, newNode, index);
      AscendingConcat(own, pairs.patches, index, index, index + 1, pairs.next);
    }
  }

  /** A node's own patches are all at its address. */
  lemma {:induction false} OwnPatchesAtIndex(mode: Mode, oldNode: VNode, newNode: VNode, index: int)
    ensures var own := AttributePatches(mode, oldNode, newNode, index) + CountPatches(oldNode, newNode, index);
            Ascending(own) && Within(own, index, index)
  {
    AttributePatchesProvenance(mode, oldNode, newNode, index);
    var own := AttributePatches(mode, oldNode, newNode, index) + CountPatches(oldNode, newNode, index);
    forall a | 0 <= a < |own| ensures own[a].node == index {
      assert own[a] in AttributePatches(mode, oldNode, newNode, index) || own[a] in CountPatches(oldNode, newNode, index);
    }
  }

  lemma {:induction false} PairsDiffAscending(mode: Mode, oldNode: VNode, newNode: VNode, k: nat, index: int)
    requires k <= |oldNode.children| && k <= |newNode.children|
    ensures Ascending(PairsDiff(mode, oldNode, newNode, k, index).patches)
    ensures Within(PairsDiff(mode, oldNode, newNode, k, index).patches, index + 1, PairsDiff(mode, oldNode, newNode, k, index).next)
    ensures index <= PairsDiff(mode, oldNode, newNode, k, index).next
    decreases oldNode, 0, k
  {
    if k > 0 {
      PairsDiffAscending(mode, oldNode, newNode, k - 1, index);
      PairsAscendingStep(mode, oldNode, newNode, k - 1, index);
    }
  }

  /** One more shared pair keeps the addresses ascending and within the counter's range. */
  lemma {:induction false} PairsAscendingStep(mode: Mode, oldNode: VNode, newNode: VNode, j: nat, index: int)
    requires j < |oldNode.children| && j < |newNode.children|
    requires Ascending(PairsDiff(mode, oldNode, newNode, j, index).patches)
    requires Within(PairsDiff(mode, oldNode, newNode, j, index).patches, index + 1, PairsDiff(mode, oldNode, newNode, j, index).next)
    requires index <= PairsDiff(mode, oldNode, newNode, j, index).next
    ensures Ascending(PairsDiff(mode, oldNode, newNode, j + 1, index).patches)
    ensures Within(PairsDiff(mode, oldNode, newNode, j + 1, index).patches, index + 1, PairsDiff(mode, oldNode, newNode, j + 1, index).next)
    ensures index <= PairsDiff(mode, oldNode, newNode, j + 1, index).next
    decreases oldNode, 0, j
  {
    var r := PairsDiff(mode, oldNode, newNode, j + 1, index);
    var d := PairsDiff(mode, oldNode, newNode, j, index);
    var c := oldNode.children[j];
    var e := PairDiff(mode, c, newNode.children[j], d.next + 1);
    PairsDiffStep(mode, oldNode, newNode, j, index);
    PairDiffAscending(mode, c, newNode.children[j], d.next + 1);
    AscendingJoin(r, d, e, index + 1);
  }

  lemma {:induction false} PairDiffAscending(mode: Mode, oldChild: Child, newChild: Child, index: int)
    ensures Ascending(PairDiff(mode, oldChild, newChild, index).patches)
    ensures Within(PairDiff(mode, oldChild, newChild, index).patches, index, PairDiff(mode, oldChild, newChild, index).next)
    ensures index <= PairDiff(mode, oldChild, newChild, index).next
    decreases oldChild
  {
    if oldChild.Node? && newChild.Node? {
      NodeDiffAscending(mode, oldChild.node, newChild.node, index);
    }
  }

  /**
   * `diff`: addresses start at 0, never decrease, and stay below the number
   * of nodes in the old tree, `1 + count_children(old.children)`.
   */
  lemma {:induction false} DiffAddresses(mode: Mode, oldNode: VNode, newNode: VNode)
    ensures var ps := NodeDiff(mode, oldNode, newNode, 0).patches;
            Ascending(ps) && Within(ps, 0, CountChildren(oldNode.children))
  {
    NodeDiffCounterBounds(mode, oldNode, newNode, 0);
    NodeDiffAscending(mode, oldNode, newNode, 0);
  }

  /**
   * No short-circuit below the node discards old descendants: wherever a
   * shared pair is replaced wholesale (a tag change, or a text over a node),
   * the old node has no children.
   */
  predicate SyncedBelow(oldNode: VNode, newNode: VNode)
    decreases oldNode
  {
    oldNode.tag == newNode.tag ==>
      forall k :: 0 <= k < |oldNode.children| && k < |newNode.children| ==>
        ChildSynced(oldNode.children[k], newNode.children[k])
  }

  predicate ChildSynced(oldChild: Child, newChild: Child)
    decreases oldChild
  {
    match oldChild
    case Text(_) => true
    case Node(o) =>
      match newChild
      case Text(_) => o.children == []
      case Node(n) => (o.tag != n.tag ==> o.children == []) && SyncedBelow(o, n)
  }

  /**
   * No shared attribute key changes kind wherever the diff compares the
   * attributes of two nodes.
   */
  predicate KindsKept(oldNode: VNode, newNode: VNode)
    decreases oldNode
  {
    oldNode.tag == newNode.tag ==>
      && SameKinds(oldNode.attributes, newNode.attributes)
      && forall k :: 0 <= k < |oldNode.children| && k < |newNode.children| ==>
           ChildKindsKept(oldNode.children[k], newNode.children[k])
  }

  predicate ChildKindsKept(oldChild: Child, newChild: Child)
    decreases oldChild
  {
    oldChild.Node? && newChild.Node? ==> KindsKept(oldChild.node, newChild.node)
  }

  /**
   * The claim of src/diff.rs:138-139, as written, under the hypothesis that
   * makes it true: the counter ends exactly past the old subtree.
   */
  lemma {:induction false} NodeDiffCounterSynced(oldNode: VNode, newNode: VNode, index: int)
    requires oldNode.tag == newNode.tag && SyncedBelow(oldNode, newNode)
    ensures NodeDiff(AsWritten, oldNode, newNode, index).next == index + CountChildren(oldNode.children)
    decreases oldNode, 2
  {
    var m := Min(|oldNode.children|, |newNode.children|);
    PairsSyncedAll(oldNode, newNode, m);
    PairsDiffCounterSynced(oldNode, newNode, m, index);
    CountChildrenSplit(oldNode.children, m);
  }

  /** The first `k` shared pairs are in sync. */
  predicate PairsSynced(oldNode: VNode, newNode: VNode, k: nat)
    requires k <= |oldNode.children| && k <= |newNode.children|
  {
    k == 0 || (PairsSynced(oldNode, newNode, k - 1) && ChildSynced(oldNode.children[k - 1], newNode.children[k - 1]))
  }

  lemma {:induction false} PairsSyncedAll(oldNode: VNode, newNode: VNode, k: nat)
    requires k <= |oldNode.children| && k <= |newNode.children|
    ensures PairsSynced(oldNode, newNode, k) <==> forall j :: 0 <= j < k ==> ChildSynced(oldNode.children[j], newNode.children[j])
  {
    if k > 0 {
      PairsSyncedAll(oldNode, newNode, k - 1);
    }
  }


  /** In sync, shared pair `j` is compared at `index + 1 + count_children(old.children[..j])`. */
  lemma {:induction false} PairsDiffCounterSynced(oldNode: VNode, newNode: VNode, k: nat, index: int)
    requires k <= |oldNode.children| && k <= |newNode.children|
    requires PairsSynced(oldNode, newNode, k)
    ensures PairsDiff(AsWritten, oldNode, newNode, k, index).next == index + CountChildren(oldNode.children[..k])
    decreases oldNode, 0, k
  {
    if k > 0 {
      var j := k - 1;
      var c := oldNode.children[j];
      var d := PairsDiff(AsWritten, oldNode, newNode, j, index);
      PairsDiffCounterSynced(oldNode, newNode, j, index);
      var e := PairDiff(AsWritten, c, newNode.children[j], d.next + 1);
      assert PairsDiff(AsWritten, oldNode, newNode, j + 1, index).next == e.next by {
        PairsDiffStep(AsWritten, oldNode, newNode, j, index);
      }
      PairDiffCounterSynced(c, newNode.children[j], d.next + 1);
      CountChildrenTake(oldNode.children, k);
    }
  }

  lemma {:induction false} PairDiffCounterSynced(oldChild: Child, newChild: Child, index: int)
    requires ChildSynced(oldChild, newChild)
    ensures PairDiff(AsWritten, oldChild, newChild, index).next == index + Descendants(oldChild)
    decreases oldChild
  {
    if oldChild.Node? && newChild.Node? && oldChild.node.tag == newChild.node.tag {
      NodeDiffCounterSynced(oldChild.node, newChild.node, index);
    }
  }

  /**
   * With the counter moved past every subtree replaced wholesale, the claim
   * of src/diff.rs:138-139 holds for all trees.
   */
  lemma {:induction false} NodeDiffCounterIntended(oldNode: VNode, newNode: VNode, index: int)
    ensures NodeDiff(Intended, oldNode, newNode, index).next == index + CountChildren(oldNode.children)
    decreases oldNode, 2
  {
    if oldNode.tag == newNode.tag {
      var m := Min(|oldNode.children|, |newNode.children|);
      PairsDiffCounterIntended(oldNode, newNode, m, index);
      CountChildrenSplit(oldNode.children, m);
    }
  }

  lemma {:induction false} PairsDiffCounterIntended(oldNode: VNode, newNode: VNode, k: nat, index: int)
    requires k <= |oldNode.children| && k <= |newNode.children|
    ensures PairsDiff(Intended, oldNode, newNode, k, index).next == index + CountChildren(oldNode.children[..k])
    decreases oldNode, 0, k
  {
    if k > 0 {
      var j := k - 1;
      var c := oldNode.children[j];
      var d := PairsDiff(Intended, oldNode, newNode, j, index);
      PairsDiffCounterIntended(oldNode, newNode, j, index);
      var e := PairDiff(Intended, c, newNode.children[j], d.next + 1);
      assert PairsDiff(Intended, oldNode, newNode, j + 1, index).next == e.next by {
        PairsDiffStep(Intended, oldNode, newNode, j, index);
      }
      PairDiffCounterIntended(c, newNode.children[j], d.next + 1);
      CountChildrenTake(oldNode.children, k);
    }
  }

  lemma {:induction false} PairDiffCounterIntended(oldChild: Child, newChild: Child, index: int)
    ensures PairDiff(Intended, oldChild, newChild, index).next == index + Descendants(oldChild)
    decreases oldChild
  {
    if oldChild.Node? && newChild.Node? {
      NodeDiffCounterIntended(oldChild.node, newChild.node, index);
    }
  }
}
