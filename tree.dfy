/**
 * The virtual tree: nodes, children, attributes, listeners, the builder
 * operations that fill a node in place, and the structural equality used to
 * detect change (src/node.rs, src/attribute.rs, src/events.rs).
 */
module Tree {

  /** A host-representable value (a JavaScript value); only equality is used. */
  type Value(==)

  /** The closure that maps a host event to an application message. */
  type Mapper(==)

  /** Attributes go through setAttribute, properties through direct assignment. */
  datatype AttrKind = Attribute | Property

  datatype Attr = Attr(kind: AttrKind, key: string, value: Value)

  /** An event listener, keyed by its event type. */
  datatype Listener = Listener(event: string, mapper: Mapper)

  datatype VNode = VNode(
    tag: string,
    attributes: map<string, Attr>,
    children: seq<Child>,
    listeners: seq<Listener>)

  datatype Child = Text(text: string) | Node(node: VNode)

  /** Child equality: variant-sensitive and structural. */
  predicate ChildEq(a: Child, b: Child)
    decreases a
  {
    match a
    case Text(s) => b.Text? && s == b.text
    case Node(m) => b.Node? && NodeEq(m, b.node)
  }

  /**
   * Node equality: equal tags, equal attribute maps, equal child counts and
   * pairwise-equal children. Listeners take no part in it.
   */
  predicate NodeEq(a: VNode, b: VNode)
    decreases a
  {
    && a.tag == b.tag
    && a.attributes == b.attributes
    && |a.children| == |b.children|
    && forall k :: 0 <= k < |a.children| ==> ChildEq(a.children[k], b.children[k])
  }

  /** The node with every listener, at every depth, dropped. */
  function Strip(n: VNode): (r: VNode)
    ensures r.listeners == [] && r.tag == n.tag && r.attributes == n.attributes
    ensures |r.children| == |n.children|
    decreases n
  {
    VNode(n.tag, n.attributes, seq(|n.children|, k requires 0 <= k < |n.children| => StripChild(n.children[k])), [])
  }

  function StripChild(c: Child): (r: Child)
    ensures r.Text? == c.Text?
    decreases c
  {
    match c
    case Text(s) => Text(s)
    case Node(m) => Node(Strip(m))
  }

  lemma {:induction false} ChildEqIsStrippedEquality(a: Child, b: Child)
    ensures ChildEq(a, b) <==> StripChild(a) == StripChild(b)
    decreases a
  {
    match a
    case Text(s) =>
    case Node(m) =>
      if b.Node? {
        NodeEqIsStrippedEquality(m, b.node);
      }
  }

  /**
   * Node equality is exactly equality of the listener-free trees; so it is
   * reflexive, symmetric and transitive, and ignores listeners.
   */
  lemma {:induction false} NodeEqIsStrippedEquality(a: VNode, b: VNode)
    ensures NodeEq(a, b) <==> Strip(a) == Strip(b)
    decreases a
  {
    forall k | 0 <= k < |a.children| && k < |b.children|
      ensures ChildEq(a.children[k], b.children[k]) <==> StripChild(a.children[k]) == StripChild(b.children[k])
    {
      ChildEqIsStrippedEquality(a.children[k], b.children[k]);
    }
    if Strip(a) == Strip(b) {
      forall k | 0 <= k < |a.children|
        ensures StripChild(a.children[k]) == StripChild(b.children[k])
      {
        assert Strip(a).children[k] == Strip(b).children[k];
      }
    }
    if NodeEq(a, b) {
      assert Strip(a).children == Strip(b).children;
    }
  }

  lemma {:induction false} NodeEqReflexive(a: VNode)
    ensures NodeEq(a, a)
  {
    NodeEqIsStrippedEquality(a, a);
  }

  lemma {:induction false} NodeEqSymmetric(a: VNode, b: VNode)
    ensures NodeEq(a, b) <==> NodeEq(b, a)
  {
    NodeEqIsStrippedEquality(a, b);
    NodeEqIsStrippedEquality(b, a);
  }

  lemma {:induction false} NodeEqTransitive(a: VNode, b: VNode, c: VNode)
    requires NodeEq(a, b) && NodeEq(b, c)
    ensures NodeEq(a, c)
  {
    NodeEqIsStrippedEquality(a, b);
    NodeEqIsStrippedEquality(b, c);
    NodeEqIsStrippedEquality(a, c);
  }

  /** Two nodes that differ only in their listeners are equal. */
  lemma {:induction false} NodeEqIgnoresListeners(a: VNode, ls: seq<Listener>)
    ensures NodeEq(a, a.(listeners := ls))
  {
    NodeEqIsStrippedEquality(a, a.(listeners := ls));
  }

  /** `PartialEq for Child`: a match on the pair of variants. */
  method ChildEquals(a: Child, b: Child) returns (r: bool)
    ensures r == ChildEq(a, b)
    decreases a
  {
    match a
    case Text(s) =>
      r := b.Text? && s == b.text;
    case Node(m) =>
      if b.Node? {
        r := NodeEquals(m, b.node);
      } else {
        r := false;
      }
  }

  /**
   * `PartialEq for Node`: tags, attribute maps and child counts, then a loop
   * over the zipped children that returns false at the first unequal pair.
   */
  method NodeEquals(a: VNode, b: VNode) returns (r: bool)
    ensures r == NodeEq(a, b)
    decreases a
  {
    if a.tag != b.tag || a.attributes != b.attributes || |a.children| != |b.children| {
      return false;
    }
    for k := 0 to |a.children|
      invariant forall j :: 0 <= j < k ==> ChildEq(a.children[j], b.children[j])
    {
      var same := ChildEquals(a.children[k], b.children[k]);
      if !same {
        return false;
      }
    }
    return true;
  }

  /** `ne` is the negation of `eq`. */
  method NodeNotEquals(a: VNode, b: VNode) returns (r: bool)
    ensures r == !NodeEq(a, b)
  {
    var same := NodeEquals(a, b);
    r := !same;
  }

  /** Every attribute is stored under its own key. */
  predicate KeyedByOwnKey(attributes: map<string, Attr>)
  {
    forall k :: k in attributes ==> attributes[k].key == k
  }

  /** `Node::wrap_in`: each thing becomes a `Child::Node`, in order. */
  function WrapIn(tag: string, things: seq<VNode>): (r: VNode)
    ensures r.tag == tag && r.attributes == map[] && r.listeners == []
    ensures |r.children| == |things|
    ensures forall k :: 0 <= k < |things| ==> r.children[k] == Node(things[k])
  {
    VNode(tag, map[], seq(|things|, k requires 0 <= k < |things| => Node(things[k])), [])
  }

  /** `FromIterator for Node`: wraps the nodes in a fresh "div". */
  function FromIter(things: seq<VNode>): (r: VNode)
    ensures r.tag == "div" && r.attributes == map[] && r.listeners == []
    ensures |r.children| == |things|
    ensures forall k :: 0 <= k < |things| ==> r.children[k] == Node(things[k])
  {
    WrapIn("div", things)
  }

  /** The nodes of a sequence of node children, in order. */
  function NodesOf(children: seq<Child>): seq<VNode>
    requires forall c :: c in children ==> c.Node?
  {
    seq(|children|, k requires 0 <= k < |children| => children[k].node)
  }

  /** Wrapping and unwrapping the children round-trips, whatever the order. */
  lemma {:induction false} WrapInRoundTrip(tag: string, things: seq<VNode>)
    ensures forall c :: c in WrapIn(tag, things).children ==> c.Node?
    ensures NodesOf(WrapIn(tag, things).children) == things
  {
  }

  /**
   * A node under construction: the fields the source's `&mut self` methods
   * push to and insert into.
   */
  class NodeBuilder {
    var tag: string
    var attributes: map<string, Attr>
    var children: seq<Child>
    var listeners: seq<Listener>

    /** The node built so far. */
    function Value(): VNode
      reads this
    {
      VNode(tag, attributes, children, listeners)
    }

    /** `Node::new`: the tag, and no attributes, children or listeners. */
    constructor (tag: string)
      ensures Value() == VNode(tag, map[], [], [])
    {
      this.tag := tag;
      attributes := map[];
      children := [];
      listeners := [];
    }

    method AddEventListener(listener: Listener)
      modifies this
      ensures listeners == old(listeners) + [listener]
      ensures tag == old(tag) && attributes == old(attributes) && children == old(children)
    {
      listeners := listeners + [listener];
    }

    /** Pushes one `Child::Node` at the end; earlier children are unchanged. */
    method AppendChild(node: VNode)
      modifies this
      ensures children == old(children) + [Node(node)]
      ensures tag == old(tag) && attributes == old(attributes) && listeners == old(listeners)
    {
      children := children + [Node(node)];
    }

    /** Pushes one `Child::Text` at the end; earlier children are unchanged. */
    method AppendString(text: string)
      modifies this
      ensures children == old(children) + [Text(text)]
      ensures tag == old(tag) && attributes == old(attributes) && listeners == old(listeners)
    {
      children := children + [Text(text)];
    }

    /**
     * Stores the attribute under its own key, overwriting any previous entry
     * for that key; other keys keep their entries.
     */
    method AddAttribute(attribute: Attr)
      modifies this
      ensures attributes.Keys == old(attributes).Keys + {attribute.key}
      ensures attributes[attribute.key] == attribute
      ensures forall k :: k in old(attributes) && k != attribute.key ==> attributes[k] == old(attributes)[k]
      ensures KeyedByOwnKey(old(attributes)) ==> KeyedByOwnKey(attributes)
      ensures tag == old(tag) && children == old(children) && listeners == old(listeners)
    {
      attributes := attributes[attribute.key := attribute];
    }
  }
}
