/** dom/documentfragment.c, `php_dom_xmlSetTreeDoc`: giving a parsed tree its document. */
module DomTree {
  class Document {}

  datatype NodeType = Element | Text | CDataSection | EntityReference | Comment | ProcessingInstruction

  class Node {
    var kind: NodeType
    var doc: Document?
    var children: Node?
    var next: Node?
    var properties: Attr?
  }

  class Attr {
    var doc: Document?
    var children: Node?
    var next: Attr?
  }

  /** The links of a finite structure, as a value. Ranks fall along every link,
      so following links ends; that nodes are shared is not excluded. Only
      elements have properties. */
  datatype Links = Links(
    children: map<Node, Node?>,
    next: map<Node, Node?>,
    properties: map<Node, Attr?>,
    attrChildren: map<Attr, Node?>,
    attrNext: map<Attr, Attr?>,
    rank: map<object?, nat>
  ) {
    ghost function Height(x: object?): nat {
      if x == null || x !in rank then 0 else rank[x] + 1
    }

    ghost predicate Falls(from: object, to: object?) {
      Height(to) < Height(from)
    }

    ghost predicate IsNode(n: Node?) {
      n != null ==> n in children
    }

    ghost predicate IsAttr(a: Attr?) {
      a != null ==> a in attrChildren
    }

    ghost predicate Finite() {
      && children.Keys == next.Keys == properties.Keys && attrChildren.Keys == attrNext.Keys
      && (forall n :: n in children ==> IsNode(children[n]) && Falls(n, children[n]))
      && (forall n :: n in next ==> IsNode(next[n]) && Falls(n, next[n]))
      && (forall n :: n in properties ==> IsAttr(properties[n]) && Falls(n, properties[n]))
      && (forall a :: a in attrChildren ==> IsNode(attrChildren[a]) && Falls(a, attrChildren[a]))
      && (forall a :: a in attrNext ==> IsAttr(attrNext[a]) && Falls(a, attrNext[a]))
    }

    /** A node, its attributes, and everything under them; not its siblings. */
    ghost function Subtree(n: Node): set<object>
      requires Finite() && n in children
      decreases Height(n), 0
    {
      {n} + Attributes(properties[n]) + Siblings(children[n])
    }

    ghost function Siblings(n: Node?): set<object>
      requires Finite() && IsNode(n)
      decreases Height(n), 1
    {
      if n == null then {} else Subtree(n) + Siblings(next[n])
    }

    ghost function Attributes(a: Attr?): set<object>
      requires Finite() && IsAttr(a)
      decreases Height(a), 1
    {
      if a == null then {} else {a} + Siblings(attrChildren[a]) + Attributes(attrNext[a])
    }

    /** Follows every link of its members. */
    ghost predicate Closed(s: set<object>)
      requires Finite()
    {
      && (forall n :: n in children && n in s ==> Holds(s, children[n]) && Holds(s, properties[n]) && Holds(s, next[n]))
      && (forall a :: a in attrChildren && a in s ==> Holds(s, attrChildren[a]) && Holds(s, attrNext[a]))
    }

    ghost predicate Holds(s: set<object>, x: object?) {
      x != null ==> x in s
    }

    /** Follows every link of its members, except to the siblings of `root`. */
    ghost predicate ClosedBelow(root: Node, s: set<object>)
      requires Finite()
    {
      && root in s
      && (forall n :: n in children && n in s ==>
            Holds(s, children[n]) && Holds(s, properties[n]) && (n != root ==> Holds(s, next[n])))
      && (forall a :: a in attrChildren && a in s ==> Holds(s, attrChildren[a]) && Holds(s, attrNext[a]))
    }

    lemma ClosedUnion(s: set<object>, t: set<object>)
      requires Finite() && Closed(s) && Closed(t)
      ensures Closed(s + t)
    {
    }

    lemma {:induction false} SiblingsParts(n: Node)
      requires Finite() && n in children
      ensures Siblings(n) == {n} + (Attributes(properties[n]) + Siblings(children[n]) + Siblings(next[n]))
    {
    }

    lemma AddNode(n: Node, below: set<object>, all: set<object>)
      requires Finite() && n in children && Closed(below) && all == {n} + below
      requires Holds(below, children[n]) && Holds(below, properties[n]) && Holds(below, next[n])
      ensures Closed(all)
    {
    }

    lemma {:induction false} SiblingsClosed(n: Node?)
      requires Finite() && IsNode(n)
      ensures Closed(Siblings(n)) && Holds(Siblings(n), n)
      decreases Height(n), 1
    {
      if n != null {
        AttributesClosed(properties[n]);
        SiblingsClosed(children[n]);
        SiblingsClosed(next[n]);
        ClosedUnion(Attributes(properties[n]), Siblings(children[n]));
        ClosedUnion(Attributes(properties[n]) + Siblings(children[n]), Siblings(next[n]));
        SiblingsParts(n);
        AddNode(n, Attributes(properties[n]) + Siblings(children[n]) + Siblings(next[n]), Siblings(n));
      }
    }

    lemma {:induction false} AttributesClosed(a: Attr?)
      requires Finite() && IsAttr(a)
      ensures Closed(Attributes(a)) && Holds(Attributes(a), a)
      decreases Height(a), 1
    {
      if a != null {
        SiblingsClosed(attrChildren[a]);
        AttributesClosed(attrNext[a]);
        ClosedUnion(Siblings(attrChildren[a]), Attributes(attrNext[a]));
        assert Attributes(a) == {a} + (Siblings(attrChildren[a]) + Attributes(attrNext[a]));
      }
    }

    lemma {:induction false} SiblingsWithin(n: Node?, root: Node, s: set<object>)
      requires Finite() && IsNode(n) && ClosedBelow(root, s)
      requires Holds(s, n) && Height(n) < Height(root)
      ensures Siblings(n) <= s
      decreases Height(n), 1
    {
      if n != null {
        AttributesWithin(properties[n], root, s);
        SiblingsWithin(children[n], root, s);
        SiblingsWithin(next[n], root, s);
      }
    }

    lemma {:induction false} AttributesWithin(a: Attr?, root: Node, s: set<object>)
      requires Finite() && IsAttr(a) && ClosedBelow(root, s)
      requires Holds(s, a) && Height(a) < Height(root)
      ensures Attributes(a) <= s
      decreases Height(a), 1
    {
      if a != null {
        SiblingsWithin(attrChildren[a], root, s);
        AttributesWithin(attrNext[a], root, s);
      }
    }

    lemma AddRoot(root: Node, below: set<object>)
      requires Finite() && root in children && Closed(below)
      requires Holds(below, children[root]) && Holds(below, properties[root])
      ensures ClosedBelow(root, {root} + below)
    {
    }

    lemma {:induction false} SubtreeIsClosed(root: Node)
      requires Finite() && root in children
      ensures ClosedBelow(root, Subtree(root))
    {
      AttributesClosed(properties[root]);
      SiblingsClosed(children[root]);
      ClosedUnion(Attributes(properties[root]), Siblings(children[root]));
      var below := Attributes(properties[root]) + Siblings(children[root]);
      AddRoot(root, below);
      assert Subtree(root) == {root} + below;
    }

    /** The subtree is the least set that holds the root and follows every link
        except to the root's siblings: all that hangs below, and nothing more. */
    lemma {:induction false} SubtreeIsLeastClosed(root: Node, s: set<object>)
      requires Finite() && root in children
      ensures ClosedBelow(root, Subtree(root))
      ensures ClosedBelow(root, s) ==> Subtree(root) <= s
    {
      SubtreeIsClosed(root);
      if ClosedBelow(root, s) {
        AttributesWithin(properties[root], root, s);
        SiblingsWithin(children[root], root, s);
      }
    }

    lemma Excluding(root: Node, s: set<object>, x: Node)
      requires Finite() && ClosedBelow(root, s) && x != root
      requires forall n :: n in children ==> children[n] != x && (n != root ==> next[n] != x)
      requires forall a :: a in attrChildren ==> attrChildren[a] != x
      ensures ClosedBelow(root, s - {x})
    {
    }

    /** The next sibling of the root stays out when no other link leads to it. */
    lemma {:induction false} SiblingStaysOut(root: Node)
      requires Finite() && root in children && next[root] != null
      requires forall n :: n in children ==> children[n] != next[root] && (n != root ==> next[n] != next[root])
      requires forall a :: a in attrChildren ==> attrChildren[a] != next[root]
      ensures next[root] !in Subtree(root)
    {
      SubtreeIsClosed(root);
      Excluding(root, Subtree(root), next[root]);
      SubtreeIsLeastClosed(root, Subtree(root) - {next[root]});
    }

    /** The links are those of the heap. */
    ghost predicate Describe()
      reads children.Keys`kind, children.Keys`children, children.Keys`next, children.Keys`properties
      reads attrChildren.Keys`children, attrChildren.Keys`next
    {
      && Finite()
      && (forall n :: n in children.Keys ==>
            && children[n] == n.children && next[n] == n.next
            && properties[n] == if n.kind == Element then n.properties else null)
      && (forall a :: a in attrChildren.Keys ==> attrChildren[a] == a.children && attrNext[a] == a.next)
    }
  }

  /** Follows the links that hang below `root` in the heap: children and, for elements,
      properties, what hangs below those, and the siblings of all but the root. */
  ghost predicate FollowsLinks(root: Node, s: set<object>)
    reads s
  {
    && root in s
    && (forall n: Node | n in s ::
          && (n.children != null ==> n.children in s)
          && (n.kind == Element && n.properties != null ==> n.properties in s)
          && (n != root && n.next != null ==> n.next in s))
    && (forall a: Attr | a in s ::
          && (a.children != null ==> a.children in s)
          && (a.next != null ==> a.next in s))
  }

  /** All nodes and attributes of the structure. */
  ghost function Members(l: Links): set<object> {
    var nodes: set<object> := set n | n in l.children.Keys :: n;
    var attrs: set<object> := set a | a in l.attrChildren.Keys :: a;
    nodes + attrs
  }

  lemma {:induction false} SubtreeWithin(l: Links, root: Node)
    requires l.Describe() && root in l.children
    ensures l.Subtree(root) <= Members(l)
  {
    assert l.ClosedBelow(root, Members(l));
    l.SubtreeIsLeastClosed(root, Members(l));
  }

  lemma {:induction false} ClosedInHeap(l: Links, root: Node, s: set<object>)
    requires l.Describe() && root in l.children
    ensures FollowsLinks(root, s) ==> l.ClosedBelow(root, s)
    ensures l.ClosedBelow(root, s) && s <= Members(l) ==> FollowsLinks(root, s)
  {
  }

  /** In terms of the heap: the subtree is the least set of objects with the root that
      follows the links below it. */
  lemma {:induction false} SubtreeInHeap(l: Links, root: Node, s: set<object>)
    requires l.Describe() && root in l.children
    ensures FollowsLinks(root, l.Subtree(root))
    ensures FollowsLinks(root, s) ==> l.Subtree(root) <= s
  {
    l.SubtreeIsLeastClosed(root, s);
    SubtreeWithin(l, root);
    ClosedInHeap(l, root, s);
    ClosedInHeap(l, root, l.Subtree(root));
  }

  /** One step along a list of siblings: what is left is lower and smaller. */
  lemma {:induction false} NextSibling(l: Links, n: Node, done: set<object>)
    requires l.Finite() && n in l.children
    ensures l.IsNode(l.next[n]) && l.Height(l.next[n]) < l.Height(n)
    ensures done + l.Siblings(n) == (done + l.Subtree(n)) + l.Siblings(l.next[n])
  {
    assert l.Falls(n, l.next[n]);
  }

  /** One step along a list of attributes. */
  lemma {:induction false} NextAttribute(l: Links, a: Attr, done: set<object>)
    requires l.Finite() && a in l.attrChildren
    ensures l.IsAttr(l.attrNext[a]) && l.Height(l.attrNext[a]) < l.Height(a)
    ensures done + l.Attributes(a) == (done + ({a} + l.Siblings(l.attrChildren[a]))) + l.Attributes(l.attrNext[a])
  {
    assert l.Falls(a, l.attrNext[a]);
  }

  /** The documents of all nodes and attributes at one moment. */
  datatype Documents = Documents(ofNodes: map<Node, Document?>, ofAttrs: map<Attr, Document?>) {
    /** The members of `s` get `doc`; all others keep theirs. */
    ghost function Assign(s: set<object>, doc: Document?): Documents {
      Documents(map n | n in ofNodes :: if n in s then doc else ofNodes[n],
                map a | a in ofAttrs :: if a in s then doc else ofAttrs[a])
    }

    lemma AssignNothing(doc: Document?)
      ensures Assign({}, doc) == this
    {
    }

    lemma AssignTwice(s: set<object>, t: set<object>, doc: Document?)
      ensures Assign(s, doc).Assign(t, doc) == Assign(s + t, doc)
    {
    }
  }

  ghost function Now(l: Links): Documents
    reads l.children.Keys`doc, l.attrChildren.Keys`doc
  {
    Documents(map n | n in l.children.Keys :: n.doc, map a | a in l.attrChildren.Keys :: a.doc)
  }

  method WriteNode(n: Node, doc: Document?, ghost l: Links)
    requires n in l.children
    modifies n`doc
    ensures Now(l) == old(Now(l)).Assign({n}, doc)
  {
    n.doc := doc;
  }

  method WriteAttr(a: Attr, doc: Document?, ghost l: Links)
    requires a in l.attrChildren
    modifies a`doc
    ensures Now(l) == old(Now(l)).Assign({a}, doc)
  {
    a.doc := doc;
  }

  /** Writing a document leaves all links as they are. */
  method SetNode(n: Node, doc: Document?, ghost l: Links)
    requires l.Describe() && n in l.children
    modifies n`doc
    ensures l.Describe() && Now(l) == old(Now(l)).Assign({n}, doc)
  {
    WriteNode(n, doc, l);
  }

  method SetAttr(a: Attr, doc: Document?, ghost l: Links)
    requires l.Describe() && a in l.attrChildren
    modifies a`doc
    ensures l.Describe() && Now(l) == old(Now(l)).Assign({a}, doc)
  {
    WriteAttr(a, doc, l);
  }

  /** Sets `doc` throughout the subtree and changes nothing else. */
  method SetTreeDoc(tree: Node?, doc: Document?, ghost l: Links)
    requires l.Describe() && l.IsNode(tree)
    modifies l.children.Keys`doc, l.attrChildren.Keys`doc
    ensures l.Describe()
    ensures Now(l) == old(Now(l)).Assign(if tree == null then {} else l.Subtree(tree), doc)
    decreases l.Height(tree), 0
  {
    ghost var before := Now(l);
    before.AssignNothing(doc);
    if tree != null {
      ghost var attributes, below := l.Attributes(l.properties[tree]), l.Siblings(l.children[tree]);
      before.AssignTwice(attributes, below, doc);
      before.AssignTwice(attributes + below, {tree}, doc);
      before.Assign(attributes, doc).AssignNothing(doc);
      assert attributes + below + {tree} == l.Subtree(tree);
      if tree.kind == Element {
        SetAttributesDoc(tree.properties, doc, l);
      }
      if tree.children != null {
        SetListDoc(tree.children, doc, l);
      }
      assert Now(l) == before.Assign(attributes + below, doc);
      SetNode(tree, doc, l);
    }
  }

  /** The loop over a sibling list. */
  method SetListDoc(first: Node?, doc: Document?, ghost l: Links)
    requires l.Describe() && l.IsNode(first)
    modifies l.children.Keys`doc, l.attrChildren.Keys`doc
    ensures l.Describe()
    ensures Now(l) == old(Now(l)).Assign(l.Siblings(first), doc)
    decreases l.Height(first), 1
  {
    var cur := first;
    ghost var before, done: set<object> := Now(l), {};
    before.AssignNothing(doc);
    while cur != null
      invariant l.Describe() && l.IsNode(cur)
      invariant l.Height(cur) <= l.Height(first)
      invariant Now(l) == before.Assign(done, doc)
      invariant done + l.Siblings(cur) == l.Siblings(first)
      decreases l.Height(cur)
    {
      NextSibling(l, cur, done);
      SetTreeDoc(cur, doc, l);
      before.AssignTwice(done, l.Subtree(cur), doc);
      done := done + l.Subtree(cur);
      cur := cur.next;
    }
  }

  /** The loop over the attributes of an element. */
  method SetAttributesDoc(first: Attr?, doc: Document?, ghost l: Links)
    requires l.Describe() && l.IsAttr(first)
    modifies l.children.Keys`doc, l.attrChildren.Keys`doc
    ensures l.Describe()
    ensures Now(l) == old(Now(l)).Assign(l.Attributes(first), doc)
    decreases l.Height(first), 1
  {
    var prop := first;
    ghost var before, done: set<object> := Now(l), {};
    before.AssignNothing(doc);
    while prop != null
      invariant l.Describe() && l.IsAttr(prop)
      invariant l.Height(prop) <= l.Height(first)
      invariant Now(l) == before.Assign(done, doc)
      invariant done + l.Attributes(prop) == l.Attributes(first)
      decreases l.Height(prop)
    {
      ghost var more := {prop} + l.Siblings(l.attrChildren[prop]);
      NextAttribute(l, prop, done);
      SetAttributeDoc(prop, doc, l);
      before.AssignTwice(done, more, doc);
      done := done + more;
      prop := prop.next;
    }
  }

  /** Its body: the attribute and the list under it. */
  method SetAttributeDoc(prop: Attr, doc: Document?, ghost l: Links)
    requires l.Describe() && l.IsAttr(prop)
    modifies l.children.Keys`doc, l.attrChildren.Keys`doc
    ensures l.Describe()
    ensures Now(l) == old(Now(l)).Assign({prop} + l.Siblings(l.attrChildren[prop]), doc)
    decreases l.Height(prop), 0
  {
    ghost var before, below := Now(l), l.Siblings(l.attrChildren[prop]);
    SetAttr(prop, doc, l);
    before.Assign({prop}, doc).AssignNothing(doc);
    if prop.children != null {
      SetListDoc(prop.children, doc, l);
    }
    before.AssignTwice({prop}, below, doc);
  }
}
