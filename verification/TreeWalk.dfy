/**
 The iterative walk over a metadata document in src/wsd_server.cpp: first-child, next-sibling
 and parent pointers, without a stack.
 */
module TreeWalk {
  import opened Placeholders

  datatype Kind = Text | Element | Attribute | Other

  class XmlNode {
    const kind: Kind
    var parent: XmlNode?
    var children: XmlNode?    // first child
    var next: XmlNode?        // next sibling, or the next attribute of the same element
    var properties: XmlNode?  // first attribute
    var content: string

    constructor (kind: Kind, content: string)
      ensures this.kind == kind && this.content == content
      ensures parent == children == next == properties == null
    {
      this.kind, this.content := kind, content;
      parent, children, next, properties := null, null, null, null;
    }
  }

  /** The siblings from a node on, each with its attributes and its children. */
  datatype Forest = Nil | Cons(node: XmlNode, properties: Forest, children: Forest, next: Forest)

  ghost function Size(f: Forest): nat {
    match f
    case Nil => 0
    case Cons(_, ps, cs, r) => 1 + Size(ps) + Size(cs) + Size(r)
  }

  ghost function Nodes(f: Forest): set<XmlNode> {
    match f
    case Nil => {}
    case Cons(n, ps, cs, r) => {n} + Nodes(ps) + Nodes(cs) + Nodes(r)
  }

  /** No node occurs twice. */
  ghost predicate Apart(f: Forest) {
    match f
    case Nil => true
    case Cons(n, ps, cs, r) =>
      && n !in Nodes(ps) + Nodes(cs) + Nodes(r)
      && Nodes(ps) !! Nodes(cs) && Nodes(ps) !! Nodes(r) && Nodes(cs) !! Nodes(r)
      && Apart(ps) && Apart(cs) && Apart(r)
  }

  datatype Links = Links(parent: XmlNode?, children: XmlNode?, next: XmlNode?, properties: XmlNode?)

  ghost function Head(f: Forest): XmlNode? {
    if f.Nil? then null else f.node
  }

  /** `links` are the pointers of the siblings `f` below `parent`. */
  ghost predicate Shape(f: Forest, links: map<XmlNode, Links>, parent: XmlNode?) {
    match f
    case Nil => true
    case Cons(n, ps, cs, r) =>
      && n in links && links[n] == Links(parent, Head(cs), Head(r), Head(ps))
      && Shape(ps, links, n) && Shape(cs, links, n) && Shape(r, links, parent)
  }

  ghost predicate Linked(nodes: set<XmlNode>, links: map<XmlNode, Links>)
    reads nodes`parent, nodes`children, nodes`next, nodes`properties
  {
    forall n :: n in nodes ==> n in links && links[n] == Links(n.parent, n.children, n.next, n.properties)
  }

  // ----- the recursive walk -----

  /** Document order: a node, what its attribute values hold, its children, its later siblings. */
  ghost function Order(f: Forest): seq<XmlNode>
    decreases f, 0
  {
    match f
    case Nil => []
    case Cons(n, ps, cs, r) => SelfOrder(n, ps) + (Order(cs) + Order(r))
  }

  ghost function SelfOrder(n: XmlNode, ps: Forest): seq<XmlNode>
    decreases ps, 1
  {
    [n] + if n.kind.Element? then PropertiesOrder(ps) else []
  }

  ghost function PropertiesOrder(ps: Forest): seq<XmlNode>
    decreases ps, 0
  {
    match ps
    case Nil => []
    case Cons(_, _, cs, r) => Order(cs) + PropertiesOrder(r)
  }

  /** The content of `n` after the recursive walk over `f`, which enters attribute values, if it was `c`. */
  ghost function Walked(f: Forest, n: XmlNode, c: string, host: Host): string {
    match f
    case Nil => c
    case Cons(m, ps, cs, r) =>
      var own := Visit(m, n, c, host);
      var inAttributes := if m.kind.Element? then WalkedProperties(ps, n, own, host) else own;
      Walked(r, n, Walked(cs, n, inAttributes, host), host)
  }

  ghost function WalkedProperties(ps: Forest, n: XmlNode, c: string, host: Host): string {
    match ps
    case Nil => c
    case Cons(_, _, cs, r) => WalkedProperties(r, n, Walked(cs, n, c, host), host)
  }

  ghost function Visit(m: XmlNode, n: XmlNode, c: string, host: Host): string {
    if m == n && m.kind.Text? then Expand(c, host) else c
  }

  /** The content of `n` after visiting `order` one node at a time. */
  ghost function Visited(order: seq<XmlNode>, n: XmlNode, c: string, host: Host): string {
    if order == [] then c else Visited(order[1..], n, Visit(order[0], n, c, host), host)
  }

  lemma {:induction false} VisitedAppend(a: seq<XmlNode>, b: seq<XmlNode>, n: XmlNode, c: string, host: Host)
    ensures Visited(a + b, n, c, host) == Visited(b, n, Visited(a, n, c, host), host)
  {
    if a == [] {
      assert a + b == b;
    } else {
      assert (a + b)[1..] == a[1..] + b;
      VisitedAppend(a[1..], b, n, Visit(a[0], n, c, host), host);
    }
  }

  lemma {:induction false} VisitedElsewhere(order: seq<XmlNode>, n: XmlNode, c: string, host: Host)
    requires n !in order
    ensures Visited(order, n, c, host) == c
  {
    if order != [] {
      VisitedElsewhere(order[1..], n, c, host);
    }
  }

  lemma Append<T>(a: seq<T>, b: seq<T>, c: seq<T>)
    ensures a + (b + c) == (a + b) + c
  {
  }

  lemma VisitedOthers(order: seq<XmlNode>, host: Host)
    ensures forall n, c :: n !in order ==> Visited(order, n, c, host) == c
  {
    forall n, c | n !in order
      ensures Visited(order, n, c, host) == c
    {
      VisitedElsewhere(order, n, c, host);
    }
  }

  /** The recursive walk visits in document order. */
  lemma {:induction false} WalkedIsVisited(f: Forest, n: XmlNode, c: string, host: Host)
    ensures Walked(f, n, c, host) == Visited(Order(f), n, c, host)
    decreases Size(f), 1
  {
    if f.Cons? {
      var Cons(m, ps, cs, r) := f;
      var own := Visited(SelfOrder(m, ps), n, c, host);
      assert SelfOrder(m, ps)[1..] == if m.kind.Element? then PropertiesOrder(ps) else [];
      WalkedPropertiesIsVisited(ps, n, Visit(m, n, c, host), host);
      WalkedIsVisited(cs, n, own, host);
      WalkedIsVisited(r, n, Walked(cs, n, own, host), host);
      VisitedAppend(SelfOrder(m, ps), Order(cs) + Order(r), n, c, host);
      VisitedAppend(Order(cs), Order(r), n, own, host);
    }
  }

  lemma {:induction false} WalkedPropertiesIsVisited(ps: Forest, n: XmlNode, c: string, host: Host)
    ensures WalkedProperties(ps, n, c, host) == Visited(PropertiesOrder(ps), n, c, host)
    decreases Size(ps), 0
  {
    if ps.Cons? {
      WalkedIsVisited(ps.children, n, c, host);
      WalkedPropertiesIsVisited(ps.next, n, Walked(ps.children, n, c, host), host);
      VisitedAppend(Order(ps.children), PropertiesOrder(ps.next), n, c, host);
    }
  }

  ghost predicate Distinct<T>(s: seq<T>) {
    forall i, j :: 0 <= i < j < |s| ==> s[i] != s[j]
  }

  lemma {:induction false} OrderWithin(f: Forest)
    ensures forall n :: n in Order(f) ==> n in Nodes(f)
    ensures forall n :: n in PropertiesOrder(f) ==> n in Nodes(f)
  {
    if f.Cons? {
      OrderWithin(f.properties);
      OrderWithin(f.children);
      OrderWithin(f.next);
    }
  }

  lemma DistinctAppend<T>(a: seq<T>, b: seq<T>)
    requires Distinct(a) && Distinct(b)
    requires forall x :: x in a ==> x !in b
    ensures Distinct(a + b)
  {
    forall i, j | 0 <= i < j < |a + b|
      ensures (a + b)[i] != (a + b)[j]
    {
      assert i < |a| ==> a[i] in a;
    }
  }

  lemma {:induction false} OrderDistinct(f: Forest)
    requires Apart(f)
    ensures Distinct(Order(f)) && Distinct(PropertiesOrder(f))
  {
    if f.Cons? {
      var Cons(n, ps, cs, r) := f;
      OrderDistinct(ps);
      OrderDistinct(cs);
      OrderDistinct(r);
      OrderWithin(ps);
      OrderWithin(cs);
      OrderWithin(r);
      DistinctAppend([n], if n.kind.Element? then PropertiesOrder(ps) else []);
      DistinctAppend(Order(cs), Order(r));
      DistinctAppend(SelfOrder(n, ps), Order(cs) + Order(r));
      DistinctAppend(Order(cs), PropertiesOrder(r));
    }
  }

  /** Attributes hang off elements and nowhere else. */
  ghost predicate DocumentKinds(f: Forest, attributes: bool) {
    match f
    case Nil => true
    case Cons(n, ps, cs, r) =>
      && n.kind.Attribute? == attributes
      && (!n.kind.Element? ==> ps == Nil)
      && DocumentKinds(ps, true) && DocumentKinds(cs, false) && DocumentKinds(r, attributes)
  }

  /** Every node that is not itself an attribute is visited, exactly once. */
  lemma {:induction false} OrderComplete(f: Forest, n: XmlNode)
    requires DocumentKinds(f, false)
    ensures n in Order(f) <==> n in Nodes(f) && !n.kind.Attribute?
    decreases Size(f), 1
  {
    if f.Cons? {
      OrderCompleteInProperties(f.properties, n);
      OrderComplete(f.children, n);
      OrderComplete(f.next, n);
    }
  }

  lemma {:induction false} OrderCompleteInProperties(ps: Forest, n: XmlNode)
    requires DocumentKinds(ps, true)
    ensures n in PropertiesOrder(ps) <==> n in Nodes(ps) && !n.kind.Attribute?
    decreases Size(ps), 0
  {
    if ps.Cons? {
      OrderComplete(ps.children, n);
      OrderCompleteInProperties(ps.next, n);
    }
  }

  lemma {:induction false} VisitedOnce(order: seq<XmlNode>, n: XmlNode, c: string, host: Host)
    requires Distinct(order)
    ensures Visited(order, n, c, host) == if n in order && n.kind.Text? then Expand(c, host) else c
  {
    if order != [] {
      if order[0] == n {
        VisitedElsewhere(order[1..], n, Visit(n, n, c, host), host);
      } else {
        VisitedOnce(order[1..], n, c, host);
      }
    }
  }

  /** So each text, in the tree or in an attribute value, is expanded once and nothing else changes. */
  lemma WalkedExpandsOnce(f: Forest, n: XmlNode, c: string, host: Host)
    requires Apart(f) && DocumentKinds(f, false)
    ensures Walked(f, n, c, host) == if n in Nodes(f) && n.kind.Text? then Expand(c, host) else c
  {
    OrderDistinct(f);
    OrderComplete(f, n);
    WalkedIsVisited(f, n, c, host);
    VisitedOnce(Order(f), n, c, host);
  }

  // ----- the iterative walk -----

  ghost function Contents(nodes: set<XmlNode>): map<XmlNode, string>
    reads nodes`content
  {
    map n | n in nodes :: n.content
  }

  /** The contents of `nodes` are what visiting `visited` makes of `was`. */
  ghost predicate After(visited: seq<XmlNode>, was: map<XmlNode, string>, nodes: set<XmlNode>, host: Host)
    reads nodes`content
  {
    was.Keys == nodes && forall n :: n in nodes ==> n.content == Visited(visited, n, was[n], host)
  }

  lemma AfterMore(visited: seq<XmlNode>, was: map<XmlNode, string>, nodes: set<XmlNode>,
                  more: seq<XmlNode>, mid: map<XmlNode, string>, some: set<XmlNode>, host: Host)
    requires was.Keys == mid.Keys == nodes && some <= nodes
    requires forall n :: n in nodes ==> mid[n] == Visited(visited, n, was[n], host)
    requires forall n :: n in more ==> n in some
    requires forall n :: n in some ==> n.content == Visited(more, n, mid[n], host)
    requires forall n :: n in nodes - some ==> n.content == mid[n]
    ensures After(visited + more, was, nodes, host)
  {
    forall n | n in nodes
      ensures n.content == Visited(visited + more, n, was[n], host)
    {
      VisitedAppend(visited, more, n, was[n], host);
      if n !in some {
        VisitedElsewhere(more, n, mid[n], host);
      }
    }
  }

  /** The siblings still ahead at the current node and at each node above it, outermost first. */
  ghost predicate OnPath(path: seq<Forest>, f: Forest, links: map<XmlNode, Links>, parent: XmlNode?) {
    path != [] ==>
      var at, up := path[|path| - 1], path[..|path| - 1];
      && at.Cons? && Apart(at) && Nodes(at) <= Nodes(f) && Size(at) <= Size(f)
      && OnPath(up, f, links, parent)
      && Shape(at, links, Above(up, parent))
  }

  ghost function Above(path: seq<Forest>, parent: XmlNode?): XmlNode? {
    if path == [] || path[|path| - 1].Nil? then parent else path[|path| - 1].node
  }

  /** What is still to be visited. */
  ghost function Remaining(path: seq<Forest>, returning: bool): seq<XmlNode> {
    if path == [] || path[|path| - 1].Nil? then []
    else
      var at := path[|path| - 1];
      (if returning then Order(at.next) else Order(at)) + Remaining(path[..|path| - 1], true)
  }

  lemma Begin(f: Forest, links: map<XmlNode, Links>, parent: XmlNode?)
    requires f.Cons? && Apart(f) && Shape(f, links, parent)
    ensures OnPath([f], f, links, parent) && Above([f], parent) == f.node
    ensures Remaining([f], false) == Order(f)
  {
    assert [f][..0] == [] && Order(f) + [] == Order(f);
    assert Remaining([], true) == [];
  }

  lemma Finished(path: seq<Forest>, f: Forest, links: map<XmlNode, Links>, parent: XmlNode?, returning: bool)
    requires OnPath(path, f, links, parent) && Above(path, parent) == parent && parent !in Nodes(f)
    ensures Remaining(path, returning) == []
  {
  }

  lemma Top(path: seq<Forest>, f: Forest, links: map<XmlNode, Links>, parent: XmlNode?) returns (at: Forest)
    requires OnPath(path, f, links, parent) && Above(path, parent) != parent
    ensures path != [] && at == path[|path| - 1] && at.Cons? && at.node == Above(path, parent)
    ensures Apart(at) && Nodes(at) <= Nodes(f) && Size(at) <= Size(f)
    ensures at.node in Nodes(f) && at.node in links && Shape(at, links, links[at.node].parent)
  {
    at := path[|path| - 1];
    assert at.node in Nodes(at);
  }

  lemma Down(path: seq<Forest>, f: Forest, links: map<XmlNode, Links>, parent: XmlNode?, at: Forest)
    returns (below: seq<Forest>)
    requires OnPath(path, f, links, parent) && path != [] && at == path[|path| - 1]
    requires links[at.node].children != null
    ensures below != [] && OnPath(below, f, links, parent)
    ensures Above(below, parent) == links[at.node].children
    ensures Remaining(path, false) == SelfOrder(at.node, at.properties) + Remaining(below, false)
    ensures |Remaining(below, false)| < |Remaining(path, false)|
  {
    below := path + [at.children];
    assert below[..|below| - 1] == path;
    var above := Remaining(path[..|path| - 1], true);
    var self, inside, later := SelfOrder(at.node, at.properties), Order(at.children), Order(at.next);
    assert (self + (inside + later)) + above == self + (inside + (later + above));
  }

  lemma Leaf(path: seq<Forest>, f: Forest, links: map<XmlNode, Links>, parent: XmlNode?, at: Forest)
    requires OnPath(path, f, links, parent) && path != [] && at == path[|path| - 1]
    requires links[at.node].children == null
    ensures Remaining(path, false) == SelfOrder(at.node, at.properties) + Remaining(path, true)
    ensures |Remaining(path, true)| < |Remaining(path, false)|
  {
    var above := Remaining(path[..|path| - 1], true);
    var self, later := SelfOrder(at.node, at.properties), Order(at.next);
    assert at.children == Nil && [] + later == later;
    assert Order(at) == self + later;
    assert (self + later) + above == self + (later + above);
  }

  lemma Across(path: seq<Forest>, f: Forest, links: map<XmlNode, Links>, parent: XmlNode?, at: Forest)
    returns (beside: seq<Forest>)
    requires OnPath(path, f, links, parent) && path != [] && at == path[|path| - 1]
    requires links[at.node].next != null
    ensures beside != [] && OnPath(beside, f, links, parent) && |beside| == |path|
    ensures Above(beside, parent) == links[at.node].next
    ensures Remaining(path, true) == Remaining(beside, false)
  {
    beside := path[..|path| - 1] + [at.next];
    assert beside[..|beside| - 1] == path[..|path| - 1];
  }

  lemma Up(path: seq<Forest>, f: Forest, links: map<XmlNode, Links>, parent: XmlNode?, at: Forest)
    returns (up: seq<Forest>)
    requires OnPath(path, f, links, parent) && path != [] && at == path[|path| - 1]
    requires links[at.node].next == null
    ensures OnPath(up, f, links, parent) && |up| < |path|
    ensures Above(up, parent) == links[at.node].parent
    ensures Remaining(path, true) == Remaining(up, true)
  {
    up := path[..|path| - 1];
    assert [] + Remaining(up, true) == Remaining(up, true);
  }

  lemma SelfWithin(f: Forest)
    requires f.Cons?
    ensures forall n :: n in SelfOrder(f.node, f.properties) ==> n in Nodes(f)
  {
    OrderWithin(f.properties);
  }

  lemma Parts(f: Forest, links: map<XmlNode, Links>, parent: XmlNode?)
    requires f.Cons? && Apart(f) && Shape(f, links, parent)
    ensures Apart(f.children) && Apart(f.next) && Shape(f.children, links, f.node) && Shape(f.next, links, parent)
    ensures {f.node} + Nodes(f.children) + Nodes(f.next) <= Nodes(f) && f.node !in Nodes(f.children)
    ensures Size(f.children) < Size(f) && Size(f.next) < Size(f)
    ensures f.node in links && links[f.node] == Links(parent, Head(f.children), Head(f.next), Head(f.properties))
  {
  }

  method ReplaceInText(node: XmlNode, host: Host)
    requires node.kind.Text?
    modifies node`content
    ensures node.content == Expand(old(node.content), host)
  {
    if '$' in node.content {
      var replaced := ReplaceInString(node.content, host);
      node.content := replaced;
    } else {
      ExpandWithoutDollar(node.content, host);
    }
  }

  method ReplaceInSelf(node: XmlNode, host: Host, ghost t: Forest, ghost links: map<XmlNode, Links>,
                       ghost nodes: set<XmlNode>)
    returns (ghost visited: seq<XmlNode>)
    requires node == Head(t) && Apart(t) && Shape(t, links, node.parent)
    requires nodes == Nodes(t) && Linked(nodes, links)
    modifies nodes`content
    ensures visited == SelfOrder(node, t.properties)
    ensures forall n :: n in nodes ==> n.content == Visited(visited, n, old(n.content), host)
    decreases Size(t), 0
  {
    visited := [node];
    if node.kind.Text? {
      ReplaceInText(node, host);
    } else if node.kind.Element? {
      ghost var inValues :=
        ReplaceInProperties(node.properties, host, t.properties, node, links, Nodes(t.properties));
      OrderWithin(t.properties);
      VisitedOthers(inValues, host);
      visited := [node] + inValues;
    }
  }

  method ReplaceInProperties(first: XmlNode?, host: Host, ghost ps: Forest, ghost node: XmlNode,
                             ghost links: map<XmlNode, Links>, ghost nodes: set<XmlNode>)
    returns (ghost visited: seq<XmlNode>)
    requires first == Head(ps) && Apart(ps) && Shape(ps, links, node)
    requires nodes == Nodes(ps) && Linked(nodes, links)
    modifies nodes`content
    ensures visited == PropertiesOrder(ps)
    ensures forall n :: n in nodes ==> n.content == Visited(visited, n, old(n.content), host)
    decreases Size(ps), 2
  {
    hide Apart, Shape, Nodes, Size;
    var prop := first;
    ghost var rest, was := ps, Contents(nodes);
    visited := [];
    while prop != null
      invariant prop == Head(rest) && Nodes(rest) <= nodes && Size(rest) <= Size(ps)
      invariant Shape(rest, links, node) && Apart(rest)
      invariant visited + PropertiesOrder(rest) == PropertiesOrder(ps)
      invariant After(visited, was, nodes, host)
      decreases Size(rest)
    {
      Parts(rest, links, node);
      ghost var values, others := rest.children, rest.next;
      assert prop in nodes && links[prop] == Links(node, Head(values), Head(others), Head(rest.properties));
      ghost var before := visited;
      if prop.children != null {
        ghost var mid := Contents(nodes);
        ghost var inValue := Walk(prop.children, host, values, prop, links, Nodes(values));
        OrderWithin(values);
        AfterMore(visited, was, nodes, inValue, mid, Nodes(values), host);
        visited := visited + inValue;
        Append(before, inValue, PropertiesOrder(others));
      } else {
        assert [] + PropertiesOrder(others) == PropertiesOrder(others);
      }
      prop, rest := prop.next, others;
    }
  }

  /** `node` and its later siblings, with everything below them. */
  method Walk(node: XmlNode, host: Host, ghost f: Forest, ghost parent: XmlNode?,
              ghost links: map<XmlNode, Links>, ghost nodes: set<XmlNode>)
    returns (ghost visited: seq<XmlNode>)
    requires node == Head(f) && Apart(f) && Shape(f, links, parent)
    requires nodes == Nodes(f) && Linked(nodes, links) && parent !in nodes
    modifies nodes`content
    ensures visited == Order(f)
    ensures forall n :: n in nodes ==> n.content == Visited(visited, n, old(n.content), host)
    ensures forall n :: n in nodes ==> n.content == Walked(f, n, old(n.content), host)
    decreases Size(f), 1
  {
    hide Above, OnPath, Remaining, Order, SelfOrder, Walked, Apart, Nodes, Size;
    Begin(f, links, parent);
    Parts(f, links, parent);
    var current: XmlNode? := node;
    var end := current.parent;
    var returningFromChild := false;
    visited := [];
    ghost var path, was := [f], Contents(nodes);
    while current != end
      invariant OnPath(path, f, links, parent)
      invariant current == Above(path, parent)
      invariant visited + Remaining(path, returningFromChild) == Order(f)
      invariant After(visited, was, nodes, host)
      decreases |Remaining(path, returningFromChild)|, |path|, returningFromChild
    {
      ghost var at := Top(path, f, links, parent);
      ghost var before := visited;
      if !returningFromChild {
        ghost var mid := Contents(nodes);
        ghost var inSelf := ReplaceInSelf(current, host, at, links, Nodes(at));
        SelfWithin(at);
        AfterMore(visited, was, nodes, inSelf, mid, Nodes(at), host);
        visited := visited + inSelf;
        if current.children != null {
          ghost var below := Down(path, f, links, parent, at);
          Append(before, inSelf, Remaining(below, false));
          current := current.children;
          path := below;
          continue;
        }
        Leaf(path, f, links, parent, at);
        Append(before, inSelf, Remaining(path, true));
      }
      returningFromChild := false;
      if current.next != null {
        path := Across(path, f, links, parent, at);
        current := current.next;
        continue;
      }
      path := Up(path, f, links, parent, at);
      current := current.parent;
      returningFromChild := true;
    }
    Finished(path, f, links, parent, returningFromChild);
    assert visited + [] == visited;
    forall n | n in nodes
      ensures n.content == Walked(f, n, old(n.content), host)
    {
      WalkedIsVisited(f, n, old(n.content), host);
    }
  }

  /** A detached copy of the template: the node itself, then everything below it. */
  method ReplacePlaceholders(node: XmlNode, host: Host, ghost t: Forest,
                             ghost links: map<XmlNode, Links>, ghost nodes: set<XmlNode>)
    requires node == Head(t) && t.next.Nil? && Apart(t) && Shape(t, links, node.parent) && DocumentKinds(t, false)
    requires nodes == Nodes(t) && Linked(nodes, links)
    modifies nodes`content
    ensures forall n :: n in nodes ==>
              n.content == if n.kind.Text? then Expand(old(n.content), host) else old(n.content)
  {
    ghost var was := Contents(nodes);
    ghost var visited := ReplaceInSelf(node, host, t, links, nodes);
    if node.children != null {
      ghost var mid := Contents(nodes);
      ghost var below := Walk(node.children, host, t.children, node, links, Nodes(t.children));
      OrderWithin(t.children);
      AfterMore(visited, was, nodes, below, mid, Nodes(t.children), host);
      visited := visited + below;
    } else {
      assert t.children == Nil && visited + [] == visited;
    }
    assert Order(t.next) == [] && Order(t.children) + [] == Order(t.children);
    assert visited == Order(t);
    forall n | n in nodes
      ensures n.content == if n.kind.Text? then Expand(old(n.content), host) else old(n.content)
    {
      WalkedIsVisited(t, n, was[n], host);
      WalkedExpandsOnce(t, n, was[n], host);
    }
  }
}
