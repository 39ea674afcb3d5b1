/** The mutable HTML tree: nodes with parent links and child vectors edited in place. */
module HtmlTree {
  import opened Orders
  import F = HtmlForest
  import opened HtmlStream

  /** The links of the given nodes, as a value. */
  ghost function Snapshot(S: set<Node>): F.Forest<Node>
    reads S
  {
    F.Forest(map n | n in S :: ToOption(n.parent), map n | n in S :: n.children)
  }

  function ToOption(n: Node?): Option<Node> {
    if n == null then None else var m: Node := n; Some(m)
  }

  ghost function DataOf(S: set<Node>): map<Node, NodeData> {
    map n | n in S :: n.data
  }

  class Node {
    var parent: Node?
    var children: seq<Node>
    const data: NodeData

    constructor (data: NodeData)
      ensures parent == null && children == [] && this.data == data
    {
      this.parent, this.children, this.data := null, [], data;
    }

    /** If this node has a parent, that parent and this node's place among its children. */
    method ParentAndIndex(ghost S: set<Node>) returns (r: Option<(Node, nat)>)
      requires this in S && F.CanDetach(Snapshot(S), this)
      ensures r.None? <==> parent == null
      ensures r.Some? ==> r.value.0 == parent && this in parent.children && r.value.1 == IndexOf(parent.children, this)
    {
      if parent == null { return None; }
      var p := parent;
      assert this in p.children;  // the "child should be in parent's children" expect
      var i := 0;
      while p.children[i] != this
        invariant 0 <= i < |p.children| && this !in p.children[..i]
        decreases |p.children| - i
      {
        assert p.children[..i + 1] == p.children[..i] + [p.children[i]];
        assert p.children == p.children[..i + 1] + p.children[i + 1..];
        i := i + 1;
      }
      F.IndexIs(p.children, this, i);
      r := Some((p, i));
    }

    method Detach(ghost S: set<Node>)
      requires this in S && F.CanDetach(Snapshot(S), this)
      modifies S
      ensures Snapshot(S) == F.Detach(old(Snapshot(S)), this)
    {
      var place := ParentAndIndex(S);
      if place.Some? {
        var (p, i) := place.value;
        p.children := p.children[..i] + p.children[i + 1..];
        parent := null;
      }
    }

    method AppendChild(child: Node, ghost S: set<Node>)
      requires this in S && child in S && F.CanDetach(Snapshot(S), child)
      modifies S
      ensures Snapshot(S) == F.Append(old(Snapshot(S)), this, child)
    {
      child.Detach(S);
      Push(child, S);
    }

    /** Take a node at the end of the children. */
    method Push(child: Node, ghost S: set<Node>)
      requires this in S && child in S
      modifies S
      ensures Snapshot(S).parent == old(Snapshot(S)).parent[child := Some(this)]
      ensures Snapshot(S).children == old(Snapshot(S)).children[this := old(children) + [child]]
    {
      child.parent := this;
      children := children + [child];
    }

    method InsertBeforeSibling(sibling: Node, ghost S: set<Node>)
      requires this in S && sibling in S && this != sibling && sibling.parent != null
      requires F.CanDetach(Snapshot(S), this) && F.CanDetach(Snapshot(S), sibling)
      modifies S
      ensures Snapshot(S) == F.InsertBefore(old(Snapshot(S)), this, sibling)
      ensures F.Linked(old(Snapshot(S))) ==> F.PlacedBefore(old(Snapshot(S)), Snapshot(S), this, sibling, old(sibling.parent))
    {
      if F.Linked(Snapshot(S)) { F.InsertBeforePlaces(Snapshot(S), this, sibling, sibling.parent); }
      F.DetachKeepsSibling(Snapshot(S), this, sibling);
      Detach(S);
      var place := sibling.ParentAndIndex(S);
      var (p, i) := place.value;
      InsertAt(p, i, S);
    }

    /** Become the child of `p` at place `i`. */
    method InsertAt(p: Node, i: nat, ghost S: set<Node>)
      requires this in S && p in S && i <= |p.children|
      modifies S
      ensures Snapshot(S).parent == old(Snapshot(S)).parent[this := Some(p)]
      ensures Snapshot(S).children == old(Snapshot(S)).children[p := old(p.children[..i] + [this] + p.children[i..])]
    {
      parent := p;
      p.children := p.children[..i] + [this] + p.children[i..];
    }

    /** The next of the siblings, if any. */
    method NextSibling(ghost S: set<Node>) returns (r: Node?)
      requires this in S && F.CanDetach(Snapshot(S), this)
      ensures r == Following(this)
    {
      var place := ParentAndIndex(S);
      if place.None? { return null; }
      var (p, i) := place.value;
      r := NodeAt(p.children, i + 1);
    }

    method FirstChild() returns (r: Node?)
      ensures r == NodeAt(children, 0)
    {
      r := NodeAt(children, 0);
    }

    /**
     * Replace this node in its parent by a new element with the same attributes and children under
     * another local name. The children are moved while an iterator walks them.
     */
    method ReplaceWithElementName(local: string, ghost S: set<Node>, ghost rank: map<Node, nat>) returns (newNode: Node)
      requires this in S && F.WellFormed(Snapshot(S), rank) && data.Element? && parent != null
      modifies S
      ensures fresh(newNode) && newNode.data == Element(data.name.(local := local), data.attrs)
      ensures Snapshot(S + {newNode}) == F.Replace(old(Snapshot(S)), this, newNode)
      ensures DataOf(S + {newNode}) == RenamedData(DataOf(S), this, newNode, local)
    {
      ghost var f := Snapshot(S);
      newNode := NewElement(data.name.(local := local), data.attrs, S);
      Succeed(newNode, S, f, rank);
    }

    /** Give the new node this node's children and its place. */
    method Succeed(newNode: Node, ghost S: set<Node>, ghost f: F.Forest<Node>, ghost rank: map<Node, nat>)
      requires this in S && newNode !in S && F.WellFormed(f, rank) && f.children.Keys == S && f.parent[this].Some?
      requires Snapshot(S + {newNode}) == F.WithNew(f, newNode)
      modifies S, newNode
      ensures Snapshot(S + {newNode}) == F.Replace(f, this, newNode)
    {
      F.MovedFrom(f, this, newNode);
      MoveChildren(this, newNode, S, f);
      TakeOver(newNode, S, f, rank);
    }

    /** Put the node that has this node's children in this node's place. */
    method TakeOver(newNode: Node, ghost S: set<Node>, ghost f: F.Forest<Node>, ghost rank: map<Node, nat>)
      requires this in S && newNode !in S && F.WellFormed(f, rank) && f.children.Keys == S && f.parent[this].Some?
      requires Snapshot(S + {newNode}) == F.Moved(f, this, newNode, |f.children[this]|)
      modifies S, newNode
      ensures Snapshot(S + {newNode}) == F.Replace(f, this, newNode)
    {
      F.ReplaceCompletes(f, rank, this, newNode);
      YieldTo(newNode, S + {newNode}, F.Replace(f, this, newNode));
    }

    /** Let another node into this node's place, and leave. */
    method YieldTo(newNode: Node, ghost T: set<Node>, ghost h: F.Forest<Node>)
      requires this in T && newNode in T && F.Completes(Snapshot(T), this, newNode, h)
      modifies T
      ensures Snapshot(T) == h
    {
      assert Snapshot(T).parent[this] == ToOption(parent);
      newNode.InsertBeforeSibling(this, T);
      Detach(T);
    }
  }

  /** A new element, linked to nothing. */
  method NewElement(name: Name, attrs: seq<Attribute>, ghost S: set<Node>) returns (n: Node)
    ensures fresh(n) && n.data == Element(name, attrs)
    ensures Snapshot(S + {n}) == F.WithNew(old(Snapshot(S)), n)
  {
    n := new Node(Element(name, attrs));
  }

  /** An iterator through the children of a node: it holds the node to give next. */
  class Children {
    var next: Node?

    constructor (start: Node?)
      ensures next == start
    {
      next := start;
    }

    /** Give the node held and hold its next sibling, read before the caller can move the node. */
    method Next(ghost S: set<Node>) returns (r: Node?)
      requires next != null ==> next in S && F.CanDetach(Snapshot(S), next)
      modifies this
      ensures r == old(next)
      ensures r == null ==> next == null
      ensures r != null ==> next == Following(r)
    {
      r := next;
      if r != null {
        var sibling := r.NextSibling(S);
        next := sibling;
      }
    }
  }

  ghost function Following(n: Node): Node?
    requires n.parent != null ==> n in n.parent.children
    reads n, n.parent
  {
    if n.parent == null then null else NodeAt(n.parent.children, IndexOf(n.parent.children, n) + 1)
  }

  /** Move every child of `x` to the end of the new node `y`, in order, iterating over the list being emptied. */
  method MoveChildren(x: Node, y: Node, ghost S: set<Node>, ghost f: F.Forest<Node>)
    requires x in S && y !in S && F.Linked(f) && f.children.Keys == S
    requires Snapshot(S + {y}) == F.Moved(f, x, y, 0)
    modifies S, y
    ensures Snapshot(S + {y}) == F.Moved(f, x, y, |f.children[x]|)
  {
    ghost var T, kids, k := S + {y}, f.children[x], 0;
    assert x.children == Snapshot(T).children[x] == kids[0..] == kids;
    var first := x.FirstChild();
    var it := new Children(first);
    var child := NextMoved(x, y, it, T, f, 0);
    while child != null
      invariant k <= |kids| && Snapshot(T) == F.Moved(f, x, y, k)
      invariant child == NodeAt(kids, k) && it.next == NodeAt(kids, k + 1)
      invariant fresh(it)
      decreases |kids| - k
    {
      child := MoveOne(x, y, child, it, S, f, k);
      k := k + 1;
    }
    assert k == |kids|;
  }

  /** Move the child given by the iterator, then ask the iterator for the next one. */
  method MoveOne(x: Node, y: Node, child: Node, it: Children, ghost S: set<Node>, ghost f: F.Forest<Node>, ghost k: nat)
    returns (next: Node?)
    requires x in S && y !in S && F.Linked(f) && f.children.Keys == S && k < |f.children[x]|
    requires Snapshot(S + {y}) == F.Moved(f, x, y, k)
    requires child == f.children[x][k] && it.next == NodeAt(f.children[x], k + 1)
    modifies S, y, it
    ensures Snapshot(S + {y}) == F.Moved(f, x, y, k + 1)
    ensures next == NodeAt(f.children[x], k + 1) && it.next == NodeAt(f.children[x], k + 2)
  {
    F.MovedStep(f, x, y, k);
    y.AppendChild(child, S + {y});
    next := NextMoved(x, y, it, S + {y}, f, k + 1);
  }

  /** Ask the iterator, when `k` children have been moved. */
  method NextMoved(x: Node, y: Node, it: Children, ghost T: set<Node>, ghost f: F.Forest<Node>, ghost k: nat)
    returns (next: Node?)
    requires F.Linked(f) && x in f.children && y !in f.children && k <= |f.children[x]|
    requires Snapshot(T) == F.Moved(f, x, y, k) && it.next == NodeAt(f.children[x], k)
    modifies it
    ensures next == NodeAt(f.children[x], k) && it.next == NodeAt(f.children[x], k + 1)
  {
    StillFirst(f, x, y, k, T);
    next := it.Next(T);
  }

  /** The first child left can be detached, and the one after it in the original list follows it. */
  lemma StillFirst(f: F.Forest<Node>, x: Node, y: Node, k: nat, T: set<Node>)
    requires F.Linked(f) && x in f.children && y !in f.children && k <= |f.children[x]|
    requires Snapshot(T) == F.Moved(f, x, y, k)
    ensures k < |f.children[x]| ==>
      && var c := f.children[x][k];
      && c in T && F.CanDetach(Snapshot(T), c)
      && (c.parent != null ==> c in c.parent.children)
      && Following(c) == NodeAt(f.children[x], k + 1)
  {
    if k < |f.children[x]| {
      var kids := f.children[x];
      var c := kids[k];
      F.MovedStep(f, x, y, k);
      assert c !in kids[..k];
      assert Snapshot(T).parent[c] == Some(x);
      assert x.children == Snapshot(T).children[x] == kids[k..];
      assert kids[k..][0] == c;
    }
  }

  /** Move all children of `node` to the end of the children of `newParent`. */
  method ReparentChildren(node: Node, newParent: Node, ghost S: set<Node>)
    requires node in S && newParent in S && F.Linked(Snapshot(S))
    modifies S
    ensures Snapshot(S) == F.Reparent(old(Snapshot(S)), node, newParent)
  {
    ghost var f := Snapshot(S);
    F.ReparentedAll(f, node, newParent);
    var kids := node.children;
    node.children := [];
    assert Snapshot(S) == F.Forest(f.parent, f.children[node := []]);
    for k := 0 to |kids|
      invariant Snapshot(S) == F.Reparented(f, node, newParent, k)
    {
      F.ReparentedStep(f, node, newParent, k);
      MoveCleared(kids[k], newParent, S);
    }
  }

  method MoveCleared(child: Node, newParent: Node, ghost S: set<Node>)
    requires child in S && newParent in S
    modifies S
    ensures var f := old(Snapshot(S)); var cleared := F.Forest(f.parent[child := None], f.children);
      F.CanDetach(cleared, child) && Snapshot(S) == F.Append(cleared, newParent, child)
  {
    ghost var f := Snapshot(S);
    child.parent := null;
    assert Snapshot(S) == F.Forest(f.parent[child := None], f.children);
    newParent.AppendChild(child, S);
  }

  // ---------------------------------------------------------------- serialization

  /** The events of the subtree, written by walking the child lists; the walk ends as there is no cycle. */
  method Serialize(n: Node, ghost S: set<Node>, ghost rank: map<Node, nat>) returns (out: seq<Tag>)
    requires n in S && F.WellFormed(Snapshot(S), rank)
    ensures out == Tags(Stream(Snapshot(S), rank, DataOf(S), n))
    decreases rank[n], 2
  {
    match n.data
    case Element(name, attrs) =>
      var inner := SerializeChildren(n, S, rank);
      out := [Start(name, attrs)] + inner + [End(name)];
      ghost var events := StreamAll(Snapshot(S), rank, DataOf(S), n.children, rank[n]);
      WrapTags(n, n.data, events);
    case Document => out := SerializeChildren(n, S, rank);
    case Text(text) => out := [Written(text)];
    case Other => out := [];
  }

  method SerializeChildren(n: Node, ghost S: set<Node>, ghost rank: map<Node, nat>) returns (out: seq<Tag>)
    requires n in S && F.WellFormed(Snapshot(S), rank)
    ensures out == Tags(StreamAll(Snapshot(S), rank, DataOf(S), n.children, rank[n]))
    decreases rank[n], 1
  {
    ghost var f, data, kids := Snapshot(S), DataOf(S), n.children;
    out := [];
    var it, child := StartChildren(n, S);
    ghost var k := 0;
    assert out == TagsOfFirst(f, rank, data, n, k);
    while child != null
      invariant k <= |kids| && Snapshot(S) == f && n.children == kids
      invariant child == NodeAt(kids, k) && it.next == NodeAt(kids, k + 1)
      invariant out == TagsOfFirst(f, rank, data, n, k)
      decreases |kids| - k
      modifies it
    {
      var events;
      events, child := SerializeOne(n, child, it, k, S, rank);
      OneMoreChild(f, rank, data, n, k);
      out := out + events;
      k := k + 1;
    }
    assert kids[..k] == kids;
  }

  /** An iterator over the children, and the first child it gives. */
  method StartChildren(n: Node, ghost S: set<Node>) returns (it: Children, child: Node?)
    requires n in S && F.Linked(Snapshot(S))
    ensures fresh(it) && child == NodeAt(n.children, 0) && it.next == NodeAt(n.children, 1)
  {
    var first := n.FirstChild();
    it := new Children(first);
    child := NextChild(it, n, 0, S);
  }

  /** Serialize the child at `k`, then ask the iterator for the next one. */
  method SerializeOne(n: Node, child: Node, it: Children, ghost k: nat, ghost S: set<Node>, ghost rank: map<Node, nat>)
    returns (events: seq<Tag>, next: Node?)
    requires n in S && F.WellFormed(Snapshot(S), rank)
    requires k < |n.children| && child == n.children[k] && it.next == NodeAt(n.children, k + 1)
    modifies it
    ensures child in S && events == Tags(Stream(Snapshot(S), rank, DataOf(S), child))
    ensures next == NodeAt(n.children, k + 1) && it.next == NodeAt(n.children, k + 2)
    decreases rank[n], 0
  {
    assert child in Snapshot(S).children[n];
    events := Serialize(child, S, rank);
    next := NextChild(it, n, k + 1, S);
  }

  /** The tags of the first `k` children. */
  ghost function TagsOfFirst(f: F.Forest<Node>, rank: map<Node, nat>, data: map<Node, NodeData>, n: Node, k: nat): seq<Tag>
    requires F.Ranked(f, rank) && f.children.Keys <= data.Keys && n in f.children && k <= |f.children[n]|
  {
    assert forall c :: c in f.children[n][..k] ==> c in f.children[n];
    Tags(StreamAll(f, rank, data, f.children[n][..k], rank[n]))
  }

  lemma OneMoreChild(f: F.Forest<Node>, rank: map<Node, nat>, data: map<Node, NodeData>, n: Node, k: nat)
    requires F.Ranked(f, rank) && f.children.Keys <= data.Keys && n in f.children && k < |f.children[n]|
    ensures f.children[n][k] in f.children
    ensures TagsOfFirst(f, rank, data, n, k + 1)
         == TagsOfFirst(f, rank, data, n, k) + Tags(Stream(f, rank, data, f.children[n][k]))
  {
    var kids := f.children[n];
    assert kids[k] in kids;
    assert forall c :: c in kids[..k + 1] ==> c in kids;
    assert kids[..k + 1][..k] == kids[..k];
    TagsConcat(StreamAll(f, rank, data, kids[..k], rank[n]), Stream(f, rank, data, kids[k]));
  }

  /** Ask an iterator that holds the child at `k` for it. */
  method NextChild(it: Children, n: Node, ghost k: nat, ghost S: set<Node>) returns (r: Node?)
    requires n in S && F.Linked(Snapshot(S)) && k <= |n.children| && it.next == NodeAt(n.children, k)
    modifies it
    ensures r == NodeAt(n.children, k) && it.next == NodeAt(n.children, k + 1)
  {
    ChildFollows(Snapshot(S), n, k, S);
    r := it.Next(S);
  }

  /** In a well-linked tree each child is followed by the next one in the list. */
  lemma ChildFollows(f: F.Forest<Node>, n: Node, k: nat, S: set<Node>)
    requires n in S && F.Linked(f) && Snapshot(S) == f && k <= |n.children|
    ensures k < |n.children| ==>
      && var c := n.children[k];
      && c in S && F.CanDetach(f, c)
      && (c.parent != null ==> c in c.parent.children)
      && Following(c) == NodeAt(n.children, k + 1)
  {
    if k < |n.children| {
      var kids := n.children;
      var c := kids[k];
      assert kids == f.children[n] && c in kids;
      assert f.parent[c] == Some(n);
      assert c !in kids[..k];
      F.IndexIs(kids, c, k);
    }
  }

  function NodeAt(s: seq<Node>, i: nat): Node? {
    if i < |s| then s[i] else null
  }
}
