/** The event stream a tree is serialized to, and what the operations do to it. */
module HtmlStream {
  import opened Orders
  import opened HtmlForest

  datatype Name = Name(space: string, local: string)

  datatype Attribute = Attribute(name: Name, value: string)

  datatype NodeData =
    | Document
    | Text(text: string)
    | Element(name: Name, attrs: seq<Attribute>)
    | Other

  datatype Tag =
    | Start(name: Name, attrs: seq<Attribute>)
    | End(name: Name)
    | Written(text: string)

  // ---------------------------------------------------------------- the stream

  /** An element's tags around the events of its children. */
  function Wrap<N>(n: N, element: NodeData, inner: seq<(N, Tag)>): seq<(N, Tag)>
    requires element.Element?
  {
    [(n, Start(element.name, element.attrs))] + inner + [(n, End(element.name))]
  }

  /** The events of a subtree in document order, each with the node it stands for. */
  ghost function Stream<N>(f: Forest<N>, rank: map<N, nat>, data: map<N, NodeData>, n: N): seq<(N, Tag)>
    requires Ranked(f, rank) && f.children.Keys <= data.Keys && n in f.children
    decreases rank[n], |f.children[n]| + 1
  {
    match data[n]
    case Element(_, _) => Wrap(n, data[n], StreamAll(f, rank, data, f.children[n], rank[n]))
    case Document => StreamAll(f, rank, data, f.children[n], rank[n])
    case Text(text) => [(n, Written(text))]
    case Other => []
  }

  ghost function StreamAll<N>(f: Forest<N>, rank: map<N, nat>, data: map<N, NodeData>, kids: seq<N>, bound: nat): seq<(N, Tag)>
    requires Ranked(f, rank) && f.children.Keys <= data.Keys
    requires forall c :: c in kids ==> c in f.children && rank[c] < bound
    decreases bound, |kids|
  {
    if kids == [] then []
    else
      StreamAll(f, rank, data, kids[..|kids| - 1], bound) + Stream(f, rank, data, kids[|kids| - 1])
  }

  function Tags<N>(s: seq<(N, Tag)>): seq<Tag> {
    seq(|s|, i requires 0 <= i < |s| => s[i].1)
  }

  lemma TagsConcat<N>(s: seq<(N, Tag)>, t: seq<(N, Tag)>)
    ensures Tags(s + t) == Tags(s) + Tags(t)
  {
  }

  lemma WrapTags<N>(n: N, element: NodeData, inner: seq<(N, Tag)>)
    requires element.Element?
    ensures Tags(Wrap(n, element, inner)) == [Start(element.name, element.attrs)] + Tags(inner) + [End(element.name)]
  {
  }

  // ---------------------------------------------------------------- reading a stream back

  /** An algebraic tree: what of a node the stream is to show. */
  datatype Tree = Branch(name: Name, attrs: seq<Attribute>, kids: seq<Tree>) | Leaf(text: string)

  /** A document shows as its children, and nodes of other kinds not at all. */
  ghost function TreesOf<N>(f: Forest<N>, rank: map<N, nat>, data: map<N, NodeData>, n: N): seq<Tree>
    requires Ranked(f, rank) && f.children.Keys <= data.Keys && n in f.children
    decreases rank[n], |f.children[n]| + 1
  {
    match data[n]
    case Element(name, attrs) => [Branch(name, attrs, TreesOfAll(f, rank, data, f.children[n], rank[n]))]
    case Document => TreesOfAll(f, rank, data, f.children[n], rank[n])
    case Text(text) => [Leaf(text)]
    case Other => []
  }

  ghost function TreesOfAll<N>(f: Forest<N>, rank: map<N, nat>, data: map<N, NodeData>, kids: seq<N>, bound: nat): seq<Tree>
    requires Ranked(f, rank) && f.children.Keys <= data.Keys
    requires forall c :: c in kids ==> c in f.children && rank[c] < bound
    decreases bound, |kids|
  {
    if kids == [] then []
    else TreesOfAll(f, rank, data, kids[..|kids| - 1], bound) + TreesOf(f, rank, data, kids[|kids| - 1])
  }

  /** An element whose end tag is still to come, with the trees before it. */
  datatype Open = Open(name: Name, attrs: seq<Attribute>, before: seq<Tree>)

  /** Read a stream with a stack of open elements; `None` where tags do not match. */
  function Read(tags: seq<Tag>, open: seq<Open>, done: seq<Tree>): Option<seq<Tree>>
    decreases |tags|
  {
    if tags == [] then if open == [] then Some(done) else None
    else
      match tags[0]
      case Start(name, attrs) => Read(tags[1..], open + [Open(name, attrs, done)], [])
      case Written(text) => Read(tags[1..], open, done + [Leaf(text)])
      case End(name) =>
        if open == [] || open[|open| - 1].name != name then None
        else
          var top := open[|open| - 1];
          Read(tags[1..], open[..|open| - 1], top.before + [Branch(top.name, top.attrs, done)])
  }

  lemma ReadStart(name: Name, attrs: seq<Attribute>, rest: seq<Tag>, open: seq<Open>, done: seq<Tree>)
    ensures Read([Start(name, attrs)] + rest, open, done) == Read(rest, open + [Open(name, attrs, done)], [])
  {
    assert ([Start(name, attrs)] + rest)[1..] == rest;
  }

  lemma ReadEnd(top: Open, rest: seq<Tag>, open: seq<Open>, done: seq<Tree>)
    ensures Read([End(top.name)] + rest, open + [top], done)
         == Read(rest, open, top.before + [Branch(top.name, top.attrs, done)])
  {
    assert ([End(top.name)] + rest)[1..] == rest;
    assert (open + [top])[..|open|] == open;
  }

  lemma ReadWritten(text: string, rest: seq<Tag>, open: seq<Open>, done: seq<Tree>)
    ensures Read([Written(text)] + rest, open, done) == Read(rest, open, done + [Leaf(text)])
  {
    assert ([Written(text)] + rest)[1..] == rest;
  }

  lemma {:induction false} ReadNode<N>(f: Forest<N>, rank: map<N, nat>, data: map<N, NodeData>, n: N,
                                       rest: seq<Tag>, open: seq<Open>, done: seq<Tree>)
    requires Ranked(f, rank) && f.children.Keys <= data.Keys && n in f.children
    ensures Read(Tags(Stream(f, rank, data, n)) + rest, open, done) == Read(rest, open, done + TreesOf(f, rank, data, n))
    decreases rank[n], |f.children[n]| + 1
  {
    var kids, bound := f.children[n], rank[n];
    match data[n]
    case Element(name, attrs) =>
      var inner := StreamAll(f, rank, data, kids, bound);
      var top := Open(name, attrs, done);
      WrapTags(n, data[n], inner);
      assert Tags(Stream(f, rank, data, n)) + rest == [Start(name, attrs)] + (Tags(inner) + ([End(name)] + rest));
      ReadStart(name, attrs, Tags(inner) + ([End(name)] + rest), open, done);
      ReadNodes(f, rank, data, kids, bound, [End(name)] + rest, open + [top], []);
      assert [] + TreesOfAll(f, rank, data, kids, bound) == TreesOfAll(f, rank, data, kids, bound);
      ReadEnd(top, rest, open, TreesOfAll(f, rank, data, kids, bound));
    case Document => ReadNodes(f, rank, data, kids, bound, rest, open, done);
    case Text(text) =>
      assert Tags(Stream(f, rank, data, n)) == [Written(text)];
      ReadWritten(text, rest, open, done);
    case Other =>
      assert Tags(Stream(f, rank, data, n)) + rest == rest && done + [] == done;
  }

  lemma {:induction false} ReadNodes<N>(f: Forest<N>, rank: map<N, nat>, data: map<N, NodeData>, kids: seq<N>, bound: nat,
                                        rest: seq<Tag>, open: seq<Open>, done: seq<Tree>)
    requires Ranked(f, rank) && f.children.Keys <= data.Keys
    requires forall c :: c in kids ==> c in f.children && rank[c] < bound
    ensures Read(Tags(StreamAll(f, rank, data, kids, bound)) + rest, open, done)
         == Read(rest, open, done + TreesOfAll(f, rank, data, kids, bound))
    decreases bound, |kids|
  {
    if kids == [] {
      assert Tags(StreamAll(f, rank, data, kids, bound)) + rest == rest && done + [] == done;
    } else {
      var front, last := kids[..|kids| - 1], kids[|kids| - 1];
      var s, t := StreamAll(f, rank, data, front, bound), Stream(f, rank, data, last);
      var a, b := TreesOfAll(f, rank, data, front, bound), TreesOf(f, rank, data, last);
      TagsConcat(s, t);
      assert Tags(s) + Tags(t) + rest == Tags(s) + (Tags(t) + rest);
      ReadNodes(f, rank, data, front, bound, Tags(t) + rest, open, done);
      ReadNode(f, rank, data, last, rest, open, done + a);
      assert done + a + b == done + (a + b);
    }
  }

  /** Tags match, and reading the stream of any subtree gives back its tree. */
  lemma StreamReadsBack<N>(f: Forest<N>, rank: map<N, nat>, data: map<N, NodeData>, n: N)
    requires Ranked(f, rank) && f.children.Keys <= data.Keys && n in f.children
    ensures Read(Tags(Stream(f, rank, data, n)), [], []) == Some(TreesOf(f, rank, data, n))
  {
    ReadNode(f, rank, data, n, [], [], []);
    assert Tags(Stream(f, rank, data, n)) + [] == Tags(Stream(f, rank, data, n));
    assert [] + TreesOf(f, rank, data, n) == TreesOf(f, rank, data, n);
  }

  // ---------------------------------------------------------------- renaming an element

  function RenamedTag(tag: Tag, local: string): Tag {
    match tag
    case Start(name, attrs) => Start(name.(local := local), attrs)
    case End(name) => End(name.(local := local))
    case Written(_) => tag
  }

  /** Events of `x` become events of `y` under the new name; all others stay. */
  function Relabel<N(==)>(e: (N, Tag), x: N, y: N, local: string): (N, Tag) {
    if e.0 == x then (y, RenamedTag(e.1, local)) else e
  }

  function RelabelAll<N(==)>(s: seq<(N, Tag)>, x: N, y: N, local: string): seq<(N, Tag)> {
    seq(|s|, i requires 0 <= i < |s| => Relabel(s[i], x, y, local))
  }

  lemma RelabelConcat<N>(s: seq<(N, Tag)>, t: seq<(N, Tag)>, x: N, y: N, local: string)
    ensures RelabelAll(s + t, x, y, local) == RelabelAll(s, x, y, local) + RelabelAll(t, x, y, local)
  {
  }

  /** The setting of a renaming: element `x` is replaced by the new node `y` with another local name. */
  ghost predicate Renames<N>(f: Forest<N>, rank: map<N, nat>, data: map<N, NodeData>, x: N, y: N, local: string) {
    && WellFormed(f, rank) && f.children.Keys <= data.Keys
    && x in f.children && y !in f.children && data[x].Element?
  }

  ghost function RenamedData<N>(data: map<N, NodeData>, x: N, y: N, local: string): map<N, NodeData>
    requires x in data && data[x].Element?
  {
    data[y := Element(data[x].name.(local := local), data[x].attrs)]
  }

  function Sub<N(==)>(n: N, x: N, y: N): N { if n == x then y else n }

  lemma RenamedRanks<N>(f: Forest<N>, rank: map<N, nat>, data: map<N, NodeData>, x: N, y: N, local: string)
    requires Renames(f, rank, data, x, y, local)
    ensures Ranked(Replace(f, x, y), rank[y := rank[x]])
    ensures Replace(f, x, y).children.Keys <= RenamedData(data, x, y, local).Keys
  {
    ReplaceWellFormed(f, rank, x, y);
  }

  lemma RenamedNode<N>(f: Forest<N>, rank: map<N, nat>, data: map<N, NodeData>, x: N, y: N, local: string, n: N)
    requires Renames(f, rank, data, x, y, local) && n in f.children
    ensures var h, m := Replace(f, x, y), Sub(n, x, y);
      && m in h.children
      && h.children[m] == ReplaceIn(f.children[n], x, y)
      && rank[y := rank[x]][m] == rank[n]
      && RenamedData(data, x, y, local)[m]
           == if n == x then Element(data[x].name.(local := local), data[x].attrs) else data[n]
  {
  }

  /**
   * The stream of any subtree changes only in the events of the renamed element: its start and end
   * tag carry the new local name, with the same attributes, at the same places.
   */
  lemma {:induction false} RenameChangesOnlyItsTags<N>(f: Forest<N>, rank: map<N, nat>, data: map<N, NodeData>,
                                                       x: N, y: N, local: string, n: N)
    requires Renames(f, rank, data, x, y, local) && n in f.children
    ensures var h, r, e := Replace(f, x, y), rank[y := rank[x]], RenamedData(data, x, y, local);
      && Ranked(h, r) && h.children.Keys <= e.Keys && Sub(n, x, y) in h.children
      && Stream(h, r, e, Sub(n, x, y)) == RelabelAll(Stream(f, rank, data, n), x, y, local)
    decreases rank[n], |f.children[n]| + 1
  {
    var kids := f.children[n];
    assert forall c :: c in kids ==> c in f.children && rank[c] < rank[n];
    RenamedRanks(f, rank, data, x, y, local);
    RenamedNode(f, rank, data, x, y, local, n);
    if data[n].Element? || data[n].Document? {
      RenameChangesAll(f, rank, data, x, y, local, kids, rank[n]);
      if data[n].Element? {
        RelabelElement(n, data[n], StreamAll(f, rank, data, kids, rank[n]), x, y, local);
      }
    }
  }

  lemma RelabelElement<N>(n: N, element: NodeData, inner: seq<(N, Tag)>, x: N, y: N, local: string)
    requires element.Element?
    ensures RelabelAll(Wrap(n, element, inner), x, y, local)
         == Wrap(Sub(n, x, y), if n == x then Element(element.name.(local := local), element.attrs) else element,
                 RelabelAll(inner, x, y, local))
  {
  }

  lemma {:induction false} RenameChangesAll<N>(f: Forest<N>, rank: map<N, nat>, data: map<N, NodeData>,
                                               x: N, y: N, local: string, kids: seq<N>, bound: nat)
    requires Renames(f, rank, data, x, y, local)
    requires forall c :: c in kids ==> c in f.children && rank[c] < bound
    ensures var h, r, e := Replace(f, x, y), rank[y := rank[x]], RenamedData(data, x, y, local);
      && Ranked(h, r) && h.children.Keys <= e.Keys
      && (forall c :: c in ReplaceIn(kids, x, y) ==> c in h.children && r[c] < bound)
      && StreamAll(h, r, e, ReplaceIn(kids, x, y), bound) == RelabelAll(StreamAll(f, rank, data, kids, bound), x, y, local)
    decreases bound, |kids|
  {
    var h, r, e := Replace(f, x, y), rank[y := rank[x]], RenamedData(data, x, y, local);
    RenamedRanks(f, rank, data, x, y, local);
    var after := ReplaceIn(kids, x, y);
    forall c | c in after ensures c in h.children && r[c] < bound {
      var i :| 0 <= i < |after| && after[i] == c;
      assert c == Sub(kids[i], x, y) && kids[i] in kids;
      RenamedNode(f, rank, data, x, y, local, kids[i]);
    }
    if kids != [] {
      var front, last := kids[..|kids| - 1], kids[|kids| - 1];
      assert after[..|kids| - 1] == ReplaceIn(front, x, y) && after[|kids| - 1] == Sub(last, x, y);
      RenameChangesAll(f, rank, data, x, y, local, front, bound);
      RenameChangesOnlyItsTags(f, rank, data, x, y, local, last);
      RelabelConcat(StreamAll(f, rank, data, front, bound), Stream(f, rank, data, last), x, y, local);
    }
  }
}
