/** Nodes with parent links and child lists, as values: the shape the HTML tree operations keep. */
module HtmlForest {
  import opened Orders

  /** The parent and the children of each node. */
  datatype Forest<N> = Forest(parent: map<N, Option<N>>, children: map<N, seq<N>>) {
    function Nodes(): set<N> { children.Keys }
  }

  /** Each node is listed once by the parent it points to, and by no other node. */
  ghost predicate Linked<N>(f: Forest<N>) {
    f.parent.Keys == f.children.Keys && ListsOnce(f) && ChildrenPointUp(f) && ParentsList(f)
  }

  ghost predicate ListsOnce<N>(f: Forest<N>) {
    forall n :: n in f.children ==> Distinct(f.children[n])
  }

  ghost predicate ChildrenPointUp<N>(f: Forest<N>) {
    forall n, c :: n in f.children && c in f.children[n] ==> c in f.parent && f.parent[c] == Some(n)
  }

  ghost predicate ParentsList<N>(f: Forest<N>) {
    forall n :: n in f.parent && f.parent[n].Some? ==>
      f.parent[n].value in f.children && n in f.children[f.parent[n].value]
  }

  /** Every node ranks above its children, so no node is below itself. */
  ghost predicate Ranked<N>(f: Forest<N>, rank: map<N, nat>) {
    && f.children.Keys <= rank.Keys
    && forall n, c :: n in f.children && c in f.children[n] ==> c in f.children && rank[c] < rank[n]
  }

  ghost predicate WellFormed<N>(f: Forest<N>, rank: map<N, nat>) {
    Linked(f) && Ranked(f, rank)
  }

  /** The node and everything below it. */
  ghost function Subtree<N>(f: Forest<N>, rank: map<N, nat>, n: N): set<N>
    requires Ranked(f, rank) && n in f.children
    decreases rank[n]
  {
    {n} + set c, d | c in f.children[n] && d in Subtree(f, rank, c) :: d
  }

  // ---------------------------------------------------------------- operations

  function Without<N(==)>(s: seq<N>, x: N): seq<N>
    requires x in s
  {
    var i := IndexOf(s, x);
    s[..i] + s[i + 1..]
  }

  function PutBefore<N(==)>(s: seq<N>, x: N, sibling: N): seq<N>
    requires sibling in s
  {
    var i := IndexOf(s, sibling);
    s[..i] + [x] + s[i..]
  }

  /** The node's parent, if it has one, lists it. */
  ghost predicate CanDetach<N>(f: Forest<N>, n: N) {
    && n in f.parent
    && (f.parent[n].Some? ==> f.parent[n].value in f.children && n in f.children[f.parent[n].value])
  }

  ghost function Detach<N>(f: Forest<N>, n: N): Forest<N>
    requires CanDetach(f, n)
  {
    match f.parent[n]
    case None => f
    case Some(p) => Forest(f.parent[n := None], f.children[p := Without(f.children[p], n)])
  }

  ghost function Append<N>(f: Forest<N>, p: N, c: N): Forest<N>
    requires CanDetach(f, c) && p in f.children
  {
    var g := Detach(f, c);
    Forest(g.parent[c := Some(p)], g.children[p := g.children[p] + [c]])
  }

  ghost function InsertBefore<N>(f: Forest<N>, n: N, sibling: N): Forest<N>
    requires CanDetach(f, n) && CanDetach(f, sibling) && n != sibling && f.parent[sibling].Some?
  {
    var g := Detach(f, n);
    DetachKeepsSibling(f, n, sibling);
    var p := g.parent[sibling].value;
    Forest(g.parent[n := Some(p)], g.children[p := PutBefore(g.children[p], n, sibling)])
  }

  lemma DetachKeepsSibling<N>(f: Forest<N>, n: N, sibling: N)
    requires CanDetach(f, n) && CanDetach(f, sibling) && n != sibling && f.parent[sibling].Some?
    ensures CanDetach(Detach(f, n), sibling) && Detach(f, n).parent[sibling] == f.parent[sibling]
  {
  }

  lemma WithoutMembers<N>(s: seq<N>, x: N)
    requires Distinct(s) && x in s
    ensures Distinct(Without(s, x)) && Elems(Without(s, x)) == Elems(s) - {x}
  {
  }

  lemma PutBeforeMembers<N>(s: seq<N>, x: N, sibling: N)
    requires Distinct(s) && sibling in s && x !in s
    ensures Distinct(PutBefore(s, x, sibling)) && Elems(PutBefore(s, x, sibling)) == Elems(s) + {x}
  {
  }

  lemma DetachLinked<N>(f: Forest<N>, n: N)
    requires Linked(f) && n in f.children
    ensures Linked(Detach(f, n)) && Detach(f, n).children.Keys == f.children.Keys
    ensures Detach(f, n).parent == f.parent[n := None]
  {
    var g := Detach(f, n);
    if f.parent[n].Some? {
      var p := f.parent[n].value;
      WithoutMembers(f.children[p], n);
      assert forall c :: c in g.children[p] <==> c in Elems(g.children[p]);
      assert forall c :: c in f.children[p] <==> c in Elems(f.children[p]);
    } else {
      assert f.parent[n := None] == f.parent;
    }
  }

  /** A node without a parent becomes a child of `p`, which lists it once among `kids`. */
  lemma AttachLinked<N>(g: Forest<N>, p: N, c: N, kids: seq<N>)
    requires Linked(g) && p in g.children && c in g.children && g.parent[c] == None
    requires Distinct(kids) && Elems(kids) == Elems(g.children[p]) + {c}
    ensures Linked(Forest(g.parent[c := Some(p)], g.children[p := kids]))
  {
    var h := Forest(g.parent[c := Some(p)], g.children[p := kids]);
    forall n, x | n in h.children && x in h.children[n] ensures x in h.parent && h.parent[x] == Some(n) {
      if n == p { assert x in Elems(kids); assert x == c || x in g.children[p]; }
    }
    forall n | n in h.parent && h.parent[n].Some?
      ensures h.parent[n].value in h.children && n in h.children[h.parent[n].value]
    {
      if h.parent[n].value == p {
        assert n == c || n in Elems(g.children[p]);
        assert n in Elems(kids);
      }
    }
  }

  lemma Unlisted<N>(g: Forest<N>, p: N, c: N)
    requires Linked(g) && p in g.children && c in g.children && g.parent[c] == None
    ensures c !in g.children[p]
  {
  }

  lemma AppendLinked<N>(f: Forest<N>, p: N, c: N)
    requires Linked(f) && p in f.children && c in f.children
    ensures Linked(Append(f, p, c)) && Append(f, p, c).children.Keys == f.children.Keys
  {
    var g := Detach(f, c);
    DetachLinked(f, c);
    Unlisted(g, p, c);
    DistinctAppend(g.children[p], c);
    ElemsAppend(g.children[p], c);
    AttachLinked(g, p, c, g.children[p] + [c]);
  }

  lemma InsertBeforeLinked<N>(f: Forest<N>, n: N, sibling: N)
    requires Linked(f) && n in f.children && sibling in f.children && n != sibling && f.parent[sibling].Some?
    ensures Linked(InsertBefore(f, n, sibling)) && InsertBefore(f, n, sibling).children.Keys == f.children.Keys
  {
    var g := Detach(f, n);
    DetachLinked(f, n);
    var p := g.parent[sibling].value;
    assert n !in g.children[p];
    PutBeforeMembers(g.children[p], n, sibling);
    AttachLinked(g, p, n, PutBefore(g.children[p], n, sibling));
  }

  // ---------------------------------------------------------------- where nodes end up

  /** The lists of `f` without `n`, in the same order. */
  ghost predicate ListsWithout<N>(f: Forest<N>, n: N, h: Forest<N>, but: set<N>) {
    h.children.Keys == f.children.Keys && forall m :: m in f.children && m !in but ==> h.children[m] == Minus(f.children[m], n)
  }

  /** `n` has no parent and is in no list; the others keep their order and their parents. */
  ghost predicate TakenOut<N>(f: Forest<N>, h: Forest<N>, n: N) {
    ListsWithout(f, n, h, {}) && h.parent == f.parent[n := None]
  }

  /** `c` is the last child of `p` and in no other list. */
  ghost predicate PlacedLast<N>(f: Forest<N>, h: Forest<N>, p: N, c: N) {
    && ListsWithout(f, c, h, {p}) && h.parent == f.parent[c := Some(p)]
    && p in f.children && p in h.children && h.children[p] == Minus(f.children[p], c) + [c]
  }

  /** `n` is directly before `sibling` among the children of its parent `p`, and in no other list. */
  ghost predicate PlacedBefore<N>(f: Forest<N>, h: Forest<N>, n: N, sibling: N, p: N) {
    && ListsWithout(f, n, h, {p}) && h.parent == f.parent[n := Some(p)]
    && p in f.children && p in h.children
    && Minus(h.children[p], n) == Minus(f.children[p], n) && JustBefore(h.children[p], n, sibling)
  }

  ghost predicate JustBefore<N>(s: seq<N>, x: N, y: N) {
    exists i :: 0 <= i < |s| - 1 && s[i] == x && s[i + 1] == y
  }

  lemma {:induction false} WithoutIsMinus<N>(s: seq<N>, x: N)
    requires Distinct(s) && x in s
    ensures Without(s, x) == Minus(s, x)
  {
    var i := IndexOf(s, x);
    assert s == s[..i] + [x] + s[i + 1..];
    MinusOne(s[..i], x, s[i + 1..]);
  }

  lemma {:induction false} PutBeforePlace<N>(s: seq<N>, x: N, sibling: N)
    requires sibling in s && x !in s
    ensures Minus(PutBefore(s, x, sibling), x) == s && JustBefore(PutBefore(s, x, sibling), x, sibling)
  {
    var i, t := IndexOf(s, sibling), PutBefore(s, x, sibling);
    MinusOne(s[..i], x, s[i..]);
    assert s[..i] + s[i..] == s;
    assert t[i] == x && t[i + 1] == sibling;
  }

  lemma DetachTakesOut<N>(f: Forest<N>, n: N)
    requires Linked(f) && n in f.children
    ensures TakenOut(f, Detach(f, n), n)
  {
    forall m | m in f.children ensures Detach(f, n).children[m] == Minus(f.children[m], n) {
      if f.parent[n] == Some(m) { WithoutIsMinus(f.children[m], n); } else { MinusAbsent(f.children[m], n); }
    }
    if f.parent[n].None? { assert f.parent[n := None] == f.parent; }
  }

  lemma AppendPlacesLast<N>(f: Forest<N>, p: N, c: N)
    requires Linked(f) && p in f.children && c in f.children
    ensures PlacedLast(f, Append(f, p, c), p, c)
  {
    DetachTakesOut(f, c);
    assert f.parent[c := None][c := Some(p)] == f.parent[c := Some(p)];
  }

  lemma InsertBeforePlaces<N>(f: Forest<N>, n: N, sibling: N, p: N)
    requires Linked(f) && n in f.children && sibling in f.children && n != sibling && f.parent[sibling] == Some(p)
    ensures PlacedBefore(f, InsertBefore(f, n, sibling), n, sibling, p)
  {
    DetachTakesOut(f, n);
    DetachKeepsSibling(f, n, sibling);
    InsertedLists(f, Detach(f, n), n, sibling, p);
  }

  lemma InsertedLists<N>(f: Forest<N>, g: Forest<N>, n: N, sibling: N, p: N)
    requires TakenOut(f, g, n) && p in f.children && sibling in g.children[p]
    ensures PlacedBefore(f, Forest(g.parent[n := Some(p)], g.children[p := PutBefore(g.children[p], n, sibling)]), n, sibling, p)
  {
    MinusElems(f.children[p], n);
    assert n !in Elems(g.children[p]);
    PutBeforePlace(g.children[p], n, sibling);
    assert f.parent[n := None][n := Some(p)] == f.parent[n := Some(p)];
  }

  // ---------------------------------------------------------------- no cycles

  lemma DetachRanked<N>(f: Forest<N>, rank: map<N, nat>, n: N)
    requires WellFormed(f, rank) && n in f.children
    ensures Ranked(Detach(f, n), rank)
  {
    if f.parent[n].Some? {
      var p := f.parent[n].value;
      WithoutMembers(f.children[p], n);
      assert forall c :: c in Without(f.children[p], n) ==> c in Elems(Without(f.children[p], n));
      assert forall c :: c in Elems(f.children[p]) ==> c in f.children[p];
    }
  }

  /** The rank of `n` when everything above `p` is lifted. */
  ghost function Lift<N>(g: Forest<N>, rank: map<N, nat>, p: N, k: nat, n: N): nat
    requires Ranked(g, rank) && n in g.children
  {
    rank[n] + (if p in Subtree(g, rank, n) then k else 0)
  }

  ghost function Lifted<N>(g: Forest<N>, rank: map<N, nat>, p: N, k: nat): map<N, nat>
    requires Ranked(g, rank)
  {
    map n | n in g.children :: Lift(g, rank, p, k, n)
  }

  /** `x` can be put below `p` once everything above `p` is lifted: `p` is not below `x`. */
  ghost predicate FitsBelow<N>(g: Forest<N>, rank: map<N, nat>, p: N, k: nat, x: N)
    requires Ranked(g, rank)
  {
    x in g.children && p !in Subtree(g, rank, x) && rank[x] < k
  }

  ghost predicate AllFitBelow<N>(g: Forest<N>, rank: map<N, nat>, p: N, k: nat, more: set<N>)
    requires Ranked(g, rank)
  {
    forall x :: x in more ==> FitsBelow(g, rank, p, k, x)
  }

  lemma LiftedEdge<N>(g: Forest<N>, rank: map<N, nat>, p: N, k: nat, n: N, x: N)
    requires Ranked(g, rank) && n in g.children
    requires x in g.children[n] || (n == p && FitsBelow(g, rank, p, k, x))
    ensures x in g.children && Lift(g, rank, p, k, x) < Lift(g, rank, p, k, n)
  {
  }

  /** `h` has edges of `g`, and perhaps some from `p` to nodes of `more`. */
  ghost predicate AddsBelow<N>(g: Forest<N>, p: N, more: set<N>, h: Forest<N>) {
    && h.children.Keys == g.children.Keys
    && forall n, x :: n in h.children && x in h.children[n] ==> x in g.children[n] || (n == p && x in more)
  }

  /** Adding nodes below `p` keeps the forest ranked if `p` is below none of them. */
  lemma LiftedRanks<N>(g: Forest<N>, rank: map<N, nat>, p: N, k: nat, more: set<N>, h: Forest<N>)
    requires Ranked(g, rank) && p in g.children && AddsBelow(g, p, more, h)
    requires AllFitBelow(g, rank, p, k, more)
    ensures Ranked(h, Lifted(g, rank, p, k))
  {
    var lifted := Lifted(g, rank, p, k);
    forall n, x | n in h.children && x in h.children[n] ensures x in h.children && lifted[x] < lifted[n] {
      if x !in g.children[n] { assert x in more; }
      LiftedEdge(g, rank, p, k, n, x);
    }
  }

  /** A node may be moved below another unless that is the node itself or below it. */
  ghost predicate MayMove<N>(f: Forest<N>, rank: map<N, nat>, moved: N, to: N)
    requires Ranked(f, rank) && moved in f.children
  {
    to !in Subtree(f, rank, moved)
  }

  /** Detaching removes one edge and adds none. */
  lemma DetachEdges<N>(f: Forest<N>, c: N)
    requires Linked(f) && c in f.children
    ensures Detach(f, c).children.Keys == f.children.Keys
    ensures forall n, x :: n in f.children && x in Detach(f, c).children[n] ==> x in f.children[n]
  {
  }

  /** Ranks that fit after `c` is moved below `p`. */
  ghost function MovedRank<N>(f: Forest<N>, rank: map<N, nat>, p: N, c: N): map<N, nat>
    requires Ranked(f, rank) && c in f.children
  {
    Lifted(f, rank, p, rank[c] + 1)
  }

  lemma MovedRanks<N>(f: Forest<N>, rank: map<N, nat>, p: N, c: N, h: Forest<N>)
    requires Ranked(f, rank) && p in f.children && c in f.children && MayMove(f, rank, c, p)
    requires AddsBelow(f, p, {c}, h)
    ensures Ranked(h, MovedRank(f, rank, p, c))
  {
    MovedFits(f, rank, p, c);
    LiftedRanks(f, rank, p, rank[c] + 1, {c}, h);
  }

  lemma MovedFits<N>(f: Forest<N>, rank: map<N, nat>, p: N, c: N)
    requires Ranked(f, rank) && c in f.children && MayMove(f, rank, c, p)
    ensures AllFitBelow(f, rank, p, rank[c] + 1, {c})
  {
  }

  lemma AppendWellFormed<N>(f: Forest<N>, rank: map<N, nat>, p: N, c: N)
    requires WellFormed(f, rank) && p in f.children && c in f.children && MayMove(f, rank, c, p)
    ensures WellFormed(Append(f, p, c), MovedRank(f, rank, p, c))
  {
    AppendLinked(f, p, c);
    DetachEdges(f, c);
    assert AddsBelow(f, p, {c}, Append(f, p, c));
    MovedRanks(f, rank, p, c, Append(f, p, c));
  }

  lemma InsertBeforeWellFormed<N>(f: Forest<N>, rank: map<N, nat>, n: N, sibling: N, p: N)
    requires WellFormed(f, rank) && n in f.children && sibling in f.children && n != sibling
    requires f.parent[sibling] == Some(p) && MayMove(f, rank, n, p)
    ensures WellFormed(InsertBefore(f, n, sibling), MovedRank(f, rank, p, n))
  {
    InsertBeforeLinked(f, n, sibling);
    InsertBeforeAdds(f, n, sibling);
    MovedRanks(f, rank, p, n, InsertBefore(f, n, sibling));
  }

  lemma InsertBeforeAdds<N>(f: Forest<N>, n: N, sibling: N)
    requires Linked(f) && n in f.children && sibling in f.children && n != sibling && f.parent[sibling].Some?
    ensures AddsBelow(f, f.parent[sibling].value, {n}, InsertBefore(f, n, sibling))
  {
    var g, p := Detach(f, n), f.parent[sibling].value;
    DetachLinked(f, n);
    DetachEdges(f, n);
    PutBeforeMembers(g.children[p], n, sibling);
    var kids := PutBefore(g.children[p], n, sibling);
    forall x | x in kids ensures x in g.children[p] || x == n { assert x in Elems(kids); }
  }

  // ---------------------------------------------------------------- moves that make a cycle

  /** The edges from nodes of rank at most `k` are all still there. */
  ghost predicate KeepsBelow<N>(f: Forest<N>, rank: map<N, nat>, k: nat, h: Forest<N>)
    requires Ranked(f, rank)
  {
    h.children.Keys == f.children.Keys &&
    forall n, x :: n in f.children && rank[n] <= k && x in f.children[n] ==> x in h.children[n]
  }

  lemma {:induction false} SubtreeStaysBelow<N>(f: Forest<N>, rank: map<N, nat>, k: nat, h: Forest<N>, r: map<N, nat>, n: N, d: N)
    requires Ranked(f, rank) && Ranked(h, r) && KeepsBelow(f, rank, k, h)
    requires n in f.children && rank[n] <= k && d in Subtree(f, rank, n)
    ensures d in h.children && r[d] <= r[n]
    decreases rank[n]
  {
    if d != n {
      var c :| c in f.children[n] && d in Subtree(f, rank, c);
      assert c in h.children[n];
      SubtreeStaysBelow(f, rank, k, h, r, c, d);
    }
  }

  /** A node put below itself, or below a node under it, closes a cycle: no ranks fit. */
  lemma MoveMakesCycle<N>(f: Forest<N>, rank: map<N, nat>, p: N, c: N, h: Forest<N>, r: map<N, nat>)
    requires Ranked(f, rank) && c in f.children && !MayMove(f, rank, c, p) && KeepsBelow(f, rank, rank[c], h)
    requires p in h.children && c in h.children[p]
    ensures !Ranked(h, r)
  {
    if Ranked(h, r) { SubtreeStaysBelow(f, rank, rank[c], h, r, c, p); }
  }

  lemma DetachKeepsBelow<N>(f: Forest<N>, rank: map<N, nat>, c: N)
    requires WellFormed(f, rank) && c in f.children
    ensures KeepsBelow(f, rank, rank[c], Detach(f, c))
  {
    if f.parent[c].Some? {
      var p := f.parent[c].value;
      assert c in f.children[p];
    }
  }

  lemma AppendMakesCycle<N>(f: Forest<N>, rank: map<N, nat>, p: N, c: N, r: map<N, nat>)
    requires WellFormed(f, rank) && p in f.children && c in f.children && !MayMove(f, rank, c, p)
    ensures !Ranked(Append(f, p, c), r)
  {
    DetachKeepsBelow(f, rank, c);
    MoveMakesCycle(f, rank, p, c, Append(f, p, c), r);
  }

  lemma InsertBeforeMakesCycle<N>(f: Forest<N>, rank: map<N, nat>, n: N, sibling: N, p: N, r: map<N, nat>)
    requires WellFormed(f, rank) && n in f.children && sibling in f.children && n != sibling
    requires f.parent[sibling] == Some(p) && !MayMove(f, rank, n, p)
    ensures !Ranked(InsertBefore(f, n, sibling), r)
  {
    var g := Detach(f, n);
    DetachKeepsBelow(f, rank, n);
    DetachKeepsSibling(f, n, sibling);
    var kids := PutBefore(g.children[p], n, sibling);
    var i := IndexOf(g.children[p], sibling);
    assert kids[i] == n;
    assert forall x :: x in g.children[p] ==> x in g.children[p][..i] || x in g.children[p][i..];
    MoveMakesCycle(f, rank, p, n, InsertBefore(f, n, sibling), r);
  }

  /** Appending leaves a forest without cycles if and only if the child may be moved below the new parent. */
  lemma AppendIff<N>(f: Forest<N>, rank: map<N, nat>, p: N, c: N)
    requires WellFormed(f, rank) && p in f.children && c in f.children
    ensures (exists r :: WellFormed(Append(f, p, c), r)) <==> MayMove(f, rank, c, p)
  {
    if MayMove(f, rank, c, p) {
      AppendWellFormed(f, rank, p, c);
    } else {
      forall r ensures !WellFormed(Append(f, p, c), r) { AppendMakesCycle(f, rank, p, c, r); }
    }
  }

  /** So does inserting before a sibling, for the sibling's parent. */
  lemma InsertBeforeIff<N>(f: Forest<N>, rank: map<N, nat>, n: N, sibling: N, p: N)
    requires WellFormed(f, rank) && n in f.children && sibling in f.children && n != sibling && f.parent[sibling] == Some(p)
    ensures (exists r :: WellFormed(InsertBefore(f, n, sibling), r)) <==> MayMove(f, rank, n, p)
  {
    if MayMove(f, rank, n, p) {
      InsertBeforeWellFormed(f, rank, n, sibling, p);
    } else {
      forall r ensures !WellFormed(InsertBefore(f, n, sibling), r) { InsertBeforeMakesCycle(f, rank, n, sibling, p, r); }
    }
  }

  // ---------------------------------------------------------------- moving all children

  /** All children of `n` go to the end of the children of `p`, in order. */
  ghost function Reparent<N>(f: Forest<N>, n: N, p: N): Forest<N>
    requires Linked(f) && n in f.children && p in f.children
  {
    var kids := f.children[n];
    var taken := f.children[n := []];
    Forest(map m | m in f.parent :: if m in kids then Some(p) else f.parent[m], taken[p := taken[p] + kids])
  }

  lemma ReparentLinked<N>(f: Forest<N>, n: N, p: N)
    requires Linked(f) && n in f.children && p in f.children
    ensures Linked(Reparent(f, n, p)) && Reparent(f, n, p).children.Keys == f.children.Keys
  {
    var h := Reparent(f, n, p);
    var kids := f.children[n];
    var before := if n == p then [] else f.children[p];
    DisjointKids(f, n, p);
    assert h.children[p] == before + kids;
    forall m, c | m in h.children && c in h.children[m] ensures c in h.parent && h.parent[c] == Some(m) {
      if m == p {
        assert c in before || c in kids;
      } else {
        assert m != n && c in f.children[m];
      }
    }
    forall m | m in h.parent && h.parent[m].Some?
      ensures h.parent[m].value in h.children && m in h.children[h.parent[m].value]
    {
      if m !in kids { assert f.parent[m].value != n && m in f.children[f.parent[m].value]; }
    }
  }

  lemma DisjointKids<N>(f: Forest<N>, n: N, p: N)
    requires Linked(f) && n in f.children && p in f.children
    ensures Distinct((if n == p then [] else f.children[p]) + f.children[n])
  {
    if n != p {
      forall i, j | 0 <= i < |f.children[p]| && 0 <= j < |f.children[n]| ensures f.children[p][i] != f.children[n][j] {
        var a, b := f.children[p][i], f.children[n][j];
        assert a in f.children[p] && b in f.children[n];
        assert f.parent[a] == Some(p) && f.parent[b] == Some(n);
      }
    }
  }

  ghost function ReparentRank<N>(f: Forest<N>, rank: map<N, nat>, n: N, p: N): map<N, nat>
    requires Ranked(f, rank) && n in f.children
  {
    Lifted(f, rank, p, rank[n])
  }

  lemma ReparentWellFormed<N>(f: Forest<N>, rank: map<N, nat>, n: N, p: N)
    requires WellFormed(f, rank) && n in f.children && p in f.children
    requires forall c :: c in f.children[n] ==> MayMove(f, rank, c, p)
    ensures WellFormed(Reparent(f, n, p), ReparentRank(f, rank, n, p))
  {
    ReparentLinked(f, n, p);
    ReparentAdds(f, n, p);
    ReparentFits(f, rank, n, p);
    LiftedRanks(f, rank, p, rank[n], Elems(f.children[n]), Reparent(f, n, p));
  }

  lemma ReparentAdds<N>(f: Forest<N>, n: N, p: N)
    requires Linked(f) && n in f.children && p in f.children
    ensures AddsBelow(f, p, Elems(f.children[n]), Reparent(f, n, p))
  {
  }

  lemma ReparentFits<N>(f: Forest<N>, rank: map<N, nat>, n: N, p: N)
    requires Ranked(f, rank) && n in f.children
    requires forall c :: c in f.children[n] ==> MayMove(f, rank, c, p)
    ensures AllFitBelow(f, rank, p, rank[n], Elems(f.children[n]))
  {
  }

  lemma ReparentMakesCycle<N>(f: Forest<N>, rank: map<N, nat>, n: N, p: N, c: N, r: map<N, nat>)
    requires WellFormed(f, rank) && n in f.children && p in f.children && c in f.children[n] && !MayMove(f, rank, c, p)
    ensures !Ranked(Reparent(f, n, p), r)
  {
    MoveMakesCycle(f, rank, p, c, Reparent(f, n, p), r);
  }

  /** And moving all children, for every one of them. */
  lemma ReparentIff<N>(f: Forest<N>, rank: map<N, nat>, n: N, p: N)
    requires WellFormed(f, rank) && n in f.children && p in f.children
    ensures (exists r :: WellFormed(Reparent(f, n, p), r)) <==> forall c :: c in f.children[n] ==> MayMove(f, rank, c, p)
  {
    if forall c :: c in f.children[n] ==> MayMove(f, rank, c, p) {
      ReparentWellFormed(f, rank, n, p);
    } else {
      var c :| c in f.children[n] && !MayMove(f, rank, c, p);
      forall r ensures !WellFormed(Reparent(f, n, p), r) { ReparentMakesCycle(f, rank, n, p, c, r); }
    }
  }

  /** The children of `n` are out of its list, and the first `k` of them are below `p`. */
  ghost function Reparented<N>(f: Forest<N>, n: N, p: N, k: nat): Forest<N>
    requires n in f.children && p in f.children && k <= |f.children[n]|
  {
    var kids, taken := f.children[n][..k], f.children[n := []];
    Forest(map m | m in f.parent :: if m in kids then Some(p) else f.parent[m], taken[p := taken[p] + kids])
  }

  /** One child: its parent link is cleared, so appending it finds nothing to detach. */
  lemma ReparentedStep<N>(f: Forest<N>, n: N, p: N, k: nat)
    requires Linked(f) && n in f.children && p in f.children && k < |f.children[n]|
    ensures var g, c := Reparented(f, n, p, k), f.children[n][k];
      && c in f.parent
      && var cleared := Forest(g.parent[c := None], g.children);
      && CanDetach(cleared, c) && p in cleared.children
      && Append(cleared, p, c) == Reparented(f, n, p, k + 1)
  {
    var kids, g := f.children[n], Reparented(f, n, p, k);
    var c := kids[k];
    assert c in kids;
    assert kids[..k + 1] == kids[..k] + [c];
    var taken := f.children[n := []];
    assert taken[p] + kids[..k] + [c] == taken[p] + kids[..k + 1];
    var h := Append(Forest(g.parent[c := None], g.children), p, c);
    assert forall m :: m in kids[..k + 1] <==> m in kids[..k] || m == c;
    assert h.parent == Reparented(f, n, p, k + 1).parent;
    assert h.children == Reparented(f, n, p, k + 1).children;
  }

  lemma ReparentedAll<N>(f: Forest<N>, n: N, p: N)
    requires Linked(f) && n in f.children && p in f.children
    ensures Reparented(f, n, p, 0) == Forest(f.parent, f.children[n := []])
    ensures Reparented(f, n, p, |f.children[n]|) == Reparent(f, n, p)
  {
    var taken := f.children[n := []];
    assert taken[p] + [] == taken[p];
    assert f.children[n][..|f.children[n]|] == f.children[n];
    assert Reparented(f, n, p, 0).children == f.children[n := []];
  }

  // ---------------------------------------------------------------- replacing a node

  function ReplaceIn<N(==)>(s: seq<N>, x: N, y: N): seq<N> {
    seq(|s|, i requires 0 <= i < |s| => if s[i] == x then y else s[i])
  }

  /** The new node `y` takes the place and the children of `x`, which is left alone. */
  ghost function Replace<N>(f: Forest<N>, x: N, y: N): Forest<N>
    requires Linked(f) && x in f.children
  {
    Forest(
      map n | n in f.parent.Keys + {y} ::
        if n == y then f.parent[x] else if n == x then None
        else if f.parent[n] == Some(x) then Some(y) else f.parent[n],
      map n | n in f.children.Keys + {y} ::
        if n == y then f.children[x] else if n == x then [] else ReplaceIn(f.children[n], x, y))
  }

  lemma ReplaceInMembers<N>(s: seq<N>, x: N, y: N)
    requires Distinct(s) && y !in s
    ensures Distinct(ReplaceIn(s, x, y))
    ensures forall c :: c in ReplaceIn(s, x, y) <==> (c in s && c != x) || (c == y && x in s)
  {
    var t := ReplaceIn(s, x, y);
    forall c ensures c in t <==> (c in s && c != x) || (c == y && x in s) {
      if c in s && c != x {
        var i :| 0 <= i < |s| && s[i] == c;
        assert t[i] == c;
      }
      if c == y && x in s {
        var i :| 0 <= i < |s| && s[i] == x;
        assert t[i] == y;
      }
    }
  }

  /** What each child list becomes. */
  lemma ReplaceChildren<N>(f: Forest<N>, x: N, y: N, n: N)
    requires Linked(f) && x in f.children && y !in f.children && n in f.children
    ensures Distinct(ReplaceIn(f.children[n], x, y))
    ensures forall c :: c in ReplaceIn(f.children[n], x, y) <==>
      (c in f.children[n] && c != x) || (c == y && f.parent[x] == Some(n))
  {
    assert forall c :: c in f.children[n] ==> c in f.parent;
    ReplaceInMembers(f.children[n], x, y);
  }

  lemma ReplaceLinked<N>(f: Forest<N>, x: N, y: N)
    requires Linked(f) && x in f.children && y !in f.children && x !in f.children[x]
    ensures Linked(Replace(f, x, y))
  {
    var h := Replace(f, x, y);
    forall n | n in h.children ensures Distinct(h.children[n]) {
      if n in f.children { ReplaceChildren(f, x, y, n); }
    }
    forall n, c | n in h.children && c in h.children[n] ensures c in h.parent && h.parent[c] == Some(n) {
      ReplacePointsUp(f, x, y, n, c);
    }
    forall n | n in h.parent && h.parent[n].Some?
      ensures h.parent[n].value in h.children && n in h.children[h.parent[n].value]
    {
      ReplacePointsDown(f, x, y, n);
    }
  }

  lemma ReplacePointsUp<N>(f: Forest<N>, x: N, y: N, n: N, c: N)
    requires Linked(f) && x in f.children && y !in f.children && x !in f.children[x]
    requires n in Replace(f, x, y).children && c in Replace(f, x, y).children[n]
    ensures c in Replace(f, x, y).parent && Replace(f, x, y).parent[c] == Some(n)
  {
  }

  lemma ReplacePointsDown<N>(f: Forest<N>, x: N, y: N, n: N)
    requires Linked(f) && x in f.children && y !in f.children && x !in f.children[x]
    requires n in Replace(f, x, y).parent && Replace(f, x, y).parent[n].Some?
    ensures var h := Replace(f, x, y); h.parent[n].value in h.children && n in h.children[h.parent[n].value]
  {
    if n == y {
      ReplaceChildren(f, x, y, f.parent[x].value);
    } else if f.parent[n] != Some(x) {
      ReplaceChildren(f, x, y, f.parent[n].value);
    }
  }

  lemma ReplaceWellFormed<N>(f: Forest<N>, rank: map<N, nat>, x: N, y: N)
    requires WellFormed(f, rank) && x in f.children && y !in f.children
    ensures WellFormed(Replace(f, x, y), rank[y := rank[x]])
  {
    ReplaceLinked(f, x, y);
    var h, r := Replace(f, x, y), rank[y := rank[x]];
    forall n, c | n in h.children && c in h.children[n] ensures c in h.children && r[c] < r[n] {
      ReplaceDrops(f, rank, x, y, n, c);
    }
  }

  lemma ReplaceDrops<N>(f: Forest<N>, rank: map<N, nat>, x: N, y: N, n: N, c: N)
    requires WellFormed(f, rank) && x in f.children && y !in f.children
    requires n in Replace(f, x, y).children && c in Replace(f, x, y).children[n]
    ensures c in Replace(f, x, y).children && rank[y := rank[x]][c] < rank[y := rank[x]][n]
  {
    if n == y {
      assert c in f.children[x];
    } else {
      ReplaceChildren(f, x, y, n);
    }
  }

  // ---------------------------------------------------------------- replacing a node step by step

  /** The forest with one more node, linked to nothing. */
  ghost function WithNew<N>(f: Forest<N>, y: N): Forest<N> {
    Forest(f.parent[y := None], f.children[y := []])
  }

  /** The first `k` children of `x` have been moved to the new node `y`. */
  ghost function Moved<N>(f: Forest<N>, x: N, y: N, k: nat): Forest<N>
    requires x in f.children && k <= |f.children[x]|
  {
    var kids := f.children[x];
    Forest(map m | m in f.parent.Keys + {y} ::
             if m == y then None else if m in kids[..k] then Some(y) else f.parent[m],
           f.children[x := kids[k..]][y := kids[..k]])
  }

  lemma MovedFrom<N>(f: Forest<N>, x: N, y: N)
    requires Linked(f) && x in f.children && y !in f.children
    ensures Moved(f, x, y, 0) == WithNew(f, y)
  {
  }

  /** The child at `k` is now the first one left, and appending it to `y` moves one more. */
  lemma MovedStep<N>(f: Forest<N>, x: N, y: N, k: nat)
    requires Linked(f) && x in f.children && y !in f.children && k < |f.children[x]|
    ensures CanDetach(Moved(f, x, y, k), f.children[x][k]) && y in Moved(f, x, y, k).children
    ensures Append(Moved(f, x, y, k), y, f.children[x][k]) == Moved(f, x, y, k + 1)
  {
    var kids, g := f.children[x], Moved(f, x, y, k);
    var c := kids[k];
    assert c in kids && c in f.parent && c != y && c !in kids[..k];
    assert kids[k..] == [c] + kids[k + 1..] && IndexOf(kids[k..], c) == 0;
    assert Without(kids[k..], c) == kids[k + 1..];
    assert kids[..k + 1] == kids[..k] + [c];
    MovedLinks(f, x, y, k);
    var h := Append(g, y, c);
    assert h.parent == g.parent[c := None][c := Some(y)];
    assert h.children == g.children[x := kids[k + 1..]][y := kids[..k] + [c]];
  }

  lemma MovedLinks<N>(f: Forest<N>, x: N, y: N, k: nat)
    requires Linked(f) && x in f.children && y !in f.children && k < |f.children[x]|
    ensures var kids, g := f.children[x], Moved(f, x, y, k);
      && Moved(f, x, y, k + 1).parent == g.parent[kids[k] := None][kids[k] := Some(y)]
      && Moved(f, x, y, k + 1).children == g.children[x := kids[k + 1..]][y := kids[..k] + [kids[k]]]
  {
    var kids := f.children[x];
    assert kids[k] in kids && kids[k] in f.parent;
    assert kids[..k + 1] == kids[..k] + [kids[k]];
    assert forall m :: m in kids[..k + 1] <==> m in kids[..k] || m == kids[k];
  }

  lemma ReplaceInPlace<N>(s: seq<N>, x: N, y: N)
    requires Distinct(s) && x in s && y !in s
    ensures x in PutBefore(s, y, x) && Without(PutBefore(s, y, x), x) == ReplaceIn(s, x, y)
  {
  }

  lemma {:induction false} IndexIs<N>(s: seq<N>, x: N, i: nat)
    requires i < |s| && s[i] == x && x !in s[..i]
    ensures IndexOf(s, x) == i
    decreases i
  {
    if i > 0 {
      assert s[0] in s[..i];
      assert s[1..][..i - 1] == s[..i][1..];
      IndexIs(s[1..], x, i - 1);
    }
  }

  lemma AllMoved<N>(f: Forest<N>, rank: map<N, nat>, x: N, y: N, p: N)
    requires WellFormed(f, rank) && x in f.children && y !in f.children && f.parent[x] == Some(p)
    ensures var g := Moved(f, x, y, |f.children[x]|);
      && CanDetach(g, y) && CanDetach(g, x) && g.parent[x] == Some(p) && g.parent[y] == None
      && p in g.children && g.children[p] == f.children[p]
      && g.children == f.children[x := []][y := f.children[x]]
      && {x, y, p} <= f.children.Keys + {y} && p != x && p != y
  {
    var kids, g := f.children[x], Moved(f, x, y, |f.children[x]|);
    assert kids[..|kids|] == kids && kids[|kids|..] == [];
    assert g.children == f.children[x := []][y := kids];
    assert x in f.children[p];
    assert x !in kids;
  }

  lemma FinalChildren<N>(f: Forest<N>, x: N, y: N, p: N)
    requires Linked(f) && x in f.children && y !in f.children && f.parent[x] == Some(p) && p != x && x !in f.children[x]
    ensures f.children[x := []][y := f.children[x]][p := ReplaceIn(f.children[p], x, y)] == Replace(f, x, y).children
  {
    ReplaceElsewhere(f, x, y, p);
  }

  lemma FinalParent<N>(f: Forest<N>, x: N, y: N, p: N)
    requires Linked(f) && x in f.children && y !in f.children && f.parent[x] == Some(p) && x !in f.children[x]
    ensures Moved(f, x, y, |f.children[x]|).parent[y := Some(p)][x := None] == Replace(f, x, y).parent
  {
    assert f.children[x][..|f.children[x]|] == f.children[x];
  }

  /** Putting `y` before `x` and detaching `x` turns `g` into `h`. */
  ghost predicate Completes<N>(g: Forest<N>, x: N, y: N, h: Forest<N>) {
    && x != y && CanDetach(g, y) && CanDetach(g, x) && g.parent[x].Some?
    && CanDetach(InsertBefore(g, y, x), x)
    && Detach(InsertBefore(g, y, x), x) == h
  }

  /** With all children moved, putting `y` before `x` and detaching `x` completes the replacement. */
  lemma ReplaceCompletes<N>(f: Forest<N>, rank: map<N, nat>, x: N, y: N)
    requires WellFormed(f, rank) && x in f.children && y !in f.children && f.parent[x].Some?
    ensures Completes(Moved(f, x, y, |f.children[x]|), x, y, Replace(f, x, y))
  {
    var p := f.parent[x].value;
    AllMoved(f, rank, x, y, p);
    assert x in f.children[p] && x !in f.children[x];
    assert y !in f.children[p];
    ReplaceInPlace(f.children[p], x, y);
    FinalChildren(f, x, y, p);
    FinalParent(f, x, y, p);
    LastTwoSteps(Moved(f, x, y, |f.children[x]|), x, y, p, ReplaceIn(f.children[p], x, y));
  }

  lemma LastTwoSteps<N>(g: Forest<N>, x: N, y: N, p: N, kids: seq<N>)
    requires CanDetach(g, y) && CanDetach(g, x) && g.parent[x] == Some(p) && g.parent[y] == None && x != y && p in g.children
    requires x in PutBefore(g.children[p], y, x) && Without(PutBefore(g.children[p], y, x), x) == kids
    ensures CanDetach(InsertBefore(g, y, x), x)
    ensures Detach(InsertBefore(g, y, x), x) == Forest(g.parent[y := Some(p)][x := None], g.children[p := kids])
  {
  }

  lemma ReplaceElsewhere<N>(f: Forest<N>, x: N, y: N, p: N)
    requires Linked(f) && x in f.children && f.parent[x] == Some(p)
    ensures forall n :: n in f.children && n != p ==> ReplaceIn(f.children[n], x, y) == f.children[n]
  {
  }

  // ---------------------------------------------------------------- runs of operations

  datatype Op<N> =
    | NewNode(node: N)
    | DetachNode(node: N)
    | AppendChild(to: N, node: N)
    | InsertBeforeSibling(node: N, sibling: N)
    | ReparentChildren(node: N, to: N)
    | ReplaceNode(node: N, successor: N)

  /** A forest with ranks that show it has no cycle. */
  datatype State<N> = State(forest: Forest<N>, rank: map<N, nat>)

  /** What each operation asks for: known nodes, a placed sibling, no node moved into itself. */
  ghost predicate Enabled<N>(s: State<N>, op: Op<N>)
    requires WellFormed(s.forest, s.rank)
  {
    var nodes := s.forest.children.Keys;
    match op
    case NewNode(n) => n !in nodes
    case DetachNode(n) => n in nodes
    case AppendChild(p, c) => p in nodes && c in nodes && MayMove(s.forest, s.rank, c, p)
    case InsertBeforeSibling(n, sibling) =>
      && n in nodes && sibling in nodes && n != sibling && s.forest.parent[sibling].Some?
      && MayMove(s.forest, s.rank, n, s.forest.parent[sibling].value)
    case ReparentChildren(n, p) =>
      n in nodes && p in nodes && forall c :: c in s.forest.children[n] ==> MayMove(s.forest, s.rank, c, p)
    case ReplaceNode(x, y) => x in nodes && y !in nodes
  }

  ghost function Step<N>(s: State<N>, op: Op<N>): State<N>
    requires WellFormed(s.forest, s.rank) && Enabled(s, op)
  {
    var f, rank := s.forest, s.rank;
    match op
    case NewNode(n) => State(WithNew(f, n), rank[n := 0])
    case DetachNode(n) => State(Detach(f, n), rank)
    case AppendChild(p, c) => State(Append(f, p, c), MovedRank(f, rank, p, c))
    case InsertBeforeSibling(n, sibling) =>
      State(InsertBefore(f, n, sibling), MovedRank(f, rank, f.parent[sibling].value, n))
    case ReparentChildren(n, p) => State(Reparent(f, n, p), ReparentRank(f, rank, n, p))
    case ReplaceNode(x, y) => State(Replace(f, x, y), rank[y := rank[x]])
  }

  lemma StepWellFormed<N>(s: State<N>, op: Op<N>)
    requires WellFormed(s.forest, s.rank) && Enabled(s, op)
    ensures WellFormed(Step(s, op).forest, Step(s, op).rank)
  {
    var f, rank := s.forest, s.rank;
    match op
    case NewNode(n) => NewNodeWellFormed(f, rank, n);
    case DetachNode(n) => DetachLinked(f, n); DetachRanked(f, rank, n);
    case AppendChild(p, c) => AppendWellFormed(f, rank, p, c);
    case InsertBeforeSibling(n, sibling) => InsertBeforeWellFormed(f, rank, n, sibling, f.parent[sibling].value);
    case ReparentChildren(n, p) => ReparentWellFormed(f, rank, n, p);
    case ReplaceNode(x, y) => ReplaceWellFormed(f, rank, x, y);
  }

  lemma NewNodeWellFormed<N>(f: Forest<N>, rank: map<N, nat>, n: N)
    requires WellFormed(f, rank) && n !in f.children
    ensures WellFormed(WithNew(f, n), rank[n := 0])
  {
    NewNodeLinked(f, n);
  }

  lemma NewNodeLinked<N>(f: Forest<N>, n: N)
    requires Linked(f) && n !in f.children
    ensures Linked(WithNew(f, n))
  {
  }

  /** Each operation of the run is enabled in the state it finds. */
  ghost predicate Legal<N>(s: State<N>, ops: seq<Op<N>>)
    requires WellFormed(s.forest, s.rank)
    decreases |ops|
  {
    ops == [] ||
    (Enabled(s, ops[0]) &&
     (StepWellFormed(s, ops[0]);
      Legal(Step(s, ops[0]), ops[1..])))
  }

  /** Every legal run leaves the forest well linked and without cycles. */
  ghost function Run<N>(s: State<N>, ops: seq<Op<N>>): (r: State<N>)
    requires WellFormed(s.forest, s.rank) && Legal(s, ops)
    ensures WellFormed(r.forest, r.rank)
    decreases |ops|
  {
    if ops == [] then s
    else
      StepWellFormed(s, ops[0]);
      Run(Step(s, ops[0]), ops[1..])
  }

  /** After any legal run, each node is listed once by the parent it points to and by no other node. */
  lemma RunsKeepTreesLinked<N>(s: State<N>, ops: seq<Op<N>>, n: N, c: N)
    requires WellFormed(s.forest, s.rank) && Legal(s, ops)
    ensures var f := Run(s, ops).forest;
      n in f.children && c in f.parent ==>
        multiset(f.children[n])[c] == (if f.parent[c] == Some(n) then 1 else 0)
  {
    var f := Run(s, ops).forest;
    if n in f.children && c in f.parent && c in f.children[n] {
      OnceInDistinct(f.children[n], c);
    }
  }

  lemma OnceInDistinct<N>(s: seq<N>, c: N)
    requires Distinct(s) && c in s
    ensures multiset(s)[c] == 1
  {
    var i := IndexOf(s, c);
    assert s == s[..i] + [c] + s[i + 1..];
  }
}
