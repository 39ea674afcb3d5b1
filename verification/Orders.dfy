/** Option and Result values, finite sequences seen as sets, and strict total orders. */
module Orders {

  datatype Option<+T> = None | Some(value: T)

  datatype Result<+T, +E> = Ok(value: T) | Err(error: E)

  /** Success exactly where the specification has a value, and with that value. */
  predicate Matches<T(==), E>(r: Result<T, E>, spec: Option<T>) {
    match r
    case Ok(value) => spec == Some(value)
    case Err(_) => spec == None
  }

  /** The three outcomes of a comparison, and `then`: the second one breaks ties. */
  datatype Ordering = Less | Equal | Greater {
    function Then(other: Ordering): Ordering {
      if this == Equal then other else this
    }
  }

  function CmpInt(a: int, b: int): Ordering {
    if a < b then Less else if a == b then Equal else Greater
  }

  /** Strings compare by their first differing character; a proper prefix comes first. */
  function CmpString(a: string, b: string): Ordering
    decreases |a|
  {
    if a == [] then (if b == [] then Equal else Less)
    else if b == [] then Greater
    else if a[0] < b[0] then Less
    else if b[0] < a[0] then Greater
    else CmpString(a[1..], b[1..])
  }

  /** The smaller character at the first difference, or a proper prefix, comes first. */
  ghost predicate StringBefore(a: string, b: string) {
    exists i :: FirstDifference(a, b, i) && (i == |a| || a[i] < b[i])
  }

  /** The strings agree up to `i`, where `b` goes on, and `a` ends or has another character. */
  ghost predicate FirstDifference(a: string, b: string, i: int) {
    0 <= i <= |a| && i < |b| && (forall k :: 0 <= k < i ==> a[k] == b[k]) && (i < |a| ==> a[i] != b[i])
  }

  lemma {:induction false} CmpStringMeans(a: string, b: string)
    ensures CmpString(a, b) == Less <==> StringBefore(a, b)
    decreases |a|
  {
    if a == [] {
      if b != [] { assert FirstDifference(a, b, 0); }
    } else if b != [] {
      if a[0] == b[0] {
        CmpStringMeans(a[1..], b[1..]);
        DifferenceShifts(a, b);
      } else {
        assert FirstDifference(a, b, 0);
      }
    }
  }

  lemma DifferenceShifts(a: string, b: string)
    requires a != [] && b != [] && a[0] == b[0]
    ensures StringBefore(a, b) <==> StringBefore(a[1..], b[1..])
  {
    if i :| FirstDifference(a, b, i) && (i == |a| || a[i] < b[i]) {
      assert FirstDifference(a[1..], b[1..], i - 1);
    }
    if i :| FirstDifference(a[1..], b[1..], i) && (i == |a[1..]| || a[1..][i] < b[1..][i]) {
      assert forall k :: 0 < k < i + 1 ==> a[k] == a[1..][k - 1] && b[k] == b[1..][k - 1];
      assert FirstDifference(a, b, i + 1);
    }
  }

  lemma {:induction false} CmpStringEqual(a: string, b: string)
    ensures CmpString(a, b) == Equal <==> a == b
    decreases |a|
  {
    if a != [] && b != [] && a[0] == b[0] {
      CmpStringEqual(a[1..], b[1..]);
      assert a == [a[0]] + a[1..] && b == [b[0]] + b[1..];
    }
  }

  lemma {:induction false} CmpStringFlip(a: string, b: string)
    ensures CmpString(a, b) == Less <==> CmpString(b, a) == Greater
    decreases |a|
  {
    if a != [] && b != [] && a[0] == b[0] {
      CmpStringFlip(a[1..], b[1..]);
    }
  }

  lemma {:induction false} CmpStringTransitive(a: string, b: string, c: string)
    requires CmpString(a, b) == Less && CmpString(b, c) == Less
    ensures CmpString(a, c) == Less
    decreases |a|
  {
    if a != [] && a[0] == b[0] && b[0] == c[0] {
      CmpStringTransitive(a[1..], b[1..], c[1..]);
    }
  }

  lemma StringBeforeConnected(a: string, b: string)
    ensures !StringBefore(a, a) && (a == b || StringBefore(a, b) || StringBefore(b, a))
  {
    CmpStringMeans(a, a);
    CmpStringMeans(a, b);
    CmpStringMeans(b, a);
    CmpStringEqual(a, a);
    CmpStringEqual(a, b);
    CmpStringFlip(b, a);
  }

  lemma StringBeforeTransitive(a: string, b: string, c: string)
    requires StringBefore(a, b) && StringBefore(b, c)
    ensures StringBefore(a, c)
  {
    CmpStringMeans(a, b);
    CmpStringMeans(b, c);
    CmpStringMeans(a, c);
    CmpStringTransitive(a, b, c);
  }

  /** The elements of a sequence. */
  function Elems<T(==)>(s: seq<T>): set<T> {
    set x | x in s
  }

  lemma ElemsAppend<T>(s: seq<T>, x: T)
    ensures Elems(s + [x]) == Elems(s) + {x}
  {
  }

  lemma ElemsEmpty<T>(s: seq<T>)
    ensures Elems(s) == {} <==> s == []
  {
    if s != [] { assert s[0] in Elems(s); }
  }

  ghost predicate Distinct<T>(s: seq<T>) {
    forall i, j :: 0 <= i < j < |s| ==> s[i] != s[j]
  }

  lemma DistinctAppend<T>(s: seq<T>, x: T)
    requires Distinct(s) && x !in s
    ensures Distinct(s + [x])
  {
  }

  lemma DisjointAppend<T>(s: seq<T>, t: seq<T>)
    requires Distinct(s) && Distinct(t) && Elems(s) !! Elems(t)
    ensures Distinct(s + t) && Elems(s + t) == Elems(s) + Elems(t)
  {
    forall i, j | 0 <= i < |s| && 0 <= j < |t| ensures s[i] != t[j] {
      assert s[i] in Elems(s) && t[j] in Elems(t);
    }
  }

  function IndexOf<T(==)>(s: seq<T>, x: T): (i: nat)
    requires x in s
    ensures i < |s| && s[i] == x && x !in s[..i]
  {
    if s[0] == x then 0 else 1 + IndexOf(s[1..], x)
  }

  lemma {:induction false} DistinctSize<T>(s: seq<T>)
    requires Distinct(s)
    ensures |Elems(s)| == |s|
    decreases |s|
  {
    if s != [] {
      var front, last := s[..|s| - 1], s[|s| - 1];
      assert s == front + [last];
      DistinctSize(front);
      ElemsAppend(front, last);
    }
  }

  lemma {:induction false} SubsetSize<T>(a: set<T>, b: set<T>)
    requires a <= b
    ensures |a| <= |b|
    decreases a
  {
    if x :| x in a {
      SubsetSize(a - {x}, b - {x});
    }
  }

  /** Pigeonhole: a sequence longer than the set it draws from repeats an element. */
  lemma Pigeonhole<T>(s: seq<T>, domain: set<T>)
    requires Elems(s) <= domain && |s| > |domain|
    ensures !Distinct(s)
  {
    if Distinct(s) {
      DistinctSize(s);
      SubsetSize(Elems(s), domain);
    }
  }

  ghost predicate StrictTotal<T(!new)>(less: (T, T) -> bool) {
    && (forall x :: !less(x, x))
    && (forall x, y, z :: less(x, y) && less(y, z) ==> less(x, z))
    && (forall x, y :: x == y || less(x, y) || less(y, x))
  }

  ghost predicate Ascending<T>(less: (T, T) -> bool, s: seq<T>) {
    forall i, j :: 0 <= i < j < |s| ==> less(s[i], s[j])
  }

  /** An ascending sequence is determined by its set of elements. */
  lemma {:induction false} AscendingUnique<T(!new)>(less: (T, T) -> bool, s: seq<T>, t: seq<T>)
    requires StrictTotal(less) && Ascending(less, s) && Ascending(less, t) && Elems(s) == Elems(t)
    ensures s == t
    decreases |s|
  {
    if s == [] {
      ElemsEmpty(t);
    } else {
      assert s[0] in Elems(t);
      assert t[0] in Elems(s);
      assert s[0] == t[0];
      forall x ensures x in Elems(s[1..]) <==> x in Elems(t[1..]) {
        AscendingTail(less, s, x);
        AscendingTail(less, t, x);
      }
      AscendingUnique(less, s[1..], t[1..]);
      assert s == [s[0]] + s[1..] && t == [t[0]] + t[1..];
    }
  }

  lemma AscendingDistinct<T(!new)>(less: (T, T) -> bool, s: seq<T>)
    requires StrictTotal(less) && Ascending(less, s)
    ensures Distinct(s)
  {
  }

  lemma AscendingTail<T(!new)>(less: (T, T) -> bool, s: seq<T>, x: T)
    requires StrictTotal(less) && Ascending(less, s) && s != []
    ensures x in Elems(s[1..]) <==> x in Elems(s) && x != s[0]
  {
  }

  /** Put `x` in front of the first element it is less than. */
  function InsertBy<T>(less: (T, T) -> bool, s: seq<T>, x: T): seq<T> {
    if s == [] then [x]
    else if less(x, s[0]) then [x] + s
    else [s[0]] + InsertBy(less, s[1..], x)
  }

  lemma {:induction false} InsertByElems<T(!new)>(less: (T, T) -> bool, s: seq<T>, x: T)
    ensures Elems(InsertBy(less, s, x)) == Elems(s) + {x}
    decreases |s|
  {
    if s != [] {
      ElemsCons(s[0], s[1..]);
      assert s == [s[0]] + s[1..];
      if less(x, s[0]) {
        ElemsCons(x, s);
      } else {
        InsertByElems(less, s[1..], x);
        ElemsCons(s[0], InsertBy(less, s[1..], x));
      }
    }
  }

  lemma ElemsCons<T>(x: T, s: seq<T>)
    ensures Elems([x] + s) == {x} + Elems(s)
  {
  }

  lemma {:induction false} InsertByAscending<T(!new)>(less: (T, T) -> bool, s: seq<T>, x: T)
    requires StrictTotal(less) && Ascending(less, s) && x !in s
    ensures Ascending(less, InsertBy(less, s, x)) && Elems(InsertBy(less, s, x)) == Elems(s) + {x}
    decreases |s|
  {
    InsertByElems(less, s, x);
    if s != [] && !less(x, s[0]) {
      InsertByAscending(less, s[1..], x);
      var tail := InsertBy(less, s[1..], x);
      forall j | 0 <= j < |tail| ensures less(s[0], tail[j]) {
        assert tail[j] in Elems(tail);
      }
    }
  }

  /** The elements in ascending order. */
  ghost predicate IsSorting<T>(less: (T, T) -> bool, elems: set<T>, s: seq<T>) {
    Elems(s) == elems && Ascending(less, s)
  }

  lemma {:induction false} SortingExists<T(!new)>(less: (T, T) -> bool, elems: set<T>)
    requires StrictTotal(less)
    ensures exists s :: IsSorting(less, elems, s)
    decreases elems
  {
    if x :| x in elems {
      SortingExists(less, elems - {x});
      var s :| IsSorting(less, elems - {x}, s);
      assert x !in Elems(s);
      InsertByAscending(less, s, x);
      assert IsSorting(less, elems, InsertBy(less, s, x));
    } else {
      assert IsSorting(less, elems, []);
    }
  }

  /** The one list of the elements in ascending order. */
  ghost function Sorting<T(!new)>(less: (T, T) -> bool, elems: set<T>): (s: seq<T>)
    requires StrictTotal(less)
    ensures IsSorting(less, elems, s)
  {
    SortingExists(less, elems);
    var s :| IsSorting(less, elems, s);
    s
  }

  lemma SortingUnique<T(!new)>(less: (T, T) -> bool, elems: set<T>, s: seq<T>)
    requires StrictTotal(less) && IsSorting(less, elems, s)
    ensures s == Sorting(less, elems)
  {
    AscendingUnique(less, s, Sorting(less, elems));
  }

  /** The sequence without any occurrence of `x`. */
  function Minus<T(==)>(s: seq<T>, x: T): seq<T> {
    if s == [] then []
    else
      var front, last := s[..|s| - 1], s[|s| - 1];
      Minus(front, x) + (if last == x then [] else [last])
  }

  lemma {:induction false} MinusElems<T>(s: seq<T>, x: T)
    ensures Elems(Minus(s, x)) == Elems(s) - {x}
    decreases |s|
  {
    if s != [] {
      var front, last := s[..|s| - 1], s[|s| - 1];
      assert s == front + [last];
      MinusElems(front, x);
      ElemsAppend(front, last);
      ElemsAppend(Minus(front, x), last);
    }
  }

  lemma {:induction false} MinusAppend<T>(s: seq<T>, x: T, y: T)
    ensures Minus(s + [y], x) == Minus(s, x) + (if y == x then [] else [y])
  {
    assert (s + [y])[..|s|] == s;
  }

  lemma {:induction false} MinusConcat<T>(s: seq<T>, t: seq<T>, x: T)
    ensures Minus(s + t, x) == Minus(s, x) + Minus(t, x)
    decreases |t|
  {
    if t == [] {
      assert s + t == s;
    } else {
      var front, last := t[..|t| - 1], t[|t| - 1];
      MinusConcat(s, front, x);
      MinusAppend(s + front, x, last);
      assert s + t == (s + front) + [last];
    }
  }

  lemma {:induction false} MinusAbsent<T>(s: seq<T>, x: T)
    requires x !in s
    ensures Minus(s, x) == s
    decreases |s|
  {
    if s != [] {
      MinusAbsent(s[..|s| - 1], x);
      assert s == s[..|s| - 1] + [s[|s| - 1]];
    }
  }

  lemma {:induction false} MinusOne<T>(s: seq<T>, x: T, t: seq<T>)
    requires x !in s && x !in t
    ensures Minus(s + [x] + t, x) == s + t
  {
    MinusConcat(s + [x], t, x);
    MinusAppend(s, x, x);
    MinusAbsent(s, x);
    MinusAbsent(t, x);
  }

  lemma {:induction false} MinusAscending<T(!new)>(less: (T, T) -> bool, s: seq<T>, x: T)
    requires Ascending(less, s)
    ensures Ascending(less, Minus(s, x))
    decreases |s|
  {
    if s != [] {
      var front, last := s[..|s| - 1], s[|s| - 1];
      MinusAscending(less, front, x);
      MinusElems(front, x);
      var m := Minus(front, x);
      forall i | 0 <= i < |m| ensures less(m[i], last) {
        assert m[i] in Elems(m);
        var j :| 0 <= j < |front| && front[j] == m[i];
        assert less(s[j], s[|s| - 1]);
      }
    }
  }
}
