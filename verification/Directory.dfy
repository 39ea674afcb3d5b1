/** The public room directory: collecting, sorting and paging through it with batch tokens. */
module Directory {
  import opened Orders

  datatype Entry = Entry(roomId: string, members: nat)

  const MAX_U64: nat := 0xFFFF_FFFF_FFFF_FFFF

  const DEFAULT_LIMIT: nat := 10

  // ---------------------------------------------------------------- batch tokens

  predicate IsDigit(c: char) { '0' <= c <= '9' }

  function Digit(d: nat): char
    requires d < 10
  {
    "0123456789"[d]
  }

  function DigitValue(c: char): nat
    requires IsDigit(c)
  {
    c as int - '0' as int
  }

  function Decimal(n: nat): string {
    if n < 10 then [Digit(n)] else Decimal(n / 10) + [Digit(n % 10)]
  }

  /** The number a string of digits stands for. */
  function Value(s: string): nat
    requires forall c :: c in s ==> IsDigit(c)
  {
    if s == [] then 0
    else
      assert s[|s| - 1] in s;
      assert forall c :: c in s[..|s| - 1] ==> c in s;
      10 * Value(s[..|s| - 1]) + DigitValue(s[|s| - 1])
  }

  /** An unsigned 64-bit number: an optional plus sign and at least one digit, not too large. */
  function ParseU64(s: string): Option<nat> {
    var digits := if s != [] && s[0] == '+' then s[1..] else s;
    if digits == [] || exists c :: c in digits && !IsDigit(c) then None
    else if Value(digits) > MAX_U64 then None
    else Some(Value(digits))
  }

  function SaturatingSub(a: nat, b: nat): nat { if a < b then 0 else a - b }

  /** Where a page starts; `None` where the token is invalid. */
  function ParseSince(since: Option<string>, limit: nat): (start: Option<nat>)
    ensures start.Some? ==> start.value <= MAX_U64
  {
    match since
    case None => Some(0)
    case Some(s) =>
      if s == [] || s[0] !in "np" then None
      else
        var n := ParseU64(s[1..]);
        if n.None? then None else Some(if s[0] == 'p' then SaturatingSub(n.value, limit) else n.value)
  }

  lemma {:induction false} DecimalReadsBack(n: nat)
    ensures Decimal(n) != [] && (forall c :: c in Decimal(n) ==> IsDigit(c)) && Value(Decimal(n)) == n
    decreases n
  {
    if n >= 10 {
      DecimalReadsBack(n / 10);
      var s := Decimal(n);
      assert s[..|s| - 1] == Decimal(n / 10) && s[|s| - 1] == Digit(n % 10);
    } else {
      assert [Digit(n)][..0] == [];
    }
  }

  lemma TokenReadsBack(n: nat, limit: nat)
    requires n <= MAX_U64
    ensures ParseSince(Some("n" + Decimal(n)), limit) == Some(n)
    ensures ParseSince(Some("p" + Decimal(n)), limit) == Some(SaturatingSub(n, limit))
  {
    DecimalReadsBack(n);
    var s := Decimal(n);
    assert s[0] in s;
    assert ("n" + s)[1..] == s && ("p" + s)[1..] == s;
  }

  // ---------------------------------------------------------------- one page

  datatype Page = Page(chunk: seq<Entry>, prev: Option<string>, next: Option<string>, total: nat)

  /** The page from `start`, of at most `limit` rooms. */
  function PageAt(rooms: seq<Entry>, start: nat, limit: nat): Page {
    var from := if start <= |rooms| then start else |rooms|;
    var to := if from + limit <= |rooms| then from + limit else |rooms|;
    var chunk := rooms[from..to];
    Page(chunk,
         if start == 0 then None else Some("p" + Decimal(start)),
         if |chunk| < limit then None else Some("n" + Decimal(start + limit)),
         |rooms| % 0x1_0000_0000)
  }

  /** A page in values: which rooms it shows, which tokens it has, and how many rooms there are. */
  lemma PageMeans(rooms: seq<Entry>, start: nat, limit: nat)
    ensures var page := PageAt(rooms, start, limit); var left := SaturatingSub(|rooms|, start);
      && |page.chunk| == (if limit <= left then limit else left)
      && (forall i :: 0 <= i < |page.chunk| ==> page.chunk[i] == rooms[start + i])
      && (page.prev.None? <==> start == 0)
      && (page.next.None? <==> |page.chunk| < limit)
      && (|rooms| < 0x1_0000_0000 ==> page.total == |rooms|)
  {
  }

  /** Digits, of a number that fits in 64 bits, after an optional plus sign. */
  predicate IsNumeral(s: string) {
    var digits := if s != [] && s[0] == '+' then s[1..] else s;
    digits != [] && (forall c :: c in digits ==> '0' <= c <= '9') && Value(digits) <= 0xFFFF_FFFF_FFFF_FFFF
  }

  /** A request is refused if and only if its token is not `n` or `p` and a numeral. */
  lemma SinceIsRefusedIff(since: Option<string>, limit: nat)
    ensures ParseSince(since, limit).None? <==>
      since.Some? && !(|since.value| > 0 && since.value[0] in {'n', 'p'} && IsNumeral(since.value[1..]))
    ensures since.None? ==> ParseSince(since, limit) == Some(0)
  {
    if since.Some? && since.value != [] {
      var s := since.value;
      assert s[0] in "np" <==> s[0] in {'n', 'p'} by { assert "np"[0] == 'n' && "np"[1] == 'p'; }
      NumeralIff(s[1..]);
    }
  }

  lemma NumeralIff(s: string)
    ensures ParseU64(s).Some? <==> IsNumeral(s)
  {
    var digits := if s != [] && s[0] == '+' then s[1..] else s;
    assert (forall c :: c in digits ==> '0' <= c <= '9') <==> !exists c :: c in digits && !IsDigit(c);
  }

  /** A request for a list of rooms already sorted. */
  function Respond(rooms: seq<Entry>, since: Option<string>, limit: nat): Option<Page> {
    var start := ParseSince(since, limit);
    if start.None? then None else Some(PageAt(rooms, start.value, limit))
  }

  /** The start that a next token announces fits in 64 bits. */
  lemma NextStartFits(rooms: seq<Entry>, start: nat, limit: nat)
    requires |rooms| <= MAX_U64 && start <= MAX_U64
    ensures PageAt(rooms, start, limit).next.Some? ==> start + limit <= MAX_U64
    ensures PageAt(rooms, start, limit).next.Some? <==> limit == 0 || start + limit <= |rooms|
  {
  }

  // ---------------------------------------------------------------- following the tokens

  /** The pages got from a server by following next tokens, at most `n` of them. */
  function Follow(respond: Option<string> -> Option<Page>, since: Option<string>, n: nat): seq<Page>
    decreases n
  {
    if n == 0 || respond(since).None? then []
    else
      var page := respond(since).value;
      [page] + (if page.next.None? then [] else Follow(respond, page.next, n - 1))
  }

  function Chunks(pages: seq<Page>): seq<Entry> {
    if pages == [] then [] else pages[0].chunk + Chunks(pages[1..])
  }

  /** The last page followed to has no next token. */
  ghost predicate Finished(pages: seq<Page>) {
    pages != [] && pages[|pages| - 1].next.None?
  }

  /** The same walk by numbers instead of tokens. */
  function FollowFrom(at: nat -> Page, start: nat, limit: nat, n: nat): seq<Page>
    decreases n
  {
    if n == 0 then [] else [at(start)] + (if at(start).next.None? then [] else FollowFrom(at, start + limit, limit, n - 1))
  }

  /** The directory's answers to tokens, and its pages by number. */
  function Answers(rooms: seq<Entry>, limit: nat): Option<string> -> Option<Page> {
    since => Respond(rooms, since, limit)
  }

  function Pages(rooms: seq<Entry>, limit: nat): nat -> Page {
    (start: nat) => PageAt(rooms, start, limit)
  }

  /** The next token of the page at `k` asks for the page `limit` rooms on. */
  ghost predicate LeadsOn(respond: Option<string> -> Option<Page>, at: nat -> Page, limit: nat, k: nat) {
    at(k).next.Some? ==> k + limit <= MAX_U64 && respond(at(k).next) == Some(at(k + limit))
  }

  ghost predicate TokensLeadOn(respond: Option<string> -> Option<Page>, at: nat -> Page, limit: nat) {
    forall k :: 0 <= k <= MAX_U64 ==> LeadsOn(respond, at, limit, k)
  }

  lemma DirectoryTokensLeadOn(rooms: seq<Entry>, limit: nat)
    requires |rooms| <= MAX_U64
    ensures TokensLeadOn(Answers(rooms, limit), Pages(rooms, limit), limit)
  {
    forall k | 0 <= k <= MAX_U64 ensures LeadsOn(Answers(rooms, limit), Pages(rooms, limit), limit, k) {
      PageLeadsOn(rooms, limit, k);
    }
  }

  lemma PageLeadsOn(rooms: seq<Entry>, limit: nat, k: nat)
    requires |rooms| <= MAX_U64 && k <= MAX_U64
    ensures LeadsOn(Answers(rooms, limit), Pages(rooms, limit), limit, k)
  {
    if PageAt(rooms, k, limit).next.Some? { NextTokenLeadsOn(rooms, k, limit); }
  }

  lemma NextTokenLeadsOn(rooms: seq<Entry>, start: nat, limit: nat)
    requires |rooms| <= MAX_U64 && start <= MAX_U64 && PageAt(rooms, start, limit).next.Some?
    ensures start + limit <= MAX_U64
    ensures Respond(rooms, PageAt(rooms, start, limit).next, limit) == Some(PageAt(rooms, start + limit, limit))
  {
    NextStartFits(rooms, start, limit);
    TokenReadsBack(start + limit, limit);
  }

  /** Tokens carry the walk faithfully: each is read back as the start it was written for. */
  lemma {:induction false} TokensCarryTheWalk(
      respond: Option<string> -> Option<Page>, at: nat -> Page, since: Option<string>, start: nat, limit: nat, n: nat)
    requires start <= MAX_U64 && respond(since) == Some(at(start)) && TokensLeadOn(respond, at, limit)
    ensures Follow(respond, since, n) == FollowFrom(at, start, limit, n)
    decreases n
  {
    assert LeadsOn(respond, at, limit, start);
    if n > 0 && at(start).next.Some? {
      TokensCarryTheWalk(respond, at, at(start).next, start + limit, limit, n - 1);
    }
  }

  lemma OnePageMore(page: Page, rest: seq<Page>)
    ensures Chunks([page] + rest) == page.chunk + Chunks(rest)
    ensures Finished(rest) || (rest == [] && page.next.None?) ==> Finished([page] + rest)
  {
  }

  /** The page holds the next `limit` rooms, or all that are left if they are fewer. */
  ghost predicate Holds(page: Page, rooms: seq<Entry>, start: nat, limit: nat)
    requires start <= |rooms|
  {
    if start + limit <= |rooms|
    then page.next.Some? && rooms[start..] == page.chunk + rooms[start + limit..]
    else page.next.None? && rooms[start..] == page.chunk
  }

  ghost predicate PagesHold(at: nat -> Page, rooms: seq<Entry>, limit: nat) {
    forall k :: 0 <= k <= |rooms| ==> Holds(at(k), rooms, k, limit)
  }

  lemma DirectoryPagesHold(rooms: seq<Entry>, limit: nat)
    requires 1 <= limit
    ensures PagesHold(Pages(rooms, limit), rooms, limit)
  {
  }

  /** From any start, the walk ends, and its pages make up the rest of the list. */
  lemma {:induction false} WalkCoversTheRest(at: nat -> Page, rooms: seq<Entry>, start: nat, limit: nat, n: nat)
    requires 1 <= limit && start <= |rooms| && n > |rooms| - start && PagesHold(at, rooms, limit)
    ensures Finished(FollowFrom(at, start, limit, n)) && Chunks(FollowFrom(at, start, limit, n)) == rooms[start..]
    decreases |rooms| - start
  {
    assert Holds(at(start), rooms, start, limit);
    if start + limit <= |rooms| {
      WalkCoversTheRest(at, rooms, start + limit, limit, n - 1);
      OnePageMore(at(start), FollowFrom(at, start + limit, limit, n - 1));
    } else {
      OnePageMore(at(start), []);
    }
  }

  /** Where every page has a next token the walk never ends. */
  lemma {:induction false} EmptyPagesNeverEnd(at: nat -> Page, start: nat, limit: nat, n: nat)
    requires forall k :: at(k).next.Some?
    ensures !Finished(FollowFrom(at, start, limit, n))
    decreases n
  {
    if n > 0 { EmptyPagesNeverEnd(at, start + limit, limit, n - 1); }
  }

  /**
   * Following next tokens from the start ends if and only if pages may hold a room, and then the
   * pages together are the whole list, each room once and in order.
   */
  lemma PagingEndsIff(rooms: seq<Entry>, limit: nat)
    requires |rooms| <= MAX_U64
    ensures (exists n :: Finished(Follow(Answers(rooms, limit), None, n))) <==> limit >= 1
    ensures limit >= 1 ==> Finished(Follow(Answers(rooms, limit), None, |rooms| + 1))
    ensures limit >= 1 ==> Chunks(Follow(Answers(rooms, limit), None, |rooms| + 1)) == rooms
  {
    DirectoryTokensLeadOn(rooms, limit);
    if limit >= 1 { DirectoryPagesHold(rooms, limit); }
    WalkEndsIff(Answers(rooms, limit), Pages(rooms, limit), rooms, limit);
  }

  lemma WalkEndsIff(respond: Option<string> -> Option<Page>, at: nat -> Page, rooms: seq<Entry>, limit: nat)
    requires respond(None) == Some(at(0)) && TokensLeadOn(respond, at, limit)
    requires if limit >= 1 then PagesHold(at, rooms, limit) else forall k :: at(k).next.Some?
    ensures (exists n :: Finished(Follow(respond, None, n))) <==> limit >= 1
    ensures limit >= 1 ==> Finished(Follow(respond, None, |rooms| + 1)) && Chunks(Follow(respond, None, |rooms| + 1)) == rooms
  {
    if limit >= 1 {
      TokensCarryTheWalk(respond, at, None, 0, limit, |rooms| + 1);
      WalkCoversTheRest(at, rooms, 0, limit, |rooms| + 1);
      assert Finished(Follow(respond, None, |rooms| + 1)) && rooms[0..] == rooms;
    } else {
      forall n: nat ensures !Finished(Follow(respond, None, n)) {
        TokensCarryTheWalk(respond, at, None, 0, limit, n);
        EmptyPagesNeverEnd(at, 0, limit, n);
      }
    }
  }

  /** Going on to the next page and back gives the page one came from. */
  lemma PrevUndoesNext(rooms: seq<Entry>, since: Option<string>, limit: nat)
    requires 1 <= limit && |rooms| <= MAX_U64
    requires Respond(rooms, since, limit).Some? && Respond(rooms, since, limit).value.next.Some?
    ensures var page := Respond(rooms, since, limit).value;
      && var onward := Respond(rooms, page.next, limit);
      && onward.Some? && onward.value.prev.Some?
      && Respond(rooms, onward.value.prev, limit) == Some(page)
  {
    var start := ParseSince(since, limit).value;
    NextStartFits(rooms, start, limit);
    OnwardAndBack(rooms, start, limit);
  }

  lemma OnwardAndBack(rooms: seq<Entry>, start: nat, limit: nat)
    requires 1 <= limit && start + limit <= |rooms| <= MAX_U64
    ensures PageAt(rooms, start + limit, limit).prev.Some?
    ensures Respond(rooms, PageAt(rooms, start, limit).next, limit) == Some(PageAt(rooms, start + limit, limit))
    ensures Respond(rooms, PageAt(rooms, start + limit, limit).prev, limit) == Some(PageAt(rooms, start, limit))
  {
    NextTokenLeadsOn(rooms, start, limit);
    TokenReadsBack(start + limit, limit);
    assert PageAt(rooms, start + limit, limit).prev == Some("p" + Decimal(start + limit));
  }

  // ---------------------------------------------------------------- collecting and sorting

  /** The rooms that can be described and match the search, in the order they are listed. */
  function Collected(ids: seq<string>, build: string -> Option<Entry>, matches: Entry -> bool): seq<Entry> {
    if ids == [] then []
    else
      var front := Collected(ids[..|ids| - 1], build, matches);
      var e := build(ids[|ids| - 1]);
      if e.Some? && matches(e.value) then front + [e.value] else front
  }

  /** Each room is described and matched on its own, and the rooms kept stay in the order listed. */
  lemma {:induction false} CollectedConcat(a: seq<string>, b: seq<string>, build: string -> Option<Entry>, matches: Entry -> bool)
    ensures Collected(a + b, build, matches) == Collected(a, build, matches) + Collected(b, build, matches)
    decreases |b|
  {
    if b == [] {
      assert a + b == a;
    } else {
      CollectedConcat(a, b[..|b| - 1], build, matches);
      assert (a + b)[..|a + b| - 1] == a + b[..|b| - 1];
    }
  }

  /** A room is in the directory exactly when it is one of the public rooms, can be described and matches. */
  lemma {:induction false} CollectedIff(ids: seq<string>, build: string -> Option<Entry>, matches: Entry -> bool, e: Entry)
    ensures e in Collected(ids, build, matches) <==> matches(e) && exists id :: id in ids && build(id) == Some(e)
    decreases |ids|
  {
    if ids != [] {
      var front, last := ids[..|ids| - 1], ids[|ids| - 1];
      CollectedIff(front, build, matches, e);
      assert ids == front + [last];
      assert forall id :: id in ids <==> id in front || id == last;
    }
  }

  predicate MoreMembers(a: Entry, b: Entry) { a.members > b.members }

  /** Most members first; a later room goes after the rooms that have as many. */
  function SortRooms(rooms: seq<Entry>): seq<Entry> {
    if rooms == [] then [] else InsertBy(MoreMembers, SortRooms(rooms[..|rooms| - 1]), rooms[|rooms| - 1])
  }

  /** The rooms with exactly this many members, in order. */
  function WithMembers(rooms: seq<Entry>, m: nat): seq<Entry> {
    if rooms == [] then [] else (if rooms[0].members == m then [rooms[0]] else []) + WithMembers(rooms[1..], m)
  }

  ghost predicate Descending(rooms: seq<Entry>) {
    forall i, j :: 0 <= i < j < |rooms| ==> rooms[i].members >= rooms[j].members
  }

  lemma {:induction false} InsertKeepsRooms(rooms: seq<Entry>, e: Entry)
    ensures multiset(InsertBy(MoreMembers, rooms, e)) == multiset(rooms) + multiset{e}
    decreases |rooms|
  {
    if rooms != [] {
      assert rooms == [rooms[0]] + rooms[1..];
      if !MoreMembers(e, rooms[0]) { InsertKeepsRooms(rooms[1..], e); }
    }
  }

  /** No room of the list has more members than `bound`. */
  ghost predicate AtMost(rooms: seq<Entry>, bound: nat) {
    forall i :: 0 <= i < |rooms| ==> rooms[i].members <= bound
  }

  lemma InsertAtMost(rooms: seq<Entry>, e: Entry, bound: nat)
    requires AtMost(rooms, bound) && e.members <= bound
    ensures AtMost(InsertBy(MoreMembers, rooms, e), bound)
  {
    var r := InsertBy(MoreMembers, rooms, e);
    InsertKeepsRooms(rooms, e);
    forall i | 0 <= i < |r| ensures r[i].members <= bound {
      assert r[i] in multiset(rooms) + multiset{e};
    }
  }

  lemma {:induction false} InsertDescending(rooms: seq<Entry>, e: Entry)
    requires Descending(rooms)
    ensures Descending(InsertBy(MoreMembers, rooms, e))
    decreases |rooms|
  {
    if rooms != [] && !MoreMembers(e, rooms[0]) {
      InsertDescending(rooms[1..], e);
      InsertAtMost(rooms[1..], e, rooms[0].members);
    }
  }

  lemma WithMembersCons(e: Entry, rooms: seq<Entry>, m: nat)
    ensures WithMembers([e] + rooms, m) == (if e.members == m then [e] else []) + WithMembers(rooms, m)
  {
  }

  lemma {:induction false} InsertStable(rooms: seq<Entry>, e: Entry, m: nat)
    requires Descending(rooms)
    ensures WithMembers(InsertBy(MoreMembers, rooms, e), m)
         == WithMembers(rooms, m) + (if e.members == m then [e] else [])
    decreases |rooms|
  {
    if rooms == [] {
      WithMembersCons(e, [], m);
      assert [e] + [] == [e];
    } else if MoreMembers(e, rooms[0]) {
      WithMembersCons(e, rooms, m);
      if e.members == m { NoneWithMembers(rooms, m); }
    } else {
      var x, tail := rooms[0], rooms[1..];
      assert rooms == [x] + tail;
      InsertStable(tail, e, m);
      WithMembersCons(x, InsertBy(MoreMembers, tail, e), m);
      WithMembersCons(x, tail, m);
      Assoc(if x.members == m then [x] else [], WithMembers(tail, m), if e.members == m then [e] else []);
    }
  }

  lemma Assoc(a: seq<Entry>, b: seq<Entry>, c: seq<Entry>)
    ensures a + (b + c) == a + b + c
  {
  }

  lemma {:induction false} NoneWithMembers(rooms: seq<Entry>, m: nat)
    requires forall i :: 0 <= i < |rooms| ==> rooms[i].members < m
    ensures WithMembers(rooms, m) == []
    decreases |rooms|
  {
    if rooms != [] { NoneWithMembers(rooms[1..], m); }
  }

  lemma {:induction false} WithMembersAtEnd(front: seq<Entry>, last: Entry, m: nat)
    ensures WithMembers(front + [last], m) == WithMembers(front, m) + (if last.members == m then [last] else [])
    decreases |front|
  {
    if front == [] {
      WithMembersCons(last, [], m);
      assert [last] + [] == [last] && front + [last] == [last];
    } else {
      var x, tail := front[0], front[1..];
      WithMembersAtEnd(tail, last, m);
      assert front == [x] + tail && front + [last] == [x] + (tail + [last]);
      WithMembersCons(x, tail, m);
      WithMembersCons(x, tail + [last], m);
      Assoc(if x.members == m then [x] else [], WithMembers(tail, m), if last.members == m then [last] else []);
    }
  }

  /** The list holds the same rooms. */
  lemma {:induction false} SortKeepsRooms(rooms: seq<Entry>)
    ensures multiset(SortRooms(rooms)) == multiset(rooms)
    decreases |rooms|
  {
    if rooms != [] {
      var front, last := rooms[..|rooms| - 1], rooms[|rooms| - 1];
      SortKeepsRooms(front);
      InsertKeepsRooms(SortRooms(front), last);
      CountLast(front, last);
      assert rooms == front + [last];
    }
  }

  lemma CountLast(front: seq<Entry>, last: Entry)
    ensures multiset(front + [last]) == multiset(front) + multiset{last}
  {
  }

  /** The list is sorted by members. */
  lemma {:induction false} SortSorts(rooms: seq<Entry>)
    ensures Descending(SortRooms(rooms))
    decreases |rooms|
  {
    if rooms != [] {
      SortSorts(rooms[..|rooms| - 1]);
      InsertDescending(SortRooms(rooms[..|rooms| - 1]), rooms[|rooms| - 1]);
    }
  }

  /** Rooms that tie keep the order they were listed in. */
  lemma {:induction false} SortIsStable(rooms: seq<Entry>, m: nat)
    ensures WithMembers(SortRooms(rooms), m) == WithMembers(rooms, m)
    decreases |rooms|
  {
    if rooms != [] {
      var front, last := rooms[..|rooms| - 1], rooms[|rooms| - 1];
      SortIsStable(front, m);
      SortSorts(front);
      InsertStable(SortRooms(front), last, m);
      WithMembersLast(rooms, m);
    }
  }

  lemma WithMembersLast(rooms: seq<Entry>, m: nat)
    requires rooms != []
    ensures var front, last := rooms[..|rooms| - 1], rooms[|rooms| - 1];
      WithMembers(rooms, m) == WithMembers(front, m) + (if last.members == m then [last] else [])
  {
    var front, last := rooms[..|rooms| - 1], rooms[|rooms| - 1];
    WithMembersAtEnd(front, last, m);
    assert rooms == front + [last];
  }

  /** The pages of a directory put together: every room once, most members first, ties as they were listed. */
  lemma PagesAreTheSortedDirectory(rooms: seq<Entry>, limit: nat, m: nat)
    requires 1 <= limit && |rooms| <= MAX_U64
    ensures var pages := Follow(Answers(SortRooms(rooms), limit), None, |rooms| + 1);
      && Finished(pages) && multiset(Chunks(pages)) == multiset(rooms)
      && Descending(Chunks(pages)) && WithMembers(Chunks(pages), m) == WithMembers(rooms, m)
  {
    var sorted := SortRooms(rooms);
    SortKeepsRooms(rooms);
    assert |sorted| == |multiset(sorted)| == |rooms|;
    SortSorts(rooms);
    SortIsStable(rooms, m);
    PagingEndsIff(sorted, limit);
  }

  method GetLocalPublicRooms(limit: Option<nat>, since: Option<string>, ids: seq<string>,
                             build: string -> Option<Entry>, matches: Entry -> bool)
    returns (page: Option<Page>)
    ensures page == Respond(SortRooms(Collected(ids, build, matches)), since,
                            if limit.Some? then limit.value else 10)
  {
    var size := if limit.Some? then limit.value else DEFAULT_LIMIT;
    var start := ParseSince(since, size);
    if start.None? { return None; }
    var rooms: seq<Entry> := [];
    for k := 0 to |ids|
      invariant rooms == Collected(ids[..k], build, matches)
    {
      assert ids[..k + 1][..k] == ids[..k];
      var e := build(ids[k]);
      if e.Some? && matches(e.value) { rooms := rooms + [e.value]; }
    }
    assert ids[..|ids|] == ids;
    var sorted: seq<Entry> := [];
    for k := 0 to |rooms|
      invariant sorted == SortRooms(rooms[..k])
    {
      assert rooms[..k + 1][..k] == rooms[..k];
      sorted := InsertBy(MoreMembers, sorted, rooms[k]);
    }
    assert rooms[..|rooms|] == rooms;
    page := Some(PageAt(sorted, start.value, size));
  }
}
