/** The token-bucket rate limiter, one bucket per IP address. */
module RateLimiter {

  /** Tokens per second and bucket size. */
  datatype Config = Config(perSecond: real, burst: nat) {
    predicate Disabled() { perSecond <= 0.0 || burst == 0 }
  }

  /** One check of an address: when it came and what was answered. */
  datatype Visit = Visit(time: real, accepted: bool)

  // ---------------------------------------------------------------- the law

  /** The number of accepted visits. */
  function Accepted(h: seq<Visit>): nat {
    if h == [] then 0 else Accepted(h[..|h| - 1]) + (if h[|h| - 1].accepted then 1 else 0)
  }

  ghost predicate Timed(h: seq<Visit>) {
    forall i, j :: 0 <= i < j < |h| ==> h[i].time <= h[j].time
  }

  /** No visit is later than `now`. */
  ghost predicate UpTo(h: seq<Visit>, now: real) {
    Timed(h) && (h != [] ==> h[|h| - 1].time <= now)
  }

  /** `n` requests fit in a window of the given length. */
  predicate Fits(cfg: Config, n: nat, length: real) {
    n as real <= cfg.burst as real + cfg.perSecond * length
  }

  /** One more request keeps every window, from an earlier visit up to `now`, within the allowance. */
  ghost predicate Allowed(cfg: Config, h: seq<Visit>, now: real) {
    forall i :: 0 <= i < |h| ==> Fits(cfg, Accepted(h[i..]) + 1, now - h[i].time)
  }

  // ---------------------------------------------------------------- buckets filled by any clock

  /** A bucket that gains what the clock advances: `clock(t)` is what has been earned by time `t`. */
  datatype Meter = Meter(clock: real -> real, burst: real) {
    ghost predicate Runs() { burst >= 1.0 && forall s, t :: s <= t ==> clock(s) <= clock(t) }
  }

  function Min(a: real, b: real): real { if a <= b then a else b }

  /** Tokens left after the history. */
  ghost function Tokens(m: Meter, h: seq<Visit>): real
    decreases |h|, 0
  {
    if h == [] then m.burst
    else
      var v := h[|h| - 1];
      Available(m, h[..|h| - 1], v.time) - (if v.accepted then 1.0 else 0.0)
  }

  /** Tokens a check finds at `now`. */
  ghost function Available(m: Meter, h: seq<Visit>, now: real): real
    decreases |h|, 1
  {
    if h == [] then m.burst else Min(Tokens(m, h) + m.clock(now) - m.clock(h[|h| - 1].time), m.burst)
  }

  /** From the visit at `i` up to `now`, accepted visits and `more` stay within the allowance. */
  ghost predicate WindowHolds(m: Meter, h: seq<Visit>, now: real, more: real, i: nat)
    requires i < |h|
  {
    Accepted(h[i..]) as real + more <= m.burst + m.clock(now) - m.clock(h[i].time)
  }

  ghost predicate AllWindowsHold(m: Meter, h: seq<Visit>, now: real, more: real) {
    forall i :: 0 <= i < |h| ==> WindowHolds(m, h, now, more, i)
  }

  /** The bucket holds the least slack of any window: the two descriptions agree on every amount. */
  lemma {:induction false} BucketIsLeastSlack(m: Meter, h: seq<Visit>, now: real, x: real)
    ensures Available(m, h, now) >= x <==> m.burst >= x && AllWindowsHold(m, h, now, x)
    decreases |h|
  {
    if h != [] {
      var front, v := h[..|h| - 1], h[|h| - 1];
      BucketIsLeastSlack(m, front, v.time, Carried(m, v, now, x));
      WindowsSplit(m, h, now, x);
    }
  }

  /** What must have been there at visit `v`, before it was answered, to have `x` at `now`. */
  ghost function Carried(m: Meter, v: Visit, now: real, x: real): real {
    x + (if v.accepted then 1.0 else 0.0) - (m.clock(now) - m.clock(v.time))
  }

  lemma WindowsSplit(m: Meter, h: seq<Visit>, now: real, x: real)
    requires h != []
    ensures var v := h[|h| - 1]; var y := Carried(m, v, now, x);
      AllWindowsHold(m, h, now, x) <==> m.burst >= y && AllWindowsHold(m, h[..|h| - 1], v.time, y)
  {
    var last := |h| - 1;
    var front, v := h[..last], h[last];
    var y := Carried(m, v, now, x);
    assert h[last..] == [v] && [v][..0] == [];
    assert Accepted([v]) == if v.accepted then 1 else 0;
    assert WindowHolds(m, h, now, x, last) <==> m.burst >= y;
    forall i | 0 <= i < last ensures WindowHolds(m, h, now, x, i) <==> WindowHolds(m, front, v.time, y, i) {
      assert h[i..][..last - i] == front[i..];
    }
  }

  // ---------------------------------------------------------------- rejected visits

  function OnlyAccepted(h: seq<Visit>): seq<Visit> {
    if h == [] then [] else (if h[0].accepted then [h[0]] else []) + OnlyAccepted(h[1..])
  }

  lemma {:induction false} AcceptedFromFront(h: seq<Visit>)
    requires h != []
    ensures Accepted(h) == (if h[0].accepted then 1 else 0) + Accepted(h[1..])
    decreases |h|
  {
    if |h| > 1 {
      AcceptedFromFront(h[..|h| - 1]);
      assert h[..|h| - 1][1..] == h[1..][..|h[1..]| - 1];
    }
  }

  lemma {:induction false} FilterCounts(h: seq<Visit>)
    ensures Accepted(OnlyAccepted(h)) == Accepted(h)
    decreases |h|
  {
    if h != [] {
      AcceptedFromFront(h);
      FilterCounts(h[1..]);
      if h[0].accepted {
        AcceptedFromFront(OnlyAccepted(h));
        assert OnlyAccepted(h)[1..] == OnlyAccepted(h[1..]);
      } else {
        assert OnlyAccepted(h) == OnlyAccepted(h[1..]);
      }
    }
  }

  lemma WindowsFromFront(m: Meter, h: seq<Visit>, now: real, x: real)
    requires h != []
    ensures AllWindowsHold(m, h, now, x) <==> WindowHolds(m, h, now, x, 0) && AllWindowsHold(m, h[1..], now, x)
  {
    forall i | 0 < i < |h| ensures WindowHolds(m, h, now, x, i) <==> WindowHolds(m, h[1..], now, x, i - 1) {
      assert h[1..][i - 1..] == h[i..];
    }
    forall i | 0 <= i < |h| - 1 ensures WindowHolds(m, h, now, x, i + 1) <==> WindowHolds(m, h[1..], now, x, i) {
      assert h[1..][i..] == h[i + 1..];
    }
  }

  /** The window from a rejected visit is implied by the window from the next visit. */
  lemma RejectedWindowHolds(m: Meter, h: seq<Visit>, now: real)
    requires m.Runs() && UpTo(h, now) && h != [] && !h[0].accepted && AllWindowsHold(m, h[1..], now, 1.0)
    ensures WindowHolds(m, h, now, 1.0, 0)
  {
    assert h[0..] == h;
    AcceptedFromFront(h);
    if |h| > 1 {
      assert WindowHolds(m, h[1..], now, 1.0, 0);
      assert h[1..][0..] == h[1..];
      assert m.clock(h[0].time) <= m.clock(h[1].time);
    } else {
      assert m.clock(h[0].time) <= m.clock(now);
    }
  }

  lemma {:induction false} StrikeRejected(m: Meter, h: seq<Visit>, now: real)
    requires m.Runs() && UpTo(h, now)
    ensures AllWindowsHold(m, h, now, 1.0) <==> AllWindowsHold(m, OnlyAccepted(h), now, 1.0)
    decreases |h|
  {
    if h != [] {
      var f := OnlyAccepted(h);
      StrikeRejected(m, h[1..], now);
      WindowsFromFront(m, h, now, 1.0);
      if h[0].accepted {
        WindowsFromFront(m, f, now, 1.0);
        FilterCounts(h);
        assert f[1..] == OnlyAccepted(h[1..]) && f[0..] == f && h[0..] == h;
      } else {
        assert f == OnlyAccepted(h[1..]);
        if AllWindowsHold(m, h[1..], now, 1.0) { RejectedWindowHolds(m, h, now); }
      }
    }
  }

  // ---------------------------------------------------------------- whole histories

  /** The visit at `i` was answered by the law. */
  ghost predicate AnsweredByLaw(m: Meter, h: seq<Visit>, i: nat)
    requires i < |h|
  {
    h[i].accepted <==> AllWindowsHold(m, h[..i], h[i].time, 1.0)
  }

  ghost predicate Lawful(m: Meter, h: seq<Visit>) {
    Timed(h) && forall i :: 0 <= i < |h| ==> AnsweredByLaw(m, h, i)
  }

  /** The accepted visit at `j` still fitted in the window from the visit at `i`. */
  ghost predicate FittedFrom(m: Meter, h: seq<Visit>, i: nat, j: nat)
    requires i < j < |h|
  {
    Accepted(h[i..j]) as real + 1.0 <= m.burst + m.clock(h[j].time) - m.clock(h[i].time)
  }

  lemma AcceptedFitted(m: Meter, h: seq<Visit>, i: nat, j: nat)
    requires Lawful(m, h) && i < j < |h| && h[j].accepted
    ensures FittedFrom(m, h, i, j)
  {
    assert AnsweredByLaw(m, h, j);
    assert WindowHolds(m, h[..j], h[j].time, 1.0, i);
    assert h[..j][i..] == h[i..j];
  }

  lemma {:induction false} WindowBound(m: Meter, h: seq<Visit>, i: nat, j: nat)
    requires m.Runs() && Timed(h) && i <= j < |h|
    requires forall l :: i < l <= j && h[l].accepted ==> FittedFrom(m, h, i, l)
    ensures Accepted(h[i..j + 1]) as real <= m.burst + m.clock(h[j].time) - m.clock(h[i].time)
    decreases j - i
  {
    AcceptedAtEnd(h, i, j);
    if i == j {
      assert h[i..j] == [];
    } else if h[j].accepted {
      assert FittedFrom(m, h, i, j);
    } else {
      WindowBound(m, h, i, j - 1);
      assert m.clock(h[j - 1].time) <= m.clock(h[j].time);
    }
  }

  lemma AcceptedAtEnd(h: seq<Visit>, i: nat, j: nat)
    requires i <= j < |h|
    ensures Accepted(h[i..j + 1]) == Accepted(h[i..j]) + (if h[j].accepted then 1 else 0)
  {
    assert h[i..j + 1][..j - i] == h[i..j] && h[i..j + 1][j - i] == h[j];
  }

  /** The bucket is what the address's lawful history leaves. */
  ghost predicate Records(m: Meter, h: seq<Visit>, bucket: (real, real)) {
    h != [] && Lawful(m, h) && bucket == (Tokens(m, h), h[|h| - 1].time)
  }

  /** Every address's bucket is what its history leaves. */
  ghost predicate AllRecorded(m: Meter, history: map<string, seq<Visit>>, buckets: map<string, (real, real)>) {
    buckets.Keys == history.Keys && forall ip :: ip in history ==> Records(m, history[ip], buckets[ip])
  }

  lemma RecordOne(m: Meter, history: map<string, seq<Visit>>, buckets: map<string, (real, real)>,
                  ip: string, h: seq<Visit>, bucket: (real, real))
    requires AllRecorded(m, history, buckets) && Records(m, h, bucket)
    ensures AllRecorded(m, history[ip := h], buckets[ip := bucket])
  {
  }

  lemma VisitIsRecorded(m: Meter, h: seq<Visit>, v: Visit, tokens: real)
    requires Lawful(m, h) && UpTo(h, v.time) && m.burst >= 1.0
    requires v.accepted <==> Available(m, h, v.time) >= 1.0
    requires tokens == Available(m, h, v.time) - (if v.accepted then 1.0 else 0.0)
    ensures Records(m, h + [v], (tokens, v.time))
  {
    BucketIsLeastSlack(m, h, v.time, 1.0);
    LawfulExtends(m, h, v);
    TokensAfter(m, h, v);
  }

  lemma TokensAfter(m: Meter, h: seq<Visit>, v: Visit)
    ensures Tokens(m, h + [v]) == Available(m, h, v.time) - (if v.accepted then 1.0 else 0.0)
  {
  }

  lemma LawfulExtends(m: Meter, h: seq<Visit>, v: Visit)
    requires Lawful(m, h) && UpTo(h, v.time) && (v.accepted <==> AllWindowsHold(m, h, v.time, 1.0))
    ensures Lawful(m, h + [v])
  {
    var g := h + [v];
    forall i | 0 <= i < |g| ensures AnsweredByLaw(m, g, i) {
      if i < |h| { assert g[..i] == h[..i] && AnsweredByLaw(m, h, i); } else { assert g[..i] == h; }
    }
  }

  // ---------------------------------------------------------------- the configured rate

  ghost function MeterOf(cfg: Config): Meter {
    Meter(t => cfg.perSecond * t, cfg.burst as real)
  }

  lemma MeterRuns(cfg: Config)
    requires !cfg.Disabled()
    ensures MeterOf(cfg).Runs()
  {
  }

  lemma FitsIsWindow(cfg: Config, n: nat, from: real, to: real)
    ensures Fits(cfg, n, to - from) <==>
      n as real <= MeterOf(cfg).burst + MeterOf(cfg).clock(to) - MeterOf(cfg).clock(from)
  {
  }

  lemma AllowedIsWindows(cfg: Config, h: seq<Visit>, now: real)
    ensures Allowed(cfg, h, now) <==> AllWindowsHold(MeterOf(cfg), h, now, 1.0)
  {
    var m := MeterOf(cfg);
    forall i | 0 <= i < |h|
      ensures Fits(cfg, Accepted(h[i..]) + 1, now - h[i].time) <==> WindowHolds(m, h, now, 1.0, i)
    {
      FitsIsWindow(cfg, Accepted(h[i..]) + 1, h[i].time, now);
    }
  }

  /** A check finds a whole token exactly when the law allows one more request. */
  lemma BucketDecidesByTheLaw(cfg: Config, h: seq<Visit>, now: real)
    requires !cfg.Disabled()
    ensures Available(MeterOf(cfg), h, now) >= 1.0 <==> Allowed(cfg, h, now)
  {
    BucketIsLeastSlack(MeterOf(cfg), h, now, 1.0);
    AllowedIsWindows(cfg, h, now);
  }

  /** A rejected visit never changes a later decision: it can be struck from the history. */
  lemma RejectedVisitsDoNotCount(cfg: Config, h: seq<Visit>, now: real)
    requires !cfg.Disabled() && UpTo(h, now)
    ensures Allowed(cfg, h, now) <==> Allowed(cfg, OnlyAccepted(h), now)
  {
    MeterRuns(cfg);
    StrikeRejected(MeterOf(cfg), h, now);
    AllowedIsWindows(cfg, h, now);
    AllowedIsWindows(cfg, OnlyAccepted(h), now);
  }

  /** No window between two visits of a lawful history exceeds burst plus rate times length. */
  lemma VisitsFitAllowance(cfg: Config, h: seq<Visit>, i: nat, j: nat)
    requires !cfg.Disabled() && Lawful(MeterOf(cfg), h) && i <= j < |h|
    ensures Fits(cfg, Accepted(h[i..j + 1]), h[j].time - h[i].time)
  {
    MeterRuns(cfg);
    forall l | i < l <= j && h[l].accepted ensures FittedFrom(MeterOf(cfg), h, i, l) {
      AcceptedFitted(MeterOf(cfg), h, i, l);
    }
    WindowBound(MeterOf(cfg), h, i, j);
    FitsIsWindow(cfg, Accepted(h[i..j + 1]), h[i].time, h[j].time);
  }

  /** The number of accepted visits at times from `a` to `b`. */
  function AcceptedWithin(h: seq<Visit>, a: real, b: real): nat {
    if h == [] then 0
    else
      var v := h[|h| - 1];
      AcceptedWithin(h[..|h| - 1], a, b) + (if v.accepted && a <= v.time <= b then 1 else 0)
  }

  /** The visits from index `i` up to `j` are those at times from `a` to `b`. */
  ghost predicate IsSegment(h: seq<Visit>, a: real, b: real, i: nat, j: nat) {
    && i <= j <= |h|
    && (forall k :: 0 <= k < i ==> h[k].time < a)
    && (forall k :: i <= k < j ==> a <= h[k].time <= b)
    && (forall k :: j <= k < |h| ==> h[k].time > b)
  }

  /** In the order of time, the visits of an interval are next to each other. */
  lemma {:induction false} IntervalIsSegment(h: seq<Visit>, a: real, b: real) returns (i: nat, j: nat)
    requires Timed(h) && a <= b
    ensures IsSegment(h, a, b, i, j) && AcceptedWithin(h, a, b) == Accepted(h[i..j])
    decreases |h|
  {
    if h == [] {
      return 0, 0;
    }
    var front, v := h[..|h| - 1], h[|h| - 1];
    i, j := IntervalIsSegment(front, a, b);
    assert front[i..j] == h[i..j];
    assert h == front + [v];
    if v.time < a {
      SegmentPassedBy(h, a, b, i, j);
      i, j := |h|, |h|;
    } else if v.time <= b {
      SegmentGoesOn(h, a, b, i, j);
      j := |h|;
    }
  }

  /** No visit is later than the last. */
  lemma LastIsLatest(h: seq<Visit>, k: nat)
    requires Timed(h) && k < |h|
    ensures h[k].time <= h[|h| - 1].time
  {
  }

  lemma SegmentPassedBy(h: seq<Visit>, a: real, b: real, i: nat, j: nat)
    requires Timed(h) && a <= b && h != [] && IsSegment(h[..|h| - 1], a, b, i, j) && h[|h| - 1].time < a
    ensures IsSegment(h, a, b, |h|, |h|) && h[i..j] == [] == h[|h|..|h|]
  {
    LastIsLatest(h, i);
    forall k | 0 <= k < |h| ensures h[k].time < a { LastIsLatest(h, k); }
  }

  lemma SegmentGoesOn(h: seq<Visit>, a: real, b: real, i: nat, j: nat)
    requires Timed(h) && a <= b && h != [] && IsSegment(h[..|h| - 1], a, b, i, j) && a <= h[|h| - 1].time <= b
    ensures IsSegment(h, a, b, i, |h|)
    ensures Accepted(h[i..|h|]) == Accepted(h[i..j]) + (if h[|h| - 1].accepted then 1 else 0)
  {
    var front := h[..|h| - 1];
    LastIsLatest(h, j);
    assert h == front + [h[|h| - 1]];
    assert j == |front|;
    AcceptedAtEnd(h, i, j);
  }

  /** In no interval of time do the accepted requests of a lawful history exceed burst plus rate times length. */
  lemma NoWindowExceedsAllowance(cfg: Config, h: seq<Visit>, a: real, b: real)
    requires !cfg.Disabled() && Lawful(MeterOf(cfg), h) && a <= b
    ensures Fits(cfg, AcceptedWithin(h, a, b), b - a)
  {
    var i, j := IntervalIsSegment(h, a, b);
    if i == j {
      assert h[i..j] == [];
      LongerFits(cfg, 0, 0.0, b - a);
    } else {
      VisitsFitAllowance(cfg, h, i, j - 1);
      LongerFits(cfg, Accepted(h[i..j]), h[j - 1].time - h[i].time, b - a);
    }
  }

  lemma LongerFits(cfg: Config, n: nat, short: real, long: real)
    requires !cfg.Disabled() && short <= long && Fits(cfg, n, short)
    ensures Fits(cfg, n, long)
  {
    assert cfg.perSecond * (long - short) >= 0.0;
    assert cfg.perSecond * long == cfg.perSecond * short + cfg.perSecond * (long - short);
  }

  // ---------------------------------------------------------------- the limiter

  /** Tokens at `now` in a bucket last touched at `last`; time never counts backwards. */
  function Refill(cfg: Config, tokens: real, last: real, now: real): real {
    var elapsed := if now < last then 0.0 else now - last;
    Min(tokens + elapsed * cfg.perSecond, cfg.burst as real)
  }

  lemma RefillIsAvailable(cfg: Config, h: seq<Visit>, now: real)
    requires UpTo(h, now)
    ensures Available(MeterOf(cfg), h, now) == (
      if h == [] then Refill(cfg, cfg.burst as real, now, now)
      else Refill(cfg, Tokens(MeterOf(cfg), h), h[|h| - 1].time, now))
  {
  }

  /** One check of one address: the answer and the bucket afterwards. */
  method Consume(cfg: Config, bucket: (real, real), now: real, ghost h: seq<Visit>)
    returns (accepted: bool, after: (real, real))
    requires !cfg.Disabled() && UpTo(h, now)
    requires if h == [] then bucket == (cfg.burst as real, now) else Records(MeterOf(cfg), h, bucket)
    ensures accepted <==> Allowed(cfg, h, now)
    ensures Records(MeterOf(cfg), h + [Visit(now, accepted)], after)
  {
    var tokens := Refill(cfg, bucket.0, bucket.1, now);
    RefillIsAvailable(cfg, h, now);
    BucketDecidesByTheLaw(cfg, h, now);
    accepted := tokens >= 1.0;
    if accepted { tokens := tokens - 1.0; }
    after := (tokens, now);
    VisitIsRecorded(MeterOf(cfg), h, Visit(now, accepted), tokens);
  }

  class Limiter {
    /** For each address, the tokens left and the time of the last check. */
    var buckets: map<string, (real, real)>

    /** For each address, its checks so far. */
    ghost var history: map<string, seq<Visit>>

    ghost predicate Valid(cfg: Config)
      reads this
    {
      AllRecorded(MeterOf(cfg), history, buckets)
    }

    ghost function VisitsOf(ip: string): seq<Visit>
      reads this
    {
      if ip in history then history[ip] else []
    }

    constructor ()
      ensures buckets == map[] && forall cfg :: Valid(cfg)
    {
      buckets, history := map[], map[];
    }

    /** Answer by the law, remember the visit, and leave every other address alone. */
    method Check(ip: string, cfg: Config, now: real) returns (accepted: bool)
      requires Valid(cfg) && UpTo(VisitsOf(ip), now)
      modifies this
      ensures Valid(cfg)
      ensures (cfg.perSecond <= 0.0 || cfg.burst == 0) ==> accepted && buckets == old(buckets) && history == old(history)
      ensures cfg.perSecond > 0.0 && cfg.burst > 0 ==>
        && (accepted <==> Allowed(cfg, old(VisitsOf(ip)), now))
        && history == old(history)[ip := old(VisitsOf(ip)) + [Visit(now, accepted)]]
        && ip in buckets && buckets == old(buckets)[ip := buckets[ip]]
    {
      if cfg.Disabled() { return true; }
      accepted := Take(ip, cfg, now);
    }

    /** One check against the bucket of the address. */
    method Take(ip: string, cfg: Config, now: real) returns (accepted: bool)
      requires Valid(cfg) && UpTo(VisitsOf(ip), now) && !cfg.Disabled()
      modifies this
      ensures Valid(cfg) && (accepted <==> Allowed(cfg, old(VisitsOf(ip)), now))
      ensures history == old(history)[ip := old(VisitsOf(ip)) + [Visit(now, accepted)]]
      ensures ip in buckets && buckets == old(buckets)[ip := buckets[ip]]
    {
      var entry := if ip in buckets then buckets[ip] else (cfg.burst as real, now);
      ghost var h := VisitsOf(ip);
      var after;
      accepted, after := Consume(cfg, entry, now, h);
      RecordOne(MeterOf(cfg), history, buckets, ip, h + [Visit(now, accepted)], after);
      buckets := buckets[ip := after];
      history := history[ip := h + [Visit(now, accepted)]];
    }
  }
}
