/** The migration rate limiter and the set of hot pages. */
module LayerManagement {

  /** One second on the steady clock, in its ticks of a nanosecond. */
  const SECOND := 1_000_000_000

  /** `duration_cast<seconds>` drops the fraction. */
  function WholeSeconds(ticks: int): int {
    if ticks >= 0 then ticks / SECOND else -((-ticks) / SECOND)
  }

  datatype Limiter = Limiter(limit: int, last: int, rows: int)
  {
    function Resets(now: int): bool {
      WholeSeconds(now - last) >= 1
    }

    function Asked(now: int): Limiter {
      if Resets(now) then Limiter(limit, now, 0) else this
    }

    function Started(now: int): Limiter {
      this.(last := now)
    }

    function Recorded(count: int): Limiter {
      this.(rows := rows + count)
    }
  }

  /**
   * What the migration code does at a time: announce a migration, ask only, or ask and on a yes move a batch of rows
   * and record it.
   */
  datatype Event = Start(time: int) | Ask(time: int) | Migrate(time: int, batch: nat)

  function Moved(s: Limiter, e: Event): nat {
    if e.Migrate? && s.Asked(e.time).rows < s.limit then e.batch else 0
  }

  function After(s: Limiter, e: Event): Limiter {
    match e
    case Start(now) => s.Started(now)
    case Ask(now) => s.Asked(now)
    case Migrate(now, batch) => s.Asked(now).Recorded(Moved(s, e))
  }

  /** Rows moved by a run of events. */
  function Total(s: Limiter, events: seq<Event>): nat
    decreases |events|
  {
    if events == [] then 0 else Moved(s, events[0]) + Total(After(s, events[0]), events[1..])
  }

  function AfterAll(s: Limiter, events: seq<Event>): Limiter
    decreases |events|
  {
    if events == [] then s else AfterAll(After(s, events[0]), events[1..])
  }

  /** The clock never runs backwards, and batches hold between one and `batch` rows. */
  ghost predicate Timed(s: Limiter, events: seq<Event>, batch: nat)
    decreases |events|
  {
    events == [] || (
      && s.last <= events[0].time
      && (|events| > 1 ==> events[0].time <= events[1].time)
      && (events[0].Migrate? ==> 1 <= events[0].batch <= batch)
      && Timed(After(s, events[0]), events[1..], batch))
  }

  ghost predicate Until(events: seq<Event>, end: int) {
    forall i :: 0 <= i < |events| ==> events[i].time <= end
  }

  /** A counter that the limiter can reach: a batch is let in only below the limit. */
  ghost predicate Counting(s: Limiter, batch: nat) {
    s.limit >= 1 && 0 <= s.rows <= s.limit + batch - 1
  }

  /** The counter stays within `cap`, at the start and after each event. */
  ghost predicate Capped(s: Limiter, events: seq<Event>, cap: nat)
    decreases |events|
  {
    0 <= s.rows <= cap && (events != [] ==> Capped(After(s, events[0]), events[1..], cap))
  }

  lemma StepClock(s: Limiter, e: Event)
    ensures After(s, e).limit == s.limit
    ensures s.last <= e.time ==> s.last <= After(s, e).last <= e.time
    ensures !e.Start? && s.Resets(e.time) ==> After(s, e).last == e.time && After(s, e).rows == Moved(s, e)
    ensures !(!e.Start? && s.Resets(e.time)) ==> After(s, e).rows == s.rows + Moved(s, e)
    ensures e.Start? ==> After(s, e).last == e.time
    ensures !e.Start? && !s.Resets(e.time) ==> After(s, e).last == s.last
  {
  }

  lemma SecondsLeft(last: int, now: int, end: int)
    requires last <= now <= end
    ensures 0 <= (end - now) / SECOND <= (end - last) / SECOND
    ensures WholeSeconds(now - last) >= 1 ==> (end - now) / SECOND + 1 <= (end - last) / SECOND
  {
  }

  lemma Scale(c: nat, j: int, k: int)
    requires j <= k
    ensures c * j <= c * k && c * (j + 1) == c * j + c
  {
  }

  /** After a clock value each whole second allows one more reset, and each reset one more full counter. */
  lemma {:induction false} BoundSinceLast(s: Limiter, events: seq<Event>, batch: nat, cap: nat, end: int)
    requires Capped(s, events, cap) && Timed(s, events, batch) && Until(events, end) && s.last <= end
    ensures Total(s, events) <= cap - s.rows + cap * ((end - s.last) / SECOND)
    decreases |events|
  {
    SecondsLeft(s.last, s.last, end);
    Scale(cap, 0, (end - s.last) / SECOND);
    if events != [] {
      var e, t := events[0], After(s, events[0]);
      assert e.time <= end;
      StepClock(s, e);
      assert Until(events[1..], end);
      BoundSinceLast(t, events[1..], batch, cap, end);
      SecondsLeft(s.last, t.last, end);
      Scale(cap, (end - t.last) / SECOND, (end - s.last) / SECOND);
      if !e.Start? && s.Resets(e.time) {
        Scale(cap, (end - t.last) / SECOND + 1, (end - s.last) / SECOND);
      }
    }
  }

  /** Events from a time on: the counter may reset once right away, then once a second. */
  lemma {:induction false} BoundFrom(s: Limiter, events: seq<Event>, batch: nat, cap: nat, from: int, end: int)
    requires Capped(s, events, cap) && Timed(s, events, batch) && Until(events, end) && from <= end
    requires events != [] ==> from <= events[0].time
    ensures Total(s, events) <= cap - s.rows + cap * ((end - from) / SECOND + 1)
    decreases |events|
  {
    SecondsLeft(from, from, end);
    Scale(cap, 0, (end - from) / SECOND + 1);
    if events != [] {
      var e, t := events[0], After(s, events[0]);
      assert e.time <= end;
      StepClock(s, e);
      assert Until(events[1..], end);
      if t.last == e.time {
        BoundSinceLast(t, events[1..], batch, cap, end);
        SecondsLeft(from, t.last, end);
        Scale(cap, (end - t.last) / SECOND, (end - from) / SECOND);
      } else {
        BoundFrom(t, events[1..], batch, cap, from, end);
      }
    }
  }

  lemma {:induction false} RunSplits(s: Limiter, before: seq<Event>, events: seq<Event>, batch: nat, cap: nat)
    requires Capped(s, before + events, cap) && Timed(s, before + events, batch)
    ensures Capped(AfterAll(s, before), events, cap) && Timed(AfterAll(s, before), events, batch)
    ensures AfterAll(s, before).limit == s.limit
    decreases |before|
  {
    if before == [] {
      assert before + events == events;
    } else {
      assert (before + events)[1..] == before[1..] + events;
      RunSplits(After(s, before[0]), before[1..], events, batch, cap);
    }
  }

  lemma {:induction false} TimesAscend(s: Limiter, events: seq<Event>, batch: nat, end: int)
    requires Timed(s, events, batch) && (events != [] ==> events[|events| - 1].time <= end)
    ensures Until(events, end)
    decreases |events|
  {
    if |events| > 1 {
      TimesAscend(After(s, events[0]), events[1..], batch, end);
      assert events[1..][0] == events[1];
      assert forall i :: 1 <= i < |events| ==> events[i] == events[1..][i - 1];
    }
  }

  /** In every run whose counter stays within `cap`, a span of `ticks` moves at most (whole seconds + 2) * cap rows. */
  lemma CappedRate(s: Limiter, before: seq<Event>, span: seq<Event>, batch: nat, cap: nat, ticks: nat)
    requires Capped(s, before + span, cap) && Timed(s, before + span, batch)
    requires span != [] ==> span[|span| - 1].time - span[0].time <= ticks
    ensures Total(AfterAll(s, before), span) <= (ticks / SECOND + 2) * cap
  {
    RunSplits(s, before, span, batch, cap);
    var t := AfterAll(s, before);
    var from := if span == [] then 0 else span[0].time;
    TimesAscend(t, span, batch, from + ticks);
    BoundFrom(t, span, batch, cap, from, from + ticks);
    Scale(cap, ticks / SECOND + 1, ticks / SECOND + 1);
    assert (ticks / SECOND + 2) * cap == cap * (ticks / SECOND + 1 + 1);
  }

  lemma {:induction false} CountingCapped(s: Limiter, events: seq<Event>, batch: nat)
    requires Counting(s, batch) && Timed(s, events, batch)
    ensures Capped(s, events, s.limit + batch - 1)
    decreases |events|
  {
    if events != [] {
      CountingCapped(After(s, events[0]), events[1..], batch);
    }
  }

  /**
   * In every run, the events of any span of `ticks` move at most (whole seconds + 2) * (limit + batch - 1) rows, also
   * when announcements interleave with the checks.
   */
  lemma RateBound(s: Limiter, before: seq<Event>, span: seq<Event>, batch: nat, ticks: nat)
    requires Counting(s, batch) && Timed(s, before + span, batch)
    requires span != [] ==> span[|span| - 1].time - span[0].time <= ticks
    ensures Total(AfterAll(s, before), span) <= (ticks / SECOND + 2) * (s.limit + batch - 1)
  {
    CountingCapped(s, before + span, batch);
    CappedRate(s, before, span, batch, s.limit + batch - 1, ticks);
  }

  /** Every batch that is let in fits in what the limit leaves of its second. */
  ghost predicate BatchesFit(s: Limiter, events: seq<Event>)
    decreases |events|
  {
    events == [] || (
      && (Moved(s, events[0]) > 0 ==> s.Asked(events[0].time).rows + events[0].batch <= s.limit)
      && BatchesFit(After(s, events[0]), events[1..]))
  }

  /** The limit itself is kept between any two resets exactly when every batch let in fits. */
  lemma {:induction false} LimitKept(s: Limiter, events: seq<Event>)
    requires 0 <= s.rows <= s.limit
    ensures Capped(s, events, s.limit) <==> BatchesFit(s, events)
    decreases |events|
  {
    if events != [] {
      var t := After(s, events[0]);
      StepClock(s, events[0]);
      if t.rows <= s.limit {
        LimitKept(t, events[1..]);
      }
    }
  }

  /** With batches that fit, a span moves at most (whole seconds + 2) * limit rows. */
  lemma FittingRate(s: Limiter, before: seq<Event>, span: seq<Event>, batch: nat, ticks: nat)
    requires 0 <= s.rows <= s.limit && BatchesFit(s, before + span) && Timed(s, before + span, batch)
    requires span != [] ==> span[|span| - 1].time - span[0].time <= ticks
    ensures Total(AfterAll(s, before), span) <= (ticks / SECOND + 2) * s.limit
  {
    LimitKept(s, before + span);
    CappedRate(s, before, span, batch, s.limit, ticks);
  }

  // ---- resets ----

  /** The counter resets exactly when a full second has passed. */
  lemma ResetsAfterSecond(s: Limiter, now: int)
    requires s.last <= now
    ensures s.Resets(now) <==> now - s.last >= SECOND
  {
  }

  lemma {:induction false} ClockAscends(s: Limiter, events: seq<Event>, batch: nat)
    requires Timed(s, events, batch)
    ensures s.last <= AfterAll(s, events).last
    decreases |events|
  {
    if events != [] {
      ClockAscends(After(s, events[0]), events[1..], batch);
    }
  }

  /** Two resets of the counter are a second apart or more, whatever is announced between them. */
  lemma ResetsApart(s: Limiter, e: Event, between: seq<Event>, f: Event, batch: nat)
    requires Timed(s, [e] + between + [f], batch)
    requires !e.Start? && s.Resets(e.time)
    requires !f.Start? && AfterAll(After(s, e), between).Resets(f.time)
    ensures f.time - e.time >= SECOND
  {
    var all := [e] + between + [f];
    assert all[0] == e && all[1..] == between + [f];
    var t := After(s, e);
    TimedSplits(t, between, [f], batch);
    ClockAscends(t, between, batch);
    ResetsAfterSecond(AfterAll(t, between), f.time);
  }

  lemma {:induction false} TimedSplits(s: Limiter, before: seq<Event>, events: seq<Event>, batch: nat)
    requires Timed(s, before + events, batch)
    ensures Timed(s, before, batch) && Timed(AfterAll(s, before), events, batch)
    decreases |before|
  {
    if before == [] {
      assert before + events == events;
    } else {
      assert (before + events)[1..] == before[1..] + events;
      TimedSplits(After(s, before[0]), before[1..], events, batch);
    }
  }

  // ---- the bound is reached ----

  lemma {:induction false} RunsJoin(s: Limiter, a: seq<Event>, b: seq<Event>, batch: nat)
    requires Timed(s, a, batch) && Timed(AfterAll(s, a), b, batch)
    requires a != [] && b != [] ==> a[|a| - 1].time <= b[0].time
    ensures Timed(s, a + b, batch)
    ensures Total(s, a + b) == Total(s, a) + Total(AfterAll(s, a), b)
    ensures AfterAll(s, a + b) == AfterAll(AfterAll(s, a), b)
    decreases |a|
  {
    if a == [] {
      assert a + b == b;
    } else {
      assert (a + b)[1..] == a[1..] + b;
      RunsJoin(After(s, a[0]), a[1..], b, batch);
    }
  }

  /** As many batches of one row at one time. */
  function Ones(time: int, n: nat): (run: seq<Event>)
    ensures |run| == n && forall i :: 0 <= i < n ==> run[i] == Migrate(time, 1)
  {
    seq(n, i => Migrate(time, 1))
  }

  /** Up to the last row below the limit, then one whole batch. */
  function Window(time: int, limit: nat, batch: nat): (run: seq<Event>)
    requires limit >= 1
    ensures |run| == limit && forall i :: 0 <= i < limit ==> run[i].time == time
  {
    Ones(time, limit - 1) + [Migrate(time, batch)]
  }

  lemma {:induction false} OnesMove(s: Limiter, time: int, n: nat, batch: nat)
    requires s.last <= time && !s.Resets(time) && s.rows + n <= s.limit && batch >= 1
    ensures Timed(s, Ones(time, n), batch)
    ensures Total(s, Ones(time, n)) == n && AfterAll(s, Ones(time, n)) == s.Recorded(n)
    decreases n
  {
    if n > 0 {
      assert Ones(time, n)[1..] == Ones(time, n - 1);
      OnesMove(s.Recorded(1), time, n - 1, batch);
    }
  }

  /** Asking first makes no difference to events at the same time. */
  lemma AskedFirst(s: Limiter, run: seq<Event>, batch: nat)
    requires run != [] && run[0].Migrate? && s.last <= run[0].time
    ensures var u := s.Asked(run[0].time);
            && u.last <= run[0].time && !u.Resets(run[0].time)
            && Total(s, run) == Total(u, run) && AfterAll(s, run) == AfterAll(u, run)
            && Timed(s, run, batch) == Timed(u, run, batch)
  {
  }

  lemma WindowMoves(s: Limiter, time: int, batch: nat)
    requires s.limit >= 1 && s.last <= time && (s.Resets(time) || s.rows == 0) && batch >= 1
    ensures var run := Window(time, s.limit, batch);
            && Timed(s, run, batch) && Total(s, run) == s.limit + batch - 1
            && AfterAll(s, run) == Limiter(s.limit, s.Asked(time).last, s.limit + batch - 1)
  {
    var u, run := s.Asked(time), Window(time, s.limit, batch);
    assert run[0].Migrate?;
    AskedFirst(s, run, batch);
    OnesMove(u, time, s.limit - 1, batch);
    var v, last := u.Recorded(s.limit - 1), [Migrate(time, batch)];
    OneBatch(v, last[0], batch);
    RunsJoin(u, Ones(time, s.limit - 1), last, batch);
  }

  lemma OneBatch(s: Limiter, e: Event, batch: nat)
    requires e.Migrate? && 1 <= e.batch <= batch && s.last <= e.time && !s.Resets(e.time) && s.rows < s.limit
    ensures Timed(s, [e], batch) && Total(s, [e]) == e.batch && AfterAll(s, [e]) == s.Recorded(e.batch)
  {
    assert [e][1..] == [];
  }

  /** Just before the first second is over, and then on every second. */
  function Moment(w: nat): int {
    if w == 0 then SECOND - 1 else w * SECOND
  }

  /** `n` windows from the `w`-th moment on. */
  function BusyRun(w: nat, n: nat, limit: nat, batch: nat): seq<Event>
    requires limit >= 1
    decreases n
  {
    if n == 0 then [] else Window(Moment(w), limit, batch) + BusyRun(w + 1, n - 1, limit, batch)
  }

  lemma {:induction false} BusyTimes(w: nat, n: nat, limit: nat, batch: nat)
    requires limit >= 1 && n >= 1
    ensures var run := BusyRun(w, n, limit, batch);
            run != [] && run[0].time == Moment(w) && run[|run| - 1].time == Moment(w + n - 1)
    decreases n
  {
    if n > 1 {
      BusyTimes(w + 1, n - 1, limit, batch);
    }
  }

  function Times(n: nat, c: nat): nat {
    if n == 0 then 0 else c + Times(n - 1, c)
  }

  lemma {:induction false} TimesIsProduct(n: nat, c: nat)
    ensures Times(n, c) == n * c
  {
    if n > 0 {
      TimesIsProduct(n - 1, c);
      Scale(c, n - 1, n);
    }
  }

  /** Where the clock value stands before the `w`-th moment. */
  function ClockBefore(w: nat): int {
    if w == 0 then 0 else (w - 1) * SECOND
  }

  lemma MomentAsked(s: Limiter, w: nat)
    requires s.last == ClockBefore(w) && (w == 0 ==> s.rows == 0)
    ensures s.last <= Moment(w) <= Moment(w + 1) && (s.Resets(Moment(w)) || s.rows == 0)
    ensures s.Asked(Moment(w)).last == ClockBefore(w + 1)
  {
    ResetsAfterSecond(s, Moment(w));
  }

  lemma {:induction false} BusyMoves(s: Limiter, w: nat, n: nat, batch: nat)
    requires s.limit >= 1 && batch >= 1
    requires s.last == ClockBefore(w) && (w == 0 ==> s.rows == 0)
    ensures Timed(s, BusyRun(w, n, s.limit, batch), batch)
    ensures Total(s, BusyRun(w, n, s.limit, batch)) == Times(n, s.limit + batch - 1)
    decreases n
  {
    if n > 0 {
      var u := AfterAll(s, Window(Moment(w), s.limit, batch));
      MomentAsked(s, w);
      WindowMoves(s, Moment(w), batch);
      BusyMoves(u, w + 1, n - 1, batch);
      BusyStep(s, w, n, batch);
    }
  }

  lemma BusyStep(s: Limiter, w: nat, n: nat, batch: nat)
    requires s.limit >= 1 && n >= 1
    requires var window := Window(Moment(w), s.limit, batch); var u := AfterAll(s, window);
             && Timed(s, window, batch) && Total(s, window) == s.limit + batch - 1
             && Timed(u, BusyRun(w + 1, n - 1, s.limit, batch), batch)
             && Total(u, BusyRun(w + 1, n - 1, s.limit, batch)) == Times(n - 1, s.limit + batch - 1)
    ensures Timed(s, BusyRun(w, n, s.limit, batch), batch)
    ensures Total(s, BusyRun(w, n, s.limit, batch)) == Times(n, s.limit + batch - 1)
  {
    hide Total, Timed, AfterAll, Window;
    var window, rest := Window(Moment(w), s.limit, batch), BusyRun(w + 1, n - 1, s.limit, batch);
    if n > 1 {
      BusyTimes(w + 1, n - 1, s.limit, batch);
    }
    RunsJoin(s, window, rest, batch);
  }

  /** The bound is met for every limit, batch size and number of seconds: no smaller one holds. */
  lemma RateBoundIsTight(limit: nat, batch: nat, seconds: nat)
    requires limit >= 1 && batch >= 1
    ensures var s, run := Limiter(limit, 0, 0), BusyRun(0, seconds + 2, limit, batch);
            && Counting(s, batch) && Timed(s, run, batch) && run != []
            && var ticks := run[|run| - 1].time - run[0].time;
            && ticks / SECOND == seconds
            && Total(s, run) == (ticks / SECOND + 2) * (limit + batch - 1)
  {
    BusyTimes(0, seconds + 2, limit, batch);
    BusyMoves(Limiter(limit, 0, 0), 0, seconds + 2, batch);
    TimesIsProduct(seconds + 2, limit + batch - 1);
    assert (seconds + 1) * SECOND - (SECOND - 1) == seconds * SECOND + 1;
  }

  // ---- the hot set ----

  /** A page declared hot or cold. */
  datatype Mark = Hot(pageId: int) | Cold(pageId: int)

  /** The hot pages after a run of marks. */
  function Marked(hot: set<int>, marks: seq<Mark>): set<int>
    decreases |marks|
  {
    if marks == [] then hot
    else Marked(if marks[0].Hot? then hot + {marks[0].pageId} else hot - {marks[0].pageId}, marks[1..])
  }

  /** A page that is not marked keeps its layer. */
  lemma {:induction false} UnmarkedStays(hot: set<int>, marks: seq<Mark>, pageId: int)
    requires forall i :: 0 <= i < |marks| ==> marks[i].pageId != pageId
    ensures pageId in Marked(hot, marks) <==> pageId in hot
    decreases |marks|
  {
    if marks != [] {
      assert forall i :: 0 <= i < |marks[1..]| ==> marks[1..][i] == marks[i + 1];
      UnmarkedStays(if marks[0].Hot? then hot + {marks[0].pageId} else hot - {marks[0].pageId}, marks[1..], pageId);
    }
  }

  /** The last mark of a page decides its layer, whatever was marked before and besides. */
  lemma {:induction false} LastMarkDecides(hot: set<int>, marks: seq<Mark>, last: nat)
    requires last < |marks| && forall i :: last < i < |marks| ==> marks[i].pageId != marks[last].pageId
    ensures marks[last].pageId in Marked(hot, marks) <==> marks[last].Hot?
    decreases |marks|
  {
    var next := if marks[0].Hot? then hot + {marks[0].pageId} else hot - {marks[0].pageId};
    assert forall i :: 0 <= i < |marks[1..]| ==> marks[1..][i] == marks[i + 1];
    if last == 0 {
      UnmarkedStays(next, marks[1..], marks[0].pageId);
    } else {
      LastMarkDecides(next, marks[1..], last - 1);
    }
  }

  class LayerManager {
    var hotPageIds: set<int>
    var migrationRateLimit: int
    var lastMigrationTime: int
    var rowsMigratedThisSecond: int

    ghost function State(): Limiter
      reads this
    {
      Limiter(migrationRateLimit, lastMigrationTime, rowsMigratedThisSecond)
    }

    constructor ()
      ensures hotPageIds == {} && State() == Limiter(1000, 0, 0)
    {
      hotPageIds, migrationRateLimit, lastMigrationTime, rowsMigratedThisSecond := {}, 1000, 0, 0;
    }

    method SetMigrationRateLimit(rowsPerSec: int)
      modifies this`migrationRateLimit
      ensures State() == old(State()).(limit := rowsPerSec)
    {
      migrationRateLimit := rowsPerSec;
    }

    method IsPageHot(pageId: int) returns (hot: bool)
      ensures hot == (pageId in hotPageIds)
    {
      hot := pageId in hotPageIds;
    }

    method MarkPageHot(pageId: int)
      modifies this`hotPageIds
      ensures hotPageIds == old(hotPageIds) + {pageId}
    {
      hotPageIds := hotPageIds + {pageId};
    }

    method MarkPageCold(pageId: int)
      modifies this`hotPageIds
      ensures hotPageIds == old(hotPageIds) - {pageId}
    {
      hotPageIds := hotPageIds - {pageId};
    }

    /** After a run of marks each page is where its last mark put it. */
    method ApplyMarks(marks: seq<Mark>)
      modifies this`hotPageIds
      ensures hotPageIds == Marked(old(hotPageIds), marks)
    {
      assert marks[0..] == marks;
      for i := 0 to |marks|
        invariant Marked(hotPageIds, marks[i..]) == Marked(old(hotPageIds), marks)
      {
        assert marks[i..][0] == marks[i] && marks[i..][1..] == marks[i + 1..];
        match marks[i] {
          case Hot(id) => MarkPageHot(id);
          case Cold(id) => MarkPageCold(id);
        }
      }
      assert marks[|marks|..] == [];
    }

    /** Whether more rows may move at time `now`. */
    method CanMigrateMore(now: int) returns (more: bool)
      modifies this`rowsMigratedThisSecond, this`lastMigrationTime
      ensures State() == old(State()).Asked(now) && more == (rowsMigratedThisSecond < migrationRateLimit)
      ensures if now - old(lastMigrationTime) >= 1_000_000_000 then lastMigrationTime == now && rowsMigratedThisSecond == 0
              else unchanged(this)
    {
      var elapsed := WholeSeconds(now - lastMigrationTime);
      if elapsed >= 1 {
        rowsMigratedThisSecond := 0;
        lastMigrationTime := now;
      }
      more := rowsMigratedThisSecond < migrationRateLimit;
    }

    method RecordMigrationStart(now: int)
      modifies this`lastMigrationTime
      ensures State() == old(State()).Started(now) && lastMigrationTime == now
    {
      lastMigrationTime := now;
    }

    method RecordMigrationRows(rows: int)
      modifies this`rowsMigratedThisSecond
      ensures State() == old(State()).Recorded(rows) && rowsMigratedThisSecond == old(rowsMigratedThisSecond) + rows
    {
      rowsMigratedThisSecond := rowsMigratedThisSecond + rows;
    }

    /** A migration run against the limiter moves exactly what the events say. */
    method RunMigrations(events: seq<Event>) returns (moved: nat)
      modifies this`rowsMigratedThisSecond, this`lastMigrationTime
      ensures moved == Total(old(State()), events) && State() == AfterAll(old(State()), events)
    {
      moved := 0;
      assert events[0..] == events;
      for i := 0 to |events|
        invariant moved + Total(State(), events[i..]) == Total(old(State()), events)
        invariant AfterAll(State(), events[i..]) == AfterAll(old(State()), events)
      {
        assert events[i..][0] == events[i] && events[i..][1..] == events[i + 1..];
        match events[i] {
          case Start(now) => RecordMigrationStart(now);
          case Ask(now) => var _ := CanMigrateMore(now);
          case Migrate(now, batch) =>
            var more := CanMigrateMore(now);
            if more {
              RecordMigrationRows(batch);
              moved := moved + batch;
            }
        }
      }
      assert events[|events|..] == [];
    }
  }

  /** The overshoot on the limiter itself. */
  method MigrateBusily(limit: nat, batch: nat, seconds: nat) returns (moved: nat)
    requires limit >= 1 && batch >= 1
    ensures moved == (seconds + 2) * (limit + batch - 1)
  {
    var m := new LayerManager();
    m.SetMigrationRateLimit(limit);
    RateBoundIsTight(limit, batch, seconds);
    moved := m.RunMigrations(BusyRun(0, seconds + 2, limit, batch));
  }
}
