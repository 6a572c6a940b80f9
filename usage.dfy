/** Per-day usage (utils/index.ts:32-71): every session is walked day by
    day from its start, each step yielding one piece that is added to the
    hostname's total for the cursor's date. */
module Usage {
  import opened Extension
  import opened Clock

  /** One day's share of a session: the date key and the interval
      [from, to] (milliseconds) it contributes. */
  datatype Piece = Piece(day: int, from: int, to: int)

  function Ms(p: Piece): int {
    p.to - p.from
  }

  function SumMs(ps: seq<Piece>): int
    decreases |ps|
  {
    if ps == [] then 0 else Ms(ps[0]) + SumMs(ps[1..])
  }

  /** An open session is measured up to `now` (`session.end ?? new Date()`). */
  function EffectiveEnd(s: Session, now: int): (e: int)
    ensures s.end.Some? ==> e == s.end.value
    ensures s.end.None? ==> e == now
  {
    s.end.GetOr(now)
  }

  /** The pieces the source's `while (currentDate <= endDate)` loop yields
      from cursor position `cursor` on, with the cursor step corrected: the
      cursor moves to the next date's midnight (see `PiecesFromAsWritten`).
      A piece starts at the cursor (at the session's start on the first
      date) and ends at the end of the cursor's day unless the cursor is on
      the end's date. */
  function PiecesFrom(start: int, end: int, cursor: int): (ps: seq<Piece>)
    ensures ps == [] <==> cursor > end
    ensures ps != [] ==> ps[0].day == DayKey(cursor) && ps[0].from == (if cursor > start then cursor else start)
    decreases if cursor <= end then end - cursor + 1 else 0
  {
    if cursor > end then []
    else
      var from := if cursor > start then cursor else start;
      var to := if DayKey(cursor) != DayKey(end) then EndOfDay(cursor) else end;
      DayBounds(cursor);
      [Piece(DayKey(cursor), from, to)] + PiecesFrom(start, end, EndOfDay(cursor) + 1)
  }

  /** The same walk with the cursor step as written (`setDate(getDate() + 1)`
      on the cursor, which keeps the start's time of day). */
  function PiecesFromAsWritten(start: int, end: int, cursor: int): (ps: seq<Piece>)
    ensures ps == [] <==> cursor > end
    ensures ps != [] ==> ps[0].day == DayKey(cursor) && ps[0].from == (if cursor > start then cursor else start)
    decreases if cursor <= end then end - cursor + 1 else 0
  {
    if cursor > end then []
    else
      var from := if cursor > start then cursor else start;
      var to := if DayKey(cursor) != DayKey(end) then EndOfDay(cursor) else end;
      [Piece(DayKey(cursor), from, to)] + PiecesFromAsWritten(start, end, cursor + DayMs)
  }

  /** A session from 23:00 on one date to 01:00 on the next: as written the
      cursor jumps to 23:00 on the second date, past the end, so the second
      date gets nothing and an hour of use is lost; corrected, the second
      date gets its hour. */
  lemma AsWrittenLosesNextDay()
    ensures PiecesFromAsWritten(82800000, 90000000, 82800000) == [Piece(0, 82800000, 86399999)]
    ensures PiecesFrom(82800000, 90000000, 82800000)
         == [Piece(0, 82800000, 86399999), Piece(1, 86400000, 90000000)]
  {
    assert DayKey(82800000) == 0 && DayKey(90000000) == 1;
    assert EndOfDay(82800000) == 86399999;
    assert DayKey(86400000) == 1 && EndOfDay(86400000) == 172799999;
    assert PiecesFromAsWritten(82800000, 90000000, 169200000) == [];
    assert PiecesFrom(82800000, 90000000, 172800000) == [];
    assert PiecesFrom(82800000, 90000000, 86400000) == [Piece(1, 86400000, 90000000)];
  }

  /** The pieces getUsageByDay and transformData take from a session: the
      walk as written, from the session's start. */
  function SessionPieces(s: Session, now: int): seq<Piece> {
    PiecesFromAsWritten(s.start, EffectiveEnd(s, now), s.start)
  }

  /** The pieces the corrected walk takes from a session. */
  function CorrectedSessionPieces(s: Session, now: int): seq<Piece> {
    PiecesFrom(s.start, EffectiveEnd(s, now), s.start)
  }

  /** `ps` lies in [cursor, end], each piece within its own date and none
      before the cursor's date, in increasing order of both time and date
      (so no two pieces overlap and no date occurs twice). */
  predicate Ordered(ps: seq<Piece>, cursor: int, end: int) {
    && (forall i :: 0 <= i < |ps| ==>
          && cursor <= ps[i].from <= ps[i].to <= end
          && DayKey(ps[i].from) == ps[i].day && DayKey(ps[i].to) == ps[i].day
          && DayKey(cursor) <= ps[i].day)
    && (forall i, j :: 0 <= i < j < |ps| ==> ps[i].to < ps[j].from && ps[i].day < ps[j].day)
  }

  /** A piece that ends before the next cursor, on an earlier date, can lead
      the pieces from that cursor. */
  lemma ConsOrdered(p: Piece, rest: seq<Piece>, cursor: int, next: int, end: int)
    requires cursor <= p.from <= p.to <= end && p.to < next
    requires DayKey(p.from) == p.day && DayKey(p.to) == p.day && DayKey(cursor) <= p.day < DayKey(next)
    requires Ordered(rest, next, end)
    ensures Ordered([p] + rest, cursor, end)
  {
    var ps := [p] + rest;
    forall i | 0 <= i < |ps|
      ensures cursor <= ps[i].from <= ps[i].to <= end
      ensures DayKey(ps[i].from) == ps[i].day && DayKey(ps[i].to) == ps[i].day && DayKey(cursor) <= ps[i].day
    {
      if i > 0 {
        assert ps[i] == rest[i - 1];
      }
    }
    forall i, j | 0 <= i < j < |ps|
      ensures ps[i].to < ps[j].from && ps[i].day < ps[j].day
    {
      assert ps[j] == rest[j - 1];
      if i > 0 {
        assert ps[i] == rest[i - 1];
      }
    }
  }

  lemma SumMsCons(p: Piece, rest: seq<Piece>)
    ensures SumMs([p] + rest) == Ms(p) + SumMs(rest)
  {
    assert ([p] + rest)[1..] == rest;
  }

  /** The pieces are intervals inside [cursor, end], each within its own
      date, in increasing order of both time and date; there are none only
      when the cursor is past the end. */
  lemma {:induction false} PiecesFromShape(start: int, end: int, cursor: int)
    requires start <= cursor
    ensures var ps := PiecesFrom(start, end, cursor);
      (ps == [] <==> cursor > end) && Ordered(ps, cursor, end)
    decreases if cursor <= end then end - cursor + 1 else 0
  {
    if cursor <= end {
      var next := EndOfDay(cursor) + 1;
      var p := Piece(DayKey(cursor), cursor, if DayKey(cursor) != DayKey(end) then EndOfDay(cursor) else end);
      DayBounds(cursor);
      LaterDay(cursor, end);
      NextMidnight(cursor);
      PiecesFromUnfold(start, end, cursor);
      PiecesFromShape(start, end, next);
      ConsOrdered(p, PiecesFrom(start, end, next), cursor, next, end);
    }
  }

  /** Together the pieces cover at most end - cursor milliseconds. */
  lemma {:induction false} PiecesFromSum(start: int, end: int, cursor: int)
    requires start <= cursor <= end
    ensures 0 <= SumMs(PiecesFrom(start, end, cursor)) <= end - cursor
    decreases end - cursor
  {
    var next := EndOfDay(cursor) + 1;
    var p := Piece(DayKey(cursor), cursor, if DayKey(cursor) != DayKey(end) then EndOfDay(cursor) else end);
    DayBounds(cursor);
    LaterDay(cursor, end);
    NextMidnight(cursor);
    PiecesFromUnfold(start, end, cursor);
    SumMsCons(p, PiecesFrom(start, end, next));
    if next <= end {
      PiecesFromSum(start, end, next);
    }
  }

  lemma PiecesFromAsWrittenUnfold(start: int, end: int, cursor: int)
    requires cursor <= end
    ensures PiecesFromAsWritten(start, end, cursor)
      == [Piece(DayKey(cursor), if cursor > start then cursor else start,
                if DayKey(cursor) != DayKey(end) then EndOfDay(cursor) else end)]
         + PiecesFromAsWritten(start, end, cursor + DayMs)
  {
  }

  /** The same turn, as the loops use it: the head piece and the rest. */
  lemma PiecesFromAsWrittenHead(start: int, end: int, cursor: int)
    requires cursor <= end
    ensures PiecesFromAsWritten(start, end, cursor) != []
    ensures PiecesFromAsWritten(start, end, cursor)[0]
      == Piece(DayKey(cursor), if cursor > start then cursor else start,
               if DayKey(cursor) != DayKey(end) then EndOfDay(cursor) else end)
    ensures PiecesFromAsWritten(start, end, cursor)[1..] == PiecesFromAsWritten(start, end, cursor + DayMs)
  {
    PiecesFromAsWrittenUnfold(start, end, cursor);
    var rest := PiecesFromAsWritten(start, end, cursor + DayMs);
    assert PiecesFromAsWritten(start, end, cursor)[1..] == rest;
  }

  /** The walk as written gives the same guarantees: its pieces lie in
      [cursor, end], each within one date, in increasing order of time and
      date, and there are none only when the cursor is past the end. */
  lemma {:induction false} PiecesFromAsWrittenShape(start: int, end: int, cursor: int)
    requires start <= cursor
    ensures var ps := PiecesFromAsWritten(start, end, cursor);
      (ps == [] <==> cursor > end) && Ordered(ps, cursor, end)
    decreases if cursor <= end then end - cursor + 1 else 0
  {
    if cursor <= end {
      var next := cursor + DayMs;
      var p := Piece(DayKey(cursor), cursor, if DayKey(cursor) != DayKey(end) then EndOfDay(cursor) else end);
      DayBounds(cursor);
      LaterDay(cursor, end);
      NextDay(cursor);
      PiecesFromAsWrittenUnfold(start, end, cursor);
      PiecesFromAsWrittenShape(start, end, next);
      ConsOrdered(p, PiecesFromAsWritten(start, end, next), cursor, next, end);
    }
  }

  /** As written, too, the pieces cover at most end - cursor milliseconds. */
  lemma {:induction false} PiecesFromAsWrittenSum(start: int, end: int, cursor: int)
    requires start <= cursor <= end
    ensures 0 <= SumMs(PiecesFromAsWritten(start, end, cursor)) <= end - cursor
    decreases end - cursor
  {
    var next := cursor + DayMs;
    var p := Piece(DayKey(cursor), cursor, if DayKey(cursor) != DayKey(end) then EndOfDay(cursor) else end);
    DayBounds(cursor);
    LaterDay(cursor, end);
    PiecesFromAsWrittenUnfold(start, end, cursor);
    SumMsCons(p, PiecesFromAsWritten(start, end, next));
    if next <= end {
      PiecesFromAsWrittenSum(start, end, next);
    }
  }

  /** The corrected walk covers every date from the cursor's to the end's,
      one piece each in order, and misses only the last millisecond of each
      day it crosses (the pieces end at 23:59:59.999). */
  lemma {:induction false} PiecesFromCover(start: int, end: int, cursor: int)
    requires start <= cursor <= end
    ensures var ps := PiecesFrom(start, end, cursor);
      && |ps| == DayKey(end) - DayKey(cursor) + 1
      && (forall i :: 0 <= i < |ps| ==> ps[i].day == DayKey(cursor) + i)
      && SumMs(ps) == end - cursor - (DayKey(end) - DayKey(cursor))
    decreases end - cursor
  {
    var ps := PiecesFrom(start, end, cursor);
    var next := EndOfDay(cursor) + 1;
    DayBounds(cursor);
    LaterDay(cursor, end);
    NextMidnight(cursor);
    assert ps[1..] == PiecesFrom(start, end, next);
    if DayKey(cursor) != DayKey(end) {
      PiecesFromCover(start, end, next);
    } else {
      assert PiecesFrom(start, end, next) == [];
    }
  }

  /** A session's pieces under the corrected walk: one per date from its
      start's date to its end's, summing to its length less one millisecond
      per midnight crossed. */
  lemma SessionCover(s: Session, now: int)
    requires s.start <= EffectiveEnd(s, now)
    ensures var ps := CorrectedSessionPieces(s, now); var e := EffectiveEnd(s, now);
      && |ps| == DayKey(e) - DayKey(s.start) + 1
      && (forall i :: 0 <= i < |ps| ==> ps[i].day == DayKey(s.start) + i)
      && SumMs(ps) == e - s.start - (DayKey(e) - DayKey(s.start))
  {
    PiecesFromCover(s.start, EffectiveEnd(s, now), s.start);
  }

  /** A session's pieces, as the source walks it, lie in [start, end], each
      within one date, in increasing order of time and date. */
  lemma SessionPiecesShape(s: Session, now: int)
    ensures var ps := SessionPieces(s, now); var e := EffectiveEnd(s, now);
      && (ps == [] <==> e < s.start)
      && (forall i :: 0 <= i < |ps| ==>
            && s.start <= ps[i].from <= ps[i].to <= e
            && DayKey(ps[i].from) == ps[i].day && DayKey(ps[i].to) == ps[i].day)
      && (forall i, j :: 0 <= i < j < |ps| ==> ps[i].to < ps[j].from && ps[i].day < ps[j].day)
      && (s.start <= e ==> 0 <= SumMs(ps) <= e - s.start)
  {
    PiecesFromAsWrittenShape(s.start, EffectiveEnd(s, now), s.start);
    if s.start <= EffectiveEnd(s, now) {
      PiecesFromAsWrittenSum(s.start, EffectiveEnd(s, now), s.start);
    }
  }

  /** A session that starts and ends on one date is a single piece. */
  lemma SameDayPieces(s: Session, now: int)
    requires s.start <= EffectiveEnd(s, now)
    requires DayKey(s.start) == DayKey(EffectiveEnd(s, now))
    ensures SessionPieces(s, now) == [Piece(DayKey(s.start), s.start, EffectiveEnd(s, now))]
  {
    var e := EffectiveEnd(s, now);
    DayBounds(s.start);
    SameDay(s.start, e);
    PiecesFromAsWrittenUnfold(s.start, e, s.start);
    assert PiecesFromAsWritten(s.start, e, s.start + DayMs) == [];
  }

  /** An open session is measured up to `now`. */
  lemma OpenSessionPieces(s: Session, now: int)
    requires s.end.None?
    ensures SessionPieces(s, now) == PiecesFromAsWritten(s.start, now, s.start)
  {
  }

  // ---- accumulation ------------------------------------------------------

  /** `result[hostname][dateKey] += duration`, the entry starting at 0. */
  function AddMs(acc: map<int, int>, day: int, ms: int): (r: map<int, int>)
    ensures r.Keys == acc.Keys + {day}
  {
    acc[day := (if day in acc then acc[day] else 0) + ms]
  }

  function AddPieces(acc: map<int, int>, ps: seq<Piece>): map<int, int>
    decreases |ps|
  {
    if ps == [] then acc else AddPieces(AddMs(acc, ps[0].day, Ms(ps[0])), ps[1..])
  }

  function AddSessions(acc: map<int, int>, sessions: seq<Session>, now: int): map<int, int>
    decreases |sessions|
  {
    if sessions == [] then acc
    else AddSessions(AddPieces(acc, SessionPieces(sessions[0], now)), sessions[1..], now)
  }

  /** One hostname's usage per date, in milliseconds. */
  function HostUsage(sessions: seq<Session>, now: int): map<int, int> {
    AddSessions(map[], sessions, now)
  }

  /** What getUsageByDay returns: per hostname that has at least one piece,
      its usage per date. `now` is the moment open sessions are measured to. */
  function UsageByDay(data: map<string, Record>, now: int): (u: map<string, map<int, int>>)
    ensures u.Keys <= data.Keys
  {
    map h | h in data && HostUsage(data[h].sessions, now) != map[] :: HostUsage(data[h].sessions, now)
  }

  /** The usage of hostnames in `done` only. */
  function UsageOver(data: map<string, Record>, done: set<string>, now: int): map<string, map<int, int>> {
    map h | h in done && h in data && HostUsage(data[h].sessions, now) != map[] :: HostUsage(data[h].sessions, now)
  }

  /** `result` with `h`'s entry, which exists only once `h` has a piece. */
  function WithHost(result: map<string, map<int, int>>, h: string, acc: map<int, int>): map<string, map<int, int>> {
    if acc == map[] then result else result[h := acc]
  }

  lemma UsageOverGrows(data: map<string, Record>, done: set<string>, h: string, now: int)
    requires h in data && h !in done
    ensures h !in UsageOver(data, done, now)
    ensures UsageOver(data, done + {h}, now) == WithHost(UsageOver(data, done, now), h, HostUsage(data[h].sessions, now))
  {
  }

  /** The three in-place updates of one loop step (create the hostname's
      entry, create the date's entry, add the duration) amount to adding the
      duration to the hostname's running usage. */
  lemma AccumulateStep(before: map<string, map<int, int>>, h: string, acc: map<int, int>, day: int, ms: int,
                       r1: map<string, map<int, int>>, r2: map<string, map<int, int>>)
    requires h !in before
    requires var r0 := WithHost(before, h, acc); r1 == if h !in r0 then r0[h := map[]] else r0
    requires h in r1 && r2 == if day !in r1[h] then r1[h := r1[h][day := 0]] else r1
    ensures h in r2 && day in r2[h]
    ensures r2[h := r2[h][day := r2[h][day] + ms]] == WithHost(before, h, AddMs(acc, day, ms))
  {
    var added := AddMs(acc, day, ms);
    assert day in added;
    if acc == map[] {
      assert map[day := 0][day := 0 + ms] == added;
    } else {
      if day !in acc {
        assert acc[day := 0][day := 0 + ms] == added;
      }
    }
  }

  /** The three in-place updates of one turn of the day loop
      (utils/index.ts:46-63), on the whole result map. */
  method AccumulateDay(result0: map<string, map<int, int>>, hostname: string, dateKey: int, duration: int,
                       ghost before: map<string, map<int, int>>, ghost acc: map<int, int>)
    returns (result: map<string, map<int, int>>)
    requires hostname !in before
    requires result0 == WithHost(before, hostname, acc)
    ensures result == WithHost(before, hostname, AddMs(acc, dateKey, duration))
  {
    result := result0;
    if hostname !in result {
      result := result[hostname := map[]];
    }
    ghost var r1 := result;
    if dateKey !in result[hostname] {
      result := result[hostname := result[hostname][dateKey := 0]];
    }
    ghost var r2 := result;
    AccumulateStep(before, hostname, acc, dateKey, duration, r1, r2);
    result := result[hostname := result[hostname][dateKey := result[hostname][dateKey] + duration]];
  }

  /** One turn of the day loop as written adds the head piece and moves the
      cursor a whole day on. */
  lemma AddWalkStep(acc: map<int, int>, start: int, end: int, cursor: int, day: int, ms: int)
    requires cursor <= end && day == DayKey(cursor)
    requires ms == (if DayKey(cursor) != DayKey(end) then EndOfDay(cursor) else end)
                   - (if cursor > start then cursor else start)
    ensures AddPieces(acc, PiecesFromAsWritten(start, end, cursor))
      == AddPieces(AddMs(acc, day, ms), PiecesFromAsWritten(start, end, cursor + DayMs))
  {
    PiecesFromAsWrittenHead(start, end, cursor);
  }

  /** One turn of the day loop is the head of PiecesFrom. */
  lemma PiecesFromUnfold(start: int, end: int, cursor: int)
    requires cursor <= end
    ensures PiecesFrom(start, end, cursor)
      == [Piece(DayKey(cursor), if cursor > start then cursor else start,
                if DayKey(cursor) != DayKey(end) then EndOfDay(cursor) else end)]
         + PiecesFrom(start, end, EndOfDay(cursor) + 1)
    ensures PiecesFrom(start, end, cursor) != []
    ensures PiecesFrom(start, end, cursor)[0]
      == Piece(DayKey(cursor), if cursor > start then cursor else start,
               if DayKey(cursor) != DayKey(end) then EndOfDay(cursor) else end)
    ensures PiecesFrom(start, end, cursor)[1..] == PiecesFrom(start, end, EndOfDay(cursor) + 1)
  {
    var rest := PiecesFrom(start, end, EndOfDay(cursor) + 1);
    assert PiecesFrom(start, end, cursor)[1..] == rest;
  }

  /** The body of getUsageByDay's innermost loop (utils/index.ts:39-66):
      walk one session of `hostname` day by day, adding each piece to the
      hostname's usage in `result` in place. The hostname's entry is created
      on its first piece only. */
  method AddSessionUsage(result0: map<string, map<int, int>>, hostname: string, session: Session, now: int)
    returns (result: map<string, map<int, int>>)
    requires hostname in result0 ==> result0[hostname] != map[]
    ensures result == WithHost(result0 - {hostname}, hostname,
                               AddPieces(if hostname in result0 then result0[hostname] else map[], SessionPieces(session, now)))
  {
    ghost var before := result0 - {hostname};
    ghost var acc: map<int, int> := if hostname in result0 then result0[hostname] else map[];
    assert result0 == WithHost(before, hostname, acc);
    result := result0;
    var startDate := session.start;
    var endDate := EffectiveEnd(session, now);
    var currentDate := startDate;
    ghost var target := AddPieces(acc, SessionPieces(session, now));
    assert SessionPieces(session, now) == PiecesFromAsWritten(startDate, endDate, startDate);
    while currentDate <= endDate
      invariant result == WithHost(before, hostname, acc)
      invariant AddPieces(acc, PiecesFromAsWritten(startDate, endDate, currentDate)) == target
      decreases endDate - currentDate
    {
      var dateKey := DayKey(currentDate);
      var endOfDay := EndOfDay(currentDate);
      var sessionStart := if currentDate > startDate then currentDate else startDate;
      var sessionEnd := if DayKey(currentDate) != DayKey(endDate) then endOfDay else endDate;
      var duration := sessionEnd - sessionStart;
      result := AccumulateDay(result, hostname, dateKey, duration, before, acc);
      AddWalkStep(acc, startDate, endDate, currentDate, dateKey, duration);
      acc := AddMs(acc, dateKey, duration);
      assert AddPieces(acc, PiecesFromAsWritten(startDate, endDate, currentDate + DayMs)) == target;
      // `currentDate.setDate(endOfDay.getDate() + 1)`: the same time of day on the next date
      currentDate := currentDate + DayMs;
    }
    assert PiecesFromAsWritten(startDate, endDate, currentDate) == [];
  }

  /** `WithHost` can be taken apart again. */
  lemma WithHostParts(before: map<string, map<int, int>>, h: string, acc: map<int, int>)
    requires h !in before
    ensures var w := WithHost(before, h, acc);
      && w - {h} == before
      && (h in w ==> w[h] != map[])
      && (if h in w then w[h] else map[]) == acc
  {
  }

  /** A session that starts and ends on one date adds exactly end - start
      to that date's usage. */
  lemma SameDaySessionUsage(acc: map<int, int>, s: Session, now: int)
    requires s.start <= EffectiveEnd(s, now)
    requires DayKey(s.start) == DayKey(EffectiveEnd(s, now))
    ensures AddSessions(acc, [s], now) == AddMs(acc, DayKey(s.start), EffectiveEnd(s, now) - s.start)
  {
    SameDayPieces(s, now);
    var p := Piece(DayKey(s.start), s.start, EffectiveEnd(s, now));
    assert [p][1..] == [];
    assert [s][1..] == [];
    var once := AddMs(acc, p.day, Ms(p));
    assert AddPieces(acc, [p]) == AddPieces(once, []) == once;
    assert AddSessions(acc, [s], now) == AddSessions(AddPieces(acc, [p]), [], now);
  }

  /** A session still open, started earlier on today's date, counts from its
      start up to `now`. */
  lemma OpenSessionUsage(acc: map<int, int>, s: Session, now: int)
    requires s.end.None? && s.start <= now && DayKey(s.start) == DayKey(now)
    ensures AddSessions(acc, [s], now) == AddMs(acc, DayKey(now), now - s.start)
  {
    SameDaySessionUsage(acc, s, now);
  }

  /** A session that ends before it starts yields no piece, so it adds
      nothing and creates no date entry. */
  lemma BackwardsSessionUsage(acc: map<int, int>, s: Session, now: int)
    requires EffectiveEnd(s, now) < s.start
    ensures AddSessions(acc, [s], now) == acc
  {
    assert SessionPieces(s, now) == [];
    assert [s][1..] == [];
  }

  /** getUsageByDay (utils/index.ts:32-71): for every hostname and every one
      of its sessions, accumulate the session's pieces into `result`. */
  method GetUsageByDay(data: map<string, Record>, now: int) returns (result: map<string, map<int, int>>)
    ensures result == UsageByDay(data, now)
  {
    result := map[];
    var pending := data.Keys;
    ghost var done: set<string> := {};
    while pending != {}
      invariant pending !! done && pending + done == data.Keys
      invariant result == UsageOver(data, done, now)
      decreases pending
    {
      var hostname :| hostname in pending;
      var sessions := data[hostname].sessions;
      ghost var before := result;
      ghost var acc: map<int, int> := map[];
      UsageOverGrows(data, done, hostname, now);
      for k := 0 to |sessions|
        invariant result == WithHost(before, hostname, acc)
        invariant AddSessions(acc, sessions[k..], now) == HostUsage(sessions, now)
      {
        assert sessions[k..] == [sessions[k]] + sessions[k + 1..];
        WithHostParts(before, hostname, acc);
        result := AddSessionUsage(result, hostname, sessions[k], now);
        acc := AddPieces(acc, SessionPieces(sessions[k], now));
      }
      assert sessions[|sessions|..] == [];
      pending := pending - {hostname};
      done := done + {hostname};
    }
  }

  // ---- the corrected walk's usage -------------------------------------------

  function AddCorrectedSessions(acc: map<int, int>, sessions: seq<Session>, now: int): map<int, int>
    decreases |sessions|
  {
    if sessions == [] then acc
    else AddCorrectedSessions(AddPieces(acc, CorrectedSessionPieces(sessions[0], now)), sessions[1..], now)
  }

  /** What getUsageByDay evidently means to compute: the same sums over the
      corrected walk, which gives every date a session touches its share. */
  function CorrectedUsageByDay(data: map<string, Record>, now: int): (u: map<string, map<int, int>>)
    ensures u.Keys <= data.Keys
  {
    map h | h in data && AddCorrectedSessions(map[], data[h].sessions, now) != map[]
      :: AddCorrectedSessions(map[], data[h].sessions, now)
  }

  /** A session open since 23:00, measured at 01:00 the next day: as written
      the second date gets no usage at all; corrected, it gets its hour. */
  lemma AsWrittenUsageLosesNextDay(h: string)
    ensures var data := map[h := Record([Session(82800000, None, "", "")], 0, true, "")];
      && UsageByDay(data, 90000000) == map[h := map[0 := 3599999]]
      && CorrectedUsageByDay(data, 90000000) == map[h := map[0 := 3599999, 1 := 3600000]]
  {
    var s := Session(82800000, None, "", "");
    AsWrittenLosesNextDay();
    assert SessionPieces(s, 90000000) == [Piece(0, 82800000, 86399999)];
    assert CorrectedSessionPieces(s, 90000000) == [Piece(0, 82800000, 86399999), Piece(1, 86400000, 90000000)];
    var p0 := Piece(0, 82800000, 86399999);
    var p1 := Piece(1, 86400000, 90000000);
    assert [p0][1..] == [] && [p0, p1][1..] == [p1] && [p1][1..] == [] && [s][1..] == [];
    assert AddPieces(map[], [p0]) == map[0 := 3599999];
    assert AddPieces(map[], [p0, p1]) == AddPieces(map[0 := 3599999], [p1]) == map[0 := 3599999, 1 := 3600000];
    assert AddSessions(map[], [s], 90000000) == AddSessions(AddPieces(map[], [p0]), [], 90000000);
    assert HostUsage([s], 90000000) == map[0 := 3599999];
    assert AddCorrectedSessions(map[], [s], 90000000) == AddCorrectedSessions(AddPieces(map[], [p0, p1]), [], 90000000);
    assert AddCorrectedSessions(map[], [s], 90000000) == map[0 := 3599999, 1 := 3600000];
  }
}
