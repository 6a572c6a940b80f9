/** transformData (utils/index.ts:73-143): the history page's view of the
    recorded sessions, grouped by date, then by hostname, with each session
    split at midnight into the pieces that fall on that date. Durations are
    kept in whole milliseconds, where the source divides them by 1000. */
module Transform {
  import opened Extension
  import opened Clock
  import opened Usage

  /** One piece of a session as listed under a date (`splitSession`). */
  datatype Split = Split(start: int, end: int, name: string, ms: int)

  /** One hostname's entry under a date. */
  datatype HostDay = HostDay(totalMs: int, sessions: seq<Split>)

  /** One date's entry. */
  datatype DayUsage = DayUsage(longestMs: int, totalMs: int, hostnames: map<string, HostDay>)

  function ToSplit(p: Piece, name: string): Split {
    Split(p.from, p.to, name, Ms(p))
  }

  // ---- one hostname's dates ----------------------------------------------

  /** Push a split onto `day`'s entry and add its length, creating the entry
      on first use. */
  function AddSplit(acc: map<int, HostDay>, day: int, sp: Split): (r: map<int, HostDay>)
    ensures r.Keys == acc.Keys + {day}
  {
    var hd := if day in acc then acc[day] else HostDay(0, []);
    acc[day := HostDay(hd.totalMs + sp.ms, hd.sessions + [sp])]
  }

  function SplitPieces(acc: map<int, HostDay>, name: string, ps: seq<Piece>): map<int, HostDay>
    decreases |ps|
  {
    if ps == [] then acc else SplitPieces(AddSplit(acc, ps[0].day, ToSplit(ps[0], name)), name, ps[1..])
  }

  function SplitSessions(acc: map<int, HostDay>, sessions: seq<Session>, now: int): map<int, HostDay>
    decreases |sessions|
  {
    if sessions == [] then acc
    else SplitSessions(SplitPieces(acc, sessions[0].name, SessionPieces(sessions[0], now)), sessions[1..], now)
  }

  /** One hostname's entries, per date on which it has a piece. */
  function HostDays(sessions: seq<Session>, now: int): map<int, HostDay> {
    SplitSessions(map[], sessions, now)
  }

  /** The hostnames among `done` with a piece on date `day`, with their entries. */
  function HostsOver(data: map<string, Record>, done: set<string>, now: int, day: int): map<string, HostDay> {
    map h | h in done && h in data && day in HostDays(data[h].sessions, now) :: HostDays(data[h].sessions, now)[day]
  }

  /** Every hostname with a piece on date `day`. */
  function HostsOn(data: map<string, Record>, now: int, day: int): map<string, HostDay> {
    HostsOver(data, data.Keys, now, day)
  }

  // ---- sums and maxima over a date's hostnames -----------------------------

  ghost function SumTotals(hosts: map<string, HostDay>): int
    decreases |hosts|
  {
    if hosts == map[] then 0
    else
      var h :| h in hosts;
      assert |hosts.Keys - {h}| == |hosts.Keys| - 1;
      hosts[h].totalMs + SumTotals(hosts - {h})
  }

  /** The sum does not depend on which hostname is taken out first. */
  lemma {:induction false} SumTotalsRemove(hosts: map<string, HostDay>, h: string)
    requires h in hosts
    ensures SumTotals(hosts) == hosts[h].totalMs + SumTotals(hosts - {h})
    decreases |hosts|
  {
    var k :| k in hosts && SumTotals(hosts) == hosts[k].totalMs + SumTotals(hosts - {k});
    if k != h {
      assert |hosts.Keys - {k}| == |hosts.Keys| - 1;
      assert |hosts.Keys - {h}| == |hosts.Keys| - 1;
      SumTotalsRemove(hosts - {k}, h);
      SumTotalsRemove(hosts - {h}, k);
      assert hosts - {k} - {h} == hosts - {h} - {k};
    }
  }

  lemma SumTotalsInsert(hosts: map<string, HostDay>, h: string, v: HostDay)
    requires h !in hosts
    ensures SumTotals(hosts[h := v]) == SumTotals(hosts) + v.totalMs
  {
    SumTotalsRemove(hosts[h := v], h);
    assert hosts[h := v] - {h} == hosts;
  }

  /** `l` is what the source's `seconds >= longest` scan leaves when it
      starts from `l0`: the largest of `l0` and the hostnames' totals. */
  ghost predicate IsMaxOf(l: int, l0: int, hosts: map<string, HostDay>) {
    && l0 <= l
    && (forall h :: h in hosts ==> hosts[h].totalMs <= l)
    && (l == l0 || exists h :: h in hosts && hosts[h].totalMs == l)
  }

  /** The scan's outcome does not depend on the order it visits the hostnames in. */
  lemma LongestUnique(l1: int, l2: int, l0: int, hosts: map<string, HostDay>)
    requires IsMaxOf(l1, l0, hosts) && IsMaxOf(l2, l0, hosts)
    ensures l1 == l2
  {
  }

  /** The second loop of transformData (utils/index.ts:131-140) for one date. */
  method Longest(hosts: map<string, HostDay>, l0: int) returns (longest: int)
    ensures IsMaxOf(longest, l0, hosts)
  {
    longest := l0;
    var pending := hosts.Keys;
    while pending != {}
      invariant pending <= hosts.Keys && l0 <= longest
      invariant forall h :: h in hosts && h !in pending ==> hosts[h].totalMs <= longest
      invariant longest == l0 || exists h :: h in hosts && h !in pending && hosts[h].totalMs == longest
      decreases pending
    {
      var hostname :| hostname in pending;
      var seconds := hosts[hostname].totalMs;
      if seconds >= longest {
        longest := seconds;
      }
      pending := pending - {hostname};
    }
  }

  // ---- the in-place build of the first loop --------------------------------

  const EmptyDay := DayUsage(0, 0, map[])

  /** A date's entry with hostname `h`'s entry added to it. */
  function Absorb(du: DayUsage, h: string, hd: HostDay): DayUsage {
    DayUsage(du.longestMs, du.totalMs + hd.totalMs, du.hostnames[h := hd])
  }

  /** `r` with the dates of `h`'s running entries `acc` absorbed. */
  function Merge(r: map<int, DayUsage>, h: string, acc: map<int, HostDay>): map<int, DayUsage> {
    map d | d in r.Keys + acc.Keys :: if d in acc then Absorb(if d in r then r[d] else EmptyDay, h, acc[d]) else r[d]
  }

  predicate Without(r: map<int, DayUsage>, h: string) {
    forall d :: d in r ==> h !in r[d].hostnames
  }

  /** The in-place steps of one turn of the day loop (create the date's
      entry, create the hostname's entry, push the split and add its length
      to both totals) amount to adding the split to the hostname's entries. */
  lemma MergeStep(r0: map<int, DayUsage>, h: string, acc: map<int, HostDay>, d: int, sp: Split,
                  r1: map<int, DayUsage>, r2: map<int, DayUsage>)
    requires Without(r0, h)
    requires var m := Merge(r0, h, acc); r1 == if d !in m then m[d := DayUsage(0, 0, map[])] else m
    requires d in r1
    requires r2 == if h !in r1[d].hostnames then r1[d := r1[d].(hostnames := r1[d].hostnames[h := HostDay(0, [])])] else r1
    ensures d in r2 && h in r2[d].hostnames
    ensures var e := r2[d].hostnames[h];
      r2[d := r2[d].(hostnames := r2[d].hostnames[h := HostDay(e.totalMs + sp.ms, e.sessions + [sp])],
                     totalMs := r2[d].totalMs + sp.ms)]
      == Merge(r0, h, AddSplit(acc, d, sp))
  {
    var m := Merge(r0, h, acc);
    var base := if d in r0 then r0[d] else EmptyDay;
    var prior := if d in acc then Some(acc[d]) else None;
    var hd := prior.GetOr(HostDay(0, []));
    var filed := HostDay(hd.totalMs + sp.ms, hd.sessions + [sp]);
    assert r1[d] == if d in acc then Absorb(base, h, acc[d]) else base;
    assert r2 == m[d := r2[d]];
    FileIntoDay(base, h, prior, sp, r1[d], r2[d]);
    var e := r2[d].hostnames[h];
    var x := r2[d].(hostnames := r2[d].hostnames[h := HostDay(e.totalMs + sp.ms, e.sessions + [sp])],
                    totalMs := r2[d].totalMs + sp.ms);
    assert x == Absorb(base, h, filed);
    UpdateOver(m, r2, d, x);
    MergeUpdate(r0, h, acc, d, filed);
    assert AddSplit(acc, d, sp) == acc[d := filed];
    assert r2[d := x] == Merge(r0, h, acc[d := filed]);
  }

  /** Overwriting the one entry in which two maps differ. */
  lemma UpdateOver(m: map<int, DayUsage>, r: map<int, DayUsage>, d: int, x: DayUsage)
    requires d in r && r == m[d := r[d]]
    ensures r[d := x] == m[d := x]
  {
  }

  /** The same steps on the date's entry alone. */
  lemma FileIntoDay(base: DayUsage, h: string, prior: Option<HostDay>, sp: Split, cur: DayUsage, made: DayUsage)
    requires h !in base.hostnames
    requires cur == if prior.Some? then Absorb(base, h, prior.value) else base
    requires made == if h !in cur.hostnames then cur.(hostnames := cur.hostnames[h := HostDay(0, [])]) else cur
    ensures h in made.hostnames
    ensures var e := made.hostnames[h];
      var hd := prior.GetOr(HostDay(0, []));
      made.(hostnames := made.hostnames[h := HostDay(e.totalMs + sp.ms, e.sessions + [sp])],
            totalMs := made.totalMs + sp.ms)
      == Absorb(base, h, HostDay(hd.totalMs + sp.ms, hd.sessions + [sp]))
  {
    var hd := prior.GetOr(HostDay(0, []));
    var filed := HostDay(hd.totalMs + sp.ms, hd.sessions + [sp]);
    assert made.hostnames[h := filed] == base.hostnames[h := filed];
  }

  /** Changing one date of the running entries changes only that date. */
  lemma MergeUpdate(r0: map<int, DayUsage>, h: string, acc: map<int, HostDay>, d: int, v: HostDay)
    ensures Merge(r0, h, acc[d := v]) == Merge(r0, h, acc)[d := Absorb(if d in r0 then r0[d] else EmptyDay, h, v)]
  {
  }

  lemma MergeEmpty(r: map<int, DayUsage>, h: string)
    ensures Merge(r, h, map[]) == r
  {
  }

  /** One turn of the day loop as written files the head piece and moves the
      cursor a whole day on. */
  lemma SplitWalkStep(acc: map<int, HostDay>, name: string, start: int, end: int, cursor: int, d: int, sp: Split)
    requires cursor <= end && d == DayKey(cursor)
    requires sp.start == (if cursor > start then cursor else start)
    requires sp.end == (if DayKey(cursor) != DayKey(end) then EndOfDay(cursor) else end)
    requires sp.name == name && sp.ms == sp.end - sp.start
    ensures SplitPieces(acc, name, PiecesFromAsWritten(start, end, cursor))
      == SplitPieces(AddSplit(acc, d, sp), name, PiecesFromAsWritten(start, end, cursor + DayMs))
  {
    PiecesFromAsWrittenHead(start, end, cursor);
  }

  /** Once the cursor is past the end, nothing is left to file. */
  lemma SplitWalkDone(acc: map<int, HostDay>, name: string, start: int, end: int, cursor: int)
    requires cursor > end
    ensures SplitPieces(acc, name, PiecesFromAsWritten(start, end, cursor)) == acc
  {
  }

  /** The in-place updates of one turn of the day loop
      (utils/index.ts:96-124): create the date's entry and the hostname's
      entry if absent, push the split, and add its length to the hostname's
      total and the date's total. Together they add the split to the
      hostname's running entries. */
  method FileSplit(result0: map<int, DayUsage>, dateKey: int, hostname: string, split: Split,
                   ghost before: map<int, DayUsage>, ghost acc: map<int, HostDay>)
    returns (result: map<int, DayUsage>)
    requires Without(before, hostname)
    requires result0 == Merge(before, hostname, acc)
    ensures result == Merge(before, hostname, AddSplit(acc, dateKey, split))
  {
    result := result0;
    if dateKey !in result {
      result := result[dateKey := DayUsage(0, 0, map[])];
    }
    ghost var r1 := result;
    if hostname !in result[dateKey].hostnames {
      result := result[dateKey := result[dateKey].(hostnames := result[dateKey].hostnames[hostname := HostDay(0, [])])];
    }
    ghost var r2 := result;
    MergeStep(before, hostname, acc, dateKey, split, r1, r2);
    var day := result[dateKey];
    var entry := day.hostnames[hostname];
    entry := entry.(sessions := entry.sessions + [split]);
    entry := entry.(totalMs := entry.totalMs + split.ms);
    day := day.(hostnames := day.hostnames[hostname := entry]);
    day := day.(totalMs := day.totalMs + split.ms);
    result := result[dateKey := day];
  }

  /** One turn of the day loop (utils/index.ts:93-126): the piece of the
      session on the cursor's date becomes a split filed under that date,
      and the cursor moves on. `acc'` is the hostname's running entries
      afterwards; what is still to be filed is the walk from `next`. */
  method SplitDay(result0: map<int, DayUsage>, hostname: string, name: string, startDate: int, endDate: int,
                  currentDate: int, ghost before: map<int, DayUsage>, ghost acc: map<int, HostDay>)
    returns (result: map<int, DayUsage>, ghost acc': map<int, HostDay>, next: int)
    requires currentDate <= endDate
    requires Without(before, hostname)
    requires result0 == Merge(before, hostname, acc)
    ensures next == currentDate + DayMs
    ensures result == Merge(before, hostname, acc')
    ensures SplitPieces(acc', name, PiecesFromAsWritten(startDate, endDate, next))
      == SplitPieces(acc, name, PiecesFromAsWritten(startDate, endDate, currentDate))
  {
    var dateKey := DayKey(currentDate);
    var endOfDay := EndOfDay(currentDate);
    var sessionStart := if currentDate > startDate then currentDate else startDate;
    var sessionEnd := if DayKey(currentDate) != DayKey(endDate) then endOfDay else endDate;
    var duration := sessionEnd - sessionStart;
    var split := Split(sessionStart, sessionEnd, name, duration);
    result := FileSplit(result0, dateKey, hostname, split, before, acc);
    SplitWalkStep(acc, name, startDate, endDate, currentDate, dateKey, split);
    acc' := AddSplit(acc, dateKey, split);
    // `currentDate.setDate(endOfDay.getDate() + 1)`: the same time of day on the next date
    next := currentDate + DayMs;
  }

  /** The body of transformData's innermost loop (utils/index.ts:92-127):
      walk one session of `hostname` day by day, filing each piece under its
      date in `result` in place. */
  method SplitSession(result0: map<int, DayUsage>, hostname: string, session: Session, now: int,
                      ghost before: map<int, DayUsage>, ghost acc0: map<int, HostDay>)
    returns (result: map<int, DayUsage>)
    requires Without(before, hostname)
    requires result0 == Merge(before, hostname, acc0)
    ensures result == Merge(before, hostname, SplitPieces(acc0, session.name, SessionPieces(session, now)))
  {
    result := result0;
    ghost var acc := acc0;
    var startDate := session.start;
    var endDate := EffectiveEnd(session, now);
    var currentDate := startDate;
    ghost var target := SplitPieces(acc0, session.name, SessionPieces(session, now));
    assert SessionPieces(session, now) == PiecesFromAsWritten(startDate, endDate, startDate);
    while currentDate <= endDate
      invariant result == Merge(before, hostname, acc)
      invariant SplitPieces(acc, session.name, PiecesFromAsWritten(startDate, endDate, currentDate)) == target
      decreases endDate - currentDate
    {
      result, acc, currentDate := SplitDay(result, hostname, session.name, startDate, endDate, currentDate, before, acc);
    }
    SplitWalkDone(acc, session.name, startDate, endDate, currentDate);
  }

  // ---- the whole first loop ----------------------------------------------

  /** What the first loop has built once the hostnames in `done` are in. */
  ghost predicate Built(result: map<int, DayUsage>, data: map<string, Record>, done: set<string>, now: int) {
    && (forall d :: d in result ==>
          && result[d].hostnames == HostsOver(data, done, now, d)
          && result[d].hostnames != map[]
          && result[d].longestMs == 0
          && result[d].totalMs == SumTotals(result[d].hostnames))
    && (forall d :: d !in result ==> HostsOver(data, done, now, d) == map[])
  }

  lemma HostsOverGrows(data: map<string, Record>, done: set<string>, h: string, now: int, d: int)
    requires h in data && h !in done
    ensures h !in HostsOver(data, done, now, d)
    ensures var hd := HostDays(data[h].sessions, now);
      HostsOver(data, done + {h}, now, d)
      == if d in hd then HostsOver(data, done, now, d)[h := hd[d]] else HostsOver(data, done, now, d)
  {
  }

  /** Absorbing a whole hostname's entries extends what has been built by that hostname. */
  lemma BuiltGrows(result: map<int, DayUsage>, data: map<string, Record>, done: set<string>, h: string, now: int)
    requires Built(result, data, done, now)
    requires h in data && h !in done
    ensures Without(result, h)
    ensures Built(Merge(result, h, HostDays(data[h].sessions, now)), data, done + {h}, now)
  {
    var hd := HostDays(data[h].sessions, now);
    var m := Merge(result, h, hd);
    forall d | d in result
      ensures h !in result[d].hostnames
    {
      HostsOverGrows(data, done, h, now, d);
    }
    forall d | d in m
      ensures && m[d].hostnames == HostsOver(data, done + {h}, now, d)
              && m[d].hostnames != map[]
              && m[d].longestMs == 0
              && m[d].totalMs == SumTotals(m[d].hostnames)
    {
      HostsOverGrows(data, done, h, now, d);
      if d in hd {
        var base := if d in result then result[d] else EmptyDay;
        SumTotalsInsert(base.hostnames, h, hd[d]);
      }
    }
    forall d | d !in m
      ensures HostsOver(data, done + {h}, now, d) == map[]
    {
      HostsOverGrows(data, done, h, now, d);
    }
  }

  /** A set that is not empty has a member to pick. */
  lemma SomeMember(s: set<int>)
    requires s != {}
    ensures exists x :: x in s
  {
    if forall x :: x !in s {
      assert false;
    }
  }

  /** The second loop of transformData (utils/index.ts:131-141): set each
      date's longest to the largest of its hostnames' totals, changing
      nothing else. */
  method FillLongest(built: map<int, DayUsage>) returns (result: map<int, DayUsage>)
    ensures result.Keys == built.Keys
    ensures forall d :: d in result ==> result[d] == built[d].(longestMs := result[d].longestMs)
    ensures forall d :: d in result ==> IsMaxOf(result[d].longestMs, built[d].longestMs, built[d].hostnames)
  {
    result := built;
    var dates := built.Keys;
    while dates != {}
      invariant dates <= result.Keys && result.Keys == built.Keys
      invariant forall d :: d in result ==> result[d] == built[d].(longestMs := result[d].longestMs)
      invariant forall d :: d in dates ==> result[d] == built[d]
      invariant forall d :: d in result && d !in dates ==> IsMaxOf(result[d].longestMs, built[d].longestMs, built[d].hostnames)
      decreases dates
    {
      SomeMember(dates);
      var dateKey :| dateKey in dates;
      var longest := Longest(result[dateKey].hostnames, result[dateKey].longestMs);
      result := result[dateKey := result[dateKey].(longestMs := longest)];
      dates := dates - {dateKey};
    }
  }

  /** transformData (utils/index.ts:73-143): every date on which some
      hostname has a piece gets an entry listing exactly those hostnames
      with their pieces; its total is the sum of theirs and its longest is
      the largest of theirs. */
  method TransformData(data: map<string, Record>, now: int) returns (result: map<int, DayUsage>)
    ensures forall d :: d in result <==> HostsOn(data, now, d) != map[]
    ensures forall d :: d in result ==>
      && result[d].hostnames == HostsOn(data, now, d)
      && result[d].totalMs == SumTotals(HostsOn(data, now, d))
      && IsMaxOf(result[d].longestMs, 0, HostsOn(data, now, d))
  {
    result := map[];
    var pending := data.Keys;
    ghost var done: set<string> := {};
    while pending != {}
      invariant pending !! done && pending + done == data.Keys
      invariant Built(result, data, done, now)
      decreases pending
    {
      var hostname :| hostname in pending;
      var sessions := data[hostname].sessions;
      BuiltGrows(result, data, done, hostname, now);
      ghost var before := result;
      ghost var acc: map<int, HostDay> := map[];
      MergeEmpty(result, hostname);
      for k := 0 to |sessions|
        invariant result == Merge(before, hostname, acc)
        invariant SplitSessions(acc, sessions[k..], now) == HostDays(sessions, now)
      {
        assert sessions[k..] == [sessions[k]] + sessions[k + 1..];
        result := SplitSession(result, hostname, sessions[k], now, before, acc);
        acc := SplitPieces(acc, sessions[k].name, SessionPieces(sessions[k], now));
      }
      assert sessions[|sessions|..] == [];
      pending := pending - {hostname};
      done := done + {hostname};
    }
    assert done == data.Keys;
    result := FillLongest(result);
  }

  // ---- what the entries hold ---------------------------------------------

  function SumSplitMs(splits: seq<Split>): int
    decreases |splits|
  {
    if splits == [] then 0 else SumSplitMs(splits[..|splits| - 1]) + splits[|splits| - 1].ms
  }

  /** A split lies within date `day` and its length is its end minus its start. */
  predicate SplitOn(day: int, sp: Split) {
    sp.start <= sp.end && DayKey(sp.start) == day && DayKey(sp.end) == day && sp.ms == sp.end - sp.start
  }

  /** A hostname's entry under `day`: every split lies within that date and
      the total is the sum of the splits' lengths. */
  predicate HostDayOn(day: int, hd: HostDay) {
    && (forall i :: 0 <= i < |hd.sessions| ==> SplitOn(day, hd.sessions[i]))
    && hd.totalMs == SumSplitMs(hd.sessions)
  }

  predicate AllOn(acc: map<int, HostDay>) {
    forall d :: d in acc ==> HostDayOn(d, acc[d])
  }

  lemma SumSplitMsNonNegative(splits: seq<Split>, day: int)
    requires forall i :: 0 <= i < |splits| ==> SplitOn(day, splits[i])
    ensures SumSplitMs(splits) >= 0
    decreases |splits|
  {
    if splits != [] {
      SumSplitMsNonNegative(splits[..|splits| - 1], day);
    }
  }

  lemma AddSplitOn(acc: map<int, HostDay>, day: int, sp: Split)
    requires AllOn(acc) && SplitOn(day, sp)
    ensures AllOn(AddSplit(acc, day, sp))
  {
    var hd := if day in acc then acc[day] else HostDay(0, []);
    var ss := hd.sessions + [sp];
    assert HostDayOn(day, hd);
    assert ss[..|ss| - 1] == hd.sessions;
    assert SumSplitMs(ss) == SumSplitMs(hd.sessions) + sp.ms;
    assert forall i :: 0 <= i < |ss| ==> ss[i] == if i < |hd.sessions| then hd.sessions[i] else sp;
  }

  lemma {:induction false} SplitPiecesOn(acc: map<int, HostDay>, name: string, ps: seq<Piece>)
    requires AllOn(acc)
    requires forall i :: 0 <= i < |ps| ==>
      ps[i].from <= ps[i].to && DayKey(ps[i].from) == ps[i].day && DayKey(ps[i].to) == ps[i].day
    ensures AllOn(SplitPieces(acc, name, ps))
    decreases |ps|
  {
    if ps != [] {
      AddSplitOn(acc, ps[0].day, ToSplit(ps[0], name));
      SplitPiecesOn(AddSplit(acc, ps[0].day, ToSplit(ps[0], name)), name, ps[1..]);
    }
  }

  lemma {:induction false} SplitSessionsOn(acc: map<int, HostDay>, sessions: seq<Session>, now: int)
    requires AllOn(acc)
    ensures AllOn(SplitSessions(acc, sessions, now))
    decreases |sessions|
  {
    if sessions != [] {
      SessionPiecesShape(sessions[0], now);
      SplitPiecesOn(acc, sessions[0].name, SessionPieces(sessions[0], now));
      SplitSessionsOn(SplitPieces(acc, sessions[0].name, SessionPieces(sessions[0], now)), sessions[1..], now);
    }
  }

  /** Every entry transformData files under a date holds only pieces of that
      date, its total is the sum of their lengths, and so it is never negative. */
  lemma EntriesOnTheirDate(data: map<string, Record>, now: int, d: int, h: string)
    requires h in HostsOn(data, now, d)
    ensures HostDayOn(d, HostsOn(data, now, d)[h])
    ensures HostsOn(data, now, d)[h].totalMs >= 0
  {
    SplitSessionsOn(map[], data[h].sessions, now);
    SumSplitMsNonNegative(HostsOn(data, now, d)[h].sessions, d);
  }

  lemma SumTotalsAtLeast(hosts: map<string, HostDay>, h: string)
    requires forall k :: k in hosts ==> hosts[k].totalMs >= 0
    requires h in hosts
    ensures hosts[h].totalMs <= SumTotals(hosts)
  {
    SumTotalsRemove(hosts, h);
    SumTotalsNonNegative(hosts - {h});
  }

  lemma {:induction false} SumTotalsNonNegative(hosts: map<string, HostDay>)
    requires forall k :: k in hosts ==> hosts[k].totalMs >= 0
    ensures SumTotals(hosts) >= 0
    decreases |hosts|
  {
    if hosts != map[] {
      var h :| h in hosts && SumTotals(hosts) == hosts[h].totalMs + SumTotals(hosts - {h});
      assert |hosts.Keys - {h}| == |hosts.Keys| - 1;
      SumTotalsNonNegative(hosts - {h});
    }
  }

  /** On every date, the longest hostname's total lies between 0 and the
      date's total. */
  lemma LongestWithinTotal(data: map<string, Record>, now: int, d: int, longest: int)
    requires HostsOn(data, now, d) != map[]
    requires IsMaxOf(longest, 0, HostsOn(data, now, d))
    ensures 0 <= longest <= SumTotals(HostsOn(data, now, d))
  {
    var hosts := HostsOn(data, now, d);
    forall k | k in hosts
      ensures hosts[k].totalMs >= 0
    {
      EntriesOnTheirDate(data, now, d, k);
    }
    if longest == 0 {
      SumTotalsNonNegative(hosts);
    } else {
      var h :| h in hosts && hosts[h].totalMs == longest;
      SumTotalsAtLeast(hosts, h);
    }
  }

  // ---- agreement with getUsageByDay ---------------------------------------

  /** Per-date entries whose dates and totals match per-date usage. */
  predicate Agree(hd: map<int, HostDay>, u: map<int, int>) {
    hd.Keys == u.Keys && forall d :: d in hd ==> hd[d].totalMs == u[d]
  }

  lemma {:induction false} SplitPiecesAgree(hd: map<int, HostDay>, u: map<int, int>, name: string, ps: seq<Piece>)
    requires Agree(hd, u)
    ensures Agree(SplitPieces(hd, name, ps), AddPieces(u, ps))
    decreases |ps|
  {
    if ps != [] {
      SplitPiecesAgree(AddSplit(hd, ps[0].day, ToSplit(ps[0], name)), AddMs(u, ps[0].day, Ms(ps[0])), name, ps[1..]);
    }
  }

  lemma {:induction false} SplitSessionsAgree(hd: map<int, HostDay>, u: map<int, int>, sessions: seq<Session>, now: int)
    requires Agree(hd, u)
    ensures Agree(SplitSessions(hd, sessions, now), AddSessions(u, sessions, now))
    decreases |sessions|
  {
    if sessions != [] {
      var ps := SessionPieces(sessions[0], now);
      SplitPiecesAgree(hd, u, sessions[0].name, ps);
      SplitSessionsAgree(SplitPieces(hd, sessions[0].name, ps), AddPieces(u, ps), sessions[1..], now);
    }
  }

  /** The history page and the badge count the same time: a hostname is
      listed under a date by transformData exactly when getUsageByDay has
      usage for it on that date, and its total there is that usage. */
  lemma TransformAgreesWithUsage(data: map<string, Record>, now: int, d: int, h: string)
    ensures var u := UsageByDay(data, now);
      h in HostsOn(data, now, d) <==> h in u && d in u[h]
    ensures var u := UsageByDay(data, now);
      h in HostsOn(data, now, d) ==> HostsOn(data, now, d)[h].totalMs == u[h][d]
  {
    if h in data {
      SplitSessionsAgree(map[], map[], data[h].sessions, now);
    }
  }
}
