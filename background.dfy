/** The background script's session tracker (src/pages/background/index.ts):
    the `data.hostname.*` helpers that edit the hostname map in place, and
    the event handlers that run them. */
module Background {
  import opened Extension
  import opened Clock
  import opened Utils
  import Usage

  // ---- one record ----------------------------------------------------------

  /** The record `create` adds. */
  const NewRecord := Record([], 0, false, "")

  /** `setFavIconUrl` on one record: the first non-empty icon wins. */
  function WithFavIcon(r: Record, url: string): (r': Record)
    ensures r'.sessions == r.sessions && r'.badgeSeconds == r.badgeSeconds && r'.isActive == r.isActive
    ensures r'.favIconUrl == (if r.favIconUrl == "" then url else r.favIconUrl)
  {
    if r.favIconUrl == "" && url != "" then r.(favIconUrl := url) else r
  }

  /** `session.start` on one record: append an open session unless the last
      one is open already, and mark the record active. */
  function Started(r: Record, tab: Tab, now: int): (r': Record)
    ensures LastOpen(r'.sessions) && r'.isActive
    ensures r'.sessions == if LastOpen(r.sessions) then r.sessions else r.sessions + [Session(now, None, tab.title, tab.url)]
    ensures r'.badgeSeconds == r.badgeSeconds && r'.favIconUrl == r.favIconUrl
  {
    var sessions := if |r.sessions| == 0 || !LastOpen(r.sessions)
                    then r.sessions + [Session(now, None, tab.title, tab.url)]
                    else r.sessions;
    r.(sessions := sessions, isActive := true)
  }

  /** `session.end` on one record: close the last session at `at` if it is
      open, and mark the record inactive. The source reads the last session
      without a guard, so there must be one. */
  function Ended(r: Record, at: int): (r': Record)
    requires |r.sessions| > 0
    ensures !LastOpen(r'.sessions) && !r'.isActive
    ensures |r'.sessions| == |r.sessions|
    ensures r'.sessions[..|r.sessions| - 1] == r.sessions[..|r.sessions| - 1]
    ensures var last := r.sessions[|r.sessions| - 1];
      r'.sessions[|r.sessions| - 1] == if last.end.None? then last.(end := Some(at)) else last
    ensures r'.badgeSeconds == r.badgeSeconds && r'.favIconUrl == r.favIconUrl
  {
    var i := |r.sessions| - 1;
    var last := r.sessions[i];
    var sessions := if last.end.None? then r.sessions[i := last.(end := Some(at))] else r.sessions;
    r.(sessions := sessions, isActive := false)
  }

  /** Two starts in a row leave a single open session. */
  lemma StartIdempotent(r: Record, tab: Tab, now: int, tab2: Tab, now2: int)
    ensures Started(Started(r, tab, now), tab2, now2) == Started(r, tab, now)
  {
  }

  /** Ending twice is ending once, whatever the second time. */
  lemma EndIdempotent(r: Record, at: int, at2: int)
    requires |r.sessions| > 0
    ensures Ended(Ended(r, at), at2) == Ended(r, at)
  {
  }

  /** Once a record has an icon, no later icon replaces it. */
  lemma FavIconSticky(r: Record, url: string)
    requires r.favIconUrl != ""
    ensures WithFavIcon(r, url) == r
  {
  }

  // ---- the whole map -------------------------------------------------------

  /** `create`: add a new record unless the hostname has one. */
  function Created(m: map<string, Record>, h: string): (m': map<string, Record>)
    ensures m'.Keys == m.Keys + {h}
    ensures h in m ==> m' == m
    ensures h !in m ==> m'[h] == NewRecord && forall k :: k in m ==> m'[k] == m[k]
  {
    if h in m then m else m[h := NewRecord]
  }

  /** `setFavIconUrl` on the map: nothing happens for a missing hostname. */
  function FavIconIn(m: map<string, Record>, h: string, url: string): (m': map<string, Record>)
    ensures m'.Keys == m.Keys
    ensures forall k :: k in m && k != h ==> m'[k] == m[k]
    ensures h in m ==> m'[h] == WithFavIcon(m[h], url)
  {
    if h in m then m[h := WithFavIcon(m[h], url)] else m
  }

  /** The hostnames `endAll` will end all have a session to end. */
  predicate EndsDefined(m: map<string, Record>, exclude: seq<string>) {
    forall h :: h in m && h !in exclude ==> |m[h].sessions| > 0
  }

  /** `endAll`: end every hostname not in `exclude` at `at`. */
  function EndAllOf(m: map<string, Record>, exclude: seq<string>, at: int): (m': map<string, Record>)
    requires EndsDefined(m, exclude)
    ensures m'.Keys == m.Keys
    ensures forall h :: h in m && h in exclude ==> m'[h] == m[h]
    ensures forall h :: h in m && h !in exclude ==> m'[h] == Ended(m[h], at)
  {
    map h | h in m :: if h in exclude then m[h] else Ended(m[h], at)
  }

  /** The four steps every handler runs for the tab it is told about
      (create, start, set the icon, end everyone else). */
  function Visited(m: map<string, Record>, h: string, tab: Tab, now: int, at: int): (m': map<string, Record>)
    requires EndsDefined(m, [h])
    ensures m'.Keys == m.Keys + {h}
    ensures m'[h] == WithFavIcon(Started(if h in m then m[h] else NewRecord, tab, now), tab.favIconUrl)
    ensures forall k :: k in m && k != h ==> m'[k] == Ended(m[k], at)
  {
    var created := Created(m, h);
    var started := created[h := Started(created[h], tab, now)];
    var iconed := FavIconIn(started, h, tab.favIconUrl);
    assert iconed.Keys == m.Keys + {h};
    assert forall k :: k in m && k != h ==> iconed[k] == m[k];
    EndAllOf(iconed, [h], at)
  }

  /** A hostname is live when its last session is still open. */
  predicate Live(m: map<string, Record>, h: string) {
    h in m && LastOpen(m[h].sessions)
  }

  /** Only the last session of a record can be open. */
  predicate PriorClosed(sessions: seq<Session>) {
    forall i :: 0 <= i < |sessions| - 1 ==> sessions[i].end.Some?
  }

  /** What every stored map satisfies: every record has a session, only its
      last can be open, and `isActive` says whether it is. */
  predicate WellFormed(m: map<string, Record>) {
    forall h :: h in m ==>
      |m[h].sessions| > 0 && PriorClosed(m[h].sessions) && m[h].isActive == LastOpen(m[h].sessions)
  }

  /** At most one hostname is being timed. */
  predicate AtMostOneLive(m: map<string, Record>) {
    forall h, k :: h in m && k in m && Live(m, h) && Live(m, k) ==> h == k
  }

  predicate NoneLive(m: map<string, Record>) {
    forall h :: h in m ==> !LastOpen(m[h].sessions) && !m[h].isActive
  }

  /** Every record of `a` is still in `b`, its sessions a prefix of `b`'s. */
  predicate Extends(a: map<string, Record>, b: map<string, Record>) {
    forall h :: h in a ==> h in b && a[h].sessions <= b[h].sessions
  }

  lemma EndedWellFormed(r: Record, at: int)
    requires |r.sessions| > 0 && PriorClosed(r.sessions)
    ensures PriorClosed(Ended(r, at).sessions)
  {
    var s := Ended(r, at).sessions;
    forall i | 0 <= i < |s| - 1
      ensures s[i].end.Some?
    {
      assert s[i] == s[..|r.sessions| - 1][i];
    }
  }

  lemma StartedWellFormed(r: Record, tab: Tab, now: int)
    requires PriorClosed(r.sessions)
    ensures PriorClosed(Started(r, tab, now).sessions)
  {
  }

  /** With nothing excluded, `endAll` leaves no hostname live and keeps
      every record well formed (the "no focused window" case). */
  lemma EndAllStopsAll(m: map<string, Record>, at: int)
    requires WellFormed(m)
    ensures var m' := EndAllOf(m, [], at);
      NoneLive(m') && WellFormed(m') && AtMostOneLive(m')
  {
    var m' := EndAllOf(m, [], at);
    forall h | h in m
      ensures PriorClosed(m'[h].sessions)
    {
      EndedWellFormed(m[h], at);
    }
  }

  /** Waking from sleep: every session that was open is closed at the last
      heartbeat `at`, not at the wake-up time; closed sessions keep their end. */
  lemma SleepClosesAtLastInterval(m: map<string, Record>, at: int, h: string)
    requires WellFormed(m) && h in m
    ensures var m' := EndAllOf(m, [], at); var i := |m[h].sessions| - 1;
      && m'[h].sessions[..i] == m[h].sessions[..i]
      && (LastOpen(m[h].sessions) ==> m'[h].sessions[i] == m[h].sessions[i].(end := Some(at)))
      && (!LastOpen(m[h].sessions) ==> m'[h].sessions[i] == m[h].sessions[i])
  {
  }

  /** After the four steps, the visited hostname is the only live one. */
  lemma VisitLeavesOneLive(m: map<string, Record>, h: string, tab: Tab, now: int, at: int)
    requires WellFormed(m)
    ensures var m' := Visited(m, h, tab, now, at);
      && m'.Keys == m.Keys + {h}
      && Live(m', h) && m'[h].isActive
      && (forall k :: k in m' && k != h ==> !LastOpen(m'[k].sessions) && !m'[k].isActive)
      && AtMostOneLive(m')
  {
  }

  /** The four steps keep every record well formed. */
  lemma VisitKeepsWellFormed(m: map<string, Record>, h: string, tab: Tab, now: int, at: int)
    requires WellFormed(m)
    ensures WellFormed(Visited(m, h, tab, now, at))
  {
    var r := if h in m then m[h] else NewRecord;
    var m' := Visited(m, h, tab, now, at);
    StartedWellFormed(r, tab, now);
    forall k | k in m'
      ensures |m'[k].sessions| > 0 && PriorClosed(m'[k].sessions)
      ensures m'[k].isActive == LastOpen(m'[k].sessions)
    {
      if k != h {
        EndedWellFormed(m[k], at);
      }
    }
  }

  /** When nobody is live, the four steps only append: every record's
      sessions so far are kept as a prefix. */
  lemma VisitExtends(m: map<string, Record>, h: string, tab: Tab, now: int, at: int)
    requires WellFormed(m) && NoneLive(m)
    ensures Extends(m, Visited(m, h, tab, now, at))
  {
  }

  /** On a map nobody is live in, `endAll` changes no session. */
  lemma EndAllExtends(m: map<string, Record>, at: int)
    requires WellFormed(m) && NoneLive(m)
    ensures Extends(m, EndAllOf(m, [], at))
  {
  }

  // ---- badge seconds -------------------------------------------------------

  /** `Math.round(ms / 1000)`: the nearest whole second, halves rounded up. */
  function Round(ms: int): (s: int)
    ensures s * 1000 - 500 <= ms < s * 1000 + 500
  {
    (ms + 500) / 1000
  }

  /** A hostname's badge seconds for date `day` from its usage: the rounded
      usage, or 0 when there is none (a zero usage counts as none). */
  function TodaySeconds(usage: map<int, int>, day: int): (s: int)
    ensures day !in usage ==> s == 0
    ensures day in usage ==> s == Round(usage[day])
  {
    if day in usage && usage[day] != 0 then Round(usage[day]) else 0
  }

  /** `getSecondsToday` (src/pages/background/index.ts:68-74). */
  function SecondsToday(m: map<string, Record>, h: string, now: int): (s: int)
    ensures var u := Usage.UsageByDay(m, now);
      s == if h in u then TodaySeconds(u[h], DayKey(now)) else 0
  {
    var u := Usage.UsageByDay(m, now);
    if h in u && DayKey(now) in u[h] && u[h][DayKey(now)] != 0 then Round(u[h][DayKey(now)]) else 0
  }

  /** A hostname timed only by one session opened earlier today shows the
      seconds since it opened. */
  lemma SecondsTodayOneOpenSession(m: map<string, Record>, h: string, s: Session, now: int)
    requires h in m && m[h].sessions == [s]
    requires s.end.None? && s.start <= now && DayKey(s.start) == DayKey(now)
    ensures SecondsToday(m, h, now) == Round(now - s.start)
  {
    Usage.OpenSessionUsage(map[], s, now);
    assert Usage.HostUsage(m[h].sessions, now) == map[DayKey(now) := now - s.start];
  }

  /** The date walk's cursor step shows on the badge: a page open since 23:00
      shows 0 seconds at 01:00 the next day, where the corrected walk gives
      the hour since midnight. */
  lemma AsWrittenBadgeMissesToday(h: string)
    ensures var m := map[h := Record([Session(82800000, None, "", "")], 0, true, "")];
      && SecondsToday(m, h, 90000000) == 0
      && Round(Usage.CorrectedUsageByDay(m, 90000000)[h][DayKey(90000000)]) == 3600
  {
    Usage.AsWrittenUsageLosesNextDay(h);
    assert DayKey(90000000) == 1;
  }

  /** `updateBadgeSecondsToday` (src/pages/background/index.ts:49-58). */
  function WithTodayBadges(m: map<string, Record>, now: int): (m': map<string, Record>)
    ensures m'.Keys == m.Keys
    ensures var u := Usage.UsageByDay(m, now);
      forall h :: h in m ==>
        && m'[h].sessions == m[h].sessions && m'[h].isActive == m[h].isActive && m'[h].favIconUrl == m[h].favIconUrl
        && m'[h].badgeSeconds == if h in u then TodaySeconds(u[h], DayKey(now)) else m[h].badgeSeconds
  {
    var u := Usage.UsageByDay(m, now);
    map h | h in m :: if h in u then m[h].(badgeSeconds := TodaySeconds(u[h], DayKey(now))) else m[h]
  }

  /** The badge a handler shows (`badge.setSeconds`): text only from a minute on. */
  function BadgeText(seconds: int): (b: Option<string>)
    ensures b.Some? <==> seconds >= 60
    ensures b.Some? ==> b.value == SecondsToText(seconds)
  {
    if seconds >= 60 then Some(SecondsToText(seconds)) else None
  }

  /** The badge update keeps every stored invariant, since it touches only badge seconds. */
  lemma BadgesKeepWellFormed(m: map<string, Record>, now: int)
    requires WellFormed(m) && AtMostOneLive(m)
    ensures WellFormed(WithTodayBadges(m, now)) && AtMostOneLive(WithTodayBadges(m, now))
    ensures Extends(m, WithTodayBadges(m, now))
  {
    var m' := WithTodayBadges(m, now);
    assert forall h :: Live(m', h) ==> Live(m, h);
  }

  // ---- windows and tabs ----------------------------------------------------

  /** What `chrome.windows.getLastFocused({ populate: true })` reports. */
  datatype Window = Window(focused: bool, tabs: seq<Tab>)

  /** `window.tabs.find(tab => tab.active)`. */
  function FirstActive(tabs: seq<Tab>): (t: Option<Tab>)
    ensures t.None? <==> forall i :: 0 <= i < |tabs| ==> !tabs[i].active
    ensures t.Some? ==> exists i :: 0 <= i < |tabs| && tabs[i] == t.value && t.value.active
                          && forall j :: 0 <= j < i ==> !tabs[j].active
    decreases |tabs|
  {
    if tabs == [] then None
    else if tabs[0].active then Some(tabs[0])
    else
      var t := FirstActive(tabs[1..]);
      if t.Some? then
        var i :| 0 <= i < |tabs[1..]| && tabs[1..][i] == t.value && t.value.active
                 && forall j :: 0 <= j < i ==> !tabs[1..][j].active;
        assert tabs[i + 1] == t.value;
        t
      else t
  }

  // ---- the hostname map, edited in place -----------------------------------

  /** The `hostnames` object a handler loads, edits with the
      `data.hostname.*` helpers and stores back. */
  class Hostnames {
    var records: map<string, Record>

    constructor (records0: map<string, Record>)
      ensures records == records0
    {
      records := records0;
    }

    /** `exists` */
    function Exists(hostname: string): (b: bool)
      reads this
      ensures b <==> hostname in records
    {
      hostname in records
    }

    /** `isActive`: reads the record without a guard. */
    function IsActive(hostname: string): (b: bool)
      requires hostname in records
      reads this
      ensures b == records[hostname].isActive
    {
      records[hostname].isActive
    }

    /** `session.hasActive` */
    function HasActive(hostname: string): (b: bool)
      requires hostname in records
      reads this
      ensures var ss := records[hostname].sessions; b <==> |ss| > 0 && ss[|ss| - 1].end.None?
    {
      LastOpen(records[hostname].sessions)
    }

    /** `create` (src/pages/background/index.ts:78-87) */
    method Create(hostname: string)
      modifies this
      ensures records == Created(old(records), hostname)
    {
      if hostname !in records {
        records := records[hostname := Record([], 0, false, "")];
      }
    }

    /** `setFavIconUrl` (src/pages/background/index.ts:88-92) */
    method SetFavIconUrl(hostname: string, favIconUrl: string)
      modifies this
      ensures records == FavIconIn(old(records), hostname, favIconUrl)
    {
      if hostname in records && records[hostname].favIconUrl == "" && favIconUrl != "" {
        records := records[hostname := records[hostname].(favIconUrl := favIconUrl)];
      }
    }

    /** `setActive` */
    method SetActive(hostname: string)
      requires hostname in records
      modifies this
      ensures records == old(records)[hostname := old(records)[hostname].(isActive := true)]
    {
      records := records[hostname := records[hostname].(isActive := true)];
    }

    /** `setInactive` */
    method SetInactive(hostname: string)
      requires hostname in records
      modifies this
      ensures records == old(records)[hostname := old(records)[hostname].(isActive := false)]
    {
      records := records[hostname := records[hostname].(isActive := false)];
    }

    /** `badgeSeconds.set` */
    method SetBadgeSeconds(hostname: string, seconds: int)
      requires hostname in records
      modifies this
      ensures records == old(records)[hostname := old(records)[hostname].(badgeSeconds := seconds)]
    {
      records := records[hostname := records[hostname].(badgeSeconds := seconds)];
    }

    /** `badgeSeconds.increment` */
    method IncrementBadgeSeconds(hostname: string)
      requires hostname in records
      modifies this
      ensures records == old(records)[hostname := old(records)[hostname].(badgeSeconds := old(records)[hostname].badgeSeconds + 1)]
    {
      SetBadgeSeconds(hostname, records[hostname].badgeSeconds + 1);
    }

    /** `session.start` (src/pages/background/index.ts:111-121) */
    method Start(hostname: string, tab: Tab, now: int)
      requires hostname in records
      modifies this
      ensures records == old(records)[hostname := Started(old(records)[hostname], tab, now)]
    {
      if |records[hostname].sessions| == 0 || !HasActive(hostname) {
        var sessions := records[hostname].sessions + [Session(now, None, tab.title, tab.url)];
        records := records[hostname := records[hostname].(sessions := sessions)];
      }
      SetActive(hostname);
    }

    /** `session.end` (src/pages/background/index.ts:122-128) */
    method End(hostname: string, at: int)
      requires hostname in records && |records[hostname].sessions| > 0
      modifies this
      ensures records == old(records)[hostname := Ended(old(records)[hostname], at)]
    {
      var i := |records[hostname].sessions| - 1;
      var lastSession := records[hostname].sessions[i];
      if lastSession.end.None? {
        var sessions := records[hostname].sessions[i := lastSession.(end := Some(at))];
        records := records[hostname := records[hostname].(sessions := sessions)];
      }
      SetInactive(hostname);
    }

    /** `session.endAll` (src/pages/background/index.ts:129-137) */
    method EndAll(exclude: seq<string>, at: int)
      requires EndsDefined(records, exclude)
      modifies this
      ensures records == EndAllOf(old(records), exclude, at)
    {
      ghost var m := records;
      var pending := records.Keys;
      ghost var done: set<string> := {};
      while pending != {}
        invariant pending !! done && pending + done == m.Keys
        invariant records == EndOver(m, exclude, done, at)
        decreases pending
      {
        var hostname :| hostname in pending;
        if hostname !in exclude {
          End(hostname, at);
        }
        EndOverGrows(m, exclude, done, hostname, at);
        pending := pending - {hostname};
        done := done + {hostname};
      }
      assert done == m.Keys;
    }

    /** The sequence every handler runs for the tab it is told about
        (src/pages/background/index.ts:186-189, 233-236, 250-253, 268-271):
        create, start, set the icon, end every other hostname at `at`. */
    method Visit(hostname: string, tab: Tab, now: int, at: int)
      requires WellFormed(records)
      modifies this
      ensures records == Visited(old(records), hostname, tab, now, at)
    {
      Create(hostname);
      Start(hostname, tab, now);
      SetFavIconUrl(hostname, tab.favIconUrl);
      EndAll([hostname], at);
    }

    /** `getSecondsToday` (src/pages/background/index.ts:68-74) */
    method GetSecondsToday(hostname: string, now: int) returns (seconds: int)
      ensures seconds == SecondsToday(records, hostname, now)
    {
      var todayDateKey := DayKey(now);
      var usageByDay := Usage.GetUsageByDay(records, now);
      seconds := if hostname in usageByDay && todayDateKey in usageByDay[hostname] && usageByDay[hostname][todayDateKey] != 0
                 then Round(usageByDay[hostname][todayDateKey]) else 0;
    }

    /** `updateBadgeSecondsToday` (src/pages/background/index.ts:49-58) */
    method UpdateBadgeSecondsToday(now: int)
      modifies this
      ensures records == WithTodayBadges(old(records), now)
    {
      ghost var m := records;
      var todayDateKey := DayKey(now);
      var usageByDay := Usage.GetUsageByDay(records, now);
      var pending := usageByDay.Keys;
      ghost var done: set<string> := {};
      BadgesOverNone(m, usageByDay, todayDateKey);
      while pending != {}
        invariant pending !! done && pending + done == usageByDay.Keys
        invariant records == BadgesOver(m, usageByDay, done, todayDateKey)
        decreases pending
      {
        var hostname :| hostname in pending;
        var seconds := if todayDateKey in usageByDay[hostname] && usageByDay[hostname][todayDateKey] != 0
                       then Round(usageByDay[hostname][todayDateKey]) else 0;
        BadgesOverGrows(m, usageByDay, done, hostname, todayDateKey);
        records := records[hostname := records[hostname].(badgeSeconds := seconds)];
        pending := pending - {hostname};
        done := done + {hostname};
      }
      assert done == usageByDay.Keys;
    }
  }

  /** `endAll` part way: the hostnames in `done` have been seen. */
  function EndOver(m: map<string, Record>, exclude: seq<string>, done: set<string>, at: int): map<string, Record>
    requires EndsDefined(m, exclude)
  {
    map h | h in m :: if h in done && h !in exclude then Ended(m[h], at) else m[h]
  }

  lemma EndOverGrows(m: map<string, Record>, exclude: seq<string>, done: set<string>, h: string, at: int)
    requires EndsDefined(m, exclude) && h in m && h !in done
    ensures EndOver(m, exclude, done + {h}, at)
      == if h in exclude then EndOver(m, exclude, done, at) else EndOver(m, exclude, done, at)[h := Ended(m[h], at)]
  {
  }

  /** The badge update part way: the hostnames in `done` have been set. */
  function BadgesOver(m: map<string, Record>, usage: map<string, map<int, int>>, done: set<string>, day: int): (r: map<string, Record>)
    ensures r.Keys == m.Keys
  {
    map h | h in m :: if h in done && h in usage then m[h].(badgeSeconds := TodaySeconds(usage[h], day)) else m[h]
  }

  lemma BadgesOverNone(m: map<string, Record>, usage: map<string, map<int, int>>, day: int)
    ensures BadgesOver(m, usage, {}, day) == m
  {
  }

  lemma BadgesOverGrows(m: map<string, Record>, usage: map<string, map<int, int>>, done: set<string>, h: string, day: int)
    requires h in m && h in usage && h !in done
    ensures var r := BadgesOver(m, usage, done, day);
      BadgesOver(m, usage, done + {h}, day) == r[h := r[h].(badgeSeconds := TodaySeconds(usage[h], day))]
  {
  }

  // ---- the handlers ----------------------------------------------------------

  /** `Math.abs` */
  function Abs(x: int): (a: int)
    ensures a >= 0 && (a == x || a == -x)
  {
    if x < 0 then -x else x
  }

  /** Whether a heartbeat gets as far as saving and stamping the time: the
      window was found, and it is either unfocused or has an active tab. */
  predicate Stamps(window: Option<Window>) {
    window.Some? && (!window.value.focused || FirstActive(window.value.tabs).Some?)
  }

  /** The stored map after the heartbeat's day-rollover check
      (src/pages/background/index.ts:157-164). `prevDate.get` reads an
      absent PREV_DATE_KEY as `new Date()`, so with nothing stored the check
      compares the clock with itself. With the one `now` per heartbeat it
      never fires; in the source it fires only if the two clock reads (:40
      and :160) straddle midnight. */
  function Rolled(m: map<string, Record>, prevDate: Option<int>, now: int): (r: map<string, Record>)
    ensures prevDate.None? ==> r == m
    ensures prevDate.Some? && DayKey(prevDate.value) == DayKey(now) ==> r == m
  {
    if DayKey(prevDate.GetOr(now)) != DayKey(now) then WithTodayBadges(m, now) else m
  }

  /** PREV_DATE_KEY after the rollover check: `prevDate.set` runs only inside
      the check, so with one clock reading per heartbeat a date that was
      never stored stays absent. */
  function Stamped(prevDate: Option<int>, now: int): (p: Option<int>)
    ensures p.None? <==> prevDate.None?
    ensures p.Some? && p != prevDate ==> p.value == now && DayKey(prevDate.value) != DayKey(now)
  {
    if DayKey(prevDate.GetOr(now)) != DayKey(now) then Some(now) else prevDate
  }

  /** The rollover check as evidently intended: an absent PREV_DATE_KEY
      counts as a new date, so the first heartbeat recomputes the badges. */
  function RolledCorrected(m: map<string, Record>, prevDate: Option<int>, now: int): (r: map<string, Record>)
    ensures prevDate.None? ==> r == WithTodayBadges(m, now)
    ensures prevDate.Some? ==> r == Rolled(m, prevDate, now)
  {
    if prevDate.None? || DayKey(prevDate.value) != DayKey(now) then WithTodayBadges(m, now) else m
  }

  /** PREV_DATE_KEY after the corrected check: always a time on today's date. */
  function StampedCorrected(prevDate: Option<int>, now: int): (p: Option<int>)
    ensures p.Some? && DayKey(p.value) == DayKey(now)
    ensures prevDate.Some? ==> p == Stamped(prevDate, now)
  {
    if prevDate.None? || DayKey(prevDate.value) != DayKey(now) then Some(now) else prevDate
  }

  /** With the check corrected, a fresh install stamps the date on its first
      heartbeat, and the first heartbeat of a later date recomputes the
      badge seconds, whatever the map has become in between. */
  lemma CorrectedRollsOverNextDate(m: map<string, Record>, t1: int, t2: int)
    requires DayKey(t1) < DayKey(t2)
    ensures StampedCorrected(None, t1) == Some(t1)
    ensures RolledCorrected(m, StampedCorrected(None, t1), t2) == WithTodayBadges(m, t2)
    ensures StampedCorrected(StampedCorrected(None, t1), t2) == Some(t2)
  {
  }

  /** As written, a fresh install never rolls over: an hour of use on one
      date leaves 3600 badge seconds stored, and the first heartbeat of the
      next date keeps them, where the corrected check resets them to that
      date's 0. */
  lemma AsWrittenKeepsYesterdaysBadge(h: string)
    ensures var m := map[h := Record([Session(0, Some(3600000), "", "")], 3600, false, "")];
      var later := DayMs + 1000;
      && Stamped(None, 1000) == None
      && Rolled(m, Stamped(None, 1000), later)[h].badgeSeconds == 3600
      && RolledCorrected(m, StampedCorrected(None, 1000), later)[h].badgeSeconds == 0
  {
    var s := Session(0, Some(3600000), "", "");
    var m := map[h := Record([s], 3600, false, "")];
    var later := DayMs + 1000;
    Usage.SameDaySessionUsage(map[], s, later);
    assert Usage.HostUsage([s], later) == map[0 := 3600000];
    assert Usage.UsageByDay(m, later) == map[h := map[0 := 3600000]];
    assert DayKey(later) == 1;
  }

  /** The stored map after the heartbeat's sleep check. */
  function Slept(m: map<string, Record>, at: int, asleep: bool): (m': map<string, Record>)
    requires WellFormed(m)
    ensures WellFormed(m')
  {
    if asleep then EndAllStopsAll(m, at); EndAllOf(m, [], at) else m
  }

  /** The stored map after a heartbeat that gets as far as saving. */
  function AfterTick(m: map<string, Record>, at: int, asleep: bool, w: Window, now: int): map<string, Record>
    requires WellFormed(m)
    requires !w.focused || FirstActive(w.tabs).Some?
  {
    var m2 := Slept(m, at, asleep);
    if !w.focused then EndAllOf(m2, [], at)
    else
      var tab := FirstActive(w.tabs).value;
      Visited(m2, HostnameFromTab(tab), tab, now, at)
  }

  /** Every session open in `before` is closed at `at` in `after`, where
      the record has kept at least that many sessions. */
  predicate ClosedAt(before: map<string, Record>, after: map<string, Record>, at: int) {
    forall k :: k in before && LastOpen(before[k].sessions) ==>
      var i := |before[k].sessions| - 1;
      k in after && i < |after[k].sessions| && after[k].sessions[i] == before[k].sessions[i].(end := Some(at))
  }

  /** A heartbeat keeps the invariant. An unfocused window leaves nobody
      timed; a focused one leaves exactly the active tab's hostname timed. */
  lemma TickKeepsInvariant(m: map<string, Record>, at: int, asleep: bool, w: Window, now: int)
    requires WellFormed(m) && AtMostOneLive(m)
    requires !w.focused || FirstActive(w.tabs).Some?
    ensures var m' := AfterTick(m, at, asleep, w, now);
      && WellFormed(m') && AtMostOneLive(m')
      && (!w.focused ==> NoneLive(m'))
      && (w.focused ==>
            var h := HostnameFromTab(FirstActive(w.tabs).value);
            Live(m', h) && m'[h].isActive && forall k :: k in m' && k != h ==> !Live(m', k))
  {
    var m2 := Slept(m, at, asleep);
    if asleep {
      EndAllStopsAll(m, at);
    }
    if !w.focused {
      EndAllStopsAll(m2, at);
    } else {
      var tab := FirstActive(w.tabs).value;
      VisitLeavesOneLive(m2, HostnameFromTab(tab), tab, now, at);
      VisitKeepsWellFormed(m2, HostnameFromTab(tab), tab, now, at);
    }
  }

  /** Waking from sleep, the heartbeat closes every session that was open at
      the last heartbeat's time `at`, not at the wake-up time, and whatever
      it does next keeps that end. */
  lemma {:induction false} TickAfterSleep(m: map<string, Record>, at: int, w: Window, now: int)
    requires WellFormed(m)
    ensures ClosedAt(m, Slept(m, at, true), at)
    ensures !w.focused || FirstActive(w.tabs).Some? ==> ClosedAt(m, AfterTick(m, at, true, w, now), at)
  {
    var m2 := EndAllOf(m, [], at);
    EndAllStopsAll(m, at);
    forall k | k in m && LastOpen(m[k].sessions)
      ensures m2[k].sessions[|m[k].sessions| - 1] == m[k].sessions[|m[k].sessions| - 1].(end := Some(at))
    {
      SleepClosesAtLastInterval(m, at, k);
    }
    if !w.focused || FirstActive(w.tabs).Some? {
      var m3 := AfterTick(m, at, true, w, now);
      if !w.focused {
        EndAllExtends(m2, at);
      } else {
        var tab := FirstActive(w.tabs).value;
        VisitExtends(m2, HostnameFromTab(tab), tab, now, at);
      }
      forall k | k in m && LastOpen(m[k].sessions)
        ensures var i := |m[k].sessions| - 1;
          k in m3 && i < |m3[k].sessions| && m3[k].sessions[i] == m[k].sessions[i].(end := Some(at))
      {
        assert m2[k].sessions <= m3[k].sessions;
      }
    }
  }

  /** The day-rollover badge update changes no session, so the sleep
      guarantee reads the same on the map the heartbeat was given. */
  lemma RolledKeepsSessions(m: map<string, Record>, prevDate: Option<int>, now: int)
    ensures var r := Rolled(m, prevDate, now);
      r.Keys == m.Keys && forall k :: k in m ==> r[k].sessions == m[k].sessions
  {
  }

  /** The background script's state between events: the hostname map kept
      under DATA_KEY, and the LAST_INTERVAL_DATE_KEY and PREV_DATE_KEY
      timestamps (`None` until first written; read as `now` when absent, as
      the source's `new Date()` fallback does). */
  class Tracker {
    /** SLEEP_INTERVAL_MS */
    const sleepIntervalMs: int
    var stored: map<string, Record>
    var lastInterval: Option<int>
    var prevDate: Option<int>

    /** The invariant every handler keeps: well formed records and at most
        one hostname being timed. */
    predicate Valid()
      reads this
    {
      WellFormed(stored) && AtMostOneLive(stored)
    }

    constructor (sleepIntervalMs: int)
      ensures Valid()
      ensures this.sleepIntervalMs == sleepIntervalMs
      ensures stored == map[] && lastInterval == None && prevDate == None
    {
      this.sleepIntervalMs := sleepIntervalMs;
      stored := map[];
      lastInterval := None;
      prevDate := None;
    }

    /** `main` (src/pages/background/index.ts:295-299): recompute today's
        badge seconds on start-up. */
    method Startup(now: int)
      requires Valid()
      modifies this
      ensures Valid()
      ensures stored == WithTodayBadges(old(stored), now)
      ensures lastInterval == old(lastInterval) && prevDate == old(prevDate)
    {
      var hostnames := new Hostnames(stored);
      hostnames.UpdateBadgeSecondsToday(now);
      BadgesKeepWellFormed(stored, now);
      stored := hostnames.records;
    }

    /** The heartbeat's first step (src/pages/background/index.ts:157-164):
        load the map and, on the first tick of a new date, recompute the
        badge seconds and save. */
    method RollOver(now: int) returns (hostnames: Hostnames)
      requires Valid()
      modifies this
      ensures fresh(hostnames) && Valid()
      ensures hostnames.records == Rolled(old(stored), old(prevDate), now)
      ensures prevDate == Stamped(old(prevDate), now)
      ensures stored == hostnames.records && lastInterval == old(lastInterval)
    {
      hostnames := new Hostnames(stored);
      var date := prevDate.GetOr(now);
      if DayKey(date) != DayKey(now) {
        hostnames.UpdateBadgeSecondsToday(now);
        BadgesKeepWellFormed(stored, now);
        prevDate := Some(now);
        stored := hostnames.records;
      }
    }

    /** The heartbeat (src/pages/background/index.ts:156-197), one tick at
        time `now`. `window` is what `getLastFocused` resolves to, `None`
        when it fails. */
    method Heartbeat(now: int, window: Option<Window>)
      requires Valid()
      modifies this
      ensures Valid()
      ensures prevDate == Stamped(old(prevDate), now)
      ensures lastInterval == if Stamps(window) then Some(now) else old(lastInterval)
      ensures var rolled := Rolled(old(stored), old(prevDate), now);
              var li := old(lastInterval).GetOr(now);
              var asleep := Abs(now - li) >= sleepIntervalMs;
        && (window.None? ==> stored == rolled)
        && (window.Some? && !Stamps(window) ==> stored == Slept(rolled, li, asleep))
        && (Stamps(window) ==> stored == AfterTick(rolled, li, asleep, window.value, now))
    {
      var lastIntervalDateValue := lastInterval.GetOr(now);
      var hostnames := RollOver(now);
      if window.None? {
        return;
      }
      var asleep := Abs(now - lastIntervalDateValue) >= sleepIntervalMs;
      Tick(hostnames, now, lastIntervalDateValue, asleep, window.value);
    }

    /** The heartbeat once the focused window is known
        (src/pages/background/index.ts:166-196): after a sleep, close every
        open session at the last heartbeat's time `at`; then close them all
        for an unfocused window, or visit the active tab's hostname, and
        stamp the time. A focused window without an active tab stops before
        the stamp. */
    method Tick(hostnames: Hostnames, now: int, at: int, asleep: bool, w: Window)
      requires Valid() && hostnames.records == stored
      modifies this, hostnames
      ensures Valid() && prevDate == old(prevDate)
      ensures lastInterval == if !w.focused || FirstActive(w.tabs).Some? then Some(now) else old(lastInterval)
      ensures stored == if !w.focused || FirstActive(w.tabs).Some? then AfterTick(old(stored), at, asleep, w, now)
                        else Slept(old(stored), at, asleep)
    {
      ghost var m1 := stored;
      if asleep {
        hostnames.EndAll([], at);
        EndAllStopsAll(m1, at);
        stored := hostnames.records;
      }
      if !w.focused {
        hostnames.EndAll([], at);
      } else {
        var tab := FirstActive(w.tabs);
        if tab.None? {
          return;
        }
        var hostname := HostnameFromTab(tab.value);
        hostnames.Visit(hostname, tab.value, now, at);
      }
      TickKeepsInvariant(m1, at, asleep, w, now);
      stored := hostnames.records;
      lastInterval := Some(now);
    }

    /** `windows.onFocusChanged` (src/pages/background/index.ts:216-240).
        `noWindow` is `windowId === WINDOW_ID_NONE`; `window` is what
        `getLastFocused` resolves to, `None` when it fails (the handler then
        stops before saving). */
    method OnFocusChanged(now: int, noWindow: bool, window: Option<Window>)
      requires Valid()
      modifies this
      ensures Valid()
      ensures lastInterval == old(lastInterval) && prevDate == old(prevDate)
      ensures noWindow || (window.Some? && !window.value.focused) ==>
        stored == EndAllOf(old(stored), [], old(lastInterval).GetOr(now)) && NoneLive(stored)
      ensures !noWindow && Stamps(window) && window.value.focused ==>
        var tab := FirstActive(window.value.tabs).value;
        stored == Visited(old(stored), HostnameFromTab(tab), tab, now, old(lastInterval).GetOr(now))
      ensures !noWindow && !Stamps(window) ==> stored == old(stored)
    {
      var hostnames := new Hostnames(stored);
      var lastIntervalDateValue := lastInterval.GetOr(now);
      ghost var m := stored;
      if noWindow {
        hostnames.EndAll([], lastIntervalDateValue);
        EndAllStopsAll(m, lastIntervalDateValue);
      } else {
        if window.None? {
          return;
        }
        var w := window.value;
        if !w.focused {
          hostnames.EndAll([], lastIntervalDateValue);
          EndAllStopsAll(m, lastIntervalDateValue);
        } else {
          var tab := FirstActive(w.tabs);
          if tab.Some? {
            var hostname := HostnameFromTab(tab.value);
            hostnames.Visit(hostname, tab.value, now, lastIntervalDateValue);
            VisitLeavesOneLive(m, hostname, tab.value, now, lastIntervalDateValue);
            VisitKeepsWellFormed(m, hostname, tab.value, now, lastIntervalDateValue);
          }
        }
      }
      stored := hostnames.records;
    }

    /** `tabs.onActivated` (src/pages/background/index.ts:242-258): `tab` is
        what `tabs.get` resolves to. Returns the badge text set, if any. */
    method OnActivated(now: int, tab: Option<Tab>) returns (badge: Option<string>)
      requires Valid()
      modifies this
      ensures Valid()
      ensures lastInterval == old(lastInterval) && prevDate == old(prevDate)
      ensures tab.None? ==> stored == old(stored) && badge == None
      ensures tab.Some? ==>
        var h := HostnameFromTab(tab.value);
        && stored == Visited(old(stored), h, tab.value, now, old(lastInterval).GetOr(now))
        && badge == BadgeText(SecondsToday(stored, h, now))
    {
      var hostnames := new Hostnames(stored);
      var lastIntervalDateValue := lastInterval.GetOr(now);
      ghost var m := stored;
      badge := None;
      if tab.Some? {
        var hostname := HostnameFromTab(tab.value);
        hostnames.Visit(hostname, tab.value, now, lastIntervalDateValue);
        VisitLeavesOneLive(m, hostname, tab.value, now, lastIntervalDateValue);
        VisitKeepsWellFormed(m, hostname, tab.value, now, lastIntervalDateValue);
        var seconds := hostnames.GetSecondsToday(hostname, now);
        badge := BadgeText(seconds);
      }
      stored := hostnames.records;
    }

    /** `tabs.onUpdated` (src/pages/background/index.ts:260-277): acts only
        once the page has loaded and only for the active tab. */
    method OnUpdated(now: int, complete: bool, tab: Option<Tab>) returns (badge: Option<string>)
      requires Valid()
      modifies this
      ensures Valid()
      ensures lastInterval == old(lastInterval) && prevDate == old(prevDate)
      ensures !(complete && tab.Some? && tab.value.active) ==> stored == old(stored) && badge == None
      ensures complete && tab.Some? && tab.value.active ==>
        var h := HostnameFromTab(tab.value);
        && stored == Visited(old(stored), h, tab.value, now, old(lastInterval).GetOr(now))
        && badge == BadgeText(SecondsToday(stored, h, now))
    {
      badge := None;
      if complete {
        var hostnames := new Hostnames(stored);
        var lastIntervalDateValue := lastInterval.GetOr(now);
        ghost var m := stored;
        if tab.None? {
          return;
        }
        if tab.value.active {
          var hostname := HostnameFromTab(tab.value);
          hostnames.Visit(hostname, tab.value, now, lastIntervalDateValue);
          VisitLeavesOneLive(m, hostname, tab.value, now, lastIntervalDateValue);
          VisitKeepsWellFormed(m, hostname, tab.value, now, lastIntervalDateValue);
          var seconds := hostnames.GetSecondsToday(hostname, now);
          badge := BadgeText(seconds);
          stored := hostnames.records;
        }
      }
    }

    /** The once-a-minute badge refresh (src/pages/background/index.ts:199-214):
        it only reads the stored map. */
    method BadgeTick(now: int, window: Option<Window>) returns (badge: Option<string>)
      ensures window.None? || !window.value.focused || FirstActive(window.value.tabs).None? ==> badge == None
      ensures Stamps(window) && window.value.focused ==>
        badge == BadgeText(SecondsToday(stored, HostnameFromTab(FirstActive(window.value.tabs).value), now))
    {
      badge := None;
      if window.None? {
        return;
      }
      var tab := FirstActive(window.value.tabs);
      if tab.None? {
        return;
      }
      var hostname := HostnameFromTab(tab.value);
      if window.value.focused {
        var hostnames := new Hostnames(stored);
        var seconds := hostnames.GetSecondsToday(hostname, now);
        badge := BadgeText(seconds);
      }
    }
  }
}
