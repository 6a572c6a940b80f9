# screen-time-chrome: the tracker and its usage arithmetic, in Dafny

This project models the core of the screen-time-chrome browser extension.
The extension records, per hostname, the stretches of time ("sessions") during
which one of its pages held the focused tab. It then sums them into usage
per calendar date: for the toolbar badge, the history page and the popup list.

The model has one module per concern:

- `Extension`: the stored shape, one `Record` per hostname with its list of
  `Session`s, badge seconds, active flag and icon (src/global.d.ts).
- `Clock`: the part of JavaScript's `Date` the code relies on, over integer
  milliseconds. A date key (`toLocaleDateString('en-CA')`) is the number of
  the local day, and `EndOfDay` is `setHours(23, 59, 59, 999)`.
- `Utils`: `secondsToText` and `getHostnameFromTab`.
- `Usage`: `getUsageByDay`. Each session is walked date by date from its
  start. Each step yields a `Piece`: the part of the session on the cursor's
  date. The pieces are added into the hostname's usage per date. The walk as
  the code writes it, with its cursor step, is the function
  `PiecesFromAsWritten`. The method `AddSessionUsage` is the source's
  in-place loop, proved equal to adding those pieces. The walk with the step
  corrected is `PiecesFrom`, and the usage it gives is `CorrectedUsageByDay`.
- `Transform`: `transformData`. It files each piece under its date and
  hostname as a split session, keeps the per-hostname and per-date totals,
  and sets each date's longest hostname total.
- `Background`: the background script. Class `Hostnames` is the map a
  handler loads and edits in place with the `data.hostname.*` helpers. Class
  `Tracker` holds the persisted state: the map and the two timestamps. Its
  methods are the heartbeat, the focus, activation and update handlers, the
  badge tick and start-up.
- `Popup`: `displaySeconds` and the list of one date's hostnames, largest
  total first.

The central invariant is `Tracker.Valid`:
- every record has a session;
- only its last session can be open;
- `isActive` says whether it is;
- at most one hostname is being timed.

Every handler keeps it. The heartbeat's sleep rule is proved as stated: after
a gap of at least `SLEEP_INTERVAL_MS`, every open session is closed at the last
heartbeat's time, not at the wake-up time (`Background.TickAfterSleep`).

In these places the model follows the code rather than the behaviour one
might expect from the extension's description:
- The heartbeat's date rollover (badges recomputed, date stamped, map
  saved) runs only once PREV_DATE_KEY has been stored. But `prevDate.get`
  reads an absent key as today, and only the rollover itself stores it. So
  from a fresh install it runs only if the clock reads at
  src/pages/background/index.ts:40 and :160 fall on either side of
  midnight. The model reads the clock once per handler, so there it never
  runs (`Background.Stamped`, `Background.Rolled`; see "## Findings"). Where a date is stored, the
  rollover runs even when `getLastFocused` then fails, and nothing after it
  does. The focus handler saves nothing when `getLastFocused` fails.
  Neither treats every hostname as inactive.
- `badge.setSeconds` calls `setBadgeText` only from a minute on. Below that
  it makes no call, so the tab keeps whatever badge text it showed before.
- `session.end` reads the last session without a guard, so it requires one.
- The date walk's cursor step loses time on a date, and the duration text
  shows more than two units for some inputs; see "## Findings". The usage
  map, the history page, the badges and the popup all use the walk as
  written.
- Pieces end at 23:59:59.999, so a session crossing midnight is counted
  one millisecond short per midnight (`Usage.PiecesFromCover`).

## Model

| member | source | states |
|---|---|---|
| Clock.DayKey | utils/index.ts:44 | the date key is the local day whose milliseconds contain the timestamp |
| Clock.EndOfDay | utils/index.ts:54-55 | `setHours(23, 59, 59, 999)` is on the same date, not before the time, and the next millisecond is the next date |
| Clock.DayBounds | utils/index.ts:54-55 | a timestamp lies between its date's midnight and 23:59:59.999, both on the same date |
| Clock.SameDay | utils/index.ts:59 | two timestamps have the same date key exactly when the second lies within the first's day |
| Clock.LaterDay | utils/index.ts:43-59 | a timestamp is on a later date exactly when it is past the end of the earlier one's day |
| Clock.NextDay | utils/index.ts:65 | `setDate(getDate() + 1)`, adding a whole day at the same time of day, moves to the next date |
| Clock.NextMidnight | utils/index.ts:54-55 | the millisecond after 23:59:59.999 is the next date's midnight |
| Utils.NatToString | utils/index.ts:15-18 | a whole number prints as a non-empty string of decimal digits with no leading zero |
| Utils.ParseNatToString | utils/index.ts:15-18 | reading the printed digits back gives the number (round trip) |
| Utils.SecondsToText | utils/index.ts:13-20 | the badge text is the printed seconds and "s" below a minute, otherwise the printed whole minutes (floor) and "m"; the digits read back as that number |
| Utils.HostnameFromTab | utils/index.ts:22-30 | the raw url when parsing throws; otherwise the hostname, else the href, else the raw url; with no hostname and no href it is the raw url; never empty unless the url is |
| Usage.EffectiveEnd | utils/index.ts:40 | a session's end is its stored end, or `now` while it is open |
| Usage.PiecesFrom | utils/index.ts:42-66 | the corrected walk yields nothing exactly when the cursor is past the end; its first piece is on the cursor's date, from the cursor or the start, whichever is later |
| Usage.PiecesFromAsWritten | utils/index.ts:42-66 | the walk as written yields nothing exactly when the cursor is past the end; its first piece is on the cursor's date, from the cursor or the start, whichever is later |
| Usage.PiecesFromShape | utils/index.ts:42-66 | the walk yields nothing exactly when the cursor is past the end; its pieces lie in [cursor, end], each within one date, strictly increasing in time and in date |
| Usage.PiecesFromSum | utils/index.ts:57-63 | the pieces from a cursor cover at most end - cursor milliseconds |
| Usage.PiecesFromCover | utils/index.ts:42-66 | the (corrected) walk yields one piece per date from the cursor's to the end's, in order, summing to the length less one millisecond per midnight crossed |
| Usage.PiecesFromAsWrittenShape | utils/index.ts:42-66 | the walk as written also yields pieces within [cursor, end], one date each, increasing in time and date |
| Usage.PiecesFromAsWrittenSum | utils/index.ts:57-65 | the walk as written also covers at most end - cursor milliseconds |
| Usage.AsWrittenLosesNextDay | utils/index.ts:65 | a session from 23:00 to 01:00 the next day: as written one piece (the second date gets nothing); corrected, one piece per date |
| Usage.AsWrittenUsageLosesNextDay | utils/index.ts:32-71 | for that session `getUsageByDay` as written gives only the first date's hour; the corrected usage gives each date its hour |
| Usage.ConsOrdered | utils/index.ts:43-65 | a piece ending before the next cursor, on an earlier date, keeps the walk's pieces ordered |
| Usage.SessionCover | utils/index.ts:39-66 | with the step corrected, a session's pieces are one per date from its start's date to its end's, summing to its length less one millisecond per midnight |
| Usage.SessionPiecesShape | utils/index.ts:39-66 | a session's pieces as written lie in [start, end], one date each, increasing; none exactly when it ends before it starts; together at most its length |
| Usage.SameDayPieces | utils/index.ts:57-61 | a session within one date is a single piece from its start to its end |
| Usage.OpenSessionPieces | utils/index.ts:40 | an open session is measured up to `now` |
| Usage.AddMs | utils/index.ts:46-63 | adding a duration to a date creates that date's entry and no other |
| Usage.AccumulateStep | utils/index.ts:46-63 | the three in-place updates of one loop turn add the piece's duration to the hostname's usage, its entry existing once it has a piece |
| Usage.AccumulateDay | utils/index.ts:46-63 | the three in-place updates on the whole result add the duration to the hostname's running usage and leave every other hostname alone |
| Usage.AddSessionUsage | utils/index.ts:39-66 | the in-place day loop over one session, with the cursor step as written, leaves the hostname's usage plus the session's pieces, other hostnames unchanged |
| Usage.SameDaySessionUsage | utils/index.ts:57-63 | a session within one date adds exactly end - start to that date |
| Usage.OpenSessionUsage | utils/index.ts:40-63 | an open session started earlier today adds now - start to today |
| Usage.BackwardsSessionUsage | utils/index.ts:43 | a session ending before it starts adds nothing and creates no entry |
| Usage.UsageByDay | utils/index.ts:32-71 | the usage map lists only stored hostnames |
| Usage.GetUsageByDay | utils/index.ts:32-71 | the in-place loops compute `UsageByDay`: per hostname with a piece, the sum of its sessions' pieces (as written) per date |
| Usage.CorrectedUsageByDay | utils/index.ts:32-71 | the usage with the cursor step corrected lists only stored hostnames |
| Transform.AddSplit | utils/index.ts:98-123 | filing a split creates that date's entry and no other |
| Transform.SumTotalsRemove | utils/index.ts:124 | a date's total is the same whichever hostname is counted first |
| Transform.SumTotalsInsert | utils/index.ts:124 | adding a hostname's entry adds its total to the date's total |
| Transform.LongestUnique | utils/index.ts:131-140 | the longest scan's outcome does not depend on the order it visits hostnames |
| Transform.Longest | utils/index.ts:134-139 | the scan leaves the largest of the initial value and every hostname's total, and it is one of them |
| Transform.MergeStep | utils/index.ts:98-124 | the in-place steps of one loop turn (create date, create hostname entry, push, add to both totals) file the split into the hostname's entries |
| Transform.FileIntoDay | utils/index.ts:98-124 | the same steps on one date's entry add the split to the hostname's entry and to the date's total |
| Transform.MergeUpdate | utils/index.ts:122-124 | changing one date of a hostname's entries changes only that date of the result |
| Transform.FileSplit | utils/index.ts:96-124 | one loop turn's in-place updates equal filing the split under its date and hostname |
| Transform.SplitDay | utils/index.ts:93-126 | one loop turn files the piece on the cursor's date and moves the cursor a whole day on; filing the rest of the walk from there gives what filing the walk from the old cursor would |
| Transform.SplitSession | utils/index.ts:90-127 | the in-place day loop over one session, with the cursor step as written, files every one of its pieces, as a split with its name, under its date |
| Transform.HostsOverGrows | utils/index.ts:87-129 | a new hostname adds its entry to exactly the dates on which it has a piece |
| Transform.BuiltGrows | utils/index.ts:87-129 | after each hostname the result lists exactly the hostnames seen so far per date, with the date's total their sum |
| Transform.FillLongest | utils/index.ts:131-140 | the second loop sets each date's longest to the largest hostname total, changing nothing else |
| Transform.TransformData | utils/index.ts:73-143 | a date has an entry exactly when some hostname has a piece on it; the entry lists exactly those hostnames, its total is their sum, its longest their maximum |
| Transform.SumSplitMsNonNegative | utils/index.ts:113-123 | splits that each lie within a date sum to a non-negative length |
| Transform.AddSplitOn | utils/index.ts:113-123 | filing a split within its date keeps every entry's splits on their date and its total their sum |
| Transform.SplitPiecesOn | utils/index.ts:109-123 | filing pieces that lie within their dates keeps every entry on its date |
| Transform.SplitSessionsOn | utils/index.ts:90-127 | filing whole sessions keeps every entry on its date |
| Transform.EntriesOnTheirDate | utils/index.ts:109-124 | every split listed under a date lies within it, and a hostname's total is the sum of its splits, never negative |
| Transform.SumTotalsAtLeast | utils/index.ts:124 | with non-negative totals, a date's total is at least any hostname's |
| Transform.SumTotalsNonNegative | utils/index.ts:124 | with non-negative totals, a date's total is non-negative |
| Transform.LongestWithinTotal | utils/index.ts:131-140 | a date's longest lies between 0 and the date's total |
| Transform.SplitPiecesAgree | utils/index.ts:63 | filing pieces as splits and adding them as usage give the same dates and totals |
| Transform.SplitSessionsAgree | utils/index.ts:63 | the same for whole sessions |
| Transform.TransformAgreesWithUsage | utils/index.ts:123 | the history page lists a hostname under a date exactly when getUsageByDay has usage for it there, with the same total |
| Background.WithFavIcon | src/pages/background/index.ts:88-92 | the first non-empty icon is kept; nothing else changes |
| Background.Started | src/pages/background/index.ts:111-121 | `session.start` leaves the last session open and the record active, appending one only when none is open |
| Background.Ended | src/pages/background/index.ts:122-128 | `session.end` closes the last session at `at` if open, keeps every other session and marks the record inactive |
| Background.StartIdempotent | src/pages/background/index.ts:111-121 | two starts in a row leave a single open session |
| Background.EndIdempotent | src/pages/background/index.ts:122-128 | ending twice is ending once, whatever the second end time |
| Background.FavIconSticky | src/pages/background/index.ts:89-91 | once a record has an icon, no later icon replaces it |
| Background.Created | src/pages/background/index.ts:78-87 | `create` adds a fresh record only for a new hostname and changes no existing record |
| Background.FavIconIn | src/pages/background/index.ts:88-92 | `setFavIconUrl` touches only that hostname's record and nothing for a missing one |
| Background.EndAllOf | src/pages/background/index.ts:129-137 | `endAll` ends every hostname outside the exclusions and leaves the excluded ones unchanged |
| Background.Visited | src/pages/background/index.ts:186-189 | the four steps add the hostname if new, start it and give it its icon, and end every other hostname at the last heartbeat time |
| Background.EndedWellFormed | src/pages/background/index.ts:122-128 | ending keeps every session but the last closed |
| Background.StartedWellFormed | src/pages/background/index.ts:111-121 | starting keeps every session but the last closed |
| Background.EndAllStopsAll | src/pages/background/index.ts:129-137 | ending all leaves nobody live and keeps the records well formed |
| Background.SleepClosesAtLastInterval | src/pages/background/index.ts:168-175 | waking from sleep closes an open session at the last heartbeat time and leaves closed ones and earlier ones as they were |
| Background.VisitLeavesOneLive | src/pages/background/index.ts:186-189 | after create, start, icon and end-others, the visited hostname is the only live one and is marked active |
| Background.VisitKeepsWellFormed | src/pages/background/index.ts:186-189 | the same four steps keep every record well formed |
| Background.VisitExtends | src/pages/background/index.ts:186-189 | when nobody is live, the four steps only append sessions |
| Background.EndAllExtends | src/pages/background/index.ts:179-181 | when nobody is live, ending all changes no session |
| Background.Round | src/pages/background/index.ts:55 | `Math.round(ms / 1000)` is the nearest whole second, halves rounded up |
| Background.TodaySeconds | src/pages/background/index.ts:54-56 | the badge seconds are the rounded usage of the date, or 0 without one |
| Background.SecondsToday | src/pages/background/index.ts:68-74 | `getSecondsToday` is today's rounded usage of the hostname, or 0 |
| Background.SecondsTodayOneOpenSession | src/pages/background/index.ts:68-74 | a hostname timed by one session opened earlier today shows the rounded seconds since it opened |
| Background.AsWrittenBadgeMissesToday | src/pages/background/index.ts:68-74 | a page open since 23:00 shows 0 seconds today at 01:00, where the corrected walk gives 3600 |
| Background.WithTodayBadges | src/pages/background/index.ts:49-58 | the badge update sets every hostname with usage to today's rounded seconds and changes nothing else |
| Background.BadgeText | src/pages/background/index.ts:147-151 | `setBadgeText` is called exactly from a minute on, with the `secondsToText` text; below that there is no call and the tab's earlier badge text stays |
| Background.BadgesKeepWellFormed | src/pages/background/index.ts:49-58 | the badge update keeps the invariant and every session |
| Background.FirstActive | src/pages/background/index.ts:183 | `tabs.find(tab => tab.active)`: none exactly when no tab is active, else the first active one |
| Background.Hostnames.Exists | src/pages/background/index.ts:75-77 | a hostname exists exactly when the map has a record for it |
| Background.Hostnames.IsActive | src/pages/background/index.ts:93-95 | reads the record's `isActive` flag |
| Background.Hostnames.HasActive | src/pages/background/index.ts:138-141 | a hostname has an active session exactly when its last session is open |
| Background.Hostnames.constructor | src/pages/background/index.ts:59-63 | a handler starts from the stored map |
| Background.Hostnames.Create | src/pages/background/index.ts:78-87 | the map becomes `Created` of the old one |
| Background.Hostnames.SetFavIconUrl | src/pages/background/index.ts:88-92 | the map becomes `FavIconIn` of the old one |
| Background.Hostnames.SetActive | src/pages/background/index.ts:96-98 | only that record's `isActive` becomes true |
| Background.Hostnames.SetInactive | src/pages/background/index.ts:99-101 | only that record's `isActive` becomes false |
| Background.Hostnames.SetBadgeSeconds | src/pages/background/index.ts:103-105 | only that record's badge seconds change, to the value given |
| Background.Hostnames.IncrementBadgeSeconds | src/pages/background/index.ts:106-108 | only that record's badge seconds grow by one |
| Background.Hostnames.Start | src/pages/background/index.ts:111-121 | the record becomes `Started` of the old one |
| Background.Hostnames.End | src/pages/background/index.ts:122-128 | the record becomes `Ended` of the old one |
| Background.Hostnames.EndAll | src/pages/background/index.ts:129-137 | the loop over the hostnames leaves `EndAllOf` of the old map |
| Background.Hostnames.Visit | src/pages/background/index.ts:186-189 | create, start, icon, end-others leave `Visited` of the old map |
| Background.Hostnames.GetSecondsToday | src/pages/background/index.ts:68-74 | returns `SecondsToday` of the map |
| Background.Hostnames.UpdateBadgeSecondsToday | src/pages/background/index.ts:49-58 | the loop over the usage leaves `WithTodayBadges` of the old map |
| Background.Slept | src/pages/background/index.ts:168-175 | the map after the sleep check stays well formed |
| Background.TickKeepsInvariant | src/pages/background/index.ts:165-192 | a heartbeat keeps the invariant; an unfocused window leaves nobody timed, a focused one only the active tab's hostname |
| Background.TickAfterSleep | src/pages/background/index.ts:168-192 | after a sleep every session open at the last heartbeat is closed at that time, and the rest of the heartbeat keeps that end |
| Background.Rolled | src/pages/background/index.ts:157-164 | the rollover leaves the map alone when no date is stored or the stored date is today |
| Background.RolledKeepsSessions | src/pages/background/index.ts:160-164 | the day-rollover badge update changes no session |
| Background.Tracker.constructor | src/pages/background/index.ts:15-43 | the initial state is valid, with no map and no timestamps |
| Background.Tracker.Startup | src/pages/background/index.ts:295-299 | start-up recomputes today's badges, keeping the invariant |
| Background.Stamped | src/pages/background/index.ts:157-164 | PREV_DATE_KEY after the check (an absent key reading as today, lines 30-41): absent exactly when it was absent before (with one clock reading per heartbeat); it changes only to `now`, and only when the stored date is on another date |
| Background.RolledCorrected | src/pages/background/index.ts:157-164 | the corrected check treats an absent date as a new date and recomputes the badges; with a stored date it is the check as written |
| Background.StampedCorrected | src/pages/background/index.ts:159-163 | after the corrected check the stored date is always on today's date, and with a stored date it is the stamp as written |
| Background.CorrectedRollsOverNextDate | src/pages/background/index.ts:157-164 | corrected, a fresh install stamps the date on its first heartbeat, and the first heartbeat of a later date recomputes the badges |
| Background.AsWrittenKeepsYesterdaysBadge | src/pages/background/index.ts:30-41 | as written, a fresh install keeps an hour's 3600 badge seconds on the next date; corrected they are reset to 0 |
| Background.Tracker.RollOver | src/pages/background/index.ts:157-164 | when a stored date lies on another date, the badges are recomputed and the date is stamped; otherwise nothing changes; from a fresh install (no date stored) that is always the case under the one clock reading, and in the source it runs only if the reads at :40 and :160 straddle midnight |
| Background.Tracker.Heartbeat | src/pages/background/index.ts:156-197 | one tick keeps the invariant, rolls the date over, and when a window is found sleeps, visits or ends all and stamps the time, as `Rolled`, `Slept` and `AfterTick` say |
| Background.Tracker.Tick | src/pages/background/index.ts:166-193 | the tick once the window is known: the sleep check, then end-all or visit, then the stamp; a focused window with no active tab stops after the sleep check |
| Background.Tracker.OnFocusChanged | src/pages/background/index.ts:216-240 | no window or an unfocused one ends every hostname at the last heartbeat time, leaving nobody timed; a focused one with an active tab visits it; a failed lookup changes nothing |
| Background.Tracker.OnActivated | src/pages/background/index.ts:242-258 | the activated tab's hostname is visited and its badge set from today's seconds; the invariant is kept |
| Background.Tracker.OnUpdated | src/pages/background/index.ts:260-277 | only a completed load of the active tab visits its hostname and sets its badge; anything else changes nothing |
| Background.Tracker.BadgeTick | src/pages/background/index.ts:199-214 | the minute tick sets the badge text of the focused window's active tab from today's seconds (no call below a minute); with no window, no active tab or an unfocused window it makes no call |
| Popup.Label | src/pages/popup/Popup.tsx:53 | a unit's label is non-empty and holds no space |
| Popup.TrimEnd | src/pages/popup/Popup.tsx:61 | trimming the end leaves a prefix not ending in a space, and removes only spaces |
| Popup.TrimStart | src/pages/popup/Popup.tsx:61 | trimming the start leaves a suffix not starting with a space, and removes only spaces |
| Popup.Trim | src/pages/popup/Popup.tsx:61 | `trim()` leaves a slice of the input, with only spaces outside it, that neither starts nor ends with a space |
| Popup.PartTextShape | src/pages/popup/Popup.tsx:53 | a component's text is at least two characters and neither starts nor ends with a space |
| Popup.RawRender | src/pages/popup/Popup.tsx:53 | the accumulated text is the components joined by spaces, plus a trailing space |
| Popup.RenderEnds | src/pages/popup/Popup.tsx:53-61 | the joined components neither start nor end with a space |
| Popup.TrimRaw | src/pages/popup/Popup.tsx:61 | trimming the accumulated text gives the components joined by single spaces |
| Popup.Walk | src/pages/popup/Popup.tsx:44-58 | the loop from unit `i` emits at most one component per remaining unit, each with a count of at least 1, in unit `i` or later, units strictly shrinking |
| Popup.Expected | src/pages/popup/Popup.tsx:30-62 | the intended components: at most two, the second in the very next unit, every count at least 1 |
| Popup.Lead | src/pages/popup/Popup.tsx:44-48 | the first unit from `i` on whose count is positive; none before it fits |
| Popup.WalkFull | src/pages/popup/Popup.tsx:49-51 | with the check corrected, once two slots are used nothing more is emitted |
| Popup.WalkSkips | src/pages/popup/Popup.tsx:56-58 | before any unit fits, units are skipped without using a slot |
| Popup.WalkSkipsUnit | src/pages/popup/Popup.tsx:46-58 | a unit that does not fit is skipped, using a slot once one is used |
| Popup.WalkCorrected | src/pages/popup/Popup.tsx:44-61 | the corrected loop emits exactly the intended components |
| Popup.Fits | src/pages/popup/Popup.tsx:46-48 | a unit's count is positive exactly when the unit is no longer than the time |
| Popup.ExpectedShape | src/pages/popup/Popup.tsx:30-62 | the intended text has at most two components, none for no time, the second in the very next unit, every count at least 1 |
| Popup.ExpectedLeads | src/pages/popup/Popup.tsx:31-48 | the first component is in the largest unit that fits into the time |
| Popup.ExpectedTotal | src/pages/popup/Popup.tsx:54 | the components never stand for more seconds than given |
| Popup.TotalCons | src/pages/popup/Popup.tsx:54 | the seconds components stand for add up front first too |
| Popup.WalkTotal | src/pages/popup/Popup.tsx:44-58 | with either stopping check, the components never stand for more seconds than the loop had |
| Popup.AsWrittenLeads | src/pages/popup/Popup.tsx:44-54 | even as written, the first component is the largest unit that fits, with its full count |
| Popup.AsWrittenUnderAMinute | src/pages/popup/Popup.tsx:30-62 | as written, under a minute the text is the seconds and "s" |
| Popup.AsWrittenZeroIsEmpty | src/pages/popup/Popup.tsx:41-61 | as written, no time gives the empty text |
| Popup.UnderAMinute | src/pages/popup/Popup.tsx:30-62 | under a minute the text is the seconds and "s" |
| Popup.ZeroIsEmpty | src/pages/popup/Popup.tsx:41-61 | no time gives the empty text |
| Popup.WalkAfterIsWalk | src/pages/popup/Popup.tsx:44-61 | carrying the emitted components along the loop gives the same walk |
| Popup.Step | src/pages/popup/Popup.tsx:45-58 | one pass of the loop stops, or appends the unit's count and label and keeps the remainder, or skips the unit; the state still describes the same walk |
| Popup.Display | src/pages/popup/Popup.tsx:41-61 | the loop and the final trim give the walk's components joined by single spaces |
| Popup.DisplaySecondsAsWritten | src/pages/popup/Popup.tsx:30-62 | `displaySeconds` as written renders the walk with the `unitsUsed === 2` check; that walk still gives "" for 0 and the seconds under a minute, leads with the largest unit, shrinks its units and stays within the time (`AsWrittenZeroIsEmpty`, `AsWrittenUnderAMinute`, `AsWrittenLeads`, `Walk`, `WalkTotal`) |
| Popup.DisplaySeconds | src/pages/popup/Popup.tsx:30-62 | `displaySeconds` with the check corrected renders the intended components |
| Popup.AsWrittenShowsNonAdjacentUnits | src/pages/popup/Popup.tsx:49-51 | as written 86401 seconds gives "1d 1s"; intended "1d" |
| Popup.AsWrittenShowsFiveUnits | src/pages/popup/Popup.tsx:49-51 | as written 31626061 seconds gives five components; intended one |
| Popup.InsertPermutes | src/pages/popup/Popup.tsx:334-336 | inserting an entry adds exactly that entry |
| Popup.InsertSorted | src/pages/popup/Popup.tsx:334-336 | inserting into a list sorted by total, largest first, keeps it sorted |
| Popup.SortByTotal | src/pages/popup/Popup.tsx:334-336 | the sort returns a permutation of the list, largest total first |
| Popup.SortKeepsList | src/pages/popup/Popup.tsx:334-336 | sorting keeps exactly one row per hostname |
| Popup.DistinctEntries | src/pages/popup/Popup.tsx:326-336 | a permutation of rows with distinct names repeats no row |
| Popup.MultiplicityDistinct | src/pages/popup/Popup.tsx:326-333 | rows with distinct names occur at most once each |
| Popup.ListsGrow | src/pages/popup/Popup.tsx:326-333 | pushing the row of a hostname not yet listed lists it too, built from that date's data and its icon |
| Popup.HostnamesArrayToday | src/pages/popup/Popup.tsx:320-338 | no date entry gives the empty list; otherwise exactly one row per hostname of that date, with its icon, sessions and total, largest total first |

## Left out

- Chrome's storage, windows, tabs and action APIs are not modelled. The
  stored map and timestamps are `Tracker` fields. What `getLastFocused` or
  `tabs.get` returns is a parameter: `None` when the promise rejects. The
  `setBadgeText` call a handler makes is a return value: `None` means no
  call, which leaves the tab's earlier badge text in place.
- The badge colour listener (src/pages/background/index.ts:279-293) and the
  console logging are left out. They only forward settings to the browser or
  print.
- Concurrency is left out. Each handler runs to completion; interleaved
  awaits of two handlers are not modelled.
- JSON serialisation of the map and the ISO strings of timestamps are left
  out. Timestamps are integer milliseconds.
- Each handler reads the clock once, as its `now` parameter. The source
  calls `new Date()` at every use: in the heartbeat at
  src/pages/background/index.ts:40, :160, :162, :168 and :192, in
  `getSecondsToday` and `updateBadgeSecondsToday` (:50, :69), in `start`
  (:114), and in `getUsageByDay` once per open session
  (utils/index.ts:40). Reads that straddle midnight or a sleep threshold
  are not modelled. `Background.Stamped` is one such case: with two
  readings, a fresh install stores PREV_DATE_KEY if the reads at :40 and
  :160 fall on either side of midnight.
- The local time zone is UTC (`LocalOffsetMs` is 0), without daylight
  saving. A day is always 86400000 ms.
- The URL parser (`new URL`) is not part of this model. Its outcome is part
  of the `Tab` value.
- `SLEEP_INTERVAL_MS` and `UPDATE_SECONDS_INTERVAL_MS` live in
  utils/constants, which is not part of this model. The sleep interval is a
  constructor parameter, and each heartbeat is one call.
- Durations are whole milliseconds. The source divides them by 1000 into
  fractional seconds, and `Background.Round` rounds milliseconds to seconds
  exactly as `Math.round(ms / 1000)`.
- Popup.DisplaySeconds: takes whole seconds, where the popup passes
  fractional totals. Every count the source computes is a floor, and
  floor(x / v) == floor(floor(x) / v) for a whole unit v, so a fractional
  total shows the same text as its floor; the model takes that floor.
- Popup.Step: `seconds -= count * unitValue` is modelled as the remainder
  `seconds % unitValue`. The two are equal for whole seconds (`WholeUnits`).
- Popup.SortByTotal: `Array.prototype.sort` is a library call. It is
  modelled as a stable insertion sort on a sequence, not in place.
- Object key order (`for ... in`) is modelled as an arbitrary choice (`:|`).
  Every result is proved for any order.
- Usage.GetUsageByDay, Transform.TransformData and the badges use the
  cursor step as written (`Usage.PiecesFromAsWritten`), so they keep the
  lost time of "## Findings"; the corrected usage is
  `Usage.CorrectedUsageByDay`, which no handler uses.
- The rest of the popup (timeline, date navigation, settings panel, names
  map) and the content script are presentation. They are not modelled.

## Findings

| source | as written | input that shows it | evidently intended | confidence | as-written member | corrected member |
|---|---|---|---|---|---|---|
| src/pages/popup/Popup.tsx:49-51 | the loop stops only when `unitsUsed === 2`; a zero count after the first unit still increments the counter, so it passes 2 and later units are emitted again | 86401 s gives "1d 1s"; 31626061 s gives "1y 1d 1hr 1min 1s" | at most two adjacent units: stop once two slots are used (`unitsUsed >= 2`) | not executed | Popup.DisplaySecondsAsWritten, Popup.AsWrittenShowsNonAdjacentUnits | Popup.DisplaySeconds, Popup.WalkCorrected |
| utils/index.ts:65 and utils/index.ts:126 | the cursor moves with `setDate(endOfDay.getDate() + 1)`, keeping the start's time of day, so a later date whose overlap ends before that time gets nothing | a session from 23:00 to 01:00 the next day gives the second date nothing (one hour lost) | the cursor moves to the next date's midnight, giving each date its overlap | not executed | Usage.PiecesFromAsWritten, Usage.AsWrittenLosesNextDay, Usage.AsWrittenUsageLosesNextDay, Background.AsWrittenBadgeMissesToday | Usage.PiecesFrom, Usage.PiecesFromCover, Usage.SessionCover, Usage.CorrectedUsageByDay |
| src/pages/background/index.ts:34-41 and src/pages/background/index.ts:159-163 | `prevDate.get` returns `new Date()` when PREV_DATE_KEY is absent, and only the rollover branch stores it, so on a fresh install the date compared is today and the rollover runs only if the clock reads at :40 and :160 straddle midnight (never, with one reading per heartbeat) | a fresh install used for an hour on one date keeps 3600 badge seconds at the first heartbeat of the next date | an absent date counts as a new date: the first heartbeat recomputes the badges and stores the date, and each later date rolls over | not executed | Background.Rolled, Background.Stamped, Background.AsWrittenKeepsYesterdaysBadge | Background.RolledCorrected, Background.StampedCorrected, Background.CorrectedRollsOverNextDate |
