/** The popup's own logic (src/pages/popup/Popup.tsx): the duration text
    `displaySeconds` and the list of hostnames shown for one date. */
module Popup {
  import opened Extension
  import opened Utils
  import Transform

  // ---- displaySeconds --------------------------------------------------------

  /** One entry of the `units` table: a name, a length in seconds and an
      optional short label. */
  datatype Unit = Unit(name: string, value: nat, display: Option<string>)

  const Units: seq<Unit> := [
    Unit("year", 31536000, None),
    Unit("month", 2592000, None),
    Unit("week", 604800, None),
    Unit("day", 86400, None),
    Unit("hour", 3600, Some("hr")),
    Unit("minute", 60, Some("min")),
    Unit("second", 1, Some("s"))
  ]

  /** The length of unit `i` in seconds. */
  function V(i: nat): (v: nat)
    requires i < |Units|
    ensures v >= 1
  {
    Units[i].value
  }

  /** The table's lengths, stated once for the proofs below. */
  lemma Values()
    ensures |Units| == 7
    ensures V(0) == 31536000 && V(1) == 2592000 && V(2) == 604800 && V(3) == 86400
    ensures V(4) == 3600 && V(5) == 60 && V(6) == 1
  {
  }

  /** `units[i].display ?? units[i].name[0]` */
  function Label(i: nat): (l: string)
    requires i < |Units|
    ensures |l| >= 1 && ' ' !in l
  {
    Units[i].display.GetOr([Units[i].name[0]])
  }

  /** A position in the `units` table. */
  type UnitIndex = i: nat | i < 7

  /** One emitted component: `count` of unit `unit`. */
  datatype Part = Part(count: nat, unit: UnitIndex)

  function PartText(p: Part): string
  {
    NatToString(p.count) + Label(p.unit)
  }

  /** The text the loop accumulates: each component followed by a space. */
  function Raw(parts: seq<Part>): string
  {
    if parts == [] then "" else Raw(parts[..|parts| - 1]) + PartText(parts[|parts| - 1]) + " "
  }

  /** The components separated by single spaces. */
  function Render(parts: seq<Part>): string
  {
    if parts == [] then ""
    else if |parts| == 1 then PartText(parts[0])
    else Render(parts[..|parts| - 1]) + " " + PartText(parts[|parts| - 1])
  }

  function TrimEnd(s: string): (t: string)
    ensures t <= s && (t == [] || t[|t| - 1] != ' ')
    ensures forall k :: |t| <= k < |s| ==> s[k] == ' '
  {
    if s != [] && s[|s| - 1] == ' ' then TrimEnd(s[..|s| - 1]) else s
  }

  function TrimStart(s: string): (t: string)
    ensures |t| <= |s| && t == s[|s| - |t|..] && (t == [] || t[0] != ' ')
    ensures forall k :: 0 <= k < |s| - |t| ==> s[k] == ' '
  {
    if s != [] && s[0] == ' ' then TrimStart(s[1..]) else s
  }

  /** `String.prototype.trim`, for the only white space the loop writes:
      the input with its outer spaces, and nothing else, removed. */
  function Trim(s: string): (t: string)
    ensures |t| <= |s|
    ensures t == [] || (t[0] != ' ' && t[|t| - 1] != ' ')
    ensures OuterSpacesOf(s, t)
  {
    var e := TrimEnd(s);
    var t := TrimStart(e);
    OuterSpaces(s, e, t);
    t
  }

  /** `t` is a slice of `s` with only spaces outside it. */
  predicate OuterSpacesOf(s: string, t: string)
  {
    exists i, j ::
      && 0 <= i <= j <= |s| && t == s[i..j]
      && (forall k :: 0 <= k < i ==> s[k] == ' ')
      && (forall k :: j <= k < |s| ==> s[k] == ' ')
  }

  /** Cutting trailing spaces and then leading ones leaves a slice of the
      input with only spaces outside it. */
  lemma OuterSpaces(s: string, e: string, t: string)
    requires e <= s && forall k :: |e| <= k < |s| ==> s[k] == ' '
    requires |t| <= |e| && t == e[|e| - |t|..]
    requires forall k :: 0 <= k < |e| - |t| ==> e[k] == ' '
    ensures OuterSpacesOf(s, t)
  {
    var i, j := |e| - |t|, |e|;
    assert t == s[i..j] by {
      assert e == s[..j];
    }
    forall k | 0 <= k < i
      ensures s[k] == ' '
    {
      assert s[k] == e[k];
    }
  }

  lemma PartTextShape(p: Part)
    ensures var t := PartText(p); |t| >= 2 && t[0] != ' ' && t[|t| - 1] != ' '
  {
    var d := NatToString(p.count);
    assert PartText(p)[0] == d[0];
  }

  /** Each component is followed by one space in the accumulated text. */
  lemma {:induction false} RawRender(parts: seq<Part>)
    requires parts != []
    ensures Raw(parts) == Render(parts) + " "
  {
    var init := parts[..|parts| - 1];
    var last := PartText(parts[|parts| - 1]);
    if |parts| > 1 {
      RawRender(init);
      assert Raw(parts) == Raw(init) + last + " ";
      assert Render(parts) == Render(init) + " " + last;
    } else {
      assert Raw(init) == "";
    }
  }

  /** The joined text starts and ends with a component, not a space. */
  lemma {:induction false} RenderEnds(parts: seq<Part>)
    requires parts != []
    ensures var r := Render(parts); r != [] && r[0] != ' ' && r[|r| - 1] != ' '
  {
    var last := PartText(parts[|parts| - 1]);
    PartTextShape(parts[|parts| - 1]);
    var r := Render(parts);
    if |parts| > 1 {
      var ri := Render(parts[..|parts| - 1]);
      RenderEnds(parts[..|parts| - 1]);
      assert r == ri + " " + last;
      assert r[0] == ri[0];
    }
    assert r[|r| - 1] == last[|last| - 1];
  }

  /** Trimming the accumulated text gives the components joined by spaces. */
  lemma TrimRaw(parts: seq<Part>)
    ensures Trim(Raw(parts)) == Render(parts)
  {
    if parts != [] {
      RawRender(parts);
      RenderEnds(parts);
      var r := Render(parts);
      var raw := r + " ";
      assert raw[|raw| - 1] == ' ' && raw[..|raw| - 1] == r;
      assert TrimEnd(raw) == TrimEnd(r) == r;
      assert TrimStart(r) == r;
      assert Trim(raw) == TrimStart(TrimEnd(raw));
    }
  }


  /** Whether the loop stops at a non-zero count, having used `used` slots:
      as written `unitsUsed === 2`, corrected `unitsUsed >= 2`. */
  predicate Full(asWritten: bool, used: nat) {
    if asWritten then used == 2 else used >= 2
  }

  /** The components the loop emits from unit `i` on, with `secs` seconds
      left and `used` slots used. */
  function Walk(asWritten: bool, i: nat, secs: nat, used: nat): (parts: seq<Part>)
    requires i <= |Units|
    ensures |parts| <= |Units| - i
    ensures forall k :: 0 <= k < |parts| ==> parts[k].count >= 1 && parts[k].unit >= i
    ensures forall k :: 0 <= k < |parts| - 1 ==> parts[k].unit < parts[k + 1].unit
    decreases |Units| - i
  {
    if i == |Units| then []
    else
      var count := secs / V(i);
      if count > 0 then
        if Full(asWritten, used) then []
        else [Part(count, i)] + Walk(asWritten, i + 1, secs % V(i), used + 1)
      else if used > 0 then Walk(asWritten, i + 1, secs, used + 1)
      else Walk(asWritten, i + 1, secs, used)
  }

  /** The first unit, from `i` on, that fits at least once into `n`. */
  function Lead(n: nat, i: nat): (l: nat)
    requires i <= |Units|
    ensures i <= l <= |Units|
    ensures l < |Units| ==> n / V(l) > 0
    ensures forall j :: i <= j < l ==> n / V(j) == 0
    decreases |Units| - i
  {
    if i == |Units| then |Units| else if n / V(i) > 0 then i else Lead(n, i + 1)
  }

  /** What `displaySeconds` evidently means to show: the largest unit that
      fits, then the next smaller unit if any of it is left over. */
  function Expected(n: nat): (ps: seq<Part>)
    ensures |ps| <= 2
    ensures |ps| == 2 ==> ps[1].unit == ps[0].unit + 1
    ensures forall k :: 0 <= k < |ps| ==> ps[k].count >= 1
  {
    var l := Lead(n, 0);
    if l == |Units| then []
    else
      var c := n / V(l);
      var r := n % V(l);
      if l + 1 < |Units| && r / V(l + 1) > 0 then [Part(c, l), Part(r / V(l + 1), l + 1)]
      else [Part(c, l)]
  }

  /** With both slots used, the corrected loop emits nothing more. */
  lemma {:induction false} WalkFull(i: nat, secs: nat, used: nat)
    requires i <= |Units| && used >= 2
    ensures Walk(false, i, secs, used) == []
    decreases |Units| - i
  {
    if i < |Units| && secs / V(i) == 0 {
      WalkFull(i + 1, secs, used + 1);
    }
  }

  /** Before any unit fits, the loop skips units without using a slot. */
  lemma {:induction false} WalkSkips(asWritten: bool, n: nat, i: nat, l: nat)
    requires i <= l <= |Units|
    requires forall j :: i <= j < l ==> n / V(j) == 0
    ensures Walk(asWritten, i, n, 0) == Walk(asWritten, l, n, 0)
    decreases l - i
  {
    if i < l {
      WalkSkipsUnit(asWritten, i, n, 0);
      WalkSkips(asWritten, n, i + 1, l);
    }
  }

  /** The corrected loop emits exactly the intended components. */
  lemma WalkCorrected(n: nat)
    ensures Walk(false, 0, n, 0) == Expected(n)
  {
    var l := Lead(n, 0);
    WalkSkips(false, n, 0, l);
    if l < |Units| {
      var c := n / V(l);
      var r := n % V(l);
      if l + 1 < |Units| {
        var c2 := r / V(l + 1);
        WalkFull(l + 2, r % V(l + 1), 2);
        WalkFull(l + 2, r, 2);
      }
    }
  }

  /** A unit fits at least once exactly when it is no longer than the time. */
  lemma Fits(n: nat, v: nat)
    requires v >= 1
    ensures n / v > 0 <==> v <= n
  {
    WholeUnits(n, v);
  }

  /** Intended properties: nothing for no time, otherwise at most two
      components; a second, if any, with the very next unit; and every count
      at least 1. */
  lemma ExpectedShape(n: nat)
    ensures var ps := Expected(n);
      && |ps| <= 2
      && (ps == [] <==> n == 0)
      && (|ps| == 2 ==> ps[1].unit == ps[0].unit + 1)
      && (forall k :: 0 <= k < |ps| ==> ps[k].count >= 1)
  {
    Values();
    if n == 0 {
      assert 0 / V(6) == 0;
    } else {
      assert n / V(6) > 0;
    }
  }

  /** The first component is in the largest unit that fits into the time:
      it fits, and no longer unit does. */
  lemma ExpectedLeads(n: nat)
    requires n > 0
    ensures var ps := Expected(n);
      && ps != [] && V(ps[0].unit) <= n
      && forall j :: 0 <= j < ps[0].unit ==> V(j) > n
  {
    ExpectedShape(n);
    var l := Lead(n, 0);
    Fits(n, V(l));
    forall j | 0 <= j < l
      ensures V(j) > n
    {
      Fits(n, V(j));
    }
  }

  /** The components never stand for more seconds than were given. */
  lemma ExpectedTotal(n: nat)
    ensures var ps := Expected(n); Total(ps) <= n
  {
    var ps := Expected(n);
    var l := Lead(n, 0);
    if l < |Units| {
      var v := V(l);
      var c := n / v;
      var r := n % v;
      WholeUnits(n, v);
      assert Total([Part(c, l)]) == c * v by {
        assert [Part(c, l)][..0] == [];
      }
      if |ps| == 2 {
        var w := V(l + 1);
        var c2 := r / w;
        assert ps == [Part(c, l), Part(c2, l + 1)];
        assert ps[..1] == [Part(c, l)];
        assert Total(ps) == c * v + c2 * w;
        WholeUnits(r, w);
      }
    }
  }

  /** The seconds the components stand for. */
  function Total(parts: seq<Part>): int
  {
    if parts == [] then 0 else Total(parts[..|parts| - 1]) + parts[|parts| - 1].count * V(parts[|parts| - 1].unit)
  }

  /** The total of components listed front first. */
  lemma {:induction false} TotalCons(p: Part, rest: seq<Part>)
    ensures Total([p] + rest) == p.count * V(p.unit) + Total(rest)
    decreases |rest|
  {
    if rest == [] {
      assert ([p] + rest)[..0] == [];
    } else {
      assert ([p] + rest)[..|rest|] == [p] + rest[..|rest| - 1];
      TotalCons(p, rest[..|rest| - 1]);
    }
  }

  /** Whatever the stopping check, the components the loop emits never stand
      for more seconds than it had left. */
  lemma {:induction false} WalkTotal(asWritten: bool, i: nat, secs: nat, used: nat)
    requires i <= |Units|
    ensures Total(Walk(asWritten, i, secs, used)) <= secs
    decreases |Units| - i
  {
    if i < |Units| {
      var v := V(i);
      var count := secs / v;
      if count > 0 && !Full(asWritten, used) {
        WholeUnits(secs, v);
        WalkTotal(asWritten, i + 1, secs % v, used + 1);
        TotalCons(Part(count, i), Walk(asWritten, i + 1, secs % v, used + 1));
      } else if count == 0 {
        WalkTotal(asWritten, i + 1, secs, if used > 0 then used + 1 else used);
      }
    }
  }

  /** Even as written, the first component is the intended one: the largest
      unit that fits, with its full count. */
  lemma AsWrittenLeads(n: nat)
    requires n > 0
    ensures var ps := Walk(true, 0, n, 0); ps != [] && ps[0] == Expected(n)[0]
  {
    Values();
    WalkSkips(true, n, 0, Lead(n, 0));
    ExpectedShape(n);
    assert n / V(6) > 0;
  }

  /** Under a minute, the text is the count of seconds and "s". */
  lemma UnderAMinute(n: nat)
    requires 1 <= n < 60
    ensures Render(Expected(n)) == NatToString(n) + "s"
  {
    Values();
    assert n / V(0) == 0 && n / V(1) == 0 && n / V(2) == 0 && n / V(3) == 0 && n / V(4) == 0 && n / V(5) == 0;
    assert Lead(n, 6) == 6;
  }

  lemma ZeroIsEmpty()
    ensures Render(Expected(0)) == ""
  {
    Values();
    assert Lead(0, 0) == |Units|;
  }

  /** As written, under a minute the text is also the seconds and "s". */
  lemma AsWrittenUnderAMinute(n: nat)
    requires 1 <= n < 60
    ensures Render(Walk(true, 0, n, 0)) == NatToString(n) + "s"
  {
    Values();
    assert n / V(0) == 0 && n / V(1) == 0 && n / V(2) == 0 && n / V(3) == 0 && n / V(4) == 0 && n / V(5) == 0;
    WalkSkips(true, n, 0, 6);
    assert Walk(true, 6, n, 0) == [Part(n, 6)];
    assert Lead(n, 6) == 6;
    UnderAMinute(n);
  }

  /** As written, no time also gives the empty text. */
  lemma AsWrittenZeroIsEmpty()
    ensures Render(Walk(true, 0, 0, 0)) == ""
  {
    Values();
    WalkSkips(true, 0, 0, |Units|);
  }

  /** `displaySeconds` as written (src/pages/popup/Popup.tsx:30-62). */
  method DisplaySecondsAsWritten(n: nat) returns (s: string)
    ensures s == Render(Walk(true, 0, n, 0))
  {
    s := Display(true, n);
  }

  /** `displaySeconds` with the slot check corrected to `unitsUsed >= 2`:
      it shows the intended components. */
  method DisplaySeconds(n: nat) returns (s: string)
    ensures s == Render(Expected(n))
  {
    s := Display(false, n);
    WalkCorrected(n);
  }

  /** A unit that does not fit is skipped, using a slot once one is used. */
  lemma WalkSkipsUnit(asWritten: bool, i: nat, secs: nat, used: nat)
    requires i < |Units| && secs / V(i) <= 0
    ensures Walk(asWritten, i, secs, used) == Walk(asWritten, i + 1, secs, if secs / V(i) == 0 && used > 0 then used + 1 else used)
    ensures secs / V(i) == 0
  {
    WholeUnits(secs, V(i));
  }

  /** Appending a component to the accumulated text. */
  lemma RawSnoc(parts: seq<Part>, part: Part)
    ensures Raw(parts) + NatToString(part.count) + Label(part.unit) + " " == Raw(parts + [part])
  {
    assert (parts + [part])[..|parts|] == parts;
  }

  lemma AppendAssoc(a: seq<Part>, b: seq<Part>, c: seq<Part>)
    ensures a + b + c == a + (b + c)
  {
  }

  /** Taking away the whole units leaves the remainder. */
  lemma WholeUnits(secs: nat, v: nat)
    requires v >= 1
    ensures secs / v >= 0 && (secs / v) * v + secs % v == secs
    ensures secs - (secs / v) * v == secs % v
  {
  }

  /** The components emitted so far, `acc`, followed by those the loop
      emits from unit `i` on: the loop's state after `i` units. */
  function WalkAfter(asWritten: bool, i: nat, secs: nat, used: nat, acc: seq<Part>): seq<Part>
    requires i <= |Units|
    decreases |Units| - i
  {
    if i == |Units| then acc
    else
      var count := secs / V(i);
      if count > 0 then
        if Full(asWritten, used) then acc
        else WalkAfter(asWritten, i + 1, secs % V(i), used + 1, acc + [Part(count, i)])
      else if used > 0 then WalkAfter(asWritten, i + 1, secs, used + 1, acc)
      else WalkAfter(asWritten, i + 1, secs, used, acc)
  }

  /** Carrying the emitted components along gives the same walk. */
  lemma {:induction false} WalkAfterIsWalk(asWritten: bool, i: nat, secs: nat, used: nat, acc: seq<Part>)
    requires i <= |Units|
    ensures WalkAfter(asWritten, i, secs, used, acc) == acc + Walk(asWritten, i, secs, used)
    decreases |Units| - i
  {
    if i == |Units| || (secs / V(i) > 0 && Full(asWritten, used)) {
      assert acc + [] == acc;
    } else if secs / V(i) > 0 {
      var p := Part(secs / V(i), i);
      var rest := Walk(asWritten, i + 1, secs % V(i), used + 1);
      WalkAfterIsWalk(asWritten, i + 1, secs % V(i), used + 1, acc + [p]);
      AppendAssoc(acc, [p], rest);
    } else if used > 0 {
      WalkAfterIsWalk(asWritten, i + 1, secs, used + 1, acc);
    } else {
      WalkAfterIsWalk(asWritten, i + 1, secs, used, acc);
    }
  }

  /** The loop of `displaySeconds` (src/pages/popup/Popup.tsx:44-61), with
      the slot check as written or corrected. */
  method Display(asWritten: bool, n: nat) returns (s: string)
    ensures s == Render(Walk(asWritten, 0, n, 0))
  {
    var result := "";
    var seconds: nat := n;
    var unitsUsed: nat := 0;
    ghost var parts: seq<Part> := [];
    var i := 0;
    while i < |Units|
      invariant 0 <= i <= |Units|
      invariant result == Raw(parts)
      invariant WalkAfter(asWritten, i, seconds, unitsUsed, parts) == WalkAfter(asWritten, 0, n, 0, [])
      decreases |Units| - i
    {
      var stop;
      stop, result, seconds, unitsUsed, parts := Step(asWritten, i, seconds, unitsUsed, result, parts);
      if stop {
        break;
      }
      i := i + 1;
    }
    WalkAfterIsWalk(asWritten, 0, n, 0, []);
    assert [] + Walk(asWritten, 0, n, 0) == Walk(asWritten, 0, n, 0);
    TrimRaw(parts);
    s := Trim(result);
  }

  /** One pass of the loop over unit `i`: it either stops the loop, or
      appends the unit's count and label and takes its whole units away, or
      skips the unit. Either way the loop's state describes the same walk. */
  method Step(asWritten: bool, i: nat, seconds: nat, unitsUsed: nat, result: string, ghost parts: seq<Part>)
    returns (stop: bool, result': string, seconds': nat, unitsUsed': nat, ghost parts': seq<Part>)
    requires i < |Units| && result == Raw(parts)
    ensures result' == Raw(parts')
    ensures WalkAfter(asWritten, i, seconds, unitsUsed, parts)
      == if stop then parts' else WalkAfter(asWritten, i + 1, seconds', unitsUsed', parts')
  {
    result', seconds', unitsUsed', parts' := result, seconds, unitsUsed, parts;
    stop := false;
    var unitValue := V(i);
    WholeUnits(seconds, unitValue);
    var count := seconds / unitValue;
    if count > 0 {
      if Full(asWritten, unitsUsed) {
        stop := true;
        return;
      }
      RawSnoc(parts, Part(count, i));
      result' := result + NatToString(count) + Label(i) + " ";
      parts' := parts + [Part(count, i)];
      // `seconds -= count * unitValue`: the remainder, by WholeUnits
      seconds' := seconds % unitValue;
      unitsUsed' := unitsUsed + 1;
    } else if count == 0 && unitsUsed > 0 {
      unitsUsed' := unitsUsed + 1;
    }
  }

  /** As written, a zero count after the first unit uses a slot only until
      the counter passes 2, and then later units are emitted again: one day
      and one second shows "1d 1s", where the intended text is "1d". */
  lemma AsWrittenShowsNonAdjacentUnits()
    ensures Walk(true, 0, 86401, 0) == [Part(1, 3), Part(1, 6)]
    ensures Expected(86401) == [Part(1, 3)]
  {
    Values();
    assert Walk(true, 6, 1, 3) == [Part(1, 6)] + Walk(true, 7, 0, 4);
    assert Walk(true, 5, 1, 2) == Walk(true, 6, 1, 3);
    assert Walk(true, 4, 1, 1) == Walk(true, 5, 1, 2);
    assert Walk(true, 3, 86401, 0) == [Part(1, 3)] + Walk(true, 4, 1, 1);
    assert Walk(true, 2, 86401, 0) == Walk(true, 3, 86401, 0);
    assert Walk(true, 1, 86401, 0) == Walk(true, 2, 86401, 0);
    assert Walk(true, 0, 86401, 0) == Walk(true, 1, 86401, 0);
    assert Lead(86401, 3) == 3;
    assert Lead(86401, 0) == 3;
  }

  /** As written, one year, day, hour, minute and second shows all five
      components. */
  lemma AsWrittenShowsFiveUnits()
    ensures |Walk(true, 0, 31626061, 0)| == 5
    ensures |Expected(31626061)| == 1
  {
    Values();
    assert Walk(true, 6, 1, 6) == [Part(1, 6)] + Walk(true, 7, 0, 7);
    assert Walk(true, 5, 61, 5) == [Part(1, 5)] + Walk(true, 6, 1, 6);
    assert Walk(true, 4, 3661, 4) == [Part(1, 4)] + Walk(true, 5, 61, 5);
    assert Walk(true, 3, 90061, 3) == [Part(1, 3)] + Walk(true, 4, 3661, 4);
    assert Walk(true, 2, 90061, 2) == Walk(true, 3, 90061, 3);
    assert Walk(true, 1, 90061, 1) == Walk(true, 2, 90061, 2);
    assert Walk(true, 0, 31626061, 0) == [Part(1, 0)] + Walk(true, 1, 90061, 1);
    assert Lead(31626061, 0) == 0;
    assert 90061 / V(1) == 0;
  }

  // ---- the list of hostnames for one date ------------------------------------

  /** One row of `hostnamesArrayToday`. */
  datatype TodayEntry = TodayEntry(name: string, favIconUrl: string, sessions: seq<Transform.Split>, totalMs: int)

  function EntryFor(names: map<string, Transform.HostDay>, hostnames: map<string, Record>, h: string): TodayEntry
    requires h in names && h in hostnames
  {
    TodayEntry(h, hostnames[h].favIconUrl, names[h].sessions, names[h].totalMs)
  }

  /** `list` has one entry per hostname in `keys`, built from that date's
      data, and no hostname twice. */
  predicate Lists(list: seq<TodayEntry>, names: map<string, Transform.HostDay>, hostnames: map<string, Record>, keys: set<string>)
    requires keys <= names.Keys && keys <= hostnames.Keys
  {
    && |list| == |keys|
    && (forall i :: 0 <= i < |list| ==> list[i].name in keys && list[i] == EntryFor(names, hostnames, list[i].name))
    && (forall h :: h in keys ==> exists i :: 0 <= i < |list| && list[i].name == h)
    && (forall i, j :: 0 <= i < j < |list| ==> list[i].name != list[j].name)
  }

  predicate SortedDesc(list: seq<TodayEntry>) {
    forall i, j :: 0 <= i < j < |list| ==> list[i].totalMs >= list[j].totalMs
  }

  /** Place `e` after every entry with at least its total (a stable insertion). */
  function Insert(e: TodayEntry, list: seq<TodayEntry>): seq<TodayEntry>
    decreases |list|
  {
    if list == [] then [e]
    else if list[0].totalMs >= e.totalMs then [list[0]] + Insert(e, list[1..])
    else [e] + list
  }

  lemma {:induction false} InsertPermutes(e: TodayEntry, list: seq<TodayEntry>)
    ensures multiset(Insert(e, list)) == multiset(list) + multiset{e}
    decreases |list|
  {
    if list != [] && list[0].totalMs >= e.totalMs {
      InsertPermutes(e, list[1..]);
      assert list == [list[0]] + list[1..];
    }
  }

  lemma {:induction false} InsertSorted(e: TodayEntry, list: seq<TodayEntry>)
    requires SortedDesc(list)
    ensures SortedDesc(Insert(e, list))
    decreases |list|
  {
    if list != [] && list[0].totalMs >= e.totalMs {
      var rest := Insert(e, list[1..]);
      InsertSorted(e, list[1..]);
      InsertPermutes(e, list[1..]);
      forall k | 0 <= k < |rest|
        ensures list[0].totalMs >= rest[k].totalMs
      {
        assert rest[k] in multiset(rest);
        if rest[k] != e {
          assert rest[k] in list[1..];
        }
      }
    }
  }

  lemma SplitLast<T>(s: seq<T>)
    requires s != []
    ensures s == s[..|s| - 1] + [s[|s| - 1]]
  {
  }

  /** `result.sort((a, b) => b.totalSeconds - a.totalSeconds)`: a stable
      sort by total, largest first. */
  function SortByTotal(list: seq<TodayEntry>): (r: seq<TodayEntry>)
    ensures SortedDesc(r) && multiset(r) == multiset(list)
    decreases |list|
  {
    if list == [] then []
    else
      var init := list[..|list| - 1];
      var sorted := SortByTotal(init);
      InsertSorted(list[|list| - 1], sorted);
      InsertPermutes(list[|list| - 1], sorted);
      SplitLast(list);
      Insert(list[|list| - 1], sorted)
  }

  /** Sorting keeps one entry per hostname. */
  lemma SortKeepsList(list: seq<TodayEntry>, names: map<string, Transform.HostDay>, hostnames: map<string, Record>, keys: set<string>)
    requires keys <= names.Keys && keys <= hostnames.Keys
    requires Lists(list, names, hostnames, keys)
    ensures Lists(SortByTotal(list), names, hostnames, keys)
  {
    var r := SortByTotal(list);
    assert |r| == |multiset(r)| == |multiset(list)| == |list|;
    forall i | 0 <= i < |r|
      ensures r[i].name in keys && r[i] == EntryFor(names, hostnames, r[i].name)
    {
      assert r[i] in multiset(list);
    }
    forall h | h in keys
      ensures exists i :: 0 <= i < |r| && r[i].name == h
    {
      var j :| 0 <= j < |list| && list[j].name == h;
      assert list[j] in multiset(r);
    }
    DistinctEntries(list, r);
  }

  /** A permutation of a list whose entries have distinct names holds no
      entry twice. */
  lemma DistinctEntries(list: seq<TodayEntry>, r: seq<TodayEntry>)
    requires multiset(r) == multiset(list)
    requires forall a, b :: 0 <= a < b < |list| ==> list[a].name != list[b].name
    ensures forall i, j :: 0 <= i < j < |r| ==> r[i] != r[j]
  {
    forall i, j | 0 <= i < j < |r|
      ensures r[i] != r[j]
    {
      if r[i] == r[j] {
        var e := r[i];
        assert r == r[..i] + [e] + r[i + 1..j] + [e] + r[j + 1..];
        assert multiset(r)[e] >= 2;
        MultiplicityDistinct(list, e);
        assert false;
      }
    }
  }

  /** In a list whose entries have distinct names, each entry occurs at most
      once. */
  lemma {:induction false} MultiplicityDistinct(list: seq<TodayEntry>, e: TodayEntry)
    requires forall a, b :: 0 <= a < b < |list| ==> list[a].name != list[b].name
    ensures multiset(list)[e] <= 1
    decreases |list|
  {
    if list != [] {
      var init := list[..|list| - 1];
      var last := list[|list| - 1];
      MultiplicityDistinct(init, e);
      SplitLast(list);
      assert last !in init by {
        forall a | 0 <= a < |init|
          ensures init[a] != last
        {
          assert list[a].name != list[|list| - 1].name;
        }
      }
    }
  }

  /** Pushing the row of a hostname not yet listed lists it as well. */
  lemma ListsGrow(list: seq<TodayEntry>, names: map<string, Transform.HostDay>, hostnames: map<string, Record>, keys: set<string>, h: string)
    requires keys <= names.Keys && keys <= hostnames.Keys && h in names && h in hostnames && h !in keys
    requires Lists(list, names, hostnames, keys)
    ensures Lists(list + [EntryFor(names, hostnames, h)], names, hostnames, keys + {h})
  {
    var list' := list + [EntryFor(names, hostnames, h)];
    assert |list'| == |keys + {h}|;
    forall i | 0 <= i < |list'|
      ensures list'[i].name in keys + {h} && list'[i] == EntryFor(names, hostnames, list'[i].name)
    {
      if i < |list| {
        assert list'[i] == list[i];
      }
    }
    forall k | k in keys + {h}
      ensures exists i :: 0 <= i < |list'| && list'[i].name == k
    {
      if k == h {
        assert list'[|list|].name == h;
      } else {
        var i :| 0 <= i < |list| && list[i].name == k;
        assert list'[i].name == k;
      }
    }
    forall i, j | 0 <= i < j < |list'|
      ensures list'[i].name != list'[j].name
    {
      assert list'[i] == list[i];
      if j < |list| {
        assert list'[j] == list[j];
      }
    }
  }

  /** Moving one hostname from the pending to the done set. */
  lemma MoveOne(pending: set<string>, done: set<string>, all: set<string>, h: string)
    requires pending !! done && pending + done == all && h in pending
    ensures pending - {h} !! done + {h} && (pending - {h}) + (done + {h}) == all
  {
  }

  /** The `hostnamesArrayToday` builder (src/pages/popup/Popup.tsx:320-338):
      for the date `day` of the transformed `data`, one row per hostname,
      largest total first. The record of every listed hostname is read
      without a guard. */
  method HostnamesArrayToday(data: map<int, Transform.DayUsage>, hostnames: map<string, Record>, day: int)
    returns (result: seq<TodayEntry>)
    requires day in data ==> data[day].hostnames.Keys <= hostnames.Keys
    ensures day !in data ==> result == []
    ensures day in data ==> Lists(result, data[day].hostnames, hostnames, data[day].hostnames.Keys)
    ensures SortedDesc(result)
  {
    if day !in data {
      return [];
    }
    var names := data[day].hostnames;
    result := [];
    var pending := names.Keys;
    ghost var done: set<string> := {};
    while pending != {}
      invariant pending !! done && pending + done == names.Keys
      invariant Lists(result, names, hostnames, done)
      decreases pending
    {
      var hostname :| hostname in pending;
      ListsGrow(result, names, hostnames, done, hostname);
      MoveOne(pending, done, names.Keys, hostname);
      result := result + [EntryFor(names, hostnames, hostname)];
      pending := pending - {hostname};
      done := done + {hostname};
    }
    SortKeepsList(result, names, hostnames, done);
    result := SortByTotal(result);
  }
}
