/** The small pure helpers of utils/index.ts: the badge text and the
    hostname of a tab, plus the decimal rendering JavaScript's template
    strings give a whole number. */
module Utils {
  import opened Extension

  /** Decimal digits of a natural number, most significant first, as
      JavaScript prints an integer-valued number. */
  function NatToString(n: nat): (s: string)
    ensures |s| >= 1
    ensures forall i :: 0 <= i < |s| ==> '0' <= s[i] <= '9'
    ensures |s| > 1 ==> s[0] != '0'
    decreases n
  {
    if n < 10 then [DigitChar(n)] else NatToString(n / 10) + [DigitChar(n % 10)]
  }

  function DigitChar(d: nat): (c: char)
    requires d < 10
    ensures '0' <= c <= '9'
    ensures c == '0' <==> d == 0
  {
    "0123456789"[d]
  }

  /** Reads a string of decimal digits back as a number. */
  function ParseNat(s: string): nat
    decreases |s|
  {
    if s == [] then 0
    else ParseNat(s[..|s| - 1]) * 10 + DigitValue(s[|s| - 1])
  }

  function DigitValue(c: char): nat {
    if '0' <= c <= '9' then (c as int) - ('0' as int) else 0
  }

  /** Printing a number in decimal and reading it back gives the number. */
  lemma {:induction false} ParseNatToString(n: nat)
    ensures ParseNat(NatToString(n)) == n
    decreases n
  {
    var s := NatToString(n);
    if n >= 10 {
      var d := NatToString(n / 10);
      ParseNatToString(n / 10);
      assert s == d + [DigitChar(n % 10)];
      assert s[..|s| - 1] == d;
    }
  }

  /** The badge text (utils/index.ts:13-20): whole seconds below a minute,
      whole minutes (rounded down) from a minute on. */
  function SecondsToText(seconds: nat): (r: string)
    ensures |r| >= 2
    ensures r[|r| - 1] == (if seconds < 60 then 's' else 'm')
    ensures r[..|r| - 1] == NatToString(if seconds < 60 then seconds else seconds / 60)
    ensures ParseNat(r[..|r| - 1]) == (if seconds < 60 then seconds else seconds / 60)
  {
    var count := if seconds < 60 then seconds else seconds / 60;
    var r := NatToString(count) + [if seconds < 60 then 's' else 'm'];
    assert r[..|r| - 1] == NatToString(count);
    ParseNatToString(count);
    r
  }

  /** What `new URL(url)` yields when it succeeds: its `hostname` and `href`.
      The URL parser itself is not part of this model. */
  datatype ParsedUrl = ParsedUrl(hostname: string, href: string)

  /** A browser tab as the handlers see it. `parsed` is the outcome of
      parsing `url` (`None` when the parser throws). */
  datatype Tab = Tab(title: string, url: string, favIconUrl: string, active: bool, parsed: Option<ParsedUrl>)

  /** The hostname a tab is tracked under (utils/index.ts:22-30): the parsed
      hostname, else the parsed href, else the raw url; the raw url when
      parsing fails. */
  function HostnameFromTab(tab: Tab): (h: string)
    ensures tab.parsed.None? ==> h == tab.url
    ensures tab.parsed.Some? && tab.parsed.value.hostname != "" ==> h == tab.parsed.value.hostname
    ensures tab.parsed.Some? && tab.parsed.value.hostname == "" && tab.parsed.value.href != "" ==> h == tab.parsed.value.href
    ensures tab.parsed.Some? && tab.parsed.value.hostname == "" && tab.parsed.value.href == "" ==> h == tab.url
    ensures h == "" ==> tab.url == ""
  {
    match tab.parsed
    case None => tab.url
    case Some(u) =>
      if u.hostname != "" then u.hostname
      else if u.href != "" then u.href
      else tab.url
  }
}
