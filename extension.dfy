/** The stored shape of the tracker's data: one record per hostname (src/global.d.ts). */
module Extension {

  datatype Option<+T> = None | Some(value: T) {
    /** The value, or `default` when there is none. */
    function GetOr(default: T): T {
      match this
      case Some(v) => v
      case None => default
    }
  }

  /** One stretch of time during which a hostname held the focused tab.
      Timestamps are milliseconds since the epoch; `end` is `None` while the
      session is still open (the source's `null`). */
  datatype Session = Session(start: int, end: Option<int>, name: string, url: string)

  /** What the tracker keeps per hostname. */
  datatype Record = Record(sessions: seq<Session>, badgeSeconds: int, isActive: bool, favIconUrl: string)

  /** The last session exists and has no end yet. */
  predicate LastOpen(sessions: seq<Session>) {
    |sessions| > 0 && sessions[|sessions| - 1].end.None?
  }
}
