/**
 * The records the dashboard reads from the repository and events feeds,
 * and the time arithmetic it applies to their timestamps.
 *
 * Timestamps are integer milliseconds since the epoch. A calendar day is the
 * UTC day number of a timestamp, which is what keying a date by the first
 * half of its ISO-8601 string amounts to.
 */
module Records {

  datatype Option<T> = None | Some(value: T)

  /** The divisor `1000 * 60 * 60 * 24` used throughout the page. */
  const MsPerDay: int := 86400000

  /**
   * A repository record, reduced to the fields the page computes with.
   * An absent (null) description or language is the empty string: the page
   * tests both with JavaScript truthiness, under which null and "" agree.
   * An absent topic list is the empty list, which every use treats alike.
   */
  datatype Repo = Repo(
    name: string,
    description: string,
    language: string,
    stars: nat,
    size: nat,
    updatedAt: int,
    topics: seq<string>)

  /** An entry of the public events feed: its type tag and creation time. */
  datatype Event = Event(kind: string, createdAt: int)

  function Min(a: int, b: int): int { if a <= b then a else b }

  function Max(a: int, b: int): int { if a >= b then a else b }

  function Abs(a: int): nat { if a < 0 then -a else a }

  /** The UTC day number of a timestamp. */
  function Day(t: int): int { t / MsPerDay }

  /** Whole days elapsed from `earlier` to `later`, rounded down (negative for a future `earlier`). */
  function DaysSince(later: int, earlier: int): int { (later - earlier) / MsPerDay }

  /** The two sort keys of the repository list. */
  function UpdatedKey(r: Repo): int { r.updatedAt }

  function StarsKey(r: Repo): int { r.stars }
}
