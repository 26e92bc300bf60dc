/** The library calls at the edge of the core: Go's `time.Parse` and
    `Time.Format` with the RFC 3339 and RFC 1123 layouts, and the MD5 digest
    behind `hashString`. None of them is modelled; a run receives them as
    the fields of a `Library` value, and the lemmas hold for every choice. */
module Platform {
  import opened Wrappers

  /** A point in time, in nanoseconds since the Unix epoch (UTC). */
  type Instant = int

  const NanosPerSecond: int := 1_000_000_000

  /** The first instant of year 0000 and the first of year 10000: the
      instants whose RFC 3339 form has the four-digit year the layout
      `2006-01-02T15:04:05Z07:00` reads back. */
  const FirstFourDigitYear: Instant := -62_167_219_200 * NanosPerSecond
  const FirstFiveDigitYear: Instant := 253_402_300_800 * NanosPerSecond

  /** The instant truncated to its whole second: what survives a layout
      without fractional seconds. */
  function Sec(t: Instant): (r: Instant)
    ensures r <= t < r + NanosPerSecond
    ensures r % NanosPerSecond == 0
  {
    t - t % NanosPerSecond
  }

  datatype Library = Library(
    /** `time.Parse(time.RFC3339, s)`: section 5.6 of RFC 3339. */
    parseRFC3339: string -> Option<Instant>,
    /** `time.Parse(time.RFC1123Z, s)`: RFC 1123 dates with a numeric zone. */
    parseRFC1123Z: string -> Option<Instant>,
    /** `time.Parse(time.RFC1123, s)`: RFC 1123 dates with a named zone. */
    parseRFC1123: string -> Option<Instant>,
    /** `t.UTC().Format(time.RFC3339)`. */
    formatRFC3339: Instant -> string,
    /** `t.UTC().Format(time.RFC1123Z)`. */
    formatRFC1123Z: Instant -> string,
    /** `fmt.Sprintf("%x", md5.Sum([]byte(s)))`. */
    md5Hex: string -> string)
}
