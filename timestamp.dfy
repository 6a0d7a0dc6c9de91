/**
 * The request timestamp of the OKX v5 API: an instant rendered as
 * `YYYY-MM-DDTHH:MM:SS.mmmZ` (RFC 3339 section 5.6, UTC, millisecond
 * precision), taken from the exchange's time endpoint with the local clock as
 * the fallback. Instants are counted in microseconds since 1970-01-01T00:00Z,
 * which is what Python's `datetime` keeps.
 */
module Timestamp {
  import opened Optional
  import opened Decimal
  import opened CivilTime

  /** Days from 0001-01-01 to the Unix epoch. */
  const EPOCH_DAYS: nat := DaysBeforeYear(1970)

  /** A broken-down UTC `datetime`. */
  datatype DateTime = DateTime(year: int, month: int, day: int,
                               hour: int, minute: int, second: int, micro: int)
  {
    /** The values Python's `datetime` accepts: years 1 to 9999. */
    predicate Valid() {
      ValidDate(year, month, day) && year <= 9999
      && 0 <= hour < 24 && 0 <= minute < 60 && 0 <= second < 60
      && 0 <= micro < 1_000_000
    }
  }

  /** The instant a broken-down time denotes (`datetime.timestamp()` in microseconds). */
  function ToMicros(dt: DateTime): int
    requires dt.Valid()
  {
    ((Ordinal(dt.year, dt.month, dt.day) - EPOCH_DAYS) * 86_400
      + dt.hour * 3_600 + dt.minute * 60 + dt.second) * 1_000_000
      + dt.micro
  }

  /** Instants whose UTC date falls in years 1 to 9999; outside them `fromtimestamp` raises. */
  predicate InRange(us: int) {
    0 <= us / 86_400_000_000 + EPOCH_DAYS < DaysBeforeYear(10000)
  }

  /** `datetime.fromtimestamp(us / 10**6, tz=timezone.utc)`. */
  function FromMicros(us: int): (dt: DateTime)
    requires InRange(us)
    ensures dt.Valid() && ToMicros(dt) == us
  {
    var (y, m, d) := CivilFromOrdinal(us / 86_400_000_000 + EPOCH_DAYS);
    var t := us % 86_400_000_000;
    var secs := t / 1_000_000;
    Reassemble(us);
    DateTime(y, m, d, secs / 3_600, secs % 3_600 / 60, secs % 60, t % 1_000_000)
  }

  /** The day count, the clock fields and the microseconds of an instant add back up to it. */
  lemma Reassemble(us: int)
    ensures var t := us % 86_400_000_000;
            var secs := t / 1_000_000;
            0 <= secs / 3_600 < 24 && 0 <= secs % 3_600 / 60 < 60 && 0 <= secs % 60 < 60
            && 0 <= t % 1_000_000 < 1_000_000
            && ((us / 86_400_000_000) * 86_400 + secs / 3_600 * 3_600 + secs % 3_600 / 60 * 60 + secs % 60)
                 * 1_000_000 + t % 1_000_000 == us
  {
    var q := us / 86_400_000_000;
    var t := us % 86_400_000_000;
    var secs := t / 1_000_000;
    var mu := t % 1_000_000;
    var h := secs / 3_600;
    var r := secs % 3_600;
    assert us == q * 86_400_000_000 + t;
    assert t == secs * 1_000_000 + mu && 0 <= secs < 86_400;
    assert secs == h * 3_600 + r && r == r / 60 * 60 + r % 60;
    assert secs % 3_600 / 60 == r / 60 && secs % 60 == r % 60;
  }

  /** Every valid broken-down time is the rendering of exactly one instant. */
  lemma FromMicrosOfToMicros(dt: DateTime)
    requires dt.Valid()
    ensures InRange(ToMicros(dt)) && FromMicros(ToMicros(dt)) == dt
  {
    var us := ToMicros(dt);
    DayOfMicros(dt);
    OrdinalBelow10000(dt.year, dt.month, dt.day);
    CivilOfOrdinal(dt.year, dt.month, dt.day);
    assert CivilFromOrdinal(us / 86_400_000_000 + EPOCH_DAYS) == (dt.year, dt.month, dt.day);
  }

  lemma OrdinalBelow10000(y: int, m: int, d: int)
    requires ValidDate(y, m, d) && y <= 9999
    ensures Ordinal(y, m, d) < DaysBeforeYear(10000)
  {
    OrdinalInYear(y, m, d);
    if y < 9999 {
      YearsIncrease(y, 10000);
    }
  }

  /** The day number and the time of day that `ToMicros` combines can be read back. */
  lemma DayOfMicros(dt: DateTime)
    requires dt.Valid()
    ensures var us := ToMicros(dt);
            var t := us % 86_400_000_000;
            us / 86_400_000_000 + EPOCH_DAYS == Ordinal(dt.year, dt.month, dt.day)
            && t / 1_000_000 / 3_600 == dt.hour && t / 1_000_000 % 3_600 / 60 == dt.minute
            && t / 1_000_000 % 60 == dt.second && t % 1_000_000 == dt.micro
  {
    var n := Ordinal(dt.year, dt.month, dt.day);
    var t := (dt.hour * 3_600 + dt.minute * 60 + dt.second) * 1_000_000 + dt.micro;
    SplitClock(dt.hour, dt.minute, dt.second, dt.micro);
    SplitDay(ToMicros(dt), n - EPOCH_DAYS, t);
  }

  lemma SplitDay(us: int, days: int, t: int)
    requires 0 <= t < 86_400_000_000 && us == days * 86_400_000_000 + t
    ensures us / 86_400_000_000 == days && us % 86_400_000_000 == t
  {
  }

  lemma SplitClock(h: int, mi: int, s: int, mu: int)
    requires 0 <= h < 24 && 0 <= mi < 60 && 0 <= s < 60 && 0 <= mu < 1_000_000
    ensures var secs := h * 3_600 + mi * 60 + s;
            var t := secs * 1_000_000 + mu;
            0 <= t < 86_400_000_000 && t / 1_000_000 == secs && t % 1_000_000 == mu
            && secs / 3_600 == h && secs % 3_600 / 60 == mi && secs % 60 == s
  {
  }

  /** The millisecond digits of the time of day are those of the instant. */
  lemma MillisOfDay(us: int)
    ensures us % 86_400_000_000 % 1_000_000 / 1000 == us / 1000 % 1000
    ensures us % 86_400_000_000 % 1_000_000 % 1000 == us % 1000
  {
    var q := us / 86_400_000_000;
    var t := us % 86_400_000_000;
    var a := t / 1_000_000;
    var b := t % 1_000_000;
    var c := b / 1000;
    var e := b % 1000;
    assert t == a * 1_000_000 + c * 1000 + e;
    DivMod1000(us, q * 86_400_000 + a * 1000 + c, e);
    DivMod1000(us / 1000, q * 86_400 + a, c);
  }

  lemma DivMod1000(x: int, q: int, r: int)
    requires 0 <= r < 1000 && x == q * 1000 + r
    ensures x / 1000 == q && x % 1000 == r
  {
  }

  /** `dt.strftime("%Y-%m-%dT%H:%M:%S.%f")`. */
  function Strftime(dt: DateTime): (s: string)
    requires dt.Valid()
    // 26 characters, ending in the dot and the six-digit `%f` field.
    ensures |s| == 26 && s[19] == '.' && s[20..] == Pad(dt.micro, 6)
  {
    var head := Pad(dt.year, 4) + "-" + Pad(dt.month, 2) + "-" + Pad(dt.day, 2) + "T"
      + Pad(dt.hour, 2) + ":" + Pad(dt.minute, 2) + ":" + Pad(dt.second, 2) + ".";
    assert |head| == 20 && head[19] == '.';
    head + Pad(dt.micro, 6)
  }

  /** The form the exchange expects: the `%f` field cut to milliseconds and `Z` appended. */
  function RenderMillis(dt: DateTime): (s: string)
    requires dt.Valid()
    ensures |s| == 24
    ensures s == Pad(dt.year, 4) + "-" + Pad(dt.month, 2) + "-" + Pad(dt.day, 2) + "T"
                 + Pad(dt.hour, 2) + ":" + Pad(dt.minute, 2) + ":" + Pad(dt.second, 2) + "."
                 + Pad(dt.micro / 1000, 3) + "Z"
  {
    var full := Strftime(dt);
    MicrosPrefix(dt.micro);
    assert full[..23] == full[..20] + Pad(dt.micro, 6)[..3];
    full[..|full| - 3] + "Z"
  }

  /** The first three digits of a six-digit microsecond field are its milliseconds. */
  lemma MicrosPrefix(f: nat)
    requires f < 1_000_000
    ensures Pad(f, 6)[..3] == Pad(f / 1000, 3)
  {
    PadPrefix(f, 5, 3);
    PadPrefix(f / 10, 4, 3);
    PadPrefix(f / 100, 3, 3);
  }

  lemma PadPrefix(n: nat, w: nat, j: nat)
    requires n < Pow10(w + 1) && j <= w
    ensures n / 10 < Pow10(w) && Pad(n, w + 1)[..j] == Pad(n / 10, w)[..j]
  {
  }

  /** Where each field of a rendered timestamp sits. */
  lemma RenderFields(dt: DateTime)
    requires dt.Valid()
    ensures var s := RenderMillis(dt);
            s[4] == '-' && s[7] == '-' && s[10] == 'T' && s[13] == ':' && s[16] == ':'
            && s[19] == '.' && s[23] == 'Z'
            && s[0..4] == Pad(dt.year, 4) && s[5..7] == Pad(dt.month, 2)
            && s[8..10] == Pad(dt.day, 2) && s[11..13] == Pad(dt.hour, 2)
            && s[14..16] == Pad(dt.minute, 2) && s[17..19] == Pad(dt.second, 2)
            && s[20..23] == Pad(dt.micro / 1000, 3)
  {
    Layout(Pad(dt.year, 4), Pad(dt.month, 2), Pad(dt.day, 2),
           Pad(dt.hour, 2), Pad(dt.minute, 2), Pad(dt.second, 2), Pad(dt.micro / 1000, 3));
  }

  lemma Layout(y: string, mo: string, d: string, h: string, mi: string, sec: string, ms: string)
    requires |y| == 4 && |mo| == 2 && |d| == 2 && |h| == 2 && |mi| == 2 && |sec| == 2 && |ms| == 3
    ensures var s := y + "-" + mo + "-" + d + "T" + h + ":" + mi + ":" + sec + "." + ms + "Z";
            |s| == 24
            && s[4] == '-' && s[7] == '-' && s[10] == 'T' && s[13] == ':' && s[16] == ':'
            && s[19] == '.' && s[23] == 'Z'
            && s[0..4] == y && s[5..7] == mo && s[8..10] == d && s[11..13] == h
            && s[14..16] == mi && s[17..19] == sec && s[20..23] == ms
  {
    var s := y + "-" + mo + "-" + d + "T" + h + ":" + mi + ":" + sec + "." + ms + "Z";
    var date := y + "-" + mo + "-" + d;
    var clock := h + ":" + mi + ":" + sec + "." + ms + "Z";
    DateLayout(y, mo, d);
    ClockLayout(h, mi, sec, ms);
    assert s == date + "T" + clock;
    assert s[..10] == date && s[11..] == clock;
    assert s[0..4] == date[0..4] && s[5..7] == date[5..7] && s[8..10] == date[8..10];
    assert s[11..13] == clock[0..2] && s[14..16] == clock[3..5] && s[17..19] == clock[6..8];
    assert s[20..23] == clock[9..12];
  }

  lemma DateLayout(y: string, m: string, d: string)
    requires |y| == 4 && |m| == 2 && |d| == 2
    ensures var s := y + "-" + m + "-" + d;
            |s| == 10 && s[4] == '-' && s[7] == '-'
            && s[0..4] == y && s[5..7] == m && s[8..10] == d
  {
  }

  lemma ClockLayout(h: string, m: string, sec: string, ms: string)
    requires |h| == 2 && |m| == 2 && |sec| == 2 && |ms| == 3
    ensures var s := h + ":" + m + ":" + sec + "." + ms + "Z";
            |s| == 13 && s[2] == ':' && s[5] == ':' && s[8] == '.' && s[12] == 'Z'
            && s[0..2] == h && s[3..5] == m && s[6..8] == sec && s[9..12] == ms
  {
  }

  /** The timestamp string of instant `us`, truncated (not rounded) to the millisecond. */
  function IsoMillis(us: int): (s: string)
    requires InRange(us)
    ensures |s| == 24
  {
    RenderMillis(FromMicros(us))
  }

  /** The fixed layout of a timestamp, and its millisecond field. */
  lemma IsoLayout(us: int)
    requires InRange(us)
    ensures var s := IsoMillis(us);
            s[4] == '-' && s[7] == '-' && s[10] == 'T' && s[13] == ':' && s[16] == ':'
            && s[19] == '.' && s[23] == 'Z'
            && AllDigits(s[0..4]) && AllDigits(s[5..7]) && AllDigits(s[8..10])
            && AllDigits(s[11..13]) && AllDigits(s[14..16]) && AllDigits(s[17..19])
            && s[20..23] == Pad(us / 1000 % 1000, 3)
  {
    MillisOfDay(us);
    RenderFields(FromMicros(us));
  }

  predicate Shaped(s: string) {
    |s| == 24 && s[4] == '-' && s[7] == '-' && s[10] == 'T' && s[13] == ':'
    && s[16] == ':' && s[19] == '.' && s[23] == 'Z'
    && AllDigits(s[0..4]) && AllDigits(s[5..7]) && AllDigits(s[8..10])
    && AllDigits(s[11..13]) && AllDigits(s[14..16]) && AllDigits(s[17..19])
    && AllDigits(s[20..23])
  }

  /** The broken-down time a well-shaped timestamp string spells out. */
  function Fields(s: string): DateTime
    requires Shaped(s)
  {
    DateTime(Value(s[0..4]), Value(s[5..7]), Value(s[8..10]),
             Value(s[11..13]), Value(s[14..16]), Value(s[17..19]), Value(s[20..23]) * 1000)
  }

  /** What the exchange reads back from a timestamp: epoch milliseconds, or `None` if malformed. */
  function ParseIso(s: string): Option<int> {
    if Shaped(s) && Fields(s).Valid() then Some(ToMicros(Fields(s)) / 1000) else None
  }

  /** A rendered timestamp reads back as the instant, truncated to the millisecond. */
  lemma ParseOfIso(us: int)
    requires InRange(us)
    ensures ParseIso(IsoMillis(us)) == Some(us / 1000)
  {
    var dt := FromMicros(us);
    var s := IsoMillis(us);
    RenderFields(dt);
    ValueOfPad(dt.year, 4);
    ValueOfPad(dt.month, 2);
    ValueOfPad(dt.day, 2);
    ValueOfPad(dt.hour, 2);
    ValueOfPad(dt.minute, 2);
    ValueOfPad(dt.second, 2);
    ValueOfPad(dt.micro / 1000, 3);
    var back := Fields(s);
    assert back == dt.(micro := dt.micro / 1000 * 1000);
    TruncateMicros(dt);
  }

  /** Dropping the sub-millisecond digits of a time drops them from its instant. */
  lemma TruncateMicros(dt: DateTime)
    requires dt.Valid()
    ensures dt.(micro := dt.micro / 1000 * 1000).Valid()
    ensures ToMicros(dt.(micro := dt.micro / 1000 * 1000)) / 1000 == ToMicros(dt) / 1000
  {
    var secs := (Ordinal(dt.year, dt.month, dt.day) - EPOCH_DAYS) * 86_400
                + dt.hour * 3_600 + dt.minute * 60 + dt.second;
    assert ToMicros(dt) == secs * 1_000_000 + dt.micro;
    DivMod1000(ToMicros(dt), secs * 1000 + dt.micro / 1000, dt.micro % 1000);
    DivMod1000(secs * 1_000_000 + dt.micro / 1000 * 1000, secs * 1000 + dt.micro / 1000, 0);
  }

  /** Every timestamp the exchange accepts is the rendering of the instant it reads. */
  lemma IsoOfParse(s: string)
    requires ParseIso(s).Some?
    ensures InRange(ParseIso(s).value * 1000) && IsoMillis(ParseIso(s).value * 1000) == s
  {
    var dt := Fields(s);
    MillisOfFields(s);
    FromMicrosOfToMicros(dt);
    var r := RenderMillis(dt);
    assert IsoMillis(ParseIso(s).value * 1000) == r;
    ValuesOfRender(dt);
    SameFields(r, s);
  }

  /** The instant a parsed timestamp names is a whole number of milliseconds. */
  lemma MillisOfFields(s: string)
    requires ParseIso(s).Some?
    ensures ParseIso(s).value * 1000 == ToMicros(Fields(s))
  {
    var dt := Fields(s);
    var secs := (Ordinal(dt.year, dt.month, dt.day) - EPOCH_DAYS) * 86_400
                + dt.hour * 3_600 + dt.minute * 60 + dt.second;
    DivMod1000(ToMicros(dt), secs * 1000 + Value(s[20..23]), 0);
  }

  /** A rendered time is well shaped and its fields read back as the time's, to the millisecond. */
  lemma ValuesOfRender(dt: DateTime)
    requires dt.Valid()
    ensures var r := RenderMillis(dt);
            Shaped(r)
            && Value(r[0..4]) == dt.year && Value(r[5..7]) == dt.month && Value(r[8..10]) == dt.day
            && Value(r[11..13]) == dt.hour && Value(r[14..16]) == dt.minute
            && Value(r[17..19]) == dt.second && Value(r[20..23]) == dt.micro / 1000
  {
    RenderFields(dt);
    ValueOfPad(dt.year, 4);
    ValueOfPad(dt.month, 2);
    ValueOfPad(dt.day, 2);
    ValueOfPad(dt.hour, 2);
    ValueOfPad(dt.minute, 2);
    ValueOfPad(dt.second, 2);
    ValueOfPad(dt.micro / 1000, 3);
  }

  /** Two well-shaped timestamps that spell the same numbers are the same string. */
  lemma SameFields(r: string, s: string)
    requires Shaped(r) && Shaped(s)
    requires Value(r[0..4]) == Value(s[0..4]) && Value(r[5..7]) == Value(s[5..7])
    requires Value(r[8..10]) == Value(s[8..10]) && Value(r[11..13]) == Value(s[11..13])
    requires Value(r[14..16]) == Value(s[14..16]) && Value(r[17..19]) == Value(s[17..19])
    requires Value(r[20..23]) == Value(s[20..23])
    ensures r == s
  {
    SameDigits(r, s, 0, 4);
    SameDigits(r, s, 5, 7);
    SameDigits(r, s, 8, 10);
    SameDigits(r, s, 11, 13);
    SameDigits(r, s, 14, 16);
    SameDigits(r, s, 17, 19);
    SameDigits(r, s, 20, 23);
  }

  lemma SameDigits(r: string, s: string, i: nat, j: nat)
    requires i <= j <= |r| && j <= |s|
    requires AllDigits(r[i..j]) && AllDigits(s[i..j]) && Value(r[i..j]) == Value(s[i..j])
    ensures forall k :: i <= k < j ==> r[k] == s[k]
  {
    PadOfValue(r[i..j]);
    PadOfValue(s[i..j]);
    forall k | i <= k < j
      ensures r[k] == s[k]
    {
      assert r[k] == r[i..j][k - i] && s[k] == s[i..j][k - i];
    }
  }

  // ---------------------------------------------------------------------------
  // The exchange's clock
  // ---------------------------------------------------------------------------

  /** One element of the `data` array of `GET /api/v5/public/time`. */
  datatype TimeEntry = TimeEntry(ts: Option<string>)

  /** The decoded body of the time endpoint; `Unusable` when it is not a JSON object. */
  datatype TimeReply = Unusable | TimeReply(data: Option<seq<TimeEntry>>)

  /** Python's `int(s)` on an optional sign followed by ASCII digits. */
  function ParseInt(s: string): (r: Option<int>)
    // A string of digits denotes its decimal value, with an optional sign in front.
    ensures |s| > 0 && AllDigits(s) ==> r == Some(Value(s))
    ensures |s| > 1 && s[0] == '-' && AllDigits(s[1..]) ==> r == Some(-(Value(s[1..]) as int))
    ensures |s| > 1 && s[0] == '+' && AllDigits(s[1..]) ==> r == Some(Value(s[1..]))
    // Anything else raises.
    ensures r.Some? ==> |s| > 0 && (AllDigits(s) || ((s[0] == '-' || s[0] == '+') && AllDigits(s[1..])))
  {
    if |s| > 1 && s[0] == '-' && AllDigits(s[1..]) then Some(-(Value(s[1..]) as int))
    else if |s| > 1 && s[0] == '+' && AllDigits(s[1..]) then Some(Value(s[1..]))
    else if |s| > 0 && AllDigits(s) then Some(Value(s))
    else None
  }

  /** Rendering a count in decimal, with or without a minus sign, and parsing it gives the count back. */
  lemma ParseIntOfPad(n: nat, w: nat)
    requires 0 < w && n < Pow10(w)
    ensures ParseInt(Pad(n, w)) == Some(n)
    ensures ParseInt("-" + Pad(n, w)) == Some(-(n as int))
  {
    ValueOfPad(n, w);
    var neg := "-" + Pad(n, w);
    assert neg[1..] == Pad(n, w);
  }

  /** `int(r.json()["data"][0]["ts"])`; `None` wherever that expression raises. */
  function ServerMillis(r: TimeReply): (ms: Option<int>)
    // It raises exactly when the reply has no first `ts` entry or that entry is not an integer.
    ensures ms.Some? <==> r.TimeReply? && r.data.Some? && |r.data.value| > 0
                          && r.data.value[0].ts.Some? && ParseInt(r.data.value[0].ts.value).Some?
  {
    if r.TimeReply? && r.data.Some? && |r.data.value| > 0 && r.data.value[0].ts.Some?
    then ParseInt(r.data.value[0].ts.value)
    else None
  }

  /** A reply whose first `ts` is the decimal text of `n` milliseconds yields `n`. */
  lemma ServerMillisOfDigits(n: nat, w: nat, rest: seq<TimeEntry>)
    requires 0 < w && n < Pow10(w)
    ensures ServerMillis(TimeReply(Some([TimeEntry(Some(Pad(n, w)))] + rest))) == Some(n)
  {
    ParseIntOfPad(n, w);
  }

  /**
   * The timestamp used to sign a request: the exchange's time when its reply
   * yields an instant `fromtimestamp` accepts, otherwise the local clock
   * `clockUs` (every failure inside the `try` falls back to it). The time
   * request itself sits before the `try`; here it has returned `r`.
   */
  function ServerTimeIso(r: TimeReply, clockUs: int): (ts: string)
    requires InRange(clockUs)
    ensures |ts| == 24
  {
    match ServerMillis(r)
    case Some(ms) => if InRange(ms * 1000) then IsoMillis(ms * 1000) else IsoMillis(clockUs)
    case None => IsoMillis(clockUs)
  }

  /**
   * The exchange reads the signing timestamp back as its own millisecond
   * clock, or as the local clock truncated to milliseconds when the fallback
   * was taken; in the first case the millisecond field is `ts_ms mod 1000`.
   */
  lemma ServerTimeMeaning(r: TimeReply, clockUs: int)
    requires InRange(clockUs)
    ensures var ms := ServerMillis(r);
            ParseIso(ServerTimeIso(r, clockUs))
              == if ms.Some? && InRange(ms.value * 1000) then ms else Some(clockUs / 1000)
    ensures var ms := ServerMillis(r);
            (ms.Some? && InRange(ms.value * 1000))
              ==> ServerTimeIso(r, clockUs)[20..23] == Pad(ms.value % 1000, 3)
  {
    match ServerMillis(r)
    case Some(ms) =>
      if InRange(ms * 1000) {
        DivMod1000(ms * 1000, ms, 0);
        ParseOfIso(ms * 1000);
        IsoLayout(ms * 1000);
      } else {
        ParseOfIso(clockUs);
      }
    case None =>
      ParseOfIso(clockUs);
  }
}
