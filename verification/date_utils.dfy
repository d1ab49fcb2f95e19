/**
  Date helpers of the event pages: whether a moment is past, and the
  relative description of a moment ("3 days ago", "in 2 hours", "just now").
  Moments and the current time are integer milliseconds since the epoch;
  the current time is a parameter.
 */
module DateUtils {
  import opened JsMath

  // Time units in seconds.
  const Minute: int := 60
  const Hour: int := Minute * 60
  const Day: int := Hour * 24
  const Week: int := Day * 7
  const Month: int := Day * 30
  const Year: int := Day * 365

  /** The units, shortest first, and their names. */
  const Units: seq<int> := [Minute, Hour, Day, Week, Month, Year]
  const UnitNames: seq<string> := ["minute", "hour", "day", "week", "month", "year"]

  /** `isDatePast`: the moment lies strictly before now. */
  function IsDatePast(date: int, now: int): (past: bool)
    ensures past <==> DiffInSeconds(date, now) < 0
  {
    date < now
  }

  /**
    `Math.floor((date - now) / 1000)`: the whole seconds from now to `date`,
    rounded toward minus infinity.
   */
  function DiffInSeconds(date: int, now: int): (d: int)
    ensures d * 1000 <= date - now < d * 1000 + 1000
  {
    (date - now) / 1000
  }

  // ---------------------------------------------------------------------
  // Decimal rendering of a count, as a template literal prints it
  // ---------------------------------------------------------------------

  predicate AllDigits(s: string) {
    forall i :: 0 <= i < |s| ==> '0' <= s[i] <= '9'
  }

  function DigitChar(d: nat): (c: char)
    requires d < 10
    ensures '0' <= c <= '9'
  {
    ('0' as int + d) as char
  }

  function NatToString(n: nat): (s: string)
    ensures |s| >= 1 && AllDigits(s)
    ensures |s| > 1 ==> s[0] != '0'
  {
    if n < 10 then [DigitChar(n)] else NatToString(n / 10) + [DigitChar(n % 10)]
  }

  /** The number a string of decimal digits denotes. */
  function DigitsValue(s: string): nat
    requires AllDigits(s)
  {
    if s == [] then 0
    else 10 * DigitsValue(s[..|s| - 1]) + (s[|s| - 1] as int - '0' as int)
  }

  /** The printed count reads back as the count. */
  lemma {:induction false} NatToStringRoundTrip(n: nat)
    ensures DigitsValue(NatToString(n)) == n
  {
    if n >= 10 {
      NatToStringRoundTrip(n / 10);
      var s := NatToString(n);
      assert s[..|s| - 1] == NatToString(n / 10);
    }
  }

  // ---------------------------------------------------------------------
  // getRelativeTimeString
  // ---------------------------------------------------------------------

  /** `${n} ${unit}` followed by "s" when n is more than one. */
  function Counted(n: nat, unit: string): (s: string)
    ensures |s| > 0 && '0' <= s[0] <= '9'
    ensures s[|s| - 1] == 's' <==> n > 1 || (unit != [] && unit[|unit| - 1] == 's')
  {
    NatToString(n) + " " + unit + (if n > 1 then "s" else "")
  }

  /** The `result` of the if/else-if chain, for the absolute difference in seconds. */
  function Bucket(absDiff: nat): (b: string)
    ensures absDiff < Minute ==> b == "just now"
    ensures absDiff >= Minute ==> |b| > 0 && '0' <= b[0] <= '9'
    // Never ending in "o" keeps a bare bucket apart from one with the " ago" suffix (PastIffAgo).
    ensures |b| > 0 && b[|b| - 1] != 'o'
  {
    if absDiff < Minute then "just now"
    else if absDiff < Hour then Counted(absDiff / Minute, "minute")
    else if absDiff < Day then Counted(absDiff / Hour, "hour")
    else if absDiff < Week then Counted(absDiff / Day, "day")
    else if absDiff < Month then Counted(absDiff / Week, "week")
    else if absDiff < Year then Counted(absDiff / Month, "month")
    else Counted(absDiff / Year, "year")
  }

  /** The affix choice as the source writes it: "ago" is appended even to "just now". */
  function RelativeFromSecondsAsWritten(diff: int): string {
    var result := Bucket(Abs(diff));
    if diff < 0 then result + " ago"
    else if diff > 0 && result != "just now" then "in " + result
    else result
  }

  /**
    getRelativeTimeString as written: any moment in the past takes " ago",
    so only a moment less than a minute ahead (or now) reads a bare "just now".
   */
  function RelativeTimeStringAsWritten(date: int, now: int): (s: string)
    ensures var d := DiffInSeconds(date, now);
      && (d < 0 ==> s == Bucket(-d) + " ago")
      && (0 <= d < Minute ==> s == "just now")
      && (d >= Minute ==> s == "in " + Bucket(d))
  {
    JustNowBelowAMinute(Abs(DiffInSeconds(date, now)));
    RelativeFromSecondsAsWritten(DiffInSeconds(date, now))
  }

  /** The affix choice with "just now" left bare in both directions. */
  function RelativeFromSeconds(diff: int): string {
    var result := Bucket(Abs(diff));
    if diff < 0 && result != "just now" then result + " ago"
    else if diff > 0 && result != "just now" then "in " + result
    else result
  }

  /**
    getRelativeTimeString with the "just now" test on both branches: a
    moment less than a minute away either way reads "just now", an earlier
    one "<bucket> ago" and a later one "in <bucket>".
   */
  function RelativeTimeString(date: int, now: int): (s: string)
    ensures var d := DiffInSeconds(date, now);
      && (d <= -Minute ==> s == Bucket(-d) + " ago")
      && (-Minute < d < Minute ==> s == "just now")
      && (d >= Minute ==> s == "in " + Bucket(d))
  {
    AffixBySign(DiffInSeconds(date, now));
    RelativeFromSeconds(DiffInSeconds(date, now))
  }

  predicate EndsWith(s: string, suffix: string) {
    |suffix| <= |s| && s[|s| - |suffix|..] == suffix
  }

  // ---------------------------------------------------------------------
  // Properties of the buckets
  // ---------------------------------------------------------------------

  /**
    Past the first minute, the bucket reports floor(absDiff / u) of the
    largest unit u not exceeding absDiff, and that count is at least one.
   */
  lemma BucketUsesLargestUnit(absDiff: nat, k: nat)
    requires k < |Units| && Units[k] <= absDiff
    requires k + 1 == |Units| || absDiff < Units[k + 1]
    ensures absDiff / Units[k] >= 1
    ensures Bucket(absDiff) == Counted(absDiff / Units[k], UnitNames[k])
  {
    // Naming the unit and the branch of the chain for each k keeps the
    // proof small; without these the solver nears its resource limit.
    if k == 0 {
      assert Units[k] == 60 && absDiff < 3600;
    } else if k == 1 {
      assert Units[k] == 3600 && 3600 <= absDiff < 86400;
    } else if k == 2 {
      assert Units[k] == 86400 && 86400 <= absDiff < 604800;
    } else if k == 3 {
      assert Units[k] == 604800 && 604800 <= absDiff < 2592000;
    } else if k == 4 {
      assert Units[k] == 2592000 && 2592000 <= absDiff < 31536000;
    } else {
      assert Units[k] == 31536000 && 31536000 <= absDiff;
    }
  }

  /** The bucket is "just now" exactly below one minute. */
  lemma JustNowBelowAMinute(absDiff: nat)
    ensures Bucket(absDiff) == "just now" <==> absDiff < Minute
  {
    if absDiff >= Minute {
      var k := if absDiff < Hour then 0 else if absDiff < Day then 1 else if absDiff < Week then 2
               else if absDiff < Month then 3 else if absDiff < Year then 4 else 5;
      BucketUsesLargestUnit(absDiff, k);
    }
  }

  /** The unit word takes a trailing "s" exactly when the count is above one. */
  lemma PluralIffMoreThanOne(n: nat, unit: string)
    requires unit != [] && unit[|unit| - 1] != 's'
    ensures var s := Counted(n, unit); s[|s| - 1] == 's' <==> n > 1
  {
  }

  // ---------------------------------------------------------------------
  // Properties of the affix
  // ---------------------------------------------------------------------

  /**
    Under a minute either way the description is exactly "just now";
    otherwise a past moment reads "<bucket> ago" and a future one
    "in <bucket>".
   */
  lemma AffixBySign(diff: int)
    ensures -Minute < diff < Minute ==> RelativeFromSeconds(diff) == "just now"
    ensures diff <= -Minute ==> RelativeFromSeconds(diff) == Bucket(-diff) + " ago"
    ensures diff >= Minute ==> RelativeFromSeconds(diff) == "in " + Bucket(diff)
  {
    JustNowBelowAMinute(Abs(diff));
  }

  /** A difference and its opposite share the bucket and differ only in the affix. */
  lemma OppositeDiffsMirror(d: int)
    requires d >= Minute
    ensures RelativeFromSeconds(d) == "in " + Bucket(d)
    ensures RelativeFromSeconds(-d) == Bucket(d) + " ago"
  {
    AffixBySign(d);
    AffixBySign(-d);
  }

  /** The description is "just now" exactly when the moment is less than a minute away. */
  lemma JustNowIffWithinAMinute(date: int, now: int)
    ensures RelativeTimeString(date, now) == "just now" <==> Abs(DiffInSeconds(date, now)) < Minute
  {
    var d := DiffInSeconds(date, now);
    AffixBySign(d);
    JustNowBelowAMinute(Abs(d));
    if d <= -Minute {
      var b := Bucket(-d);
      var k := if -d < Hour then 0 else if -d < Day then 1 else if -d < Week then 2
               else if -d < Month then 3 else if -d < Year then 4 else 5;
      BucketUsesLargestUnit(-d, k);
      assert (b + " ago")[0] == b[0];
    } else if d >= Minute {
      assert ("in " + Bucket(d))[0] == 'i';
    }
  }

  /**
    As written, a moment less than a minute in the past reads "just now ago":
    the " ago" branch does not test for "just now" as the "in" branch does.
   */
  lemma JustNowAgo(date: int, now: int)
    requires -Minute < DiffInSeconds(date, now) < 0
    ensures RelativeTimeStringAsWritten(date, now) == "just now ago"
    ensures RelativeTimeString(date, now) == "just now"
  {
  }

  /** One millisecond ago is such a moment. */
  lemma OneMillisecondAgo(now: int)
    ensures RelativeTimeStringAsWritten(now - 1, now) == "just now ago"
  {
    JustNowAgo(now - 1, now);
  }

  /** Outside that window the written affix choice and the corrected one agree. */
  lemma AsWrittenAgreesOutsidePastMinute(diff: int)
    requires !(-Minute < diff < 0)
    ensures RelativeFromSecondsAsWritten(diff) == RelativeFromSeconds(diff)
  {
    JustNowBelowAMinute(Abs(diff));
  }

  /**
    A moment is past exactly when its whole-second difference is negative;
    as written, exactly then its description ends in " ago"; corrected, it
    ends in " ago" exactly when the moment is at least a minute past.
   */
  lemma PastIffAgo(date: int, now: int)
    ensures IsDatePast(date, now) <==> DiffInSeconds(date, now) < 0
    ensures IsDatePast(date, now) <==> EndsWith(RelativeTimeStringAsWritten(date, now), " ago")
    ensures EndsWith(RelativeTimeString(date, now), " ago")
            <==> IsDatePast(date, now) && DiffInSeconds(date, now) <= -Minute
  {
    var d := DiffInSeconds(date, now);
    var b := Bucket(Abs(d));
    AffixBySign(d);
    JustNowBelowAMinute(Abs(d));
    if d >= 0 {
      var s := RelativeFromSecondsAsWritten(d);
      assert s == b || s == "in " + b;
      assert s[|s| - 1] == b[|b| - 1];
      assert !EndsWith(s, " ago");
    }
    if d > -Minute {
      var s := RelativeFromSeconds(d);
      assert s == b || s == "in " + b;
      assert s[|s| - 1] == b[|b| - 1];
      assert !EndsWith(s, " ago");
    }
  }
}
