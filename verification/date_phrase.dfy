/** The date-phrase branch of `plan_journey` (main.py:150-176), lifted into
    a pure function. The current time is not read: a relative phrase yields
    a number of days after "now", an explicit phrase a calendar date. */
module DatePhrase {
  import opened Wrappers
  import opened Text
  import opened Numerals

  /** The travel date `plan_journey` settles on. */
  datatype Target = DaysFromNow(days: int) | OnDate(year: nat, month: nat, day: nat)

  /** The exceptions the branch raises, by kind. */
  datatype DateError =
    | UnsupportedPhrase           // `in ...` without an integer and a unit token
    | UnsupportedUnit(unit: string) // `in N x` where x, less its trailing `s`, is no unit
    | Unparsed                    // none of the recognised shapes
    | InvalidDate                 // `YYYY-MM-DD` that `strptime` rejects
    | DeltaOverflow               // `timedelta` beyond its range

  /** `timedelta.max.days`: a `timedelta` of more days raises `OverflowError`. */
  const MaxDeltaDays: int := 999_999_999

  /** The shape `^\d{4}-\d{2}-\d{2}$` (main.py:153). */
  predicate IsIsoShape(p: string) {
    && |p| == 10
    && p[4] == '-' && p[7] == '-'
    && forall i :: 0 <= i < 10 && i != 4 && i != 7 ==> IsDigit(p[i])
  }

  function FieldValue(p: string, lo: nat, hi: nat): nat
    requires lo <= hi <= |p|
    requires forall i :: lo <= i < hi ==> IsDigit(p[i])
  {
    DecimalValue(p[lo..hi])
  }

  predicate IsLeapYear(y: int) {
    y % 4 == 0 && (y % 100 != 0 || y % 400 == 0)
  }

  function DaysInMonth(y: int, m: int): (n: int)
    requires 1 <= m <= 12
    ensures 28 <= n <= 31
  {
    if m == 2 then (if IsLeapYear(y) then 29 else 28)
    else if m == 4 || m == 6 || m == 9 || m == 11 then 30
    else 31
  }

  /** A date `datetime` accepts (years from 1). */
  predicate IsValidDate(y: int, m: int, d: int) {
    1 <= y && 1 <= m <= 12 && 1 <= d <= DaysInMonth(y, m)
  }

  /** `now + timedelta(days=n)`, as an offset from now. */
  function Shift(n: int): (r: Result<Target, DateError>)
    ensures r.Success? <==> -MaxDeltaDays <= n <= MaxDeltaDays
    ensures r.Success? ==> r.value == DaysFromNow(n)
    ensures r.Failure? ==> r.error == DeltaOverflow
  {
    if -MaxDeltaDays <= n <= MaxDeltaDays then Success(DaysFromNow(n)) else Failure(DeltaOverflow)
  }

  /** `in N unit` once N is read and the unit has lost its trailing `s`:
      N days, N weeks (7·N days), or an unsupported unit (main.py:165-171). */
  function UnitOffset(num: int, unit: string): (r: Result<Target, DateError>)
    ensures r.Success? ==>
              || (unit == "day" && r.value == DaysFromNow(num))
              || (unit == "week" && r.value == DaysFromNow(7 * num))
    ensures r.Success? ==> -MaxDeltaDays <= r.value.days <= MaxDeltaDays
    ensures r.Success? <==>
              || (unit == "day" && -MaxDeltaDays <= num <= MaxDeltaDays)
              || (unit == "week" && -MaxDeltaDays <= 7 * num <= MaxDeltaDays)
    ensures r.Failure? ==>
              r.error == if unit == "day" || unit == "week" then DeltaOverflow else UnsupportedUnit(unit)
  {
    if unit == "day" then Shift(num)
    else if unit == "week" then Shift(7 * num)
    else Failure(UnsupportedUnit(unit))
  }

  /** `n` as exactly `width` decimal digits, zero-padded on the left. */
  function FixedDigits(n: nat, width: nat): (s: string)
    ensures |s| == width
    ensures forall i :: 0 <= i < width ==> IsDigit(s[i])
  {
    if width == 0 then [] else FixedDigits(n / 10, width - 1) + [DigitChar(n % 10)]
  }

  function Pow10(k: nat): (p: nat)
    ensures p >= 1
  {
    if k == 0 then 1 else 10 * Pow10(k - 1)
  }

  /** Zero-padded digits read back as the number they pad. */
  lemma {:induction false} FixedDigitsValue(n: nat, width: nat)
    requires n < Pow10(width)
    ensures DecimalValue(FixedDigits(n, width)) == n
  {
    if width > 0 {
      FixedDigitsValue(n / 10, width - 1);
      var s := FixedDigits(n, width);
      assert s[..width - 1] == FixedDigits(n / 10, width - 1);
    }
  }

  /** `date(y, m, d).isoformat()` for a four-digit year. */
  function IsoString(y: nat, m: nat, d: nat): (s: string)
    ensures IsIsoShape(s)
  {
    FixedDigits(y, 4) + "-" + FixedDigits(m, 2) + "-" + FixedDigits(d, 2)
  }

  /** The classification of main.py:154-175 applied to the phrase after
      `strip().lower()`. */
  function Classify(phrase: string): Result<Target, DateError>
  {
    if phrase == "today" then Success(DaysFromNow(0))
    else if phrase == "tomorrow" then Success(DaysFromNow(1))
    else if StartsWith(phrase, "in ") then
      var parts := Split(phrase);
      if |parts| < 2 || ParseInt(parts[1]).None? || |parts| < 3 then Failure(UnsupportedPhrase)
      else UnitOffset(ParseInt(parts[1]).value, RStripChar(parts[2], 's'))
    else if IsIsoShape(phrase) then
      var y := FieldValue(phrase, 0, 4);
      var m := FieldValue(phrase, 5, 7);
      var d := FieldValue(phrase, 8, 10);
      if IsValidDate(y, m, d) then Success(OnDate(y, m, d)) else Failure(InvalidDate)
    else Failure(Unparsed)
  }

  /** What `Classify` promises: a date comes back only valid and spelt
      exactly in ISO form; an offset only for `today`, `tomorrow` or an
      `in` phrase within the `timedelta` range; `Unparsed` exactly for
      phrases of none of the four shapes; an unsupported unit only from an
      `in` phrase whose unit is neither `day` nor `week`. */
  lemma {:induction false} ClassifySpec(phrase: string)
    ensures var r := Classify(phrase);
            r.Success? && r.value.OnDate? ==>
              && IsValidDate(r.value.year, r.value.month, r.value.day)
              && phrase == IsoString(r.value.year, r.value.month, r.value.day)
    ensures var r := Classify(phrase);
            r.Success? && r.value.DaysFromNow? ==>
              || (phrase == "today" && r.value.days == 0)
              || (phrase == "tomorrow" && r.value.days == 1)
              || (StartsWith(phrase, "in ") && -MaxDeltaDays <= r.value.days <= MaxDeltaDays)
    ensures Classify(phrase) == Failure(Unparsed) <==>
              phrase != "today" && phrase != "tomorrow" && !StartsWith(phrase, "in ") && !IsIsoShape(phrase)
    ensures var r := Classify(phrase);
            r.Failure? && r.error.UnsupportedUnit? ==>
              StartsWith(phrase, "in ") && r.error.unit != "day" && r.error.unit != "week"
  {
    if phrase != "today" && phrase != "tomorrow" && !StartsWith(phrase, "in ") && IsIsoShape(phrase) {
      IsoStringOfShape(phrase);
    }
  }

  /** An ISO-shaped phrase is the ISO form of the date its fields spell. */
  lemma {:induction false} IsoStringOfShape(p: string)
    requires IsIsoShape(p)
    ensures IsoString(FieldValue(p, 0, 4), FieldValue(p, 5, 7), FieldValue(p, 8, 10)) == p
  {
    FieldOfShape(p, 0, 4);
    FieldOfShape(p, 5, 7);
    FieldOfShape(p, 8, 10);
    IsoSplit(p);
  }

  /** A field of digits written back at its own width is the field. */
  lemma {:induction false} FieldOfShape(p: string, lo: nat, hi: nat)
    requires lo <= hi <= |p|
    requires forall i :: lo <= i < hi ==> IsDigit(p[i])
    ensures FixedDigits(FieldValue(p, lo, hi), hi - lo) == p[lo..hi]
  {
    var t := p[lo..hi];
    forall i | 0 <= i < |t|
      ensures IsDigit(t[i])
    {
      assert t[i] == p[lo + i];
    }
    FixedDigitsOfDigits(t);
    assert FieldValue(p, lo, hi) == DecimalValue(t);
  }

  /** An ISO-shaped string is its three fields joined by dashes. */
  lemma {:induction false} IsoSplit(p: string)
    requires IsIsoShape(p)
    ensures p == p[0..4] + "-" + p[5..7] + "-" + p[8..10]
  {
    var q := p[0..4] + "-" + p[5..7] + "-" + p[8..10];
    assert |q| == 10;
    forall i | 0 <= i < 10
      ensures q[i] == p[i]
    {
    }
  }

  /** Digits written back at their own width are unchanged. */
  lemma {:induction false} FixedDigitsOfDigits(t: string)
    requires forall i :: 0 <= i < |t| ==> IsDigit(t[i])
    ensures FixedDigits(DecimalValue(t), |t|) == t
  {
    if t != [] {
      var w := |t| - 1;
      var c := t[w];
      FixedDigitsOfDigits(t[..w]);
      assert DecimalValue(t) / 10 == DecimalValue(t[..w]);
      assert DecimalValue(t) % 10 == DigitValue(c);
      assert t == t[..w] + [c];
    }
  }

  /** The date phrase `when` as `plan_journey` reads it. */
  function ParseWhen(when: string): Result<Target, DateError> {
    Classify(Normalize(when))
  }

  /** Case and surrounding whitespace of the phrase do not matter
      (main.py:151). */
  lemma {:induction false} ParseWhenIgnoresCaseAndPadding(when: string, pre: string, post: string)
    requires AllSpace(pre) && AllSpace(post)
    ensures ParseWhen(pre + when + post) == ParseWhen(when)
    ensures ParseWhen(Lower(when)) == ParseWhen(when)
    ensures ParseWhen(Normalize(when)) == ParseWhen(when)
  {
    NormalizePadded(pre, when, post);
    NormalizeIgnoresCase(when);
    NormalizeIdempotent(when);
  }

  ghost predicate AllTokens(ts: seq<string>) {
    forall i :: 0 <= i < |ts| ==> IsToken(ts[i])
  }

  lemma {:induction false} InPrefix(ts: seq<string>)
    requires |ts| >= 2 && ts[0] == "in"
    ensures StartsWith(JoinSpaces(ts), "in ")
    ensures JoinSpaces(ts) != "today" && JoinSpaces(ts) != "tomorrow"
  {
    var p := JoinSpaces(ts);
    assert p == "in" + " " + JoinSpaces(ts[1..]);
    assert p[..3] == "in ";
    assert p[0] == 'i';
  }

  /** A phrase of tokens beginning `in` is read token by token: the second
      token must be an integer and a third token must exist, or the phrase
      is unsupported; otherwise the third token, less its trailing `s`,
      chooses the unit (main.py:158-171). */
  lemma {:induction false} InPhraseTokens(ts: seq<string>)
    requires |ts| >= 2 && ts[0] == "in" && AllTokens(ts)
    ensures |ts| < 3 || ParseInt(ts[1]).None? ==>
              Classify(JoinSpaces(ts)) == Failure(UnsupportedPhrase)
    ensures |ts| >= 3 && ParseInt(ts[1]).Some? ==>
              Classify(JoinSpaces(ts)) == UnitOffset(ParseInt(ts[1]).value, RStripChar(ts[2], 's'))
  {
    InPrefix(ts);
    SplitJoin(ts);
  }

  /** `split()` takes any run of whitespace between tokens as one
      separator, so an `in` phrase reads the same as its tokens joined by
      single spaces (main.py:158-159). */
  lemma {:induction false} InPhraseSplit(phrase: string)
    requires StartsWith(phrase, "in ") && |Split(phrase)| >= 2
    ensures Classify(phrase) == Classify(JoinSpaces(Split(phrase)))
  {
    var ts := Split(phrase);
    assert phrase == "in" + phrase[2..];
    assert IsToken("in");
    SplitToken("in", phrase[2..]);
    assert ts[0] == "in";
    InPhraseTokens(ts);
  }

  /** Tokens after the unit are ignored. */
  lemma {:induction false} ExtraTokensIgnored(ts: seq<string>, more: seq<string>)
    requires |ts| == 3 && ts[0] == "in" && AllTokens(ts + more)
    ensures Classify(JoinSpaces(ts + more)) == Classify(JoinSpaces(ts))
  {
    assert AllTokens(ts) by {
      forall i | 0 <= i < |ts| ensures IsToken(ts[i]) {
        assert ts[i] == (ts + more)[i];
      }
    }
    InPhraseTokens(ts);
    InPhraseTokens(ts + more);
  }

  /** The three-token phrase `in NUM UNIT`. */
  lemma {:induction false} InUnitPhrase(num: string, unit: string)
    requires IsToken(num) && IsToken(unit)
    ensures Classify(JoinSpaces(["in", num, unit])) ==
              if ParseInt(num).None? then Failure(UnsupportedPhrase)
              else UnitOffset(ParseInt(num).value, RStripChar(unit, 's'))
  {
    var ts := ["in", num, unit];
    assert AllTokens(ts) by {
      assert IsToken("in");
    }
    InPhraseTokens(ts);
  }

  /** Any number of trailing `s` on the unit is ignored: `day`, `days` and
      `dayss` read alike. */
  lemma {:induction false} TrailingSIgnored(num: string, unit: string, tail: string)
    requires IsToken(num) && IsToken(unit)
    requires forall i :: 0 <= i < |tail| ==> tail[i] == 's'
    ensures Classify(JoinSpaces(["in", num, unit + tail])) == Classify(JoinSpaces(["in", num, unit]))
  {
    assert IsToken(unit + tail);
    InUnitPhrase(num, unit + tail);
    InUnitPhrase(num, unit);
    RStripCharPadded(unit, tail, 's');
  }

  lemma {:induction false} IntToStringToken(n: int)
    ensures IsToken(IntToString(n))
  {
    var s := IntToString(n);
    var m := if n < 0 then -n else n;
    var digits := NatToString(m);
    NatToStringDecimal(m);
    assert s == digits || s == "-" + digits;
    forall i | 0 <= i < |s|
      ensures !IsSpace(s[i])
    {
      if s != digits && i > 0 {
        assert s[i] == digits[i - 1];
      }
    }
  }

  /** The phrases `plan_journey` understands, as a datatype. */
  datatype Phrase = Today | Tomorrow | InDays(n: int) | InWeeks(n: int) | Explicit(y: nat, m: nat, d: nat)

  /** The phrase written out in lower case. */
  function Render(p: Phrase): string
    requires p.Explicit? ==> p.y < 10000 && p.m < 100 && p.d < 100
  {
    match p
    case Today => "today"
    case Tomorrow => "tomorrow"
    case InDays(n) => JoinSpaces(["in", IntToString(n), "days"])
    case InWeeks(n) => JoinSpaces(["in", IntToString(n), "weeks"])
    case Explicit(y, m, d) => IsoString(y, m, d)
  }

  /** What each phrase means: an offset from now, a date, or the error
      `datetime` raises for it. */
  function Meaning(p: Phrase): Result<Target, DateError> {
    match p
    case Today => Success(DaysFromNow(0))
    case Tomorrow => Success(DaysFromNow(1))
    case InDays(n) => Shift(n)
    case InWeeks(n) => Shift(7 * n)
    case Explicit(y, m, d) => if IsValidDate(y, m, d) then Success(OnDate(y, m, d)) else Failure(InvalidDate)
  }

  lemma {:induction false} RelativeRoundTrip(n: int, unit: string, stripped: string)
    requires unit == "days" || unit == "weeks"
    requires stripped == unit[..|unit| - 1]
    ensures Classify(JoinSpaces(["in", IntToString(n), unit])) == UnitOffset(n, stripped)
  {
    IntToStringToken(n);
    IntRoundTrip(n);
    UnitWords(unit, stripped);
    InUnitPhrase(IntToString(n), unit);
  }

  /** The plural unit words lose exactly their final `s`. */
  lemma {:induction false} UnitWords(unit: string, stripped: string)
    requires unit == "days" || unit == "weeks"
    requires stripped == unit[..|unit| - 1]
    ensures IsToken(unit) && RStripChar(unit, 's') == stripped
  {
    assert RStripChar(stripped, 's') == stripped;
    assert unit == stripped + ['s'];
  }

  lemma {:induction false} ExplicitRoundTrip(y: nat, m: nat, d: nat)
    requires y < 10000 && m < 100 && d < 100
    ensures Classify(IsoString(y, m, d)) == Meaning(Explicit(y, m, d))
  {
    var s := IsoString(y, m, d);
    assert s[0..4] == FixedDigits(y, 4);
    assert s[5..7] == FixedDigits(m, 2);
    assert s[8..10] == FixedDigits(d, 2);
    FixedDigitsValue(y, 4);
    FixedDigitsValue(m, 2);
    FixedDigitsValue(d, 2);
    assert !StartsWith(s, "in ") by { assert IsDigit(s[0]); }
    assert s != "today" && s != "tomorrow" by { assert |s| == 10; }
  }

  /** Every rendered phrase classifies to its meaning. */
  lemma {:induction false} RenderRoundTrip(p: Phrase)
    requires p.Explicit? ==> p.y < 10000 && p.m < 100 && p.d < 100
    ensures Classify(Render(p)) == Meaning(p)
  {
    match p
    case Today =>
    case Tomorrow =>
    case InDays(n) =>
      RelativeRoundTrip(n, "days", "day");
    case InWeeks(n) =>
      RelativeRoundTrip(n, "weeks", "week");
    case Explicit(y, m, d) =>
      ExplicitRoundTrip(y, m, d);
  }
}
