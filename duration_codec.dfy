/**
 * The duration codec of the tracker: `durationToSeconds` reads an "HH:MM:SS"
 * cell into a count of seconds and `formatDuration` writes a count of seconds
 * back as zero-padded "HH:MM:SS" text.
 */
module DurationCodec {
  import opened Wrappers

  // ---------------------------------------------------------------------------
  // Decimal digits

  predicate IsDigit(c: char) {
    '0' <= c <= '9'
  }

  predicate IsDigits(s: string) {
    forall i :: 0 <= i < |s| ==> IsDigit(s[i])
  }

  function DigitValue(c: char): (d: nat)
    requires IsDigit(c)
    ensures d < 10
  {
    c as int - '0' as int
  }

  function DigitChar(d: nat): (c: char)
    requires d < 10
    ensures IsDigit(c) && DigitValue(c) == d
  {
    (d + '0' as int) as char
  }

  /**
   * The number a string of decimal digits denotes, as JavaScript's unary `+`
   * reads it: leading zeros are ignored and the empty string is 0.
   */
  function DigitsValue(s: string): nat
    requires IsDigits(s)
    decreases |s|
  {
    if s == [] then 0 else DigitsValue(s[..|s| - 1]) * 10 + DigitValue(s[|s| - 1])
  }

  /** The decimal text without leading zeros, as `Number.prototype.toString()` writes it. */
  function ToDecimal(n: nat): (r: string)
    ensures |r| >= 1 && IsDigits(r)
    ensures DigitsValue(r) == n
    ensures r[0] == '0' ==> r == "0"
    decreases n
  {
    if n < 10 then [DigitChar(n)]
    else
      var r := ToDecimal(n / 10) + [DigitChar(n % 10)];
      assert r[..|r| - 1] == ToDecimal(n / 10);
      r
  }

  /** `String.prototype.padStart(2, '0')`: zeros in front up to two characters. */
  function PadStart2(s: string): (r: string)
  {
    if |s| >= 2 then s else seq(2 - |s|, _ => '0') + s
  }

  /** The text of a field as `formatDuration` writes it: at least two digits, no surplus leading zero. */
  predicate IsPaddedField(f: string) {
    IsDigits(f) && |f| >= 2 && (|f| > 2 ==> f[0] != '0')
  }

  lemma {:induction false} LeadingZero(s: string)
    requires IsDigits(s)
    ensures IsDigits("0" + s) && DigitsValue("0" + s) == DigitsValue(s)
    decreases |s|
  {
    var z := "0" + s;
    assert IsDigits(z) by {
      forall i | 0 <= i < |z| ensures IsDigit(z[i]) {
        if i > 0 { assert z[i] == s[i - 1]; }
      }
    }
    if s != [] {
      var p := s[..|s| - 1];
      assert z[..|z| - 1] == "0" + p;
      LeadingZero(p);
    }
  }

  lemma {:induction false} NoLeadingZeroIsPositive(s: string)
    requires IsDigits(s) && |s| >= 1 && s[0] != '0'
    ensures DigitsValue(s) >= 1
    ensures |s| >= 2 ==> DigitsValue(s) >= 10
    decreases |s|
  {
    if |s| >= 2 {
      var p := s[..|s| - 1];
      NoLeadingZeroIsPositive(p);
    }
  }

  /** A digit string without surplus leading zeros is what `toString()` writes for its value. */
  lemma {:induction false} ToDecimalOfDigits(s: string)
    requires IsDigits(s) && |s| >= 1 && (s[0] == '0' ==> |s| == 1)
    ensures ToDecimal(DigitsValue(s)) == s
    decreases |s|
  {
    if |s| == 1 {
      assert s[..0] == [];
      assert DigitChar(DigitValue(s[0])) == s[0];
    } else {
      var p := s[..|s| - 1];
      NoLeadingZeroIsPositive(p);
      ToDecimalOfDigits(p);
      var n := DigitsValue(s);
      assert n / 10 == DigitsValue(p) && n % 10 == DigitValue(s[|s| - 1]);
      assert DigitChar(DigitValue(s[|s| - 1])) == s[|s| - 1];
      assert s == p + [s[|s| - 1]];
    }
  }

  /** Every field `formatDuration` writes is padded, and it reads back as the number written. */
  lemma PadStart2ToDecimal(n: nat)
    ensures IsPaddedField(PadStart2(ToDecimal(n)))
    ensures DigitsValue(PadStart2(ToDecimal(n))) == n
    ensures n < 100 ==> |PadStart2(ToDecimal(n))| == 2
  {
    var d := ToDecimal(n);
    if |d| < 2 {
      assert PadStart2(d) == "0" + d;
      LeadingZero(d);
    } else {
      if n < 100 {
        assert n >= 10;
        var q := ToDecimal(n / 10);
        assert n / 10 < 10;
        assert |q| == 1;
      }
    }
  }

  /** A padded field is what `padStart(2, '0')` of `toString()` writes for its value. */
  lemma PaddedFieldOfValue(f: string)
    requires IsPaddedField(f)
    ensures PadStart2(ToDecimal(DigitsValue(f))) == f
  {
    if f[0] == '0' {
      assert |f| == 2;
      var t := [f[1]];
      assert f == "0" + t;
      LeadingZero(t);
      assert t[..0] == [];
      ToDecimalOfDigits(t);
    } else {
      ToDecimalOfDigits(f);
    }
  }

  // ---------------------------------------------------------------------------
  // Splitting on ':'

  /** `String.prototype.split(':')`: the pieces between colons, at least one. */
  function Split(s: string): (r: seq<string>)
    ensures |r| >= 1
  {
    if s == [] then [""]
    else
      var t := Split(s[1..]);
      if s[0] == ':' then [""] + t else [[s[0]] + t[0]] + t[1..]
  }

  lemma {:induction false} SplitColonFree(a: string, rest: string)
    requires ':' !in a
    ensures Split(a + rest) == [a + Split(rest)[0]] + Split(rest)[1..]
    decreases |a|
  {
    if a != [] {
      var s := a + rest;
      assert s[0] == a[0] && a[0] != ':';
      assert s[1..] == a[1..] + rest;
      SplitColonFree(a[1..], rest);
      var t := Split(s[1..]);
      assert t[0] == a[1..] + Split(rest)[0];
      assert t[1..] == Split(rest)[1..];
      assert [a[0]] + (a[1..] + Split(rest)[0]) == a + Split(rest)[0];
    } else {
      var t := Split(rest);
      assert a + rest == rest && a + t[0] == t[0];
      assert t == [t[0]] + t[1..];
    }
  }

  /** The pieces joined back with ':' (the inverse of `Split`). */
  function Join(parts: seq<string>): string
    requires |parts| >= 1
  {
    if |parts| == 1 then parts[0] else parts[0] + ":" + Join(parts[1..])
  }

  /** Splitting loses nothing: joining the pieces gives the text back. */
  lemma {:induction false} SplitJoin(s: string)
    ensures Join(Split(s)) == s
  {
    if s != [] {
      var t := Split(s[1..]);
      SplitJoin(s[1..]);
      if s[0] == ':' {
        assert ([""] + t)[1..] == t;
      } else {
        var r := [[s[0]] + t[0]] + t[1..];
        if |t| > 1 {
          assert r[1..] == t[1..];
        }
      }
    }
  }

  /** The three fields of a text built from colon-free fields come back from `split(':')`. */
  lemma SplitSingle(a: string)
    requires ':' !in a
    ensures Split(a) == [a]
  {
    assert Split("") == [""];
    SplitColonFree(a, "");
    assert a + "" == a;
  }

  lemma SplitFirst(a: string, rest: string)
    requires ':' !in a
    ensures Split(a + ":" + rest) == [a] + Split(rest)
  {
    var tail := ":" + rest;
    assert tail[0] == ':' && tail[1..] == rest;
    assert Split(tail) == [""] + Split(rest);
    SplitColonFree(a, tail);
    assert a + "" == a;
    assert a + ":" + rest == a + tail;
  }

  lemma SplitThree(h: string, m: string, s: string)
    requires ':' !in h && ':' !in m && ':' !in s
    ensures Split(h + ":" + m + ":" + s) == [h, m, s]
  {
    SplitSingle(s);
    SplitFirst(m, s);
    SplitFirst(h, m + ":" + s);
    assert h + ":" + m + ":" + s == h + ":" + (m + ":" + s);
  }

  // ---------------------------------------------------------------------------
  // The codec

  /**
   * `durationToSeconds`: splits at ':' and reads the first three pieces as
   * numbers (pieces after the third are never looked at). Fewer than three
   * pieces, or a piece that is not a digit string, yield `None`, the model
   * of JavaScript's `NaN`.
   */
  function DurationToSeconds(duration: string): Option<nat>
  {
    var parts := Split(duration);
    if |parts| >= 3 && IsDigits(parts[0]) && IsDigits(parts[1]) && IsDigits(parts[2]) then
      Some(DigitsValue(parts[0]) * 3600 + DigitsValue(parts[1]) * 60 + DigitsValue(parts[2]))
    else None
  }

  function HoursField(seconds: nat): string {
    PadStart2(ToDecimal(seconds / 3600))
  }

  function MinutesField(seconds: nat): string {
    PadStart2(ToDecimal((seconds % 3600) / 60))
  }

  function SecondsField(seconds: nat): string {
    PadStart2(ToDecimal(seconds % 60))
  }

  /** `formatDuration`: whole hours (never wrapped), then minutes and seconds, each padded to two digits. */
  function FormatDuration(seconds: nat): string
  {
    HoursField(seconds) + ":" + MinutesField(seconds) + ":" + SecondsField(seconds)
  }

  /** A canonical "HH:MM:SS" text: padded hours, two-digit minutes and seconds below 60. */
  predicate IsCanonical(duration: string) {
    var parts := Split(duration);
    && |parts| == 3
    && IsPaddedField(parts[0])
    && IsPaddedField(parts[1]) && |parts[1]| == 2 && DigitsValue(parts[1]) < 60
    && IsPaddedField(parts[2]) && |parts[2]| == 2 && DigitsValue(parts[2]) < 60
  }

  lemma DigitsAreColonFree(s: string)
    requires IsDigits(s)
    ensures ':' !in s
  {
  }

  /** Whole division by a constant divisor: a value splits uniquely into quotient and remainder. */
  lemma DivMod3600(q: nat, r: nat)
    requires r < 3600
    ensures (q * 3600 + r) / 3600 == q && (q * 3600 + r) % 3600 == r
  {
  }

  lemma DivMod60(q: nat, r: nat)
    requires r < 60
    ensures (q * 60 + r) / 60 == q && (q * 60 + r) % 60 == r
  {
  }

  lemma SecondsOfClock(n: nat)
    ensures (n / 3600) * 3600 + ((n % 3600) / 60) * 60 + n % 60 == n
    ensures (n % 3600) / 60 < 60
  {
    var h, rest := n / 3600, n % 3600;
    var m, s := rest / 60, rest % 60;
    assert n == h * 3600 + rest;
    assert rest == m * 60 + s;
    assert n == (h * 60 + m) * 60 + s;
    DivMod60(h * 60 + m, s);
  }

  /** The fields of every encoding: minutes and seconds are two digits below 60; hours, at least two digits, are the whole hours. */
  lemma FormatDurationFields(n: nat)
    ensures Split(FormatDuration(n)) == [HoursField(n), MinutesField(n), SecondsField(n)]
    ensures IsPaddedField(HoursField(n)) && DigitsValue(HoursField(n)) == n / 3600
    ensures |MinutesField(n)| == 2 && IsDigits(MinutesField(n)) && DigitsValue(MinutesField(n)) == (n % 3600) / 60 < 60
    ensures |SecondsField(n)| == 2 && IsDigits(SecondsField(n)) && DigitsValue(SecondsField(n)) == n % 60 < 60
  {
    SecondsOfClock(n);
    PadStart2ToDecimal(n / 3600);
    PadStart2ToDecimal((n % 3600) / 60);
    PadStart2ToDecimal(n % 60);
    DigitsAreColonFree(HoursField(n));
    DigitsAreColonFree(MinutesField(n));
    DigitsAreColonFree(SecondsField(n));
    SplitThree(HoursField(n), MinutesField(n), SecondsField(n));
  }

  /** Decoding the encoding of any count of seconds gives that count back. */
  lemma DecodeEncode(n: nat)
    ensures DurationToSeconds(FormatDuration(n)) == Some(n)
    ensures IsCanonical(FormatDuration(n))
  {
    FormatDurationFields(n);
    SecondsOfClock(n);
  }

  /** A text with three pieces is the three pieces joined with ':'. */
  lemma JoinThree(duration: string)
    requires |Split(duration)| == 3
    ensures var parts := Split(duration); duration == parts[0] + ":" + parts[1] + ":" + parts[2]
  {
    var parts := Split(duration);
    SplitJoin(duration);
    assert Join(parts[2..]) == parts[2];
    assert Join(parts[1..]) == parts[1] + ":" + parts[2];
  }

  /** Encoding the decoding of a canonical text gives the same text back. */
  lemma EncodeDecode(duration: string)
    requires IsCanonical(duration)
    ensures DurationToSeconds(duration).Some?
    ensures FormatDuration(DurationToSeconds(duration).value) == duration
  {
    var parts := Split(duration);
    var h, m, s := DigitsValue(parts[0]), DigitsValue(parts[1]), DigitsValue(parts[2]);
    var n := h * 3600 + m * 60 + s;
    assert DurationToSeconds(duration) == Some(n);
    DivMod3600(h, m * 60 + s);
    DivMod60(m, s);
    assert n / 3600 == h && (n % 3600) / 60 == m;
    assert n == (h * 60 + m) * 60 + s;
    DivMod60(h * 60 + m, s);
    assert n % 60 == s;
    PaddedFieldOfValue(parts[0]);
    PaddedFieldOfValue(parts[1]);
    PaddedFieldOfValue(parts[2]);
    assert HoursField(n) == parts[0] && MinutesField(n) == parts[1] && SecondsField(n) == parts[2];
    JoinThree(duration);
  }

  lemma PaddedDigit(n: nat)
    requires n < 10
    ensures PadStart2(ToDecimal(n)) == ['0', DigitChar(n)]
  {
  }

  /** A text "00:0M:SS" with M below 10 and SS below 60 reads as M * 60 + SS seconds. */
  lemma DecodeUnderTenMinutes(m: nat, s: nat)
    requires m < 10 && s < 60
    ensures DurationToSeconds(['0', '0', ':', '0', DigitChar(m), ':', DigitChar(s / 10), DigitChar(s % 10)]) == Some(m * 60 + s)
  {
    var n := m * 60 + s;
    var text := ['0', '0', ':', '0', DigitChar(m), ':', DigitChar(s / 10), DigitChar(s % 10)];
    DecodeEncode(n);
    DivMod3600(0, n);
    DivMod60(m, s);
    PaddedDigit(0);
    PaddedDigit(m);
    if s < 10 {
      PaddedDigit(s);
    } else {
      assert ToDecimal(s) == ToDecimal(s / 10) + [DigitChar(s % 10)];
    }
    assert FormatDuration(n) == text;
  }
}
