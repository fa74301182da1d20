/** The timestamp normaliser (`convert_hubspot_timestamp`, and
    `parse_timestamp_to_datetime`, which reads its ISO output back).

    The source returns an ISO-8601 string; the model returns the instant that
    string denotes, since every caller either stores it or parses it straight
    back into a `datetime`. */
module Timestamps {
  import opened Wrappers
  import opened Text
  import opened Calendar
  import opened Strptime

  /** The largest epoch-millisecond value `datetime.fromtimestamp` accepts: the
      last millisecond of 9999-12-31 (it raises for year 10000). */
  const MaxEpochMillis: int := 253_402_300_799_999

  /** The date part `%Y-%m-%d` and the time part `T%H:%M:%S`. */
  const DatePart: Format := [Field(Year), Lit('-'), Field(Month), Lit('-'), Field(Day)]
  const TimePart: Format := [Lit('T'), Field(Hour), Lit(':'), Field(Minute), Lit(':'), Field(Second)]
  const FractionPart: Format := [Lit('.'), Field(Fraction)]

  /** The five formats, as written in the source, in the order they are tried. */
  const SourceFormats: seq<Format> := [
    DatePart + TimePart + FractionPart + [Lit('Z')],   // '%Y-%m-%dT%H:%M:%S.%fZ'
    DatePart + TimePart + [Lit('Z')],                  // '%Y-%m-%dT%H:%M:%SZ'
    DatePart + TimePart + FractionPart,                // '%Y-%m-%dT%H:%M:%S.%f'
    DatePart + TimePart,                               // '%Y-%m-%dT%H:%M:%S'
    DatePart                                           // '%Y-%m-%d'
  ]

  /** `fmt.replace('Z', '')`: the format actually handed to `strptime`. */
  function DropZ(fmt: Format): (r: Format)
    ensures Lit('Z') !in r
  {
    if |fmt| == 0 then []
    else (if fmt[0] == Lit('Z') then [] else [fmt[0]]) + DropZ(fmt[1..])
  }

  /** `s.replace('+00:00', 'Z').replace('Z', '')`. */
  function StripUtcMarkers(s: string): string {
    ReplaceAll(ReplaceAll(s, "+00:00", "Z"), "Z", "")
  }

  /** The first format that parses, in order. */
  function FirstParse(ts: string, fmts: seq<Format>): Option<Instant> {
    if |fmts| == 0 then None
    else match Parse(ts, DropZ(fmts[0]))
      case Some(t) => Some(t)
      case None => FirstParse(ts, fmts[1..])
  }

  /** `convert_hubspot_timestamp`: never raises; None for a missing or empty
      value, for digits beyond the `datetime` range, and for anything no format
      accepts. */
  function Convert(raw: Option<string>): (r: Option<Instant>)
    ensures raw == None || raw == Some("") ==> r == None
    ensures raw.Some? && IsDigits(raw.value) ==>
              (r.Some? <==> DigitsValue(raw.value) <= MaxEpochMillis)
    ensures raw.Some? && IsDigits(raw.value) && r.Some? ==>
              r.value == DigitsValue(raw.value) * MicrosPerMilli
    ensures raw.Some? && !IsDigits(raw.value) && 'T' !in raw.value && '-' !in raw.value ==>
              r == None
  {
    match raw
    case None => None
    case Some(s) =>
      if s == "" then None
      else if IsDigits(s) then
        var ms := DigitsValue(s);
        if ms <= MaxEpochMillis then Some(ms * MicrosPerMilli) else None
      else if 'T' in s || '-' in s then FirstParse(StripUtcMarkers(s), SourceFormats)
      else None
  }

  // ----- Epoch milliseconds -----

  /** Every in-range epoch-millisecond count, written in decimal, converts to
      its own instant. */
  lemma EpochMillisRoundTrip(ms: nat)
    requires ms <= MaxEpochMillis
    ensures Convert(Some(DecimalOf(ms))) == Some(ms * MicrosPerMilli)
  {
  }

  // ----- Offsets -----

  /** A '+' that does not start "+00:00" survives the first replacement. */
  lemma {:induction false} PlusSurvivesReplace(s: string, i: nat)
    requires i < |s| && s[i] == '+' && !OccursAt("+00:00", s, i)
    ensures '+' in ReplaceAll(s, "+00:00", "Z")
    decreases |s|
  {
    var pat := "+00:00";
    if |s| < |pat| {
    } else if s[..|pat|] == pat {
      assert OccursAt(pat, s, 0);
      assert forall j :: 1 <= j < 6 ==> s[j] == s[..6][j] && s[j] != '+';
      PlusAfterDrop(s, i, 6);
      PlusSurvivesReplace(s[6..], i - 6);
      assert ReplaceAll(s, pat, "Z") == "Z" + ReplaceAll(s[6..], pat, "Z");
      PlusInSuffix("Z", ReplaceAll(s[6..], pat, "Z"));
    } else if i == 0 {
      assert ReplaceAll(s, pat, "Z")[0] == '+';
    } else {
      PlusAfterDrop(s, i, 1);
      PlusSurvivesReplace(s[1..], i - 1);
      assert ReplaceAll(s, pat, "Z") == [s[0]] + ReplaceAll(s[1..], pat, "Z");
      PlusInSuffix([s[0]], ReplaceAll(s[1..], pat, "Z"));
    }
  }

  /** A '+' past the first `n` characters, not starting "+00:00", stays so
      once they are dropped. */
  lemma PlusAfterDrop(s: string, i: nat, n: nat)
    requires n <= i < |s| && s[i] == '+' && !OccursAt("+00:00", s, i)
    ensures s[n..][i - n] == '+' && !OccursAt("+00:00", s[n..], i - n)
  {
    if i + 6 <= |s| {
      assert s[n..][i - n..i - n + 6] == s[i..i + 6];
    }
  }

  lemma PlusInSuffix(head: string, tail: string)
    requires '+' in tail
    ensures '+' in head + tail
  {
    var k :| 0 <= k < |tail| && tail[k] == '+';
    assert (head + tail)[|head| + k] == '+';
  }

  /** No format accepts a '+': every literal in them is one of "-T:.". */
  lemma NoFormatTakesPlus()
    ensures forall k :: 0 <= k < |SourceFormats| ==> NoLiteralMatches(DropZ(SourceFormats[k]), '+')
  {
    forall k | 0 <= k < |SourceFormats|
      ensures NoLiteralMatches(DropZ(SourceFormats[k]), '+')
    {
      DropZKeepsLiterals(SourceFormats[k]);
    }
  }

  lemma DropZKeepsLiterals(fmt: Format)
    ensures forall j :: 0 <= j < |DropZ(fmt)| ==> DropZ(fmt)[j] in fmt
  {
    if |fmt| > 0 {
      DropZKeepsLiterals(fmt[1..]);
      var head: Format := if fmt[0] == Lit('Z') then [] else [fmt[0]];
      forall j | 0 <= j < |DropZ(fmt)|
        ensures DropZ(fmt)[j] in fmt
      {
        if j >= |head| {
          assert DropZ(fmt)[j] == DropZ(fmt[1..])[j - |head|];
        }
      }
    }
  }

  lemma {:induction false} FirstParseRejectsPlus(ts: string, from: nat)
    requires '+' in ts && from <= |SourceFormats|
    ensures FirstParse(ts, SourceFormats[from..]) == None
    decreases |SourceFormats| - from
  {
    if from < |SourceFormats| {
      NoFormatTakesPlus();
      var fmt := DropZ(SourceFormats[from]);
      ForeignCharSurvives(fmt, ts, '+');
      assert SourceFormats[from..][1..] == SourceFormats[from + 1..];
      FirstParseRejectsPlus(ts, from + 1);
    }
  }

  /** Only UTC offsets are understood: a timestamp ending in any offset "+hh:mm"
      other than "+00:00" is rejected, whatever precedes it. */
  lemma OtherOffsetRejected(base: string, offset: string)
    requires |offset| == 5 && offset != "00:00"
    ensures Convert(Some(base + "+" + offset)) == None
  {
    var s := base + "+" + offset;
    assert s[|base|] == '+';
    assert !IsDigit(s[|base|]);
    assert s[|base|..|base| + 6] == "+" + offset;
    assert ("+" + offset)[1..] == offset;
    assert "+00:00"[1..] == "00:00";
    assert !OccursAt("+00:00", s, |base|);
    PlusSurvivesReplace(s, |base|);
    ReplaceCharByEmpty(ReplaceAll(s, "+00:00", "Z"), 'Z');
    RemoveCharKeeps(ReplaceAll(s, "+00:00", "Z"), 'Z', '+');
    FirstParseRejectsPlus(StripUtcMarkers(s), 0);
  }

  /** Nor is a negative offset: a timestamp ending in "-hh:mm", "-00:00"
      included, is rejected whatever precedes it, since only "+00:00" is
      stripped and every format ends in a directive after '.', ':' or '-' that
      cannot reach back over the offset's '-' and ':'. */
  lemma {:induction false} NegativeOffsetRejected(base: string, offset: string)
    requires |offset| == 5 && IsDigit(offset[0]) && IsDigit(offset[1]) && offset[2] == ':'
    requires IsDigit(offset[3]) && IsDigit(offset[4])
    ensures Convert(Some(base + "-" + offset)) == None
  {
    var s := base + "-" + offset;
    assert s[|base|] == '-';
    assert !IsDigits(s);
    var u := StripKeepsOffset(base, offset);
    FormatsRejectOffset(u);
    FirstParseNone(u, SourceFormats);
  }

  /** The normaliser leaves a trailing "-hh:mm" in place. */
  lemma {:induction false} StripKeepsOffset(base: string, offset: string) returns (u: string)
    requires |offset| == 5 && IsDigit(offset[0]) && IsDigit(offset[1]) && offset[2] == ':'
    requires IsDigit(offset[3]) && IsDigit(offset[4])
    ensures u == StripUtcMarkers(base + "-" + offset) && EndsInNegativeOffset(u)
  {
    var tail := "-" + offset;
    assert base + "-" + offset == base + tail;
    assert '+' !in tail && 'Z' !in tail by {
      forall i | 0 <= i < |tail| ensures tail[i] != '+' && tail[i] != 'Z' {
        if i > 0 {
          assert tail[i] == offset[i - 1];
        }
      }
    }
    NotContainsForeignChar(tail, "+00:00", '+');
    ReplaceKeepsTail(base, tail, "+00:00", "Z");
    var x := ReplaceAll(base, "+00:00", "Z");
    ReplaceCharByEmpty(x + tail, 'Z');
    RemoveCharAppend(x, tail, 'Z');
    RemoveAbsentChar(tail, 'Z');
    u := RemoveChar(x, 'Z') + tail;
    assert u[|u| - 6..] == tail;
  }


  /** The text ends in a negative offset "-hh:mm". */
  predicate EndsInNegativeOffset(u: string) {
    && |u| >= 6 && u[|u| - 6] == '-' && IsDigit(u[|u| - 5]) && IsDigit(u[|u| - 4])
    && u[|u| - 3] == ':' && IsDigit(u[|u| - 2]) && IsDigit(u[|u| - 1])
  }

  /** A suffix that is one character followed by digits or spaces is the
      offset's ":mm" or its last digits. */
  lemma {:induction false} DigitRunEnd(u: string, j: nat)
    requires EndsInNegativeOffset(u) && j + 2 <= |u|
    requires forall i :: j < i < |u| ==> IsDigit(u[i]) || u[i] == ' '
    ensures (j == |u| - 3 && u[j] == ':') || (j == |u| - 2 && IsDigit(u[j]))
  {
  }

  lemma {:induction false} OnlyColonMatchesColon(x: char)
    ensures LitMatches(':', x) <==> x == ':'
  {
  }

  /** Where a format's last literal and directive can sit on such a text. */
  lemma {:induction false} PairAtOffset(u: string, j: nat, c: char, d: Directive, pair: Format)
    requires EndsInNegativeOffset(u) && j <= |u|
    requires |pair| == 2 && pair[0] == Lit(c) && pair[1] == Field(d)
    requires MatchFrom(pair, u[j..]).Some? && MatchFrom(pair, u[j..]).value.1 == ""
    ensures (j == |u| - 3 || j == |u| - 2) && LitMatches(c, u[j]) && u[j] != '.' && u[j] != '-'
    ensures c == ':' ==> j == |u| - 3
  {
    var v := u[j..];
    LitFieldBack(c, d, pair, v);
    forall i | j < i < |u| ensures IsDigit(u[i]) || u[i] == ' ' {
      assert u[i] == v[i - j];
    }
    DigitRunEnd(u, j);
    OnlyColonMatchesColon(u[j]);
  }

  /** One or two characters before the offset's ':' is a digit or the '-'. */
  lemma {:induction false} NoColonBeforeMinutes(u: string, j: nat, n: nat)
    requires EndsInNegativeOffset(u)
    ensures 1 <= n <= 2 && j + 1 + n == |u| - 3 ==> u[j] != ':'
  {
  }

  /** A format ending in ".%f" rejects a text ending in a negative offset. */
  lemma {:induction false} FractionEndRejectsOffset(u: string, f: Format)
    requires EndsInNegativeOffset(u)
    requires |f| >= 2 && f[|f| - 2] == Lit('.') && f[|f| - 1] == Field(Fraction)
    ensures Parse(u, f) == None
  {
    if MatchFrom(f, u).Some? && MatchFrom(f, u).value.1 == "" {
      var j := MatchTail(f, u, |f| - 2);
      PairAtOffset(u, j, '.', Fraction, f[|f| - 2..]);
      assert false;
    }
  }

  /** A format ending in "-%d" rejects it: the day would follow a '-'. */
  lemma {:induction false} DayEndRejectsOffset(u: string, f: Format)
    requires EndsInNegativeOffset(u)
    requires |f| >= 2 && f[|f| - 2] == Lit('-') && f[|f| - 1] == Field(Day)
    ensures Parse(u, f) == None
  {
    if MatchFrom(f, u).Some? && MatchFrom(f, u).value.1 == "" {
      var j := MatchTail(f, u, |f| - 2);
      PairAtOffset(u, j, '-', Day, f[|f| - 2..]);
      assert false;
    }
  }

  /** A format ending in ":%M:%S" rejects it: the seconds can only be the
      offset's minutes, and what precedes them is not "%M:". */
  lemma {:induction false} SecondsEndRejectsOffset(u: string, f: Format)
    requires EndsInNegativeOffset(u)
    requires |f| >= 4 && f[|f| - 4] == Lit(':') && f[|f| - 3] == Field(Minute)
    requires f[|f| - 2] == Lit(':') && f[|f| - 1] == Field(Second)
    ensures Parse(u, f) == None
  {
    if MatchFrom(f, u).Some? && MatchFrom(f, u).value.1 == "" {
      var j := MatchTail(f, u, |f| - 4);
      MinutesSecondsMissOffset(u, j, f[|f| - 4..]);
      assert false;
    }
  }

  /** ":%M:%S" never ends a match on such a text. */
  lemma {:induction false} MinutesSecondsMissOffset(u: string, j: nat, tail: Format)
    requires EndsInNegativeOffset(u) && j <= |u|
    requires |tail| == 4 && tail[0] == Lit(':') && tail[1] == Field(Minute)
    requires tail[2] == Lit(':') && tail[3] == Field(Second)
    ensures !(MatchFrom(tail, u[j..]).Some? && MatchFrom(tail, u[j..]).value.1 == "")
  {
    var v := u[j..];
    if MatchFrom(tail, v).Some? && MatchFrom(tail, v).value.1 == "" {
      LitBack(':', tail, v);
      OnlyColonMatchesColon(v[0]);
      var n := FieldBack(Minute, tail[1..], v[1..]);
      assert v[1..][n..] == u[j + 1 + n..];
      assert v[0] == u[j];
      NoColonBeforeMinutes(u, j, n);
      PairAtOffset(u, j + 1 + n, ':', Second, tail[1..][1..]);
      assert false;
    }
  }

  /** No format the normaliser tries accepts such a text. */
  lemma {:induction false} FormatsRejectOffset(u: string)
    requires EndsInNegativeOffset(u)
    ensures forall k :: 0 <= k < |SourceFormats| ==> Parse(u, DropZ(SourceFormats[k])) == None
  {
    forall k | 0 <= k < |SourceFormats| ensures Parse(u, DropZ(SourceFormats[k])) == None {
      var f := DropZ(SourceFormats[k]);
      FormatEnds(k);
      if k == 0 || k == 2 {
        FractionEndRejectsOffset(u, f);
      } else if k == 1 || k == 3 {
        SecondsEndRejectsOffset(u, f);
      } else {
        DayEndRejectsOffset(u, f);
      }
    }
  }

  /** How each format handed to `strptime` ends: ".%f", ":%M:%S" or "-%d". */
  lemma {:induction false} FormatEnds(k: nat)
    requires k < |SourceFormats|
    ensures var f := DropZ(SourceFormats[k]);
            && |f| >= 4
            && ((k == 0 || k == 2) ==> f[|f| - 2] == Lit('.') && f[|f| - 1] == Field(Fraction))
            && ((k == 1 || k == 3) ==> f[|f| - 4] == Lit(':') && f[|f| - 3] == Field(Minute)
                                       && f[|f| - 2] == Lit(':') && f[|f| - 1] == Field(Second))
            && (k == 4 ==> f[|f| - 2] == Lit('-') && f[|f| - 1] == Field(Day))
  {
    PartEnds();
    var seconds := DatePart + TimePart;
    var fraction := seconds + FractionPart;
    if k == 0 || k == 2 {
      DropZAbsent(fraction);
      DropZAppend(fraction, [Lit('Z')]);
      assert SourceFormats[k] == fraction || SourceFormats[k] == fraction + [Lit('Z')];
    } else if k == 1 || k == 3 {
      DropZAbsent(seconds);
      DropZAppend(seconds, [Lit('Z')]);
      assert SourceFormats[k] == seconds || SourceFormats[k] == seconds + [Lit('Z')];
    } else {
      DropZAbsent(DatePart);
    }
  }

  lemma PartEnds()
    ensures var f := DatePart + TimePart + FractionPart;
            |f| == 13 && f[11] == Lit('.') && f[12] == Field(Fraction)
    ensures var f := DatePart + TimePart;
            && |f| == 11 && f[7] == Lit(':') && f[8] == Field(Minute)
            && f[9] == Lit(':') && f[10] == Field(Second)
    ensures |DatePart| == 5 && DatePart[3] == Lit('-') && DatePart[4] == Field(Day)
  {
  }

  /** The first format that parses: none, when every format rejects the text. */
  lemma {:induction false} FirstParseNone(ts: string, fmts: seq<Format>)
    requires forall k :: 0 <= k < |fmts| ==> Parse(ts, DropZ(fmts[k])) == None
    ensures FirstParse(ts, fmts) == None
    decreases |fmts|
  {
    if |fmts| > 0 {
      assert Parse(ts, DropZ(fmts[0])) == None;
      forall k | 0 <= k < |fmts[1..]| ensures Parse(ts, DropZ(fmts[1..][k])) == None {
        assert fmts[1..][k] == fmts[k + 1];
      }
      FirstParseNone(ts, fmts[1..]);
    }
  }


  // ----- ISO round trip -----

  /** `n` written with exactly two digits. */
  function Pad2(n: nat): (s: string)
    requires n < 100
    ensures |s| == 2 && IsDigits(s) && GroupValue(s) == n
  {
    var s := [DigitChar(n / 10), DigitChar(n % 10)];
    assert s[..1] == [s[0]];
    assert [s[0]][..0] == [];
    assert GroupValue([s[0]]) == n / 10;
    assert GroupValue(s) == 10 * (n / 10) + n % 10;
    s
  }

  function Pad4(n: nat): (s: string)
    requires n < 10_000
    ensures |s| == 4 && IsDigits(s) && GroupValue(s) == n
  {
    var hi := Pad2(n / 100);
    var lo := Pad2(n % 100);
    GroupValueAppend(hi, lo);
    assert Pow10(2) == 100;
    assert forall i :: 0 <= i < 4 ==> (hi + lo)[i] == (if i < 2 then hi[i] else lo[i - 2]);
    hi + lo
  }

  function Pad6(n: nat): (s: string)
    requires n < 1_000_000
    ensures |s| == 6 && IsDigits(s) && GroupValue(s) == n
  {
    var hi := Pad2(n / 10_000);
    var lo := Pad4(n % 10_000);
    GroupValueAppend(hi, lo);
    assert Pow10(4) == 10_000;
    assert forall i :: 0 <= i < 6 ==> (hi + lo)[i] == (if i < 2 then hi[i] else lo[i - 2]);
    hi + lo
  }

  /** How much of the time an ISO rendering shows. */
  datatype Precision = DateOnly | Seconds | Micros

  function DateTokens(t: CivilTime): seq<Token>
    requires t.Valid()
  {
    [Group(Year, Pad4(t.year)), Sep('-'), Group(Month, Pad2(t.month)), Sep('-'),
     Group(Day, Pad2(t.day))]
  }

  function TimeTokens(t: CivilTime): seq<Token>
    requires t.Valid()
  {
    [Sep('T'), Group(Hour, Pad2(t.hour)), Sep(':'), Group(Minute, Pad2(t.minute)), Sep(':'),
     Group(Second, Pad2(t.second))]
  }

  function FractionTokens(t: CivilTime): seq<Token>
    requires t.Valid()
  {
    [Sep('.'), Group(Fraction, Pad6(t.micro))]
  }

  function Tokens(t: CivilTime, p: Precision): seq<Token>
    requires t.Valid()
  {
    match p
    case DateOnly => DateTokens(t)
    case Seconds => DateTokens(t) + TimeTokens(t)
    case Micros => DateTokens(t) + TimeTokens(t) + FractionTokens(t)
  }

  /** The zero-padded ISO-8601 rendering `YYYY-MM-DD[THH:MM:SS[.ffffff]]` of a
      civil time, without zone. */
  function Render(t: CivilTime, p: Precision): string
    requires t.Valid()
  {
    TextOf(Tokens(t, p))
  }

  /** The rendering shows every component of the time. */
  predicate Shows(t: CivilTime, p: Precision) {
    match p
    case DateOnly => t.hour == 0 && t.minute == 0 && t.second == 0 && t.micro == 0
    case Seconds => t.micro == 0
    case Micros => true
  }

  /** The UTC designators the normaliser strips. */
  predicate UtcSuffix(zone: string) {
    zone == "" || zone == "Z" || zone == "+00:00"
  }

  // Each field's regex reads back exactly its padded value.

  lemma YearReadsBack(y: nat)
    requires 1 <= y <= 9999
    ensures ReadsBack(Group(Year, Pad4(y)))
  {
    var s := Pad4(y);
    assert AltMatches(Alternatives(Year)[0], s);
  }

  lemma MonthReadsBack(m: nat)
    requires 1 <= m <= 12
    ensures ReadsBack(Group(Month, Pad2(m)))
  {
    var alts := Alternatives(Month);
    var s := Pad2(m);
    if m >= 10 {
      assert AltMatches(alts[0], s);
    } else {
      assert !AltMatches(alts[0], s);
      assert AltMatches(alts[1], s);
      assert Candidates(alts, s) == Candidates(alts[1..], s);
    }
  }

  lemma DayReadsBack(d: nat)
    requires 1 <= d <= 31
    ensures ReadsBack(Group(Day, Pad2(d)))
  {
    var alts := Alternatives(Day);
    var s := Pad2(d);
    assert s == [DigitChar(d / 10), DigitChar(d % 10)];
    assert s[0] as int == '0' as int + d / 10;
    assert alts[0][0] == One('3') && alts[1][0] == Range('1', '2');
    if d >= 30 {
      assert AltMatches(alts[0], s);
    } else if d >= 10 {
      assert s[0] == '1' || s[0] == '2';
      assert !AltMatches(alts[0], s);
      assert AltMatches(alts[1], s);
      assert Candidates(alts, s) == Candidates(alts[1..], s);
    } else {
      assert s[0] == '0';
      assert !AltMatches(alts[0], s);
      assert !AltMatches(alts[1], s);
      assert AltMatches(alts[2], s);
      assert Candidates(alts, s) == Candidates(alts[1..], s);
      assert Candidates(alts[1..], s) == Candidates(alts[2..], s);
    }
  }

  lemma HourReadsBack(h: nat)
    requires h <= 23
    ensures ReadsBack(Group(Hour, Pad2(h)))
  {
    var alts := Alternatives(Hour);
    var s := Pad2(h);
    if h >= 20 {
      assert AltMatches(alts[0], s);
    } else {
      assert h / 10 <= 1;
      assert s[0] != '2';
      assert !AltMatches(alts[0], s);
      assert AltMatches(alts[1], s);
      assert Candidates(alts, s) == Candidates(alts[1..], s);
    }
  }

  lemma MinuteReadsBack(m: nat)
    requires m <= 59
    ensures ReadsBack(Group(Minute, Pad2(m)))
  {
    assert AltMatches(Alternatives(Minute)[0], Pad2(m));
  }

  lemma SecondReadsBack(sec: nat)
    requires sec <= 59
    ensures ReadsBack(Group(Second, Pad2(sec)))
  {
    var alts := Alternatives(Second);
    var s := Pad2(sec);
    assert sec / 10 <= 5;
    assert s[0] != '6';
    assert !AltMatches(alts[0], s);
    assert AltMatches(alts[1], s);
    assert Candidates(alts, s) == Candidates(alts[1..], s);
  }

  lemma FractionReadsBack(f: nat)
    requires f <= 999_999
    ensures ReadsBack(Group(Fraction, Pad6(f)))
  {
    var alts := Alternatives(Fraction);
    assert AltMatches(alts[0], Pad6(f));
  }

  /** A token that reads back and, if a group, renders as digits. */
  predicate Readable(tok: Token) {
    ReadsBack(tok) && (tok.Group? ==> IsDigits(tok.text))
  }

  predicate AllReadable(toks: seq<Token>) {
    forall i :: 0 <= i < |toks| ==> Readable(toks[i])
  }

  lemma AllReadableAppend(a: seq<Token>, b: seq<Token>)
    requires AllReadable(a) && AllReadable(b)
    ensures AllReadable(a + b)
  {
    forall i | 0 <= i < |a + b| ensures Readable((a + b)[i]) {
      if i >= |a| { assert (a + b)[i] == b[i - |a|]; }
    }
  }

  lemma DateTokensReadable(t: CivilTime)
    requires t.Valid()
    ensures AllReadable(DateTokens(t))
  {
    YearReadsBack(t.year);
    MonthReadsBack(t.month);
    DayReadsBack(t.day);
    var toks := DateTokens(t);
    forall i | 0 <= i < |toks| ensures Readable(toks[i]) {
    }
  }

  lemma TimeTokensReadable(t: CivilTime)
    requires t.Valid()
    ensures AllReadable(TimeTokens(t))
  {
    var h, m, s := Group(Hour, Pad2(t.hour)), Group(Minute, Pad2(t.minute)), Group(Second, Pad2(t.second));
    HourReadsBack(t.hour);
    MinuteReadsBack(t.minute);
    SecondReadsBack(t.second);
    assert Readable(h) && Readable(m) && Readable(s);
    assert Readable(Sep('T')) && Readable(Sep(':'));
    var toks := TimeTokens(t);
    assert toks == [Sep('T'), h, Sep(':'), m, Sep(':'), s];
    forall i | 0 <= i < |toks| ensures Readable(toks[i]) {
    }
  }

  lemma FractionTokensReadable(t: CivilTime)
    requires t.Valid()
    ensures AllReadable(FractionTokens(t))
  {
    FractionReadsBack(t.micro);
    var toks := FractionTokens(t);
    forall i | 0 <= i < |toks| ensures Readable(toks[i]) {
    }
  }

  lemma TokensReadable(t: CivilTime, p: Precision)
    requires t.Valid()
    ensures AllReadable(Tokens(t, p))
  {
    DateTokensReadable(t);
    TimeTokensReadable(t);
    FractionTokensReadable(t);
    AllReadableAppend(DateTokens(t), TimeTokens(t));
    AllReadableAppend(DateTokens(t) + TimeTokens(t), FractionTokens(t));
  }

  /** The separators of a rendering, by precision. */
  function Separators(p: Precision): set<char> {
    match p
    case DateOnly => {'-'}
    case Seconds => {'-', 'T', ':'}
    case Micros => {'-', 'T', ':', '.'}
  }

  lemma RenderChars(t: CivilTime, p: Precision, i: nat)
    requires t.Valid() && i < |Render(t, p)|
    ensures IsDigit(Render(t, p)[i]) || Render(t, p)[i] in Separators(p)
  {
    TokensReadable(t, p);
    var toks := Tokens(t, p);
    assert forall k :: 0 <= k < |toks| && toks[k].Group? ==> IsDigits(toks[k].text) by {
      forall k | 0 <= k < |toks| && toks[k].Group? ensures IsDigits(toks[k].text) {
        assert Readable(toks[k]);
      }
    }
    TextChars(toks, i);
    if !IsDigit(Render(t, p)[i]) {
      TokenSeparators(t, p, Render(t, p)[i]);
    }
  }

  lemma TokenSeparators(t: CivilTime, p: Precision, c: char)
    requires t.Valid() && Sep(c) in Tokens(t, p)
    ensures c in Separators(p)
  {
    assert Sep(c) in DateTokens(t) ==> c == '-';
    assert Sep(c) in TimeTokens(t) ==> c == 'T' || c == ':';
    assert Sep(c) in FractionTokens(t) ==> c == '.';
  }

  lemma RenderHasDash(t: CivilTime, p: Precision)
    requires t.Valid()
    ensures '-' in Render(t, p)
  {
    assert Sep('-') in Tokens(t, p);
    SepInText(Tokens(t, p), '-');
  }

  // Stripping the zone designator.

  lemma {:induction false} ReplaceOffsetAfter(b: string, zone: string)
    requires '+' !in b
    ensures ReplaceAll(b + zone, "+00:00", "Z") == b + ReplaceAll(zone, "+00:00", "Z")
    decreases |b|
  {
    if |b| == 0 {
      assert b + zone == zone;
    } else if |b + zone| < 6 {
    } else {
      var s := b + zone;
      assert s[0] == b[0] && b[0] != '+';
      assert s[..6] != "+00:00" by {
        assert s[..6][0] == s[0];
      }
      assert s[1..] == b[1..] + zone;
      assert ReplaceAll(s, "+00:00", "Z") == [b[0]] + ReplaceAll(b[1..] + zone, "+00:00", "Z");
      ReplaceOffsetAfter(b[1..], zone);
      assert b == [b[0]] + b[1..];
    }
  }

  /** The normaliser strips a UTC designator and nothing else from text without
      '+' or 'Z'. */
  lemma StripUtcSuffix(b: string, zone: string)
    requires '+' !in b && 'Z' !in b && UtcSuffix(zone)
    ensures StripUtcMarkers(b + zone) == b
  {
    ReplaceOffsetAfter(b, zone);
    var z := ReplaceAll(zone, "+00:00", "Z");
    assert z == "" || z == "Z";
    ReplaceCharByEmpty(b + z, 'Z');
    RemoveCharAppend(b, z, 'Z');
    RemoveAbsentChar(b, 'Z');
    assert RemoveChar(z, 'Z') == "";
  }

  // The format each precision is read with.

  lemma {:induction false} DropZAppend(a: Format, b: Format)
    ensures DropZ(a + b) == DropZ(a) + DropZ(b)
    decreases |a|
  {
    if |a| == 0 {
      assert a + b == b;
    } else {
      assert (a + b)[0] == a[0];
      assert (a + b)[1..] == a[1..] + b;
      DropZAppend(a[1..], b);
    }
  }

  lemma {:induction false} DropZAbsent(f: Format)
    requires Lit('Z') !in f
    ensures DropZ(f) == f
    decreases |f|
  {
    if |f| > 0 {
      DropZAbsent(f[1..]);
    }
  }

  /** The formats `strptime` is handed, in order. */
  lemma FormatsTried()
    ensures DropZ(SourceFormats[0]) == DatePart + TimePart + FractionPart
    ensures DropZ(SourceFormats[1]) == DatePart + TimePart
    ensures DropZ(SourceFormats[2]) == DatePart + TimePart + FractionPart
    ensures DropZ(SourceFormats[3]) == DatePart + TimePart
    ensures DropZ(SourceFormats[4]) == DatePart
  {
    DropZAbsent(DatePart);
    DropZAbsent(DatePart + TimePart);
    DropZAbsent(DatePart + TimePart + FractionPart);
    DropZAppend(DatePart + TimePart + FractionPart, [Lit('Z')]);
    DropZAppend(DatePart + TimePart, [Lit('Z')]);
  }

  lemma RenderFormat(t: CivilTime, p: Precision)
    requires t.Valid()
    ensures FormatOf(Tokens(t, p)) == match p
      case DateOnly => DatePart
      case Seconds => DatePart + TimePart
      case Micros => DatePart + TimePart + FractionPart
  {
    assert FormatOf(DateTokens(t)) == DatePart;
    assert FormatOf(TimeTokens(t)) == TimePart;
    assert FormatOf(FractionTokens(t)) == FractionPart;
    TokensAppend(DateTokens(t), TimeTokens(t));
    TokensAppend(DateTokens(t) + TimeTokens(t), FractionTokens(t));
  }

  // Reading the rendering back.

  lemma RenderCaptures(t: CivilTime, p: Precision)
    requires t.Valid()
    ensures var date := [Capture(Year, Pad4(t.year)), Capture(Month, Pad2(t.month)),
                         Capture(Day, Pad2(t.day))];
            var time := [Capture(Hour, Pad2(t.hour)), Capture(Minute, Pad2(t.minute)),
                         Capture(Second, Pad2(t.second))];
            CapturesOf(Tokens(t, p)) == match p
              case DateOnly => date
              case Seconds => date + time
              case Micros => date + time + [Capture(Fraction, Pad6(t.micro))]
  {
    var d, m, f := DateTokens(t), TimeTokens(t), FractionTokens(t);
    DateCaptures(t);
    TimeCaptures(t);
    FractionCaptures(t);
    TokensAppend(d, m);
    TokensAppend(d + m, f);
  }

  lemma DateCaptures(t: CivilTime)
    requires t.Valid()
    ensures CapturesOf(DateTokens(t)) == [Capture(Year, Pad4(t.year)), Capture(Month, Pad2(t.month)),
                                          Capture(Day, Pad2(t.day))]
  {
    var d := DateTokens(t);
    assert CapturesOf(d[4..]) == [Capture(Day, Pad2(t.day))];
    assert CapturesOf(d[2..]) == [Capture(Month, Pad2(t.month))] + CapturesOf(d[4..]);
    assert CapturesOf(d) == [Capture(Year, Pad4(t.year))] + CapturesOf(d[2..]);
  }

  lemma TimeCaptures(t: CivilTime)
    requires t.Valid()
    ensures CapturesOf(TimeTokens(t)) == [Capture(Hour, Pad2(t.hour)), Capture(Minute, Pad2(t.minute)),
                                          Capture(Second, Pad2(t.second))]
  {
    var m := TimeTokens(t);
    assert CapturesOf(m[5..]) == [Capture(Second, Pad2(t.second))];
    assert CapturesOf(m[3..]) == [Capture(Minute, Pad2(t.minute))] + CapturesOf(m[5..]);
    assert CapturesOf(m[1..]) == [Capture(Hour, Pad2(t.hour))] + CapturesOf(m[3..]);
  }

  lemma FractionCaptures(t: CivilTime)
    requires t.Valid()
    ensures CapturesOf(FractionTokens(t)) == [Capture(Fraction, Pad6(t.micro))]
  {
    var f := FractionTokens(t);
    assert CapturesOf(f[1..]) == [Capture(Fraction, Pad6(t.micro))];
  }

  lemma CivilOfRendering(t: CivilTime, p: Precision)
    requires t.Valid() && Shows(t, p)
    ensures CivilOf(CapturesOf(Tokens(t, p))) == t
  {
    RenderCaptures(t, p);
    var caps := CapturesOf(Tokens(t, p));
    LookupFirst(caps, 0, 1900);
    LookupFirst(caps, 1, 1);
    LookupFirst(caps, 2, 1);
    match p
    case DateOnly => CivilOfDateOnly(t, caps);
    case Seconds => CivilOfTime(t, caps);
    case Micros =>
      assert caps[6] == Capture(Fraction, Pad6(t.micro));
      assert CaptureValue(caps[6]) == t.micro;
      CivilOfTime(t, caps);
  }

  lemma CivilOfDateOnly(t: CivilTime, caps: seq<Capture>)
    requires t.Valid()
    requires caps == [Capture(Year, Pad4(t.year)), Capture(Month, Pad2(t.month)),
                      Capture(Day, Pad2(t.day))]
    ensures Lookup(caps, Hour, 0) == 0 && Lookup(caps, Minute, 0) == 0
    ensures Lookup(caps, Second, 0) == 0 && Lookup(caps, Fraction, 0) == 0
  {
    LookupAbsent(caps, Hour, 0);
    LookupAbsent(caps, Minute, 0);
    LookupAbsent(caps, Second, 0);
    LookupAbsent(caps, Fraction, 0);
  }

  lemma CivilOfTime(t: CivilTime, caps: seq<Capture>)
    requires t.Valid() && 6 <= |caps| <= 7
    requires caps[0].d == Year && caps[1].d == Month && caps[2].d == Day
    requires caps[3] == Capture(Hour, Pad2(t.hour))
    requires caps[4] == Capture(Minute, Pad2(t.minute))
    requires caps[5] == Capture(Second, Pad2(t.second))
    requires |caps| == 6 ==> t.micro == 0
    requires |caps| == 7 ==> caps[6].d == Fraction && CaptureValue(caps[6]) == t.micro
    ensures Lookup(caps, Hour, 0) == t.hour && Lookup(caps, Minute, 0) == t.minute
    ensures Lookup(caps, Second, 0) == t.second && Lookup(caps, Fraction, 0) == t.micro
  {
    assert CaptureValue(caps[3]) == t.hour;
    LookupFirst(caps, 3, 0);
    assert CaptureValue(caps[4]) == t.minute;
    LookupFirst(caps, 4, 0);
    assert CaptureValue(caps[5]) == t.second;
    LookupFirst(caps, 5, 0);
    FractionOfTime(t, caps);
  }

  lemma FractionOfTime(t: CivilTime, caps: seq<Capture>)
    requires t.Valid() && 6 <= |caps| <= 7
    requires forall j :: 0 <= j < 6 ==> caps[j].d != Fraction
    requires |caps| == 6 ==> t.micro == 0
    requires |caps| == 7 ==> caps[6].d == Fraction && CaptureValue(caps[6]) == t.micro
    ensures Lookup(caps, Fraction, 0) == t.micro
  {
    if |caps| == 6 {
      LookupAbsent(caps, Fraction, 0);
    } else {
      LookupFirst(caps, 6, 0);
    }
  }

  /** The rendering parses, with the format of its own precision, to the instant. */
  lemma ParseRendering(t: CivilTime, p: Precision)
    requires t.Valid() && Shows(t, p)
    ensures Parse(Render(t, p), FormatOf(Tokens(t, p))) == Some(ToInstant(t))
  {
    TokensReadable(t, p);
    var toks := Tokens(t, p);
    assert forall i :: 0 <= i < |toks| ==> ReadsBack(toks[i]) by {
      forall i | 0 <= i < |toks| ensures ReadsBack(toks[i]) {
        assert Readable(toks[i]);
      }
    }
    MatchTokens(toks, "");
    assert Render(t, p) + "" == Render(t, p);
    CivilOfRendering(t, p);
  }

  /** No character of a rendering matches a separator it does not use. */
  lemma RenderLacks(t: CivilTime, p: Precision, c: char)
    requires t.Valid() && (c == 'T' || c == '.') && c !in Separators(p)
    ensures forall i :: 0 <= i < |Render(t, p)| ==> !LitMatches(c, Render(t, p)[i])
  {
    var b := Render(t, p);
    forall i | 0 <= i < |b| ensures !LitMatches(c, b[i]) {
      RenderChars(t, p, i);
    }
  }

  lemma {:induction false} FirstParseFinds(ts: string, fmts: seq<Format>, k: nat, v: Instant)
    requires k < |fmts| && Parse(ts, DropZ(fmts[k])) == Some(v)
    requires forall j :: 0 <= j < k ==> Parse(ts, DropZ(fmts[j])) == None
    ensures FirstParse(ts, fmts) == Some(v)
    decreases k
  {
    if k == 0 {
      assert FirstParse(ts, fmts) == Some(v);
    } else {
      var rest := fmts[1..];
      assert Parse(ts, DropZ(fmts[0])) == None;
      assert FirstParse(ts, fmts) == FirstParse(ts, rest);
      assert rest[k - 1] == fmts[k];
      forall j | 0 <= j < k - 1 ensures Parse(ts, DropZ(rest[j])) == None {
        assert rest[j] == fmts[j + 1];
      }
      FirstParseFinds(ts, rest, k - 1, v);
    }
  }

  /** The parse of a rendering: the format of its own precision is the first
      one that accepts it. */
  lemma ReadRendering(t: CivilTime, p: Precision)
    requires t.Valid() && Shows(t, p)
    ensures FirstParse(Render(t, p), SourceFormats) == Some(ToInstant(t))
  {
    FormatsTried();
    RenderFormat(t, p);
    ParseRendering(t, p);
    match p
    case Micros => FirstParseFinds(Render(t, p), SourceFormats, 0, ToInstant(t));
    case Seconds => ReadSeconds(t, Render(t, p), ToInstant(t));
    case DateOnly => ReadDateOnly(t, Render(t, p), ToInstant(t));
  }

  lemma ReadSeconds(t: CivilTime, b: string, v: Instant)
    requires t.Valid() && b == Render(t, Seconds)
    requires Parse(b, DropZ(SourceFormats[1])) == Some(v)
    ensures FirstParse(b, SourceFormats) == Some(v)
  {
    RenderLacks(t, Seconds, '.');
    FormatsNeed();
    FirstParseSkipsWithout(b, SourceFormats, '.', 1, v);
  }

  lemma ReadDateOnly(t: CivilTime, b: string, v: Instant)
    requires t.Valid() && b == Render(t, DateOnly)
    requires Parse(b, DropZ(SourceFormats[4])) == Some(v)
    ensures FirstParse(b, SourceFormats) == Some(v)
  {
    RenderLacks(t, DateOnly, 'T');
    FormatsNeed();
    FirstParseSkipsWithout(b, SourceFormats, 'T', 4, v);
  }

  lemma {:induction false} KeptByDropZ(f: Format, k: nat, x: Piece)
    requires k < |f| && f[k] == x && x != Lit('Z')
    ensures x in DropZ(f)
    decreases k
  {
    assert DropZ(f) == (if f[0] == Lit('Z') then [] else [f[0]]) + DropZ(f[1..]);
    if k > 0 {
      KeptByDropZ(f[1..], k - 1, x);
    }
  }

  /** The literals that tell the formats apart. */
  lemma FormatsNeed()
    ensures Lit('.') in DropZ(SourceFormats[0])
    ensures forall j :: 0 <= j < 4 ==> Lit('T') in DropZ(SourceFormats[j])
  {
    KeptByDropZ(SourceFormats[0], 11, Lit('.'));
    forall j | 0 <= j < 4 ensures Lit('T') in DropZ(SourceFormats[j]) {
      assert SourceFormats[j][5] == Lit('T');
      KeptByDropZ(SourceFormats[j], 5, Lit('T'));
    }
  }

  /** Text in which no character matches `c` passes over every format that has
      the literal `c`. */
  lemma FirstParseSkipsWithout(ts: string, fmts: seq<Format>, c: char, k: nat, v: Instant)
    requires k < |fmts| && Parse(ts, DropZ(fmts[k])) == Some(v)
    requires forall j :: 0 <= j < k ==> Lit(c) in DropZ(fmts[j])
    requires forall i :: 0 <= i < |ts| ==> !LitMatches(c, ts[i])
    ensures FirstParse(ts, fmts) == Some(v)
  {
    forall j | 0 <= j < k ensures Parse(ts, DropZ(fmts[j])) == None {
      LiteralRequired(DropZ(fmts[j]), ts, c);
    }
    FirstParseFinds(ts, fmts, k, v);
  }

  /** What the normaliser does with a date-like text followed by a UTC designator. */
  lemma ConvertDateLike(b: string, zone: string)
    requires ('-' in b || 'T' in b) && '+' !in b && 'Z' !in b && UtcSuffix(zone)
    ensures Convert(Some(b + zone)) == FirstParse(b, SourceFormats)
  {
    var k :| 0 <= k < |b| && (b[k] == '-' || b[k] == 'T');
    assert (b + zone)[k] == b[k];
    StripUtcSuffix(b, zone);
  }

  /** "Z", "+00:00" and no designator at all are read alike. */
  lemma UtcDesignatorsAgree(b: string)
    requires ('-' in b || 'T' in b) && '+' !in b && 'Z' !in b
    ensures Convert(Some(b + "Z")) == Convert(Some(b))
    ensures Convert(Some(b + "+00:00")) == Convert(Some(b))
  {
    ConvertDateLike(b, "");
    ConvertDateLike(b, "Z");
    ConvertDateLike(b, "+00:00");
    assert b + "" == b;
  }

  /** ISO round trip: a zero-padded ISO-8601 rendering of a civil time, with no
      zone, "Z" or "+00:00", converts to the instant it denotes. */
  lemma IsoRoundTrip(t: CivilTime, p: Precision, zone: string)
    requires t.Valid() && Shows(t, p) && UtcSuffix(zone)
    ensures Convert(Some(Render(t, p) + zone)) == Some(ToInstant(t))
  {
    var b := Render(t, p);
    RenderHasDash(t, p);
    assert '+' !in b && 'Z' !in b by {
      forall i | 0 <= i < |b| ensures b[i] != '+' && b[i] != 'Z' {
        RenderChars(t, p, i);
      }
    }
    ConvertDateLike(b, zone);
    ReadRendering(t, p);
  }

  // Fractions of fewer than six digits: `%f` accepts one to six digits and
  // pads what it reads with zeros on the right.

  /** The first `k` digits of the six-digit fraction, as a rendering with
      `k` fraction digits shows them. */
  function FractionDigits(micro: nat, k: nat): (s: string)
    requires micro < 1_000_000 && 1 <= k <= 6
    ensures |s| == k && IsDigits(s)
  {
    var s := Pad6(micro)[..k];
    assert forall i :: 0 <= i < k ==> s[i] == Pad6(micro)[i];
    s
  }

  /** When the digits left off are zeros, the shorter fraction stands for the
      same microseconds. */
  lemma ShortFractionValue(micro: nat, k: nat)
    requires micro < 1_000_000 && 1 <= k <= 6 && micro % Pow10(6 - k) == 0
    ensures FractionValue(FractionDigits(micro, k)) == micro
  {
    var s := Pad6(micro);
    var hi, lo := s[..k], s[k..];
    if k < 6 {
      assert s == hi + lo;
      assert forall i :: 0 <= i < |lo| ==> IsDigit(lo[i]) by {
        forall i | 0 <= i < |lo| ensures IsDigit(lo[i]) { assert lo[i] == s[k + i]; }
      }
      GroupValueAppend(hi, lo);
      GroupValueBelow(lo);
      DroppedZeros(GroupValue(hi), Pow10(6 - k), GroupValue(lo), micro);
    } else {
      assert hi == s;
    }
  }

  lemma DroppedZeros(h: nat, p: nat, l: nat, m: nat)
    requires p >= 1 && l < p && m == h * p + l && m % p == 0
    ensures l == 0 && m == h * p
  {
    var d: int := m / p - h;
    assert l == d * p;
  }

  /** A rendering with `k` fraction digits, `YYYY-MM-DDTHH:MM:SS.f…f`, lists
      the tokens of the seconds rendering, the dot, and the fraction read last. */
  lemma ShortFractionTokens(t: CivilTime, k: nat)
    requires t.Valid() && 1 <= k <= 6
    ensures var all := Tokens(t, Seconds) + [Sep('.'), Group(Fraction, FractionDigits(t.micro, k))];
            && FormatOf(all) == DatePart + TimePart + FractionPart
            && TextOf(all) == Render(t, Seconds) + "." + FractionDigits(t.micro, k)
            && CapturesOf(all) == CapturesOf(Tokens(t, Seconds)) + [Capture(Fraction, FractionDigits(t.micro, k))]
  {
    var f := [Sep('.'), Group(Fraction, FractionDigits(t.micro, k))];
    FractionOfDigits(FractionDigits(t.micro, k));
    RenderFormat(t, Seconds);
    TokensAppend(Tokens(t, Seconds), f);
  }

  lemma FractionOfDigits(x: string)
    ensures FormatOf([Sep('.'), Group(Fraction, x)]) == FractionPart
    ensures TextOf([Sep('.'), Group(Fraction, x)]) == "." + x
    ensures CapturesOf([Sep('.'), Group(Fraction, x)]) == [Capture(Fraction, x)]
  {
    var f := [Sep('.'), Group(Fraction, x)];
    assert f[1..] == [Group(Fraction, x)];
    assert TextOf(f[1..]) == x + "";
    assert CapturesOf(f[1..]) == [Capture(Fraction, x)] + [];
  }

  /** The rendering with `k` fraction digits parses, with the first format, to
      the instant. */
  lemma ParseShortFraction(t: CivilTime, k: nat)
    requires t.Valid() && 1 <= k <= 6 && t.micro % Pow10(6 - k) == 0
    ensures Parse(Render(t, Seconds) + "." + FractionDigits(t.micro, k), DatePart + TimePart + FractionPart)
            == Some(ToInstant(t))
  {
    var frac := FractionDigits(t.micro, k);
    MatchShortFraction(t, k);
    ShortFractionTokens(t, k);
    CivilOfShortFraction(t, k, CapturesOf(Tokens(t, Seconds)) + [Capture(Fraction, frac)]);
  }

  lemma MatchShortFraction(t: CivilTime, k: nat)
    requires t.Valid() && 1 <= k <= 6
    ensures var all := Tokens(t, Seconds) + [Sep('.'), Group(Fraction, FractionDigits(t.micro, k))];
            MatchFrom(FormatOf(all), TextOf(all)) == Some((CapturesOf(all), ""))
  {
    var frac := FractionDigits(t.micro, k);
    var last := Group(Fraction, frac);
    var toks := Tokens(t, Seconds) + [Sep('.')];
    ShortFractionAtEnd(frac);
    TokensReadable(t, Seconds);
    assert forall i :: 0 <= i < |toks| ==> ReadsBack(toks[i]) by {
      forall i | 0 <= i < |toks| ensures ReadsBack(toks[i]) {
        if i < |Tokens(t, Seconds)| { assert Readable(Tokens(t, Seconds)[i]); }
      }
    }
    MatchTokensToEnd(toks, last);
    assert toks + [last] == Tokens(t, Seconds) + [Sep('.'), last];
  }

  lemma CivilOfShortFraction(t: CivilTime, k: nat, caps: seq<Capture>)
    requires t.Valid() && 1 <= k <= 6 && t.micro % Pow10(6 - k) == 0
    requires caps == CapturesOf(Tokens(t, Seconds)) + [Capture(Fraction, FractionDigits(t.micro, k))]
    ensures CivilOf(caps) == t
  {
    ShortFractionValue(t.micro, k);
    RenderCaptures(t, Seconds);
    assert caps[6] == Capture(Fraction, FractionDigits(t.micro, k));
    assert CaptureValue(caps[6]) == t.micro;
    LookupFirst(caps, 0, 1900);
    LookupFirst(caps, 1, 1);
    LookupFirst(caps, 2, 1);
    CivilOfTime(t, caps);
  }

  /** Short-fraction round trip: an ISO-8601 rendering whose fraction shows
      only its first `k` digits, the rest being zeros (".123Z" for 123 000
      microseconds), converts to the instant it denotes. */
  lemma ShortFractionRoundTrip(t: CivilTime, k: nat, zone: string)
    requires t.Valid() && 1 <= k <= 6 && t.micro % Pow10(6 - k) == 0 && UtcSuffix(zone)
    ensures Convert(Some(Render(t, Seconds) + "." + FractionDigits(t.micro, k) + zone)) == Some(ToInstant(t))
  {
    var b := Render(t, Seconds) + "." + FractionDigits(t.micro, k);
    ShortFractionChars(t, k);
    ConvertDateLike(b, zone);
    FormatsTried();
    ParseShortFraction(t, k);
    FirstParseFinds(b, SourceFormats, 0, ToInstant(t));
  }

  lemma ShortFractionChars(t: CivilTime, k: nat)
    requires t.Valid() && 1 <= k <= 6
    ensures var b := Render(t, Seconds) + "." + FractionDigits(t.micro, k);
            '-' in b && '+' !in b && 'Z' !in b
  {
    var r := Render(t, Seconds);
    var frac := FractionDigits(t.micro, k);
    var b := r + "." + frac;
    RenderHasDash(t, Seconds);
    assert '-' in b by {
      var i :| 0 <= i < |r| && r[i] == '-';
      assert b[i] == r[i];
    }
    assert '+' !in b && 'Z' !in b by {
      forall i | 0 <= i < |b| ensures b[i] != '+' && b[i] != 'Z' {
        if i < |r| {
          assert b[i] == r[i];
          RenderChars(t, Seconds, i);
        } else if i > |r| {
          assert b[i] == frac[i - |r| - 1];
        }
      }
    }
  }
}
