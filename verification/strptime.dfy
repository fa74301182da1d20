/** `datetime.strptime` for the directives the timestamp normaliser uses.

    CPython turns a format into a regular expression, one named group per
    directive, compiled case-insensitively; it accepts the string only if
    `re.match` succeeds AND consumes the whole string ("unconverted data
    remains" otherwise), and then builds a `datetime`, which rejects impossible
    dates and seconds 60/61. The matcher below is that regular expression:
    each directive is an ordered list of alternatives, tried first to last with
    backtracking, and the first overall match wins. */
module Strptime {
  import opened Wrappers
  import opened Text
  import opened Calendar

  /** `%Y %m %d %H %M %S %f`. */
  datatype Directive = Year | Month | Day | Hour | Minute | Second | Fraction

  /** A format is a sequence of literal characters and directives. */
  datatype Piece = Lit(c: char) | Field(d: Directive)
  type Format = seq<Piece>

  /** One character class of an alternative: a character range. */
  datatype CharClass = Range(lo: char, hi: char)

  const AnyDigit := Range('0', '9')

  function One(c: char): CharClass { Range(c, c) }

  /** The alternatives of CPython's regular expression for each directive, in
      the order the regex engine tries them; `%f` is the greedy `[0-9]{1,6}`,
      which tries six digits first and one last. */
  function Alternatives(d: Directive): seq<seq<CharClass>> {
    match d
    case Year => [[AnyDigit, AnyDigit, AnyDigit, AnyDigit]]
    case Month => [[One('1'), Range('0', '2')], [One('0'), Range('1', '9')], [Range('1', '9')]]
    case Day => [[One('3'), Range('0', '1')], [Range('1', '2'), AnyDigit],
                 [One('0'), Range('1', '9')], [Range('1', '9')], [One(' '), Range('1', '9')]]
    case Hour => [[One('2'), Range('0', '3')], [Range('0', '1'), AnyDigit], [AnyDigit]]
    case Minute => [[Range('0', '5'), AnyDigit], [AnyDigit]]
    case Second => [[One('6'), Range('0', '1')], [Range('0', '5'), AnyDigit], [AnyDigit]]
    case Fraction => seq(6, k requires 0 <= k < 6 => seq(6 - k, _ => AnyDigit))
  }

  predicate InClass(k: CharClass, c: char) {
    k.lo <= c <= k.hi
  }

  /** The alternative matches a prefix of `s`. */
  predicate AltMatches(alt: seq<CharClass>, s: string) {
    |alt| <= |s| && forall i :: 0 <= i < |alt| ==> InClass(alt[i], s[i])
  }

  /** Lengths of the alternatives that match at the start of `s`, in order. */
  function Candidates(alts: seq<seq<CharClass>>, s: string): (lens: seq<nat>)
    ensures forall i :: 0 <= i < |lens| ==> lens[i] <= |s|
  {
    if |alts| == 0 then []
    else (if AltMatches(alts[0], s) then [|alts[0]|] else []) + Candidates(alts[1..], s)
  }

  /** The candidates are exactly the lengths of the alternatives that match:
      each is the length of a matching alternative, and every matching
      alternative contributes its length. */
  lemma {:induction false} CandidatesAreMatches(alts: seq<seq<CharClass>>, s: string)
    ensures forall i :: 0 <= i < |Candidates(alts, s)| ==> MatchingLength(alts, s, Candidates(alts, s)[i])
    ensures forall a :: 0 <= a < |alts| && AltMatches(alts[a], s) ==> |alts[a]| in Candidates(alts, s)
  {
    CandidatesMatch(alts, s);
    MatchesAreCandidates(alts, s);
  }

  /** `n` is the length of an alternative that matches at the start of `s`. */
  predicate MatchingLength(alts: seq<seq<CharClass>>, s: string, n: nat) {
    exists a :: 0 <= a < |alts| && AltMatches(alts[a], s) && n == |alts[a]|
  }

  lemma {:induction false} CandidatesMatch(alts: seq<seq<CharClass>>, s: string)
    ensures forall i :: 0 <= i < |Candidates(alts, s)| ==> MatchingLength(alts, s, Candidates(alts, s)[i])
    decreases |alts|
  {
    var lens := Candidates(alts, s);
    if |alts| > 0 {
      var tail := Candidates(alts[1..], s);
      var head: seq<nat> := if AltMatches(alts[0], s) then [|alts[0]|] else [];
      assert lens == head + tail;
      CandidatesMatch(alts[1..], s);
      forall i | 0 <= i < |lens| ensures MatchingLength(alts, s, lens[i]) {
        if i < |head| {
          assert AltMatches(alts[0], s) && lens[i] == |alts[0]|;
        } else {
          assert lens[i] == tail[i - |head|];
          assert MatchingLength(alts[1..], s, tail[i - |head|]);
          var a :| 0 <= a < |alts[1..]| && AltMatches(alts[1..][a], s) && tail[i - |head|] == |alts[1..][a]|;
          assert alts[1..][a] == alts[a + 1];
        }
      }
    }
  }

  lemma {:induction false} MatchesAreCandidates(alts: seq<seq<CharClass>>, s: string)
    ensures forall a :: 0 <= a < |alts| && AltMatches(alts[a], s) ==> |alts[a]| in Candidates(alts, s)
    decreases |alts|
  {
    if |alts| > 0 {
      var lens, tail := Candidates(alts, s), Candidates(alts[1..], s);
      var head: seq<nat> := if AltMatches(alts[0], s) then [|alts[0]|] else [];
      assert lens == head + tail;
      MatchesAreCandidates(alts[1..], s);
      forall a | 0 <= a < |alts| && AltMatches(alts[a], s) ensures |alts[a]| in lens {
        if a == 0 {
          assert lens[0] == |alts[0]|;
        } else {
          assert alts[1..][a - 1] == alts[a];
          var i :| 0 <= i < |tail| && tail[i] == |alts[a]|;
          assert lens[|head| + i] == tail[i];
        }
      }
    }
  }


  /** A literal of the format matches case-insensitively (`re.IGNORECASE`). */
  predicate LitMatches(lit: char, c: char) {
    LowerChar(lit) == LowerChar(c)
  }

  datatype Capture = Capture(d: Directive, text: string)

  /** `re.match` of the format's regex against `s`: the captured groups and the
      unconsumed rest, or None. */
  function MatchFrom(ps: Format, s: string): Option<(seq<Capture>, string)>
    decreases |ps|, 1, 0
  {
    if |ps| == 0 then Some(([], s))
    else match ps[0]
      case Lit(c) =>
        if |s| > 0 && LitMatches(c, s[0]) then MatchFrom(ps[1..], s[1..]) else None
      case Field(d) => TryAlternatives(d, Candidates(Alternatives(d), s), ps[1..], s)
  }

  /** Backtracking over the alternatives of one directive. */
  function TryAlternatives(d: Directive, lens: seq<nat>, rest: Format, s: string)
    : Option<(seq<Capture>, string)>
    requires forall i :: 0 <= i < |lens| ==> lens[i] <= |s|
    decreases |rest| + 1, 0, |lens|
  {
    if |lens| == 0 then None
    else match MatchFrom(rest, s[lens[0]..])
      case Some((caps, r)) => Some(([Capture(d, s[..lens[0]])] + caps, r))
      case None => TryAlternatives(d, lens[1..], rest, s)
  }

  /** `int(text)` of a captured group: its digits (a `%d` group may start with a
      space, which `int` ignores). */
  function GroupValue(text: string): nat {
    if |text| == 0 then 0
    else if IsDigit(text[|text| - 1])
    then 10 * GroupValue(text[..|text| - 1]) + DigitValue(text[|text| - 1])
    else GroupValue(text[..|text| - 1])
  }

  function Pow10(n: nat): (p: nat)
    ensures p >= 1
  {
    if n == 0 then 1 else 10 * Pow10(n - 1)
  }

  /** `%f` is padded on the right with zeros to six digits. */
  function FractionValue(text: string): nat {
    if |text| >= 6 then GroupValue(text) else GroupValue(text) * Pow10(6 - |text|)
  }

  /** The number a captured group stands for. */
  function CaptureValue(c: Capture): nat {
    if c.d == Fraction then FractionValue(c.text) else GroupValue(c.text)
  }

  /** The value of the first group captured for `d`, or `default`. */
  function Lookup(caps: seq<Capture>, d: Directive, default: nat): nat {
    if |caps| == 0 then default
    else if caps[0].d == d then CaptureValue(caps[0])
    else Lookup(caps[1..], d, default)
  }

  /** The civil time the groups denote, with `strptime`'s defaults for absent
      directives. */
  function CivilOf(caps: seq<Capture>): CivilTime {
    CivilTime(Lookup(caps, Year, 1900), Lookup(caps, Month, 1), Lookup(caps, Day, 1),
              Lookup(caps, Hour, 0), Lookup(caps, Minute, 0), Lookup(caps, Second, 0),
              Lookup(caps, Fraction, 0))
  }

  /** `datetime.strptime(s, fmt)` read as a UTC instant; None where it raises
      `ValueError`. */
  function Parse(s: string, fmt: Format): Option<Instant> {
    match MatchFrom(fmt, s)
    case None => None
    case Some((caps, rest)) =>
      if rest != "" then None
      else
        var t := CivilOf(caps);
        if t.Valid() then Some(ToInstant(t)) else None
  }

  // ----- What a successful match implies about the input -----

  /** Every character class used by the directives is a digit range or a space. */
  predicate DigitOrSpaceClass(k: CharClass) {
    ('0' <= k.lo && k.hi <= '9') || (k.lo == ' ' && k.hi == ' ')
  }

  lemma AlternativesAreDigitsOrSpace(d: Directive)
    ensures forall a, i :: 0 <= a < |Alternatives(d)| && 0 <= i < |Alternatives(d)[a]| ==>
              DigitOrSpaceClass(Alternatives(d)[a][i])
  {
  }

  /** A candidate length covers only digits and spaces. */
  lemma {:induction false} CandidateChars(alts: seq<seq<CharClass>>, s: string, k: nat, j: nat)
    requires forall a, i :: 0 <= a < |alts| && 0 <= i < |alts[a]| ==> DigitOrSpaceClass(alts[a][i])
    requires k < |Candidates(alts, s)| && j < Candidates(alts, s)[k]
    ensures IsDigit(s[j]) || s[j] == ' '
    decreases |alts|
  {
    if AltMatches(alts[0], s) && k == 0 {
      assert InClass(alts[0][j], s[j]);
      assert DigitOrSpaceClass(alts[0][j]);
    } else if AltMatches(alts[0], s) {
      CandidateChars(alts[1..], s, k - 1, j);
    } else {
      CandidateChars(alts[1..], s, k, j);
    }
  }

  /** No literal of the format matches `c`. */
  predicate NoLiteralMatches(ps: Format, c: char) {
    forall j :: 0 <= j < |ps| && ps[j].Lit? ==> !LitMatches(ps[j].c, c)
  }

  /** A character that is neither a digit, a space, nor accepted by a literal of
      the format is never consumed: if it occurs in the input, it occurs in the
      unconsumed rest of any match. */
  lemma {:induction false} ForeignCharSurvives(ps: Format, s: string, c: char)
    requires c in s && !IsDigit(c) && c != ' ' && NoLiteralMatches(ps, c)
    ensures MatchFrom(ps, s).Some? ==> c in MatchFrom(ps, s).value.1
    decreases |ps|, 1, 0
  {
    if |ps| > 0 {
      match ps[0]
      case Lit(l) =>
        if |s| > 0 && LitMatches(l, s[0]) {
          assert s[0] != c;
          assert c in s[1..] by {
            var i :| 0 <= i < |s| && s[i] == c;
            assert s[1..][i - 1] == c;
          }
          ForeignCharSurvives(ps[1..], s[1..], c);
        }
      case Field(d) =>
        AlternativesAreDigitsOrSpace(d);
        ForeignCharSurvivesAlternatives(d, Candidates(Alternatives(d), s), 0, ps[1..], s, c);
    }
  }

  lemma {:induction false} ForeignCharSurvivesAlternatives(d: Directive, lens: seq<nat>, from: nat,
                                                           rest: Format, s: string, c: char)
    requires lens == Candidates(Alternatives(d), s) && from <= |lens|
    requires c in s && !IsDigit(c) && c != ' ' && NoLiteralMatches(rest, c)
    ensures TryAlternatives(d, lens[from..], rest, s).Some? ==>
              c in TryAlternatives(d, lens[from..], rest, s).value.1
    decreases |rest| + 1, 0, |lens| - from
  {
    if from < |lens| {
      var l := lens[from];
      assert lens[from..][0] == l && lens[from..][1..] == lens[from + 1..];
      assert c in s[l..] by {
        var i :| 0 <= i < |s| && s[i] == c;
        if i < l {
          AlternativesAreDigitsOrSpace(d);
          CandidateChars(Alternatives(d), s, from, i);
        }
        assert s[l..][i - l] == c;
      }
      ForeignCharSurvives(rest, s[l..], c);
      ForeignCharSurvivesAlternatives(d, lens, from + 1, rest, s, c);
    }
  }

  /** A literal of the format must be matched by some character of the input. */
  lemma {:induction false} LiteralRequired(ps: Format, s: string, c: char)
    requires Lit(c) in ps
    requires forall i :: 0 <= i < |s| ==> !LitMatches(c, s[i])
    ensures MatchFrom(ps, s) == None
    decreases |ps|, 1, 0
  {
    assert ps[0] != Lit(c) ==> Lit(c) in ps[1..] by {
      var j :| 0 <= j < |ps| && ps[j] == Lit(c);
      if ps[0] != Lit(c) { assert ps[1..][j - 1] == Lit(c); }
    }
    match ps[0]
    case Lit(l) =>
      if l != c && |s| > 0 && LitMatches(l, s[0]) {
        LiteralRequired(ps[1..], s[1..], c);
      }
    case Field(d) =>
      LiteralRequiredAlternatives(d, Candidates(Alternatives(d), s), ps[1..], s, c);
  }

  lemma {:induction false} LiteralRequiredAlternatives(d: Directive, lens: seq<nat>, rest: Format,
                                                       s: string, c: char)
    requires forall i :: 0 <= i < |lens| ==> lens[i] <= |s|
    requires Lit(c) in rest
    requires forall i :: 0 <= i < |s| ==> !LitMatches(c, s[i])
    ensures TryAlternatives(d, lens, rest, s) == None
    decreases |rest| + 1, 0, |lens|
  {
    if |lens| > 0 {
      LiteralRequired(rest, s[lens[0]..], c);
      LiteralRequiredAlternatives(d, lens[1..], rest, s, c);
    }
  }

  // ----- Reading a successful match back from its end -----

  /** The widest text a directive captures. */
  function Width(d: Directive): nat {
    match d
    case Year => 4
    case Fraction => 6
    case _ => 2
  }

  lemma AlternativeWidths(d: Directive)
    ensures forall a :: 0 <= a < |Alternatives(d)| ==> 1 <= |Alternatives(d)[a]| <= Width(d)
  {
  }

  /** The matched result of `rest` after the alternative backtracking chose. */
  lemma {:induction false} TryAlternativesBack(d: Directive, lens: seq<nat>, rest: Format, s: string)
    returns (i: nat)
    requires forall i :: 0 <= i < |lens| ==> lens[i] <= |s|
    requires TryAlternatives(d, lens, rest, s).Some?
    ensures i < |lens| && MatchFrom(rest, s[lens[i]..]).Some?
    ensures MatchFrom(rest, s[lens[i]..]).value.1 == TryAlternatives(d, lens, rest, s).value.1
    decreases |lens|
  {
    if MatchFrom(rest, s[lens[0]..]).Some? {
      i := 0;
    } else {
      var k := TryAlternativesBack(d, lens[1..], rest, s);
      assert lens[1..][k] == lens[k + 1];
      i := k + 1;
    }
  }

  /** A literal that starts a successful match took the first character. */
  lemma {:induction false} LitBack(c: char, ps: Format, s: string)
    requires |ps| > 0 && ps[0] == Lit(c) && MatchFrom(ps, s).Some?
    ensures |s| > 0 && LitMatches(c, s[0]) && MatchFrom(ps, s) == MatchFrom(ps[1..], s[1..])
  {
  }

  /** A directive that starts a successful match took between one and
      `Width(d)` digits or spaces, and the rest of the format matched after
      them, leaving the same text unconsumed. */
  lemma {:induction false} FieldBack(d: Directive, ps: Format, s: string) returns (n: nat)
    requires |ps| > 0 && ps[0] == Field(d) && MatchFrom(ps, s).Some?
    ensures 1 <= n <= Width(d) && n <= |s|
    ensures forall i :: 0 <= i < n ==> IsDigit(s[i]) || s[i] == ' '
    ensures MatchFrom(ps[1..], s[n..]).Some?
    ensures MatchFrom(ps[1..], s[n..]).value.1 == MatchFrom(ps, s).value.1
  {
    var lens := Candidates(Alternatives(d), s);
    assert MatchFrom(ps, s) == TryAlternatives(d, lens, ps[1..], s);
    var k := TryAlternativesBack(d, lens, ps[1..], s);
    CandidateWidth(d, s, k);
    CandidateTakesDigits(d, s, k);
    n := lens[k];
  }

  lemma {:induction false} CandidateWidth(d: Directive, s: string, k: nat)
    requires k < |Candidates(Alternatives(d), s)|
    ensures 1 <= Candidates(Alternatives(d), s)[k] <= Width(d)
  {
    CandidatesAreMatches(Alternatives(d), s);
    AlternativeWidths(d);
  }

  lemma {:induction false} CandidateTakesDigits(d: Directive, s: string, k: nat)
    requires k < |Candidates(Alternatives(d), s)|
    ensures forall i :: 0 <= i < Candidates(Alternatives(d), s)[k] ==> IsDigit(s[i]) || s[i] == ' '
  {
    AlternativesAreDigitsOrSpace(d);
    forall i | 0 <= i < Candidates(Alternatives(d), s)[k] ensures IsDigit(s[i]) || s[i] == ' ' {
      CandidateChars(Alternatives(d), s, k, i);
    }
  }

  /** A successful match reaches every suffix of its format: some suffix of the
      input matches it, leaving the same text unconsumed. */
  lemma {:induction false} MatchTail(ps: Format, s: string, k: nat) returns (j: nat)
    requires MatchFrom(ps, s).Some? && k <= |ps|
    ensures j <= |s| && MatchFrom(ps[k..], s[j..]).Some?
    ensures MatchFrom(ps[k..], s[j..]).value.1 == MatchFrom(ps, s).value.1
  {
    if k == 0 {
      assert ps[0..] == ps && s[0..] == s;
      j := 0;
    } else {
      var j0 := MatchTail(ps, s, k - 1);
      j := PieceBackAt(ps, s, k - 1, j0);
    }
  }

  /** `PieceBack` at a position inside the format and the text. */
  lemma {:induction false} PieceBackAt(ps: Format, s: string, k: nat, j0: nat) returns (j: nat)
    requires k < |ps| && j0 <= |s| && MatchFrom(ps[k..], s[j0..]).Some?
    ensures j0 <= j <= |s| && MatchFrom(ps[k + 1..], s[j..]).Some?
    ensures MatchFrom(ps[k + 1..], s[j..]).value.1 == MatchFrom(ps[k..], s[j0..]).value.1
  {
    var n := PieceBack(ps[k..], s[j0..]);
    SlicesCompose(ps, s, k, j0, n);
    SameMatch(ps[k..][1..], ps[k + 1..], s[j0..][n..], s[j0 + n..]);
    j := j0 + n;
  }

  lemma {:induction false} SameMatch(a: Format, b: Format, x: string, y: string)
    requires a == b && x == y
    ensures MatchFrom(a, x) == MatchFrom(b, y)
  {
  }

  lemma SlicesCompose(ps: Format, s: string, k: nat, j0: nat, n: nat)
    requires k < |ps| && j0 + n <= |s|
    ensures ps[k..][1..] == ps[k + 1..] && s[j0..][n..] == s[j0 + n..]
  {
  }

  /** The first piece of a successful match consumes some prefix of the text. */
  lemma {:induction false} PieceBack(ps: Format, s: string) returns (n: nat)
    requires |ps| > 0 && MatchFrom(ps, s).Some?
    ensures n <= |s| && MatchFrom(ps[1..], s[n..]).Some?
    ensures MatchFrom(ps[1..], s[n..]).value.1 == MatchFrom(ps, s).value.1
  {
    match ps[0]
    case Lit(c) =>
      LitBack(c, ps, s);
      n := 1;
    case Field(d) =>
      n := FieldBack(d, ps, s);
  }

  /** The last two pieces, a literal and a directive, consumed the whole text:
      it is the literal's character followed by digits or spaces. */
  lemma {:induction false} LitFieldBack(c: char, d: Directive, pair: Format, t: string)
    requires |pair| == 2 && pair[0] == Lit(c) && pair[1] == Field(d)
    requires MatchFrom(pair, t).Some? && MatchFrom(pair, t).value.1 == ""
    ensures 2 <= |t| <= Width(d) + 1 && LitMatches(c, t[0])
    ensures forall i :: 1 <= i < |t| ==> IsDigit(t[i]) || t[i] == ' '
  {
    LitBack(c, pair, t);
    var n := FieldBack(d, pair[1..], t[1..]);
    assert pair[1..][1..] == [];
    assert t[1..][n..] == "";
    forall i | 1 <= i < |t| ensures IsDigit(t[i]) || t[i] == ' ' {
      assert t[i] == t[1..][i - 1];
    }
  }

  // ----- Step lemmas for matching a known string -----

  lemma LitStep(c: char, x: char, rest: string, ps: Format)
    requires LitMatches(c, x)
    ensures MatchFrom([Lit(c)] + ps, [x] + rest) == MatchFrom(ps, rest)
  {
    assert ([Lit(c)] + ps)[1..] == ps;
    assert ([x] + rest)[1..] == rest;
  }

  lemma FieldStep(d: Directive, tok: string, rest: string, ps: Format)
    requires |Candidates(Alternatives(d), tok + rest)| > 0
    requires Candidates(Alternatives(d), tok + rest)[0] == |tok|
    requires MatchFrom(ps, rest).Some?
    ensures MatchFrom([Field(d)] + ps, tok + rest)
            == Some(([Capture(d, tok)] + MatchFrom(ps, rest).value.0, MatchFrom(ps, rest).value.1))
  {
    assert ([Field(d)] + ps)[1..] == ps;
    assert (tok + rest)[|tok|..] == rest;
    assert (tok + rest)[..|tok|] == tok;
  }

  /** The value of a group is positional: appending digits shifts what is before. */
  lemma {:induction false} GroupValueAppend(a: string, b: string)
    requires forall i :: 0 <= i < |b| ==> IsDigit(b[i])
    ensures GroupValue(a + b) == GroupValue(a) * Pow10(|b|) + GroupValue(b)
    decreases |b|
  {
    if |b| == 0 {
      assert a + b == a;
    } else {
      var b' := b[..|b| - 1];
      var last := b[|b| - 1];
      var v := DigitValue(last);
      assert (a + b)[..|a + b| - 1] == a + b';
      assert (a + b)[|a + b| - 1] == last;
      assert GroupValue(a + b) == 10 * GroupValue(a + b') + v;
      assert GroupValue(b) == 10 * GroupValue(b') + v;
      GroupValueAppend(a, b');
      ShiftArithmetic(GroupValue(a), Pow10(|b'|), GroupValue(b'), v);
    }
  }

  lemma ShiftArithmetic(ga: nat, p: nat, gb: nat, v: nat)
    ensures 10 * (ga * p + gb) + v == ga * (10 * p) + (10 * gb + v)
  {
  }


  lemma {:induction false} LookupFirst(caps: seq<Capture>, k: nat, default: nat)
    requires k < |caps| && forall j :: 0 <= j < k ==> caps[j].d != caps[k].d
    ensures Lookup(caps, caps[k].d, default) == CaptureValue(caps[k])
    decreases k
  {
    if k > 0 {
      assert caps[1..][k - 1] == caps[k];
      LookupFirst(caps[1..], k - 1, default);
    }
  }

  lemma {:induction false} LookupAbsent(caps: seq<Capture>, d: Directive, default: nat)
    requires forall j :: 0 <= j < |caps| ==> caps[j].d != d
    ensures Lookup(caps, d, default) == default
    decreases |caps|
  {
    if |caps| > 0 {
      LookupAbsent(caps[1..], d, default);
    }
  }

  // ----- Reading back a rendered format -----

  /** A piece of a format together with the text that renders it. */
  datatype Token = Sep(c: char) | Group(d: Directive, text: string)

  function PieceOf(tok: Token): Piece {
    match tok
    case Sep(c) => Lit(c)
    case Group(d, _) => Field(d)
  }

  function FormatOf(toks: seq<Token>): (fmt: Format)
    ensures |fmt| == |toks|
  {
    seq(|toks|, i requires 0 <= i < |toks| => PieceOf(toks[i]))
  }

  function TokenText(tok: Token): string {
    match tok
    case Sep(c) => [c]
    case Group(_, text) => text
  }

  function TokenCaptures(tok: Token): seq<Capture> {
    match tok
    case Sep(_) => []
    case Group(d, text) => [Capture(d, text)]
  }

  function TextOf(toks: seq<Token>): string {
    if |toks| == 0 then "" else TokenText(toks[0]) + TextOf(toks[1..])
  }

  function CapturesOf(toks: seq<Token>): seq<Capture> {
    if |toks| == 0 then [] else TokenCaptures(toks[0]) + CapturesOf(toks[1..])
  }

  /** The regex reads a group's own text and nothing more: the first alternative
      that matches is as long as the text, and none is longer. */
  predicate ReadsBack(tok: Token) {
    match tok
    case Sep(_) => true
    case Group(d, text) =>
      && (forall a :: 0 <= a < |Alternatives(d)| ==> |Alternatives(d)[a]| <= |text|)
      && |Candidates(Alternatives(d), text)| > 0
      && Candidates(Alternatives(d), text)[0] == |text|
  }

  /** Alternatives no longer than `text` do not look past it. */
  lemma {:induction false} CandidatesIgnoreSuffix(alts: seq<seq<CharClass>>, text: string, rest: string)
    requires forall a :: 0 <= a < |alts| ==> |alts[a]| <= |text|
    ensures Candidates(alts, text + rest) == Candidates(alts, text)
    decreases |alts|
  {
    if |alts| > 0 {
      assert AltMatches(alts[0], text + rest) <==> AltMatches(alts[0], text) by {
        forall i | 0 <= i < |alts[0]|
          ensures (text + rest)[i] == text[i]
        {
        }
      }
      CandidatesIgnoreSuffix(alts[1..], text, rest);
    }
  }

  /** A format built from tokens that read back matches their rendering, with
      the groups' texts as captures, leaving whatever follows untouched. */
  lemma {:induction false} MatchTokens(toks: seq<Token>, rest: string)
    requires forall i :: 0 <= i < |toks| ==> ReadsBack(toks[i])
    ensures MatchFrom(FormatOf(toks), TextOf(toks) + rest) == Some((CapturesOf(toks), rest))
    decreases |toks|
  {
    if |toks| == 0 {
      assert FormatOf(toks) == [];
      assert TextOf(toks) + rest == rest;
    } else {
      var tail := toks[1..];
      assert forall i :: 0 <= i < |tail| ==> ReadsBack(tail[i]) by {
        forall i | 0 <= i < |tail| ensures ReadsBack(tail[i]) {
          assert tail[i] == toks[i + 1];
        }
      }
      MatchTokens(tail, rest);
      MatchTokensStep(toks, rest);
    }
  }

  /** One token more in front of a format that already matches. */
  lemma MatchTokensStep(toks: seq<Token>, rest: string)
    requires |toks| > 0 && ReadsBack(toks[0])
    requires MatchFrom(FormatOf(toks[1..]), TextOf(toks[1..]) + rest) == Some((CapturesOf(toks[1..]), rest))
    ensures MatchFrom(FormatOf(toks), TextOf(toks) + rest) == Some((CapturesOf(toks), rest))
  {
    var tail := toks[1..];
    var after := TextOf(tail) + rest;
    var ps := FormatOf(tail);
    FormatOfCons(toks);
    assert TextOf(toks) + rest == TokenText(toks[0]) + after;
    MatchToken(toks[0], after, ps);
    calc {
      MatchFrom(FormatOf(toks), TextOf(toks) + rest);
      MatchFrom([PieceOf(toks[0])] + ps, TokenText(toks[0]) + after);
      Some((TokenCaptures(toks[0]) + CapturesOf(tail), rest));
    }
  }

  lemma FormatOfCons(toks: seq<Token>)
    requires |toks| > 0
    ensures FormatOf(toks) == [PieceOf(toks[0])] + FormatOf(toks[1..])
  {
    var a, b := FormatOf(toks), [PieceOf(toks[0])] + FormatOf(toks[1..]);
    forall i | 0 <= i < |a| ensures a[i] == b[i] {
      if i > 0 { assert b[i] == FormatOf(toks[1..])[i - 1]; }
    }
  }

  lemma MatchToken(tok: Token, after: string, ps: Format)
    requires ReadsBack(tok) && MatchFrom(ps, after).Some?
    ensures MatchFrom([PieceOf(tok)] + ps, TokenText(tok) + after)
            == Some((TokenCaptures(tok) + MatchFrom(ps, after).value.0, MatchFrom(ps, after).value.1))
  {
    match tok
    case Sep(c) =>
      LitStep(c, c, after, ps);
      assert TokenCaptures(tok) + MatchFrom(ps, after).value.0 == MatchFrom(ps, after).value.0;
    case Group(d, text) =>
      CandidatesIgnoreSuffix(Alternatives(d), text, after);
      FieldStep(d, text, after, ps);
  }

  /** A group read last needs less: with nothing after it, a longer
      alternative cannot reach past its text, so it is enough that the first
      alternative that matches is as long as the text. */
  predicate ReadsBackAtEnd(tok: Token) {
    && tok.Group?
    && |Candidates(Alternatives(tok.d), tok.text)| > 0
    && Candidates(Alternatives(tok.d), tok.text)[0] == |tok.text|
  }

  /** Tokens that read back, closed by a group read last, match their own
      rendering to its end. */
  lemma {:induction false} MatchTokensToEnd(toks: seq<Token>, last: Token)
    requires forall i :: 0 <= i < |toks| ==> ReadsBack(toks[i])
    requires ReadsBackAtEnd(last)
    ensures MatchFrom(FormatOf(toks + [last]), TextOf(toks + [last])) == Some((CapturesOf(toks + [last]), ""))
    decreases |toks|
  {
    if |toks| == 0 {
      MatchLastToken(last);
      assert toks + [last] == [last];
    } else {
      var tail := toks[1..];
      assert forall i :: 0 <= i < |tail| ==> ReadsBack(tail[i]) by {
        forall i | 0 <= i < |tail| ensures ReadsBack(tail[i]) {
          assert tail[i] == toks[i + 1];
        }
      }
      MatchTokensToEnd(tail, last);
      MatchTokensToEndStep(toks, last);
    }
  }

  lemma MatchLastToken(last: Token)
    requires ReadsBackAtEnd(last)
    ensures MatchFrom(FormatOf([last]), TextOf([last])) == Some((CapturesOf([last]), ""))
  {
    assert FormatOf([last]) == [Field(last.d)] + [];
    assert TextOf([last]) == last.text + "";
    assert CapturesOf([last]) == [Capture(last.d, last.text)] + [];
    assert last.text + "" == last.text;
    FieldStep(last.d, last.text, "", []);
  }

  lemma MatchTokensToEndStep(toks: seq<Token>, last: Token)
    requires |toks| > 0 && ReadsBack(toks[0])
    requires MatchFrom(FormatOf(toks[1..] + [last]), TextOf(toks[1..] + [last]))
             == Some((CapturesOf(toks[1..] + [last]), ""))
    ensures MatchFrom(FormatOf(toks + [last]), TextOf(toks + [last])) == Some((CapturesOf(toks + [last]), ""))
  {
    var all := toks + [last];
    assert all[1..] == toks[1..] + [last];
    assert TextOf(all[1..]) + "" == TextOf(all[1..]);
    MatchTokensStep(all, "");
    assert TextOf(all) + "" == TextOf(all);
  }

  /** A `%f` group of one to six digits, read last, reads back: the
      alternatives longer than the text do not match, and the next one is
      exactly as long. */
  lemma ShortFractionAtEnd(text: string)
    requires 1 <= |text| <= 6 && IsDigits(text)
    ensures ReadsBackAtEnd(Group(Fraction, text))
  {
    var alts := Alternatives(Fraction);
    FractionCandidatesFrom(text, 0);
    assert alts[0..] == alts;
  }

  lemma {:induction false} FractionCandidatesFrom(text: string, a: nat)
    requires 1 <= |text| <= 6 && IsDigits(text) && a <= 6 - |text|
    ensures |Candidates(Alternatives(Fraction)[a..], text)| > 0
    ensures Candidates(Alternatives(Fraction)[a..], text)[0] == |text|
    decreases 6 - a
  {
    var alts := Alternatives(Fraction);
    var rest := alts[a..];
    assert rest[0] == alts[a] && |alts[a]| == 6 - a;
    assert rest[1..] == alts[a + 1..];
    if a == 6 - |text| {
      assert AltMatches(rest[0], text);
    } else {
      assert !AltMatches(rest[0], text);
      FractionCandidatesFrom(text, a + 1);
    }
  }

  /** A group of `n` digits stands for less than `10^n`. */
  lemma {:induction false} GroupValueBelow(s: string)
    ensures GroupValue(s) < Pow10(|s|)
    decreases |s|
  {
    if |s| > 0 {
      var init := s[..|s| - 1];
      GroupValueBelow(init);
      if IsDigit(s[|s| - 1]) {
        assert GroupValue(s) <= 10 * (Pow10(|init|) - 1) + 9;
      }
    }
  }

  /** Rendering and capturing distribute over concatenation. */
  lemma TokensAppend(a: seq<Token>, b: seq<Token>)
    ensures TextOf(a + b) == TextOf(a) + TextOf(b)
    ensures CapturesOf(a + b) == CapturesOf(a) + CapturesOf(b)
    ensures FormatOf(a + b) == FormatOf(a) + FormatOf(b)
  {
    TextAppend(a, b);
    CapturesAppend(a, b);
    var f, g := FormatOf(a + b), FormatOf(a) + FormatOf(b);
    forall i | 0 <= i < |f| ensures f[i] == g[i] {
      if i >= |a| { assert (a + b)[i] == b[i - |a|]; }
    }
  }

  lemma {:induction false} TextAppend(a: seq<Token>, b: seq<Token>)
    ensures TextOf(a + b) == TextOf(a) + TextOf(b)
    decreases |a|
  {
    if |a| == 0 {
      assert a + b == b;
    } else {
      assert (a + b)[0] == a[0];
      assert (a + b)[1..] == a[1..] + b;
      TextAppend(a[1..], b);
    }
  }

  lemma {:induction false} CapturesAppend(a: seq<Token>, b: seq<Token>)
    ensures CapturesOf(a + b) == CapturesOf(a) + CapturesOf(b)
    decreases |a|
  {
    if |a| == 0 {
      assert a + b == b;
    } else {
      assert (a + b)[0] == a[0];
      assert (a + b)[1..] == a[1..] + b;
      CapturesAppend(a[1..], b);
    }
  }

  /** Every character of a rendering comes from a group's text or is a separator. */
  lemma {:induction false} TextChars(toks: seq<Token>, i: nat)
    requires forall k :: 0 <= k < |toks| && toks[k].Group? ==> IsDigits(toks[k].text)
    requires i < |TextOf(toks)|
    ensures IsDigit(TextOf(toks)[i]) || Sep(TextOf(toks)[i]) in toks
    decreases |toks|
  {
    var tail := toks[1..];
    var head := TokenText(toks[0]);
    assert TextOf(toks) == head + TextOf(tail);
    if i >= |head| {
      assert forall k :: 0 <= k < |tail| && tail[k].Group? ==> IsDigits(tail[k].text) by {
        forall k | 0 <= k < |tail| && tail[k].Group? ensures IsDigits(tail[k].text) {
          assert tail[k] == toks[k + 1];
        }
      }
      TextChars(tail, i - |head|);
      assert TextOf(toks)[i] == TextOf(tail)[i - |head|];
    } else if toks[0].Group? {
      assert IsDigits(toks[0].text);
    }
  }

  /** Every separator appears in the rendering. */
  lemma {:induction false} SepInText(toks: seq<Token>, c: char)
    requires Sep(c) in toks
    ensures c in TextOf(toks)
    decreases |toks|
  {
    assert TextOf(toks) == TokenText(toks[0]) + TextOf(toks[1..]);
    if toks[0] != Sep(c) {
      var k :| 0 <= k < |toks| && toks[k] == Sep(c);
      assert toks[1..][k - 1] == Sep(c);
      SepInText(toks[1..], c);
      var j :| 0 <= j < |TextOf(toks[1..])| && TextOf(toks[1..])[j] == c;
      assert TextOf(toks)[|TokenText(toks[0])| + j] == c;
    } else {
      assert TextOf(toks)[0] == c;
    }
  }
}
