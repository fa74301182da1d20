/** String helpers with the meaning of the Python / SQL operations the pipeline
    uses: substring tests (`in`, `LIKE '%x%'`), ASCII lower-casing, `isdigit`,
    `str.replace`, `str.strip` and `','.join`. */
module Text {

  /** `needle` occurs in `hay` starting at position `i`. */
  predicate OccursAt(needle: string, hay: string, i: nat) {
    i + |needle| <= |hay| && hay[i..i + |needle|] == needle
  }

  /** Python's `needle in hay`, and SQL's `hay LIKE '%needle%'`. */
  predicate Contains(hay: string, needle: string) {
    exists i: nat | i <= |hay| :: OccursAt(needle, hay, i)
  }

  /** Executable substring test, proved equal to `Contains`. */
  function Find(hay: string, needle: string): (r: bool)
    ensures r <==> Contains(hay, needle)
    decreases |hay|
  {
    ContainsShift(hay, needle);
    if OccursAt(needle, hay, 0) then true
    else if |hay| == 0 then false
    else Find(hay[1..], needle)
  }

  /** An occurrence past the first position is an occurrence in the tail. */
  lemma ContainsShift(hay: string, needle: string)
    ensures |hay| > 0 && !OccursAt(needle, hay, 0) ==>
              (Contains(hay, needle) <==> Contains(hay[1..], needle))
  {
    if |hay| > 0 && !OccursAt(needle, hay, 0) {
      if Contains(hay[1..], needle) {
        var i: nat :| OccursAt(needle, hay[1..], i);
        assert OccursAt(needle, hay[1..], i);
        assert hay[i + 1..i + 1 + |needle|] == hay[1..][i..i + |needle|];
        assert OccursAt(needle, hay, i + 1);
      }
      if Contains(hay, needle) {
        var i: nat :| OccursAt(needle, hay, i);
        assert OccursAt(needle, hay, i);
        assert i != 0;
        assert hay[1..][i - 1..i - 1 + |needle|] == hay[i..i + |needle|];
        assert OccursAt(needle, hay[1..], i - 1);
      }
    }
  }

  lemma ContainsPrefix(hay: string, needle: string)
    requires |needle| <= |hay| && hay[..|needle|] == needle
    ensures Contains(hay, needle)
  {
    assert OccursAt(needle, hay, 0);
  }

  lemma ContainsInfix(a: string, needle: string, b: string)
    ensures Contains(a + needle + b, needle)
  {
    var hay := a + needle + b;
    assert hay[|a|..|a| + |needle|] == needle;
    assert OccursAt(needle, hay, |a|);
  }

  /** A string containing a longer pattern contains each of its infixes. */
  lemma ContainsTransitive(hay: string, mid: string, needle: string)
    requires Contains(hay, mid) && Contains(mid, needle)
    ensures Contains(hay, needle)
  {
    var i: nat :| OccursAt(mid, hay, i);
    assert OccursAt(mid, hay, i);
    var j: nat :| OccursAt(needle, mid, j);
    assert OccursAt(needle, mid, j);
    assert mid == hay[i..i + |mid|];
    forall k | 0 <= k < |needle|
      ensures hay[i + j..i + j + |needle|][k] == needle[k]
    {
      assert needle[k] == mid[j + k] == hay[i + j + k];
    }
    assert OccursAt(needle, hay, i + j);
  }

  /** A character outside `hay` means no pattern containing it occurs there. */
  lemma NotContainsForeignChar(hay: string, needle: string, c: char)
    requires c !in hay && c in needle
    ensures !Contains(hay, needle)
  {
    var k :| 0 <= k < |needle| && needle[k] == c;
    forall i: nat | i <= |hay|
      ensures !OccursAt(needle, hay, i)
    {
      if i + |needle| <= |hay| {
        assert hay[i..i + |needle|][k] == hay[i + k];
      }
    }
  }

  function LowerChar(c: char): char {
    if 'A' <= c <= 'Z' then (c as int + 32) as char else c
  }

  /** `str.lower()` restricted to ASCII letters. */
  function Lower(s: string): (r: string)
    ensures |r| == |s|
    ensures forall i :: 0 <= i < |s| ==> r[i] == LowerChar(s[i])
  {
    seq(|s|, i requires 0 <= i < |s| => LowerChar(s[i]))
  }

  predicate IsDigit(c: char) {
    '0' <= c <= '9'
  }

  /** `str.isdigit()` for ASCII: non-empty and every character a decimal digit. */
  predicate IsDigits(s: string) {
    |s| > 0 && forall i :: 0 <= i < |s| ==> IsDigit(s[i])
  }

  function DigitValue(c: char): nat
    requires IsDigit(c)
  {
    c as int - '0' as int
  }

  /** `int(s)` for a string of decimal digits. */
  function DigitsValue(s: string): nat
    requires forall i :: 0 <= i < |s| ==> IsDigit(s[i])
  {
    if |s| == 0 then 0 else 10 * DigitsValue(s[..|s| - 1]) + DigitValue(s[|s| - 1])
  }

  function DigitChar(d: nat): (c: char)
    requires d < 10
    ensures IsDigit(c) && DigitValue(c) == d
  {
    ('0' as int + d) as char
  }

  /** Decimal rendering of a natural number without leading zeros (`str(n)`). */
  function DecimalOf(n: nat): (s: string)
    ensures IsDigits(s)
    ensures DigitsValue(s) == n
  {
    if n < 10 then [DigitChar(n)]
    else
      var s := DecimalOf(n / 10) + [DigitChar(n % 10)];
      assert s[..|s| - 1] == DecimalOf(n / 10);
      s
  }

  /** Python's `s.replace(pat, rep)`: every non-overlapping occurrence, scanning left
      to right. */
  function ReplaceAll(s: string, pat: string, rep: string): string
    requires |pat| > 0
    decreases |s|
  {
    if |s| < |pat| then s
    else if s[..|pat|] == pat then rep + ReplaceAll(s[|pat|..], pat, rep)
    else [s[0]] + ReplaceAll(s[1..], pat, rep)
  }

  /** Replacing with the empty string removes exactly the occurrences of a
      one-character pattern. */
  lemma ReplaceCharByEmpty(s: string, c: char)
    ensures ReplaceAll(s, [c], "") == RemoveChar(s, c)
  {
  }

  function RemoveChar(s: string, c: char): (r: string)
    ensures c !in r
    ensures |r| <= |s|
  {
    if |s| == 0 then "" else (if s[0] == c then "" else [s[0]]) + RemoveChar(s[1..], c)
  }

  /** A kept character stays. */
  lemma RemoveCharKeeps(s: string, z: char, c: char)
    requires c in s && c != z
    ensures c in RemoveChar(s, z)
  {
    if s[0] != c {
      assert c in s[1..] by {
        var k :| 0 <= k < |s| && s[k] == c;
        assert s[1..][k - 1] == c;
      }
      RemoveCharKeeps(s[1..], z, c);
      var tail := RemoveChar(s[1..], z);
      var k :| 0 <= k < |tail| && tail[k] == c;
      var head: string := if s[0] == z then "" else [s[0]];
      assert (head + tail)[|head| + k] == c;
    }
  }

  /** Every character left was in the string. */
  lemma {:induction false} RemoveCharOnlyDrops(s: string, c: char)
    ensures forall i :: 0 <= i < |RemoveChar(s, c)| ==> RemoveChar(s, c)[i] in s
    decreases |s|
  {
    if |s| > 0 {
      RemoveCharOnlyDrops(s[1..], c);
      var head: string := if s[0] == c then "" else [s[0]];
      assert RemoveChar(s, c) == head + RemoveChar(s[1..], c);
      forall i | 0 <= i < |RemoveChar(s, c)| ensures RemoveChar(s, c)[i] in s {
        if i >= |head| {
          assert RemoveChar(s, c)[i] == RemoveChar(s[1..], c)[i - |head|];
          assert RemoveChar(s, c)[i] in s[1..];
        }
      }
    }
  }

  lemma {:induction false} RemoveCharAppend(a: string, b: string, c: char)
    ensures RemoveChar(a + b, c) == RemoveChar(a, c) + RemoveChar(b, c)
    decreases |a|
  {
    if |a| == 0 {
      assert a + b == b;
    } else {
      var s := a + b;
      var head: string := if a[0] == c then "" else [a[0]];
      assert s[0] == a[0] && s[1..] == a[1..] + b;
      assert RemoveChar(s, c) == head + RemoveChar(a[1..] + b, c);
      assert RemoveChar(a, c) == head + RemoveChar(a[1..], c);
      RemoveCharAppend(a[1..], b, c);
    }
  }

  /** Dropping a separator `c` between two parts, the second free of `c`. */
  lemma {:induction false} RemoveCharAcross(a: string, c: char, b: string)
    requires c !in b
    ensures RemoveChar(a + [c] + b, c) == RemoveChar(a, c) + b
    decreases |a|
  {
    if |a| == 0 {
      assert a + [c] + b == [c] + b;
      RemoveLeadingChar(c, b);
    } else {
      var s := a + [c] + b;
      var head: string := if a[0] == c then "" else [a[0]];
      assert s[0] == a[0] && s[1..] == a[1..] + [c] + b;
      assert RemoveChar(s, c) == head + RemoveChar(a[1..] + [c] + b, c);
      assert RemoveChar(a, c) == head + RemoveChar(a[1..], c);
      RemoveCharAcross(a[1..], c, b);
    }
  }

  lemma RemoveLeadingChar(c: char, b: string)
    requires c !in b
    ensures RemoveChar([c] + b, c) == b
  {
    assert ([c] + b)[1..] == b;
    RemoveAbsentChar(b, c);
  }

  lemma {:induction false} RemoveAbsentChar(s: string, c: char)
    requires c !in s
    ensures RemoveChar(s, c) == s
    decreases |s|
  {
    if |s| > 0 {
      RemoveAbsentChar(s[1..], c);
    }
  }

  /** A string that does not contain the pattern is left as it is. */
  lemma {:induction false} ReplaceAbsent(s: string, pat: string, rep: string)
    requires |pat| > 0 && !Contains(s, pat)
    ensures ReplaceAll(s, pat, rep) == s
    decreases |s|
  {
    if |s| >= |pat| {
      assert !OccursAt(pat, s, 0);
      assert !Contains(s[1..], pat) by {
        if Contains(s[1..], pat) {
          var i: nat :| OccursAt(pat, s[1..], i);
          assert OccursAt(pat, s[1..], i);
          assert s[i + 1..i + 1 + |pat|] == s[1..][i..i + |pat|];
          assert OccursAt(pat, s, i + 1);
        }
      }
      ReplaceAbsent(s[1..], pat, rep);
    }
  }

  /** A tail that starts with a character outside the pattern, and holds no
      occurrence itself, comes through a replacement untouched: no occurrence
      can reach into it. */
  lemma {:induction false} ReplaceKeepsTail(a: string, t: string, pat: string, rep: string)
    requires |pat| > 0 && |t| > 0 && t[0] !in pat && !Contains(t, pat)
    ensures ReplaceAll(a + t, pat, rep) == ReplaceAll(a, pat, rep) + t
    decreases |a|
  {
    var s := a + t;
    if |a| < |pat| {
      forall i: nat | i <= |s| ensures !OccursAt(pat, s, i) {
        if i + |pat| <= |s| {
          if i < |a| {
            assert s[i..i + |pat|][|a| - i] == t[0];
          } else {
            assert s[i..i + |pat|] == t[i - |a|..i - |a| + |pat|];
            assert !OccursAt(pat, t, i - |a|);
          }
        }
      }
      ReplaceAbsent(s, pat, rep);
    } else if a[..|pat|] == pat {
      assert s[..|pat|] == pat;
      assert s[|pat|..] == a[|pat|..] + t;
      ReplaceKeepsTail(a[|pat|..], t, pat, rep);
    } else {
      assert s[..|pat|] == a[..|pat|];
      assert s[0] == a[0] && s[1..] == a[1..] + t;
      ReplaceKeepsTail(a[1..], t, pat, rep);
    }
  }

  /** Characters that `str.strip()` removes (the ASCII whitespace set). */
  predicate IsSpace(c: char) {
    c == ' ' || c == '\t' || c == '\n' || c == '\r' || c as int == 11 || c as int == 12
  }

  function TrimLeft(s: string): (r: string)
    ensures |r| <= |s|
    ensures |r| > 0 ==> !IsSpace(r[0])
    ensures r == s[|s| - |r|..]
  {
    if |s| > 0 && IsSpace(s[0]) then TrimLeft(s[1..]) else s
  }

  function TrimRight(s: string): (r: string)
    ensures |r| <= |s|
    ensures |r| > 0 ==> !IsSpace(r[|r| - 1])
    ensures r == s[..|r|]
  {
    if |s| > 0 && IsSpace(s[|s| - 1]) then TrimRight(s[..|s| - 1]) else s
  }

  /** Python's `s.strip()`. */
  function Strip(s: string): (r: string)
    ensures |r| > 0 ==> !IsSpace(r[0]) && !IsSpace(r[|r| - 1])
  {
    TrimRight(TrimLeft(s))
  }

  /** TrimLeft drops only whitespace from the front. */
  lemma {:induction false} TrimLeftDropsSpaces(s: string)
    ensures forall k :: 0 <= k < |s| - |TrimLeft(s)| ==> IsSpace(s[k])
  {
    if |s| > 0 && IsSpace(s[0]) {
      TrimLeftDropsSpaces(s[1..]);
      forall k | 0 <= k < |s| - |TrimLeft(s)| ensures IsSpace(s[k]) {
        if k > 0 {
          assert s[k] == s[1..][k - 1];
        }
      }
    }
  }

  /** TrimRight drops only whitespace from the back. */
  lemma {:induction false} TrimRightDropsSpaces(s: string)
    ensures forall k :: |TrimRight(s)| <= k < |s| ==> IsSpace(s[k])
  {
    if |s| > 0 && IsSpace(s[|s| - 1]) {
      TrimRightDropsSpaces(s[..|s| - 1]);
      forall k | |TrimRight(s)| <= k < |s| ensures IsSpace(s[k]) {
        if k < |s| - 1 {
          assert s[k] == s[..|s| - 1][k];
        }
      }
    }
  }

  /** `strip()` keeps a contiguous middle of the text, dropping only
      whitespace around it. */
  lemma StripExactly(s: string) returns (i: nat, j: nat)
    ensures i <= j <= |s| && Strip(s) == s[i..j]
    ensures forall k :: 0 <= k < i ==> IsSpace(s[k])
    ensures forall k :: j <= k < |s| ==> IsSpace(s[k])
  {
    var l := TrimLeft(s);
    TrimLeftDropsSpaces(s);
    TrimRightDropsSpaces(l);
    i := |s| - |l|;
    j := i + |TrimRight(l)|;
    forall k | j <= k < |s| ensures IsSpace(s[k]) {
      assert s[k] == l[k - i];
    }
  }

  /** Python's `sep.join(parts)`. */
  function Join(parts: seq<string>, sep: string): string {
    if |parts| == 0 then ""
    else if |parts| == 1 then parts[0]
    else parts[0] + sep + Join(parts[1..], sep)
  }

  /** Python's `s.split(',')` for a one-character separator. */
  function Split(s: string, sep: char): (r: seq<string>)
    ensures |r| > 0
    decreases |s|
  {
    if |s| == 0 then [""]
    else
      var tail := Split(s[1..], sep);
      if s[0] == sep then [""] + tail else [[s[0]] + tail[0]] + tail[1..]
  }

  lemma {:induction false} SplitNoSep(s: string, sep: char, rest: string)
    requires sep !in s
    ensures Split(s + [sep] + rest, sep) == [s] + Split(rest, sep)
    ensures Split(s, sep) == [s]
    decreases |s|
  {
    if |s| == 0 {
      assert s + [sep] + rest == [sep] + rest;
      assert ([sep] + rest)[1..] == rest;
    } else {
      assert (s + [sep] + rest)[1..] == s[1..] + [sep] + rest;
      SplitNoSep(s[1..], sep, rest);
      assert [s[0]] + s[1..] == s;
    }
  }

  /** Joining with a separator that no part contains is undone by splitting. */
  lemma {:induction false} SplitJoin(parts: seq<string>, sep: char)
    requires |parts| > 0
    requires forall i :: 0 <= i < |parts| ==> sep !in parts[i]
    ensures Split(Join(parts, [sep]), sep) == parts
    decreases |parts|
  {
    if |parts| == 1 {
      SplitNoSep(parts[0], sep, "");
    } else {
      SplitJoin(parts[1..], sep);
      SplitNoSep(parts[0], sep, Join(parts[1..], [sep]));
    }
  }

  /** Every part of a join is a substring of the joined text. */
  lemma {:induction false} JoinContainsParts(parts: seq<string>, sep: string, k: nat)
    requires k < |parts|
    ensures Contains(Join(parts, sep), parts[k])
    decreases |parts|
  {
    if |parts| == 1 {
      ContainsInfix("", parts[0], "");
      assert "" + parts[0] + "" == parts[0];
    } else if k == 0 {
      ContainsInfix("", parts[0], sep + Join(parts[1..], sep));
      assert "" + parts[0] + (sep + Join(parts[1..], sep)) == Join(parts, sep);
    } else {
      JoinContainsParts(parts[1..], sep, k - 1);
      assert parts[1..][k - 1] == parts[k];
      var tail := Join(parts[1..], sep);
      ContainsInfix(parts[0] + sep, tail, "");
      assert parts[0] + sep + tail + "" == Join(parts, sep);
      ContainsTransitive(Join(parts, sep), tail, parts[k]);
    }
  }
}
