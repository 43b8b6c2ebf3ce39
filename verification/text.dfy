/**
  The few Python string operations the cleaner relies on: the substring test
  `pat in s`, `s.split(sep)` with a one-character separator, and the decimal
  rendering of an integer that an f-string performs.
 */
module Text {

  /** `pat` occurs in `s` starting at offset `i`. */
  predicate OccursAt(s: string, pat: string, i: int) {
    0 <= i && i + |pat| <= |s| && s[i..i + |pat|] == pat
  }

  /** Python's `pat in s` on two strings: `pat` occurs in `s` at some offset. */
  predicate Contains(s: string, pat: string) {
    exists i :: 0 <= i <= |s| - |pat| && OccursAt(s, pat, i)
  }

  /** A string that lacks the first character of `pat` does not contain `pat`. */
  lemma MissingLeadCharNotContained(s: string, pat: string)
    requires |pat| > 0 && pat[0] !in s
    ensures !Contains(s, pat)
  {
    forall i | 0 <= i <= |s| - |pat|
      ensures !OccursAt(s, pat, i)
    {
      assert s[i..i + |pat|][0] == s[i];
    }
  }

  /** A one-character pattern is found exactly when that character occurs in `s`. */
  lemma ContainsChar(s: string, c: char)
    ensures Contains(s, [c]) <==> c in s
  {
    if c in s {
      var i :| 0 <= i < |s| && s[i] == c;
      assert s[i..i + 1] == [c];
      assert OccursAt(s, [c], i);
    }
    if Contains(s, [c]) {
      var i :| 0 <= i <= |s| - 1 && OccursAt(s, [c], i);
      assert s[i..i + 1][0] == s[i];
    }
  }

  /** An occurrence of `pat` at `i`, character by character. */
  lemma OccursAtChars(s: string, pat: string, i: int)
    requires OccursAt(s, pat, i)
    ensures forall k :: 0 <= k < |pat| ==> s[i + k] == pat[k]
  {
    forall k | 0 <= k < |pat|
      ensures s[i + k] == pat[k]
    {
      assert s[i..i + |pat|][k] == s[i + k];
    }
  }

  /** `pat` occurs at `i` when the characters from `i` on are those of `pat`. */
  lemma CharsOccursAt(s: string, pat: string, i: int)
    requires 0 <= i && i + |pat| <= |s|
    requires forall k :: 0 <= k < |pat| ==> s[i + k] == pat[k]
    ensures OccursAt(s, pat, i)
  {
    assert forall k :: 0 <= k < |pat| ==> s[i..i + |pat|][k] == pat[k];
  }

  /** An occurrence of a pattern without `sep` lies wholly before or wholly after a `sep` at `m`. */
  lemma NoStraddle(s: string, pat: string, i: int, m: int)
    requires OccursAt(s, pat, i) && 0 <= m < |s| && s[m] !in pat
    ensures i + |pat| <= m || m < i
  {
    OccursAtChars(s, pat, i);
  }

  /**
    A pattern without the separator character occurs in two strings joined
    by that separator exactly when it occurs in one of them: no occurrence
    can straddle the separator.
   */
  lemma ContainsJoined(a: string, b: string, sep: char, pat: string)
    requires sep !in pat
    ensures Contains(a + [sep] + b, pat) <==> Contains(a, pat) || Contains(b, pat)
  {
    var s := a + [sep] + b;
    if Contains(s, pat) {
      var i :| 0 <= i <= |s| - |pat| && OccursAt(s, pat, i);
      OccursAtChars(s, pat, i);
      NoStraddle(s, pat, i, |a|);
      if i + |pat| <= |a| {
        CharsOccursAt(a, pat, i);
      } else {
        CharsOccursAt(b, pat, i - |a| - 1);
      }
    }
    if Contains(a, pat) {
      var i :| 0 <= i <= |a| - |pat| && OccursAt(a, pat, i);
      OccursAtChars(a, pat, i);
      CharsOccursAt(s, pat, i);
    }
    if Contains(b, pat) {
      var i :| 0 <= i <= |b| - |pat| && OccursAt(b, pat, i);
      OccursAtChars(b, pat, i);
      CharsOccursAt(s, pat, |a| + 1 + i);
    }
  }

  /** Python's `sep.join(parts)` for a one-character separator. */
  function Join(parts: seq<string>, sep: char): string
    decreases |parts|
  {
    if |parts| == 0 then []
    else if |parts| == 1 then parts[0]
    else parts[0] + [sep] + Join(parts[1..], sep)
  }

  /** A join of two or more pieces: the first piece, the separator, the second, then the rest. */
  lemma JoinSecond(parts: seq<string>, sep: char) returns (t: string)
    requires |parts| >= 2
    ensures Join(parts, sep) == parts[0] + [sep] + parts[1] + t
    ensures t == [] || t[0] == sep
  {
    if |parts| == 2 {
      t := [];
    } else {
      t := [sep] + Join(parts[2..], sep);
      assert parts[1..][1..] == parts[2..];
    }
  }

  /**
    Python's `s.split(sep)` for a one-character separator: never empty, no
    piece holds the separator, and joining the pieces gives `s` back.
   */
  function Split(s: string, sep: char): (parts: seq<string>)
    ensures |parts| >= 1
    ensures forall k :: 0 <= k < |parts| ==> sep !in parts[k]
    ensures Join(parts, sep) == s
    decreases |s|
  {
    if s == [] then [[]]
    else
      var rest := Split(s[1..], sep);
      if s[0] == sep then
        assert ([[]] + rest)[1..] == rest;
        [[]] + rest
      else
        assert ([[s[0]] + rest[0]] + rest[1..])[1..] == rest[1..];
        assert [s[0]] + rest[0] + [sep] + Join(rest[1..], sep) == [s[0]] + (rest[0] + [sep] + Join(rest[1..], sep));
        [[s[0]] + rest[0]] + rest[1..]
  }

  /** Splitting `p + sep + t` where `p` lacks the separator yields `p` first. */
  lemma {:induction false} SplitAfterPiece(p: string, t: string, sep: char)
    requires sep !in p
    ensures Split(p + [sep] + t, sep) == [p] + Split(t, sep)
    decreases |p|
  {
    if p == [] {
      assert p + [sep] + t == [sep] + t;
      assert ([sep] + t)[1..] == t;
    } else {
      SplitAfterPiece(p[1..], t, sep);
      assert (p + [sep] + t)[1..] == p[1..] + [sep] + t;
      assert [p[0]] + p[1..] == p;
    }
  }

  /** A string without the separator splits into itself alone. */
  lemma {:induction false} SplitWithoutSeparator(p: string, sep: char)
    requires sep !in p
    ensures Split(p, sep) == [p]
    decreases |p|
  {
    if p != [] {
      SplitWithoutSeparator(p[1..], sep);
      assert [p[0]] + p[1..] == p;
    }
  }

  /** `split` inverts `join` when no piece holds the separator. */
  lemma {:induction false} SplitJoin(parts: seq<string>, sep: char)
    requires |parts| >= 1
    requires forall k :: 0 <= k < |parts| ==> sep !in parts[k]
    ensures Split(Join(parts, sep), sep) == parts
    decreases |parts|
  {
    if |parts| == 1 {
      SplitWithoutSeparator(parts[0], sep);
    } else {
      SplitJoin(parts[1..], sep);
      SplitAfterPiece(parts[0], Join(parts[1..], sep), sep);
      assert [parts[0]] + parts[1..] == parts;
    }
  }

  function DigitChar(d: nat): (c: char)
    requires d < 10
    ensures '0' <= c <= '9'
  {
    "0123456789"[d]
  }

  ghost predicate IsDigits(s: string) {
    forall k :: 0 <= k < |s| ==> '0' <= s[k] <= '9'
  }

  /** The number a string of decimal digits denotes, most significant digit first. */
  ghost function DigitsValue(s: string): nat
    requires IsDigits(s)
    decreases |s|
  {
    if |s| == 0 then 0
    else DigitsValue(s[..|s| - 1]) * 10 + ((s[|s| - 1] as int) - ('0' as int))
  }

  /**
    Decimal digits of a natural number, most significant first, with no
    leading zero unless the number is zero itself.
   */
  function NatToString(n: nat): (s: string)
    ensures |s| >= 1 && IsDigits(s)
    ensures s[0] == '0' ==> n == 0 && |s| == 1
    decreases n
  {
    if n < 10 then [DigitChar(n)]
    else NatToString(n / 10) + [DigitChar(n % 10)]
  }

  /** The digits `NatToString` writes denote the number they were written for. */
  lemma {:induction false} NatToStringValue(n: nat)
    ensures DigitsValue(NatToString(n)) == n
    decreases n
  {
    var s := NatToString(n);
    if n >= 10 {
      NatToStringValue(n / 10);
      assert s[..|s| - 1] == NatToString(n / 10);
    }
  }

  /**
    The rendering of an integer by an f-string: '-' for a negative number,
    then the digits of its magnitude, never with a leading zero.
   */
  function IntToString(n: int): (s: string)
    ensures |s| >= 1
    ensures forall k :: 0 <= k < |s| ==> s[k] == '-' || '0' <= s[k] <= '9'
    ensures s[0] == '-' <==> n < 0
    ensures s[0] == '0' ==> n == 0 && |s| == 1
    ensures s[0] == '-' ==> |s| >= 2 && s[1] != '0'
  {
    if n < 0 then "-" + NatToString(-n) else NatToString(n)
  }

  /** Reading the rendering back as a signed decimal gives the integer. */
  lemma IntToStringValue(n: int)
    ensures var s := IntToString(n);
      if s[0] == '-' then IsDigits(s[1..]) && DigitsValue(s[1..]) == -n
      else IsDigits(s) && DigitsValue(s) == n
  {
    if n < 0 {
      var digits := NatToString(-n);
      NatToStringValue(-n);
      assert IntToString(n)[1..] == digits;
    } else {
      NatToStringValue(n);
    }
  }

  /** A string splits into two or more pieces exactly when it holds the separator. */
  lemma SplitPieces(s: string, sep: char)
    ensures |Split(s, sep)| >= 2 <==> sep in s
  {
    var parts := Split(s, sep);
    if |parts| >= 2 {
      assert Join(parts, sep)[|parts[0]|] == sep;
    } else {
      assert Join(parts, sep) == parts[0];
    }
  }
}
