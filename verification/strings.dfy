/** The few `java.lang.String` operations the crawler relies on, over `seq<char>`.
    Case folding is restricted to ASCII and `trim` strips every character at or
    below U+0020, exactly as `String.trim` does. */
module Strings {

  /* ---------------------------------------------------------------- trim */

  /** `String.trim` removes leading and trailing characters whose code is at most U+0020. */
  predicate IsTrimmable(c: char) {
    c <= ' '
  }

  /** `s.trim().isEmpty()`: every character of `s` would be trimmed away. */
  predicate IsBlank(s: string) {
    forall k :: 0 <= k < |s| ==> IsTrimmable(s[k])
  }

  function TrimStart(s: string): (r: string)
    ensures |r| <= |s| && r == s[|s| - |r|..]
    ensures |r| > 0 ==> !IsTrimmable(r[0])
    ensures forall k :: 0 <= k < |s| - |r| ==> IsTrimmable(s[k])
    decreases |s|
  {
    if |s| > 0 && IsTrimmable(s[0]) then TrimStart(s[1..]) else s
  }

  function TrimEnd(s: string): (r: string)
    ensures |r| <= |s| && r == s[..|r|]
    ensures |r| > 0 ==> !IsTrimmable(r[|r| - 1])
    ensures forall k :: |r| <= k < |s| ==> IsTrimmable(s[k])
    decreases |s|
  {
    if |s| > 0 && IsTrimmable(s[|s| - 1]) then TrimEnd(s[..|s| - 1]) else s
  }

  /** `String.trim`. */
  function Trim(s: string): (r: string)
    ensures |r| <= |s|
    ensures |r| == 0 <==> IsBlank(s)
    ensures |r| > 0 ==> !IsTrimmable(r[0]) && !IsTrimmable(r[|r| - 1])
    ensures |r| <= |TrimStart(s)|
    ensures forall k :: 0 <= k < |r| ==> r[k] == s[|s| - |TrimStart(s)| + k]
  {
    var t := TrimStart(s);
    var r := TrimEnd(t);
    assert |r| == 0 ==> IsBlank(s) by {
      if |r| == 0 {
        assert |t| == 0;
      }
    }
    assert |t| > 0 ==> |r| > 0;
    r
  }

  lemma TrimOfUntrimmedEnds(s: string)
    requires |s| > 0 ==> !IsTrimmable(s[0]) && !IsTrimmable(s[|s| - 1])
    ensures Trim(s) == s
  {
  }

  lemma {:induction false} TrimStartOfPadded(p: string, y: string)
    requires IsBlank(p)
    requires |y| > 0 && !IsTrimmable(y[0])
    ensures TrimStart(p + y) == y
    decreases |p|
  {
    if |p| > 0 {
      assert (p + y)[1..] == p[1..] + y;
      TrimStartOfPadded(p[1..], y);
    } else {
      assert p + y == y;
    }
  }

  lemma {:induction false} TrimEndOfPadded(y: string, q: string)
    requires IsBlank(q)
    requires |y| > 0 && !IsTrimmable(y[|y| - 1])
    ensures TrimEnd(y + q) == y
    decreases |q|
  {
    if |q| > 0 {
      assert (y + q)[..|y + q| - 1] == y + q[..|q| - 1];
      TrimEndOfPadded(y, q[..|q| - 1]);
    } else {
      assert y + q == y;
    }
  }

  /** Trimming strips exactly the blank padding around a string whose own ends are kept. */
  lemma TrimOfPadded(p: string, y: string, q: string)
    requires IsBlank(p) && IsBlank(q)
    requires |y| > 0 && !IsTrimmable(y[0]) && !IsTrimmable(y[|y| - 1])
    ensures Trim(p + y + q) == y
  {
    assert p + y + q == p + (y + q);
    TrimStartOfPadded(p, y + q);
    TrimEndOfPadded(y, q);
  }

  lemma TrimIdempotent(s: string)
    ensures Trim(Trim(s)) == Trim(s)
  {
    TrimOfUntrimmedEnds(Trim(s));
  }

  /* ---------------------------------------------------------- lower case */

  predicate IsAsciiUpper(c: char) {
    'A' <= c <= 'Z'
  }

  predicate IsAsciiLower(c: char) {
    'a' <= c <= 'z'
  }

  predicate IsAsciiLetter(c: char) {
    IsAsciiUpper(c) || IsAsciiLower(c)
  }

  predicate IsDigit(c: char) {
    '0' <= c <= '9'
  }

  function LowerChar(c: char): (d: char)
    ensures !IsAsciiUpper(d)
    ensures IsTrimmable(d) <==> IsTrimmable(c)
    ensures !IsAsciiUpper(c) ==> d == c
    ensures IsAsciiLetter(d) <==> IsAsciiLetter(c)
  {
    if IsAsciiUpper(c) then (c as int + 32) as char else c
  }

  /** `String.toLowerCase`, restricted to ASCII letters. */
  function Lower(s: string): (r: string)
    ensures |r| == |s|
    ensures forall k :: 0 <= k < |s| ==> r[k] == LowerChar(s[k])
  {
    seq(|s|, k requires 0 <= k < |s| => LowerChar(s[k]))
  }

  predicate HasNoUpper(s: string) {
    forall k :: 0 <= k < |s| ==> !IsAsciiUpper(s[k])
  }

  lemma LowerOfNoUpper(s: string)
    requires HasNoUpper(s)
    ensures Lower(s) == s
  {
  }

  /** The normal form the crawler compares addresses in: `s.toLowerCase().trim()`. */
  function Normalize(s: string): (r: string)
    ensures HasNoUpper(r)
    ensures |r| <= |s|
    ensures |r| == 0 <==> IsBlank(s)
  {
    var l := Lower(s);
    assert IsBlank(l) <==> IsBlank(s) by {
      assert forall k :: 0 <= k < |s| ==> (IsTrimmable(l[k]) <==> IsTrimmable(s[k]));
    }
    Trim(l)
  }

  lemma NormalizeIdempotent(s: string)
    ensures Normalize(Normalize(s)) == Normalize(s)
  {
    var n := Normalize(s);
    LowerOfNoUpper(n);
    TrimIdempotent(Lower(s));
  }

  /* ----------------------------------------------------------- searching */

  predicate OccursAt(s: string, sub: string, i: nat) {
    i + |sub| <= |s| && s[i..i + |sub|] == sub
  }

  predicate StartsWith(s: string, prefix: string) {
    OccursAt(s, prefix, 0)
  }

  predicate EndsWith(s: string, suffix: string) {
    |suffix| <= |s| && s[|s| - |suffix|..] == suffix
  }

  /** `String.contains`. */
  function Contains(s: string, sub: string): (r: bool)
    ensures r <==> exists i :: OccursAt(s, sub, i)
    decreases |s|
  {
    if OccursAt(s, sub, 0) then true
    else if |s| == 0 then false
    else
      var r := Contains(s[1..], sub);
      assert r ==> exists i :: OccursAt(s, sub, i) by {
        if r {
          var i: nat :| OccursAt(s[1..], sub, i);
          assert s[i + 1..i + 1 + |sub|] == s[1..][i..i + |sub|];
          assert OccursAt(s, sub, i + 1);
        }
      }
      assert (exists i :: OccursAt(s, sub, i)) ==> r by {
        if i: nat :| OccursAt(s, sub, i) {
          assert i > 0;
          assert s[1..][i - 1..i - 1 + |sub|] == s[i..i + |sub|];
          assert OccursAt(s[1..], sub, i - 1);
        }
      }
      r
  }

  /** `String.replace(CharSequence, CharSequence)`: every non-overlapping
      occurrence of `pat`, scanning left to right, is replaced by `rep`. */
  function ReplaceAll(s: string, pat: string, rep: string): (r: string)
    requires |pat| > 0
    decreases |s|
  {
    if |s| < |pat| then s
    else if s[..|pat|] == pat then rep + ReplaceAll(s[|pat|..], pat, rep)
    else [s[0]] + ReplaceAll(s[1..], pat, rep)
  }

  lemma {:induction false} ReplaceAllWithoutOccurrence(s: string, pat: string, rep: string)
    requires |pat| > 0
    requires !Contains(s, pat)
    ensures ReplaceAll(s, pat, rep) == s
    decreases |s|
  {
    if |s| >= |pat| {
      ReplaceAllWithoutOccurrence(s[1..], pat, rep);
    }
  }

  /** A string free of the pattern's first character passes through untouched,
      and so does its concatenation with a further string. */
  lemma {:induction false} ReplaceAllSkipsPrefix(x: string, y: string, pat: string, rep: string)
    requires |pat| > 0
    requires pat[0] !in x
    ensures ReplaceAll(x + y, pat, rep) == x + ReplaceAll(y, pat, rep)
    decreases |x|
  {
    if |x| > 0 {
      var s := x + y;
      if |s| < |pat| {
        ReplaceAllShort(y, pat, rep);
      } else {
        assert s[0] == x[0] && x[0] != pat[0];
        assert s[..|pat|][0] == s[0];
        assert s[1..] == x[1..] + y;
        ReplaceAllSkipsPrefix(x[1..], y, pat, rep);
        assert [x[0]] + (x[1..] + ReplaceAll(y, pat, rep)) == x + ReplaceAll(y, pat, rep);
      }
    } else {
      assert x + y == y;
    }
  }

  lemma ReplaceAllShort(s: string, pat: string, rep: string)
    requires |pat| > 0 && |s| < |pat|
    ensures ReplaceAll(s, pat, rep) == s
  {
  }

  lemma ReplaceAllAtMatch(pat: string, tail: string, rep: string)
    requires |pat| > 0
    ensures ReplaceAll(pat + tail, pat, rep) == rep + ReplaceAll(tail, pat, rep)
  {
    assert (pat + tail)[..|pat|] == pat;
    assert (pat + tail)[|pat|..] == tail;
  }

  lemma ReplaceAllFree(x: string, pat: string, rep: string)
    requires |pat| > 0 && pat[0] !in x
    ensures ReplaceAll(x, pat, rep) == x
  {
    ReplaceAllSkipsPrefix(x, "", pat, rep);
    ReplaceAllShort("", pat, rep);
    assert x + "" == x;
  }

  /** A text lacking one of the pattern's characters has no occurrence to
      replace and passes through unchanged. */
  lemma {:induction false} ReplaceAllMissing(s: string, pat: string, rep: string, k: nat)
    requires k < |pat| && pat[k] !in s
    ensures ReplaceAll(s, pat, rep) == s
    decreases |s|
  {
    if |s| >= |pat| {
      assert s[..|pat|][k] == s[k];
      ReplaceAllMissing(s[1..], pat, rep, k);
      assert [s[0]] + s[1..] == s;
    }
  }

  /** A character that neither the text nor the replacement holds is not in the result. */
  lemma {:induction false} ReplaceAllAvoids(s: string, pat: string, rep: string, c: char)
    requires |pat| > 0 && c !in s && c !in rep
    ensures c !in ReplaceAll(s, pat, rep)
    decreases |s|
  {
    if |s| >= |pat| {
      if s[..|pat|] == pat {
        ReplaceAllAvoids(s[|pat|..], pat, rep, c);
      } else {
        ReplaceAllAvoids(s[1..], pat, rep, c);
      }
    }
  }

  /* ---------------------------------------------------------- join/split */

  /** `String.join(sep, parts)`. */
  function Join(parts: seq<string>, sep: string): (r: string)
    decreases |parts|
  {
    if |parts| == 0 then ""
    else if |parts| == 1 then parts[0]
    else parts[0] + sep + Join(parts[1..], sep)
  }

  /** Appending one more part adds the separator and the part at the end. */
  lemma {:induction false} JoinSnoc(parts: seq<string>, p: string, sep: string)
    requires |parts| >= 1
    ensures Join(parts + [p], sep) == Join(parts, sep) + sep + p
    decreases |parts|
  {
    if |parts| > 1 {
      assert (parts + [p])[1..] == parts[1..] + [p];
      JoinSnoc(parts[1..], p, sep);
    } else {
      assert (parts + [p])[1..] == [p];
    }
  }

  /** A character in none of the parts and not in the separator is not in the joined string. */
  lemma {:induction false} JoinAvoids(parts: seq<string>, sep: string, c: char)
    requires forall i :: 0 <= i < |parts| ==> c !in parts[i]
    requires c !in sep
    ensures c !in Join(parts, sep)
    decreases |parts|
  {
    if |parts| > 1 {
      JoinAvoids(parts[1..], sep, c);
    }
  }

  /** Splits `s` at every occurrence of `sep`, keeping empty pieces; a string
      without separators is one piece. */
  function Split(s: string, sep: char): (r: seq<string>)
    ensures |r| >= 1
    ensures forall i :: 0 <= i < |r| ==> sep !in r[i]
    decreases |s|
  {
    if |s| == 0 then [""]
    else
      var rest := Split(s[1..], sep);
      if s[0] == sep then [""] + rest
      else [[s[0]] + rest[0]] + rest[1..]
  }

  function CountChar(s: string, c: char): nat
    decreases |s|
  {
    if |s| == 0 then 0 else (if s[0] == c then 1 else 0) + CountChar(s[1..], c)
  }

  lemma {:induction false} SplitCount(s: string, sep: char)
    ensures |Split(s, sep)| == CountChar(s, sep) + 1
    decreases |s|
  {
    if |s| > 0 {
      SplitCount(s[1..], sep);
    }
  }

  lemma {:induction false} SplitJoin(parts: seq<string>, sep: char)
    requires |parts| >= 1
    requires forall i :: 0 <= i < |parts| ==> sep !in parts[i]
    ensures Split(Join(parts, [sep]), sep) == parts
    decreases |parts|
  {
    if |parts| == 1 {
      SplitNoSeparator(parts[0], sep);
    } else {
      SplitJoin(parts[1..], sep);
      SplitAppend(parts[0], Join(parts[1..], [sep]), sep);
    }
  }

  lemma {:induction false} SplitNoSeparator(s: string, sep: char)
    requires sep !in s
    ensures Split(s, sep) == [s]
    decreases |s|
  {
    if |s| > 0 {
      SplitNoSeparator(s[1..], sep);
      assert [s[0]] + s[1..] == s;
    }
  }

  /** Splitting `p + sep + q` yields `p` followed by the pieces of `q`. */
  lemma {:induction false} SplitAppend(p: string, q: string, sep: char)
    requires sep !in p
    ensures Split(p + [sep] + q, sep) == [p] + Split(q, sep)
    decreases |p|
  {
    if |p| == 0 {
      assert p + [sep] + q == [sep] + q;
      assert ([sep] + q)[1..] == q;
    } else {
      assert (p + [sep] + q)[1..] == p[1..] + [sep] + q;
      SplitAppend(p[1..], q, sep);
      assert [p[0]] + p[1..] == p;
    }
  }

  /* ------------------------------------------------------------- decimal */

  function DigitChar(d: nat): (c: char)
    requires d < 10
    ensures IsDigit(c)
  {
    ('0' as int + d) as char
  }

  function DigitValue(c: char): nat
    requires IsDigit(c)
  {
    c as int - '0' as int
  }

  /** `Long.toString` of a non-negative value: decimal digits, no leading zeros. */
  function DecimalString(n: nat): (r: string)
    ensures |r| >= 1
    ensures forall k :: 0 <= k < |r| ==> IsDigit(r[k])
    ensures n < 10 ==> |r| == 1
    ensures 10 <= n < 100 ==> |r| == 2
    decreases n
  {
    if n < 10 then [DigitChar(n)] else DecimalString(n / 10) + [DigitChar(n % 10)]
  }

  predicate AllDigits(s: string) {
    forall k :: 0 <= k < |s| ==> IsDigit(s[k])
  }

  /** The value of a string of decimal digits. */
  function DecimalValue(s: string): nat
    requires AllDigits(s)
    decreases |s|
  {
    if |s| == 0 then 0 else DecimalValue(s[..|s| - 1]) * 10 + DigitValue(s[|s| - 1])
  }

  lemma {:induction false} DecimalRoundTrip(n: nat)
    ensures DecimalValue(DecimalString(n)) == n
    decreases n
  {
    if n >= 10 {
      DecimalRoundTrip(n / 10);
      var s := DecimalString(n);
      assert s[..|s| - 1] == DecimalString(n / 10);
    }
  }

  /** `String.format("%02d", n)` for a non-negative value. */
  function Pad2(n: nat): (r: string)
    ensures |r| >= 2 && AllDigits(r)
    ensures n < 100 ==> |r| == 2
    ensures DecimalValue(r) == n
  {
    DecimalRoundTrip(n);
    if n < 10 then
      var r := ['0'] + DecimalString(n);
      assert r[..|r| - 1] == ['0'];
      r
    else DecimalString(n)
  }
}
