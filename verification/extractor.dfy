/** `EmailExtractorService`: the three fixed patterns, the `find()` loop that
    collects their non-overlapping matches from left to right, and the
    clean-up of obfuscated matches. The patterns are

      standard   \b[A-Za-z0-9._%+-]+@[A-Za-z0-9.-]+\.[A-Z|a-z]{2,}\b
      bracket    \b[A-Za-z0-9._%+-]+\s*\[at\]\s*[A-Za-z0-9.-]+\.[A-Z|a-z]{2,}\b
      paren      \b[A-Za-z0-9._%+-]+\s*\(at\)\s*[A-Za-z0-9.-]+\.[A-Z|a-z]{2,}\b

    the last two case-insensitive. Each is hand-compiled: a match attempt at
    one start position follows the backtracking order of the regex engine. */
module Extractor {
  import opened Wrappers
  import opened Strings
  import opened CharClasses

  /* ----------------------------------------------------- word boundaries */

  /** A word character of `\b`: an ASCII letter, digit or underscore. */
  predicate IsWordChar(c: char) {
    IsAsciiLetter(c) || IsDigit(c) || c == '_'
  }

  /** `\b` at position `i`: exactly one of the characters around it is a word character. */
  predicate IsBoundary(t: string, i: nat)
    requires i <= |t|
  {
    (i > 0 && IsWordChar(t[i - 1])) != (i < |t| && IsWordChar(t[i]))
  }

  /** The largest boundary position in `[lo, hi]`, the first a backtracking
      `{2,}` reaches while giving characters back. */
  function LastBoundary(t: string, lo: nat, hi: nat): (r: Option<nat>)
    requires hi <= |t|
    ensures r.Some? ==> lo <= r.value <= hi && IsBoundary(t, r.value)
    ensures r.Some? ==> forall m :: r.value < m <= hi ==> !IsBoundary(t, m)
    ensures r.None? ==> forall m :: lo <= m <= hi ==> !IsBoundary(t, m)
    decreases hi
  {
    if hi < lo then None
    else if IsBoundary(t, hi) then Some(hi)
    else if hi == 0 then None
    else LastBoundary(t, lo, hi - 1)
  }

  /* ------------------------------------------------- domain and top level */

  /** `m` can end the top-level part that follows the dot at `k`:
      `[A-Z|a-z]{2,}\b`. */
  predicate TldEndsAt(t: string, k: nat, m: nat) {
    k + 3 <= m <= |t| && AllIn(t, k + 1, m, TldChars) && IsBoundary(t, m)
  }

  /** `t[ds..m]` is `[A-Za-z0-9.-]+\.[A-Z|a-z]{2,}\b` with the escaped dot at `k`. */
  predicate TailShape(t: string, ds: nat, k: nat, m: nat) {
    ds < k < |t| && t[k] == '.' && AllIn(t, ds, k, DomainChars) && TldEndsAt(t, k, m)
  }

  /** The longest top-level part after the dot at `k`. */
  function TldEnd(t: string, k: nat): (r: Option<nat>)
    requires k < |t|
    ensures r.Some? ==> TldEndsAt(t, k, r.value)
    ensures r.Some? ==> forall m: nat :: TldEndsAt(t, k, m) ==> m <= r.value
    ensures r.None? ==> forall m :: !TldEndsAt(t, k, m)
  {
    var te := RunEnd(t, k + 1, TldChars);
    assert forall m: nat :: TldEndsAt(t, k, m) ==> m <= te by {
      forall m: nat | TldEndsAt(t, k, m) ensures m <= te {
        RunEndCovers(t, k + 1, m, TldChars);
      }
    }
    if te < k + 3 then None else LastBoundary(t, k + 3, te)
  }

  /** Where the escaped dot and the end of the match fall. */
  datatype Tail = Tail(dot: nat, end: nat)

  /** `t[ds..]` is all domain characters below `hi`; the dots below `hi` are
      tried from the right, as the greedy `[A-Za-z0-9.-]+` gives characters back. */
  function DotSearch(t: string, ds: nat, hi: nat): (r: Option<Tail>)
    requires ds <= hi <= |t| && AllIn(t, ds, hi, DomainChars)
    ensures r.Some? ==> r.value.dot < hi && TailShape(t, ds, r.value.dot, r.value.end)
    ensures r.Some? ==> forall k: nat, m: nat :: k < hi && TailShape(t, ds, k, m) ==>
                          k < r.value.dot || (k == r.value.dot && m <= r.value.end)
    ensures r.None? ==> forall k: nat, m: nat :: k < hi ==> !TailShape(t, ds, k, m)
    decreases hi
  {
    if hi <= ds + 1 then None
    else
      var k := hi - 1;
      if t[k] == '.' && TldEnd(t, k).Some? then Some(Tail(k, TldEnd(t, k).value))
      else DotSearch(t, ds, k)
  }

  /** The part after the '@' (or after the marker and its spaces), starting at
      `ds`: the rightmost dot that a top-level part can follow, and for it the
      longest top-level part. Any other reading of the same text has an
      earlier dot, or the same dot and an end no further right. */
  function DomainTail(t: string, ds: nat): (r: Option<Tail>)
    requires ds <= |t|
    ensures r.Some? ==> TailShape(t, ds, r.value.dot, r.value.end)
    ensures r.Some? ==> forall k: nat, m: nat :: TailShape(t, ds, k, m) ==>
                          k < r.value.dot || (k == r.value.dot && m <= r.value.end)
    ensures r.None? ==> forall k: nat, m: nat :: !TailShape(t, ds, k, m)
  {
    var de := RunEnd(t, ds, DomainChars);
    assert forall k: nat, m: nat :: TailShape(t, ds, k, m) ==> k < de by {
      forall k: nat, m: nat | TailShape(t, ds, k, m) ensures k < de {
        assert AllIn(t, ds, k + 1, DomainChars);
        RunEndCovers(t, ds, k + 1, DomainChars);
      }
    }
    DotSearch(t, ds, de)
  }

  /* -------------------------------------------------------------- passes */

  datatype Pass = Standard | Bracket | Paren

  /** The marker a pass looks for, in lower case. */
  function MarkOf(p: Pass): string
    requires !p.Standard?
  {
    if p.Bracket? then "[at]" else "(at)"
  }

  /** The marker at `w`, compared without regard to ASCII case. */
  predicate MarkAt(t: string, w: nat, mark: string)
    requires |mark| == 4
  {
    w + 4 <= |t| && Lower(t[w..w + 4]) == mark
  }

  /** `t[s..m]` is a standard match with its '@' at `a` and its dot at `k`. */
  predicate StandardSplit(t: string, s: nat, a: nat, k: nat, m: nat) {
    s < a < |t| && t[a] == '@' && AllIn(t, s, a, LocalChars) && TailShape(t, a + 1, k, m)
  }

  /** `t[s..m]` is an obfuscated match: local part `t[s..a]`, spaces up to the
      marker at `w`, spaces from `w + 4` up to the domain at `ds`, dot at `k`. */
  predicate MarkedSplit(t: string, s: nat, a: nat, w: nat, ds: nat, k: nat, m: nat, mark: string)
    requires |mark| == 4
  {
    && s < a <= w && w + 4 <= ds <= |t|
    && AllIn(t, s, a, LocalChars)
    && AllIn(t, a, w, SpaceChars)
    && MarkAt(t, w, mark)
    && AllIn(t, w + 4, ds, SpaceChars)
    && TailShape(t, ds, k, m)
  }

  /** `t[s..m]` is a match of pass `p`, boundaries included. */
  ghost predicate Shape(t: string, s: nat, m: nat, p: Pass) {
    && s <= |t|
    && IsBoundary(t, s)
    && if p.Standard? then exists a: nat, k: nat :: StandardSplit(t, s, a, k, m)
       else exists a: nat, w: nat, ds: nat, k: nat :: MarkedSplit(t, s, a, w, ds, k, m, MarkOf(p))
  }

  function EndOf(r: Option<Tail>): Option<nat> {
    if r.Some? then Some(r.value.end) else None
  }

  /** One match attempt of pass `p` at `s`, returning where the match ends.
      The local run, the space runs and the domain run are each forced to be
      maximal because the character after each is outside its class; only the
      dot and the end are chosen by backtracking, in `DomainTail`. */
  function MatchAt(t: string, s: nat, p: Pass): (r: Option<nat>)
    requires s <= |t|
    ensures r.Some? ==> s < r.value <= |t|
    ensures r.Some? ==> IsBoundary(t, s) && InClass(LocalChars, t[s])
  {
    if !IsBoundary(t, s) then None
    else
      var a := RunEnd(t, s, LocalChars);
      if a == s then None
      else if p.Standard? then
        if a < |t| && t[a] == '@' then EndOf(DomainTail(t, a + 1)) else None
      else MarkedRest(t, a, MarkOf(p))
  }

  /** The rest of an obfuscated match once the local part ends at `a`:
      optional spaces, the marker, optional spaces, the domain. */
  function MarkedRest(t: string, a: nat, mark: string): (r: Option<nat>)
    requires a <= |t| && |mark| == 4
    ensures r.Some? ==> a < r.value <= |t|
  {
    var w := RunEnd(t, a, SpaceChars);
    if MarkAt(t, w, mark) then EndOf(DomainTail(t, RunEnd(t, w + 4, SpaceChars))) else None
  }

  lemma StandardSound(t: string, s: nat)
    requires s <= |t|
    requires MatchAt(t, s, Standard).Some?
    ensures Shape(t, s, MatchAt(t, s, Standard).value, Standard)
  {
    var a := RunEnd(t, s, LocalChars);
    var tl := DomainTail(t, a + 1).value;
    assert StandardSplit(t, s, a, tl.dot, tl.end);
  }

  lemma MarkedSound(t: string, s: nat, p: Pass)
    requires s <= |t| && !p.Standard?
    requires MatchAt(t, s, p).Some?
    ensures Shape(t, s, MatchAt(t, s, p).value, p)
  {
    var a := RunEnd(t, s, LocalChars);
    assert IsBoundary(t, s) && a != s;
    MatchAtMarked(t, s, p);
    var w := RunEnd(t, a, SpaceChars);
    assert MarkAt(t, w, MarkOf(p));
    var ds := RunEnd(t, w + 4, SpaceChars);
    MarkedRestAt(t, a, w, ds, MarkOf(p));
    var tl := DomainTail(t, ds).value;
    assert MarkedSplit(t, s, a, w, ds, tl.dot, tl.end, MarkOf(p));
  }

  /** An obfuscated pass past the boundary and a non-empty local part. */
  lemma MatchAtMarked(t: string, s: nat, p: Pass)
    requires s <= |t| && !p.Standard? && IsBoundary(t, s) && RunEnd(t, s, LocalChars) != s
    ensures MatchAt(t, s, p) == MarkedRest(t, RunEnd(t, s, LocalChars), MarkOf(p))
  {
  }

  /** The rest of an obfuscated match once its marker is found. */
  lemma MarkedRestAt(t: string, a: nat, w: nat, ds: nat, mark: string)
    requires a <= |t| && |mark| == 4
    requires RunEnd(t, a, SpaceChars) == w && MarkAt(t, w, mark) && RunEnd(t, w + 4, SpaceChars) == ds
    ensures MarkedRest(t, a, mark) == EndOf(DomainTail(t, ds))
  {
  }

  /** Every match attempt that succeeds returns a match of the pattern. */
  lemma MatchAtSound(t: string, s: nat, p: Pass)
    requires s <= |t|
    requires MatchAt(t, s, p).Some?
    ensures Shape(t, s, MatchAt(t, s, p).value, p)
  {
    if p.Standard? {
      StandardSound(t, s);
    } else {
      MarkedSound(t, s, p);
    }
  }

  lemma StandardComplete(t: string, s: nat, a: nat, k: nat, m: nat)
    requires StandardSplit(t, s, a, k, m) && IsBoundary(t, s)
    ensures MatchAt(t, s, Standard).Some?
  {
    RunEndUnique(t, s, a, LocalChars);
  }

  lemma MarkedComplete(t: string, s: nat, a: nat, w: nat, ds: nat, k: nat, m: nat, p: Pass)
    requires !p.Standard?
    requires MarkedSplit(t, s, a, w, ds, k, m, MarkOf(p)) && IsBoundary(t, s)
    ensures MatchAt(t, s, p).Some?
  {
    MarkedRunsAgree(t, s, a, w, ds, k, m, p);
    MatchAtMarked(t, s, p);
    MarkedRestAt(t, a, w, ds, MarkOf(p));
    assert TailShape(t, ds, k, m);
  }

  /** A match attempt fails only where the pattern has no match at all. */
  lemma MatchAtComplete(t: string, s: nat, m: nat, p: Pass)
    requires Shape(t, s, m, p)
    ensures MatchAt(t, s, p).Some?
  {
    if p.Standard? {
      var a: nat, k: nat :| StandardSplit(t, s, a, k, m);
      StandardComplete(t, s, a, k, m);
    } else {
      var a: nat, w: nat, ds: nat, k: nat :| MarkedSplit(t, s, a, w, ds, k, m, MarkOf(p));
      MarkedComplete(t, s, a, w, ds, k, m, p);
    }
  }

  /* ------------------------------------------------------ the find() loop */

  datatype Span = Span(start: nat, end: nat)

  /** `Matcher.find()` from position `from`: the leftmost start with a match. */
  function FirstMatch(t: string, from: nat, p: Pass): (r: Option<Span>)
    requires from <= |t|
    ensures r.Some? ==> from <= r.value.start < r.value.end <= |t|
                        && MatchAt(t, r.value.start, p) == Some(r.value.end)
    ensures r.Some? ==> NoMatchIn(t, p, from, r.value.start)
    ensures r.None? ==> NoMatchIn(t, p, from, |t| + 1)
    decreases |t| - from
  {
    var here := MatchAt(t, from, p);
    if here.Some? then Some(Span(from, here.value))
    else if from == |t| then None
    else
      var r := FirstMatch(t, from + 1, p);
      NoMatchBefore(t, p, from, if r.Some? then r.value.start else |t| + 1);
      r
  }

  /** A search that fails at `from` and finds nothing up to `hi` after it
      finds nothing from `from` on. */
  lemma NoMatchBefore(t: string, p: Pass, from: nat, hi: nat)
    requires from <= |t| && MatchAt(t, from, p).None? && NoMatchIn(t, p, from + 1, hi)
    ensures NoMatchIn(t, p, from, hi)
  {
  }

  /** The `while (matcher.find())` loop: every match, each search resuming
      where the previous match ended. */
  function Spans(t: string, from: nat, p: Pass): (r: seq<Span>)
    requires from <= |t|
    ensures forall i :: 0 <= i < |r| ==> from <= r[i].start < r[i].end <= |t|
    ensures forall i :: 0 <= i < |r| ==> MatchAt(t, r[i].start, p) == Some(r[i].end)
    decreases |t| - from
  {
    match FirstMatch(t, from, p)
    case None => []
    case Some(sp) =>
      var rest := Spans(t, sp.end, p);
      SpansCons(t, p, sp, rest);
      [sp] + rest
  }

  /** A match found before matches found after it. */
  lemma SpansCons(t: string, p: Pass, sp: Span, rest: seq<Span>)
    requires sp.start < sp.end <= |t| && MatchAt(t, sp.start, p) == Some(sp.end)
    requires forall i :: 0 <= i < |rest| ==> sp.end <= rest[i].start < rest[i].end <= |t|
    requires forall i :: 0 <= i < |rest| ==> MatchAt(t, rest[i].start, p) == Some(rest[i].end)
    ensures forall i :: 0 <= i < |[sp] + rest| ==> sp.start <= ([sp] + rest)[i].start < ([sp] + rest)[i].end <= |t|
    ensures forall i :: 0 <= i < |[sp] + rest| ==> MatchAt(t, ([sp] + rest)[i].start, p) == Some(([sp] + rest)[i].end)
  {
    var r := [sp] + rest;
    forall i | 0 <= i < |r| ensures sp.start <= r[i].start < r[i].end <= |t| && MatchAt(t, r[i].start, p) == Some(r[i].end) {
      if i > 0 {
        assert r[i] == rest[i - 1];
      }
    }
  }

  /** Where the search for the `i`-th match begins. */
  function ResumeAt(r: seq<Span>, i: nat, from: nat): nat
    requires i <= |r|
  {
    if i == 0 then from else r[i - 1].end
  }

  /** No position from `lo` up to, but not including, `hi` starts a match. */
  predicate NoMatchIn(t: string, p: Pass, lo: nat, hi: nat) {
    forall q: nat :: lo <= q < hi && q <= |t| ==> MatchAt(t, q, p).None?
  }

  /** `r` lists leftmost-first, non-overlapping matches found from `from`:
      each starts at or after the end of the previous one, no position in
      between starts a match, and no position after the last one does. */
  predicate Leftmost(t: string, from: nat, p: Pass, r: seq<Span>)
    requires from <= |t|
    requires forall i :: 0 <= i < |r| ==> r[i].start <= r[i].end <= |t|
  {
    && (forall i :: 0 <= i < |r| ==> ResumeAt(r, i, from) <= r[i].start && NoMatchIn(t, p, ResumeAt(r, i, from), r[i].start))
    && NoMatchIn(t, p, ResumeAt(r, |r|, from), |t| + 1)
  }

  lemma {:induction false} SpansAreLeftmost(t: string, from: nat, p: Pass)
    requires from <= |t|
    ensures Leftmost(t, from, p, Spans(t, from, p))
    decreases |t| - from
  {
    match FirstMatch(t, from, p)
    case None =>
    case Some(sp) =>
      SpansAreLeftmost(t, sp.end, p);
      LeftmostCons(t, from, p, sp, Spans(t, sp.end, p));
  }

  lemma LeftmostCons(t: string, from: nat, p: Pass, sp: Span, rest: seq<Span>)
    requires from <= sp.start < sp.end <= |t|
    requires NoMatchIn(t, p, from, sp.start)
    requires forall i :: 0 <= i < |rest| ==> rest[i].start <= rest[i].end <= |t|
    requires Leftmost(t, sp.end, p, rest)
    ensures Leftmost(t, from, p, [sp] + rest)
  {
    var r := [sp] + rest;
    forall i | 0 <= i < |r|
      ensures ResumeAt(r, i, from) <= r[i].start && NoMatchIn(t, p, ResumeAt(r, i, from), r[i].start)
    {
      if i > 0 {
        assert r[i] == rest[i - 1];
        assert ResumeAt(r, i, from) == ResumeAt(rest, i - 1, sp.end);
      }
    }
    assert ResumeAt(r, |r|, from) == ResumeAt(rest, |rest|, sp.end);
  }

  /* ------------------------------------------------------------- entries */

  /** `replaceAll("\\s", "")`. */
  function StripSpaces(s: string): (r: string)
    ensures forall k :: 0 <= k < |r| ==> !IsRegexSpace(r[k])
    ensures |r| <= |s|
    decreases |s|
  {
    if |s| == 0 then ""
    else if IsRegexSpace(s[0]) then StripSpaces(s[1..])
    else [s[0]] + StripSpaces(s[1..])
  }

  /** The text an obfuscated match contributes: the lower-case marker replaced
      by '@' (literally and case-sensitively), then every `\s` removed. */
  function Clean(segment: string, mark: string): string
    requires |mark| > 0
  {
    StripSpaces(ReplaceAll(segment, mark, "@"))
  }

  function Entries(t: string, spans: seq<Span>, p: Pass): (r: seq<string>)
    requires forall i :: 0 <= i < |spans| ==> spans[i].start <= spans[i].end <= |t|
    ensures |r| == |spans|
  {
    seq(|spans|, i requires 0 <= i < |spans| =>
      var segment := t[spans[i].start..spans[i].end];
      if p.Standard? then segment else Clean(segment, MarkOf(p)))
  }

  function PassEntries(t: string, p: Pass): (r: seq<string>)
    ensures |r| == |Spans(t, 0, p)|
    ensures forall i :: 0 <= i < |r| ==>
              var sp := Spans(t, 0, p)[i];
              r[i] == (if p.Standard? then t[sp.start..sp.end] else Clean(t[sp.start..sp.end], MarkOf(p)))
  {
    Entries(t, Spans(t, 0, p), p)
  }

  /** `extractEmailsFromText`: nothing for null or blank text; otherwise every
      standard match, then every cleaned `[at]` match, then every cleaned
      `(at)` match, duplicates kept. */
  function ExtractEmailsFromText(text: Option<string>): (r: seq<string>)
    ensures text.None? || IsBlank(text.value) ==> r == []
    ensures text.Some? && !IsBlank(text.value) ==>
              var t := text.value;
              && |r| == |Spans(t, 0, Standard)| + |Spans(t, 0, Bracket)| + |Spans(t, 0, Paren)|
              && r[..|Spans(t, 0, Standard)|] == PassEntries(t, Standard)
              && r[|Spans(t, 0, Standard)|..|Spans(t, 0, Standard)| + |Spans(t, 0, Bracket)|] == PassEntries(t, Bracket)
              && r[|Spans(t, 0, Standard)| + |Spans(t, 0, Bracket)|..] == PassEntries(t, Paren)
  {
    if text.None? || |Trim(text.value)| == 0 then []
    else
      var t := text.value;
      PassEntries(t, Standard) + PassEntries(t, Bracket) + PassEntries(t, Paren)
  }

  /* ---------------------------------------------------------- properties */

  /** `n` has exactly one '@', at `a`. */
  predicate OneAtSign(n: string, a: nat) {
    a < |n| && n[a] == '@' && forall j :: 0 <= j < |n| && j != a ==> n[j] != '@'
  }

  ghost predicate HasOneAtSign(n: string) {
    exists a: nat :: OneAtSign(n, a)
  }

  lemma StandardSegmentHasOneAt(t: string, s: nat, m: nat)
    requires Shape(t, s, m, Standard) && s <= m
    ensures HasOneAtSign(t[s..m])
  {
    var a: nat, k: nat :| StandardSplit(t, s, a, k, m);
    var n := t[s..m];
    forall j | 0 <= j < |n| && j != a - s ensures n[j] != '@' {
      assert n[j] == t[s + j];
      if s + j < a {
        assert InClass(LocalChars, t[s + j]);
      } else if s + j < k {
        assert InClass(DomainChars, t[s + j]);
      } else if s + j > k {
        assert InClass(TldChars, t[s + j]);
      }
    }
    assert OneAtSign(n, a - s);
  }

  /** Every entry of the standard pass holds exactly one '@'. */
  lemma StandardEntriesHaveOneAt(t: string)
    ensures forall i :: 0 <= i < |PassEntries(t, Standard)| ==> HasOneAtSign(PassEntries(t, Standard)[i])
  {
    var sp := Spans(t, 0, Standard);
    forall i | 0 <= i < |PassEntries(t, Standard)| ensures HasOneAtSign(PassEntries(t, Standard)[i]) {
      assert PassEntries(t, Standard)[i] == t[sp[i].start..sp[i].end];
      MatchAtSound(t, sp[i].start, Standard);
      StandardSegmentHasOneAt(t, sp[i].start, sp[i].end);
    }
  }

  /** Entries of the two obfuscated passes hold no `\s` character. */
  lemma MarkedEntriesHaveNoSpace(t: string, p: Pass)
    requires !p.Standard?
    ensures forall i, k :: 0 <= i < |PassEntries(t, p)| && 0 <= k < |PassEntries(t, p)[i]| ==>
              !IsRegexSpace(PassEntries(t, p)[i][k])
  {
  }

  /* ------------------------------------------------------------ examples */

  lemma {:induction false} StripSpacesAppend(x: string, y: string)
    ensures StripSpaces(x + y) == StripSpaces(x) + StripSpaces(y)
    decreases |x|
  {
    if |x| == 0 {
      assert x + y == y;
    } else {
      assert (x + y)[1..] == x[1..] + y;
      StripSpacesAppend(x[1..], y);
    }
  }

  lemma {:induction false} StripSpacesKeeps(x: string)
    requires SpaceFree(x)
    ensures StripSpaces(x) == x
    decreases |x|
  {
    if |x| > 0 {
      StripSpacesKeeps(x[1..]);
      assert [x[0]] + x[1..] == x;
    }
  }

  predicate SpaceFree(x: string) {
    forall k :: 0 <= k < |x| ==> !IsRegexSpace(x[k])
  }

  /** A space after a space-free piece is dropped. */
  lemma StripOneSpace(x: string, y: string)
    requires SpaceFree(x)
    ensures StripSpaces(x + " " + y) == x + StripSpaces(y)
  {
    StripSpacesAppend(x + " ", y);
    StripSpacesAppend(x, " ");
    StripSpacesKeeps(x);
    assert StripSpaces(" ") == "";
    assert x + "" == x;
  }

  /** A match of pass `p` could only be found where the text holds the
      pattern's required character: '@', or the marker's opening bracket. */
  lemma MatchNeedsChar(t: string, q: nat, p: Pass)
    requires q <= |t|
    ensures MatchAt(t, q, p).Some? ==> (if p.Standard? then '@' else MarkOf(p)[0]) in t
  {
    if MatchAt(t, q, p).Some? {
      MatchAtSound(t, q, p);
      if p.Standard? {
        StandardNeedsAt(t, q, MatchAt(t, q, p).value);
      } else {
        MarkedNeedsOpening(t, q, MatchAt(t, q, p).value, p);
      }
    }
  }

  lemma StandardNeedsAt(t: string, q: nat, m: nat)
    requires exists a: nat, k: nat :: StandardSplit(t, q, a, k, m)
    ensures '@' in t
  {
    var a: nat, k: nat :| StandardSplit(t, q, a, k, m);
    assert t[a] in t;
  }

  lemma MarkedNeedsOpening(t: string, q: nat, m: nat, p: Pass)
    requires !p.Standard?
    requires exists a: nat, w: nat, ds: nat, k: nat :: MarkedSplit(t, q, a, w, ds, k, m, MarkOf(p))
    ensures MarkOf(p)[0] in t
  {
    var a: nat, w: nat, ds: nat, k: nat :| MarkedSplit(t, q, a, w, ds, k, m, MarkOf(p));
    assert Lower(t[w..w + 4])[0] == LowerChar(t[w]);
    assert t[w] in t;
  }

  /** A text without the character a pass needs yields nothing from that pass. */
  lemma NoRequiredCharNoMatch(t: string, p: Pass)
    requires (if p.Standard? then '@' else MarkOf(p)[0]) !in t
    ensures Spans(t, 0, p) == [] && PassEntries(t, p) == []
  {
    forall q: nat | q <= |t| ensures MatchAt(t, q, p).None? {
      MatchNeedsChar(t, q, p);
    }
  }

  /** A text that is one match from its first to its last character yields exactly that match. */
  lemma WholeTextSpan(t: string, p: Pass)
    requires MatchAt(t, 0, p) == Some(|t|)
    ensures Spans(t, 0, p) == [Span(0, |t|)]
  {
    assert FirstMatch(t, 0, p) == Some(Span(0, |t|));
    assert RunEnd(t, |t|, LocalChars) == |t|;
    assert MatchAt(t, |t|, p).None?;
    assert FirstMatch(t, |t|, p).None?;
  }

  lemma WholeTextEntry(t: string, p: Pass)
    requires MatchAt(t, 0, p) == Some(|t|)
    ensures PassEntries(t, p) == [if p.Standard? then t else Clean(t, MarkOf(p))]
  {
    WholeTextSpan(t, p);
    assert t[0..|t|] == t;
  }

  lemma MarkedRunsAgree(t: string, s: nat, a: nat, w: nat, ds: nat, k: nat, m: nat, p: Pass)
    requires !p.Standard?
    requires MarkedSplit(t, s, a, w, ds, k, m, MarkOf(p))
    ensures RunEnd(t, s, LocalChars) == a
    ensures RunEnd(t, a, SpaceChars) == w
    ensures RunEnd(t, w + 4, SpaceChars) == ds
  {
    assert LowerChar(t[w]) == MarkOf(p)[0] by {
      assert t[w..w + 4][0] == t[w];
    }
    RunEndUnique(t, s, a, LocalChars);
    RunEndUnique(t, a, w, SpaceChars);
    assert ds == |t| || !InClass(SpaceChars, t[ds]) by {
      assert InClass(DomainChars, t[ds]);
    }
    RunEndUnique(t, w + 4, ds, SpaceChars);
  }

  /** When the domain holds a single dot, a marked match at 0 that can reach
      the end of the text does reach it. */
  lemma MarkedWholeMatch(t: string, a: nat, w: nat, ds: nat, k: nat, p: Pass)
    requires !p.Standard?
    requires MarkedSplit(t, 0, a, w, ds, k, |t|, MarkOf(p)) && IsBoundary(t, 0)
    requires forall j :: ds <= j < |t| && j != k ==> t[j] != '.'
    ensures MatchAt(t, 0, p) == Some(|t|)
  {
    MarkedRunsAgree(t, 0, a, w, ds, k, |t|, p);
    MatchAtMarked(t, 0, p);
    MarkedRestAt(t, a, w, ds, MarkOf(p));
    SingleDotTail(t, ds, k);
  }

  /** With a single dot after `ds`, the domain tail that reaches the end of
      the text is the one chosen. */
  lemma SingleDotTail(t: string, ds: nat, k: nat)
    requires ds <= |t| && TailShape(t, ds, k, |t|)
    requires forall j :: ds <= j < |t| && j != k ==> t[j] != '.'
    ensures DomainTail(t, ds) == Some(Tail(k, |t|))
  {
    var r := DomainTail(t, ds);
    assert r.value.dot == k;
  }

  /** `extractEmailsFromText` on a text that is one obfuscated match and holds
      neither '@' nor the other pass's opening bracket. */
  lemma SingleMarkedText(t: string, p: Pass)
    requires !p.Standard? && !IsBlank(t)
    requires MatchAt(t, 0, p) == Some(|t|)
    requires '@' !in t && MarkOf(if p.Bracket? then Paren else Bracket)[0] !in t
    ensures ExtractEmailsFromText(Some(t)) == [Clean(t, MarkOf(p))]
  {
    var other := if p.Bracket? then Paren else Bracket;
    WholeTextEntry(t, p);
    NoRequiredCharNoMatch(t, Standard);
    NoRequiredCharNoMatch(t, other);
    OnlyPassFinds(t, p);
  }

  /** When the other two passes find nothing in a non-blank text, the result
      is the remaining pass's entries. */
  lemma OnlyPassFinds(t: string, p: Pass)
    requires !IsBlank(t)
    requires forall q: Pass :: q != p ==> PassEntries(t, q) == []
    ensures ExtractEmailsFromText(Some(t)) == PassEntries(t, p)
  {
    var r := ExtractEmailsFromText(Some(t));
    var e := PassEntries(t, p);
    assert PassEntries(t, Standard) + PassEntries(t, Bracket) + PassEntries(t, Paren) == e by {
      match p
      case Standard => assert PassEntries(t, Bracket) == [] && PassEntries(t, Paren) == [];
      case Bracket => assert PassEntries(t, Standard) == [] && PassEntries(t, Paren) == [];
      case Paren => assert PassEntries(t, Standard) == [] && PassEntries(t, Bracket) == [];
    }
  }

  /** Replacing the only occurrence of a pattern whose first character
      appears nowhere else. */
  lemma ReplaceOnce(pre: string, pat: string, tail: string, rep: string)
    requires |pat| > 0 && pat[0] !in pre && pat[0] !in tail
    ensures ReplaceAll(pre + pat + tail, pat, rep) == pre + rep + tail
  {
    assert pre + pat + tail == pre + (pat + tail);
    ReplaceAllSkipsPrefix(pre, pat + tail, pat, rep);
    ReplaceAllAtMatch(pat, tail, rep);
    ReplaceAllFree(tail, pat, rep);
  }

  /** Removing the two single spaces that separate three space-free pieces. */
  lemma StripTwoSpaces(x: string, y: string, z: string)
    requires SpaceFree(x) && SpaceFree(y) && SpaceFree(z)
    ensures StripSpaces(x + " " + y + " " + z) == x + y + z
  {
    var yz := y + " " + z;
    assert x + " " + y + " " + z == x + " " + yz;
    StripOneSpace(x, yz);
    StripOneSpace(y, z);
    StripSpacesKeeps(z);
  }

  /** `jane [at] example.com` is found by the bracket pass and cleaned to `jane@example.com`. */
  lemma BracketExample(t: string)
    requires t == "jane [at] example.com"
    ensures ExtractEmailsFromText(Some(t)) == ["jane@example.com"]
  {
    BracketExampleMatch(t);
    MarkedExampleFacts(t, '(');
    SingleMarkedText(t, Bracket);
    BracketExampleClean(t);
  }

  /** The two example texts: non-blank, without '@', and without the other
      pass's opening bracket. */
  lemma MarkedExampleFacts(t: string, other: char)
    requires (t == "jane [at] example.com" && other == '(') || (t == "JOHN (AT) EXAMPLE.ORG" && other == '[')
    ensures !IsBlank(t) && '@' !in t && other !in t
  {
    assert !IsTrimmable(t[0]);
  }

  lemma BracketExampleMatch(t: string)
    requires t == "jane [at] example.com"
    ensures MatchAt(t, 0, Bracket) == Some(|t|)
  {
    assert Lower(t[5..9]) == "[at]";
    assert MarkedSplit(t, 0, 4, 5, 10, 17, |t|, "[at]");
    MarkedWholeMatch(t, 4, 5, 10, 17, Bracket);
  }

  lemma BracketExampleClean(t: string)
    requires t == "jane [at] example.com"
    ensures Clean(t, "[at]") == "jane@example.com"
  {
    var x, pat, y, z := "jane", "[at]", "@", "example.com";
    BracketExampleSplit(t, x, pat, y, z);
    ReplaceOnce(x + " ", pat, " " + z, y);
    StripTwoSpaces(x, y, z);
  }

  lemma BracketExampleSplit(t: string, x: string, pat: string, y: string, z: string)
    requires t == "jane [at] example.com" && x == "jane" && pat == "[at]" && y == "@" && z == "example.com"
    ensures t == (x + " ") + pat + (" " + z)
    ensures pat[0] !in x + " " && pat[0] !in " " + z
    ensures (x + " ") + y + (" " + z) == x + " " + y + " " + z
    ensures SpaceFree(x) && SpaceFree(y) && SpaceFree(z)
    ensures x + y + z == "jane@example.com"
  {
    BracketExampleJoins(t, x, pat, y, z);
    BracketExampleParts(x, pat, y, z);
  }

  lemma BracketExampleJoins(t: string, x: string, pat: string, y: string, z: string)
    requires t == "jane [at] example.com" && x == "jane" && pat == "[at]" && y == "@" && z == "example.com"
    ensures t == (x + " ") + pat + (" " + z)
    ensures (x + " ") + y + (" " + z) == x + " " + y + " " + z
    ensures x + y + z == "jane@example.com"
  {
  }

  lemma BracketExampleParts(x: string, pat: string, y: string, z: string)
    requires x == "jane" && pat == "[at]" && y == "@" && z == "example.com"
    ensures pat[0] !in x + " " && pat[0] !in " " + z
    ensures SpaceFree(x) && SpaceFree(y) && SpaceFree(z)
  {
  }

  /** `JOHN (AT) EXAMPLE.ORG` is found by the case-insensitive paren pass, but
      the replacement only knows the lower-case marker: the entry keeps `(AT)`. */
  lemma ParenExample(t: string)
    requires t == "JOHN (AT) EXAMPLE.ORG"
    ensures ExtractEmailsFromText(Some(t)) == ["JOHN(AT)EXAMPLE.ORG"]
  {
    ParenExampleMatch(t);
    MarkedExampleFacts(t, '[');
    SingleMarkedText(t, Paren);
    ParenExampleClean(t);
  }

  lemma ParenExampleMatch(t: string)
    requires t == "JOHN (AT) EXAMPLE.ORG"
    ensures MatchAt(t, 0, Paren) == Some(|t|)
  {
    assert Lower(t[5..9]) == "(at)";
    assert MarkedSplit(t, 0, 4, 5, 10, 17, |t|, "(at)");
    MarkedWholeMatch(t, 4, 5, 10, 17, Paren);
  }

  lemma ParenExampleClean(t: string)
    requires t == "JOHN (AT) EXAMPLE.ORG"
    ensures Clean(t, "(at)") == "JOHN(AT)EXAMPLE.ORG"
  {
    var x, y, z := "JOHN", "(AT)", "EXAMPLE.ORG";
    ParenExampleReplace(t, "(at)");
    ParenExampleSplit(t, x, y, z);
    StripTwoSpaces(x, y, z);
  }

  lemma ParenExampleSplit(t: string, x: string, y: string, z: string)
    requires t == "JOHN (AT) EXAMPLE.ORG" && x == "JOHN" && y == "(AT)" && z == "EXAMPLE.ORG"
    ensures t == x + " " + y + " " + z
    ensures SpaceFree(x) && SpaceFree(y) && SpaceFree(z)
    ensures x + y + z == "JOHN(AT)EXAMPLE.ORG"
  {
  }

  /** The text holds no lower-case 'a', so the lower-case marker never occurs. */
  lemma ParenExampleReplace(t: string, pat: string)
    requires t == "JOHN (AT) EXAMPLE.ORG" && pat == "(at)"
    ensures ReplaceAll(t, pat, "@") == t
  {
    forall j | 0 <= j < |t| ensures t[j] != pat[1] {
    }
    ReplaceAllMissing(t, pat, "@", 1);
  }
}
