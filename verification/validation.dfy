/** `ValidationUtils`: the email validator, the URL gate and the blank test. */
module Validation {
  import opened Wrappers
  import opened Strings
  import opened CharClasses

  const MaxEmailLength: nat := 254

  /** Endings of asset names that the page-text pattern tends to capture. */
  const DeniedExtensions: seq<string> := [".png", ".jpg", ".jpeg", ".gif", ".pdf", ".doc", ".docx", ".hwp"]

  predicate HasDeniedExtension(n: string) {
    exists i :: 0 <= i < |DeniedExtensions| && EndsWith(n, DeniedExtensions[i])
  }

  /** `n` splits as local '@' domain '.' tld at positions `a` ('@') and `k` ('.'):
      the shape `^[a-zA-Z0-9._%+-]+@[a-zA-Z0-9.-]+\.[a-zA-Z]{2,}$` describes. */
  predicate GrammarSplit(n: string, a: nat, k: nat) {
    && 0 < a && a + 1 < k && k + 3 <= |n|
    && n[a] == '@' && n[k] == '.'
    && AllIn(n, 0, a, LocalChars)
    && AllIn(n, a + 1, k, DomainChars)
    && AllIn(n, k + 1, |n|, LetterChars)
  }

  ghost predicate FitsEmailGrammar(n: string) {
    exists a: nat, k: nat :: GrammarSplit(n, a, k)
  }

  /** The full-string match of the address pattern. Because '@' is in no class,
      the local part is the run before the only '@'; because the top-level
      domain is letters only, its dot is the last one. */
  function MatchesEmailPattern(n: string): (r: bool)
    ensures r <==> FitsEmailGrammar(n)
  {
    var a := RunEnd(n, 0, LocalChars);
    if a == 0 || a >= |n| || n[a] != '@' then
      NoAtAfterLocalRun(n);
      false
    else
      var i := RunStart(n, |n|, LetterChars);
      PatternAfterAt(n, a, i);
      i >= 1 && n[i - 1] == '.' && |n| - i >= 2 && a + 1 < i - 1 && RunEnd(n, a + 1, DomainChars) >= i - 1
  }

  /** Without an '@' right after a non-empty local run there is no split. */
  lemma NoAtAfterLocalRun(n: string)
    requires var a := RunEnd(n, 0, LocalChars); a == 0 || a >= |n| || n[a] != '@'
    ensures !FitsEmailGrammar(n)
  {
    forall a': nat, k': nat | GrammarSplit(n, a', k') ensures false {
      RunEndUnique(n, 0, a', LocalChars);
    }
  }

  /** With the '@' in place, the address fits exactly when the trailing
      letter run follows a dot and the domain characters reach that dot. */
  lemma PatternAfterAt(n: string, a: nat, i: nat)
    requires a == RunEnd(n, 0, LocalChars) && 0 < a < |n| && n[a] == '@'
    requires i == RunStart(n, |n|, LetterChars)
    ensures (i >= 1 && n[i - 1] == '.' && |n| - i >= 2 && a + 1 < i - 1 && RunEnd(n, a + 1, DomainChars) >= i - 1)
            <==> FitsEmailGrammar(n)
  {
    if i >= 1 && n[i - 1] == '.' && |n| - i >= 2 && a + 1 < i - 1 && RunEnd(n, a + 1, DomainChars) >= i - 1 {
      assert GrammarSplit(n, a, i - 1);
    }
    if a': nat, k': nat :| GrammarSplit(n, a', k') {
      RunEndUnique(n, 0, a', LocalChars);
      RunStartUnique(n, k' + 1, |n|, LetterChars);
      RunEndCovers(n, a + 1, k', DomainChars);
    }
  }

  /** `ValidationUtils.isValidEmail`. The length bound applies to the string as
      given; the extension and grammar checks to its lower-cased, trimmed form. */
  function IsValidEmail(email: Option<string>): (r: bool)
    ensures r <==> && email.Some?
                   && !IsBlank(email.value)
                   && |email.value| <= MaxEmailLength
                   && !HasDeniedExtension(Normalize(email.value))
                   && FitsEmailGrammar(Normalize(email.value))
  {
    if email.None? || |Trim(email.value)| == 0 || |email.value| > MaxEmailLength then false
    else
      var n := Normalize(email.value);
      if HasDeniedExtension(n) then false else MatchesEmailPattern(n)
  }

  /** An accepted address has at least six characters: one of local part,
      the '@', one of domain, the dot and two letters. */
  lemma ValidEmailMinLength(email: string)
    ensures IsValidEmail(Some(email)) ==> |Normalize(email)| >= 6 && |email| >= 6
  {
    if IsValidEmail(Some(email)) {
      var a: nat, k: nat :| GrammarSplit(Normalize(email), a, k);
    }
  }

  /** Every accepted address has, once normalised, exactly one '@'. */
  predicate OnlyAtSignAt(n: string, a: nat) {
    a < |n| && n[a] == '@' && forall j :: 0 <= j < |n| && j != a ==> n[j] != '@'
  }

  lemma ValidEmailHasOneAt(email: string)
    requires IsValidEmail(Some(email))
    ensures exists a :: OnlyAtSignAt(Normalize(email), a)
  {
    GrammarHasOneAt(Normalize(email));
  }

  lemma GrammarHasOneAt(n: string)
    requires FitsEmailGrammar(n)
    ensures exists a :: OnlyAtSignAt(n, a)
  {
    var a: nat, k: nat :| GrammarSplit(n, a, k);
    forall j | 0 <= j < |n| && j != a ensures n[j] != '@' {
      if j < a {
        assert InClass(LocalChars, n[j]);
      } else if j < k {
        assert InClass(DomainChars, n[j]);
      } else if j > k {
        assert InClass(LetterChars, n[j]);
      }
    }
    assert OnlyAtSignAt(n, a);
  }

  /** Case and surrounding whitespace do not matter, as long as the padded
      string is within the length bound. */
  lemma ValidityIgnoresCaseAndPadding(email: string)
    requires |email| <= MaxEmailLength
    ensures IsValidEmail(Some(email)) <==> IsValidEmail(Some(Normalize(email)))
  {
    NormalizeIdempotent(email);
    NormalizeKeepsBlank(email);
  }

  lemma NormalizeKeepsBlank(s: string)
    ensures IsBlank(Normalize(s)) <==> IsBlank(s)
  {
    NormalizeIdempotent(s);
  }

  /** ` Jane@Example.COM ` is accepted: it normalises to a plain address. */
  lemma PaddedMixedCaseExample()
    ensures IsValidEmail(Some(" Jane@Example.COM "))
  {
    var e := " Jane@Example.COM ";
    PaddedExampleNormalizes(e);
    ValidityIgnoresCaseAndPadding(e);
    PlainExampleValid("jane@example.com");
  }

  lemma PaddedExampleNormalizes(e: string)
    requires e == " Jane@Example.COM "
    ensures Normalize(e) == "jane@example.com"
  {
    var n := "jane@example.com";
    assert Lower(e) == [' '] + n + [' '];
    TrimOfPadded([' '], n, [' ']);
  }

  lemma PlainExampleValid(n: string)
    requires n == "jane@example.com"
    ensures IsValidEmail(Some(n))
  {
    PlainExampleFits(n);
    PlainExampleNormal(n);
    PlainExampleNotDenied(n);
    assert !IsTrimmable(n[0]);
  }

  lemma PlainExampleNormal(n: string)
    requires n == "jane@example.com"
    ensures Normalize(n) == n
  {
    assert Lower(n) == n;
    TrimOfUntrimmedEnds(n);
  }

  lemma PlainExampleNotDenied(n: string)
    requires n == "jane@example.com"
    ensures !HasDeniedExtension(n)
  {
    forall i | 0 <= i < |DeniedExtensions| ensures !EndsWith(n, DeniedExtensions[i]) {
      var x := DeniedExtensions[i];
      assert n[|n| - 1] == 'm';
      assert x[|x| - 1] != 'm';
    }
  }

  lemma PlainExampleFits(n: string)
    requires n == "jane@example.com"
    ensures FitsEmailGrammar(n)
  {
    assert GrammarSplit(n, 4, 12);
  }

  /** An address that fits the grammar is still refused for a denied ending. */
  lemma DeniedExtensionExample(n: string)
    requires n == "a@b.pdf"
    ensures FitsEmailGrammar(n)
    ensures !IsValidEmail(Some(n))
  {
    DeniedExampleNormal(n);
    DeniedExampleGrammar(n);
    DeniedExampleEnding(n);
  }

  lemma DeniedExampleGrammar(n: string)
    requires n == "a@b.pdf"
    ensures GrammarSplit(n, 1, 3)
  {
    assert AllIn(n, 4, 7, LetterChars);
  }

  lemma DeniedExampleNormal(n: string)
    requires n == "a@b.pdf"
    ensures Normalize(n) == n
  {
    assert Lower(n) == n;
    TrimOfUntrimmedEnds(n);
  }

  lemma DeniedExampleEnding(n: string)
    requires n == "a@b.pdf"
    ensures HasDeniedExtension(n)
  {
    assert n[|n| - 4..] == DeniedExtensions[4];
  }

  lemma OverlongRejected(email: string)
    requires |email| > MaxEmailLength
    ensures !IsValidEmail(Some(email))
  {
  }

  /** `ValidationUtils.isValidUrl`: a trimmed, non-empty string starting with
      `http://` or `https://`, compared case-sensitively. */
  function IsValidUrl(url: Option<string>): (r: bool)
    ensures r ==> url.Some? && !IsBlank(url.value)
    ensures r <==> url.Some? && (StartsWith(Trim(url.value), "http://") || StartsWith(Trim(url.value), "https://"))
  {
    if url.None? || |Trim(url.value)| == 0 then false
    else
      var u := Trim(url.value);
      StartsWith(u, "http://") || StartsWith(u, "https://")
  }

  lemma UpperCaseSchemeRejected()
    ensures !IsValidUrl(Some("HTTP://x"))
  {
    var u := "HTTP://x";
    TrimOfUntrimmedEnds(u);
    assert u[..7][0] == 'H';
  }

  /** `ValidationUtils.isEmpty`. */
  function IsEmpty(s: Option<string>): (r: bool)
    ensures r <==> s.None? || forall k :: 0 <= k < |s.value| ==> s.value[k] <= ' '
  {
    s.None? || |Trim(s.value)| == 0
  }

  /** No denied extension ends in 'm'. */
  lemma EndsInMNotDenied(n: string)
    requires |n| > 0 && n[|n| - 1] == 'm'
    ensures !HasDeniedExtension(n)
  {
    forall i | 0 <= i < |DeniedExtensions| ensures !EndsWith(n, DeniedExtensions[i]) {
      var x := DeniedExtensions[i];
      assert x[|x| - 1] != 'm';
    }
  }

  /** A lower-case address that fits the grammar and ends in 'm' is accepted
      and is its own normal form. */
  lemma PlainAddressValid(n: string, a: nat, k: nat)
    requires GrammarSplit(n, a, k) && HasNoUpper(n) && n[|n| - 1] == 'm' && |n| <= MaxEmailLength
    ensures IsValidEmail(Some(n)) && Normalize(n) == n
  {
    assert InClass(LocalChars, n[0]);
    assert !IsTrimmable(n[0]);
    LowerOfNoUpper(n);
    TrimOfUntrimmedEnds(n);
    EndsInMNotDenied(n);
  }
}
