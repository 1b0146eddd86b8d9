/** The character classes of the crawler's fixed regular expressions, and
    maximal runs of one class, which is what a greedy `[...]+` consumes. */
module CharClasses {
  import opened Strings

  datatype CharClass =
    | LocalChars    // [A-Za-z0-9._%+-]
    | DomainChars   // [A-Za-z0-9.-]
    | TldChars      // [A-Z|a-z]: the bar inside the brackets is a literal '|'
    | LetterChars   // [a-zA-Z]
    | SpaceChars    // \s: [ \t\n\x0B\f\r]
    | MailtoChars   // [^?&\s]

  predicate IsRegexSpace(c: char) {
    c == ' ' || c == '\t' || c == '\n' || c == '\U{000B}' || c == '\U{000C}' || c == '\r'
  }

  predicate InClass(k: CharClass, c: char) {
    match k
    case LocalChars => IsAsciiLetter(c) || IsDigit(c) || c == '.' || c == '_' || c == '%' || c == '+' || c == '-'
    case DomainChars => IsAsciiLetter(c) || IsDigit(c) || c == '.' || c == '-'
    case TldChars => IsAsciiLetter(c) || c == '|'
    case LetterChars => IsAsciiLetter(c)
    case SpaceChars => IsRegexSpace(c)
    case MailtoChars => c != '?' && c != '&' && !IsRegexSpace(c)
  }

  predicate AllIn(t: string, i: nat, j: nat, k: CharClass)
    requires i <= j <= |t|
  {
    forall m :: i <= m < j ==> InClass(k, t[m])
  }

  /** The end of the maximal run of class `k` starting at `i`. */
  function RunEnd(t: string, i: nat, k: CharClass): (j: nat)
    requires i <= |t|
    ensures i <= j <= |t|
    ensures AllIn(t, i, j, k)
    ensures j == |t| || !InClass(k, t[j])
    decreases |t| - i
  {
    if i < |t| && InClass(k, t[i]) then RunEnd(t, i + 1, k) else i
  }

  /** The start of the maximal run of class `k` ending at `j`. */
  function RunStart(t: string, j: nat, k: CharClass): (i: nat)
    requires j <= |t|
    ensures i <= j
    ensures AllIn(t, i, j, k)
    ensures i == 0 || !InClass(k, t[i - 1])
    decreases j
  {
    if j > 0 && InClass(k, t[j - 1]) then RunStart(t, j - 1, k) else j
  }

  /** A run that stops at a character outside the class is the maximal one. */
  lemma RunEndUnique(t: string, i: nat, j: nat, k: CharClass)
    requires i <= j <= |t|
    requires AllIn(t, i, j, k)
    requires j == |t| || !InClass(k, t[j])
    ensures RunEnd(t, i, k) == j
  {
  }

  lemma RunStartUnique(t: string, i: nat, j: nat, k: CharClass)
    requires i <= j <= |t|
    requires AllIn(t, i, j, k)
    requires i == 0 || !InClass(k, t[i - 1])
    ensures RunStart(t, j, k) == i
  {
  }

  lemma RunEndCovers(t: string, i: nat, j: nat, k: CharClass)
    requires i <= j <= |t|
    requires AllIn(t, i, j, k)
    ensures RunEnd(t, i, k) >= j
  {
  }
}
