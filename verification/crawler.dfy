/** `EmailCrawlerService`: how one website's address is chosen. The fetch and
    the HTML selection are outside the model: a page arrives as the `href`s
    of its `a[href^=mailto:]` links, in document order, and its text. */
module Crawler {
  import opened Wrappers
  import opened Strings
  import opened CharClasses
  import opened Validation
  import Extractor

  datatype Page =
    | FetchFailed                                   // connection, timeout, HTTP or parse error
    | Fetched(mailtoHrefs: seq<string>, text: string)

  const MailtoScheme: string := "mailto:"

  /** `mailto:([^?&\s]+)`, case-insensitive, matches at `q`. */
  predicate MailtoMatchAt(h: string, q: nat) {
    q + 7 < |h| && Lower(h[q..q + 7]) == MailtoScheme && InClass(MailtoChars, h[q + 7])
  }

  /** `Matcher.find()`: the leftmost start at or after `from` where the pattern matches. */
  function MailtoFrom(h: string, from: nat): (r: Option<nat>)
    ensures r.Some? ==> from <= r.value && MailtoMatchAt(h, r.value)
    ensures r.Some? ==> forall q :: from <= q < r.value ==> !MailtoMatchAt(h, q)
    ensures r.None? ==> forall q :: from <= q ==> !MailtoMatchAt(h, q)
    decreases |h| - from
  {
    if from + 7 >= |h| then None
    else if MailtoMatchAt(h, from) then Some(from)
    else MailtoFrom(h, from + 1)
  }

  /** `matcher.group(1)` after the first successful `find()`: the longest run
      of characters other than `?`, `&` and `\s` after the first `mailto:`
      that has one. */
  function MailtoAddress(h: string): (r: Option<string>)
    ensures r.None? <==> forall q :: !MailtoMatchAt(h, q)
    ensures r.Some? ==> exists q: nat :: && MailtoMatchAt(h, q)
                                    && (forall q' :: 0 <= q' < q ==> !MailtoMatchAt(h, q'))
                                    && q + 7 + |r.value| <= |h|
                                    && r.value == h[q + 7..q + 7 + |r.value|]
                                    && (q + 7 + |r.value| == |h| || !InClass(MailtoChars, h[q + 7 + |r.value|]))
    ensures r.Some? ==> |r.value| >= 1 && forall k :: 0 <= k < |r.value| ==> InClass(MailtoChars, r.value[k])
  {
    match MailtoFrom(h, 0)
    case None => None
    case Some(q) =>
      var e := RunEnd(h, q + 7, MailtoChars);
      Some(h[q + 7..e])
  }

  /** The address a link offers once lower-cased and trimmed, when it offers one. */
  function MailtoCandidate(h: string): Option<string> {
    match MailtoAddress(h)
    case None => None
    case Some(g) => Some(Normalize(g))
  }

  predicate OffersValid(h: string) {
    MailtoCandidate(h).Some? && IsValidEmail(MailtoCandidate(h))
  }

  /** No element of `xs` satisfies `ok`. */
  predicate NoneOk<T>(xs: seq<T>, ok: T -> bool) {
    forall j :: 0 <= j < |xs| ==> !ok(xs[j])
  }

  /** Position `i` holds the first element of `xs` that satisfies `ok`. */
  predicate FirstOk<T>(xs: seq<T>, ok: T -> bool, i: nat) {
    i < |xs| && ok(xs[i]) && forall j :: 0 <= j < i ==> !ok(xs[j])
  }

  /** The first position at or after `from` whose element satisfies `ok`. */
  function FirstFrom<T>(xs: seq<T>, ok: T -> bool, from: nat): (r: Option<nat>)
    requires from <= |xs|
    ensures r.Some? ==> from <= r.value < |xs| && ok(xs[r.value])
    ensures r.Some? ==> forall j :: from <= j < r.value ==> !ok(xs[j])
    ensures r.None? ==> forall j :: from <= j < |xs| ==> !ok(xs[j])
    decreases |xs| - from
  {
    if from == |xs| then None
    else if ok(xs[from]) then Some(from)
    else FirstFrom(xs, ok, from + 1)
  }

  /** The first position whose element satisfies `ok`: the loops of the
      service that return on the first acceptable candidate. */
  function FirstWhere<T>(xs: seq<T>, ok: T -> bool): (r: Option<nat>)
    ensures r.Some? ==> FirstOk(xs, ok, r.value)
    ensures r.None? <==> NoneOk(xs, ok)
  {
    FirstFrom(xs, ok, 0)
  }

  /** `r` is what the first element of `xs` satisfying `ok` yields under `f`,
      and "" exactly when no element satisfies `ok`. */
  ghost predicate ChoosesFirst<T>(xs: seq<T>, ok: T -> bool, f: T -> string, r: string) {
    && (r == "" <==> NoneOk(xs, ok))
    && (r != "" ==> exists i: nat :: FirstOk(xs, ok, i) && r == f(xs[i]))
  }

  /** What the first acceptable element yields, "" when no element is
      acceptable; an acceptable element never yields "". */
  function FirstImage<T(!new)>(xs: seq<T>, ok: T -> bool, f: T -> string): (r: string)
    requires forall x :: ok(x) ==> f(x) != ""
    ensures r == "" <==> NoneOk(xs, ok)
    ensures r != "" ==> exists i: nat :: FirstOk(xs, ok, i) && r == f(xs[i])
  {
    match FirstWhere(xs, ok)
    case None => ""
    case Some(i) => f(xs[i])
  }

  /** The address a link offers, "" when it offers none. */
  function Offered(h: string): string {
    match MailtoCandidate(h)
    case None => ""
    case Some(a) => a
  }

  lemma OfferedNonEmpty()
    ensures forall h :: OffersValid(h) ==> Offered(h) != ""
  {
    forall h | OffersValid(h) ensures Offered(h) != "" {
      ValidEmailMinLength(MailtoCandidate(h).value);
    }
  }

  /** `extractFromMailtoLinks`: the address of the first link, in order, that
      offers a valid one once normalised; "" when there is none. */
  function FromMailtoLinks(hrefs: seq<string>): (r: string)
    ensures r == "" <==> NoneOk(hrefs, OffersValid)
    ensures r != "" ==> exists i: nat :: FirstOk(hrefs, OffersValid, i) && r == Offered(hrefs[i])
  {
    OfferedNonEmpty();
    FirstImage(hrefs, OffersValid, Offered)
  }

  predicate IsAccepted(c: string) {
    IsValidEmail(Some(Normalize(c)))
  }

  lemma AcceptedNonEmpty()
    ensures forall c :: IsAccepted(c) ==> Normalize(c) != ""
  {
    forall c | IsAccepted(c) ensures Normalize(c) != "" {
      ValidEmailMinLength(Normalize(c));
    }
  }

  /** The loop over the text candidates: the first that is valid once
      lower-cased and trimmed, in that form; "" when there is none. */
  function FirstValid(cands: seq<string>): (r: string)
    ensures r == "" <==> NoneOk(cands, IsAccepted)
    ensures r != "" ==> exists i: nat :: FirstOk(cands, IsAccepted, i) && r == Normalize(cands[i])
  {
    AcceptedNonEmpty();
    FirstImage(cands, IsAccepted, Normalize)
  }

  /** `crawlWebsiteForEmail`: nothing for a URL that fails the gate (no fetch
      is made) or a failed fetch; otherwise the first valid mailto address,
      or failing that the first valid address found in the page text. */
  function CrawlWebsiteForEmail(url: string, page: Page): (r: string)
    ensures !IsValidUrl(Some(url)) ==> r == ""
    ensures page.FetchFailed? ==> r == ""
    ensures IsValidUrl(Some(url)) && page.Fetched? && !NoneOk(page.mailtoHrefs, OffersValid) ==>
              ChoosesFirst(page.mailtoHrefs, OffersValid, Offered, r)
    ensures IsValidUrl(Some(url)) && page.Fetched? && NoneOk(page.mailtoHrefs, OffersValid) ==>
              ChoosesFirst(Extractor.ExtractEmailsFromText(Some(page.text)), IsAccepted, Normalize, r)
  {
    if !IsValidUrl(Some(url)) then ""
    else match page
      case FetchFailed => ""
      case Fetched(hrefs, text) =>
        var m := FromMailtoLinks(hrefs);
        if m != "" then m else FirstValid(Extractor.ExtractEmailsFromText(Some(text)))
  }

  /** A mailto result is an accepted address in normal form. */
  lemma MailtoResultNormalValid(hrefs: seq<string>)
    ensures var r := FromMailtoLinks(hrefs); r == "" || NormalValid(r)
  {
    forall h | OffersValid(h) ensures NormalValid(Offered(h)) {
      OfferedNormalValid(h);
    }
    OfferedNonEmpty();
    FirstImageKeeps(hrefs, OffersValid, Offered, NormalValid);
  }

  /** An accepted address already in normal form. */
  predicate NormalValid(a: string) {
    IsValidEmail(Some(a)) && Normalize(a) == a && HasNoUpper(a)
  }

  /** Whatever `f` yields on accepted elements, the first image is, or it is "". */
  lemma FirstImageKeeps<T(!new)>(xs: seq<T>, ok: T -> bool, f: T -> string, keep: string -> bool)
    requires forall x :: ok(x) ==> f(x) != ""
    requires forall x :: ok(x) ==> keep(f(x))
    ensures FirstImage(xs, ok, f) == "" || keep(FirstImage(xs, ok, f))
  {
  }

  lemma OfferedNormalValid(h: string)
    requires OffersValid(h)
    ensures NormalValid(Offered(h))
  {
    NormalizeIdempotent(MailtoAddress(h).value);
  }

  lemma AcceptedNormalValid(c: string)
    requires IsAccepted(c)
    ensures NormalValid(Normalize(c))
  {
    NormalizeIdempotent(c);
  }

  /** A text result is an accepted address in normal form. */
  lemma TextResultNormalValid(cands: seq<string>)
    ensures var r := FirstValid(cands); r == "" || NormalValid(r)
  {
    forall c | IsAccepted(c) ensures NormalValid(Normalize(c)) {
      AcceptedNormalValid(c);
    }
    AcceptedNonEmpty();
    FirstImageKeeps(cands, IsAccepted, Normalize, NormalValid);
  }

  /** Whatever the page, the result is "" or an accepted address already in
      normal form (lower case, no surrounding blanks). */
  lemma CrawlResultIsNormalValid(url: string, page: Page)
    ensures var r := CrawlWebsiteForEmail(url, page);
            r == "" || NormalValid(r)
  {
    if IsValidUrl(Some(url)) && page.Fetched? {
      MailtoResultNormalValid(page.mailtoHrefs);
      TextResultNormalValid(Extractor.ExtractEmailsFromText(Some(page.text)));
    }
  }

  /** A valid mailto address decides the result; the page text is not consulted. */
  lemma MailtoWins(url: string, hrefs: seq<string>, text1: string, text2: string, i: nat)
    requires IsValidUrl(Some(url))
    requires i < |hrefs| && OffersValid(hrefs[i])
    ensures CrawlWebsiteForEmail(url, Fetched(hrefs, text1)) == FromMailtoLinks(hrefs) != ""
    ensures CrawlWebsiteForEmail(url, Fetched(hrefs, text1)) == CrawlWebsiteForEmail(url, Fetched(hrefs, text2))
  {
    MailtoDecides(url, hrefs, text1, i);
    MailtoDecides(url, hrefs, text2, i);
  }

  lemma MailtoDecides(url: string, hrefs: seq<string>, text: string, i: nat)
    requires IsValidUrl(Some(url))
    requires i < |hrefs| && OffersValid(hrefs[i])
    ensures CrawlWebsiteForEmail(url, Fetched(hrefs, text)) == FromMailtoLinks(hrefs) != ""
  {
    OfferGivesAddress(hrefs, i);
  }

  lemma OfferGivesAddress(hrefs: seq<string>, i: nat)
    requires i < |hrefs| && OffersValid(hrefs[i])
    ensures FromMailtoLinks(hrefs) != ""
  {
    assert !NoneOk(hrefs, OffersValid);
  }

  /** Without a valid mailto address the text decides: the first candidate of
      the extractor that is valid once normalised. */
  lemma TextDecidesWithoutMailto(url: string, hrefs: seq<string>, text: string)
    requires IsValidUrl(Some(url))
    requires NoneOk(hrefs, OffersValid)
    ensures CrawlWebsiteForEmail(url, Fetched(hrefs, text)) == FirstValid(Extractor.ExtractEmailsFromText(Some(text)))
  {
    NoOfferNoAddress(hrefs);
  }

  lemma NoOfferNoAddress(hrefs: seq<string>)
    requires NoneOk(hrefs, OffersValid)
    ensures FromMailtoLinks(hrefs) == ""
  {
  }

  /** `mailto:Info@Acme.com?subject=x` offers `info@acme.com`. */
  lemma MailtoExample(h: string)
    requires h == "mailto:Info@Acme.com?subject=x"
    ensures MailtoCandidate(h) == Some("info@acme.com")
    ensures OffersValid(h)
    ensures FromMailtoLinks([h]) == "info@acme.com"
  {
    var n := "info@acme.com";
    MailtoExampleCandidate(h, n);
    MailtoExampleValid(n);
    assert OffersValid(h);
    SingleLink(h);
  }

  lemma MailtoExampleCandidate(h: string, n: string)
    requires h == "mailto:Info@Acme.com?subject=x" && n == "info@acme.com"
    ensures MailtoCandidate(h) == Some(n)
  {
    MailtoExampleGroup(h, "Info@Acme.com");
    MailtoExampleNormal("Info@Acme.com", n);
  }

  /** A single link that offers a valid address yields that address. */
  lemma SingleLink(h: string)
    requires OffersValid(h)
    ensures FromMailtoLinks([h]) == Offered(h)
  {
    OfferedNonEmpty();
    FirstImageSingle(h, OffersValid, Offered);
  }

  lemma FirstImageSingle<T(!new)>(x: T, ok: T -> bool, f: T -> string)
    requires forall y :: ok(y) ==> f(y) != ""
    requires ok(x)
    ensures FirstImage([x], ok, f) == f(x)
  {
    assert FirstOk([x], ok, 0);
  }

  lemma MailtoExampleGroup(h: string, g: string)
    requires h == "mailto:Info@Acme.com?subject=x" && g == "Info@Acme.com"
    ensures MailtoAddress(h) == Some(g)
  {
    MailtoExampleMatch(h);
    MailtoExampleRun(h);
    assert MailtoFrom(h, 0) == Some(0);
    RunEndUnique(h, 7, 20, MailtoChars);
    MailtoExampleSlice(h, g);
  }

  lemma MailtoExampleSlice(h: string, g: string)
    requires h == "mailto:Info@Acme.com?subject=x" && g == "Info@Acme.com"
    ensures h[7..20] == g
  {
    assert |h[7..20]| == |g|;
    forall k | 0 <= k < |g| ensures h[7..20][k] == g[k] {
      assert h[7..20][k] == h[k + 7];
    }
  }

  lemma MailtoExampleMatch(h: string)
    requires h == "mailto:Info@Acme.com?subject=x"
    ensures MailtoMatchAt(h, 0)
  {
    assert h[0..7] == MailtoScheme;
    LowerOfNoUpper(MailtoScheme);
    assert InClass(MailtoChars, h[7]);
  }

  lemma MailtoExampleRun(h: string)
    requires h == "mailto:Info@Acme.com?subject=x"
    ensures AllIn(h, 7, 20, MailtoChars) && !InClass(MailtoChars, h[20])
  {
    forall m | 7 <= m < 20 ensures InClass(MailtoChars, h[m]) {
      assert h[m] != '?' && h[m] != '&' && h[m] > ' ';
    }
  }

  lemma MailtoExampleNormal(g: string, n: string)
    requires g == "Info@Acme.com" && n == "info@acme.com"
    ensures Normalize(g) == n
  {
    assert Lower(g) == n;
    TrimOfUntrimmedEnds(n);
  }

  lemma MailtoExampleValid(n: string)
    requires n == "info@acme.com"
    ensures IsValidEmail(Some(n))
  {
    assert GrammarSplit(n, 4, 9);
    PlainAddressValid(n, 4, 9);
  }
}
