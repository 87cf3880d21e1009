/**
 * `extract_logo`: fetch one page, walk its `img` elements in document order
 * and collect the resolved URLs of those the classifier accepts, each URL
 * once, in the order first seen. Any failure gives an empty list.
 */
module PageExtractor {
  import opened Common
  import opened Dom
  import opened Classifier

  /** What fetching and parsing one page gave: its document, or a failure
      (a network error, a timeout, a non-2xx status or a parse error). */
  datatype Page = Fetched(doc: Node) | Unreachable

  /** `urljoin(base, ref)`; `None` stands for the `ValueError` it can raise. */
  type UrlJoin = (string, string) -> Option<string>

  /* ----- first-seen deduplication ----- */

  predicate NoDuplicates<T(==)>(s: seq<T>) {
    forall i, j :: 0 <= i < j < |s| ==> s[i] != s[j]
  }

  /** The elements of `s`, each kept at its first occurrence: what appending
      `x` only when `x not in` the list so far builds. */
  function Dedup<T(==)>(s: seq<T>): seq<T> {
    if s == [] then []
    else
      var d := Dedup(s[..|s| - 1]);
      if s[|s| - 1] in d then d else d + [s[|s| - 1]]
  }

  /** One more element is kept exactly when it is new. */
  lemma DedupSnoc<T>(s: seq<T>, x: T)
    ensures Dedup(s + [x]) == if x in Dedup(s) then Dedup(s) else Dedup(s) + [x]
  {
    assert (s + [x])[..|s|] == s;
  }

  /** The index of the first occurrence of `x` in `s`. */
  function FirstIndex<T(==)>(s: seq<T>, x: T): (r: nat)
    requires x in s
    ensures r < |s| && s[r] == x && x !in s[..r]
  {
    if s[0] == x then 0
    else
      var r := 1 + FirstIndex(s[1..], x);
      assert s[..r] == [s[0]] + s[1..][..r - 1];
      r
  }

  /** `Dedup` keeps exactly the elements of its input, each once. */
  lemma {:induction false} DedupMembersDistinct<T>(s: seq<T>)
    ensures forall x :: x in Dedup(s) <==> x in s
    ensures forall k :: 0 <= k < |Dedup(s)| ==> Dedup(s)[k] in s
    ensures NoDuplicates(Dedup(s))
  {
    if s != [] {
      var init := s[..|s| - 1];
      DedupMembersDistinct(init);
      assert s == init + [s[|s| - 1]];
    }
  }

  lemma {:induction false} FirstIndexExtend<T>(s: seq<T>, a: T, x: T)
    requires x in s
    ensures FirstIndex(s + [a], x) == FirstIndex(s, x)
  {
    if s[0] != x {
      assert (s + [a])[1..] == s[1..] + [a];
      FirstIndexExtend(s[1..], a, x);
    }
  }

  /** Every element of `r` occurs in `s`, and `r` lists them in the order
      of their first occurrence in `s`. */
  ghost predicate InFirstSeenOrder<T>(r: seq<T>, s: seq<T>) {
    && (forall k :: 0 <= k < |r| ==> r[k] in s)
    && forall i, j :: 0 <= i < j < |r| ==> FirstIndex(s, r[i]) < FirstIndex(s, r[j])
  }

  /** `Dedup` lists the elements in the order of their first occurrence. */
  lemma {:induction false} DedupFirstSeenOrder<T>(s: seq<T>)
    ensures InFirstSeenOrder(Dedup(s), s)
  {
    if s != [] {
      var init := s[..|s| - 1];
      var a := s[|s| - 1];
      assert s == init + [a];
      DedupFirstSeenOrder(init);
      DedupMembersDistinct(init);
      var d := Dedup(init);
      var r := Dedup(s);
      assert r == if a in d then d else d + [a];
      forall x | x in init ensures FirstIndex(s, x) == FirstIndex(init, x) {
        FirstIndexExtend(init, a, x);
      }
      if a !in d {
        FirstIndexIsFirst(s, a, |init|);
      }
      forall k | 0 <= k < |r| ensures r[k] in s {
        if k < |d| {
          assert r[k] == d[k];
        }
      }
      forall i, j | 0 <= i < j < |r|
        ensures FirstIndex(s, r[i]) < FirstIndex(s, r[j])
      {
        assert r[i] == d[i];
        if j < |d| {
          assert r[j] == d[j];
        } else {
          assert r[j] == a;
        }
      }
    }
  }

  lemma FirstIndexIsFirst<T>(s: seq<T>, x: T, k: nat)
    requires k < |s| && s[k] == x && x !in s[..k]
    ensures FirstIndex(s, x) == k
  {
  }

  /** A list without duplicates is its own `Dedup`, so `Dedup` is idempotent. */
  lemma {:induction false} DedupOfDistinct<T>(s: seq<T>)
    requires NoDuplicates(s)
    ensures Dedup(s) == s
  {
    if s != [] {
      var init := s[..|s| - 1];
      DedupOfDistinct(init);
      assert forall k :: 0 <= k < |init| ==> init[k] == s[k] != s[|s| - 1];
      assert s == init + [s[|s| - 1]];
    }
  }

  lemma DedupIdempotent<T>(s: seq<T>)
    ensures Dedup(Dedup(s)) == Dedup(s)
  {
    DedupMembersDistinct(s);
    DedupOfDistinct(Dedup(s));
  }

  /* ----- the page's candidate URLs ----- */

  /** The `src` of the image at `q` when the classifier accepts it and the
      `src` is present and non-empty. */
  function AcceptedSrc(doc: Node, url: string, q: Path): Option<string>
    requires IsImageAt(doc, q)
  {
    if IsLikelyLogo(doc, q, url) then
      match AttrOpt(NodeAt(doc, q), "src")
      case Some(src) => if src != "" then Some(src) else None
      case None => None
    else None
  }

  predicate AllImages(doc: Node, images: seq<Path>) {
    forall k :: 0 <= k < |images| ==> IsImageAt(doc, images[k])
  }

  /** `AcceptedSrc` for each of `images`, in order. */
  function AcceptedSrcs(doc: Node, url: string, images: seq<Path>): (r: seq<Option<string>>)
    requires AllImages(doc, images)
    ensures |r| == |images| && forall k :: 0 <= k < |images| ==> r[k] == AcceptedSrc(doc, url, images[k])
  {
    seq(|images|, k requires 0 <= k < |images| && AllImages(doc, images) => AcceptedSrc(doc, url, images[k]))
  }

  /**
   * The resolved form of every present `src` of `srcs`, in order and with
   * repeats; `None` once resolving one of them fails, for that aborts the page.
   */
  function Candidates(url: string, join: UrlJoin, srcs: seq<Option<string>>): Option<seq<string>> {
    if srcs == [] then Some([])
    else
      match Candidates(url, join, srcs[..|srcs| - 1])
      case None => None
      case Some(c) =>
        match srcs[|srcs| - 1]
        case None => Some(c)
        case Some(src) =>
          match join(url, src)
          case None => None
          case Some(absolute) => Some(c + [absolute])
  }

  /** The `src` at position `k` is present and resolves to `x`. */
  predicate ResolvesAt(url: string, join: UrlJoin, srcs: seq<Option<string>>, k: int, x: string) {
    0 <= k < |srcs| && srcs[k].Some? && join(url, srcs[k].value) == Some(x)
  }

  /** The list built from the accepted `src`s: `[]` when resolving one fails,
      otherwise the resolved URLs without repeats. */
  function LogosOf(url: string, join: UrlJoin, srcs: seq<Option<string>>): (r: seq<string>)
    ensures NoDuplicates(r)
  {
    match Candidates(url, join, srcs)
    case None => []
    case Some(c) =>
      DedupMembersDistinct(c);
      Dedup(c)
  }

  /** What `extract_logo(url)` returns for a page: never a URL twice, and
      nothing at all when the page could not be fetched. */
  function PageLogos(url: string, page: Page, join: UrlJoin): (r: seq<string>)
    ensures NoDuplicates(r)
    ensures page.Unreachable? ==> r == []
  {
    match page
    case Unreachable => []
    case Fetched(doc) => LogosOf(url, join, AcceptedSrcs(doc, url, ImagePaths(doc)))
  }

  /** Once resolving fails, later images cannot bring the page back. */
  lemma {:induction false} FailureIsFinal(url: string, join: UrlJoin, srcs: seq<Option<string>>, n: nat)
    requires n <= |srcs| && Candidates(url, join, srcs[..n]).None?
    ensures Candidates(url, join, srcs).None?
    decreases |srcs| - n
  {
    if n < |srcs| {
      assert srcs[..n + 1][..n] == srcs[..n];
      FailureIsFinal(url, join, srcs, n + 1);
    } else {
      assert srcs[..n] == srcs;
    }
  }

  /** Every present `src` of `srcs` resolves. */
  predicate AllResolve(url: string, join: UrlJoin, srcs: seq<Option<string>>) {
    forall k :: 0 <= k < |srcs| && srcs[k].Some? ==> join(url, srcs[k].value).Some?
  }

  /** The candidates exist exactly when every present `src` resolves: the
      page is kept unless some join fails. */
  lemma {:induction false} CandidatesSome(url: string, join: UrlJoin, srcs: seq<Option<string>>)
    ensures Candidates(url, join, srcs).Some? <==> AllResolve(url, join, srcs)
  {
    if srcs != [] {
      var init := srcs[..|srcs| - 1];
      CandidatesSome(url, join, init);
      assert forall k :: 0 <= k < |init| ==> init[k] == srcs[k];
      if AllResolve(url, join, srcs) {
        assert AllResolve(url, join, init);
      }
    }
  }

  /** Some present `src` of `srcs` resolves to `x`. */
  predicate SomeResolves(url: string, join: UrlJoin, srcs: seq<Option<string>>, x: string) {
    exists k :: 0 <= k < |srcs| && ResolvesAt(url, join, srcs, k, x)
  }

  lemma SomeResolvesStep(url: string, join: UrlJoin, srcs: seq<Option<string>>, x: string)
    requires srcs != []
    ensures SomeResolves(url, join, srcs, x) <==>
      SomeResolves(url, join, srcs[..|srcs| - 1], x) || ResolvesAt(url, join, srcs, |srcs| - 1, x)
  {
    var init := srcs[..|srcs| - 1];
    if SomeResolves(url, join, srcs, x) {
      var k :| 0 <= k < |srcs| && ResolvesAt(url, join, srcs, k, x);
      if k < |init| {
        assert init[k] == srcs[k];
        assert ResolvesAt(url, join, init, k, x);
      }
    }
    if SomeResolves(url, join, init, x) {
      var k :| 0 <= k < |init| && ResolvesAt(url, join, init, k, x);
      assert init[k] == srcs[k];
      assert ResolvesAt(url, join, srcs, k, x);
    }
  }

  /** The candidates are exactly the URLs that some present `src` resolves to. */
  lemma {:induction false} CandidatesMembers(url: string, join: UrlJoin, srcs: seq<Option<string>>)
    requires Candidates(url, join, srcs).Some?
    ensures forall x :: x in Candidates(url, join, srcs).value <==> SomeResolves(url, join, srcs, x)
  {
    if srcs != [] {
      var init := srcs[..|srcs| - 1];
      var last := srcs[|srcs| - 1];
      var before := Candidates(url, join, init).value;
      var c := Candidates(url, join, srcs).value;
      CandidatesMembers(url, join, init);
      assert c == if last.Some? then before + [join(url, last.value).value] else before;
      forall x ensures x in c <==> SomeResolves(url, join, srcs, x) {
        SomeResolvesStep(url, join, srcs, x);
      }
    }
  }

  /* ----- what extract_logo promises ----- */

  /**
   * When no resolution fails, a URL is on the list exactly when some present
   * `src` resolves to it, and the list keeps the order in which the URLs are
   * first met.
   */
  lemma LogosContents(url: string, join: UrlJoin, srcs: seq<Option<string>>)
    requires Candidates(url, join, srcs).Some?
    ensures forall x :: x in LogosOf(url, join, srcs) <==> SomeResolves(url, join, srcs, x)
    ensures InFirstSeenOrder(LogosOf(url, join, srcs), Candidates(url, join, srcs).value)
  {
    var c := Candidates(url, join, srcs).value;
    CandidatesMembers(url, join, srcs);
    DedupMembersDistinct(c);
    DedupFirstSeenOrder(c);
  }

  /** A failure to resolve any accepted `src` empties the whole list. */
  lemma FailureEmptiesLogos(url: string, join: UrlJoin, srcs: seq<Option<string>>, k: nat)
    requires k < |srcs| && srcs[k].Some? && join(url, srcs[k].value).None?
    ensures LogosOf(url, join, srcs) == []
  {
    assert srcs[..k + 1][..k] == srcs[..k] && srcs[..k + 1][k] == srcs[k];
    FailureIsFinal(url, join, srcs, k + 1);
  }

  /** The `src` that enters the list for the image at `q` is present exactly
      when the classifier accepts the image and its `src` is non-empty. */
  lemma AcceptedSrcMeaning(doc: Node, url: string, q: Path)
    requires IsImageAt(doc, q)
    ensures AcceptedSrc(doc, url, q).Some? <==>
      IsLikelyLogo(doc, q, url) && AttrOpt(NodeAt(doc, q), "src").Some? && AttrOpt(NodeAt(doc, q), "src").value != ""
    ensures AcceptedSrc(doc, url, q).Some? ==> AcceptedSrc(doc, url, q) == AttrOpt(NodeAt(doc, q), "src")
  {
  }

  /** The image at `q` is a likely logo whose non-empty `src` resolves to `x`. */
  predicate LogoResolvesTo(doc: Node, url: string, join: UrlJoin, q: Path, x: string) {
    && IsImageAt(doc, q) && IsLikelyLogo(doc, q, url)
    && AttrOpt(NodeAt(doc, q), "src").Some? && AttrOpt(NodeAt(doc, q), "src").value != ""
    && join(url, AttrOpt(NodeAt(doc, q), "src").value) == Some(x)
  }

  /** Some image of `images` is a likely logo whose `src` resolves to `x`. */
  predicate SomeLogoResolvesTo(doc: Node, url: string, join: UrlJoin, images: seq<Path>, x: string) {
    exists k :: 0 <= k < |images| && LogoResolvesTo(doc, url, join, images[k], x)
  }

  /** `LogosOf` over the verdicts on `images`: exactly the URLs some likely
      logo's `src` resolves to, unless resolving one of them fails. */
  lemma ImagesLogosMembers(doc: Node, url: string, join: UrlJoin, images: seq<Path>, x: string)
    requires AllImages(doc, images) && Candidates(url, join, AcceptedSrcs(doc, url, images)).Some?
    ensures x in LogosOf(url, join, AcceptedSrcs(doc, url, images)) <==> SomeLogoResolvesTo(doc, url, join, images, x)
  {
    var srcs := AcceptedSrcs(doc, url, images);
    LogosContents(url, join, srcs);
    forall k | 0 <= k < |images|
      ensures ResolvesAt(url, join, srcs, k, x) <==> LogoResolvesTo(doc, url, join, images[k], x)
    {
      ResolvesAtMeaning(doc, url, join, images, k, x);
    }
  }

  /**
   * A fetched page lists exactly the URLs that the `src` of some likely
   * logo among its images resolves to, unless resolving one of those
   * `src`s fails.
   */
  lemma PageLogosMembers(url: string, doc: Node, join: UrlJoin, x: string)
    requires Candidates(url, join, AcceptedSrcs(doc, url, ImagePaths(doc))).Some?
    ensures x in PageLogos(url, Fetched(doc), join) <==> SomeLogoResolvesTo(doc, url, join, ImagePaths(doc), x)
  {
    ImagesLogosMembers(doc, url, join, ImagePaths(doc), x);
  }

  /** Position `k` of the accepted `src`s resolves to `x` exactly when the
      `k`-th image is a likely logo whose `src` resolves to `x`. */
  lemma ResolvesAtMeaning(doc: Node, url: string, join: UrlJoin, images: seq<Path>, k: nat, x: string)
    requires AllImages(doc, images) && k < |images|
    ensures ResolvesAt(url, join, AcceptedSrcs(doc, url, images), k, x) <==> LogoResolvesTo(doc, url, join, images[k], x)
  {
    AcceptedSrcMeaning(doc, url, images[k]);
  }

  /** A likely logo whose `src` cannot be resolved empties the page's list. */
  lemma PageFailure(url: string, doc: Node, join: UrlJoin, k: nat)
    requires k < |ImagePaths(doc)| && IsLikelyLogo(doc, ImagePaths(doc)[k], url)
    requires AttrOpt(NodeAt(doc, ImagePaths(doc)[k]), "src").Some?
    requires AttrOpt(NodeAt(doc, ImagePaths(doc)[k]), "src").value != ""
    requires join(url, AttrOpt(NodeAt(doc, ImagePaths(doc)[k]), "src").value).None?
    ensures PageLogos(url, Fetched(doc), join) == []
  {
    var images := ImagePaths(doc);
    AcceptedSrcMeaning(doc, url, images[k]);
    FailureEmptiesLogos(url, join, AcceptedSrcs(doc, url, images), k);
  }

  /** The body of the loop of `extract_logo` up to the join: the image's
      `src` when it is a likely logo and its `src` is non-empty. */
  method ConsiderImage(doc: Node, url: string, q: Path) returns (src: Option<string>)
    requires IsImageAt(doc, q)
    ensures src == AcceptedSrc(doc, url, q)
  {
    src := None;
    if IsLikelyLogo(doc, q, url) {
      var attr := AttrOpt(NodeAt(doc, q), "src");
      if attr.Some? && attr.value != "" {
        src := attr;
      }
    }
  }

  /** How one more image extends the candidates of the images before it. */
  lemma CandidatesNext(url: string, join: UrlJoin, srcs: seq<Option<string>>, k: nat, seen: seq<string>)
    requires k < |srcs| && Candidates(url, join, srcs[..k]) == Some(seen)
    ensures Candidates(url, join, srcs[..k + 1]) ==
      match srcs[k]
      case None => Some(seen)
      case Some(src) => if join(url, src).Some? then Some(seen + [join(url, src).value]) else None
  {
    assert srcs[..k + 1][..k] == srcs[..k];
  }

  /** One turn of the loop of `extract_logo`: a rejected image changes
      nothing, a failed join empties the page's list, and a resolved URL is
      appended, and kept when new. */
  lemma ScanStep(url: string, join: UrlJoin, srcs: seq<Option<string>>, k: nat, seen: seq<string>)
    requires k < |srcs| && Candidates(url, join, srcs[..k]) == Some(seen)
    ensures srcs[k].None? ==> Candidates(url, join, srcs[..k + 1]) == Some(seen)
    ensures srcs[k].Some? && join(url, srcs[k].value).None? ==> LogosOf(url, join, srcs) == []
    ensures srcs[k].Some? && join(url, srcs[k].value).Some? ==>
      var x := join(url, srcs[k].value).value;
      Candidates(url, join, srcs[..k + 1]) == Some(seen + [x])
      && Dedup(seen + [x]) == if x in Dedup(seen) then Dedup(seen) else Dedup(seen) + [x]
  {
    CandidatesNext(url, join, srcs, k, seen);
    if srcs[k].Some? {
      var x := join(url, srcs[k].value);
      if x.None? {
        FailureEmptiesLogos(url, join, srcs, k);
      } else {
        DedupSnoc(seen, x.value);
      }
    }
  }

  /** The `src` the loop considers for the `k`-th image is the `k`-th of
      `AcceptedSrcs`; stated apart so the loop's proof need not unfold the
      classifier. */
  lemma ScanLink(doc: Node, url: string, images: seq<Path>, k: nat, src: Option<string>)
    requires AllImages(doc, images) && k < |images| && src == AcceptedSrc(doc, url, images[k])
    ensures src == AcceptedSrcs(doc, url, images)[k]
  {
  }

  /**
   * The loop of `extract_logo` over `soup.find_all('img')`: `logo_urls` is
   * built by appending the resolved `src` of each accepted image when not
   * already present; a failure to resolve one gives `[]`.
   */
  method ScanImages(url: string, doc: Node, join: UrlJoin) returns (logos: seq<string>)
    ensures logos == LogosOf(url, join, AcceptedSrcs(doc, url, ImagePaths(doc)))
  {
    var images := ImagePaths(doc);
    ghost var srcs := AcceptedSrcs(doc, url, images);
    ghost var seen: seq<string> := [];
    logos := [];
    for k := 0 to |images|
      invariant Candidates(url, join, srcs[..k]) == Some(seen)
      invariant logos == Dedup(seen)
    {
      var src := ConsiderImage(doc, url, images[k]);
      ScanLink(doc, url, images, k, src);
      ScanStep(url, join, srcs, k, seen);
      if src.Some? {
        var absolute := join(url, src.value);
        if absolute.None? {
          return [];
        }
        seen := seen + [absolute.value];
        if absolute.value !in logos {
          logos := logos + [absolute.value];
        }
      }
    }
    assert srcs[..|images|] == srcs;
  }

  /** `extract_logo(url)` once the page has been fetched, or has failed to be. */
  method ExtractLogo(url: string, page: Page, join: UrlJoin) returns (logos: seq<string>)
    ensures logos == PageLogos(url, page, join)
    ensures NoDuplicates(logos)
  {
    match page {
      case Unreachable =>
        logos := [];
      case Fetched(doc) =>
        logos := ScanImages(url, doc, join);
    }
  }
}
