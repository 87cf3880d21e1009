/**
 * `is_likely_logo`: the ordered rules that decide whether an `img` element
 * of a page is a brand logo. The image is given by its document and its
 * path in it, so the rules can look at its parent and its landmark.
 */
module Classifier {
  import opened Common
  import opened PyStr
  import opened Dom

  /** Substrings that make an image a logo. */
  const STRONG_KEYWORDS: seq<string> :=
    ["logo", "brand-logo", "site-logo", "company-logo", "header-logo", "main-logo", "navbar-logo"]

  /** Declared beside the other two lists but never consulted by the rules. */
  const WEAK_KEYWORDS: seq<string> := ["brand", "company", "header-image", "nav-image"]

  /** Substrings that veto an image outright. */
  const NEGATIVE_KEYWORDS: seq<string> :=
    ["product", "avatar", "thumbnail", "banner", "ad-", "slider", "carousel", "gallery", "icon-", "social"]

  /** Some keyword is a substring of some one text (never of two texts together). */
  predicate AnyIn(keywords: seq<string>, texts: seq<string>) {
    exists i, j :: 0 <= i < |keywords| && 0 <= j < |texts| && IsSubstring(keywords[i], texts[j])
  }

  /**
   * The six lower-cased texts the keyword rules look at: the image's `src`,
   * `alt`, joined class list and `id`, then its parent's joined class list
   * and `id` (empty when the image has no parent).
   */
  function Texts(doc: Node, at: Path): (r: seq<string>)
    requires ValidPath(doc, at)
    ensures |r| == 6
  {
    var tag := NodeAt(doc, at);
    var parent := Parent(doc, at);
    [Lower(Attr(tag, "src", "")), Lower(Attr(tag, "alt", "")), Lower(ClassText(tag)),
     Lower(Attr(tag, "id", "")),
     if parent.Some? then Lower(ClassText(parent.value)) else "",
     if parent.Some? then Lower(Attr(parent.value, "id", "")) else ""]
  }

  /** `tag.parent`: the node one level up, `None` for the root. */
  function Parent(doc: Node, at: Path): Option<Node>
    requires ValidPath(doc, at)
  {
    if at == [] then None
    else
      PathSplit(doc, at, |at| - 1);
      Some(NodeAt(doc, at[..|at| - 1]))
  }

  /** `tag.get(key, '').strip().rstrip('px')`: what is left of the stripped
      attribute once its whole trailing run of `p` and `x` is cut off. */
  function DimensionText(tag: Node, key: string): (r: string)
    ensures var t := Strip(Attr(tag, key, ""));
      && r <= t
      && (forall i :: |r| <= i < |t| ==> t[i] == 'p' || t[i] == 'x')
      && (r != [] ==> r[|r| - 1] != 'p' && r[|r| - 1] != 'x')
  {
    var t := Strip(Attr(tag, key, ""));
    TrimRightPrefix(t, {'p', 'x'});
    TrimRight(t, {'p', 'x'})
  }

  /** `int(width), int(height)` when both texts are non-empty and both parse;
      `None` when the filter is skipped (an empty text, or a `ValueError`). */
  function ParsedDimensions(width: string, height: string): Option<(int, int)> {
    if width != "" && height != "" then
      match (ParseInt(width), ParseInt(height))
      case (Some(w), Some(h)) => Some((w, h))
      case _ => None
    else None
  }

  /** Too large or too small to be a logo. */
  predicate OutOfRange(w: int, h: int) {
    w > 400 || h > 200 || w < 20 || h < 20
  }

  /** `w / h > 4 or w / h < 0.25`, for `h > 0`, in integers. */
  predicate Elongated(w: int, h: int) {
    w > 4 * h || 4 * w < h
  }

  /** The dimension filter rejects the image. */
  predicate DimensionsReject(width: string, height: string) {
    match ParsedDimensions(width, height)
    case None => false
    case Some((w, h)) => OutOfRange(w, h) || Elongated(w, h)
  }

  predicate DimensionsRejectTag(tag: Node) {
    DimensionsReject(DimensionText(tag, "width"), DimensionText(tag, "height"))
  }

  /**
   * The landmark rule: the image has a nearest header or nav ancestor, and
   * is equal (as a tag) to the first `img` that `find_all` finds below it.
   */
  predicate LandmarkAccepts(doc: Node, at: Path)
    requires IsImageAt(doc, at)
  {
    match NearestLandmark(doc, at)
    case None => false
    case Some(k) => FirstImage(NodeAt(doc, at[..k])) == Some(NodeAt(doc, at))
  }

  /** `landmark.find_all('img')[0]`, or `None` when it holds no image. */
  function FirstImage(landmark: Node): Option<Node> {
    var images := ImagePaths(landmark);
    if images == [] then None else Some(NodeAt(landmark, images[0]))
  }

  /** Below its nearest landmark an image always finds a first image, so the
      source's `header_images[0]` never fails. */
  lemma LandmarkHasFirstImage(doc: Node, at: Path, k: nat)
    requires IsImageAt(doc, at) && NearestLandmark(doc, at) == Some(k)
    ensures FirstImage(NodeAt(doc, at[..k])).Some?
  {
    PathSplit(doc, at, k);
    ImagePathsComplete(NodeAt(doc, at[..k]), at[k..]);
  }

  /**
   * `is_likely_logo(img_tag, url)`: the negative veto, then the dimension
   * filter, then the strong keywords, then the landmark rule, else false.
   * `url` is accepted and never used, as in the application.
   */
  predicate IsLikelyLogo(doc: Node, at: Path, url: string)
    requires IsImageAt(doc, at)
    ensures IsLikelyLogo(doc, at, url) ==>
      !AnyIn(NEGATIVE_KEYWORDS, Texts(doc, at)) && !DimensionsRejectTag(NodeAt(doc, at))
  {
    var texts := Texts(doc, at);
    var tag := NodeAt(doc, at);
    if AnyIn(NEGATIVE_KEYWORDS, texts) then false
    else if DimensionsRejectTag(tag) then false
    else if AnyIn(STRONG_KEYWORDS, texts) then true
    else LandmarkAccepts(doc, at)
  }

  /* ----- what the rules amount to ----- */

  /** A negative keyword in any one text rejects the image, whatever else it has. */
  lemma NegativeVeto(doc: Node, at: Path, url: string, neg: nat, field: nat)
    requires IsImageAt(doc, at) && neg < |NEGATIVE_KEYWORDS| && field < 6
    requires IsSubstring(NEGATIVE_KEYWORDS[neg], Texts(doc, at)[field])
    ensures !IsLikelyLogo(doc, at, url)
  {
  }

  /** Every strong keyword contains `logo`. */
  lemma StrongKeywordsContainLogo(k: nat)
    requires k < |STRONG_KEYWORDS|
    ensures IsSubstring("logo", STRONG_KEYWORDS[k])
  {
    var prefixes := ["", "brand-", "site-", "company-", "header-", "main-", "navbar-"];
    assert STRONG_KEYWORDS[k] == prefixes[k] + "logo";
    LogoSuffix(prefixes[k]);
  }

  lemma LogoSuffix(p: string)
    ensures OccursAt("logo", p + "logo", |p|)
  {
    assert (p + "logo")[|p|..|p| + 4] == "logo";
  }

  /** The strong-keyword rule fires exactly when some text contains `logo`:
      the longer strong keywords never change the outcome. */
  lemma StrongMeansLogo(texts: seq<string>)
    ensures AnyIn(STRONG_KEYWORDS, texts) <==> exists j :: 0 <= j < |texts| && IsSubstring("logo", texts[j])
  {
    if AnyIn(STRONG_KEYWORDS, texts) {
      var i, j :| 0 <= i < |STRONG_KEYWORDS| && 0 <= j < |texts| && IsSubstring(STRONG_KEYWORDS[i], texts[j]);
      StrongKeywordsContainLogo(i);
      SubstringTransitive("logo", STRONG_KEYWORDS[i], texts[j]);
    }
    if exists j :: 0 <= j < |texts| && IsSubstring("logo", texts[j]) {
      var j :| 0 <= j < |texts| && IsSubstring("logo", texts[j]);
      assert STRONG_KEYWORDS[0] == "logo";
    }
  }

  /** The integer comparisons are the source's floating-point ratio test:
      once the size checks pass, `h >= 20` and the ratio is exact. */
  lemma ElongatedIsRatioTest(w: int, h: int)
    requires !OutOfRange(w, h)
    ensures Elongated(w, h) <==> (w as real) / (h as real) > 4.0 || (w as real) / (h as real) < 0.25
  {
    var hr := h as real;
    var ratio := (w as real) / hr;
    assert ratio * hr == w as real;
    var above := ratio - 4.0;
    var below := 0.25 - ratio;
    assert above * hr == w as real - 4.0 * hr;
    assert below * hr == 0.25 * hr - w as real;
    SignOfProduct(above, hr);
    SignOfProduct(below, hr);
  }

  lemma SignOfProduct(x: real, y: real)
    requires y > 0.0
    ensures x * y > 0.0 <==> x > 0.0
  {
    if x > 0.0 {
      assert x * y > 0.0;
    } else {
      assert x * y <= 0.0;
    }
  }

  /** Parsed dimensions pass the filter exactly when both lie in range and
      neither side is more than four times the other. */
  lemma DimensionBounds(width: string, height: string, w: int, h: int)
    requires ParsedDimensions(width, height) == Some((w, h))
    ensures !DimensionsReject(width, height) <==> 20 <= w <= 400 && 20 <= h <= 200 && w <= 4 * h && h <= 4 * w
  {
  }

  /** Text that is empty or does not parse never rejects: the filter is skipped. */
  lemma UnparsableDimensionsSkipFilter(width: string, height: string)
    requires width == "" || height == "" || ParseInt(width).None? || ParseInt(height).None?
    ensures !DimensionsReject(width, height)
  {
  }

  /** A dimension of more digits than CPython's `int` accepts raises the
      swallowed `ValueError`, so the filter is skipped however large it is. */
  lemma OverlongDimensionSkipsFilter(width: string, height: string)
    requires AllDigits(width) && |width| > MAX_STR_DIGITS
    ensures !DimensionsReject(width, height)
  {
    TooManyDigits(width);
  }

  /**
   * The whole rule set: an image is a logo exactly when no text holds a
   * negative keyword, the dimension filter lets it through, and either some
   * text holds `logo` or it is the first image of its nearest landmark.
   */
  lemma Classification(doc: Node, at: Path, url: string)
    requires IsImageAt(doc, at)
    ensures var texts := Texts(doc, at);
      IsLikelyLogo(doc, at, url) <==>
        && !AnyIn(NEGATIVE_KEYWORDS, texts)
        && !DimensionsRejectTag(NodeAt(doc, at))
        && ((exists j :: 0 <= j < 6 && IsSubstring("logo", texts[j])) || LandmarkAccepts(doc, at))
  {
    StrongMeansLogo(Texts(doc, at));
  }

  /** An accepted image without `logo` in any text passed the landmark rule:
      it equals the first image of its nearest landmark. */
  lemma AcceptedWithoutLogoNeedsLandmark(doc: Node, at: Path, url: string)
    requires IsImageAt(doc, at) && IsLikelyLogo(doc, at, url)
    requires forall j :: 0 <= j < 6 ==> !IsSubstring("logo", Texts(doc, at)[j])
    ensures NearestLandmark(doc, at).Some?
    ensures FirstImage(NodeAt(doc, at[..NearestLandmark(doc, at).value])) == Some(NodeAt(doc, at))
  {
    Classification(doc, at, url);
  }

  /** With no veto, no size rejection and no `logo`, the image at the first
      `img` path of its nearest landmark is accepted. */
  lemma FirstImageOfLandmarkAccepted(doc: Node, at: Path, url: string, k: nat)
    requires IsImageAt(doc, at) && NearestLandmark(doc, at) == Some(k)
    requires !AnyIn(NEGATIVE_KEYWORDS, Texts(doc, at)) && !DimensionsRejectTag(NodeAt(doc, at))
    requires ImagePaths(NodeAt(doc, at[..k])) != [] && ImagePaths(NodeAt(doc, at[..k]))[0] == at[k..]
    ensures IsLikelyLogo(doc, at, url)
  {
    PathSplit(doc, at, k);
  }
}
