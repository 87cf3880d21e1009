/**
 * The classifier on particular pages: plain images in a header, the
 * structural comparison of tags (an empty `class` is not a missing one), the
 * order of the rules and the `px` quirk.
 */
module Scenarios {
  import opened Common
  import opened PyStr
  import opened Dom
  import opened Classifier

  function Img(attrs: map<string, string>, classes: Option<seq<string>>): Node {
    Element("img", attrs, classes, [])
  }

  /** A document whose only child is a `header` holding `images`. */
  function HeaderPage(images: seq<Node>): Node {
    Element("[document]", map[], None, [Element("header", map[], None, images)])
  }

  /** No negative keyword fits in a text without `a`, `c`, `d` and `p`. */
  lemma NoNegativeKeyword(t: string)
    requires 'a' !in t && 'c' !in t && 'd' !in t && 'p' !in t
    ensures forall i :: 0 <= i < |NEGATIVE_KEYWORDS| ==> !IsSubstring(NEGATIVE_KEYWORDS[i], t)
  {
    forall i | 0 <= i < |NEGATIVE_KEYWORDS| ensures !IsSubstring(NEGATIVE_KEYWORDS[i], t) {
      var k := NEGATIVE_KEYWORDS[i];
      var c := if 'a' in k then 'a' else if 'c' in k then 'c' else if 'd' in k then 'd' else 'p';
      assert c in k;
      if IsSubstring(k, t) {
        SubstringChars(k, t, c);
      }
    }
  }

  /** A text that holds no negative keyword and no `logo`. */
  predicate KeywordFree(t: string) {
    && (forall i :: 0 <= i < |NEGATIVE_KEYWORDS| ==> !IsSubstring(NEGATIVE_KEYWORDS[i], t))
    && !IsSubstring("logo", t)
  }

  /** A text without `b`, `c`, `d`, `l`, `p`, `s`, `t` and `v` is keyword-free:
      each keyword needs one of them. */
  lemma KeywordFreeByLetters(t: string)
    requires 'b' !in t && 'c' !in t && 'd' !in t && 'l' !in t
    requires 'p' !in t && 's' !in t && 't' !in t && 'v' !in t
    ensures KeywordFree(t)
  {
    forall i | 0 <= i < |NEGATIVE_KEYWORDS| ensures !IsSubstring(NEGATIVE_KEYWORDS[i], t) {
      var k := NEGATIVE_KEYWORDS[i];
      var c :=
        if 'b' in k then 'b' else if 'c' in k then 'c' else if 'd' in k then 'd'
        else if 'l' in k then 'l' else if 'p' in k then 'p' else if 's' in k then 's'
        else if 't' in k then 't' else 'v';
      assert c in k;
      if IsSubstring(k, t) {
        SubstringChars(k, t, c);
      }
    }
    if IsSubstring("logo", t) {
      SubstringChars("logo", t, 'l');
    }
  }

  /** Six texts of which the first is keyword-free and the others empty hold
      neither a negative nor a strong keyword. */
  lemma KeywordFreeTexts(texts: seq<string>)
    requires |texts| == 6 && KeywordFree(texts[0])
    requires forall j :: 1 <= j < 6 ==> texts[j] == ""
    ensures !AnyIn(NEGATIVE_KEYWORDS, texts) && !AnyIn(STRONG_KEYWORDS, texts)
  {
    forall j | 0 <= j < 6
      ensures !IsSubstring("logo", texts[j])
      ensures forall i :: 0 <= i < |NEGATIVE_KEYWORDS| ==> !IsSubstring(NEGATIVE_KEYWORDS[i], texts[j])
    {
    }
    StrongMeansLogo(texts);
  }

  /** The texts of an `img` with only a `src` (and an empty or absent class
      list), inside an attribute-less parent. */
  lemma PlainImageTexts(doc: Node, at: Path, src: string, cls: Option<seq<string>>)
    requires IsImageAt(doc, at) && at != [] && cls.GetOr([]) == []
    requires NodeAt(doc, at) == Img(map["src" := src], cls)
    requires Parent(doc, at).Some? && Parent(doc, at).value.Element?
    requires Parent(doc, at).value.attrs == map[] && Parent(doc, at).value.classes.GetOr([]) == []
    ensures Texts(doc, at) == [Lower(src), "", "", "", "", ""]
  {
    assert Lower("") == "";
  }

  /** An image without `width` and `height` passes the dimension filter. */
  lemma NoDimensions(tag: Node)
    requires tag.Element? && "width" !in tag.attrs && "height" !in tag.attrs
    ensures !DimensionsRejectTag(tag)
  {
    assert Strip("") == "";
  }

  /** The `img` children of the header of `HeaderPage` are images whose
      nearest landmark is that header. */
  lemma ImageInHeader(doc: Node, images: seq<Node>, k: nat)
    requires doc == HeaderPage(images) && k < |images| && IsImg(images[k])
    ensures IsImageAt(doc, [0, k]) && NodeAt(doc, [0, k]) == images[k]
    ensures NearestLandmark(doc, [0, k]) == Some(1)
    ensures Parent(doc, [0, k]) == Some(doc.children[0])
  {
    var p: Path := [0, k];
    var header := doc.children[0];
    assert p[1..] == [k] && p[1..][1..] == [];
    assert NodeAt(header.children[k], []) == images[k];
    assert NodeAt(header, [k]) == images[k];
    assert ValidPath(doc, p) && NodeAt(doc, p) == images[k];
    assert p[..1] == [0] && [0][1..] == [];
    assert NodeAt(doc, p[..1]) == doc.children[0];
    assert LandmarkAtDepth(doc, p, 1);
  }

  /** `find_all('img')` on a header of image children starts at the first. */
  lemma FirstOfHeader(header: Node)
    requires header.Element? && |header.children| > 0 && IsImg(header.children[0])
    requires header.children[0].children == []
    ensures FirstImage(header) == Some(header.children[0])
  {
    var c := header.children[0];
    assert ImagePaths(c) == ImagePathsFrom(c, 0) == [];
    var rest := ImagePathsFrom(header, 1);
    assert ImagePathsFrom(header, 0) == [[0]] + Below(0, []) + rest;
    assert ImagePaths(header)[0] == [0];
    assert [0][1..] == [];
  }

  /** An image of `HeaderPage(images)` with only a keyword-free `src` is a
      logo exactly when it equals, as a tag, the header's first image. */
  lemma PlainHeaderImage(images: seq<Node>, k: nat, src: string, cls: Option<seq<string>>)
    requires k < |images| && images[k] == Img(map["src" := src], cls) && cls.GetOr([]) == []
    requires KeywordFree(Lower(src))
    ensures IsImageAt(HeaderPage(images), [0, k])
    ensures IsLikelyLogo(HeaderPage(images), [0, k], "")
      <==> FirstImage(Element("header", map[], None, images)) == Some(images[k])
  {
    var doc := HeaderPage(images);
    var at: Path := [0, k];
    ImageInHeader(doc, images, k);
    assert at[..1] == [0];
    PlainImageTexts(doc, at, src, cls);
    var texts := Texts(doc, at);
    assert forall j :: 1 <= j < 6 ==> texts[j] == "";
    KeywordFreeTexts(texts);
    NoDimensions(images[k]);
  }

  /** `<img src="a.gif" class="">`, which the parser keeps with an empty class list. */
  function EmptyClassImg(): Node {
    Img(map["src" := "a.gif"], Some([]))
  }

  /** `<img src="a.gif">`, without a class attribute. */
  function NoClassImg(): Node {
    Img(map["src" := "a.gif"], None)
  }

  lemma PlainGif()
    ensures KeywordFree(Lower("a.gif"))
  {
    LowerWithoutCapitals("a.gif");
    KeywordFreeByLetters("a.gif");
  }

  /** In `<header><img src="a.gif" class=""><img src="a.gif"></header>` the
      second image is not the first as a tag, although its texts are the same,
      so only the first is accepted. */
  lemma EmptyClassIsAnotherTag()
    ensures IsImageAt(HeaderPage([EmptyClassImg(), NoClassImg()]), [0, 0])
    ensures IsImageAt(HeaderPage([EmptyClassImg(), NoClassImg()]), [0, 1])
    ensures IsLikelyLogo(HeaderPage([EmptyClassImg(), NoClassImg()]), [0, 0], "")
    ensures !IsLikelyLogo(HeaderPage([EmptyClassImg(), NoClassImg()]), [0, 1], "")
  {
    var images := [EmptyClassImg(), NoClassImg()];
    PlainGif();
    PlainHeaderImage(images, 0, "a.gif", Some([]));
    PlainHeaderImage(images, 1, "a.gif", None);
    FirstOfHeader(Element("header", map[], None, images));
    assert EmptyClassImg() != NoClassImg();
  }

  /** The dimension filter runs before the keywords: `class="site-logo"` at
      500 by 100 is rejected. */
  lemma WideSiteLogoRejected(doc: Node, at: Path)
    requires IsImageAt(doc, at)
    requires NodeAt(doc, at) == Img(map["width" := "500", "height" := "100"], Some(["site-logo"]))
    ensures !IsLikelyLogo(doc, at, "")
  {
    WideDimensions(NodeAt(doc, at));
  }

  /** 500 by 100 is wider than the filter allows. */
  lemma WideDimensions(tag: Node)
    requires tag.Element? && tag.attrs == map["width" := "500", "height" := "100"]
    ensures DimensionsRejectTag(tag)
  {
    Dimension(tag, "width", "500");
    Dimension(tag, "height", "100");
    DigitsOfExamples();
  }

  lemma DigitsOfExamples()
    ensures DigitsValue("500") == 500 && DigitsValue("100") == 100
  {
    assert "500"[..2] == "50" && "50"[..1] == "5" && "5"[..0] == "";
    assert "100"[..2] == "10" && "10"[..1] == "1" && "1"[..0] == "";
  }

  /** A dimension given as plain digits parses to its value. */
  lemma Dimension(tag: Node, key: string, digits: string)
    requires tag.Element? && key in tag.attrs && tag.attrs[key] == digits && AllDigits(digits) && |digits| <= MAX_STR_DIGITS
    ensures DimensionText(tag, key) == digits
    ensures ParseInt(digits) == Some(DigitsValue(digits) as int)
  {
    DigitNotSpace(digits[0]);
    DigitNotSpace(digits[|digits| - 1]);
    StripKeepsTrimmed(digits);
    ParseDigits(digits);
  }

  /** `"px".strip().rstrip('px')` is empty. */
  lemma PxLeavesNothing(tag: Node, key: string)
    requires tag.Element? && key in tag.attrs && tag.attrs[key] == "px"
    ensures DimensionText(tag, key) == ""
  {
    StripKeepsTrimmed("px");
    assert TrimRight("px", {'p', 'x'}) == TrimRight("p", {'p', 'x'}) == TrimRight("", {'p', 'x'});
  }

  function PxTag(): Node {
    Img(map["width" := "px", "height" := "10000"], Some(["logo"]))
  }

  /** The page `<img width="px" height="10000" class="logo">`. */
  function PxPage(): Node {
    Element("[document]", map[], None, [PxTag()])
  }

  lemma PxPageTexts()
    ensures IsImageAt(PxPage(), [0]) && NodeAt(PxPage(), [0]) == PxTag()
    ensures Texts(PxPage(), [0]) == ["", "", "logo", "", "", ""]
  {
    assert [0][1..] == [] && [0][..0] == [];
    LowerWithoutCapitals("logo");
    assert Lower("") == "";
  }

  /** The texts of a `class="logo"` image with nothing else to say. */
  lemma LogoClassTexts(texts: seq<string>)
    requires texts == ["", "", "logo", "", "", ""]
    ensures AnyIn(STRONG_KEYWORDS, texts) && !AnyIn(NEGATIVE_KEYWORDS, texts)
  {
    assert OccursAt("logo", texts[2], 0);
    StrongMeansLogo(texts);
    forall j | 0 <= j < 6
      ensures forall i :: 0 <= i < |NEGATIVE_KEYWORDS| ==> !IsSubstring(NEGATIVE_KEYWORDS[i], texts[j])
    {
      NoNegativeKeyword(texts[j]);
    }
  }

  /** `rstrip('px')` turns a width of `px` into nothing, which skips the
      dimension filter: a `logo` image 10000 pixels high is then accepted. */
  lemma PxWidthSkipsFilter()
    ensures IsImageAt(PxPage(), [0]) && IsLikelyLogo(PxPage(), [0], "")
  {
    PxPageTexts();
    PxLeavesNothing(PxTag(), "width");
    LogoClassTexts(Texts(PxPage(), [0]));
  }

  /** `"500\x1cpx".strip().rstrip('px')` is `"500\x1c"`: `strip` removes the
      separator U+001C only at an end, and here it is inside. */
  lemma SeparatorWidthText(tag: Node)
    requires tag.Element? && "width" in tag.attrs && tag.attrs["width"] == "500" + ['\U{1C}'] + "px"
    ensures DimensionText(tag, "width") == "500" + ['\U{1C}']
  {
    var w := "500" + ['\U{1C}'] + "px";
    assert w[0] == '5' && w[|w| - 1] == 'x';
    StripKeepsTrimmed(w);
    assert w[..|w| - 1] == "500" + ['\U{1C}'] + "p";
    assert ("500" + ['\U{1C}'] + "p")[..4] == "500" + ['\U{1C}'];
    assert TrimRight(w, {'p', 'x'}) == TrimRight("500" + ['\U{1C}'] + "p", {'p', 'x'})
      == TrimRight("500" + ['\U{1C}'], {'p', 'x'});
    assert ("500" + ['\U{1C}'])[3] == '\U{1C}';
  }

  function SeparatorTag(): Node {
    Img(map["width" := "500" + ['\U{1C}'] + "px", "height" := "100"], Some(["logo"]))
  }

  /** The page `<img width="500\x1cpx" height="100" class="logo">`. */
  function SeparatorPage(): Node {
    Element("[document]", map[], None, [SeparatorTag()])
  }

  lemma SeparatorPageTexts()
    ensures IsImageAt(SeparatorPage(), [0]) && NodeAt(SeparatorPage(), [0]) == SeparatorTag()
    ensures Texts(SeparatorPage(), [0]) == ["", "", "logo", "", "", ""]
  {
    assert [0][1..] == [] && [0][..0] == [];
    LowerWithoutCapitals("logo");
    assert Lower("") == "";
  }

  /** A width of `500` followed by the separator U+001C and `px` makes `int`
      raise, so the dimension filter is skipped and the `logo` image is
      accepted, although 500 pixels would be too wide (`WideDimensions`). */
  lemma SeparatorWidthSkipsFilter()
    ensures IsImageAt(SeparatorPage(), [0]) && IsLikelyLogo(SeparatorPage(), [0], "")
  {
    SeparatorPageTexts();
    SeparatorWidthText(SeparatorTag());
    SeparatorNotSkipped();
    LogoClassTexts(Texts(SeparatorPage(), [0]));
  }
}
