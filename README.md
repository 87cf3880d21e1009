# Logo extractor: a verified model

This is a Dafny model of the decision and string logic in the logo-extraction web application (`app.py`). The application takes a list of site URLs, fetches each page, and picks out the `<img>` elements that are probably the site's logo. It returns one list of absolute image URLs per site. Two handlers then download a chosen logo, or pack all of them into a zip archive.

The model covers:

- **`is_likely_logo`** (module `Classifier`).
  - The image is a node of a parsed tag tree (module `Dom`), found by its path from the document root.
  - That lets the rules read the image's parent and its nearest `header`/`nav` ancestor.
  - The rules run in order: negative-keyword veto, integer dimension filter, strong-keyword accept, landmark accept, default reject.
  - Tags compare by structure, as the HTML parser's tag equality does.
- **`extract_logo`** (module `PageExtractor`).
  - A loop over the page's images in document order. It appends each accepted image's resolved `src` unless that URL is already in the list.
  - A page that cannot be fetched gives `[]`.
  - So does a `src` that URL resolution rejects, because the exception aborts the whole page.
- **`extract_logos_from_sites`** (module `Batch`).
  - One task per submitted URL, run one after the other.
  - Results are gathered into a map with one key per distinct URL.
- **The `/extract` handler** (module `Route`): splits the form text on newlines, strips each line, drops blank lines, and runs the batch.
- **The download handlers' string logic** (module `Downloads`):
  - the inferred file extension;
  - the sanitised archive folder;
  - the archive entry names (numbered by list position, so failed downloads leave gaps);
  - the name of a single downloaded file;
  - which entries end up in the archive.
- **The Python string primitives** these rely on (module `PyStr`): `in`, `lower`, `strip`, `rstrip(chars)`, `split`, `join`, `int` and `str`.
- **Worked examples** (module `Scenarios`): the classifier on particular pages.

Environment inputs become parameters:

- **`join`** stands for `urljoin`. `None` means it raised.
- **`web`** stands for the fetch-and-parse of each site. `Unreachable` means any network, status or parse failure.
- **`fetch`** stands for each image download. `None` means the request or `raise_for_status` failed.
- **`response`** is the single-download response.

## Behaviour that differs from a natural reading of the application

The model follows the code in each case.

- **The dimension filter comes first.** A `site-logo` class reads as a sure sign of a logo, but the dimension filter runs before the keyword rule. So an image 500 by 100 pixels with that class is rejected (`Scenarios.WideSiteLogoRejected`).
- **Duplicates are not removed from the list.** The `/extract` handler does not drop repeated input URLs before dispatch: a URL given twice is listed twice (`Route.DuplicatesKept`) and submitted twice. Only the result map collapses the two to one key (`Batch.CollectResults`), and the last task's outcome is the one kept.
- **Keywords are tested field by field.** The code tests every keyword against each of the six fields separately, not against one joined text. So a keyword that spans two fields never matches (`Classifier.AnyIn`).
- **Classification comes before the `src` check.** The code classifies every image first and then skips an accepted image whose `src` is missing or empty. The resulting lists are the same as if such images were discarded up front.
- **Tags compare by structure.** `img == header_images[0]` compares name, attributes and contents. So a second, identical image in a header is accepted too, but one that differs only in `class=""` against no `class` is not (`Scenarios.EmptyClassIsAnotherTag`).
- **`int` refuses very long numbers.** CPython (3.11 and later, and the security releases that back-ported the limit) refuses to convert a string of more than 4300 digits. Such a dimension raises the swallowed `ValueError`, so the filter is skipped (`Classifier.OverlongDimensionSkipsFilter`).
- **`int` skips fewer spaces than `strip`.** `strip()` removes the ASCII separators U+001C to U+001F. `int` first maps non-ASCII spaces to `' '` and then skips only the ASCII spaces, so a separator next to the digits makes it raise. A width of `500\x1cpx` therefore skips the dimension filter (`Scenarios.SeparatorWidthSkipsFilter`).

## Model

| member | source | states |
|---|---|---|
| Classifier.Classification | app.py:15-79 | An image is a logo exactly when three things hold: no field holds a negative keyword, the dimension filter does not reject it, and either some field contains `logo` or the image equals the first `img` below its nearest header/nav. |
| Classifier.IsLikelyLogo | app.py:15-79 | An accepted image has no negative keyword in any field and is not rejected by the dimension filter. |
| Classifier.DimensionText | app.py:49-50 | The text the filter parses is a prefix of the stripped attribute. Everything cut from it is `p` or `x`, and it does not itself end in `p` or `x`. |
| Classifier.NegativeVeto | app.py:43-46 | A negative keyword in any one of the six fields rejects the image, whatever else it carries. |
| Classifier.Texts | app.py:19-24 | The rules look at exactly six texts: the image's src, alt, class list and id, then the parent's class list and id. |
| Classifier.DimensionBounds | app.py:53-62 | Once both dimensions parse, the filter passes exactly when 20 <= w <= 400, 20 <= h <= 200, w <= 4h and h <= 4w. A ratio of exactly 4 or 0.25 therefore passes. |
| Classifier.UnparsableDimensionsSkipFilter | app.py:49-64 | An empty dimension, or one that `int` cannot parse, never rejects: the `ValueError` is swallowed and the filter skipped. |
| Classifier.OverlongDimensionSkipsFilter | app.py:53-64 | A width of more than 4300 digits makes `int` raise, so the filter is skipped however large the width is. |
| Classifier.ElongatedIsRatioTest | app.py:57-62 | Within the size bounds, the integer comparisons `w > 4h or 4w < h` agree with the real-valued test `w / h > 4 or w / h < 0.25`. |
| Classifier.StrongKeywordsContainLogo | app.py:27-30 | Every strong keyword contains `logo`. |
| Classifier.StrongMeansLogo | app.py:66-69 | The strong-keyword rule fires exactly when some field contains `logo`, so the longer keywords never change the outcome. |
| Classifier.AcceptedWithoutLogoNeedsLandmark | app.py:71-79 | An accepted image with no `logo` in any field has a nearest header/nav and equals the first image below it. |
| Classifier.FirstImageOfLandmarkAccepted | app.py:71-77 | With no veto, no size rejection and no keyword, the image at the first `img` path of its nearest landmark is accepted. |
| Classifier.LandmarkHasFirstImage | app.py:72-76 | Below its nearest landmark an image always finds a first image, so `header_images[0]` never raises. |
| Dom.NearestLandmark | app.py:72 | `find_parent(['header', 'nav'])` gives the depth of a header or nav ancestor, and no deeper ancestor is one. |
| Dom.ImagePaths | app.py:93 | Every path `find_all('img')` returns leads to an `img` strictly below the node. |
| Dom.ImagePathsComplete | app.py:93 | `find_all('img')` misses no `img` strictly below the node. |
| Dom.ImagePathsOrdered | app.py:93 | `find_all('img')` lists the images in document order: an element before its descendants, and those before later siblings. So no position is listed twice. |
| Dom.PathSplit | app.py:23 | A path splits at any depth into a path to an ancestor and a path from it to the same node, which gives a tag its parent. |
| PageExtractor.ScanImages | app.py:95-105 | The loop over the images builds what `LogosOf` specifies from the per-image verdicts: `[]` once a join fails, otherwise the resolved URLs with repeats dropped. |
| PageExtractor.ExtractLogo | app.py:81-109 | `extract_logo` returns the page's specified list, `[]` for a page that could not be fetched. The list has no repeated URL. |
| PageExtractor.LogosOf | app.py:95-105 | The list built from the accepted `src`s never holds a URL twice. |
| PageExtractor.PageLogos | app.py:81-109 | A page's list never holds a URL twice, and it is empty for a page that could not be fetched. |
| PageExtractor.ScanStep | app.py:98-103 | One turn of the loop: a rejected image changes nothing, a failed join empties the result, and a resolved URL is appended only when new. |
| PageExtractor.PageLogosMembers | app.py:95-105 | If no join fails, a URL is on a page's list exactly when some likely-logo image with a non-empty `src` resolves to it. |
| PageExtractor.ImagesLogosMembers | app.py:97-103 | The same equivalence over any list of images. |
| PageExtractor.PageFailure | app.py:98-109 | A likely logo whose `src` cannot be resolved empties the page's list. |
| PageExtractor.LogosContents | app.py:95-105 | If no join fails, the list holds exactly the URLs some accepted `src` resolves to, in the order in which they are first met. |
| PageExtractor.FailureEmptiesLogos | app.py:101-109 | A join that fails at any accepted image gives `[]`. |
| PageExtractor.FailureIsFinal | app.py:107-109 | Once resolution has failed, later images cannot bring the page back. |
| PageExtractor.CandidatesMembers | app.py:99-101 | The resolved URLs, before repeats are dropped, are exactly those some present `src` resolves to. |
| PageExtractor.CandidatesSome | app.py:99-107 | The resolved URLs exist, rather than the page failing, exactly when every present accepted `src` resolves. |
| PageExtractor.DedupMembersDistinct | app.py:102-103 | First-seen deduplication keeps exactly the input's elements, each once. |
| PageExtractor.DedupFirstSeenOrder | app.py:102-103 | First-seen deduplication lists the elements in the order of their first occurrence. |
| PageExtractor.DedupOfDistinct | app.py:102-103 | A list without repeats is left unchanged. |
| PageExtractor.DedupIdempotent | app.py:102-103 | Deduplicating twice is the same as once. |
| Batch.CollectResults | app.py:129-136 | The map's keys are exactly the submitted URLs. Each maps to the outcome of its last task, with `[]` for a task that raised. |
| Batch.ExtractLogosFromSites | app.py:111-138 | An empty list or string gives the empty map. A positive worker count gives one key per distinct URL, mapped to that page's list, and a non-positive count with work raises. A list submits its items, and a bare non-empty string `s` gives exactly the map `{s: extract_logo(s)}`, not one key per character. |
| Batch.LastIndex | app.py:129-133 | A URL's slot holds the outcome of its last occurrence in the list. |
| Route.CleanLine | app.py:148 | A line gives its stripped form, or nothing exactly when it strips to empty. |
| Route.CleanLines | app.py:148 | The list has no more entries than there are lines, and every entry is non-blank with nothing left to strip. |
| Route.Normalise | app.py:147-148 | Every URL the handler submits is non-blank, stripped, and holds no newline. |
| Route.CleanLinesMembers | app.py:148 | A URL is listed exactly when some line strips to it and it is non-blank. |
| Route.NormaliseMembers | app.py:147-148 | The same, for the form text split on newlines. |
| Route.NormaliseConcat | app.py:147-148 | The list follows the text: two blocks of lines give their lists one after the other, so order is kept. |
| Route.NormaliseOneLine | app.py:147-148 | A single line with no surrounding space comes through unchanged. |
| Route.DuplicatesKept | app.py:147-148 | The same URL on two lines is listed twice. |
| Route.Extract | app.py:145-154 | An error when no URL remains. Otherwise one key per listed URL, mapped to that page's list, since five workers never raise. |
| Downloads.UrlExtension | app.py:174 | The URL's extension is the part of the URL that starts just after its last `.` (or at its start when it has none) and runs up to the first `?` after that point, or to the end. It holds no `.` or `?`. |
| Downloads.ContentTypeExtension | app.py:177 | The content-type's extension holds no `/`. |
| Downloads.ExtensionKinds | app.py:174-177 | Every extension is one of three kinds: a 1 to 4 character piece of the URL without `.` or `?`; the text after the last `/` of the content type; or `png` when that has no `/`. |
| Downloads.ExtensionMayHoldSlash | app.py:226 | A dot in the host name can yield an extension holding `/`: `http://a.co/x` gives `co/x`. |
| Downloads.ReplaceDisallowed | app.py:214 | The length is kept. Every allowed character stays where it is, and every other character becomes `_`. |
| Downloads.SanitiseFolder | app.py:214-215 | A folder is the replaced brand name with the spaces at both ends cut off, and nothing else removed. It holds only letters, digits, space, `-` and `_`, neither starts nor ends with a space, and is no longer than the brand name. |
| Downloads.SanitiseIdempotent | app.py:214-215 | Sanitising a folder name again changes nothing. |
| Downloads.FoldersCanCollide | app.py:214-215 | Distinct brand names can share a folder: `a!` and `a?` both give `a_`. |
| Downloads.EntryName | app.py:231 | An entry name is `<folder>/logo`, then something exactly when the list holds two or more URLs, then `.` and the extension. |
| Downloads.EntryNamesDistinct | app.py:231 | In a list of two or more URLs, entries for different positions get different names, whatever their extensions. |
| Downloads.SingleEntryName | app.py:231 | A list of one URL gives the unnumbered `logo.<ext>`. |
| Downloads.Delivered | app.py:217-236 | The positions whose download succeeded: in increasing order, all of them, and only those. |
| Downloads.BrandEntries | app.py:217-236 | A brand's loop writes one entry per successful download, in list order. Each is named by the URL's position in the list, with the inferred extension and the downloaded content. |
| Downloads.BrandEntryNamesDistinct | app.py:217-236 | Within one brand of two or more URLs, no two written entries share a name. |
| Downloads.FailureLeavesGap | app.py:217-236 | Of three URLs with the middle one failing, exactly two entries are written: `<folder>/logo-1.<ext>` with the first download and `<folder>/logo-3.<ext>` with the third. |
| Downloads.DownloadAll | app.py:197-236 | An empty request is an error. Otherwise every brand's entries follow one another, each brand in its sanitised folder. |
| Downloads.ArchiveOf | app.py:212-236 | Every entry of the archive lies in the sanitised folder of one of the brands. |
| Downloads.SingleFileName | app.py:180 | A file name is the brand, then something exactly when the index is truthy, then `.` and the extension. |
| Downloads.UnnumberedSingleFile | app.py:180 | A falsy index (missing, empty, zero, false or null) gives `<brand>.<ext>`. |
| Downloads.NumberedSingleFilesDistinct | app.py:180 | Different non-zero integer indices give different file names. |
| Downloads.DownloadImage | app.py:156-195 | A 400 exactly when the URL is absent or empty. A 500 exactly when, for a non-empty URL, the fetch fails or `send_file` raises because the file name or the media type holds a CR or LF, which every header value must not. Otherwise the file carries the downloaded content and the response's content type (default `image/png`), and its name starts with the brand (default `logo`) and ends with `.` and the inferred extension. |
| Downloads.DownloadIndicesDistinct | app.py:156-191 | Two requests for the same image that differ only in distinct non-zero integer indices are both answered with files or both with the 500. The files have different names, and they are files whenever the brand, the extension and the media type hold no line break. |
| Downloads.LineBreakInBrandFails | app.py:180-195 | A brand name holding a CR or LF gets the 500 even after a successful fetch. |
| Downloads.NumberedNameSafe | app.py:180 | A name numbered by an integer holds a line break exactly when its brand or extension does. |
| PyStr.IntRoundTrip | app.py:55 | `int(str(n)) == n` for every integer of at most 4300 digits. |
| PyStr.IntToStringInjective | app.py:231 | Distinct integers print differently. |
| PyStr.ParseDigits | app.py:55 | A run of at most 4300 ASCII digits, with or without a leading minus, parses to its value. |
| PyStr.ParseInt | app.py:55 | `int` accepts only text that is not empty once the spaces `int` skips (`INT_WHITESPACE`) are cut from both ends. |
| PyStr.SeparatorNotSkipped | app.py:55 | `strip()` removes a trailing U+001C, but `int` refuses `"500"` followed by U+001C. |
| PyStr.DigitLimit | app.py:55 | Text that is a run of digits once the spaces `int` skips are cut from both ends parses exactly when the run has at most 4300 digits, as CPython's integer string conversion limit demands. |
| PyStr.TooManyDigits | app.py:55 | A run of more than 4300 digits is refused with a `ValueError`. |
| PyStr.StripIsSlice | app.py:215 | `strip()` keeps a slice of its input, removing only whitespace and leaving none at either end. |
| PyStr.StripIdempotent | app.py:148 | Stripping twice is stripping once. |
| PyStr.TrimRightPrefix | app.py:49-50 | `rstrip(chars)` keeps a prefix. Everything it removes is in `chars`, and what it keeps does not end with one of them. |
| PyStr.TrimLeftSuffix | app.py:215 | `lstrip` keeps a suffix. Everything it removes is in the set, and what it keeps does not start with one of its characters. |
| PyStr.Split | app.py:147 | `split(sep)` gives at least one piece, none holding `sep`, and they join back to the text. |
| PyStr.SplitConcat | app.py:147 | Splitting at one occurrence of the separator splits the text in two. |
| PyStr.FirstPiece | app.py:174 | `split(sep)[0]` is a prefix without `sep`, shorter than the text exactly when `sep` occurs. |
| PyStr.LastPiece | app.py:177 | `split(sep)[-1]` is a suffix without `sep`, preceded by `sep` exactly when `sep` occurs. |
| PyStr.SubstringTransitive | app.py:67-68 | Substring containment is transitive. |
| PyStr.LowerWithoutCapitals | app.py:19-24 | Text without ASCII capitals is its own lower case. |
| Scenarios.WideSiteLogoRejected | app.py:53-58 | The dimension filter runs before the keywords: `class="site-logo"` at 500 by 100 is rejected. |
| Scenarios.PxWidthSkipsFilter | app.py:49-69 | `rstrip('px')` turns a width of `px` into nothing, which skips the filter: a `logo` image 10000 pixels high is accepted. |
| Scenarios.SeparatorWidthSkipsFilter | app.py:49-69 | `<img class="logo" width="500\x1cpx" height="100">` is accepted: the width text becomes `500` followed by U+001C, on which `int` raises, so the filter is skipped, although plain 500 by 100 is rejected (`Scenarios.WideDimensions`). |
| Scenarios.PxLeavesNothing | app.py:49 | `"px".strip().rstrip('px')` is empty. |
| Scenarios.PlainHeaderImage | app.py:71-77 | Take a document whose only child is a `<header>` with no attributes, and an image that is a direct child of that header. The image has only a `src` and an empty or absent class, and the lower-cased `src` holds no keyword. It is a logo exactly when it equals the header's first image, as a tag. |
| Scenarios.EmptyClassIsAnotherTag | app.py:71-77 | In `<header><img src="a.gif" class=""><img src="a.gif"></header>` only the first image is accepted. The second has the same texts but is a different tag, because an empty `class` is not a missing one. |
| Scenarios.ImageInHeader | app.py:72 | A header's `img` child has that header as its nearest landmark and as its parent. |
| Scenarios.FirstOfHeader | app.py:75-76 | `find_all('img')` on a header whose first child is an empty image starts with that image. |
| Scenarios.NoNegativeKeyword | app.py:38-41 | No negative keyword fits in a text without `a`, `c`, `d` and `p`. |
| Scenarios.KeywordFreeByLetters | app.py:27-41 | A text without the letters `b`, `c`, `d`, `l`, `p`, `s`, `t` and `v` holds no negative keyword and no `logo`. |
| Scenarios.KeywordFreeTexts | app.py:43-69 | Six texts whose first is keyword-free and whose others are empty hold no negative and no strong keyword. |

## Left out

- Flask routing, templates, request parsing and `send_file`. Each handler is modelled on the values it reads and the answer it gives. Of `send_file`'s own failures, only the one Werkzeug raises for a header value with a CR or LF is modelled (`Downloads.HeaderSafe`).
- Network I/O: `requests.get`, timeouts, user-agent headers and `raise_for_status`. Their outcome is a parameter: `web`, `fetch` or `response`.
- HTML parsing. The parsed page is given as a `Dom.Node` tree, and `find_all`/`find_parent` are defined on that tree.
- `urljoin`. It is the parameter `join`, uninterpreted; its `ValueError` is `None`.
- The thread pool. Tasks run one after the other, which gives the same map because each URL's slot is written by the futures in submission order.
- Zip writing, the temp directory and its cleanup, timestamps and the zip file name, and `print` logging. The archive is modelled as the sequence of entries written.
- `download_all`'s 500 answer. It is given for any exception outside the per-URL `try`: a failure to create the directory or write the zip file, and a request body of the wrong shape (a JSON list has no `items`, and a number such as the 5 of `{"acme": 5}` cannot be enumerated). The model takes the request as a sequence of brand names with URL lists, so neither case arises. A brand given a string instead of a list, which the code would enumerate character by character, is left out for the same reason.
- Downloads.DownloadAll: the request is a sequence of pairs, so it could hold one brand name twice. A JSON object cannot, since a repeated key keeps only its last value. Every property proved holds for any sequence, with or without repeats.
- Downloads.PyStrOf: prints an integer index of any size. CPython's `str` refuses an integer of more than 4300 digits, but such an index never reaches it, because the JSON parser's own `int` refuses it first.
- Floating point. The aspect ratio is the equivalent integer comparison, and `Classifier.ElongatedIsRatioTest` proves it equal to the ratio over the reals.
- Unicode case and character classes. `lower` and `isalnum` cover ASCII only. `int` accepts only ASCII digits, with a sign and underscores between digits, not other Unicode decimal digits. `int` ignores, at both ends, the characters for which `str.isspace` holds, except the four separators U+001C to U+001F (`INT_WHITESPACE`); this follows CPython's conversion, which maps non-ASCII spaces to `' '` and then skips only ASCII spaces. `strip` uses Python's whole whitespace set, separators included.
- JSON values of the wrong type: a non-string `url` or `brand_name`, a null `brand_name`, a non-dict archive request. `index` is modelled for integers, strings, booleans and null. Floats, arrays and objects are left out. `[]` and `{}` would be falsy, and `[1]` would give the name `logo-[1].<ext>`.
- Batch.CollectResults: the `Raised` outcome of a task is never produced. `extract_logo` catches every exception, so `future.result()` does not raise for it.
- A fetch is modelled as a function of the URL. Two requests for the same URL therefore see the same page, which the real network does not promise.
- Worked classifier examples on pages with several images in a header are limited to `Scenarios.EmptyClassIsAnotherTag` and `Scenarios.PlainHeaderImage`.
- Scenarios.PlainHeaderImage: proved only for the page `HeaderPage`, an attribute-less `<header>` that is the document's only child, with the image a direct child of it. It does not cover other headers or `nav`s. Their class and id enter the image's texts: a header with `class="brand-logo"` makes a logo of every image in it that has no negative keyword and passes the dimension filter. Nor does it cover images nested deeper. For those pages the general rule `Classifier.IsLikelyLogo` applies, with the classifier lemmas above.
