/**
 * The string logic of the two download handlers: the file extension of a
 * downloaded image, the folder a brand's logos go to in the archive, the
 * names of the archive entries, and the name of a single downloaded file.
 */
module Downloads {
  import opened Common
  import opened PyStr

  /* ----- file extensions ----- */

  /** `url.split('.')[-1].split('?')[0]`: the text after the last `.`, cut
      at the first `?`. */
  function UrlExtension(url: string): (r: string)
    ensures '.' !in r && '?' !in r
    ensures IsSubstring(r, url)
    ensures var a := |url| - |LastPiece(url, '.')|;
      && a + |r| <= |url| && r == url[a..a + |r|]
      && (a == 0 || url[a - 1] == '.') && '.' !in url[a..]
      && (a + |r| == |url| || url[a + |r|] == '?')
  {
    var tail := LastPiece(url, '.');
    var r := FirstPiece(tail, '?');
    PrefixOfSuffix(url, tail, r);
    assert OccursAt(r, url, |url| - |tail|);
    r
  }

  /** A prefix `r` of the suffix `t` of `s` is the slice of `s` where `t` starts. */
  lemma PrefixOfSuffix(s: string, t: string, r: string)
    requires |t| <= |s| && t == s[|s| - |t|..] && r <= t
    ensures var a := |s| - |t|;
      a + |r| <= |s| && r == s[a..a + |r|] && (|r| < |t| ==> s[a + |r|] == t[|r|])
  {
    var a := |s| - |t|;
    assert s[a..a + |r|] == t[..|r|];
  }

  /** `content_type.split('/')[-1] if '/' in content_type else 'png'`. */
  function ContentTypeExtension(contentType: string): (r: string)
    ensures '/' !in r
  {
    if '/' in contentType then LastPiece(contentType, '/') else "png"
  }

  /**
   * The extension the handlers give a downloaded image: the URL's, unless
   * that is empty or longer than four characters, in which case the one
   * derived from the `content-type` header (`''` when the header is absent).
   */
  function InferExtension(url: string, contentType: Option<string>): (r: string)
    ensures var e := UrlExtension(url); 0 < |e| <= 4 ==> r == e
    ensures var e := UrlExtension(url); !(0 < |e| <= 4) ==> r == ContentTypeExtension(contentType.GetOr(""))
  {
    var e := UrlExtension(url);
    if e == "" || |e| > 4 then ContentTypeExtension(contentType.GetOr("")) else e
  }

  /**
   * Every extension is one of three kinds: a non-empty piece of the URL of
   * at most four characters without `.` or `?`; the text after the last `/`
   * of the content type; or `png` when the content type has no `/`.
   */
  lemma ExtensionKinds(url: string, contentType: Option<string>)
    ensures var r := InferExtension(url, contentType); var ct := contentType.GetOr("");
      || (r == UrlExtension(url) && 0 < |r| <= 4 && '.' !in r && '?' !in r && IsSubstring(r, url))
      || ('/' in ct && |r| < |ct| && '/' !in r && r == ct[|ct| - |r|..] && ct[|ct| - |r| - 1] == '/')
      || ('/' !in ct && r == "png")
  {
  }

  /** The text after the last separator, when the text is known to end with
      a separator followed by a piece without one. */
  lemma LastPieceAfter(a: string, b: string, sep: char)
    requires sep !in b
    ensures LastPiece(a + [sep] + b, sep) == b
  {
    var s := a + [sep] + b;
    var r := LastPiece(s, sep);
    assert s[|a|] == sep;
    assert s[|a| + 1..] == b;
  }

  /** The URL's extension is only cut at a `.`, so a host name's dot can
      yield an extension that holds a `/`: `http://a.co/x` gives `co/x`. */
  lemma ExtensionMayHoldSlash()
    ensures InferExtension("http://a.co/x", None) == "co/x"
  {
    assert "http://a.co/x" == "http://a" + ['.'] + "co/x";
    LastPieceAfter("http://a", "co/x", '.');
    var r := FirstPiece("co/x", '?');
    assert '?' !in "co/x";
    assert r == "co/x"[..|r|];
  }

  /* ----- archive folder names ----- */

  /** The characters a folder name keeps: `c.isalnum() or c in (' ', '-', '_')`. */
  predicate FolderChar(c: char) {
    IsAlnum(c) || c == ' ' || c == '-' || c == '_'
  }

  /** Every character outside the kept ones becomes `_`. */
  function ReplaceDisallowed(name: string): (r: string)
    ensures |r| == |name|
    ensures forall i :: 0 <= i < |r| ==> FolderChar(r[i]) && (FolderChar(name[i]) ==> r[i] == name[i])
    ensures forall i :: 0 <= i < |r| ==> !FolderChar(name[i]) ==> r[i] == '_'
  {
    seq(|name|, i requires 0 <= i < |name| => if FolderChar(name[i]) then name[i] else '_')
  }

  /**
   * The folder of a brand in the archive: the name with every disallowed
   * character replaced by `_`, then stripped. It holds only letters, digits,
   * spaces, `-` and `_`, neither starts nor ends with a space, and is no
   * longer than the brand name. It is the replaced name with the spaces at
   * both ends cut off, and only those.
   */
  function SanitiseFolder(brandName: string): (f: string)
    ensures forall i :: 0 <= i < |f| ==> FolderChar(f[i])
    ensures f != [] ==> f[0] != ' ' && f[|f| - 1] != ' '
    ensures |f| <= |brandName|
    ensures var m := ReplaceDisallowed(brandName); var a := |m| - |TrimLeft(m, WHITESPACE)|;
      && 0 <= a <= |m| - |f| && f == m[a..a + |f|]
      && (forall i :: 0 <= i < a ==> m[i] == ' ')
      && (forall i :: a + |f| <= i < |m| ==> m[i] == ' ')
  {
    var m := ReplaceDisallowed(brandName);
    StrippedFolderChars(m);
    Strip(m)
  }

  /** Stripping a text of folder characters keeps only folder characters and
      removes the spaces at both ends. */
  lemma StrippedFolderChars(m: string)
    requires forall i :: 0 <= i < |m| ==> FolderChar(m[i])
    ensures var f := Strip(m);
      && (forall i :: 0 <= i < |f| ==> FolderChar(f[i]))
      && (f != [] ==> f[0] != ' ' && f[|f| - 1] != ' ')
      && |f| <= |m|
    ensures var f := Strip(m); var a := |m| - |TrimLeft(m, WHITESPACE)|;
      && 0 <= a <= |m| - |f| && f == m[a..a + |f|]
      && (forall i :: 0 <= i < a ==> m[i] == ' ')
      && (forall i :: a + |f| <= i < |m| ==> m[i] == ' ')
  {
    StripIsSlice(m);
    var f := Strip(m);
    var a := |m| - |TrimLeft(m, WHITESPACE)|;
    forall i | 0 <= i < |f| ensures FolderChar(f[i]) {
      assert f[i] == m[a + i];
    }
    forall i | 0 <= i < |m| && IsSpace(m[i]) ensures m[i] == ' ' {
      SpaceFolderChar(m[i]);
    }
    assert ' ' in WHITESPACE;
  }

  /** The only space among the folder characters is `' '`. */
  lemma SpaceFolderChar(c: char)
    requires IsSpace(c) && FolderChar(c)
    ensures c == ' '
  {
  }

  /** Sanitising a folder name again changes nothing. */
  lemma SanitiseIdempotent(brandName: string)
    ensures SanitiseFolder(SanitiseFolder(brandName)) == SanitiseFolder(brandName)
  {
    var f := SanitiseFolder(brandName);
    assert ReplaceDisallowed(f) == f;
    StripIdempotent(ReplaceDisallowed(brandName));
  }

  /** Distinct brand names can share a folder. */
  lemma FoldersCanCollide()
    ensures SanitiseFolder("a!") == SanitiseFolder("a?") == "a_"
  {
    assert ReplaceDisallowed("a!") == "a_";
    assert ReplaceDisallowed("a?") == "a_";
    StripKeepsTrimmed("a_");
  }

  /* ----- archive entry names ----- */

  /**
   * `f"{folder}/logo{'-' + str(index + 1) if count > 1 else ''}.{ext}"`, for
   * the URL at `index` of a brand's list of `count` URLs: a name inside the
   * folder that starts with `logo`, ends with `.` and the extension, and has
   * something between the two exactly when the list holds two or more URLs.
   */
  function EntryName(folder: string, index: nat, count: nat, ext: string): (r: string)
    ensures folder + "/logo" <= r
    ensures EndsWith(r, "." + ext)
    ensures count > 1 <==> |r| > |folder + "/logo"| + |"." + ext|
  {
    var n := if count > 1 then "-" + IntToString(index + 1) else "";
    NameParts(folder + "/logo", n, ext);
    folder + "/logo" + n + "." + ext
  }

  /** A name `p + n + "." + ext` starts with `p` and ends with `"." + ext`. */
  lemma NameParts(p: string, n: string, ext: string)
    ensures var r := p + n + "." + ext;
      p <= r && EndsWith(r, "." + ext) && |r| == |p| + |n| + |"." + ext|
  {
    var r := p + n + "." + ext;
    assert r == p + (n + ("." + ext));
    assert r[|r| - |"." + ext|..] == "." + ext;
  }

  /** The text before the first `.` of `a + "." + b` is `a` when `a` has none. */
  lemma FirstPieceBeforeDot(a: string, b: string)
    requires '.' !in a
    ensures FirstPiece(a + "." + b, '.') == a
  {
    var s := a + "." + b;
    var r := FirstPiece(s, '.');
    assert s[|a|] == '.';
    assert forall i :: 0 <= i < |a| ==> s[i] == a[i];
    assert s[..|a|] == a;
  }

  /** In a list of two or more URLs, entries for different positions have
      different names, whatever their extensions. */
  lemma EntryNamesDistinct(folder: string, i: nat, j: nat, count: nat, e1: string, e2: string)
    requires count > 1 && i != j
    ensures EntryName(folder, i, count, e1) != EntryName(folder, j, count, e2)
  {
    var p := folder + "/logo-";
    var d1, d2 := IntToString(i + 1), IntToString(j + 1);
    var n1, n2 := EntryName(folder, i, count, e1), EntryName(folder, j, count, e2);
    assert n1 == p + (d1 + "." + e1);
    assert n2 == p + (d2 + "." + e2);
    if n1 == n2 {
      PrefixCancels(p, d1 + "." + e1, d2 + "." + e2);
      FirstPieceBeforeDot(d1, e1);
      FirstPieceBeforeDot(d2, e2);
      IntToStringInjective(i + 1, j + 1);
    }
  }

  /** A list of one URL gives the unnumbered `logo.<ext>`. */
  lemma SingleEntryName(folder: string, ext: string)
    ensures EntryName(folder, 0, 1, ext) == folder + "/logo." + ext
  {
  }

  /* ----- the archive ----- */

  /** A successful response: its `content-type` header, if any, and its body. */
  datatype Response = Response(contentType: Option<string>, content: seq<bv8>)

  /** One file written into the archive. */
  datatype Entry = Entry(name: string, content: seq<bv8>)

  /** The positions of `urls` whose download succeeded, in increasing order;
      `fetch(u)` is `None` when `requests.get(u)` or `raise_for_status` raised. */
  function Delivered(urls: seq<string>, fetch: string -> Option<Response>): (r: seq<nat>)
    ensures forall m :: 0 <= m < |r| ==> r[m] < |urls| && fetch(urls[r[m]]).Some?
    ensures forall m, n :: 0 <= m < n < |r| ==> r[m] < r[n]
    ensures forall k :: 0 <= k < |urls| && fetch(urls[k]).Some? ==> k in r
  {
    if urls == [] then []
    else
      var k := |urls| - 1;
      var init := urls[..k];
      var before := Delivered(init, fetch);
      assert forall m :: 0 <= m < |before| ==> urls[before[m]] == init[before[m]];
      assert forall i :: 0 <= i < k ==> urls[i] == init[i];
      var r := if fetch(urls[k]).Some? then before + [k] else before;
      assert forall m :: 0 <= m < |r| ==> r[m] == if m < |before| then before[m] else k;
      r
  }

  /** The entry written for the download at position `k` of a brand's list. */
  function EntryAt(folder: string, urls: seq<string>, fetch: string -> Option<Response>, k: nat): Entry
    requires k < |urls| && fetch(urls[k]).Some?
  {
    var resp := fetch(urls[k]).value;
    Entry(EntryName(folder, k, |urls|, InferExtension(urls[k], resp.contentType)), resp.content)
  }

  /** Every position of `d` is a download of `urls` that succeeded. */
  predicate ValidPositions(urls: seq<string>, fetch: string -> Option<Response>, d: seq<nat>) {
    forall m :: 0 <= m < |d| ==> d[m] < |urls| && fetch(urls[d[m]]).Some?
  }

  /** The entries for the positions `d`, in order. */
  function EntriesAt(folder: string, urls: seq<string>, fetch: string -> Option<Response>, d: seq<nat>): (r: seq<Entry>)
    requires ValidPositions(urls, fetch, d)
    ensures |r| == |d| && forall m :: 0 <= m < |d| ==> r[m] == EntryAt(folder, urls, fetch, d[m])
  {
    seq(|d|, m requires 0 <= m < |d| && ValidPositions(urls, fetch, d) => EntryAt(folder, urls, fetch, d[m]))
  }

  /** The entries one brand contributes: one per delivered position, in order. */
  function BrandArchive(folder: string, urls: seq<string>, fetch: string -> Option<Response>): (r: seq<Entry>)
    ensures var d := Delivered(urls, fetch);
      |r| == |d| && forall m :: 0 <= m < |d| ==> r[m] == EntryAt(folder, urls, fetch, d[m])
  {
    EntriesAt(folder, urls, fetch, Delivered(urls, fetch))
  }

  /** One more URL extends the delivered positions by its own, if it succeeded. */
  lemma DeliveredNext(urls: seq<string>, fetch: string -> Option<Response>, k: nat)
    requires k < |urls|
    ensures Delivered(urls[..k + 1], fetch) ==
      Delivered(urls[..k], fetch) + (if fetch(urls[k]).Some? then [k] else [])
  {
    assert urls[..k + 1][..k] == urls[..k];
  }

  /** One more successful position adds its entry at the end. */
  lemma EntriesAtNext(folder: string, urls: seq<string>, fetch: string -> Option<Response>, d: seq<nat>, k: nat)
    requires ValidPositions(urls, fetch, d) && k < |urls| && fetch(urls[k]).Some?
    ensures ValidPositions(urls, fetch, d + [k])
    ensures EntriesAt(folder, urls, fetch, d + [k]) == EntriesAt(folder, urls, fetch, d) + [EntryAt(folder, urls, fetch, k)]
  {
    var e := d + [k];
    assert forall m :: 0 <= m < |d| ==> e[m] == d[m];
    var r, before := EntriesAt(folder, urls, fetch, e), EntriesAt(folder, urls, fetch, d);
    assert forall m :: 0 <= m < |d| ==> r[m] == before[m];
  }

  /**
   * The inner loop of `download_all` for one brand: for each URL, in order,
   * a download that fails is skipped, and one that succeeds is written under
   * the name numbered by its position in the list; skipped downloads leave
   * gaps in the numbering.
   */
  method BrandEntries(folder: string, urls: seq<string>, fetch: string -> Option<Response>)
    returns (entries: seq<Entry>)
    ensures entries == BrandArchive(folder, urls, fetch)
  {
    entries := [];
    ghost var d: seq<nat> := [];
    for k := 0 to |urls|
      invariant d == Delivered(urls[..k], fetch)
      invariant ValidPositions(urls, fetch, d)
      invariant entries == EntriesAt(folder, urls, fetch, d)
    {
      DeliveredNext(urls, fetch, k);
      var response := fetch(urls[k]);
      if response.Some? {
        var ext := InferExtension(urls[k], response.value.contentType);
        var name := EntryName(folder, k, |urls|, ext);
        EntriesAtNext(folder, urls, fetch, d, k);
        entries := entries + [Entry(name, response.value.content)];
        d := d + [k];
      }
    }
    assert urls[..|urls|] == urls;
  }

  /** Within one brand, entry names never repeat when the list has two or more URLs. */
  lemma BrandEntryNamesDistinct(folder: string, urls: seq<string>, fetch: string -> Option<Response>, m: nat, n: nat)
    requires |urls| > 1
    requires m < n < |Delivered(urls, fetch)|
    ensures var d := Delivered(urls, fetch);
      EntryAt(folder, urls, fetch, d[m]).name != EntryAt(folder, urls, fetch, d[n]).name
  {
    var d := Delivered(urls, fetch);
    EntryNamesDistinct(folder, d[m], d[n], |urls|,
      InferExtension(urls[d[m]], fetch(urls[d[m]]).value.contentType),
      InferExtension(urls[d[n]], fetch(urls[d[n]]).value.contentType));
  }

  /** A failed download leaves a gap: of three URLs with the middle one
      failing, the two entries are numbered 1 and 3. */
  lemma FailureLeavesGap(folder: string, a: string, b: string, c: string, fetch: string -> Option<Response>)
    requires fetch(a).Some? && fetch(b).None? && fetch(c).Some?
    ensures Delivered([a, b, c], fetch) == [0, 2]
    ensures BrandArchive(folder, [a, b, c], fetch) == [
      Entry(folder + "/logo-1." + InferExtension(a, fetch(a).value.contentType), fetch(a).value.content),
      Entry(folder + "/logo-3." + InferExtension(c, fetch(c).value.contentType), fetch(c).value.content)]
  {
    GapPositions(folder, a, b, c, fetch);
    FirstEntryName(folder, [a, b, c], fetch);
    ThirdEntryName(folder, [a, b, c], fetch);
  }

  /** The first entry of a list of two or more URLs is numbered 1. */
  lemma FirstEntryName(folder: string, urls: seq<string>, fetch: string -> Option<Response>)
    requires |urls| > 1 && fetch(urls[0]).Some?
    ensures var resp := fetch(urls[0]).value;
      EntryAt(folder, urls, fetch, 0) ==
        Entry(folder + "/logo-1." + InferExtension(urls[0], resp.contentType), resp.content)
  {
    var ext := InferExtension(urls[0], fetch(urls[0]).value.contentType);
    NumberOne();
    NumberedEntry(folder, urls, fetch, 0, "1");
    LiteralName(folder, "1", ext, "/logo-1.");
  }

  /** The third entry of a list of three or more URLs is numbered 3. */
  lemma ThirdEntryName(folder: string, urls: seq<string>, fetch: string -> Option<Response>)
    requires |urls| > 2 && fetch(urls[2]).Some?
    ensures var resp := fetch(urls[2]).value;
      EntryAt(folder, urls, fetch, 2) ==
        Entry(folder + "/logo-3." + InferExtension(urls[2], resp.contentType), resp.content)
  {
    var ext := InferExtension(urls[2], fetch(urls[2]).value.contentType);
    NumberThree();
    NumberedEntry(folder, urls, fetch, 2, "3");
    LiteralName(folder, "3", ext, "/logo-3.");
  }

  /** `1` prints as `"1"`, which makes the name part `/logo-1.`. */
  lemma NumberOne()
    ensures IntToString(0 + 1) == "1" && "/logo-1." == "/logo-" + "1" + "."
  {
    assert IntToString(1) == [DigitChar(1)];
  }

  /** `3` prints as `"3"`, which makes the name part `/logo-3.`. */
  lemma NumberThree()
    ensures IntToString(2 + 1) == "3" && "/logo-3." == "/logo-" + "3" + "."
  {
    assert IntToString(3) == [DigitChar(3)];
  }

  /** A numbered entry name written with its number as a literal. */
  lemma LiteralName(folder: string, digits: string, ext: string, middle: string)
    requires middle == "/logo-" + digits + "."
    ensures folder + "/logo-" + digits + "." + ext == folder + middle + ext
  {
  }

  /** Of three URLs with the middle one failing, the entries are those of
      positions 0 and 2. */
  lemma GapPositions(folder: string, a: string, b: string, c: string, fetch: string -> Option<Response>)
    requires fetch(a).Some? && fetch(b).None? && fetch(c).Some?
    ensures Delivered([a, b, c], fetch) == [0, 2]
    ensures BrandArchive(folder, [a, b, c], fetch) ==
      [EntryAt(folder, [a, b, c], fetch, 0), EntryAt(folder, [a, b, c], fetch, 2)]
  {
    var urls := [a, b, c];
    assert urls[..2][..1] == [a];
    assert [a][..0] == [];
    assert Delivered([a], fetch) == [0];
    assert Delivered(urls[..2], fetch) == [0];
  }

  /** The entry numbered `digits` of a list of two or more URLs. */
  lemma NumberedEntry(folder: string, urls: seq<string>, fetch: string -> Option<Response>, k: nat, digits: string)
    requires k < |urls| && fetch(urls[k]).Some? && |urls| > 1 && IntToString(k + 1) == digits
    ensures var resp := fetch(urls[k]).value;
      EntryAt(folder, urls, fetch, k) ==
        Entry(folder + "/logo-" + digits + "." + InferExtension(urls[k], resp.contentType), resp.content)
  {
    var ext := InferExtension(urls[k], fetch(urls[k]).value.contentType);
    var n := EntryName(folder, k, |urls|, ext);
    assert n == folder + "/logo" + ("-" + digits) + "." + ext;
    assert folder + "/logo" + ("-" + digits) + "." + ext == folder + "/logo-" + digits + "." + ext;
  }

  /** What `download_all` answers. */
  datatype ArchiveResult = NoLogos | Archive(entries: seq<Entry>)

  /** The entry is named inside the folder of one of the brands. */
  predicate InSomeFolder(name: string, brands: seq<(string, seq<string>)>) {
    exists b :: 0 <= b < |brands| && SanitiseFolder(brands[b].0) + "/logo" <= name
  }

  /** The entries of every brand, brand after brand; each one is written
      inside the folder of one of the brands. */
  function ArchiveOf(brands: seq<(string, seq<string>)>, fetch: string -> Option<Response>): (r: seq<Entry>)
    ensures forall k :: 0 <= k < |r| ==> InSomeFolder(r[k].name, brands)
  {
    if brands == [] then []
    else
      var n := |brands| - 1;
      var (name, urls) := brands[n];
      var before := ArchiveOf(brands[..n], fetch);
      var more := BrandArchive(SanitiseFolder(name), urls, fetch);
      assert forall k :: 0 <= k < |before| ==> InSomeFolder(before[k].name, brands) by {
        forall k | 0 <= k < |before| ensures InSomeFolder(before[k].name, brands) {
          var b :| 0 <= b < n && SanitiseFolder(brands[..n][b].0) + "/logo" <= before[k].name;
          assert brands[..n][b] == brands[b];
        }
      }
      assert forall k :: 0 <= k < |more| ==> SanitiseFolder(brands[n].0) + "/logo" <= more[k].name;
      before + more
  }

  /**
   * `download_all` over the request's brands, in order: an error when there
   * are none, otherwise every brand's entries in its sanitised folder.
   */
  method DownloadAll(brands: seq<(string, seq<string>)>, fetch: string -> Option<Response>)
    returns (r: ArchiveResult)
    ensures r.NoLogos? <==> brands == []
    ensures r.Archive? ==> r.entries == ArchiveOf(brands, fetch)
  {
    if brands == [] {
      return NoLogos;
    }
    var entries: seq<Entry> := [];
    for b := 0 to |brands|
      invariant entries == ArchiveOf(brands[..b], fetch)
    {
      assert brands[..b + 1][..b] == brands[..b];
      var (name, urls) := brands[b];
      var folder := SanitiseFolder(name);
      var more := BrandEntries(folder, urls, fetch);
      assert more == BrandArchive(folder, urls, fetch);
      entries := entries + more;
    }
    assert brands[..|brands|] == brands;
    return Archive(entries);
  }

  /* ----- single downloads ----- */

  /** A JSON value given as `index`. */
  datatype JsonValue = JInt(i: int) | JStr(s: string) | JBool(b: bool) | JNull

  /** Python truthiness of the value. */
  predicate Truthy(v: JsonValue) {
    match v
    case JInt(i) => i != 0
    case JStr(s) => s != ""
    case JBool(b) => b
    case JNull => false
  }

  /** `str(v)` for a value that is printed. */
  function PyStrOf(v: JsonValue): string {
    match v
    case JInt(i) => IntToString(i)
    case JStr(s) => s
    case JBool(b) => if b then "True" else "False"
    case JNull => "None"
  }

  /**
   * `f"{brand_name}{'-' + str(index) if index else ''}.{ext}"`: a name that
   * starts with the brand, ends with `.` and the extension, and has something
   * between the two exactly when the index is truthy.
   */
  function SingleFileName(brandName: string, index: JsonValue, ext: string): (r: string)
    ensures brandName <= r
    ensures EndsWith(r, "." + ext)
    ensures Truthy(index) <==> |r| > |brandName| + |"." + ext|
  {
    var n := if Truthy(index) then "-" + PyStrOf(index) else "";
    var r := brandName + n + "." + ext;
    assert r == brandName + (n + ("." + ext));
    assert r[|r| - |"." + ext|..] == "." + ext;
    r
  }

  /** A missing, empty, zero or null index gives the plain `<brand>.<ext>`. */
  lemma UnnumberedSingleFile(brandName: string, index: JsonValue, ext: string)
    requires !Truthy(index)
    ensures SingleFileName(brandName, index, ext) == brandName + "." + ext
  {
  }

  /** Different non-zero numeric indices give different file names. */
  lemma NumberedSingleFilesDistinct(brandName: string, i: int, j: int, ext: string)
    requires i != 0 && j != 0 && i != j
    ensures SingleFileName(brandName, JInt(i), ext) != SingleFileName(brandName, JInt(j), ext)
  {
    var p, s := brandName + "-", "." + ext;
    var si, sj := IntToString(i), IntToString(j);
    assert SingleFileName(brandName, JInt(i), ext) == p + si + s;
    assert SingleFileName(brandName, JInt(j), ext) == p + sj + s;
    if p + si + s == p + sj + s {
      MiddleCancels(p, si, sj, s);
      IntToStringInjective(i, j);
    }
  }

  /** Equal strings with the same prefix have the same rest. */
  lemma PrefixCancels(p: string, x: string, y: string)
    requires p + x == p + y
    ensures x == y
  {
    assert x == (p + x)[|p|..];
    assert y == (p + y)[|p|..];
  }

  /** Equal strings with the same prefix and suffix have the same middle. */
  lemma MiddleCancels(p: string, x: string, y: string, s: string)
    requires p + x + s == p + y + s
    ensures x == y
  {
    assert |x| == |y|;
    assert x == (p + x + s)[|p|..|p| + |x|];
    assert y == (p + y + s)[|p|..|p| + |y|];
  }

  /** The request body of `download_image`: each field as given, or absent. */
  datatype ImageRequest = ImageRequest(url: Option<string>, brandName: Option<string>, index: Option<JsonValue>)

  /** What `download_image` answers: a 400, a 500, or the file with its name
      and media type. */
  datatype DownloadResult =
    | MissingUrl
    | DownloadFailed
    | File(name: string, mimetype: string, content: seq<bv8>)

  /** A header value Werkzeug accepts: `Headers.set` raises `ValueError` for
      one holding a carriage return or a line feed. */
  predicate HeaderSafe(v: string) {
    '\n' !in v && '\r' !in v
  }

  /**
   * `download_image`: the URL must be present and non-empty; a failed fetch
   * gives the error answer; otherwise the file is named from the brand
   * (default `logo`), the index (default `''`) and the inferred extension,
   * and served with the `content-type` header, `image/png` when absent. The
   * name starts with the brand and ends with `.` and the extension.
   * `send_file` puts the name into `Content-Disposition` and the media type
   * into `Content-Type`, inside the same `try`: a CR or LF in either makes it
   * raise, which is also the error answer.
   */
  function DownloadImage(req: ImageRequest, response: Option<Response>): (r: DownloadResult)
    ensures r.MissingUrl? <==> req.url.GetOr("") == ""
    ensures r.DownloadFailed? <==> (req.url.GetOr("") != "" && (response.None?
      || !HeaderSafe(SingleFileName(req.brandName.GetOr("logo"), req.index.GetOr(JStr("")),
                                    InferExtension(req.url.value, response.value.contentType)))
      || !HeaderSafe(response.value.contentType.GetOr("image/png"))))
    ensures r.File? ==> (r.content == response.value.content
      && r.mimetype == response.value.contentType.GetOr("image/png")
      && r.name == SingleFileName(req.brandName.GetOr("logo"), req.index.GetOr(JStr("")),
                                  InferExtension(req.url.value, response.value.contentType)))
    ensures r.File? ==> (req.brandName.GetOr("logo") <= r.name
      && EndsWith(r.name, "." + InferExtension(req.url.value, response.value.contentType))
      && HeaderSafe(r.name) && HeaderSafe(r.mimetype))
  {
    match req.url
    case None => MissingUrl
    case Some(url) =>
      if url == "" then MissingUrl
      else
        match response
        case None => DownloadFailed
        case Some(resp) =>
          var ext := InferExtension(url, resp.contentType);
          var name := SingleFileName(req.brandName.GetOr("logo"), req.index.GetOr(JStr("")), ext);
          var mimetype := resp.contentType.GetOr("image/png");
          if HeaderSafe(name) && HeaderSafe(mimetype) then File(name, mimetype, resp.content)
          else DownloadFailed
  }

  /** A brand name holding a line feed or a carriage return gets the error
      answer even when the fetch succeeds. */
  lemma LineBreakInBrandFails(url: string, brandName: string, index: Option<JsonValue>, response: Option<Response>)
    requires url != "" && response.Some?
    requires '\n' in brandName || '\r' in brandName
    ensures DownloadImage(ImageRequest(Some(url), Some(brandName), index), response) == DownloadFailed
  {
    var name := SingleFileName(brandName, index.GetOr(JStr("")), InferExtension(url, response.value.contentType));
    assert name[..|brandName|] == brandName;
    assert !HeaderSafe(name) by {
      if '\n' in brandName {
        var k :| 0 <= k < |brandName| && brandName[k] == '\n';
        assert name[k] == '\n';
      } else {
        var k :| 0 <= k < |brandName| && brandName[k] == '\r';
        assert name[k] == '\r';
      }
    }
  }

  /** Two requests for the same image that differ only in their non-zero
      numeric indices are both answered with a file or both with the error;
      the files have different names, and they are files whenever the brand,
      the extension and the media type are fit for a header. */
  lemma DownloadIndicesDistinct(url: string, brandName: Option<string>, i: int, j: int, response: Option<Response>)
    requires url != "" && response.Some?
    requires i != 0 && j != 0 && i != j
    ensures var r1 := DownloadImage(ImageRequest(Some(url), brandName, Some(JInt(i))), response);
      var r2 := DownloadImage(ImageRequest(Some(url), brandName, Some(JInt(j))), response);
      && (r1.File? <==> r2.File?)
      && (r1.File? ==> r1.name != r2.name)
      && ((HeaderSafe(brandName.GetOr("logo")) && HeaderSafe(InferExtension(url, response.value.contentType))
           && HeaderSafe(response.value.contentType.GetOr("image/png"))) ==> r1.File?)
  {
    var b, e := brandName.GetOr("logo"), InferExtension(url, response.value.contentType);
    NumberedSingleFilesDistinct(b, i, j, e);
    NumberedNameSafe(b, i, e);
    NumberedNameSafe(b, j, e);
  }

  /** A name numbered by an integer is fit for a header exactly when its
      brand and extension are: digits and `-` hold no line break. */
  lemma NumberedNameSafe(b: string, i: int, e: string)
    requires i != 0
    ensures HeaderSafe(SingleFileName(b, JInt(i), e)) <==> HeaderSafe(b) && HeaderSafe(e)
  {
    var si := IntToString(i);
    assert SingleFileName(b, JInt(i), e) == b + ("-" + si + ".") + e;
    IntToStringSafe(i);
    HeaderSafeConcat(b, "-" + si + ".");
    HeaderSafeConcat(b + ("-" + si + "."), e);
    HeaderSafeConcat("-", si);
    HeaderSafeConcat("-" + si, ".");
  }

  lemma HeaderSafeConcat(x: string, y: string)
    ensures HeaderSafe(x + y) <==> HeaderSafe(x) && HeaderSafe(y)
  {
    if '\n' in x + y || '\r' in x + y {
      var k :| 0 <= k < |x + y| && ((x + y)[k] == '\n' || (x + y)[k] == '\r');
      if k < |x| { assert x[k] == (x + y)[k]; } else { assert y[k - |x|] == (x + y)[k]; }
    }
  }

  /** `str(i)` holds no line break. */
  lemma IntToStringSafe(i: int)
    ensures HeaderSafe(IntToString(i))
  {
    var d := NatToString(if i < 0 then -i else i);
    assert forall k :: 0 <= k < |d| ==> IsDigit(d[k]);
    HeaderSafeConcat("-", d);
  }
}
