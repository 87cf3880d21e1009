/**
 * `extract_logos_from_sites`: run `extract_logo` for every submitted URL and
 * gather the lists into a dictionary keyed by URL. The thread pool is
 * modelled as running the tasks one after the other, in submission order.
 */
module Batch {
  import opened PageExtractor

  /** The `urls` argument: a list of strings, or a bare string. */
  datatype UrlsArg = Many(items: seq<string>) | One(text: string)

  /** How `future.result()` ended: with the task's list, or by raising. */
  datatype TaskOutcome = Returned(logos: seq<string>) | Raised

  /** The outcome of the whole call: the dictionary, or the `ValueError` the
      thread pool raises when asked for no workers. */
  datatype BatchResult = Results(logos: map<string, seq<string>>) | InvalidWorkers

  /**
   * The URLs that get a task: none for an empty list or an empty string
   * (`if not urls: return results`), the string itself for a bare string,
   * and otherwise the list as given, duplicates included.
   */
  function Submitted(urls: UrlsArg): (r: seq<string>)
    ensures urls.Many? ==> r == urls.items
    ensures urls.One? ==> (r == [] <==> urls.text == "") && (r != [] ==> r == [urls.text])
  {
    match urls
    case Many(items) => items
    case One(text) => if text == "" then [] else [text]
  }

  /** The value a URL gets: the task's list, or `[]` when `future.result()` raised. */
  function Settle(o: TaskOutcome): seq<string> {
    match o
    case Returned(logos) => logos
    case Raised => []
  }

  /** The position of the last occurrence of `x` in `s`. */
  function LastIndex(s: seq<string>, x: string): (r: nat)
    requires x in s
    ensures r < |s| && s[r] == x && forall i :: r < i < |s| ==> s[i] != x
  {
    if s[|s| - 1] == x then |s| - 1 else LastIndex(s[..|s| - 1], x)
  }

  lemma LastIndexExtend(s: seq<string>, a: string, x: string)
    requires x in s && x != a
    ensures LastIndex(s + [a], x) == LastIndex(s, x)
  {
    assert (s + [a])[..|s|] == s;
  }

  lemma PrefixExtend<T>(s: seq<T>, k: nat)
    requires k <= |s|
    ensures k < |s| ==> s[..k + 1] == s[..k] + [s[k]]
    ensures k == |s| ==> s[..k] == s
  {
  }

  /**
   * The loop over the futures: each URL's slot is set to its task's outcome,
   * so the dictionary has one key per distinct URL, and a URL submitted
   * twice keeps the outcome of its last task.
   */
  method CollectResults(urls: seq<string>, outcomes: seq<TaskOutcome>) returns (results: map<string, seq<string>>)
    requires |urls| == |outcomes|
    ensures results.Keys == set u | u in urls
    ensures forall u :: u in urls ==> results[u] == Settle(outcomes[LastIndex(urls, u)])
  {
    results := map[];
    for k := 0 to |urls|
      invariant results.Keys == set u | u in urls[..k]
      invariant forall u :: u in urls[..k] ==> results[u] == Settle(outcomes[LastIndex(urls[..k], u)])
    {
      var u := urls[k];
      assert urls[..k + 1] == urls[..k] + [u];
      forall v | v in urls[..k] && v != u
        ensures LastIndex(urls[..k + 1], v) == LastIndex(urls[..k], v)
      {
        LastIndexExtend(urls[..k], u, v);
      }
      results := results[u := Settle(outcomes[k])];
    }
    assert urls[..|urls|] == urls;
  }

  /**
   * `extract_logos_from_sites(urls, max_workers)`, where `web(u)` is what
   * fetching `u` gives. With nothing submitted the dictionary is empty; a
   * non-positive worker count raises once there is work; otherwise every
   * submitted URL maps to its page's list. A list submits its items, and a
   * bare non-empty string is one URL, not a sequence of characters.
   */
  method ExtractLogosFromSites(urls: UrlsArg, maxWorkers: int, web: string -> Page, join: UrlJoin)
    returns (r: BatchResult)
    ensures r.InvalidWorkers? <==> Submitted(urls) != [] && maxWorkers <= 0
    ensures r.Results? ==> r.logos.Keys == set u | u in Submitted(urls)
    ensures r.Results? ==> forall u :: u in r.logos ==> r.logos[u] == PageLogos(u, web(u), join)
    ensures (urls == Many([]) || urls == One("")) ==> r == Results(map[])
    ensures urls.Many? && r.Results? ==> r.logos.Keys == set u | u in urls.items
    ensures urls.One? && urls.text != "" && maxWorkers > 0 ==>
      r == Results(map[urls.text := PageLogos(urls.text, web(urls.text), join)])
  {
    var list := Submitted(urls);
    if list == [] {
      return Results(map[]);
    }
    if maxWorkers <= 0 {
      return InvalidWorkers;
    }
    ghost var expected := seq(|list|, i requires 0 <= i < |list| => Returned(PageLogos(list[i], web(list[i]), join)));
    var outcomes: seq<TaskOutcome> := [];
    for k := 0 to |list|
      invariant outcomes == expected[..k]
    {
      var logos := ExtractLogo(list[k], web(list[k]), join);
      assert expected[k] == Returned(logos);
      PrefixExtend(expected, k);
      outcomes := outcomes + [Returned(logos)];
    }
    PrefixExtend(expected, |list|);
    var results := CollectResults(list, outcomes);
    forall u | u in results ensures results[u] == PageLogos(u, web(u), join) {
      assert u in list;
      var i := LastIndex(list, u);
      assert outcomes[i] == expected[i];
    }
    if urls.One? {
      SingleKey(results, urls.text, PageLogos(urls.text, web(urls.text), join));
    }
    return Results(results);
  }

  /** A map whose keys are those of the one-element list `[k]` is the
      singleton map at `k`. */
  lemma SingleKey(m: map<string, seq<string>>, k: string, v: seq<string>)
    requires m.Keys == (set u | u in [k]) && k in m && m[k] == v
    ensures m == map[k := v]
  {
    assert m.Keys == {k};
  }
}
