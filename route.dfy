/**
 * The `/extract` handler: the submitted text is cut into lines, each line is
 * stripped, blank lines are dropped, and the remaining URLs go to the batch
 * with five workers.
 */
module Route {
  import opened Common
  import opened PyStr
  import opened PageExtractor
  import opened Batch

  /** A list entry: non-blank, with nothing left to strip. */
  predicate IsCleanUrl(e: string) {
    e != "" && Strip(e) == e
  }

  /** What one line contributes: itself stripped, or nothing when blank. */
  function CleanLine(line: string): (r: seq<string>)
    ensures |r| <= 1
    ensures r != [] ==> IsCleanUrl(r[0]) && r[0] == Strip(line)
    ensures r == [] <==> Strip(line) == ""
  {
    StripIdempotent(line);
    if Strip(line) != "" then [Strip(line)] else []
  }

  /** `[u.strip() for u in lines if u.strip()]`: never more entries than
      lines, and every entry non-blank and stripped. */
  function CleanLines(lines: seq<string>): (r: seq<string>)
    ensures |r| <= |lines|
    ensures forall k :: 0 <= k < |r| ==> IsCleanUrl(r[k])
  {
    if lines == [] then []
    else
      var here, rest := CleanLine(lines[0]), CleanLines(lines[1..]);
      assert forall k :: 0 <= k < |here + rest| ==>
        (here + rest)[k] == if k < |here| then here[0] else rest[k - |here|];
      here + rest
  }

  /** A character that no line holds is in no entry either. */
  lemma {:induction false} CleanLinesAvoid(lines: seq<string>, c: char)
    requires forall k :: 0 <= k < |lines| ==> c !in lines[k]
    ensures forall k :: 0 <= k < |CleanLines(lines)| ==> c !in CleanLines(lines)[k]
  {
    if lines != [] {
      CleanLinesAvoid(lines[1..], c);
      var here, rest := CleanLine(lines[0]), CleanLines(lines[1..]);
      if here != [] {
        StripIsSlice(lines[0]);
        var t := Strip(lines[0]);
        var a := |lines[0]| - |TrimLeft(lines[0], WHITESPACE)|;
        assert forall i :: 0 <= i < |t| ==> t[i] == lines[0][a + i];
      }
      assert forall k :: 0 <= k < |here + rest| ==>
        (here + rest)[k] == if k < |here| then here[0] else rest[k - |here|];
    }
  }

  /** The URL list the handler builds from the form text: every entry is
      non-blank, stripped, and lies within one line. */
  function Normalise(text: string): (r: seq<string>)
    ensures forall k :: 0 <= k < |r| ==> IsCleanUrl(r[k]) && '\n' !in r[k]
  {
    var lines := Split(text, '\n');
    CleanLinesAvoid(lines, '\n');
    CleanLines(lines)
  }

  /** Some line of `lines`, stripped, is `x`. */
  predicate SomeLineStripsTo(lines: seq<string>, x: string) {
    exists k :: 0 <= k < |lines| && Strip(lines[k]) == x
  }

  lemma SomeLineStep(lines: seq<string>, x: string)
    requires lines != []
    ensures SomeLineStripsTo(lines, x) <==> Strip(lines[0]) == x || SomeLineStripsTo(lines[1..], x)
  {
    if SomeLineStripsTo(lines, x) {
      var k :| 0 <= k < |lines| && Strip(lines[k]) == x;
      if k > 0 {
        assert lines[1..][k - 1] == lines[k];
      }
    }
    if SomeLineStripsTo(lines[1..], x) {
      var k :| 0 <= k < |lines[1..]| && Strip(lines[1..][k]) == x;
      assert lines[k + 1] == lines[1..][k];
    }
  }

  /** An entry comes from some line, stripped, and every non-blank line gives one. */
  lemma {:induction false} CleanLinesMembers(lines: seq<string>, x: string)
    ensures x in CleanLines(lines) <==> x != "" && SomeLineStripsTo(lines, x)
  {
    if lines != [] {
      CleanLinesMembers(lines[1..], x);
      SomeLineStep(lines, x);
      assert CleanLines(lines) == CleanLine(lines[0]) + CleanLines(lines[1..]);
    }
  }

  lemma {:induction false} CleanLinesConcat(a: seq<string>, b: seq<string>)
    ensures CleanLines(a + b) == CleanLines(a) + CleanLines(b)
  {
    if a == [] {
      assert a + b == b;
    } else {
      var ab := a + b;
      assert ab[0] == a[0] && ab[1..] == a[1..] + b;
      CleanLinesConcat(a[1..], b);
      var x, y, z := CleanLine(a[0]), CleanLines(a[1..]), CleanLines(b);
      assert CleanLines(ab) == x + (y + z);
      assert x + (y + z) == (x + y) + z;
    }
  }

  /** The list follows the text: the URLs of two blocks of lines are those of
      the first block followed by those of the second, so order is kept. */
  lemma NormaliseConcat(a: string, b: string)
    ensures Normalise(a + "\n" + b) == Normalise(a) + Normalise(b)
  {
    assert a + "\n" + b == a + ['\n'] + b;
    SplitConcat(a, b, '\n');
    CleanLinesConcat(Split(a, '\n'), Split(b, '\n'));
  }

  /** A URL is listed exactly when it is a non-blank line of the text, stripped. */
  lemma NormaliseMembers(text: string, x: string)
    ensures x in Normalise(text) <==> x != "" && SomeLineStripsTo(Split(text, '\n'), x)
  {
    CleanLinesMembers(Split(text, '\n'), x);
  }

  /** A line that is already a clean URL comes through unchanged. */
  lemma NormaliseOneLine(u: string)
    requires u != [] && '\n' !in u && !IsSpace(u[0]) && !IsSpace(u[|u| - 1])
    ensures Normalise(u) == [u]
  {
    assert Split(u, '\n') == [u] by {
      assert |Split(u, '\n')| == 1;
    }
    StripKeepsTrimmed(u);
    assert CleanLines([u]) == [u] + CleanLines([]);
  }

  /** Duplicates are kept: the same URL on two lines is listed twice. */
  lemma DuplicatesKept(u: string)
    requires u != [] && '\n' !in u && !IsSpace(u[0]) && !IsSpace(u[|u| - 1])
    ensures Normalise(u + "\n" + u) == [u, u]
  {
    NormaliseConcat(u, u);
    NormaliseOneLine(u);
  }

  /** The JSON body `/extract` answers with. */
  datatype ExtractResponse = NoValidUrls | Logos(logos: map<string, seq<string>>)

  /**
   * `POST /extract`: `request.form.get('urls', '')`, normalised; an error
   * when no URL remains, otherwise the batch result with five workers.
   */
  method Extract(form: map<string, string>, web: string -> Page, join: UrlJoin) returns (r: ExtractResponse)
    ensures var urls := Normalise(if "urls" in form then form["urls"] else "");
      && (r.NoValidUrls? <==> urls == [])
      && (r.Logos? ==> r.logos.Keys == set u | u in urls)
      && (r.Logos? ==> forall u :: u in r.logos ==> r.logos[u] == PageLogos(u, web(u), join))
  {
    var text := if "urls" in form then form["urls"] else "";
    var urls := Normalise(text);
    if urls == [] {
      return NoValidUrls;
    }
    var batch := ExtractLogosFromSites(Many(urls), 5, web, join);
    match batch {
      case Results(logos) =>
        r := Logos(logos);
      case InvalidWorkers =>
        assert false;
        r := NoValidUrls;
    }
  }
}
