/**
 * The parsed page as the classifier sees it: a tree of elements and text.
 * A position in the tree is a path of child indices from the root; the
 * root is the parser's document object. Two `Node` values are equal exactly
 * when they have the same name, attributes, classes and contents, which is
 * how the parser library compares two tags.
 */
module Dom {
  import opened Common
  import opened PyStr

  /** `attrs` holds every attribute but `class`; `classes` is the class list
      the parser splits out of the `class` attribute, `None` when the tag has
      no `class` attribute (`class=""` gives `Some([])`, a different tag).
      The parser splits `accesskey` and `dropzone` at whitespace as well, so
      those two values in `attrs` are taken as already normalised to single
      spaces: `accesskey="a  b"` and `accesskey="a b"` are the same tag to the
      parser, and the same `Node` only when given that way. */
  datatype Node =
    | Element(name: string, attrs: map<string, string>, classes: Option<seq<string>>, children: seq<Node>)
    | Text(text: string)

  type Path = seq<nat>

  function Children(n: Node): seq<Node> {
    if n.Element? then n.children else []
  }

  /** `tag.get(key, default)` for an attribute other than `class`. */
  function Attr(n: Node, key: string, default: string): string {
    if n.Element? && key in n.attrs then n.attrs[key] else default
  }

  /** `tag.get(key)`: `None` when the attribute is absent. */
  function AttrOpt(n: Node, key: string): Option<string> {
    if n.Element? && key in n.attrs then Some(n.attrs[key]) else None
  }

  /** `' '.join(tag.get('class', []))`. */
  function ClassText(n: Node): string {
    if n.Element? then Join(n.classes.GetOr([]), " ") else ""
  }

  predicate IsImg(n: Node) {
    n.Element? && n.name == "img"
  }

  /** The names `find_parent(['header', 'nav'])` looks for. */
  predicate IsLandmark(n: Node) {
    n.Element? && (n.name == "header" || n.name == "nav")
  }

  predicate ValidPath(n: Node, p: Path)
    decreases p
  {
    p == [] || (n.Element? && p[0] < |n.children| && ValidPath(n.children[p[0]], p[1..]))
  }

  function NodeAt(n: Node, p: Path): Node
    requires ValidPath(n, p)
    decreases p
  {
    if p == [] then n else NodeAt(n.children[p[0]], p[1..])
  }

  /** There is an `img` element at `p`. */
  predicate IsImageAt(doc: Node, p: Path) {
    ValidPath(doc, p) && IsImg(NodeAt(doc, p))
  }

  /** A path splits at any point into a path to an ancestor and a path from
      that ancestor down to the same node. */
  lemma {:induction false} PathSplit(n: Node, p: Path, k: nat)
    requires ValidPath(n, p) && k <= |p|
    ensures ValidPath(n, p[..k]) && ValidPath(NodeAt(n, p[..k]), p[k..])
    ensures NodeAt(NodeAt(n, p[..k]), p[k..]) == NodeAt(n, p)
  {
    if k > 0 {
      var c := n.children[p[0]];
      PathSplit(c, p[1..], k - 1);
      assert p[1..][..k - 1] == p[..k][1..];
      assert p[1..][k - 1..] == p[k..];
    }
  }

  /** The ancestor of `p` at depth `j` (the node at `p[..j]`) is a header or nav. */
  predicate LandmarkAtDepth(doc: Node, p: Path, j: int) {
    0 <= j < |p| && ValidPath(doc, p[..j]) && IsLandmark(NodeAt(doc, p[..j]))
  }

  /**
   * `tag.find_parent(['header', 'nav'])` for the node at `p`: the depth of
   * its nearest header or nav ancestor, the deepest one, or `None` when it
   * has none.
   */
  function NearestLandmark(doc: Node, p: Path): (r: Option<nat>)
    requires ValidPath(doc, p)
    ensures r.Some? ==> LandmarkAtDepth(doc, p, r.value)
    ensures forall j :: LandmarkAtDepth(doc, p, j) ==> r.Some? && j <= r.value
    decreases |p|
  {
    if p == [] then None
    else
      var up := p[..|p| - 1];
      PathSplit(doc, p, |p| - 1);
      assert forall j :: 0 <= j < |p| - 1 ==> up[..j] == p[..j];
      if IsLandmark(NodeAt(doc, up)) then Some(|p| - 1)
      else
        assert !LandmarkAtDepth(doc, p, |p| - 1);
        assert forall j :: LandmarkAtDepth(doc, p, j) ==> LandmarkAtDepth(doc, up, j);
        NearestLandmark(doc, up)
  }

  /** Every path of `qs`, one level further down, below child `i`. */
  function Below(i: nat, qs: seq<Path>): (r: seq<Path>)
    ensures |r| == |qs| && forall k :: 0 <= k < |qs| ==> r[k] == [i] + qs[k]
  {
    seq(|qs|, k requires 0 <= k < |qs| => [i] + qs[k])
  }

  /** Every path of `r` leads to an `img` below child `from` or a later one. */
  predicate ImagesFrom(n: Node, r: seq<Path>, from: nat) {
    forall q :: q in r ==> |q| > 0 && from <= q[0] && IsImageAt(n, q)
  }

  /**
   * `tag.find_all('img')`: the paths, relative to `n`, of every `img`
   * element strictly below `n`, in document order (an element before its
   * descendants, and those before its later siblings).
   */
  function ImagePaths(n: Node): (r: seq<Path>)
    ensures ImagesFrom(n, r, 0)
    decreases n, |Children(n)| + 1
  {
    if n.Text? then [] else ImagePathsFrom(n, 0)
  }

  /** The `img` paths below the children `i`, `i + 1`, ... of `n`. */
  function ImagePathsFrom(n: Node, i: nat): (r: seq<Path>)
    requires n.Element? && i <= |n.children|
    ensures ImagesFrom(n, r, i)
    decreases n, |n.children| - i
  {
    if i == |n.children| then []
    else
      var c := n.children[i];
      var own: seq<Path> := if IsImg(c) then [[i]] else [];
      var inner := Below(i, ImagePaths(c));
      var rest := ImagePathsFrom(n, i + 1);
      ChildSound(n, i, own, ImagePaths(c), rest);
      own + inner + rest
  }

  /** The three parts `ImagePathsFrom` puts together lead to images. */
  lemma ChildSound(n: Node, i: nat, own: seq<Path>, qs: seq<Path>, rest: seq<Path>)
    requires n.Element? && i < |n.children|
    requires own == if IsImg(n.children[i]) then [[i]] else []
    requires ImagesFrom(n.children[i], qs, 0)
    requires ImagesFrom(n, rest, i + 1)
    ensures ImagesFrom(n, own + Below(i, qs) + rest, i)
  {
    var c := n.children[i];
    if IsImg(c) {
      assert [i][0] == i && [i][1..] == [];
      assert NodeAt(c, []) == c;
      assert ValidPath(n, [i]);
      assert NodeAt(n, [i]) == NodeAt(n.children[[i][0]], [i][1..]) == c;
    }
    BelowChild(n, i, qs);
    assert forall q :: q in own + Below(i, qs) + rest ==> q in own || q in Below(i, qs) || q in rest;
  }

  /** The `img` paths below child `i`, seen from `n`. */
  lemma BelowChild(n: Node, i: nat, qs: seq<Path>)
    requires n.Element? && i < |n.children|
    requires ImagesFrom(n.children[i], qs, 0)
    ensures forall q :: q in Below(i, qs) ==> |q| > 0 && q[0] == i && IsImageAt(n, q)
  {
    var r := Below(i, qs);
    forall k | 0 <= k < |r|
      ensures |r[k]| > 0 && r[k][0] == i && IsImageAt(n, r[k])
    {
      assert qs[k] in qs;
      assert r[k][1..] == qs[k];
    }
  }

  /** `find_all('img')` misses no `img` below `n`. */
  lemma {:induction false} ImagePathsComplete(n: Node, q: Path)
    requires |q| > 0 && IsImageAt(n, q)
    ensures q in ImagePaths(n)
    decreases n, |Children(n)| + 1
  {
    ImagePathsFromComplete(n, 0, q);
  }

  lemma {:induction false} ImagePathsFromComplete(n: Node, i: nat, q: Path)
    requires |q| > 0 && IsImageAt(n, q) && i <= q[0]
    ensures n.Element? && q in ImagePathsFrom(n, i)
    decreases n, |Children(n)| - i
  {
    assert n.Element? && q[0] < |n.children|;
    var c := n.children[i];
    var own: seq<Path> := if IsImg(c) then [[i]] else [];
    var qs := ImagePaths(c);
    var rest := ImagePathsFrom(n, i + 1);
    assert ImagePathsFrom(n, i) == own + Below(i, qs) + rest;
    if i < q[0] {
      ImagePathsFromComplete(n, i + 1, q);
      assert q in rest;
    } else if |q| == 1 {
      assert q in own by {
        assert q == [i] && q[1..] == [];
        assert NodeAt(n, q) == NodeAt(c, []) == c;
      }
    } else {
      DeepImageFound(n, q);
    }
  }

  /** An image deeper than a child of `n` is among that child's images, seen from `n`. */
  lemma {:induction false} DeepImageFound(n: Node, q: Path)
    requires |q| > 1 && IsImageAt(n, q)
    ensures n.Element? && q[0] < |n.children| && q in Below(q[0], ImagePaths(n.children[q[0]]))
    decreases n, 0
  {
    var c := n.children[q[0]];
    assert IsImageAt(c, q[1..]) by {
      assert NodeAt(n, q) == NodeAt(c, q[1..]);
    }
    ImagePathsComplete(c, q[1..]);
    var qs := ImagePaths(c);
    var k :| 0 <= k < |qs| && qs[k] == q[1..];
    HeadTail(q);
    assert Below(q[0], qs)[k] == q;
  }

  /* ----- document order ----- */

  /** `p` comes before `q` in document order: `p` is an ancestor of `q`, or
      the two part at some depth where `p` takes an earlier child. */
  predicate Precedes(p: Path, q: Path)
    decreases |p|
  {
    q != [] && (p == [] || p[0] < q[0] || (p[0] == q[0] && Precedes(p[1..], q[1..])))
  }

  /** No path comes before itself. */
  lemma {:induction false} PrecedesIrreflexive(p: Path)
    ensures !Precedes(p, p)
    decreases |p|
  {
    if p != [] {
      PrecedesIrreflexive(p[1..]);
    }
  }

  /** Each path of the list comes before every later one. */
  predicate InDocumentOrder(r: seq<Path>) {
    forall a, b :: 0 <= a < b < |r| ==> Precedes(r[a], r[b])
  }

  lemma OrderConcat(x: seq<Path>, y: seq<Path>)
    requires InDocumentOrder(x) && InDocumentOrder(y)
    requires forall p, q :: p in x && q in y ==> Precedes(p, q)
    ensures InDocumentOrder(x + y)
  {
    var r := x + y;
    forall a, b | 0 <= a < b < |r| ensures Precedes(r[a], r[b]) {
      if b < |x| {
        assert r[a] == x[a] && r[b] == x[b];
      } else if a >= |x| {
        assert r[a] == y[a - |x|] && r[b] == y[b - |x|];
      } else {
        assert r[a] in x && r[b] in y;
      }
    }
  }

  /** Putting the same child index in front keeps the order. */
  lemma BelowOrdered(i: nat, qs: seq<Path>)
    requires InDocumentOrder(qs)
    ensures InDocumentOrder(Below(i, qs))
  {
    var r := Below(i, qs);
    forall a, b | 0 <= a < b < |r| ensures Precedes(r[a], r[b]) {
      assert r[a][1..] == qs[a] && r[b][1..] == qs[b];
    }
  }

  /** `find_all('img')` lists the images in document order, so it never lists
      the same position twice. */
  lemma {:induction false} ImagePathsOrdered(n: Node)
    ensures InDocumentOrder(ImagePaths(n))
    ensures forall a, b :: 0 <= a < b < |ImagePaths(n)| ==> ImagePaths(n)[a] != ImagePaths(n)[b]
    decreases n, |Children(n)| + 1
  {
    var r := ImagePaths(n);
    if n.Element? {
      ImagePathsFromOrdered(n, 0);
    }
    forall a, b | 0 <= a < b < |r| ensures r[a] != r[b] {
      PrecedesIrreflexive(r[a]);
    }
  }

  lemma {:induction false} ImagePathsFromOrdered(n: Node, i: nat)
    requires n.Element? && i <= |n.children|
    ensures InDocumentOrder(ImagePathsFrom(n, i))
    decreases n, |n.children| - i
  {
    if i < |n.children| {
      var c := n.children[i];
      var own: seq<Path> := if IsImg(c) then [[i]] else [];
      var qs := ImagePaths(c);
      var below := Below(i, qs);
      var rest := ImagePathsFrom(n, i + 1);
      assert ImagePathsFrom(n, i) == own + below + rest;
      ImagePathsOrdered(c);
      ImagePathsFromOrdered(n, i + 1);
      BelowOrdered(i, qs);
      AncestorFirst(i, qs);
      OrderConcat(own, below);
      BelowChild(n, i, qs);
      assert forall p :: p in own + below ==> |p| > 0 && p[0] == i;
      EarlierChildFirst(i, own + below, rest);
      OrderConcat(own + below, rest);
    }
  }

  /** The path to child `i` comes before every path below that child. */
  lemma AncestorFirst(i: nat, qs: seq<Path>)
    requires forall q :: q in qs ==> |q| > 0
    ensures forall q :: q in Below(i, qs) ==> Precedes([i], q)
  {
    var below := Below(i, qs);
    forall k | 0 <= k < |below| ensures Precedes([i], below[k]) {
      assert qs[k] in qs;
      assert [i][1..] == [] && below[k][1..] == qs[k];
    }
  }

  /** Paths under child `i` come before paths under later children. */
  lemma EarlierChildFirst(i: nat, x: seq<Path>, y: seq<Path>)
    requires forall p :: p in x ==> |p| > 0 && p[0] == i
    requires forall q :: q in y ==> |q| > 0 && i < q[0]
    ensures forall p, q :: p in x && q in y ==> Precedes(p, q)
  {
  }

  lemma HeadTail(q: Path)
    requires |q| > 0
    ensures [q[0]] + q[1..] == q
  {
  }
}
