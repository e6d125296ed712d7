/**
 * A parsed HTML document as a tree of values, and the tree queries the
 * extractor uses: `find`, `find_all`, `get_text` and `get_text(strip=True)`.
 *
 * Every element carries a `uid`, its identity as an object: `decompose()`
 * removes one particular element, not every element that looks like it.
 */
module Dom {
  import opened Wrappers
  import opened Text
  import opened Seqs

  datatype Node =
    | TextNode(text: string)
    | Element(uid: nat, tag: string, attrs: map<string, string>, classes: seq<string>, children: seq<Node>)

  /** `tag.get(name)`: the attribute's value, or None when it is absent. */
  function Attr(n: Node, name: string): (r: Option<string>)
    ensures r.Some? <==> n.Element? && name in n.attrs
    ensures r.Some? ==> r.value == n.attrs[name]
  {
    if n.Element? && name in n.attrs then Some(n.attrs[name]) else None
  }

  /** The element filters the extractor passes to `find` and `find_all`. */
  datatype Query =
    | ByTag(name: string)                  // find('article'), find_all('p')
    | ByTagId(name: string, id: string)    // find('div', id='topic-summary')
    | ByTagClass(name: string, cls: string) // find('div', class_='content')
    | ByTags(names: set<string>)           // soup(['nav', 'header', ...])

  predicate Matches(n: Node, q: Query)
  {
    n.Element? &&
    match q
    case ByTag(name) => n.tag == name
    case ByTagId(name, id) => n.tag == name && "id" in n.attrs && n.attrs["id"] == id
    case ByTagClass(name, cls) => n.tag == name && cls in n.classes
    case ByTags(names) => n.tag in names
  }

  /* ---------------- document order ---------------- */

  /** The proper descendants of `n`, in document (pre-)order. */
  function Descendants(n: Node): seq<Node>
  {
    match n
    case TextNode(_) => []
    case Element(_, _, _, _, cs) => DescendantsOf(cs)
  }

  /** The nodes of a list of sibling trees and all their descendants, in document order. */
  function DescendantsOf(cs: seq<Node>): seq<Node>
  {
    if cs == [] then [] else [cs[0]] + Descendants(cs[0]) + DescendantsOf(cs[1..])
  }

  /** A descendant of a descendant is a descendant. */
  lemma {:induction false} DescendantTrans(n: Node, c: Node, d: Node)
    requires c in Descendants(n) && d in Descendants(c)
    ensures d in Descendants(n)
  {
    DescendantTransOf(n.children, c, d);
  }

  lemma {:induction false} DescendantTransOf(cs: seq<Node>, c: Node, d: Node)
    requires c in DescendantsOf(cs) && d in Descendants(c)
    ensures d in DescendantsOf(cs)
  {
    if c != cs[0] {
      if c in Descendants(cs[0]) {
        DescendantTransOf(cs[0].children, c, d);
      } else {
        DescendantTransOf(cs[1..], c, d);
      }
    }
  }

  /** The nodes of `ns` that match `q`, in their order (a list comprehension with an `if`). */
  function Filter(ns: seq<Node>, q: Query): (r: seq<Node>)
    ensures |r| <= |ns|
    ensures forall x :: x in r <==> x in ns && Matches(x, q)
  {
    if ns == [] then []
    else if Matches(ns[0], q) then [ns[0]] + Filter(ns[1..], q)
    else Filter(ns[1..], q)
  }

  /**
   * Filtering keeps every matching occurrence, as often as it occurs, and
   * drops every other one, without reordering.
   */
  lemma {:induction false} FilterKeepsOccurrences(ns: seq<Node>, q: Query)
    ensures forall x :: multiset(Filter(ns, q))[x] == (if Matches(x, q) then multiset(ns)[x] else 0)
    ensures IsSubseq(Filter(ns, q), ns)
  {
    if ns != [] {
      FilterKeepsOccurrences(ns[1..], q);
      var rest := Filter(ns[1..], q);
      assert ns == [ns[0]] + ns[1..];
      if Matches(ns[0], q) {
        var r := [ns[0]] + rest;
        assert r[1..] == rest;
      }
    }
  }

  /** Filtering keeps relative order: it distributes over concatenation. */
  lemma {:induction false} FilterAppend(xs: seq<Node>, ys: seq<Node>, q: Query)
    ensures Filter(xs + ys, q) == Filter(xs, q) + Filter(ys, q)
  {
    if xs == [] {
      assert xs + ys == ys;
    } else {
      assert (xs + ys)[1..] == xs[1..] + ys;
      FilterAppend(xs[1..], ys, q);
    }
  }

  /** `n.find_all(q)`: every matching descendant of `n`, in document order. */
  function FindAll(n: Node, q: Query): (r: seq<Node>)
    ensures forall x :: x in r <==> x in Descendants(n) && Matches(x, q)
  {
    Filter(Descendants(n), q)
  }

  /**
   * `find_all` lists the matching descendants in document order, each as
   * often as it occurs below `n`.
   */
  lemma FindAllInDocumentOrder(n: Node, q: Query)
    ensures forall x :: multiset(FindAll(n, q))[x] == (if Matches(x, q) then multiset(Descendants(n))[x] else 0)
    ensures IsSubseq(FindAll(n, q), Descendants(n))
  {
    FilterKeepsOccurrences(Descendants(n), q);
  }

  /** `n.find(q)`: a depth-first search that stops at the first matching descendant. */
  function Find(n: Node, q: Query): (r: Option<Node>)
    ensures r.Some? ==> Matches(r.value, q) && r.value in Descendants(n)
  {
    match n
    case TextNode(_) => None
    case Element(_, _, _, _, cs) => FindIn(cs, q)
  }

  function FindIn(cs: seq<Node>, q: Query): (r: Option<Node>)
    ensures r.Some? ==> Matches(r.value, q) && r.value in DescendantsOf(cs)
  {
    if cs == [] then None
    else if Matches(cs[0], q) then Some(cs[0])
    else
      match Find(cs[0], q)
      case Some(d) => Some(d)
      case None => FindIn(cs[1..], q)
  }

  /** The head of a list, if any. */
  function First(ns: seq<Node>): Option<Node>
  {
    if ns == [] then None else Some(ns[0])
  }

  /**
   * `find` returns exactly the first element `find_all` would list: the first
   * match in document order, or None when nothing matches.
   */
  lemma {:induction false} FindIsFirstMatch(n: Node, q: Query)
    ensures Find(n, q) == First(FindAll(n, q))
    ensures Find(n, q).Some? ==> Matches(Find(n, q).value, q) && Find(n, q).value in Descendants(n)
    ensures Find(n, q).None? <==> forall d :: d in Descendants(n) ==> !Matches(d, q)
  {
    match n
    case TextNode(_) =>
    case Element(_, _, _, _, cs) =>
      FindInIsFirstMatch(cs, q);
  }

  lemma {:induction false} FindInIsFirstMatch(cs: seq<Node>, q: Query)
    ensures FindIn(cs, q) == First(Filter(DescendantsOf(cs), q))
  {
    if cs != [] {
      var c := cs[0];
      var here, below, later := Filter([c], q), Filter(Descendants(c), q), Filter(DescendantsOf(cs[1..]), q);
      assert DescendantsOf(cs) == ([c] + Descendants(c)) + DescendantsOf(cs[1..]);
      FilterAppend([c] + Descendants(c), DescendantsOf(cs[1..]), q);
      FilterAppend([c], Descendants(c), q);
      assert Filter(DescendantsOf(cs), q) == here + below + later;
      if Matches(c, q) {
        assert here == [c];
      } else {
        assert here == [];
        FindIsFirstMatch(c, q);
        FindInIsFirstMatch(cs[1..], q);
        assert FindIn(cs, q) == if Find(c, q).Some? then Find(c, q) else FindIn(cs[1..], q);
      }
    }
  }

  /* ---------------- text ---------------- */

  /** The text leaves under `n` (or `n` itself when it is one), in document order. */
  function TextPieces(n: Node): seq<string>
  {
    match n
    case TextNode(s) => [s]
    case Element(_, _, _, _, cs) => TextPiecesOf(cs)
  }

  function TextPiecesOf(cs: seq<Node>): seq<string>
  {
    if cs == [] then [] else TextPieces(cs[0]) + TextPiecesOf(cs[1..])
  }

  /** `n.get_text()`: the text leaves concatenated as they are. */
  function GetText(n: Node): (r: string)
    ensures n.TextNode? ==> r == n.text
    ensures |r| == TotalLength(TextPieces(n))
  {
    ConcatLength(TextPieces(n));
    Concat(TextPieces(n))
  }

  /** The `get_text()` of each node of `cs`. */
  function ChildTexts(cs: seq<Node>): (r: seq<string>)
    ensures |r| == |cs|
  {
    if cs == [] then [] else [GetText(cs[0])] + ChildTexts(cs[1..])
  }

  /** The text of an element is the texts of its children, concatenated in document order. */
  lemma {:induction false} GetTextOfChildren(n: Node)
    requires n.Element?
    ensures GetText(n) == Concat(ChildTexts(n.children))
  {
    TextPiecesOfConcat(n.children);
  }

  lemma {:induction false} TextPiecesOfConcat(cs: seq<Node>)
    ensures Concat(TextPiecesOf(cs)) == Concat(ChildTexts(cs))
  {
    if cs != [] {
      TextPiecesOfConcat(cs[1..]);
      ConcatAppend(TextPieces(cs[0]), TextPiecesOf(cs[1..]));
      assert ([GetText(cs[0])] + ChildTexts(cs[1..]))[1..] == ChildTexts(cs[1..]);
    }
  }

  /** A non-empty string that neither starts nor ends with whitespace. */
  predicate Trimmed(s: string)
  {
    s != [] && !IsSpace(s[0]) && !IsSpace(s[|s| - 1])
  }

  lemma TrimmedCons(h: string, rest: seq<string>)
    requires Trimmed(h) && forall i :: 0 <= i < |rest| ==> Trimmed(rest[i])
    ensures forall i :: 0 <= i < |rest| + 1 ==> Trimmed(([h] + rest)[i])
  {
    forall i | 0 <= i < |rest| + 1
      ensures Trimmed(([h] + rest)[i])
    {
      if i > 0 {
        assert ([h] + rest)[i] == rest[i - 1];
      }
    }
  }

  /** Each piece stripped, and the pieces left empty by stripping dropped. */
  function StripPieces(ps: seq<string>): (r: seq<string>)
    ensures |r| <= |ps|
    ensures forall i :: 0 <= i < |r| ==> Trimmed(r[i])
  {
    if ps == [] then []
    else
      var h, rest := Strip(ps[0]), StripPieces(ps[1..]);
      if h == [] then rest else TrimmedCons(h, rest); [h] + rest
  }

  lemma {:induction false} StripPiecesShorter(ps: seq<string>)
    ensures TotalLength(StripPieces(ps)) <= TotalLength(ps)
  {
    if ps != [] {
      StripPiecesShorter(ps[1..]);
    }
  }

  /** A concatenation of pieces that are non-empty with non-space ends has non-space ends. */
  lemma {:induction false} ConcatEnds(xs: seq<string>)
    requires forall i :: 0 <= i < |xs| ==> Trimmed(xs[i])
    ensures Concat(xs) == [] <==> xs == []
    ensures Concat(xs) != [] ==> !IsSpace(Concat(xs)[0]) && !IsSpace(Concat(xs)[|Concat(xs)| - 1])
  {
    if xs != [] {
      ConcatEnds(xs[1..]);
      var rest := Concat(xs[1..]);
      assert Concat(xs) == xs[0] + rest;
      if rest == [] {
        assert Concat(xs) == xs[0];
      } else {
        assert Concat(xs)[|Concat(xs)| - 1] == rest[|rest| - 1];
      }
    }
  }

  /** Only the all-whitespace pieces vanish: nothing is left exactly when every piece is whitespace. */
  lemma {:induction false} StripPiecesEmptyIff(ps: seq<string>)
    ensures StripPieces(ps) == [] <==> forall i :: 0 <= i < |ps| ==> AllSpace(ps[i])
  {
    if ps != [] {
      StripPiecesEmptyIff(ps[1..]);
      assert forall i :: 1 <= i < |ps| ==> ps[i] == ps[1..][i - 1];
    }
  }

  /** Pieces are stripped one at a time, in order: stripping distributes over concatenation. */
  lemma {:induction false} StripPiecesAppend(ps: seq<string>, qs: seq<string>)
    ensures StripPieces(ps + qs) == StripPieces(ps) + StripPieces(qs)
  {
    if ps == [] {
      assert ps + qs == qs;
    } else {
      assert (ps + qs)[0] == ps[0];
      assert (ps + qs)[1..] == ps[1..] + qs;
      StripPiecesAppend(ps[1..], qs);
    }
  }

  /** One piece alone: stripped, or dropped when it is all whitespace. */
  lemma StripPiecesSingle(p: string)
    ensures StripPieces([p]) == if AllSpace(p) then [] else [Strip(p)]
  {
    assert [p][1..] == [];
  }

  /**
   * `n.get_text(strip=True)`: the stripped, non-empty text leaves concatenated
   * with no separator. It is empty exactly when `get_text()` is all
   * whitespace, it is never longer than `get_text()`, and it neither starts
   * nor ends with whitespace.
   */
  function StrippedText(n: Node): (r: string)
    ensures r == [] <==> AllSpace(GetText(n))
    ensures |r| <= |GetText(n)|
    ensures r != [] ==> Trimmed(r)
  {
    var ps := TextPieces(n);
    StripPiecesShorter(ps);
    ConcatLength(ps);
    ConcatLength(StripPieces(ps));
    ConcatEnds(StripPieces(ps));
    StripPiecesEmptyIff(ps);
    AllSpaceConcat(ps);
    Concat(StripPieces(ps))
  }

  /** `get_text(strip=True)` of a text leaf is that text stripped. */
  lemma StrippedTextLeaf(s: string)
    ensures StrippedText(TextNode(s)) == Strip(s)
  {
    StripPiecesSingle(s);
    if !AllSpace(s) {
      assert Concat([Strip(s)]) == Strip(s) + Concat([]);
    }
  }

  /** The `get_text(strip=True)` of each node of `cs`. */
  function ChildStrippedTexts(cs: seq<Node>): (r: seq<string>)
    ensures |r| == |cs|
    ensures forall i :: 0 <= i < |cs| ==> r[i] == StrippedText(cs[i])
  {
    if cs == [] then [] else [StrippedText(cs[0])] + ChildStrippedTexts(cs[1..])
  }

  /**
   * The stripped text of an element is its children's stripped texts,
   * concatenated with no separator: whitespace between two leaves is lost,
   * which is where `get_text(strip=True)` differs from `get_text().strip()`.
   */
  lemma {:induction false} StrippedTextOfChildren(n: Node)
    requires n.Element?
    ensures StrippedText(n) == Concat(ChildStrippedTexts(n.children))
  {
    StrippedPiecesOfConcat(n.children);
  }

  lemma {:induction false} StrippedPiecesOfConcat(cs: seq<Node>)
    ensures Concat(StripPieces(TextPiecesOf(cs))) == Concat(ChildStrippedTexts(cs))
  {
    if cs != [] {
      StrippedPiecesOfConcat(cs[1..]);
      StripPiecesAppend(TextPieces(cs[0]), TextPiecesOf(cs[1..]));
      ConcatAppend(StripPieces(TextPieces(cs[0])), StripPieces(TextPiecesOf(cs[1..])));
      assert ([StrippedText(cs[0])] + ChildStrippedTexts(cs[1..]))[1..] == ChildStrippedTexts(cs[1..]);
    }
  }

  /** On `<p>a <b>b</b></p>`, `get_text(strip=True)` is "ab", while `get_text().strip()` is "a b". */
  lemma StrippedTextDropsInnerSpace()
    ensures StrippedText(SamplePara()) == "ab"
    ensures Strip(GetText(SamplePara())) == "a b"
  {
    SampleStrippedText();
    SampleGetText();
    StripSamples();
  }

  lemma SampleStrippedText()
    ensures StrippedText(SamplePara()) == "ab"
  {
    var b := Element(1, "b", map[], [], [TextNode("b")]);
    var p := SamplePara();
    StripSamples();
    StrippedTextLeaf("a ");
    StrippedTextLeaf("b");
    assert StrippedText(b) == "b" by {
      StrippedTextOfChildren(b);
      assert ChildStrippedTexts(b.children) == ["b"];
      assert Concat(["b"]) == "b" + Concat([]);
    }
    StrippedTextOfChildren(p);
    assert ChildStrippedTexts(p.children) == ["a", "b"];
    assert Concat(["a", "b"]) == "a" + Concat(["b"]);
    assert Concat(["b"]) == "b" + Concat([]);
  }

  lemma SampleGetText()
    ensures GetText(SamplePara()) == "a b"
  {
    var b := Element(1, "b", map[], [], [TextNode("b")]);
    var p := SamplePara();
    assert GetText(b) == "b" by {
      GetTextOfChildren(b);
      assert ChildTexts(b.children) == ["b"];
      assert Concat(["b"]) == "b" + Concat([]);
    }
    GetTextOfChildren(p);
    assert ChildTexts(p.children) == ["a ", "b"];
    assert Concat(["a ", "b"]) == "a " + Concat(["b"]);
    assert Concat(["b"]) == "b" + Concat([]);
  }

  /** The page fragment `<p>a <b>b</b></p>`. */
  function SamplePara(): Node
  {
    Element(0, "p", map[], [], [TextNode("a "), Element(1, "b", map[], [], [TextNode("b")])])
  }

  lemma StripSamples()
    ensures Strip("a ") == "a" && Strip("b") == "b" && Strip("a b") == "a b"
  {
    StripUntrimmed("b");
    StripUntrimmed("a b");
    assert LeadingSpace("a ") == 0;
    assert TrailingSpace("a ") == 1 by {
      assert "a "[..1] == "a";
      assert TrailingSpace("a") == 0;
    }
  }
}
