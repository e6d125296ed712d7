/**
 * `obtener_contenido_limpio(url)`: fetch a page, drop its junk regions, pick the
 * content container through a fixed fallback chain and keep the long
 * paragraphs, joined by a blank line.
 */
module Extraction {
  import opened Wrappers
  import opened Text
  import opened Dom
  import opened Seqs
  import opened Pruning

  /** A paragraph is kept only when its raw `get_text()` is longer than this. */
  const MinParagraphLength: nat := 45

  /** Kept paragraphs are joined with a blank line. */
  const Separator: string := "\n\n"

  /**
   * The container strategies, highest priority first: the MedlinePlus summary
   * `div#topic-summary`, the first `article`, the first `div.content`, the
   * first `main`.
   */
  const Strategies: seq<Query> := [
    ByTagId("div", "topic-summary"),
    ByTag("article"),
    ByTagClass("div", "content"),
    ByTag("main")
  ]

  /** Python's `a or b` on a tag-or-None (a tag is always truthy). */
  function Or(a: Option<Node>, b: Option<Node>): Option<Node>
  {
    if a.Some? then a else b
  }

  /**
   * The `or` chain over the four strategies: the first strategy that finds
   * something wins, and a lower-priority match is never taken over a
   * higher-priority one. None only when no strategy finds anything.
   */
  function SelectContainer(doc: Node): (r: Option<Node>)
    ensures r.None? <==> forall k :: 0 <= k < |Strategies| ==> Find(doc, Strategies[k]).None?
    ensures r.Some? ==>
      exists k :: 0 <= k < |Strategies| && r == Find(doc, Strategies[k]) &&
        forall j :: 0 <= j < k ==> Find(doc, Strategies[j]).None?
  {
    Or(Find(doc, Strategies[0]),
      Or(Find(doc, Strategies[1]),
        Or(Find(doc, Strategies[2]),
          Find(doc, Strategies[3]))))
  }

  /**
   * In terms of `find_all`: the container is the first element, in document
   * order, of the first strategy that has any match at all; it lies inside
   * the document and matches that strategy.
   */
  lemma ContainerIsFirstOfFirstStrategy(doc: Node)
    ensures SelectContainer(doc).None? <==>
      forall k :: 0 <= k < |Strategies| ==> FindAll(doc, Strategies[k]) == []
    ensures SelectContainer(doc).Some? ==>
      exists k :: 0 <= k < |Strategies| && FindAll(doc, Strategies[k]) != [] &&
        SelectContainer(doc).value == FindAll(doc, Strategies[k])[0] &&
        (forall j :: 0 <= j < k ==> FindAll(doc, Strategies[j]) == [])
    ensures SelectContainer(doc).Some? ==> SelectContainer(doc).value in Descendants(doc)
  {
    forall k | 0 <= k < |Strategies| ensures Find(doc, Strategies[k]) == First(FindAll(doc, Strategies[k])) {
      FindIsFirstMatch(doc, Strategies[k]);
    }
    if SelectContainer(doc).Some? {
      var k :| 0 <= k < |Strategies| && SelectContainer(doc) == Find(doc, Strategies[k]) &&
        forall j :: 0 <= j < k ==> Find(doc, Strategies[j]).None?;
      FindIsFirstMatch(doc, Strategies[k]);
    }
  }

  /** The paragraphs of `ps` whose raw text is longer than 45 characters, in their order. */
  function LongParagraphs(ps: seq<Node>): (r: seq<Node>)
    ensures forall p :: p in r <==> p in ps && |GetText(p)| > MinParagraphLength
    ensures IsSubseq(r, ps)
    ensures forall p :: multiset(r)[p] == (if |GetText(p)| > MinParagraphLength then multiset(ps)[p] else 0)
  {
    if ps == [] then []
    else
      assert ps == [ps[0]] + ps[1..];
      if |GetText(ps[0])| > MinParagraphLength then
        var r := [ps[0]] + LongParagraphs(ps[1..]);
        assert r[1..] == LongParagraphs(ps[1..]);
        r
      else LongParagraphs(ps[1..])
  }

  /** `[p.get_text(strip=True) for p in ps]`. */
  function StrippedTexts(ps: seq<Node>): (r: seq<string>)
    ensures |r| == |ps|
    ensures forall i :: 0 <= i < |ps| ==> r[i] == StrippedText(ps[i])
  {
    if ps == [] then []
    else
      var rest := StrippedTexts(ps[1..]);
      assert forall i :: 1 <= i < |ps| ==> ([StrippedText(ps[0])] + rest)[i] == rest[i - 1];
      [StrippedText(ps[0])] + rest
  }

  /** The `<p>` elements of the container whose raw text is long enough, in document order. */
  function KeptParagraphs(container: Node): seq<Node>
  {
    LongParagraphs(FindAll(container, ByTag("p")))
  }

  /** The list comprehension of app.py line 55: one stripped fragment per kept paragraph. */
  function Fragments(container: Node): seq<string>
  {
    StrippedTexts(KeptParagraphs(container))
  }

  /**
   * `"\n\n".join(p_list)`. It is empty exactly when at most one paragraph is
   * kept and that one strips to nothing; in particular it is empty when no
   * paragraph is long enough, and never empty with two or more.
   */
  function ParagraphText(container: Node): (r: string)
    ensures r == [] <==>
      |KeptParagraphs(container)| <= 1 &&
      forall p :: p in KeptParagraphs(container) ==> StrippedText(p) == []
    ensures KeptParagraphs(container) == [] ==> r == []
  {
    JoinEmptyIff(Separator, Fragments(container));
    var ks := KeptParagraphs(container);
    assert |ks| == 1 ==> forall p :: p in ks ==> p == ks[0];
    Join(Separator, Fragments(container))
  }

  /**
   * The kept paragraphs are exactly the `<p>` descendants of the container
   * whose raw text is longer than 45 characters, each as often as it occurs
   * and in document order; a paragraph of raw length 45 or less is dropped.
   */
  lemma KeptParagraphsAreLong(container: Node)
    ensures forall p :: p in KeptParagraphs(container) <==>
      p in Descendants(container) && p.Element? && p.tag == "p" && |GetText(p)| > MinParagraphLength
    ensures forall p :: (multiset(KeptParagraphs(container))[p] ==
      if p.Element? && p.tag == "p" && |GetText(p)| > MinParagraphLength then multiset(Descendants(container))[p] else 0)
    ensures IsSubseq(KeptParagraphs(container), FindAll(container, ByTag("p")))
  {
    var ps := FindAll(container, ByTag("p"));
    FindAllInDocumentOrder(container, ByTag("p"));
    forall p ensures multiset(KeptParagraphs(container))[p] ==
      (if p.Element? && p.tag == "p" && |GetText(p)| > MinParagraphLength then multiset(Descendants(container))[p] else 0)
    {
      assert multiset(ps)[p] == if Matches(p, ByTag("p")) then multiset(Descendants(container))[p] else 0;
    }
  }

  /**
   * One fragment per kept paragraph, in the same order: its `get_text(strip=True)`,
   * never longer than its raw text and empty only when that text is all whitespace.
   */
  lemma FragmentsAreStrippedParagraphs(container: Node)
    ensures |Fragments(container)| == |KeptParagraphs(container)|
    ensures forall i :: 0 <= i < |Fragments(container)| ==>
      Fragments(container)[i] == StrippedText(KeptParagraphs(container)[i])
    ensures forall i :: 0 <= i < |Fragments(container)| ==>
      |Fragments(container)[i]| <= |GetText(KeptParagraphs(container)[i])| &&
      (Fragments(container)[i] == [] <==> AllSpace(GetText(KeptParagraphs(container)[i])))
  {
    forall i | 0 <= i < |Fragments(container)|
      ensures |Fragments(container)[i]| <= |GetText(KeptParagraphs(container)[i])| &&
        (Fragments(container)[i] == [] <==> AllSpace(GetText(KeptParagraphs(container)[i])))
    {
      var p := KeptParagraphs(container)[i];
      assert Fragments(container)[i] == StrippedText(p);
    }
  }

  /**
   * The joined text holds every fragment and a blank line between
   * consecutive fragments, and nothing else.
   */
  lemma ParagraphTextLength(container: Node)
    requires Fragments(container) != []
    ensures |ParagraphText(container)| ==
      TotalLength(Fragments(container)) + 2 * (|Fragments(container)| - 1)
  {
    JoinLength(Separator, Fragments(container));
  }

  /* ---------------- the page fetch ---------------- */

  /** What `requests.get` returns: the status code and the body as the parser reads it (None: the parser raises). */
  datatype Response = Response(status: int, doc: Option<seq<Node>>)

  /** The network: the response each reachable URL gives; a URL outside the map makes `requests.get` raise. */
  type Web = map<string, Response>

  /**
   * What `obtener_contenido_limpio(url)` returns: None when the fetch raises,
   * when the status is not 200, when parsing raises or when no container is
   * found; otherwise the paragraph text of the container chosen in the
   * junk-free page.
   */
  function CleanContent(web: Web, url: string): (r: Option<string>)
    ensures r.Some? ==> url in web && web[url].status == 200 && web[url].doc.Some?
  {
    if url !in web || web[url].status != 200 || web[url].doc.None? then None
    else
      match SelectContainer(PruneByTag(Parse(web[url].doc.value)))
      case None => None
      case Some(c) => Some(ParagraphText(c))
  }

  /**
   * A page yields text only when it was fetched with status 200 and parsed,
   * and then the text comes from a container that is neither junk nor holds
   * any junk: nothing from a nav, header, footer, script, style or aside
   * region can reach the result.
   */
  lemma CleanContentSource(web: Web, url: string)
    ensures CleanContent(web, url).Some? ==>
      url in web && web[url].status == 200 && web[url].doc.Some? &&
      var page := PruneByTag(Parse(web[url].doc.value));
      exists c :: c in Descendants(page) && !IsJunk(c) &&
        (forall d :: d in Descendants(c) ==> !IsJunk(d)) &&
        CleanContent(web, url) == Some(ParagraphText(c))
    ensures url in web && web[url].status != 200 ==> CleanContent(web, url).None?
  {
    if CleanContent(web, url).Some? {
      var page := PruneByTag(Parse(web[url].doc.value));
      var c := SelectContainer(page).value;
      ContainerIsFirstOfFirstStrategy(page);
      forall d | d in Descendants(c) ensures !IsJunk(d) {
        DescendantTrans(page, c, d);
      }
    }
  }

  /**
   * `obtener_contenido_limpio(url)`: fetch, check the status, parse, decompose
   * the junk elements in place, select the container and filter its
   * paragraphs. Every failure ends in None; nothing escapes to the caller.
   */
  method ExtractCleanContent(web: Web, url: string) returns (r: Option<string>)
    ensures r == CleanContent(web, url)
  {
    if url !in web {
      return None;
    }
    var resp := web[url];
    if resp.status != 200 {
      return None;
    }
    if resp.doc.None? {
      return None;
    }
    var soup := new Soup(resp.doc.value);
    soup.PruneJunk();
    var contenedor := SelectContainer(soup.root);
    if contenedor.Some? {
      r := Some(ParagraphText(contenedor.value));
    } else {
      r := None;
    }
  }
}
