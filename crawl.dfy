/**
 * The A–Z crawl: for each letter, fetch the site's index page, take at most
 * ten of the selected links, make relative links absolute and keep one record
 * per linked page whose extracted text is not empty.
 */
module Crawl {
  import opened Wrappers
  import opened Dom
  import opened Pruning
  import opened Extraction
  import opened Seqs

  /** The three choices of the sidebar selector. */
  datatype Mode = MedlinePlus | MayoClinic | Universal

  /** The per-mode route: index URL prefix, CSS selector of the topic links, index URL suffix. */
  datatype Config = Config(urlBase: string, selector: string, suffix: string)

  /** The mode's configuration; Universal mode has no `url_base`, so nothing is crawled. */
  function Configure(modo: Mode): (r: Option<Config>)
    ensures r.None? <==> modo == Universal
  {
    match modo
    case MedlinePlus => Some(Config("https://medlineplus.gov/spanish/healthtopics_", "section li a", ".html"))
    case MayoClinic => Some(Config("https://www.mayoclinic.org/es/diseases-conditions/index?letter=", ".index ol li a", ""))
    case Universal => None
  }

  /** The key space, in processing order. */
  const Letters: string := "abc"

  /** At most this many links are followed per letter. */
  const LinkLimit: nat := 10

  /** `f"{url_base}{letra}{suffix}"`: the base, then the letter, then the suffix. */
  function IndexUrl(cfg: Config, letra: char): (r: string)
    ensures |r| == |cfg.urlBase| + 1 + |cfg.suffix|
    ensures r[..|cfg.urlBase|] == cfg.urlBase && r[|cfg.urlBase|] == letra && r[|cfg.urlBase| + 1..] == cfg.suffix
  {
    cfg.urlBase + [letra] + cfg.suffix
  }

  /** Different letters get different index pages. */
  lemma IndexUrlInjective(cfg: Config, a: char, b: char)
    requires IndexUrl(cfg, a) == IndexUrl(cfg, b)
    ensures a == b
  {
    assert IndexUrl(cfg, a)[|cfg.urlBase|] == a;
  }

  /** The host put in front of a root-relative link: Mayo Clinic's in Mayo mode, MedlinePlus's otherwise. */
  function Host(modo: Mode): (r: string)
    ensures |r| > 8 && r[..8] == "https://" && r[|r| - 1] != '/'
  {
    if modo == MayoClinic then "https://www.mayoclinic.org" else "https://medlineplus.gov"
  }

  /** A link that starts with `/` gets the mode's host in front; any other link is used as it is. */
  function ResolveHref(modo: Mode, href: string): (r: string)
    ensures |href| <= |r| && r[|r| - |href|..] == href
    ensures href != [] && href[0] == '/' ==> |r| == |Host(modo)| + |href| && r[..|Host(modo)|] == Host(modo)
    ensures !(href != [] && href[0] == '/') ==> r == href
  {
    if href != [] && href[0] == '/' then Host(modo) + href else href
  }

  /** A resolved link never starts with `/`, so resolving it again changes nothing. */
  lemma ResolveHrefIdempotent(modo: Mode, href: string)
    ensures var r := ResolveHref(modo, href); (r != [] ==> r[0] != '/') && ResolveHref(modo, r) == r
  {
    if href != [] && href[0] == '/' {
      assert ResolveHref(modo, href)[0] == Host(modo)[0];
    }
  }

  /** `letra.upper()` for the ASCII letters of the key space. */
  function UpperLetter(c: char): (r: char)
    ensures 'a' <= c <= 'z' ==> 'A' <= r <= 'Z' && r as int == c as int - 32
    ensures !('a' <= c <= 'z') ==> r == c
  {
    if 'a' <= c <= 'z' then (c as int - 32) as char else c
  }

  /** One row of the result table: Letra, Tema, Contenido, URL. */
  datatype Record = Record(letra: string, tema: string, contenido: string, url: string)

  /** The text `obtener_contenido_limpio` gives for each URL of the network `web`. */
  function PageText(web: Web): string -> Option<string>
  {
    url => CleanContent(web, url)
  }

  /**
   * One index link: skipped when it has no `href` or an empty one; otherwise
   * the record for its page, kept only when the text `extract` gives for the
   * page is not empty. The record holds that text, the resolved URL, the
   * link's stripped text and the upper-cased letter.
   */
  function LinkRecord(modo: Mode, extract: string -> Option<string>, letra: char, link: Node): (r: Option<Record>)
    ensures Attr(link, "href").None? || Attr(link, "href").value == [] ==> r.None?
    ensures r.Some? ==>
      r.value.url == ResolveHref(modo, Attr(link, "href").value) && r.value.contenido != [] &&
      r.value.tema == StrippedText(link) && r.value.letra == [UpperLetter(letra)]
  {
    var href := Attr(link, "href");
    if href.None? || href.value == [] then None
    else
      var fullUrl := ResolveHref(modo, href.value);
      var texto := extract(fullUrl);
      if texto.Some? && texto.value != [] then
        Some(Record([UpperLetter(letra)], StrippedText(link), texto.value, fullUrl))
      else None
  }

  /**
   * A link yields a record exactly when its `href` is non-empty and the text
   * extracted for the resolved URL is non-empty; the record then holds that text.
   */
  lemma LinkRecordIff(modo: Mode, extract: string -> Option<string>, letra: char, link: Node)
    ensures var r := LinkRecord(modo, extract, letra, link);
      (r.Some? <==>
        Attr(link, "href").Some? && Attr(link, "href").value != [] &&
        var t := extract(ResolveHref(modo, Attr(link, "href").value)); t.Some? && t.value != []) &&
      (r.Some? ==> extract(r.value.url) == Some(r.value.contenido))
  {
  }

  /** An optional record as the list of records it appends: `[rec]` or nothing. */
  function AsList(r: Option<Record>): seq<Record>
  {
    if r.Some? then [r.value] else []
  }

  /** The records appended for one link. */
  function LinkStep(modo: Mode, extract: string -> Option<string>, letra: char): Node -> seq<Record>
  {
    link => AsList(LinkRecord(modo, extract, letra, link))
  }

  /** The records appended while going through `links`, in link order. */
  function LinkRecords(modo: Mode, extract: string -> Option<string>, letra: char, links: seq<Node>): seq<Record>
  {
    ConcatMap(LinkStep(modo, extract, letra), links)
  }

  /** `links[:n]`. */
  function Take(links: seq<Node>, n: nat): (r: seq<Node>)
    ensures |r| == if |links| <= n then |links| else n
    ensures r == links[..|r|]
  {
    if |links| <= n then links else links[..n]
  }

  /**
   * The links followed for one letter: None when fetching or parsing its
   * index page raises; otherwise the first ten links the selector picks.
   * The index page's status code is not checked.
   */
  function IndexLinks(cfg: Config, web: Web, select: (Node, string) -> seq<Node>, letra: char): (r: Option<seq<Node>>)
    ensures r.None? <==> IndexUrl(cfg, letra) !in web || web[IndexUrl(cfg, letra)].doc.None?
    ensures r.Some? ==> |r.value| <= LinkLimit
    ensures r.Some? ==>
      var all := select(Parse(web[IndexUrl(cfg, letra)].doc.value), cfg.selector);
      |r.value| == (if |all| <= LinkLimit then |all| else LinkLimit) && r.value == all[..|r.value|]
  {
    var target := IndexUrl(cfg, letra);
    if target !in web || web[target].doc.None? then None
    else Some(Take(select(Parse(web[target].doc.value), cfg.selector), LinkLimit))
  }

  /** The records of one letter: none when its index page raises (the rest of the letter is abandoned). */
  function LetterRecords(modo: Mode, cfg: Config, web: Web, select: (Node, string) -> seq<Node>,
                         extract: string -> Option<string>, letra: char): seq<Record>
  {
    match IndexLinks(cfg, web, select, letra)
    case None => []
    case Some(links) => LinkRecords(modo, extract, letra, links)
  }

  function LetterStep(modo: Mode, cfg: Config, web: Web, select: (Node, string) -> seq<Node>,
                      extract: string -> Option<string>): char -> seq<Record>
  {
    letra => LetterRecords(modo, cfg, web, select, extract, letra)
  }

  /** The records of the letters `letras`, processed in order. */
  function RecordsFor(modo: Mode, cfg: Config, web: Web, select: (Node, string) -> seq<Node>,
                      extract: string -> Option<string>, letras: string): seq<Record>
  {
    ConcatMap(LetterStep(modo, cfg, web, select, extract), letras)
  }

  /** What one press of the start button collects. */
  function CrawlRecords(modo: Mode, web: Web, select: (Node, string) -> seq<Node>): (r: seq<Record>)
    ensures modo == Universal ==> r == []
    ensures |r| <= LinkLimit * |Letters|
  {
    match Configure(modo)
    case None => []
    case Some(cfg) =>
      RecordsForBound(modo, cfg, web, select, PageText(web), Letters);
      RecordsFor(modo, cfg, web, select, PageText(web), Letters)
  }

  /* ---------------- the driver ---------------- */

  /**
   * The crawl block of the start button: `datos` only grows by appending.
   * The page fetches are `web`, and the CSS `select` of the index pages is
   * `select`.
   */
  method RunCrawl(modo: Mode, web: Web, select: (Node, string) -> seq<Node>) returns (datos: seq<Record>)
    ensures datos == CrawlRecords(modo, web, select)
    ensures modo == Universal ==> datos == []
  {
    datos := [];
    var config := Configure(modo);
    if config.None? {
      return;
    }
    var cfg := config.value;
    var letras := Letters;
    ghost var step := LetterStep(modo, cfg, web, select, PageText(web));
    for i := 0 to |letras|
      invariant datos == ConcatMap(step, letras[..i])
    {
      ConcatMapStep(step, letras, i);
      datos := CrawlLetter(modo, cfg, web, select, letras[i], datos);
    }
    assert letras[..|letras|] == letras;
  }

  /**
   * The body of the letter loop: fetch and parse the index page and select
   * its links (all inside the `try`), then go through at most ten of them.
   */
  method CrawlLetter(modo: Mode, cfg: Config, web: Web, select: (Node, string) -> seq<Node>, letra: char,
                     datos0: seq<Record>) returns (datos: seq<Record>)
    ensures datos == datos0 + LetterRecords(modo, cfg, web, select, PageText(web), letra)
  {
    var links := FetchIndex(cfg, web, select, letra);
    if links.None? {
      return datos0;   // `except: continue`
    }
    datos := CrawlLinks(modo, web, letra, links.value, datos0);
  }

  /**
   * `requests.get(target)`, `BeautifulSoup(r.content)`, `soup.select(selector)`
   * and `links[:10]`; None when the fetch or the parser raises.
   */
  method FetchIndex(cfg: Config, web: Web, select: (Node, string) -> seq<Node>, letra: char)
    returns (links: Option<seq<Node>>)
    ensures links == IndexLinks(cfg, web, select, letra)
    ensures links.Some? ==> |links.value| <= LinkLimit
  {
    var target := IndexUrl(cfg, letra);
    if target !in web || web[target].doc.None? {
      return None;
    }
    var soup := new Soup(web[target].doc.value);
    var all := select(soup.root, cfg.selector);
    links := Some(Take(all, LinkLimit));
  }

  /** The link loop: one record appended for each link whose page has text, in link order. */
  method CrawlLinks(modo: Mode, web: Web, letra: char, links: seq<Node>, datos0: seq<Record>)
    returns (datos: seq<Record>)
    ensures datos == datos0 + LinkRecords(modo, PageText(web), letra, links)
  {
    var nuevos: seq<Record> := [];
    for j := 0 to |links|
      invariant nuevos == LinkRecords(modo, PageText(web), letra, links[..j])
    {
      var rec := CrawlLink(modo, web, letra, links[j]);
      LinkRecordsStep(modo, PageText(web), letra, links, j);
      nuevos := nuevos + AsList(rec);
    }
    assert links[..|links|] == links;
    datos := datos0 + nuevos;
  }

  /**
   * The body of the link loop: None where the source does `continue` (no
   * `href`) or appends nothing (the page gave no text), otherwise the record
   * it appends.
   */
  method CrawlLink(modo: Mode, web: Web, letra: char, l: Node) returns (rec: Option<Record>)
    ensures rec == LinkRecord(modo, PageText(web), letra, l)
  {
    var nombre := StrippedText(l);
    var href := Attr(l, "href");
    if href.None? || href.value == [] {
      return None;
    }
    var fullUrl := ResolveHref(modo, href.value);
    var texto := ExtractCleanContent(web, fullUrl);
    assert PageText(web)(fullUrl) == texto;
    if texto.Some? && texto.value != [] {
      rec := Some(Record([UpperLetter(letra)], nombre, texto.value, fullUrl));
    } else {
      rec := None;
    }
  }

  /* ---------------- properties of the crawl ---------------- */

  /**
   * Link records keep link order and are never merged: the records of
   * `xs + ys` are those of `xs`, then those of `ys`; a link listed twice
   * gives its record twice.
   */
  lemma LinkRecordsAppend(modo: Mode, extract: string -> Option<string>, letra: char, xs: seq<Node>, ys: seq<Node>)
    ensures LinkRecords(modo, extract, letra, xs + ys) ==
      LinkRecords(modo, extract, letra, xs) + LinkRecords(modo, extract, letra, ys)
  {
    ConcatMapAppend(LinkStep(modo, extract, letra), xs, ys);
  }

  /** The link loop's step: the records of one more link are its record, if any. */
  lemma LinkRecordsStep(modo: Mode, extract: string -> Option<string>, letra: char, links: seq<Node>, j: nat)
    requires j < |links|
    ensures LinkRecords(modo, extract, letra, links[..j + 1]) ==
      LinkRecords(modo, extract, letra, links[..j]) + AsList(LinkRecord(modo, extract, letra, links[j]))
  {
    ConcatMapStep(LinkStep(modo, extract, letra), links, j);
  }

  /** No deduplication: a link listed twice gives its record twice. */
  lemma RepeatedLinkRepeatsRecord(modo: Mode, extract: string -> Option<string>, letra: char, link: Node, rec: Record)
    requires LinkRecord(modo, extract, letra, link) == Some(rec)
    ensures LinkRecords(modo, extract, letra, [link, link]) == [rec, rec]
  {
    LinkRecordsAppend(modo, extract, letra, [link], [link]);
    assert [link] + [link] == [link, link];
    assert [link][..0] == [];
  }

  /**
   * A letter whose index page cannot be fetched or parsed only loses its own
   * records: the letters before it keep theirs and the letters after it are
   * still processed.
   */
  lemma FailedLetterIsSkipped(modo: Mode, cfg: Config, web: Web, select: (Node, string) -> seq<Node>,
                              extract: string -> Option<string>, before: string, letra: char, after: string)
    requires IndexUrl(cfg, letra) !in web || web[IndexUrl(cfg, letra)].doc.None?
    ensures RecordsFor(modo, cfg, web, select, extract, before + [letra] + after) ==
      RecordsFor(modo, cfg, web, select, extract, before) + RecordsFor(modo, cfg, web, select, extract, after)
  {
    var f := LetterStep(modo, cfg, web, select, extract);
    ConcatMapAppend(f, before + [letra], after);
    ConcatMapAppend(f, before, [letra]);
    assert [letra][..0] == [];
  }

  /** Every record of a link list is a page with non-empty text, tagged with the upper-cased letter. */
  lemma LinkRecordsWellFormed(modo: Mode, extract: string -> Option<string>, letra: char, links: seq<Node>)
    ensures forall r :: r in LinkRecords(modo, extract, letra, links) ==>
      r.letra == [UpperLetter(letra)] && r.contenido != [] && extract(r.url) == Some(r.contenido)
  {
    forall r | r in LinkRecords(modo, extract, letra, links)
      ensures r.letra == [UpperLetter(letra)] && r.contenido != [] && extract(r.url) == Some(r.contenido)
    {
      ConcatMapFrom(LinkStep(modo, extract, letra), links, r);
    }
  }

  /** Each record of the letters `letras` comes from one of those letters and holds non-empty extracted text. */
  lemma RecordsForWellFormed(modo: Mode, cfg: Config, web: Web, select: (Node, string) -> seq<Node>,
                             extract: string -> Option<string>, letras: string)
    ensures forall r :: r in RecordsFor(modo, cfg, web, select, extract, letras) ==>
      (exists k :: 0 <= k < |letras| && r.letra == [UpperLetter(letras[k])]) &&
      r.contenido != [] && extract(r.url) == Some(r.contenido)
  {
    forall r | r in RecordsFor(modo, cfg, web, select, extract, letras)
      ensures (exists k :: 0 <= k < |letras| && r.letra == [UpperLetter(letras[k])]) &&
        r.contenido != [] && extract(r.url) == Some(r.contenido)
    {
      ConcatMapFrom(LetterStep(modo, cfg, web, select, extract), letras, r);
      var k :| 0 <= k < |letras| && r in LetterRecords(modo, cfg, web, select, extract, letras[k]);
      var links := IndexLinks(cfg, web, select, letras[k]);
      LinkRecordsWellFormed(modo, extract, letras[k], links.value);
    }
  }

  /** One letter gives at most ten records, every one of them lettered with that letter upper-cased. */
  lemma LetterRecordsBound(modo: Mode, cfg: Config, web: Web, select: (Node, string) -> seq<Node>,
                           extract: string -> Option<string>, letra: char)
    ensures |LetterRecords(modo, cfg, web, select, extract, letra)| <= LinkLimit
    ensures forall r :: r in LetterRecords(modo, cfg, web, select, extract, letra) ==> r.letra == [UpperLetter(letra)]
  {
    var links := IndexLinks(cfg, web, select, letra);
    if links.Some? {
      forall l | l in links.value ensures |LinkStep(modo, extract, letra)(l)| <= 1 {
      }
      ConcatMapBound(LinkStep(modo, extract, letra), links.value, 1);
      LinkRecordsWellFormed(modo, extract, letra, links.value);
    }
  }

  /** At most ten records per letter, so at most ten times as many records as letters. */
  lemma RecordsForBound(modo: Mode, cfg: Config, web: Web, select: (Node, string) -> seq<Node>,
                        extract: string -> Option<string>, letras: string)
    ensures |RecordsFor(modo, cfg, web, select, extract, letras)| <= LinkLimit * |letras|
  {
    forall letra | letra in letras
      ensures |LetterStep(modo, cfg, web, select, extract)(letra)| <= LinkLimit
    {
      LetterRecordsBound(modo, cfg, web, select, extract, letra);
    }
    ConcatMapBound(LetterStep(modo, cfg, web, select, extract), letras, LinkLimit);
  }

  /**
   * A crawl's records are three consecutive runs, lettered A, then B, then C,
   * each at most ten long.
   */
  lemma CrawlRecordsPerLetter(modo: Mode, web: Web, select: (Node, string) -> seq<Node>)
    ensures exists a: seq<Record>, b: seq<Record>, c: seq<Record> ::
      CrawlRecords(modo, web, select) == a + b + c &&
      |a| <= LinkLimit && |b| <= LinkLimit && |c| <= LinkLimit &&
      (forall r :: r in a ==> r.letra == "A") &&
      (forall r :: r in b ==> r.letra == "B") &&
      (forall r :: r in c ==> r.letra == "C")
  {
    if modo == Universal {
      var e: seq<Record> := [];
      assert CrawlRecords(modo, web, select) == e + e + e;
    } else {
      var cfg := Configure(modo).value;
      var f := LetterStep(modo, cfg, web, select, PageText(web));
      var a, b, c := f('a'), f('b'), f('c');
      LetterRecordsBound(modo, cfg, web, select, PageText(web), 'a');
      LetterRecordsBound(modo, cfg, web, select, PageText(web), 'b');
      LetterRecordsBound(modo, cfg, web, select, PageText(web), 'c');
      assert [UpperLetter('a')] == "A" && [UpperLetter('b')] == "B" && [UpperLetter('c')] == "C";
      assert Letters[..2] == "ab" && "ab"[..1] == "a" && "a"[..0] == "";
      assert ConcatMap(f, "a") == a;
      assert ConcatMap(f, "ab") == a + b;
      assert ConcatMap(f, Letters) == a + b + c;
      assert CrawlRecords(modo, web, select) == a + b + c;
    }
  }

  /** Records grouped by letter: every `letra` is one character and they never decrease. */
  predicate LetterSorted(rs: seq<Record>)
  {
    forall i, j :: 0 <= i < j < |rs| ==> |rs[i].letra| == 1 && |rs[j].letra| == 1 && rs[i].letra[0] <= rs[j].letra[0]
  }

  /** Appending the records of a letter no smaller than any earlier one keeps the grouping. */
  lemma LetterSortedAppend(head: seq<Record>, tail: seq<Record>, c: char)
    requires LetterSorted(head)
    requires forall r :: r in head ==> |r.letra| == 1 && r.letra[0] <= c
    requires forall r :: r in tail ==> r.letra == [c]
    ensures LetterSorted(head + tail)
  {
    var rs := head + tail;
    forall i, j | 0 <= i < j < |rs|
      ensures |rs[i].letra| == 1 && |rs[j].letra| == 1 && rs[i].letra[0] <= rs[j].letra[0]
    {
      if j < |head| {
        assert rs[i] == head[i] && rs[j] == head[j];
      } else if i >= |head| {
        assert rs[i] in tail && rs[j] in tail;
      } else {
        assert rs[i] in head && rs[j] in tail;
      }
    }
  }

  /** With the letters in alphabetical order, records come out grouped by letter in that order. */
  lemma {:induction false} RecordsForSorted(modo: Mode, cfg: Config, web: Web, select: (Node, string) -> seq<Node>,
                                            extract: string -> Option<string>, letras: string)
    requires forall k :: 0 <= k < |letras| ==> 'a' <= letras[k] <= 'z'
    requires forall i, j :: 0 <= i < j < |letras| ==> letras[i] <= letras[j]
    ensures LetterSorted(RecordsFor(modo, cfg, web, select, extract, letras))
    decreases |letras|
  {
    if letras != [] {
      var init, last := letras[..|letras| - 1], letras[|letras| - 1];
      RecordsForSorted(modo, cfg, web, select, extract, init);
      RecordsForWellFormed(modo, cfg, web, select, extract, init);
      var head := RecordsFor(modo, cfg, web, select, extract, init);
      var tail := LetterRecords(modo, cfg, web, select, extract, last);
      var links := IndexLinks(cfg, web, select, last);
      if links.Some? {
        LinkRecordsWellFormed(modo, extract, last, links.value);
      }
      forall r | r in head
        ensures |r.letra| == 1 && r.letra[0] <= UpperLetter(last)
      {
        var k :| 0 <= k < |init| && r.letra == [UpperLetter(init[k])];
        assert init[k] == letras[k] <= last;
      }
      LetterSortedAppend(head, tail, UpperLetter(last));
    }
  }

  /** The letters of the key space upper-case to A, B and C. */
  lemma LettersUpper(k: nat)
    requires k < |Letters|
    ensures [UpperLetter(Letters[k])] in {"A", "B", "C"}
  {
    if k == 0 {
      assert [UpperLetter(Letters[k])] == "A";
    } else if k == 1 {
      assert [UpperLetter(Letters[k])] == "B";
    } else {
      assert [UpperLetter(Letters[k])] == "C";
    }
  }

  /**
   * What a crawl produces, beyond the bound and the Universal case that
   * `CrawlRecords` states: records lettered A, B or C, grouped by letter in
   * alphabetical order, each holding the non-empty text that extraction
   * gives for its URL.
   */
  lemma CrawlRecordsProperties(modo: Mode, web: Web, select: (Node, string) -> seq<Node>)
    ensures var rs := CrawlRecords(modo, web, select);
      forall r :: r in rs ==>
        r.letra in {"A", "B", "C"} && r.contenido != [] && CleanContent(web, r.url) == Some(r.contenido)
    ensures LetterSorted(CrawlRecords(modo, web, select))
  {
    if modo != Universal {
      var cfg := Configure(modo).value;
      var rs := RecordsFor(modo, cfg, web, select, PageText(web), Letters);
      RecordsForWellFormed(modo, cfg, web, select, PageText(web), Letters);
      RecordsForSorted(modo, cfg, web, select, PageText(web), Letters);
      forall r | r in rs
        ensures r.letra in {"A", "B", "C"} && r.contenido != [] && CleanContent(web, r.url) == Some(r.contenido)
      {
        var k :| 0 <= k < |Letters| && r.letra == [UpperLetter(Letters[k])];
        assert PageText(web)(r.url) == CleanContent(web, r.url);
        LettersUpper(k);
      }
    }
  }
}
