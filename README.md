# Medical topic scraper — a verified model of its extraction core

The application crawls an A–Z index of medical topics (MedlinePlus in Spanish
or Mayo Clinic in Spanish), follows at most ten topic links per letter, and
for each linked page extracts "clean" text: the page is parsed, its junk
regions (`nav`, `header`, `footer`, `script`, `style`, `aside`) are
decomposed in place, a content container is chosen through a fixed fallback
chain (`div#topic-summary`, then `article`, then `div.content`, then `main`),
and the `<p>` elements of that container whose raw text is longer than 45
characters are stripped and joined with a blank line. One record (letter,
topic, text, URL) is kept for every page whose text is not empty.

The model is split as the program is:

- `text.dfy` (`Text`): Python's `str.strip()` (Unicode whitespace, as
  `str.isspace()`) and `str.join`.
- `dom.dfy` (`Dom`): the parsed page as a tree of values; `find`, `find_all`,
  `get_text()` and `get_text(strip=True)`.
- `pruning.dfy` (`Pruning`): element identity, the in-place `decompose()`
  pass over the junk elements (class `Soup`), and the tag-based reference
  definition of the pruned page it is proved against.
- `extraction.dfy` (`Extraction`): `obtener_contenido_limpio` — container
  selection, paragraph filtering and joining, and the fetch with its failure
  paths.
- `crawl.dfy` (`Crawl`): the crawl block of the start button — mode
  configuration, index URLs, `links[:10]`, resolution of relative links and
  the record list.
- `seqs.dfy` (`Seqs`), `wrappers.dfy` (`Wrappers`): order-preserving
  subsequences, accumulation over a list, and `Option`.

The network is a value `web: map<string, Response>`: a URL outside the map
makes `requests.get` raise, and a response whose `doc` is `None` makes the
parser raise. The CSS `select` of the index pages is a parameter.

## Model

| member | source | states |
|---|---|---|
| Text.Strip | app.py:55 | `strip()` returns a slice of its input with only whitespace cut at both ends; the result neither starts nor ends with whitespace; it is empty exactly when the input is all whitespace |
| Text.StripUntrimmed | app.py:55 | a string with no whitespace at either end is left unchanged by `strip()` |
| Text.AllSpaceConcat | app.py:55 | a concatenation of texts is all whitespace exactly when every one of the texts is |
| Text.Join | app.py:56 | `"\n\n".join(xs)` is empty for no pieces, and otherwise starts with the first piece and ends with the last |
| Text.JoinLength | app.py:56 | `"\n\n".join(xs)` holds every piece plus one separator between consecutive pieces |
| Text.JoinEmptyIff | app.py:56 | with a non-empty separator, the join is empty exactly when there is at most one piece and it is empty |
| Text.JoinSnoc | app.py:56 | joining one more piece appends a separator and that piece |
| Dom.Attr | app.py:103 | `tag.get(name)` is present exactly when the node is an element carrying that attribute, and then is that attribute's value |
| Dom.Filter | app.py:55 | a filtered list keeps exactly the elements that match, and is never longer |
| Dom.FilterKeepsOccurrences | app.py:55 | a filtered list keeps every matching element as often as it occurs, drops every other one, and keeps their order |
| Dom.FilterAppend | app.py:55 | filtering preserves order: it distributes over concatenation |
| Dom.FindAll | app.py:55 | `find_all` lists exactly the matching descendants |
| Dom.FindAllInDocumentOrder | app.py:55 | `find_all` lists each matching descendant as often as it occurs below the node, in document order |
| Dom.Find | app.py:48-51 | what `find` returns is a matching descendant |
| Dom.FindIsFirstMatch | app.py:48-51 | `find` returns the first element `find_all` would list, a matching descendant, and None exactly when no descendant matches |
| Dom.DescendantTrans | app.py:54-55 | a descendant of a descendant is a descendant |
| Dom.GetText | app.py:55 | `get_text()` of a text node is its text; of an element, as long as all its text leaves together |
| Dom.GetTextOfChildren | app.py:55 | `get_text()` of an element is the `get_text()` of its children, concatenated in document order |
| Dom.StripPieces | app.py:55 | every text piece kept by `get_text(strip=True)` is non-empty with non-space ends, and there are never more than the leaves |
| Dom.StripPiecesEmptyIff | app.py:55 | stripping the text leaves nothing exactly when every text leaf is whitespace |
| Dom.StripPiecesAppend | app.py:55 | text leaves are stripped one at a time, in document order |
| Dom.StripPiecesSingle | app.py:55 | a single text leaf is dropped when it is all whitespace and otherwise kept as its `strip()`; with StripPiecesAppend this fixes the stripped list for every list of leaves |
| Dom.StrippedTextLeaf | app.py:55 | `get_text(strip=True)` of a text leaf is that text's `strip()` |
| Dom.StrippedTextOfChildren | app.py:55 | `get_text(strip=True)` of an element is its children's `get_text(strip=True)`, concatenated in document order with no separator |
| Dom.StrippedTextDropsInnerSpace | app.py:55 | on `<p>a <b>b</b></p>`, `get_text(strip=True)` is "ab" whereas `get_text().strip()` is "a b": the whitespace between leaves is lost |
| Dom.StrippedText | app.py:55 | `get_text(strip=True)` is empty exactly when `get_text()` is all whitespace, is never longer than it, and neither starts nor ends with whitespace |
| Pruning.DropIds | app.py:44 | removing elements by identity keeps the root as it is and leaves no element with a removed identity anywhere below it |
| Pruning.DropIdsTwice | app.py:43-44 | decomposing by identity in two passes is decomposing the union in one |
| Pruning.DropIdsKeepsUnique | app.py:44 | decomposing keeps element identities unique |
| Pruning.RemovedSubtreeGone | app.py:44 | with unique identities, decomposing an element removes its whole subtree: no identity from it is left |
| Pruning.OutsideRemovedSurvives | app.py:44 | every node that is not decomposed and occurs under no decomposed element stays in the page, with the decomposed elements below it cut out |
| Pruning.DropIdsKeepsTextChildren | app.py:44 | decomposing never removes a text leaf directly: every element left keeps each of its text children as often as it had it, even a string that also occurs inside a decomposed subtree |
| Pruning.DropIdsKeepsOrder | app.py:44 | decomposing only removes: the remaining elements and text leaves keep their relative document order |
| Pruning.PruneByTag | app.py:43-44 | removing the junk subtrees keeps the root as it is and leaves no junk element anywhere below it |
| Pruning.DropJunkIsPrune | app.py:43-44 | in a tree with unique identities, removing every element listed by `soup([...junk tags...])` is the same as removing every junk-tagged subtree |
| Pruning.PruneJunkFree | app.py:43-44 | a page with no junk element is left exactly as it is |
| Pruning.OutsideJunkSurvives | app.py:43-44 | every node that is not junk and occurs in no junk subtree is still in the pruned page, pruned of the junk below it |
| Pruning.PruneKeepsTextChildren | app.py:43-44 | pruning never removes a text leaf directly: every element left keeps each of its text children as often as it had it, even a string that also occurs inside a junk subtree |
| Pruning.JunkSubtreeGone | app.py:43-44 | no element of a junk subtree survives pruning, including elements nested under a junk element |
| Pruning.PruneKeepsOrder | app.py:43-44 | pruning only removes: the surviving elements and the surviving text leaves keep their relative document order |
| Pruning.Number | app.py:40 | parsing numbers the elements consecutively in document order and changes nothing else in the tree |
| Pruning.Parse | app.py:40 | the parsed page is the document root with identity 0 and unique element identities, holding the given tree unchanged apart from identities |
| Pruning.Soup.constructor | app.py:40 | `BeautifulSoup(...)` holds the parsed tree |
| Pruning.Soup.Decompose | app.py:44 | `decompose()` of an element below the root removes exactly the element with that identity and its subtree, and keeps identities unique |
| Pruning.Soup.PruneJunk | app.py:43-44 | the decompose loop leaves the page with every junk subtree removed and everything else in place |
| Extraction.SelectContainer | app.py:47-52 | the `or` chain yields the result of the first strategy that finds anything, never a lower-priority one, and None exactly when all four find nothing |
| Extraction.ContainerIsFirstOfFirstStrategy | app.py:47-52 | the container is the first element in document order of the first strategy with any match, and lies inside the page |
| Extraction.LongParagraphs | app.py:55 | the kept paragraphs are exactly those whose raw text is longer than 45 characters, each as often as it occurs, in their original order |
| Extraction.StrippedTexts | app.py:55 | one stripped text per paragraph, position by position |
| Extraction.KeptParagraphsAreLong | app.py:55 | the kept paragraphs are exactly the `<p>` descendants of the container longer than 45 raw characters, each as often as it occurs, in document order |
| Extraction.FragmentsAreStrippedParagraphs | app.py:55 | one fragment per kept paragraph, in order: its `get_text(strip=True)`, never longer than its raw text, empty only when that text is all whitespace |
| Extraction.ParagraphText | app.py:54-56 | the joined text is empty exactly when at most one paragraph is kept and it strips to nothing; no kept paragraph means empty text |
| Extraction.ParagraphTextLength | app.py:56 | the joined text is the fragments plus two characters per blank line between them |
| Extraction.CleanContent | app.py:37-58 | text is returned only for a URL that was fetched with status 200 and parsed |
| Extraction.CleanContentSource | app.py:37-58 | text is returned only for a status-200, parsed page, and comes from a container that is neither junk nor contains junk; a non-200 status gives None |
| Extraction.ExtractCleanContent | app.py:32-58 | fetch, status check, parse, in-place junk removal, container choice and paragraph join give exactly the reference result, every failure ending in None |
| Crawl.Configure | app.py:80-89 | a mode has no route (so nothing is crawled) exactly in Universal mode |
| Crawl.IndexUrl | app.py:95 | the index URL is the base, then the letter, then the suffix |
| Crawl.IndexUrlInjective | app.py:95 | different letters fetch different index pages |
| Crawl.Host | app.py:108-109 | the host put before a root-relative link is an `https://` origin with no trailing `/` |
| Crawl.ResolveHref | app.py:107-110 | a link starting with `/` gets the mode's host in front; any other link is used unchanged; the link is always a suffix of the result |
| Crawl.ResolveHrefIdempotent | app.py:107-110 | a resolved link does not start with `/`, so resolving it again changes nothing |
| Crawl.UpperLetter | app.py:114 | `letra.upper()` on an ASCII letter a–z gives the matching A–Z; the crawled letters are a, b and c |
| Crawl.LettersUpper | app.py:92-114 | the crawled letters upper-case to A, B and C |
| Crawl.LinkRecord | app.py:102-114 | a link with no or an empty `href` gives no record; a record holds the resolved URL, non-empty text, the stripped link text and the upper-cased letter |
| Crawl.LinkRecordIff | app.py:102-114 | a link yields a record exactly when its `href` is non-empty and its page's text is non-empty; the record then holds that text |
| Crawl.Take | app.py:101 | `links[:10]` is the prefix of length min(10, \|links\|) |
| Crawl.IndexLinks | app.py:95-101 | a letter has no links exactly when its index fetch or parse raises; otherwise its links are the first min(10, n) of the n elements the selector picks |
| Crawl.CrawlRecords | app.py:80-116 | a crawl yields nothing in Universal mode and at most thirty records in all |
| Crawl.RunCrawl | app.py:91-116 | the crawl appends exactly the reference records, letter by letter, and nothing in Universal mode |
| Crawl.CrawlLetter | app.py:95-115 | one letter appends its records to what was collected, or nothing when the index fetch or parse raises |
| Crawl.FetchIndex | app.py:97-101 | the index fetch, parse and selection give the capped link list, or None when they raise |
| Crawl.CrawlLinks | app.py:101-114 | the link loop appends one record per link whose page has text, in link order |
| Crawl.CrawlLink | app.py:102-114 | one link gives its record, or nothing when it has no `href` or its page has no text |
| Crawl.LinkRecordsAppend | app.py:101-114 | records follow link order: the records of `xs + ys` are those of `xs` followed by those of `ys` |
| Crawl.LinkRecordsStep | app.py:101-114 | one more link adds its own record, if any, after the earlier ones |
| Crawl.RepeatedLinkRepeatsRecord | app.py:101-114 | records are not deduplicated: a link listed twice gives its record twice |
| Crawl.FailedLetterIsSkipped | app.py:96-115 | a letter whose index page raises loses only its own records; earlier and later letters are unaffected |
| Crawl.LinkRecordsWellFormed | app.py:112-114 | every record holds the upper-cased letter and the non-empty text extracted for its URL |
| Crawl.RecordsForWellFormed | app.py:93-115 | every record comes from one of the crawled letters and holds the non-empty text extracted for its URL |
| Crawl.LetterRecordsBound | app.py:95-115 | one letter gives at most ten records, each lettered with that letter upper-cased |
| Crawl.RecordsForBound | app.py:101 | at most ten times as many records as letters crawled |
| Crawl.CrawlRecordsPerLetter | app.py:92-115 | a crawl's records are a run lettered A, then one lettered B, then one lettered C, each at most ten long |
| Crawl.LetterSortedAppend | app.py:93-114 | appending records of a letter no smaller than all earlier ones keeps the records grouped by letter |
| Crawl.RecordsForSorted | app.py:93-114 | with letters in alphabetical order, the records come out grouped by letter in that order |
| Crawl.CrawlRecordsProperties | app.py:80-116 | every record of a crawl is lettered A, B or C and holds the non-empty clean text of its URL, and the records are grouped by letter in alphabetical order |

## Left out

- The Streamlit interface (sidebar, buttons, status text, progress bar, the
  table and the download button) and `generar_excel`, the Excel export: they
  present results and compute nothing the records depend on.
- HTTP itself: headers, timeouts and the User-Agent strings. A response is
  taken to depend on the URL only; a timeout or connection error is a URL
  outside `web`.
- HTML parsing of bytes: a response body is given as its parsed tree, or as
  `None` when parsing raises. `get_text()` skips comment, doctype, declaration
  and processing-instruction strings; the model's tree holds only the
  strings `get_text()` reads (a CDATA section is an ordinary text leaf), so
  the skipped strings are not represented.
- The CSS selector engine used by `soup.select`: it is a parameter of the
  crawl, so every property holds whatever elements the selector returns.
- UpperLetter: characters outside ASCII a–z are returned unchanged, whereas
  Python's `str.upper()` also maps non-ASCII letters; only 'a', 'b' and 'c'
  ever reach it.
- The mode test `"mayo" in modo.lower()` is modelled as "the mode is Mayo
  Clinic", which agrees on the three modes the selector offers.
- `decompose()` of an element that an earlier `decompose()` already removed
  (a junk element nested in another) is modelled as doing nothing, as it
  leaves the page unchanged in the library.
- The status code of an index page is not checked by the crawl, and the model
  keeps that: a non-200 index page is parsed like any other.
- Exceptions other than a failed fetch or parse (for example running out of
  memory) are not modelled.
