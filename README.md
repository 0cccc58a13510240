# BNU history-figure crawler, modelled in Dafny

The repository crawls the people pages of a site about figures of Beijing Normal
University's history. Starting from a seed name, `get_all_data` visits each profile
page breadth-first through its "related people" list. For every name it builds a
`Person` record from the fields the page yields: related people, introduction,
organisations, subjects, events and portrait. A small web front end (`main.py`) shows
one record as an ordered key/value view and lists the known names.

This project models that core:

- `Crawl.GetAllData` is the crawl loop: the FIFO queue of pending names and the
  insertion-ordered dict of records. Its specification is `Crawl.BreadthFirst`:
  - every key holds the record built from its own page;
  - the keys are the distinct names met, in the order first met, with the seed first
    and the links of each visited page taken in visit order;
  - each key was met on the pages visited before it.

  `Crawl.BreadthFirstUnique` shows that this specification has at most one solution, and
  `GetAllData` returns it when every reachable record builds. A call without a seed
  starts from `Crawl.DEFAULT_SEED` (启功).
- `People.PersonPage` is a class with the two cached downloads (`html`, `jpg`) as
  `Option` fields. A ghost list records the URLs requested, so "each URL at most once"
  is a class invariant.
- `Extract` holds the field rules over the regions a parsed page provides. `PyStr` gives
  Python's `str.strip()` and `str.split()`, whitespace set included. `Dicts` gives
  Python's insertion-ordered `dict` and `dict(pairs)`: a repeated key keeps its first
  position and takes its last value.
- `Frontend` holds `to_json` (as the `ToJson` method and its specification `View`) and
  `get_all_nodes`.

The network is a parameter `site: map<string, Page>`. A page is the parsed document
regions plus the portrait bytes. A name the site has no page for reads as a page
without any of the regions. Its record then fails to build (the related-people
selector finds nothing), so the crawl needs no precondition.

The source is Python. Its exceptions are modelled as `Result` failures: `Extract.Error`
for the field rules, `Frontend.LookupError` for the `people[name]` lookup. The first
exception raised decides the error.

## Model

| member | source | states |
|---|---|---|
| Crawl.GetAllData | core/people.py:92-107 | On success the mapping is the breadth-first crawl from the seed (`BreadthFirst`): records from each key's own page, keys in first-met order, each met before its visit. Every record's `name` is its key and its `url` is the profile prefix followed by the key. Each URL is downloaded at most once: the profile page and the portrait, once per recorded name. On failure, some name reachable from the seed has a page whose record fails with that error. |
| Crawl.Scrape | core/people.py:102-103 | A fresh `PersonPage(name).data` yields the record built from the name's page, after requesting the portrait and then the profile page. |
| Crawl.CrawlSkip | core/people.py:97-99 | Dequeuing a name that is already a key keeps the loop invariant with `people` unchanged. |
| Crawl.CrawlStep | core/people.py:100-104 | Recording a new name and appending its related names that are neither queued nor recorded keeps the loop invariant: the queue after the keys lists exactly the names met so far, first-met order preserved. |
| Crawl.RecordedStep | core/people.py:103 | Adding the record built from a name's own page keeps every key holding the record of its own page. |
| Crawl.QueueStep | core/people.py:97-104 | Dequeuing the head and appending its links that are neither queued nor recorded keeps the queue, after the keys, listing the names met in first-met order, and every queued name met. |
| Crawl.CrawlReaches | core/people.py:97-103 | A name taken from the queue is reachable from the seed, and recording it keeps the downloaded URLs distinct. |
| Crawl.CrawlDone | core/people.py:96-107 | When the queue is empty the mapping is in breadth-first order, its URLs were requested once each, and every record carries its own name and URL. |
| Crawl.CrawlCovers | core/people.py:96-104 | At the head of the loop every name a visited page links to is a key or is still queued. |
| Crawl.VisitStep | core/people.py:103-104 | Visiting a met name adds exactly its page's links to the names met, and every visited name stays met before its visit. |
| Crawl.LinkedSource | core/people.py:104 | A name met through links is on the list of some visited page. |
| Crawl.LinkedContains | core/people.py:104 | Every link of a visited page is among the names met. |
| Crawl.ReachableStep | core/people.py:104 | A link of a reachable name is reachable. |
| Crawl.VisitedReachable | core/people.py:93-104 | Every name visited in that order is reachable from the seed. |
| Crawl.DiscoveredReachable | core/people.py:93-104 | Every name met (queued) is reachable from the seed. |
| Crawl.RequestsAppend | core/people.py:102-103 | Recording one more name adds its portrait URL and then its profile URL to the downloads. |
| Crawl.RequestsFor | core/people.py:13-14 | Every downloaded URL is the profile or portrait URL of a recorded name. |
| Crawl.RequestsDistinct | core/people.py:18-26 | Distinct names give distinct downloads: no URL is requested twice. |
| Crawl.SeedFirst | core/people.py:93-103 | The seed is always the first key. |
| Crawl.LinksClosed | core/people.py:96-104 | A finished visit order is closed under the links of its pages. |
| Crawl.Closed | core/people.py:96-104 | Every `relevant_person` entry of every record is itself a key. |
| Crawl.KeysReachable | core/people.py:93-104 | Every key is reachable from the seed through related-people links. |
| Crawl.ReachableKeys | core/people.py:93-104 | Every name reachable from the seed is a key. |
| Crawl.LinkedPrefix | core/people.py:104 | The names met after a prefix of the visits are a prefix of the names met after all of them. |
| Crawl.MetPrefix | core/people.py:97-104 | In a breadth-first order, the distinct names met on the first j visited pages are a prefix of the keys, and while keys remain unvisited more than j names have been met. |
| Crawl.VisitOrdersAgree | core/people.py:97-104 | Two breadth-first orders from the same seed agree on every common prefix. |
| Crawl.VisitOrderUnique | core/people.py:97-104 | There is only one breadth-first order from a seed. |
| Crawl.BreadthFirstUnique | core/people.py:92-107 | There is only one mapping a successful crawl can return. |
| Crawl.RecordedUnique | core/people.py:103 | Two mappings with the same keys whose records come from the same pages are equal. |
| People.UrlsDistinct | core/people.py:13-14 | Profile URLs and portrait URLs determine the name, and no profile URL is a portrait URL. |
| People.Record | core/people.py:72-76 | The record exists exactly when all five field rules succeed. A failing related-people rule decides the error. On success, `name`, `url` (the profile URL), `jpg` (the portrait bytes) and `relevantPerson` are as the page gives them. |
| People.Fetch | core/people.py:102-103 | The record the crawl builds for a name carries that name and its profile URL. A name the site does not serve fails with the missing-list error. |
| People.PersonPage.constructor | core/people.py:11-14 | A new page has its profile URL, empty caches and no requests made. |
| People.PersonPage.Html | core/people.py:18-21 | The parsed page is the site's page. The profile URL is requested only on first use, and the portrait cache is untouched. |
| People.PersonPage.Jpg | core/people.py:23-26 | The portrait is the site's image. Its URL is requested only on first use, and the page cache is untouched. |
| People.PersonPage.RelevantPerson | core/people.py:34-37 | The result is the related-people rule on the site's page, downloading it at most once. |
| People.PersonPage.Introduction | core/people.py:39-42 | The result is the introduction rule on the site's page, downloading it at most once. |
| People.PersonPage.Apartments | core/people.py:44-51 | The result is the organisations rule on the site's page, downloading it at most once. |
| People.PersonPage.Subjects | core/people.py:53-60 | The result is the subjects rule on the site's page, downloading it at most once. |
| People.PersonPage.Events | core/people.py:62-70 | The result is the events rule (grouping loop, then `dict`) on the site's page, downloading it at most once. |
| People.PersonPage.Data | core/people.py:72-76 | The result is the record of the site's page. The portrait and the page are each requested at most once, portrait first. |
| Extract.RelevantPerson | core/people.py:34-37 | A page without the related-people list raises. Otherwise the rule succeeds exactly when every `li` child has a link, raises the attribute error when one has none, and yields one name per `li`. |
| Extract.RelatedNames | core/people.py:34-37 | The rule succeeds exactly when every `li` child has a link, and otherwise raises the attribute error. It yields one name per `li`. |
| Extract.RelatedNamesOfOne | core/people.py:37 | A single child contributes its link text if it is a `li`, and nothing otherwise. |
| Extract.RelatedNamesConcat | core/people.py:37 | The names of a concatenation of children are the concatenation of their names. |
| Extract.Introduction | core/people.py:39-42 | A missing block raises. Otherwise the text has no surrounding whitespace and is no longer than the block. |
| Extract.IntroductionStrips | core/people.py:42 | The introduction is the block's text less a whitespace prefix and a whitespace suffix, and nothing else. |
| Extract.FirstHeading | core/people.py:47-48 | The first `h4` whose text is exactly the heading, with none matching before it; or none at all. |
| Extract.NextTag | core/people.py:50 | The first tag after the heading, skipping bare strings, as `find_next_sibling()` does. |
| Extract.Apartments | core/people.py:44-51 | A page without a `section` raises the attribute error. Otherwise every organisation is a non-empty token without whitespace. |
| Extract.Subjects | core/people.py:53-60 | A page without a `section` raises the attribute error. Otherwise every subject is a non-empty token without whitespace. |
| Extract.Labelled | core/people.py:44-60 | Every token of the result is non-empty and free of whitespace. |
| Extract.LabelledAbsent | core/people.py:51 | No heading reads the label: the field is `[]`. |
| Extract.FirstHeadingAt | core/people.py:47-49 | A heading with no match before it is the one found. |
| Extract.LabelledFound | core/people.py:47-50 | The field is the whitespace split of the text of the first tag after the first matching heading. |
| Extract.NextTagAt | core/people.py:50 | A tag with no tag before it is the next sibling found. |
| Extract.LabelledMissing | core/people.py:50 | A matching heading with no tag after it raises the attribute error. |
| Extract.Grouped | core/people.py:64-69 | The loop can raise only the index error, and it yields at most one pair per child. |
| Extract.GroupEvents | core/people.py:64-69 | The loop builds exactly `Grouped` of the children: a `dt` opens a pair, a `dd` extends the last one, other nodes are skipped, and a `dd` before any `dt` raises. |
| Extract.GroupedFailureSticks | core/people.py:68-69 | Once the loop has raised, later children do not change the outcome. |
| Extract.GroupedLabels | core/people.py:66-67 | There is one pair per `dt`, labelled with its text, in document order. |
| Extract.NoTermsNoTexts | core/people.py:66 | There are no labels exactly when no child is a `dt`. |
| Extract.GroupedFails | core/people.py:68-69 | The loop raises exactly when some `dd` comes before every `dt`, and then with the index error. |
| Extract.GroupedSegment | core/people.py:66-69 | A `dt` followed by children with no `dt` among them yields one pair: its text with the texts of the `dd`s among them, in order. |
| Extract.Events | core/people.py:62-70 | A page without the event list raises. Otherwise the rule raises only the index error of the loop, and on success is a well-formed dict. |
| Extract.EventsKeys | core/people.py:70 | The labels of `events` are the distinct `dt` texts in order of first occurrence. |
| Extract.EventsValue | core/people.py:70 | A label maps to the details of its last group: a repeated `dt` keeps its first position (`EventsKeys`) but takes the last group's details. |
| PyStr.TrimStart | core/people.py:42 | Only leading whitespace is dropped, and what remains does not start with whitespace. |
| PyStr.TrimEnd | core/people.py:42 | Only trailing whitespace is dropped, and what remains does not end with whitespace. |
| PyStr.Strip | core/people.py:42 | The stripped text neither starts nor ends with whitespace. |
| PyStr.StripIsInfix | core/people.py:42 | The stripped text is an infix of the original, with only whitespace around it. |
| PyStr.StripIdempotent | core/people.py:42 | Stripping twice is stripping once. |
| PyStr.WordLength | core/people.py:50 | The first word ends at the first whitespace character or at the end. |
| PyStr.SplitBlank | core/people.py:50 | `split()` yields no pieces exactly when the text is all whitespace. |
| PyStr.SplitTokens | core/people.py:50 | Every piece of `split()` (`PyStr.Split`) is non-empty and free of whitespace. With `SplitBlank` (no pieces exactly for all-whitespace text), `SplitSkipsSpace` and `SplitToken` this fixes the value of `split()` on every input, and `SplitJoin` is its round trip. |
| PyStr.SqueezeConcat | core/people.py:50 | Removing whitespace distributes over concatenation. |
| PyStr.SqueezeSpace | core/people.py:50 | Removing whitespace from all-whitespace text leaves nothing. |
| PyStr.SqueezeWord | core/people.py:50 | Removing whitespace from a word leaves it unchanged. |
| PyStr.SplitKeepsText | core/people.py:50 | The pieces of `split()`, concatenated, are exactly the text with its whitespace removed. |
| PyStr.WordLengthOfToken | core/people.py:50 | A token followed by whitespace or the end is read as one whole word. |
| PyStr.SplitToken | core/people.py:50 | A token followed by whitespace or the end is the first piece of `split()`. |
| PyStr.SplitSkipsSpace | core/people.py:50 | Leading whitespace does not change `split()`. |
| PyStr.SplitJoin | core/people.py:50 | `split()` inverts joining tokens with single spaces. |
| Seqs.ExtendGrows | core/people.py:103 | Adding keys keeps the earlier ones in place, and the keys are exactly the old and new names. |
| Seqs.ExtendNoDuplicates | core/people.py:103 | An ordered dict's key list never holds a key twice. |
| Seqs.ExtendConcat | core/people.py:103 | Inserting two batches of keys is inserting their concatenation. |
| Seqs.ExtendWithout | core/people.py:104 | Leaving out names already present does not change which keys first occurrences yield. |
| Seqs.DedupConcat | core/people.py:103 | The first occurrences of a concatenation continue those of its first part. |
| Seqs.DedupOfDistinct | core/people.py:103 | A list with no repeats is its own list of first occurrences. |
| Seqs.DedupContents | core/people.py:103 | First occurrences are distinct and cover exactly the original elements. |
| Seqs.DedupPrefix | core/people.py:103 | The first occurrences of a prefix are a prefix of the first occurrences. |
| Seqs.DedupSkip | core/people.py:98 | An element already present earlier can be dropped without changing the first occurrences. |
| Seqs.DedupSingle | core/people.py:93 | A one-element list is its own list of first occurrences. |
| Seqs.WithoutContents | core/people.py:104 | The filtered related names are related names that are neither queued nor visited. |
| Seqs.WithoutKeepsUnseen | core/people.py:104 | The filter tests against the queue as it was before `extend`, so every copy of a name that is neither queued nor recorded survives it: a page that lists a new name several times, in any positions, appends it that many times. |
| Seqs.DedupAppendUnseen | core/people.py:104 | Appending only the unseen related names yields the same first occurrences as appending all of them. |
| Dicts.Empty | core/people.py:94 | `{}` is a dict with no keys. |
| Dicts.Set | core/people.py:103 | `d[k] = v` maps `k` to `v` and leaves other keys alone. A new key goes last and an existing key keeps its place. |
| Dicts.Firsts | core/people.py:70 | There is one key per pair. |
| Dicts.FromPairs | core/people.py:70 | `dict(pairs)` is a well-formed dict. |
| Dicts.FirstsAt | core/people.py:70 | The i-th key is the i-th pair's key. |
| Dicts.FromPairsKeys | core/people.py:70 | The keys of `dict(pairs)` are the distinct pair keys in order of first occurrence. |
| Dicts.FromPairsValue | core/people.py:70 | A key maps to the value of its last pair. |
| Dicts.FromPairsDistinct | core/people.py:70 | With no repeated key, each pair's key maps to that pair's value. |
| Dicts.FromPairsSnoc | main.py:15-23 | `dict` of the pairs plus one more is assignment of that pair to `dict` of the pairs. |
| Frontend.LinkTargetInverts | main.py:16-18 | The name a related-people link points to is read back by `LinkTarget`, and nothing that is not such a link is accepted. |
| Frontend.PersonLinkInjective | main.py:17 | Distinct names give distinct links. |
| Frontend.KeysDistinct | main.py:15-23 | The five view keys are distinct. |
| Frontend.PersonLinks | main.py:16-18 | There is one link per related name, in order, and each reads back as its name. |
| Frontend.View | main.py:13-24 | The view `to_json` returns is a well-formed dict, each key once. Its keys and values are given by `ViewKeys`, `ViewFixed`, `ViewOrganisations` and `ViewSubjects`. |
| Frontend.ToJson | main.py:13-24 | A name that is not a key fails with the key error, and only such a name does. Otherwise the dict built by successive assignments is the view `View` of the record. |
| Frontend.ViewKeys | main.py:15-23 | The view's keys come in order: 简介, 相关人物, 相关机构 only if there are organisations, 相关学科 only if there are subjects, then 相关事件. |
| Frontend.ViewFixed | main.py:15-18 | 简介 holds the introduction unchanged, 相关人物 the links in order, and 相关事件 the events. |
| Frontend.ViewOrganisations | main.py:19-20 | 相关机构 is present exactly when the organisations list is non-empty, and then holds it. |
| Frontend.ViewSubjects | main.py:21-22 | 相关学科 is present exactly when the subjects list is non-empty, and then holds it. |
| Frontend.ViewHas | main.py:15-23 | A key is in the view exactly when it is in the view's key order. |
| Frontend.ViewPairKeys | main.py:15-23 | The assignments use the key order, which has no repeats. |
| Frontend.KeyOrderOptional | main.py:19-22 | The optional keys are in the order exactly when their lists are non-empty. |
| Frontend.GetAllNodes | main.py:44-45 | The known names are the keys of the mapping in insertion order, each once. |
| Frontend.CrawledNodes | main.py:44-45 | After a successful crawl the index lists the seed first, and exactly the names reachable from it. |

## Left out

- The HTTP downloads (`requests.get`) are the `site` parameter. Network errors, timeouts and non-200 answers are not modelled.
- The HTML parser and the positional selectors (`find_all("div")[3]`, `[2]`, `[-1]`, `section`) are not modelled. `Extract.Document` holds the regions they would find, with `None` where a selector would fail.
- The body regions that the `h4` rules read form one flat sequence of headings and siblings, or `None` when the page has no `section`. Nesting of `h4` inside other tags is not modelled.
- The four regions of `Extract.Document` are independent options. On the real site a missing `section` removes all four together, so the related-people rule raises first.
- A name the site does not serve reads as a page without any region. This is an assumption: the real site's answer for such a name is not known here.
- The pickle `dump`/`load` and the load-or-crawl fallback are file I/O and are not modelled.
- `show_image`, `show_all_data` and the Windows DPI call are display and foreign calls, and are left out.
- The `loguru` logging has no effect on results and is left out.
- FastAPI routing and Jinja2 rendering are web-framework glue and are left out. The `people` mapping `main.py` loads is a parameter of `ToJson` and `GetAllNodes`.
- The pydantic validation is left out. `Person` is a plain datatype, with `jpg` as bytes (`seq<bv8>`).
- `PersonPage.__str__` is display only and is left out.
- The `html` and `jpg` caches are modelled as class fields. The five field properties are recomputed on each call, which gives the same value because the page they read is cached.
- The crawl takes a record's related names from the record it has just built. The source reads the cached `relevant_person` property, which holds the same value.
- Crawl.GetAllData: on failure it states only that some reachable name's page fails with the returned error. It does not say which name: the source raises on the first failing name in visit order.
- People.Record: on success its contract names the `name`, `url`, `jpg` and `relevantPerson` fields. The other four fields are what their rules return, but only the function body says so.
- Extract.Labelled: its own contract states only the token property. The exact result in each case (no heading, heading with sibling, heading without sibling) is stated by `LabelledAbsent`, `LabelledFound` and `LabelledMissing`.
- PyStr.Split: it carries no contract of its own. Its properties are the lemmas `SplitBlank`, `SplitTokens`, `SplitKeepsText`, `SplitToken`, `SplitSkipsSpace` and `SplitJoin`, which together fix its value on every input.
