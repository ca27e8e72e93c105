# A verified model of the site crawler, the document-link scraper and the JSON cleaner

This project models, in Dafny, the parts of the crawling toolkit that carry
real logic:

- **crawler.py**: the `WebCrawler` class. It has a FIFO queue of
  `(url, depth)` targets, the `visited_urls` set and the `depth_map`
  dictionary. It also models the depth gate of `enqueue_url`, the validity
  test of `is_valid_url`, the seeding of `crawl` from the sitemap (or the
  base URL), its link loop, and its main loop bounded by `max_pages`. The
  fallback contracts of `get_sitemap_urls` and `respect_robots_txt` are
  modelled too.
- **scrapper_2.py**: three pieces of `extract_page_content` and its caller.
  - The document-link loop: lower-case the href, resolve it against the
    page with one of three prefix rules, and file it under pdf, doc or
    docx.
  - The `keywords` split of the meta tag.
  - The order-preserving filter loop of `scrape_all_urls_from_file`.
- **clean_json.py**: two functions.
  - `fix_encoding`: encode as Latin-1, decode as UTF-8, and keep the input
    on any failure. The UTF-8 decoder is the strict one of section 4 of
    RFC 3629.
  - `flatten_dict`: the recursive flattener that joins key paths with a
    separator and list values with `"; "`, then builds a Python `dict`
    from the collected pairs.

The network, the HTML and XML parsers, `urljoin`, `urlparse`, the robots.txt
parser and the page extractor are oracles. Each one is a function-typed
parameter or constant. Nothing in the model performs I/O.

How the files are laid out:

- `wrappers.dfy`: `Option`.
- `urls.dfy`: the `urlparse` result.
- `strings.dfy`: the Python `str` methods the source uses.
- `seqs.dfy`: an order-preserving filter-map and its lemmas.
- `crawler.dfy`: module `Crawler`, including the class `WebCrawler`.
- `scrapper.dfy`: module `Scrapper`.
- `utf8.dfy`: UTF-8 and Latin-1.
- `clean_json.dfy`: module `CleanJson`.

**No same-host test is applied.** The comment at crawler.py:61 says the URL
must belong to the same domain, but the check at lines 69-71 is commented
out, and the model follows the code. `NoSameDomainCheck` and
`DegradedPolicyChecksOnlyForm` state the consequence.

**The queue is not deduplicated.** `enqueue_url` (crawler.py:78) consults
only `visited_urls` and the depth bound, never the queue, so a URL linked
twice from one page is queued twice (`DuplicateLinkQueuedTwice`). The stale
entry is skipped when it is dequeued (`StaleEntrySkipped`), and no URL is
crawled twice (`DrainFresh`).

## Model

| member | source | states |
|---|---|---|
| Crawler.GetSitemapUrls | crawler.py:9-23 | the `<loc>` list of a well-formed sitemap served with status 200; the empty list on any other status, on an XML parse error and on a network error |
| Crawler.RespectRobotsTxt | crawler.py:25-44 | the permission check is the parser's verdict when robots.txt was read, and allows every (agent, url) when reading it raised |
| Crawler.IsValidUrl | crawler.py:60-74 | a URL is rejected when its parsed scheme is empty, when its parsed netloc is empty, or when robots.txt refuses it to the agent `*` |
| Crawler.NoSameDomainCheck | crawler.py:60-74 | with robots.txt read, two well-formed URLs on which its rules agree are equally valid, whatever hosts they name |
| Crawler.DegradedPolicyChecksOnlyForm | crawler.py:60-74 | with robots.txt unreadable, a URL is valid exactly when its parsed scheme and netloc are non-empty, whatever host it names |
| Crawler.WebCrawler.constructor | crawler.py:47-58 | a fresh crawler has empty visited set, queue and depth map, the given depth bound (default 3), and the robots.txt check of `respect_robots_txt` |
| Crawler.WebCrawler.EnqueueUrl | crawler.py:76-80 | appends `(url, depth)` and sets `depth_map[url] = depth` exactly when the URL is unvisited and `depth <= max_depth`, else changes nothing; never queues beyond the depth bound; visited set unchanged |
| Crawler.AdmitMembers | crawler.py:76-80 | a target passes `enqueue_url`'s gate exactly when it is a candidate, its URL is unvisited and its depth is within the bound |
| Crawler.AdmitAppend | crawler.py:76-80 | admission of a sequence of enqueues is decided call by call and keeps their order |
| Crawler.AdmitAll | crawler.py:76-80 | unvisited targets within the depth bound are all queued, duplicates included |
| Crawler.DuplicateLinkQueuedTwice | crawler.py:76-80 | a page linking to the same valid unvisited URL twice puts it on the queue twice, because the queue is not consulted |
| Crawler.EnqueueStep | crawler.py:76-80 | one more call of `enqueue_url` appends the target to the queue and records its depth exactly when it is admitted, else leaves both alone |
| Crawler.RecordSnoc | crawler.py:80 | recording one more target overwrites the depth-map entry of its URL with its depth |
| Crawler.RecordKeys | crawler.py:80 | the recorded depth map has exactly the old keys plus the URLs recorded, and every other entry is unchanged |
| Crawler.WebCrawler.EnqueueAll | crawler.py:88-89 | the queue grows by exactly the admitted URLs at the given depth, in order, and the depth map records each of them in turn |
| Crawler.WebCrawler.SeedFrontier | crawler.py:84-93 | the queue grows by exactly the admitted seeds (every sitemap URL at depth 0, in order, when the sitemap gave any, else the base URL alone), and the depth map records each admitted seed in turn |
| Crawler.FreshSeeding | crawler.py:84-93 | for a fresh crawler with `max_depth >= 0` the seeds are all sitemap URLs at depth 0 and not the base URL, or only the base URL at depth 0 when the sitemap list is empty |
| Crawler.DiscoveredMembers | crawler.py:112-116 | a link is discovered exactly when it is the `urljoin` of one of the page's hrefs, is valid, and sits at the page's depth + 1 |
| Crawler.LinkStep | crawler.py:112-117 | one more href extends the queue and the depth map exactly when it resolves to a valid link that `enqueue_url` admits at depth + 1, and counts as a link found exactly when it is valid |
| Crawler.WebCrawler.HandleLink | crawler.py:113-117 | one href: resolved against the page, reported valid exactly when `is_valid_url` holds, and then passed to `enqueue_url` at depth + 1, which queues it and sets its depth-map entry exactly when it is unvisited and within the bound |
| Crawler.WebCrawler.ProcessLinks | crawler.py:111-117 | the queue grows by exactly the admitted valid links of the page at depth + 1, in page order, and the depth map records each of them in turn; `links_found` counts the valid links |
| Crawler.DrainTake | crawler.py:96-117 | an unvisited head of the queue is crawled first, and the run continues from the rest of the queue plus the page's admitted links, with the URL visited and one page fewer left |
| Crawler.StaleEntrySkipped | crawler.py:97-99 | a head whose URL is already visited is dropped without spending a page |
| Crawler.FailedFetchIsCrawled | crawler.py:102-127 | a page whose fetch raises or returns a status other than 200 is still crawled, counted and visited; it only adds nothing to the queue |
| Crawler.DrainResume | crawler.py:96-127 | after one iteration of the loop, the run from the new state, behind the targets crawled so far, ends where the run from the old state ends |
| Crawler.DrainBudget | crawler.py:96 | the run crawls at most `max_pages` pages and stops early only on an empty queue |
| Crawler.DrainFresh | crawler.py:98-103 | every crawled URL was unvisited when the run started, and no URL is crawled twice |
| Crawler.DrainVisited | crawler.py:102 | the visited set ends as the initial one plus exactly the crawled URLs |
| Crawler.DrainDepth | crawler.py:76-80 | from a queue within `max_depth`, every crawled target and every target left on the queue is within `max_depth` |
| Crawler.CrawledCount | crawler.py:102-103 | crawling pairwise distinct unvisited URLs adds one visited URL per page counted |
| Crawler.DrainSummary | crawler.py:95-127 | from a queue within `max_depth`: at most `max_pages` pages, an early stop only on an empty queue, crawled URLs unvisited before, pairwise distinct and within the depth bound, and a visited set grown by exactly them, one per page, so a fresh crawler ends with at most `max_pages` visited URLs |
| Crawler.WebCrawler.CrawlNext | crawler.py:97-127 | one iteration: the head target is taken off the queue; when its URL is unvisited it is marked visited and counted, and the queue and depth map grow by the admitted links of a page served with status 200 (by nothing otherwise, an exception included); when it is visited nothing else changes |
| Crawler.WebCrawler.CrawlQueue | crawler.py:95-127 | the `while` loop ends with the crawled targets, queue and visited set of the run from the state it started in |
| Crawler.WebCrawler.Crawl | crawler.py:82-127 | `crawl` ends with the crawled targets, queue and visited set of the run from the seeded queue with `max_pages` pages; so at most `max_pages` pages are crawled, it stops early only on an empty queue, each crawled URL was unvisited before and is crawled once and within `max_depth`, and the visited set grows by exactly the crawled URLs, one per page |
| Scrapper.FullHref | scrapper_2.py:127-136 | an href starting with `/` is appended to `scheme://netloc`; one starting with `http` is kept; any other gets `scheme://netloc/` in front, the `lstrip('/')` being a no-op there |
| Scrapper.FullHrefKeepsHref | scrapper_2.py:127-139 | the resolved URL ends with the href, so it has the same document kind as the href |
| Scrapper.Title | scrapper_2.py:140-143 | an entry's title is the anchor's `title` attribute when non-empty, else its text |
| Scrapper.Classify | scrapper_2.py:139-153 | a kind is given only to an href ending with that kind's suffix, and none only to an href ending with none of `.pdf`, `.doc`, `.docx` |
| Scrapper.ClassifyBySuffix | scrapper_2.py:139-153 | the `elif` chain files a lower-cased href under a kind exactly when the href ends with that kind's suffix; a `.docx` href is not a `.doc` |
| Scrapper.UnclassifiedHasNoSuffix | scrapper_2.py:139-153 | an href is filed nowhere exactly when it ends with none of `.pdf`, `.doc`, `.docx` |
| Scrapper.CollectDocumentLinks | scrapper_2.py:123-153 | each of the three lists is exactly the entries of the anchors of that kind, in anchor order |
| Scrapper.EntriesOfMembers | scrapper_2.py:123-153 | an entry is in a kind's list exactly when some anchor of that kind has that resolved URL and title |
| Scrapper.EntriesOfAppend | scrapper_2.py:123-153 | the lists are built anchor by anchor, so the anchors' order is kept |
| Scrapper.NonDocumentAddsNothing | scrapper_2.py:138-153 | an anchor ending in none of the suffixes adds nothing to any list |
| Scrapper.AtMostOneEntryPerAnchor | scrapper_2.py:139-153 | the three lists together hold at most one entry per anchor |
| Scrapper.StripAll | scrapper_2.py:254 | each line is stripped of surrounding whitespace, one line each |
| Scrapper.MetaKeywords | scrapper_2.py:45-47 | no keywords when the content is missing or empty; otherwise the stripped pieces of the content split at `,`, one per comma plus one, none holding a comma or starting or ending with whitespace |
| Scrapper.KeywordsArePieces | scrapper_2.py:47 | the keywords are the stripped pieces of some comma-free pieces that, joined with `,`, give the content back |
| Scrapper.KeywordsRoundTrip | scrapper_2.py:47 | for content without whitespace, joining the keywords with `,` gives the content back |
| Scrapper.ScrapeAllUrlsFromFile | scrapper_2.py:247-272 | a missing file gives `[]`; otherwise the result is the successful extractions of the stripped URL lines, in file order |
| Seqs.FilterMap | scrapper_2.py:259-263 | the kept results are never more than the URL lines |
| Seqs.FilterMapMembers | scrapper_2.py:259-263 | a record is kept exactly when it is the extraction of some URL line |
| Seqs.FilterMapAppend | scrapper_2.py:259-263 | results are collected line by line, so file order is kept |
| Seqs.FilterMapKeepsAll | scrapper_2.py:259-263 | when every extraction succeeds, there is exactly one record per URL line |
| Strings.LowerChar | scrapper_2.py:124 | `lower()` on a character maps `A`-`Z` and the Latin-1 capitals U+00C0-U+00DE except U+00D7 to the character 32 code points up, leaves every other character unchanged (U+00D7 included), and never yields an ASCII capital |
| Strings.LowerPointwise | scrapper_2.py:124 | `lower()` on a string works character by character |
| Strings.LStrip | scrapper_2.py:136 | `lstrip(ch)` drops exactly the leading run of `ch` |
| Strings.Strip | scrapper_2.py:47 | `strip()` drops exactly the leading and trailing whitespace |
| Strings.Split | scrapper_2.py:47 | `split(',')` yields one piece per separator plus one, none holding the separator |
| Strings.Join | clean_json.py:48 | joining no parts gives the empty string; otherwise the result starts with the first part |
| Strings.JoinSplit | scrapper_2.py:47 | joining the pieces of a split with the separator gives the string back |
| CleanJson.FixEncoding | clean_json.py:32-38 | the input comes back when Latin-1 encoding fails (a character above U+00FF) or the bytes are not well-formed UTF-8; the result is never longer than the input |
| CleanJson.FixValue | clean_json.py:33-34 | a value that is not a string comes back unchanged |
| CleanJson.FixEncodingAscii | clean_json.py:35-38 | pure ASCII text comes back unchanged |
| CleanJson.FixEncodingRepairs | clean_json.py:35-38 | text whose UTF-8 bytes were read as Latin-1 is repaired to the original |
| CleanJson.FixEncodingUndoesMisreading | clean_json.py:35-38 | any change made is the undoing of such a misreading |
| Utf8.DecodeFirst | clean_json.py:36 | a decoded sequence is at least 1 and at most 4 bytes long and lies within the input |
| Utf8.Decode | clean_json.py:36 | a decoded string has at most one character per byte |
| Utf8.DecodeEncode | clean_json.py:36 | the UTF-8 decoder reads back every encoded string |
| Utf8.EncodeDecode | clean_json.py:36 | the decoder accepts only well-formed encodings: whatever it accepts is the encoding of its result |
| Utf8.DecodeAscii | clean_json.py:36 | bytes below 0x80 decode one to one into the same code points |
| Utf8.Latin1Encode | clean_json.py:36 | Latin-1 encoding fails exactly when some character is above U+00FF, and otherwise maps each character to the byte of its code point |
| Utf8.Latin1Decode | clean_json.py:36 | Latin-1 decoding maps each byte to the character of its code point |
| Utf8.Latin1RoundTrip | clean_json.py:36 | Latin-1 encoding inverts Latin-1 decoding |
| CleanJson.PutKeys | clean_json.py:51 | assigning `d[k] = v` gives the keys of `d` plus `k` |
| CleanJson.PutDistinct | clean_json.py:51 | assigning `d[k] = v` keeps the keys distinct |
| CleanJson.PutLookup | clean_json.py:51 | after `d[k] = v`, `k` maps to `v` and every other key keeps its value |
| CleanJson.PutNew | clean_json.py:51 | a new key goes at the end of the insertion order |
| CleanJson.PutLength | clean_json.py:51 | `d[k] = v` adds an entry exactly when `k` is new |
| CleanJson.PutPairs | clean_json.py:51 | `d[k] = v` only adds the pair `(k, v)` |
| CleanJson.DictOfKeys | clean_json.py:51 | `dict(items)` has distinct keys, exactly the keys of `items`, and no more entries than `items` |
| CleanJson.DictOfLookup | clean_json.py:51 | in `dict(items)` each key holds the value of its last occurrence: the later item wins |
| CleanJson.DictOfDistinct | clean_json.py:51 | `dict(items)` of pairs with distinct keys keeps them all, in order |
| CleanJson.DictOfPairs | clean_json.py:51 | every entry of `dict(items)` is one of the items |
| CleanJson.NatToString | clean_json.py:48 | `str` of a natural number is a decimal numeral without a leading zero whose value is that number |
| CleanJson.IntToString | clean_json.py:48 | `str` of an integer starts with a minus sign exactly for negatives; what follows is the decimal numeral, without a leading zero, of the number or of its absolute value |
| CleanJson.Str | clean_json.py:48 | `str` of `None`, a boolean, an integer and a string is `None`, `True`/`False`, the decimal numeral and the string itself; that of a list or dictionary is its `repr` |
| CleanJson.ListPieces | clean_json.py:48 | a list contributes `fix_encoding(str(i))` for each element, in order |
| CleanJson.FlatValue | clean_json.py:47-50 | a non-dictionary value becomes a flat value: a string is fixed, a list becomes the `"; "`-join of the fixed `str` of its elements (so an empty list becomes `""`), other scalars are unchanged |
| CleanJson.FlatListOfAsciiStrings | clean_json.py:47-48 | a list of ASCII strings becomes those strings joined with `"; "`, unchanged |
| CleanJson.NewKeyInjective | clean_json.py:43 | different keys below the same parent get different paths |
| CleanJson.Items | clean_json.py:42-50 | every collected pair holds a value that is neither a dictionary nor a list |
| CleanJson.FlattenDict | clean_json.py:41-51 | with `parent_key` `""` and `sep` `"."` by default, the result has distinct keys and holds no dictionary or list value |
| CleanJson.ItemsShape | clean_json.py:41-51 | the collected pairs hold no dictionary or list values, are at most one per leaf, and below a non-empty parent all start with `parent + sep` |
| CleanJson.FlattenDictShape | clean_json.py:41-51 | the result has distinct keys, no dictionary or list value, at most one entry per leaf, all keys below a non-empty parent start with `parent + sep`, and each key holds the value of its last collected pair |
| CleanJson.FlattenDictNoNesting | clean_json.py:41-51 | a dictionary with distinct keys and no nested dictionary keeps its entries in order, each key moved below the parent (unchanged at top level) and each value flattened |
| CleanJson.TopLevelKeysKept | clean_json.py:41-51 | called with its defaults, a dictionary without nesting and with distinct keys keeps its own keys, in order, with each value made flat |
| CleanJson.ItemsNoNesting | clean_json.py:42-50 | without nested dictionaries, one pair per entry, in order |
| CleanJson.ItemsSnoc | clean_json.py:42-50 | one more entry adds its flat value or its flattened dictionary after the pairs collected so far |
| CleanJson.LastEntryWins | clean_json.py:41-51 | the last entry, when not a dictionary, is in the result under its key path with its flat value, whatever came before |
| CleanJson.EmptyNestedDropped | clean_json.py:44-46 | a nested empty dictionary contributes no key |

## Left out

- HTTP requests, the `requests.Session` headers and timeouts, and the one-second `time.sleep` pauses in crawler.py and scrapper_2.py. They are network and timing plumbing. Fetches are oracles returning a response or an error.
- HTML parsing with BeautifulSoup. The anchor scan gives the hrefs of a page, and `extract_page_content` apart from the document-link loop is left out. Both are a foreign library; a page's anchors are an input.
- Sitemap XML parsing with ElementTree. The sitemap fetch is an oracle giving the `<loc>` texts or a parse failure. A `<loc>` with no text (Python's `None`) is not modelled.
- The internals of `RobotFileParser`, `urljoin` and `urlparse`. They are standard-library behaviour and are uninterpreted functions here.
- File I/O, `input()`, `print` logging, and JSON and CSV reading and writing. Reading the URL file is an `Option` of its lines; `None` stands for a missing file.
- JSON-LD decoding with `json.loads` in scrapper_2.py. It is a foreign parser.
- The row-building script of clean_json.py (from line 54 on) and the commented-out copy of the module in a string literal (lines 1-26). Neither is part of the two functions modelled.
- Concurrency. The code is single-threaded.
- Exceptions raised inside the link loop of `crawl`. Python abandons the page's remaining links then; here `urljoin` and the robots check are total functions.
- Floating-point JSON numbers and Python's recursion limit on deep nesting.
- CleanJson.Str: the `str` of a nested list or dictionary inside a list is Python's `repr`, given as the oracle `repr`.
- Strings.LowerChar: maps only ASCII and Latin-1 capitals. Python's `lower()` also maps capitals above U+00FF, and hrefs are almost always ASCII.
- Crawler.WebCrawler.Crawl: states the final depth map only through the class invariant: every queued URL has an entry and no entry exceeds `max_depth`. Each step's depth-map update is stated by `CrawlNext`, `SeedFrontier` and `EnqueueUrl`. `crawl` returns nothing in Python; here it returns the page count and, as a ghost, the crawled targets.
- Crawler.WebCrawler.CrawlQueue: states the final depth map only through the class invariant, as for `Crawl`.
- Crawler.WebCrawler.ProcessLinks: the `links_found` count is returned rather than printed.
- Scrapper.ScrapeAllUrlsFromFile: only a missing file is caught (the `except FileNotFoundError` at scrapper_2.py:270); other read errors such as `PermissionError`, `IsADirectoryError` or `UnicodeDecodeError` propagate to the caller in Python and are not modelled, the file's lines being an input.
- Scrapper.ScrapeAllUrlsFromFile: `if content:` is modelled as "the extraction succeeded", because `extract_page_content` returns either `None` or a non-empty dictionary.
- Utf8.Decode: Python strings can hold lone surrogates and Dafny characters cannot. No well-formed UTF-8 decodes to one, and Latin-1 encoding of one fails anyway, so `fix_encoding` is unaffected.
