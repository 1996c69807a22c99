# Statute crawler activity (`act.py`), modelled in Dafny

`act.py` is a crawler activity for the Korean statute portal law.go.kr. It
pages through the law-search list API, newest first, until it reaches laws
promulgated before yesterday. For each recent law it opens the detail page in
a browser and reads the frame's markup. It finds the citation anchors in that
markup. These are `<a>` elements whose `onclick` handler calls
`fncLsPttnLinkPop`, `fncLsLawPop` or `fncArLawPop`. It turns each handler into
the URL of the cited page and fetches that page's text through a memo table.
It splices the cited text into the markup in place of the anchor. Finally it
reduces the markup to plain text while keeping HTML comments verbatim.

The project models that core as it is written:

- `pystr.dfy` (`PyStr`): the Python string operations the code relies on, with
  CPython's semantics. These are `in`, `replace` (leftmost, non-overlapping,
  with the empty-pattern case), `split`, `join` and `strip()` over Unicode
  whitespace.
- `citation.dfy` (`Citation`): the quoted-argument scan
  `re.findall(r"'([^']+)'", onclick)` and `build_detail_url`. An `IndexError`
  from a missing parameter is the value `MissingParam`. A parser reads the
  built URLs back.
- `placeholders.dfy` and `cleaner.dfy` (`Placeholders`, `Cleaner`):
  `clean_html`.
  - Its comment search `<!--.*?-->` with the `DOTALL` flag, its two loops as a
    method, and the placeholders `__COMMENT_<i>__`.
  - A proof that the placeholder round trip is lossless when the text
    extractor changes nothing.
  - The BeautifulSoup parse and `get_text("\n")` are a function parameter
    `getText`.
- `cache.dfy` (`Cache`): `fetch_detail` as a method of a class whose `entries`
  field is `link_cache`. What the browser shows at a URL is a function
  parameter `render`.
- `detail.dfy` (`Detail`): three parts of the per-law extraction.
  - The anchor loop, filling the insertion-ordered dictionary `parsed`.
  - The splice loop over `parsed`.
  - Their composition with `clean_html`.
- `activity.dfy` (`Activity`): the page scan of `law_activity`.
  - `pages[p]` is the list returned for `page_no = p + 1`.
  - Promulgation dates are yyyymmdd integers, and `yesterday` is a parameter.
  - The detail frame of a law is a function parameter `browse`. It answers
    `NoPage` when the browser is gone, so `browser.new_page()` raises
    outside the law's `try` (act.py:135) and the activity ends. It answers
    `Closed` when `TargetClosedError` is raised inside that `try` while the
    frame is read, so that law alone is skipped (act.py:180-181).
  - The result is `None` when the activity dies with an exception. Otherwise
    it is the collected laws, whose number is the reported `total_items`,
    together with the reported `last_page` (act.py:201-205).

The model follows the code in these places, where the crawler's documented
behaviour differs from it:

- A law older than the cutoff in the middle of a page ends only that page:
  the outer loop still moves on to the next page (act.py:130-132, 185).
- A short page ends the scan before any of its laws is visited, so its laws
  are never extracted (act.py:118-120).
- `build_detail_url` raises `IndexError` in three cases (act.py:45-50).
  - A `fncLsPttnLinkPop` handler has no quoted parameter.
  - A `fncLsLawPop` handler without any of `XX`, `BG`, `BF`, `BE` has no
    quoted parameter.
  - A handler that reaches the `fncArLawPop` test has fewer than three.
    These are an excluded `fncLsLawPop` handler that also names
    `fncArLawPop`, and a plain `fncArLawPop` handler.

  That error is not `TargetClosedError`, so it ends the whole activity
  (act.py:162, 180). An excluded `fncLsLawPop` handler that does not name
  `fncArLawPop` gives `None`, and its anchor is skipped (act.py:47, 51).
- The splice replaces `key.split("_")[0]` and writes `key.split("_")[1]`
  (act.py:170, 174), where the key is the anchor's `outerHTML`, `_`, and its
  text. When the `outerHTML` contains an underscore, the identifier is the
  part of the HTML before its first underscore, and the label is the part
  after it, up to the next underscore. When only the text contains one, the
  identifier is the whole `outerHTML`, and the label is the part of the text
  before its first underscore.
- The query parameters of the side-info URL are not URL-encoded (act.py:50).
  A law name holding `&` gives a URL whose fields do not read back to it.

## Model

| member | source | states |
|---|---|---|
| PyStr.ReplaceIsJoinOfSplit | act.py:31 | `s.replace(p, r)` equals `r.join(s.split(p))` for every non-empty `p`: the scan model of `replace` agrees with the independent split-then-join one |
| PyStr.SplitJoin | act.py:170 | `sep.join(s.split(sep)) == s`: splitting loses nothing |
| PyStr.SplitPiecesFree | act.py:170 | no piece of `s.split(sep)` contains `sep` |
| PyStr.ReplaceAbsent | act.py:172-175 | replacing a pattern that does not occur leaves the string unchanged |
| PyStr.ReplaceInserts | act.py:172-175 | replacing a pattern that occurs, the empty pattern included, puts the replacement into the result |
| PyStr.StripKeepsInner | act.py:37 | an occurrence whose first and last characters are not whitespace survives `strip()` |
| PyStr.StripEnds | act.py:37 | the result of `strip()` is empty or starts and ends with a non-whitespace character |
| Citation.QuotedParamsNonEmpty | act.py:158 | every parameter the `'([^']+)'` scan returns is non-empty and contains no `'` |
| Citation.QuotedParamsInOrder | act.py:158 | every returned parameter sits between two quotes of the handler at a position the lemma returns, and the positions increase without overlap, in the order of the returned list |
| Citation.QuotedParamsOfCall | act.py:158 | round trip: for a handler call `name('a0','a1',…)` with non-empty quote-free arguments, the scan returns exactly `[a0, a1, …]` |
| Citation.PatternHandlerWins | act.py:45-46 | a handler containing `fncLsPttnLinkPop` yields the `lspttninfSeq=params[0]` URL whatever else it contains, and raises exactly when there is no parameter |
| Citation.ArticleHandlerUnlessExcluded | act.py:47-51 | without `fncLsPttnLinkPop`, a `fncLsLawPop` handler with none of `XX`, `BG`, `BF`, `BE` raises exactly when it has no parameter; with a parameter, whatever characters it holds, the handler cites the article `params[0]` if and only if it is not excluded; an excluded one falls through to the `fncArLawPop` test and then to `None` |
| Citation.RevisionHandlerNeedsThree | act.py:49-50 | a handler reaching the `fncArLawPop` test raises exactly when it has fewer than three parameters, and otherwise yields the side-info URL built from `params[0]`, `params[1]`, `params[2]` for any parameters; that URL reads back to those three when none of them holds `&` |
| Citation.RevisionNotArticle | act.py:48-50 | a side-info URL, whatever its parameters, never reads back as an article or pattern-clause citation |
| Citation.UnencodedAmpersand | act.py:50 | the parameters are not URL-encoded: for any law name `x & y` with `x` free of `&`, the side-info URL does not read back to that name |
| Citation.NoTargetExactly | act.py:44-51 | `build_detail_url` returns `None` if and only if no branch's condition holds |
| Citation.ParsePattern | act.py:46 | the pattern-clause URL reads back to its `lspttninfSeq` value |
| Citation.ParseArticle | act.py:48 | the article URL reads back to its `lsJoLnkSeq` value |
| Citation.ParseRevision | act.py:50 | the side-info URL built from three `&`-free parameters reads back to exactly those three parameters |
| Placeholders.DigitsInjective | act.py:29 | `f"{i}"` is injective on naturals |
| Placeholders.KeyFacts | act.py:29 | shape of `__COMMENT_{i}__`: underscores only at positions 0, 1, 9 and the last two, the marker `COMMENT_` at 2, digits in between, and no `<`, `>` or whitespace |
| Placeholders.ShowProtectStep | act.py:31 | replacing a comment in text that already holds placeholders only cuts the plain text pieces; the placeholders already there are untouched |
| Placeholders.ShowRestoreStep | act.py:40 | when the plain text pieces do not contain `COMMENT_`, `r.replace(key_j, c)` replaces exactly the placeholders `j` and nothing that straddles them |
| Placeholders.RenderStrip | act.py:37 | `strip()` of placeholder-separated text only trims the first and last plain pieces |
| Cleaner.FindCommentsFacts | act.py:25 | every match of `<!--.*?-->` begins with `<!--`, ends with `-->`, contains no earlier `-->`, and occurs in the scanned text |
| Cleaner.NoOpenNoComments | act.py:25 | text without `<!--` has no comments to protect |
| Cleaner.KeysDistinct | act.py:29-30 | distinct comment indices give distinct placeholder keys, so the dictionary loses no comment |
| Cleaner.CleanHtml | act.py:24-42 | the two loops of `clean_html` compute the protect, extract, strip and restore composition `CleanText` |
| Cleaner.CleanRoundTrip | act.py:24-42 | with a text extractor that changes nothing, `clean_html(t) == t.strip()` for every `t` not containing `COMMENT_` |
| Cleaner.CleanKeepsComments | act.py:25-42 | under the same conditions, every comment found at line 25 appears byte for byte in the result |
| Cache.PageTextParts | act.py:67-78 | the fetched text starts with `(primary)` when the primary read succeeded, is empty when both reads failed, and contains each secondary text |
| Cache.FetchTransparent | act.py:60-81 | if every cache entry is the text of its URL's page, a fetch returns the page's text, keeps that true, and adds exactly the fetched URL |
| Cache.FetchIdempotent | act.py:61-62 | a second fetch of the same URL is a hit returning the same text and leaving the cache as it was |
| Cache.FetchKeepsOthers | act.py:80 | a fetch never changes or drops another URL's entry |
| Cache.LinkCache.constructor | act.py:21 | the cache starts empty |
| Cache.LinkCache.FetchDetail | act.py:60-81 | on a hit, returns `link_cache[url]` and leaves the map unchanged; on a miss, stores the page text under `url` and changes no other key; for any starting cache the key set gains exactly `url`; keeps every entry equal to its page's text |
| Detail.CollectAnchors | act.py:149-167 | the anchor loop computes `Collect`, the insertion-ordered `parsed` dictionary, or the `IndexError` abort |
| Detail.CollectRaises | act.py:158-162 | the anchor loop raises if and only if some anchor with a handler and no `ALLJO` has a citation missing a parameter |
| Detail.CollectKeys | act.py:152-167 | `parsed` holds a key if and only if some anchor with a truthy handler, no `ALLJO` and a non-`None` URL produced it, and its key list has no repeats |
| Detail.CollectLastWins | act.py:165-166 | a repeated key holds the URL of the last anchor that produced it |
| Detail.CollectFirstOrder | act.py:166 | the keys are listed in the order of the first anchor producing each: overwriting keeps the first insertion position |
| Detail.KeyParts | act.py:165-174 | a key `outer_text` always splits into at least two parts; its identifier is the part of `outer` before its first underscore, which is `outer` itself when `outer` has no underscore; the label is `text` when neither has one |
| Detail.SpliceOneAbsent | act.py:172-175 | when the identifier does not occur, a splice round leaves the markup unchanged |
| Detail.SpliceOneInserts | act.py:172-175 | when the identifier occurs, the label and `[[cited text]]` appear in the markup; this includes the empty identifier of a key starting with `_`, which occurs everywhere |
| Detail.SpliceCitations | act.py:169-176 | for any starting cache, the cache afterwards holds exactly its old URLs plus every URL of `parsed`; when every entry matched its page, the loop applies one round per key in insertion order, each with the text of the page at the key's URL, to the progressively rewritten markup, and the cache stays faithful |
| Detail.SplicedUrlsAll | act.py:169-171 | the splice loop, run over all keys, fetches exactly the URLs held in `parsed` |
| Detail.ExtractDetail | act.py:146-177 | aborts if and only if the anchor loop raises; for any starting cache, adds exactly the URLs the anchors cite to the cache's keys; when every entry matched its page, the result is the anchor loop, then the splice, then `clean_html`, and the cache stays faithful |
| Activity.StopPage | act.py:117-126 | the page the scan stops at is the first one from the start that has fewer than 100 laws or whose first law is older than the cutoff; every earlier page is full and starts at or after it |
| Activity.LawActivity | act.py:107-205 | the `while True` loop computes `Scan`: pages in order, both stop conditions checked before a page's laws, each page's contribution appended, abort as soon as a page aborts; when it finishes, the reported `last_page` is the number of the first page that is short or starts before the cutoff; no URL ever leaves the cache, and with a faithful starting cache it stays faithful and gains exactly the URLs of the laws the scan visits (`ScanUrls`) |
| Activity.VisitPage | act.py:128-132 | the `for item in items` loop computes `PageLoop`: the page's laws in order up to the first older one, abort as soon as a law aborts; for any starting cache, the keys gain exactly the URLs cited by the laws visited before the loop ends (`PageUrls`) |
| Activity.VisitItem | act.py:134-183 | one law, for any starting cache: `None` exactly when the browser is gone, so `new_page` raises outside the `try` (act.py:135), or when the anchor loop raises `IndexError`, which the `except TargetClosedError` does not catch, and the keys gain exactly the URLs cited by that law's frame; when every entry matched its page, nothing when `TargetClosedError` is caught inside the `try`, the law with its extracted text when extraction succeeds, and the cache stays faithful |
| Activity.PageLoopShape | act.py:128-183 | one page contributes exactly the laws of its prefix before the first older law whose frame opened, in order, each with its own extracted text, and aborts if and only if one of those laws raises |
| Activity.ScanShape | act.py:114-185 | the scan collects exactly the opened laws among those visited on the pages before the stop page, in page order and in-page order, each with the text extracted from its own page; it aborts if and only if one of them raises; the stop page's laws are never collected |
| Activity.PageUrlsShape | act.py:128-183 | a page fetches only URLs cited by the laws of its prefix before the first older law, and all of them when none of those laws aborts |
| Activity.ScanUrlsShape | act.py:114-185 | the scan fetches only URLs cited by the laws it visits on the pages before the stop page, and all of them when none of those laws aborts |
| Activity.ScanDates | act.py:123-132 | every collected law has a promulgation date on or after the cutoff, and its detail frame opened |
| Activity.ScanComplete | act.py:114-185 | when every detail page opens, the collected laws are exactly the visited ones: each page's prefix before its first older law, for every page before the stop page |

## Left out

- `wf.py`, the workflow that schedules this activity: it is orchestration outside this activity.
- `fetch_list` (act.py:84-97): network and JSON decoding. The lists are the input `pages`, and a missing page answers with no laws.
- `safe_goto` retries and timeouts, the random settle delay, the modal-close click, frame and locator calls and `element_handles` (act.py:53-58, 64-78, 135-147): browser I/O. They are the parameters `browse` and `render`.
- BeautifulSoup parsing, tag removal and `get_text("\n")` (act.py:33-37): a foreign library. It is the uninterpreted parameter `getText`.
- The clock, time zone and `strptime` (act.py:102-104, 123, 129): `yesterday` is a parameter, and dates are yyyymmdd integers, which order like the dates they denote.
- The random User-Agent choice, the progress `print`s, and the JSON output file and its directory (act.py:13-19, 119, 125, 131, 189-199): they do not affect what is collected.
- `render` is a function of the URL alone. Because `link_cache` is a module-level dictionary that is never cleared (act.py:21), it lives as long as the long-lived worker process that hosts `law_activity`, across runs. The worker in ㄴㅁㅇㄹ.py registers a different activity, `crawl_law_page`. The model therefore assumes that a cited page does not change for the whole life of that process. Under that assumption a cache hit is invisible in the results.
- Activity.LawActivity: its result is tied to `Scan` only when every cache entry matches its page at the start. An entry stored by an earlier run in the same worker, for a page that has changed since, breaks that premise: the code then splices the stale text, and the contract says only that no URL leaves the cache. The same premise guards the result clauses of `VisitPage`, `VisitItem`, `ExtractDetail` and `SpliceCitations`, while their key-set clauses hold for any starting cache.
- The browser closing while the splice loop runs `fetch_detail` is not modelled: `render` answers every URL. In the code, `safe_goto` (act.py:53-58) and the bare `except`s around the two locator reads (act.py:71, 77) swallow the error. Only `wait_for_timeout` (act.py:65) lets `TargetClosedError` through, which skips the law and keeps the cache entries already stored. A closure during the locator reads instead stores `""`, or the parenthesised first text, under the URL (act.py:80). The law may then still be collected, and later hits on that URL return the incomplete text.
- The `file_path` of the result dictionary (act.py:189-204): it names the output file, which is I/O.
- Exceptions other than the `IndexError` of `build_detail_url` and `TargetClosedError`, such as a timeout in `inner_html`, are not modelled. They would also end the activity.
- `text_content()` and `outerHTML` are taken to be strings. Playwright's `None` for them is not modelled.
- `page.close()` and `browser.close()` (act.py:182-187): resource release with no effect on the result.
- Cleaner.CleanRoundTrip: it assumes the input contains no `COMMENT_` at all, a stronger condition than containing no complete `__COMMENT_<i>__` token. The weaker condition does not suffice. On `<!--a--><!--b-->COMMENT_0__`, restoring key 0 also matches the last two underscores of key 1 followed by the literal `COMMENT_0__`, so the output differs from the input.
- Cache.FetchTransparent: it states the transparency of the cache only for a cache whose entries all match their pages. A cache seeded with other values keeps returning them, as the code does.
