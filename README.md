# Chapter retrieval and assembly of WebToEpubNovel.py

`WebToEpubNovel.py` turns a novel on uukanshu.cc into an EPUB file. It reads
the index page, then walks `<dd>` entries of the chapter list in order. For
every entry whose first `<a>` has a non-empty `href` it does three things.
First, it fetches the chapter page with a bounded retry loop
(`fetch_chapter_content`). Second, it rewrites the newlines of the text into
paragraph breaks. Third, it adds one chapter document to the book. At fixed
intervals it prints a progress line. The output file is named after the
author and the title.

This project models that core in Dafny:

- `wrappers.dfy` holds the `Option` type.
- `text.dfy` (module `Text`) covers Python's `str.strip`, the
  two-stage body rewrite (`replace` of the indented break, then
  `re.sub(r'(\n)+', '</p><p>', …)`), the chapter document, and the chapter
  and book file names.
- `fetch.dfy` (module `Fetch`) covers the retry loop as a method with loop
  invariants. It is proved equal to the specification function `FetchSpec`. The
  lemmas give attempt counts, sleep counts and the result for every pattern
  of server answers.
- `progress.dfy` (module `Progress`) covers `progress_interval` and the
  reporting condition.
- `assembly.dfy` (module `Assembly`) covers the chapter loop as a method over
  a book object whose item list it extends. It is proved equal to the
  specification function `AssembleSpec`. The lemmas cover chapter order, kept
  failures, the progress positions reported, and the run stopping on an
  `<a>` without `href`.

The network and the HTML parser are an oracle. `respond(index)(k)` is the
answer to the `k+1`-th request for the entry at 1-based position `index`.
Each answer is reduced to its status code and the text of the content region
`div.readcotent.bbb.font-normal`, or `None` when the page has no such region.
The simplified-to-traditional conversion `cc.convert` is an uninterpreted
function parameter `convert`.

The string literal at lines 127-130 spans several source lines. It is
read as the pattern `\n` for the regular expression. The `replace` pattern is
read as newline, CR LF, and two EM SPACE characters (`IndentedBreak`).
The `replace` runs first. So a plain newline directly before an indented
break is not part of the same run for `re.sub`. Such a pair of line breaks
gives two paragraph breaks with an empty paragraph between them
(`Text.FormatNewlineThenIndentedBreak`). A run of newlines that the
`replace` leaves alone gives exactly one paragraph break (`Text.CollapseRun`).

`link['href']` on a tag without that attribute raises `KeyError`, and nothing
catches it. The model therefore stops the loop there and records
`aborted`.

## Model

| member | source | states |
|---|---|---|
| Text.TrimLeft | WebToEpubNovel.py:109 | models `lstrip()` over Python's `isspace` set; its contract is `Text.TrimLeftSpec` |
| Text.TrimRight | WebToEpubNovel.py:109 | models `rstrip()`; its contract is `Text.TrimRightSpec` |
| Text.Strip | WebToEpubNovel.py:109 | models `strip()` of the region text (and of the link text at line 93) as `rstrip` after `lstrip`; its contract is `Text.StripSpec` |
| Text.ReplaceIndentedBreaks | WebToEpubNovel.py:128-130 | models `str.replace` of the indented break by `</p><p>` as a left-to-right scan over non-overlapping matches; its contract is `Text.ReplaceFirstOccurrence`, `Text.ReplaceWithoutIndentedBreak` and the other `Replace…` lemmas |
| Text.DropBreaks | WebToEpubNovel.py:127 | skips the newlines a match of `(\n)+` consumes; it never lengthens its input and shortens it when it starts with a newline; the rest of its contract is `Text.DropBreaksSpec` |
| Text.CollapseBreaks | WebToEpubNovel.py:127 | models `re.sub(r'(\n)+', '</p><p>', …)`; its contract is `Text.CollapseRun`, `Text.CollapseHasNoBreaks`, `Text.CollapseConcat` and `Text.CollapseWithoutBreaks` |
| Text.FormatBody | WebToEpubNovel.py:127-130 | the formatted body: the `replace` stage, then the `re.sub` stage; its contract is `Text.FormatBodySpec`, `Text.FormatAfterPlain`, `Text.FormatNewlineThenIndentedBreak` and `Text.FormatWithoutBreaks` |
| Text.ChapterDocument | WebToEpubNovel.py:134 | models the f-string `<h1>{title}</h1><p>{body}</p>`; its contract is `Text.EmptyChapterDocument` |
| Text.ChapterFileName | WebToEpubNovel.py:133 | models `f"{chapter_title}.xhtml"`; its contract is `Text.ChapterFileNameDeterminedByTitle` |
| Text.EpubFileName | WebToEpubNovel.py:156 | models `f'{author} - {title}.epub'`; its contract is `Text.EpubFileNameTitle`, `Text.EpubFileNameInjectiveInTitle` and `Text.EpubFileNameCollision` |
| Text.TrimLeftSpec | WebToEpubNovel.py:109 | `lstrip` removes a prefix made only of Python whitespace, and what is left does not start with whitespace |
| Text.TrimRightSpec | WebToEpubNovel.py:109 | `rstrip` removes a suffix made only of whitespace, and what is left does not end with whitespace |
| Text.StripSpec | WebToEpubNovel.py:109 | `strip()` gives "" exactly for blank text; otherwise its result is a contiguous piece of the input whose first and last characters are not whitespace |
| Text.DropBreaksSpec | WebToEpubNovel.py:127-130 | skipping a run of newlines removes a prefix made only of newlines, and the rest starts with something else |
| Text.ReplaceWithoutBreaks | WebToEpubNovel.py:128-130 | the indented-break `replace` leaves text without newlines unchanged |
| Text.ReplaceAtFront | WebToEpubNovel.py:128-130 | an indented break at the front becomes `</p><p>` and the scan goes on after it |
| Text.ReplacePlainFirst | WebToEpubNovel.py:128-130 | a first character that is not a newline is copied and the scan goes on from the next character |
| Text.ReplacePlainPrefix | WebToEpubNovel.py:128-130 | text without newlines is copied unchanged, whatever follows it |
| Text.ReplaceAfterPlain | WebToEpubNovel.py:128-130 | the first indented break after text without newlines becomes exactly one `</p><p>`, and the rest is replaced independently |
| Text.ReplaceWithoutIndentedBreak | WebToEpubNovel.py:128-130 | text in which the indented break does not occur is left unchanged by the `replace` |
| Text.OccursShift | WebToEpubNovel.py:128-130 | a match in the tail of the text is a match one position further in the whole text |
| Text.ReplaceNoMatchFirst | WebToEpubNovel.py:128-130 | when the indented break does not start at the front, the scan copies the first character and goes on |
| Text.ReplaceMatchFirst | WebToEpubNovel.py:128-130 | when the indented break starts at the front, the scan writes one `</p><p>` and resumes after the match |
| Text.ReplaceFirstOccurrence | WebToEpubNovel.py:128-130 | the first occurrence of the indented break becomes one `</p><p>`; everything before it is copied and everything after it is replaced on its own |
| Text.ReplaceFirstOccurrenceJoin | WebToEpubNovel.py:128-130 | the pieces around the first character of the text join back as the first-occurrence law states |
| Text.ReplaceLoneNewline | WebToEpubNovel.py:128-130 | a newline not followed by a carriage return cannot start an indented break, so it is copied |
| Text.CollapseHasNoBreaks | WebToEpubNovel.py:127 | no newline survives `re.sub(r'(\n)+', …)` |
| Text.CollapseRun | WebToEpubNovel.py:127 | a maximal run of k >= 1 newlines becomes exactly one `</p><p>` |
| Text.CollapseConcat | WebToEpubNovel.py:127 | the substitution works piece by piece when the cut does not split a run of newlines |
| Text.AllBreaksThen | WebToEpubNovel.py:127 | text made only of newlines becomes one `</p><p>`, including when followed by text that does not continue the run |
| Text.DropPrefix | WebToEpubNovel.py:127 | skipping the leading newlines of `a + b` skips only those of `a` when `a` does not consist only of newlines |
| Text.CollapseWithoutBreaks | WebToEpubNovel.py:127 | text without newlines is not changed by the substitution |
| Text.CollapseIdempotent | WebToEpubNovel.py:127 | applying the substitution twice gives the same as once |
| Text.FormatBodySpec | WebToEpubNovel.py:127-130 | the formatted body holds no newline, and an empty body stays empty |
| Text.CollapseAfterPlain | WebToEpubNovel.py:127 | text without newlines in front is copied by the substitution, and the rest is collapsed on its own |
| Text.CollapseAfterParagraphBreak | WebToEpubNovel.py:127 | a `</p><p>` in front is copied by the substitution |
| Text.FormatOfReplaced | WebToEpubNovel.py:127-130 | when the `replace` stage gives plain text, `</p><p>` and a rest, the body formats to that text, `</p><p>` and the collapsed rest |
| Text.FormatAfterPlain | WebToEpubNovel.py:127-130 | in the formatted body, an indented break after text without newlines becomes exactly one `</p><p>`, and the rest is formatted independently |
| Text.FormatNewlineThenIndentedBreak | WebToEpubNovel.py:127-130 | a plain newline directly before an indented break is not merged with it: the body gets two `</p><p>` with an empty paragraph between them |
| Text.FormatOfNewlineReplaced | WebToEpubNovel.py:127 | the `re.sub` stage of that case turns the lone newline and the following `</p><p>` into two paragraph breaks |
| Text.EmptyParagraphExample | WebToEpubNovel.py:127-130 | "a", newline, indented break, "b" formats to `a</p><p></p><p>b` |
| Text.FormatWithoutIndentedBreak | WebToEpubNovel.py:127-130 | without an indented break, formatting is the newline collapse alone |
| Text.FormatWithoutBreaks | WebToEpubNovel.py:127-130 | a body without newlines is kept as it is |
| Text.EmptyChapterDocument | WebToEpubNovel.py:134 | the document of an empty body is the heading followed by one empty paragraph |
| Text.ChapterFileNameDeterminedByTitle | WebToEpubNovel.py:133 | two chapters get the same document name if and only if their titles are equal |
| Text.EpubFileNameTitle | WebToEpubNovel.py:156 | the book file name is author, `" - "`, title and `.epub`, in that order, so each part can be read back at its position |
| Text.EpubFileNameInjectiveInTitle | WebToEpubNovel.py:156 | for one author, different titles give different file names |
| Text.EpubFileNameCollision | WebToEpubNovel.py:156 | different (author, title) pairs can share a file name when the separator occurs inside one of them |
| Fetch.FailureMessage | WebToEpubNovel.py:120 | the message printed on exhaustion, with the chapter URL in it; `Fetch.FetchExhausted` states when it is printed |
| Fetch.AttemptText | WebToEpubNovel.py:104-109 | what one attempt leaves in `chapter_content`: the stripped region text of a 200 answer that has the region, "" otherwise; its contract is `Fetch.EmptyAttemptCases` |
| Fetch.Budget | WebToEpubNovel.py:100 | the number of attempts the loop condition allows: `max_retries`, or none when it is not positive; `Fetch.FetchBounded` states its use |
| Fetch.FetchSpec | WebToEpubNovel.py:97-122 | the outcome of `fetch_chapter_content`, defined by the first successful attempt; its contract is `Fetch.FetchBounded`, `Fetch.FetchSucceedsOnAttempt`, `Fetch.FetchExhausted`, `Fetch.FetchSucceedsIff`, `Fetch.FetchIgnoresLaterAnswers` and `Fetch.EmptyAnswersInterchangeable` |
| Fetch.FirstSuccess | WebToEpubNovel.py:100-114 | the attempt found is below the bound, non-empty, and preceded only by empty attempts; when none is found, every attempt within the bound is empty |
| Fetch.FirstSuccessFrom | WebToEpubNovel.py:100-114 | the first non-empty attempt from a given start is the one the search returns |
| Fetch.FirstSuccessNoneFrom | WebToEpubNovel.py:100-114 | when all attempts up to the bound are empty, the search returns nothing |
| Fetch.FetchChapterContent | WebToEpubNovel.py:97-122 | the retry loop returns exactly the content, request count, sleep count and failure message of `FetchSpec` |
| Fetch.EmptyAttemptCases | WebToEpubNovel.py:104-114 | an attempt counts as empty exactly when the status is not 200, the content region is missing, or the region is blank |
| Fetch.FetchBounded | WebToEpubNovel.py:98-114 | at most `max_retries` requests; no more sleeps than requests; the failure message appears exactly when every request was followed by a sleep; a bound <= 0 makes no request and returns "" with the failure message |
| Fetch.FetchSucceedsOnAttempt | WebToEpubNovel.py:100-118 | empty attempts 1..N-1 followed by a non-empty attempt N <= `max_retries` give exactly N requests and N-1 sleeps and return `convert` of attempt N's text |
| Fetch.FetchExhausted | WebToEpubNovel.py:112-122 | when all `max_retries` attempts are empty, the call returns "" after `max_retries` requests and sleeps and takes the failure branch |
| Fetch.FetchSucceedsIff | WebToEpubNovel.py:100-118 | the fetch succeeds if and only if some attempt within the bound is non-empty; the result is non-empty under the same condition when `convert` keeps non-empty text non-empty |
| Fetch.FetchIgnoresLaterAnswers | WebToEpubNovel.py:100-114 | answers after the last request made have no effect on the outcome |
| Fetch.EmptyAnswersInterchangeable | WebToEpubNovel.py:104-114 | a non-200 answer, a page without the region and a blank region behave the same; the number of sleeps is the same too |
| Fetch.SixthAttemptScenario | WebToEpubNovel.py:97-122 | five blank pages followed by text, under a bound of 10, give 6 requests, 5 sleeps and the converted text |
| Progress.ProgressInterval | WebToEpubNovel.py:84 | the interval is at least 1; it is 1 for fewer than 100 chapters, and otherwise the chapter count divided by 100, rounded down |
| Progress.ShouldReport | WebToEpubNovel.py:139 | models `index % progress_interval == 0 or index == total_chapters`; its contract is `Progress.ReportedPositions` and `Progress.ReportGap` |
| Progress.ReportedPositions | WebToEpubNovel.py:139 | the final index and every multiple of the interval satisfy the report condition; any other index that satisfies it is a whole number of intervals |
| Progress.ReportGap | WebToEpubNovel.py:84 | from every index, a reported index is less than one interval ahead; with 100 or more chapters the interval is at most one percent of the book |
| Assembly.Usable | WebToEpubNovel.py:91-92 | models the guard `link and link['href']`: an `<a>` exists and its `href` is a non-empty string; `Assembly.UsablePositionsSpec` and `Assembly.ChaptersFollowUsableEntries` state its effect |
| Assembly.MissingHref | WebToEpubNovel.py:92 | an `<a>` without an `href` attribute, on which `link['href']` raises `KeyError`; its contract is `Assembly.AbortedIff` |
| Assembly.BuildFor | WebToEpubNovel.py:93-134 | what one usable entry contributes: the chapter built from the converted, stripped title, the fetch of `base_url + href` and the formatted document, plus its failure message; `Assembly.FetchAndFormat` implements it and `Assembly.FailedBuildIsEmpty` states its failure case |
| Assembly.Step | WebToEpubNovel.py:90-141 | one pass of the loop body on the state so far; `Assembly.VisitEntry` implements it and `Assembly.ChaptersStep`, `Assembly.ReportStep` and `Assembly.AbortedStays` state its contract |
| Assembly.AssembleWith | WebToEpubNovel.py:89-141 | the state after the first n entries, for any chapter builder; its contract is `Assembly.ChaptersFollowUsableEntries`, `Assembly.ReportedFollowRule`, `Assembly.AbortedIff` and `Assembly.AbortedStays` |
| Assembly.AssembleSpec | WebToEpubNovel.py:89-141 | the state the loop ends in with the program's own builder; `Assembly.AssembleChapters` implements it and `Assembly.ChapterAt`, `Assembly.ExhaustedChapterKept`, `Assembly.EveryLinkedEntryBecomesAChapter` and `Assembly.LastChapterReported` state its contract |
| Assembly.UsablePositions | WebToEpubNovel.py:90-92 | every position listed passes the guard `link and link['href']` |
| Assembly.UsablePositionsSpec | WebToEpubNovel.py:90-92 | the usable positions are strictly increasing, never beyond the prefix, and contain a position if and only if its entry passes the guard |
| Assembly.EpubBook.constructor | WebToEpubNovel.py:65 | a new book holds no items |
| Assembly.EpubBook.AddItem | WebToEpubNovel.py:135 | `add_item` appends the chapter to the book's items, and changes nothing else in the model's book |
| Assembly.FetchAndFormat | WebToEpubNovel.py:93-134 | the title is the converted, stripped link text; the page is fetched from `base_url + href` with 50 retries; the chapter holds the title, `title.xhtml` and the formatted document; the result equals `BuildFor` |
| Assembly.VisitEntry | WebToEpubNovel.py:91-141 | one pass of the loop body has exactly the effect of `Step`; the book gains exactly the chapters appended in that pass |
| Assembly.AssembleChapters | WebToEpubNovel.py:89-141 | the loop's chapters, progress positions, failure log and abort flag equal `AssembleSpec`, and the book gains exactly the chapters list |
| Assembly.AbortedStays | WebToEpubNovel.py:92 | once the `KeyError` has stopped the run, later entries change nothing |
| Assembly.AbortedIff | WebToEpubNovel.py:92 | the run stops if and only if some visited entry has an `<a>` without `href` |
| Assembly.ChaptersFollowUsableEntries | WebToEpubNovel.py:89-136 | without a `KeyError`, the chapters are exactly one per usable entry, in listed order, each built from its own entry; the failure log gives those entries' failures in the same order |
| Assembly.ChaptersStep | WebToEpubNovel.py:92-136 | one loop pass keeps the chapter list and the failure log in step with the usable positions |
| Assembly.ChaptersOfAppend | WebToEpubNovel.py:136 | one more usable position appends its own chapter at the end |
| Assembly.FailuresOfAppend | WebToEpubNovel.py:117-120 | one more usable position appends its own failure message, if it has one, at the end |
| Assembly.ReportedFollowRule | WebToEpubNovel.py:138-141 | without a `KeyError`, progress is printed for exactly the usable positions the rule selects, in increasing order |
| Assembly.ReportStep | WebToEpubNovel.py:139 | one loop pass keeps the reported positions equal to the selected usable positions and increasing |
| Assembly.AllPositions | WebToEpubNovel.py:90-92 | when every entry is usable, the usable positions are 1..n |
| Assembly.FailedBuildIsEmpty | WebToEpubNovel.py:117-134 | a fetch that ran out of retries gives a document holding the heading and an empty paragraph |
| Assembly.ChapterAt | WebToEpubNovel.py:89-136 | the k-th chapter of the book is built from the k-th usable entry and its own fetch |
| Assembly.ExhaustedChapterKept | WebToEpubNovel.py:112-136 | a chapter whose fetch ran out of retries is still in the list, at its position, with an empty body |
| Assembly.EveryLinkedEntryBecomesAChapter | WebToEpubNovel.py:89-136 | when every entry has a usable link, K entries give exactly K chapters in listed order, however many fetches failed |
| Assembly.LastChapterReported | WebToEpubNovel.py:139 | when the last entry is usable and the run has not stopped, the final index is reported |

## Left out

- The HTTP client (`cloudscraper`, `requests`) is left out. Each request is an answer from the `respond` oracle.
- Requests that raise or hang are not modelled. At line 101, `scraper.get` can raise a connection or challenge error, or block with no timeout. Nothing at lines 97-124 catches this, so in the program it ends the whole run instead of counting as an empty attempt. The oracle answers every request, so `Fetch.FetchBounded` and `Fetch.FetchSucceedsIff` only speak about requests that got an answer.
- HTML parsing with BeautifulSoup is left out. Only its outcome enters the model: the `<a>` of a `<dd>`, its text and `href`, and the content region's text or its absence.
- The opencc conversion table is the uninterpreted parameter `convert`. Nothing is assumed about it, not even idempotence.
- `time.sleep(random.uniform(1, 3))` is left out as a delay. Only the number of sleeps is counted.
- The progress percentage at line 140 uses floating-point division and is not modelled. Only which indices print a line is modelled.
- The console messages are left out, except for the fetch failure message (kept in the failure log) and the indices that print progress.
- The index page fetch and the metadata extraction are left out: title, author, cover, synopsis, and the `exit()` paths of lines 21-62.
- The console prompt at line 15 is left out.
- The EPUB metadata, cover, introduction chapter, table of contents, spine, navigation items and the EPUB writing itself are left out (lines 65-79 and 144-160). Adding chapters to the book (`add_item`, line 135) is modelled as `EpubBook.AddItem`.
- The directory creation and the output path join (lines 152-157) are left out. The file name itself is modelled as `EpubFileName`.
- The `lang` attribute of each chapter document is left out, because it is a constant.
- The bookkeeping `add_item` does inside the EPUB library is left out: it gives an item without an id an id of its own and records the book on the item. `EpubBook` keeps only the list of items.
- Fetch.FetchSucceedsIff: the result is non-empty exactly when some attempt succeeded only when `convert` keeps non-empty text non-empty. The lemma states that half under this hypothesis because `convert` is uninterpreted.
- Assembly.LastChapterReported: the final index is reported only when the last `<dd>` has a usable link, because the progress check sits inside the `if` at line 92. The lemma requires this, and `Progress.ReportedPositions` states the unconditional rule for the index itself.
- Assembly.ReportedFollowRule: every multiple of the interval and the final index are reported only when their entry is usable, for the same reason.
- A chapter whose fetch ran out of retries is kept in the book with an empty paragraph for a body, as the code at lines 117-136 does (`Assembly.ExhaustedChapterKept`). Such chapters are not dropped from the book and are not flagged in it.
