/** The chapter-assembly loop of WebToEpubNovel.py:89-141: it walks the
    `<dd>` entries of the index page in order, fetches every entry that has a
    usable link, and appends one chapter document per such entry to the
    book and to the `chapters` list, whether or not its fetch succeeded.

    `respond(index)` is the oracle for the fetches of the entry at 1-based
    position `index` (see module Fetch); `convert` is the
    simplified-to-traditional conversion. */
module Assembly {
  import opened Wrappers
  import opened Text
  import opened Fetch
  import opened Progress

  /** The fixed host that chapter links are relative to. */
  const BaseUrl: string := "https://uukanshu.cc"

  /** The first `<a>` inside a `<dd>`: its text, and its `href` attribute
      (None when the tag has no such attribute). */
  datatype Anchor = Anchor(text: string, href: Option<string>)

  /** One `<dd>` of the chapter list, reduced to `dd.find('a')`. */
  datatype ListEntry = ListEntry(anchor: Option<Anchor>)

  /** The guard `link and link['href']` holds: there is an `<a>` and its
      `href` is a non-empty string. */
  predicate Usable(e: ListEntry)
  {
    e.anchor.Some? && e.anchor.value.href.Some? && e.anchor.value.href.value != ""
  }

  /** `link['href']` raises KeyError: there is an `<a>` without an `href`
      attribute. Nothing catches it, so the run stops there. */
  predicate MissingHref(e: ListEntry)
  {
    e.anchor.Some? && e.anchor.value.href.None?
  }

  /** A chapter document (`epub.EpubHtml`): title, file name and XHTML body. */
  datatype Chapter = Chapter(title: string, fileName: string, content: string)

  /** What one usable entry contributes: its chapter document, and the
      failure message its fetch printed, if any. */
  datatype Built = Built(chapter: Chapter, failure: Option<string>)

  /** The body of the loop for a link with text `text` and `href` `href` at
      1-based position `index` (WebToEpubNovel.py:93-134): the title is the
      converted, stripped link text, the page is fetched from the absolute
      URL, and the chapter document holds the title and the formatted body. */
  function BuildFor(text: string, href: string, index: nat, respond: nat -> nat -> Response,
                    convert: string -> string): (r: Built)
  {
    var title := convert(Strip(text));
    var f := FetchSpec(BaseUrl + href, respond(index), convert, DefaultMaxRetries);
    Built(Chapter(title, ChapterFileName(title), ChapterDocument(title, f.content)), f.failure)
  }

  /** BuildFor with the oracle and the conversion fixed. */
  function Builder(respond: nat -> nat -> Response, convert: string -> string)
    : (r: (string, string, nat) -> Built)
  {
    (text: string, href: string, index: nat) => BuildFor(text, href, index, respond, convert)
  }

  /** What the loop has built: the chapter list, the positions it printed
      progress for, the failure messages it printed, and whether it stopped
      on a KeyError. */
  datatype Assembled = Assembled(chapters: seq<Chapter>, reported: seq<nat>, log: seq<string>,
                                 aborted: bool)

  /** The effect of visiting the entry `e` at 1-based position `n` of a list
      of `total` entries, with `prev` the state before it
      (WebToEpubNovel.py:90-141); `build` makes the chapter of a usable link. */
  function Step(prev: Assembled, e: ListEntry, n: nat, total: nat,
                build: (string, string, nat) -> Built): (r: Assembled)
  {
    if prev.aborted || e.anchor.None? then prev
    else if MissingHref(e) then prev.(aborted := true)
    else if !Usable(e) then prev
    else
      var b := build(e.anchor.value.text, e.anchor.value.href.value, n);
      Assembled(prev.chapters + [b.chapter],
                prev.reported + (if ShouldReport(n, total) then [n] else []),
                prev.log + (if b.failure.Some? then [b.failure.value] else []),
                false)
  }

  /** The state after the first `n` entries of `links` have been visited. */
  function AssembleWith(links: seq<ListEntry>, n: nat, build: (string, string, nat) -> Built)
    : (r: Assembled)
    requires n <= |links|
  {
    if n == 0 then Assembled([], [], [], false)
    else Step(AssembleWith(links, n - 1, build), links[n - 1], n, |links|, build)
  }

  /** The state the loop of WebToEpubNovel.py:89-141 ends in. */
  function AssembleSpec(links: seq<ListEntry>, respond: nat -> nat -> Response,
                        convert: string -> string): (r: Assembled)
  {
    AssembleWith(links, |links|, Builder(respond, convert))
  }

  /** Every element of `u` is the 1-based position of a usable entry. */
  predicate UsableAt(links: seq<ListEntry>, u: seq<nat>)
  {
    forall k :: 0 <= k < |u| ==> 1 <= u[k] <= |links| && Usable(links[u[k] - 1])
  }

  /** The 1-based positions among the first `n` entries that have a usable
      link, in order. */
  function UsablePositions(links: seq<ListEntry>, n: nat): (u: seq<nat>)
    requires n <= |links|
    ensures UsableAt(links, u)
  {
    if n == 0 then []
    else UsablePositions(links, n - 1) + (if Usable(links[n - 1]) then [n] else [])
  }

  /** UsablePositions lists, in increasing order, exactly the positions up to
      `n` whose entry has a usable link. */
  lemma {:induction false} UsablePositionsSpec(links: seq<ListEntry>, n: nat)
    requires n <= |links|
    ensures forall k :: 0 <= k < |UsablePositions(links, n)| ==> UsablePositions(links, n)[k] <= n
    ensures forall k1, k2 :: 0 <= k1 < k2 < |UsablePositions(links, n)| ==>
      UsablePositions(links, n)[k1] < UsablePositions(links, n)[k2]
    ensures forall j :: 1 <= j <= n ==> (j in UsablePositions(links, n) <==> Usable(links[j - 1]))
  {
    if n > 0 {
      UsablePositionsSpec(links, n - 1);
      var u := UsablePositions(links, n);
      var v := UsablePositions(links, n - 1);
      assert u == v + (if Usable(links[n - 1]) then [n] else []);
      assert n !in v by {
        assert forall k :: 0 <= k < |v| ==> v[k] != n;
      }
    }
  }

  /** What `build` makes of the entry at position `p`. */
  function BuiltAt(links: seq<ListEntry>, p: nat, build: (string, string, nat) -> Built): (r: Built)
    requires 1 <= p <= |links| && Usable(links[p - 1])
  {
    build(links[p - 1].anchor.value.text, links[p - 1].anchor.value.href.value, p)
  }

  /** The chapters built for the entries at positions `u`, in that order. */
  function ChaptersOf(links: seq<ListEntry>, u: seq<nat>, build: (string, string, nat) -> Built)
    : (r: seq<Chapter>)
    requires UsableAt(links, u)
  {
    seq(|u|, k requires 0 <= k < |u| => BuiltAt(links, u[k], build).chapter)
  }

  /** What `build` makes of the entries at positions `u`, in that order. */
  function BuiltsOf(links: seq<ListEntry>, u: seq<nat>, build: (string, string, nat) -> Built)
    : (r: seq<Built>)
    requires UsableAt(links, u)
  {
    seq(|u|, k requires 0 <= k < |u| => BuiltAt(links, u[k], build))
  }

  /** The failure messages among `bs`, in order. */
  function Failures(bs: seq<Built>): (r: seq<string>)
  {
    if bs == [] then []
    else
      var f := bs[|bs| - 1].failure;
      Failures(bs[..|bs| - 1]) + (if f.Some? then [f.value] else [])
  }

  /** The e-book container: the documents added to it, in order. */
  class EpubBook {
    var items: seq<Chapter>

    constructor ()
      ensures items == []
    {
      items := [];
    }

    /** `book.add_item(chapter)`. */
    method AddItem(c: Chapter)
      modifies this
      ensures items == old(items) + [c]
    {
      items := items + [c];
    }
  }

  /** The body of the loop for an entry with a usable link
      (WebToEpubNovel.py:93-134): convert the title, fetch the page, format
      the body and build the chapter document. */
  method FetchAndFormat(link: Anchor, index: nat, respond: nat -> nat -> Response,
                        convert: string -> string)
    returns (chapter: Chapter, failure: Option<string>)
    requires link.href.Some?
    ensures Built(chapter, failure) == Builder(respond, convert)(link.text, link.href.value, index)
  {
    var chapterTitle := convert(Strip(link.text));
    var chapterUrl := BaseUrl + link.href.value;
    var chapterContent, attempts, sleeps;
    chapterContent, attempts, sleeps, failure :=
      FetchChapterContent(chapterUrl, respond(index), convert, DefaultMaxRetries);
    chapter := Chapter(chapterTitle, ChapterFileName(chapterTitle),
                       ChapterDocument(chapterTitle, chapterContent));
  }

  /** The loop of WebToEpubNovel.py:89-141. */
  method AssembleChapters(chapterLinks: seq<ListEntry>, respond: nat -> nat -> Response,
                          convert: string -> string, book: EpubBook)
    returns (chapters: seq<Chapter>, reported: seq<nat>, log: seq<string>, aborted: bool)
    modifies book
    ensures Assembled(chapters, reported, log, aborted) == AssembleSpec(chapterLinks, respond, convert)
    ensures book.items == old(book.items) + chapters
  {
    ghost var items0 := book.items;
    var totalChapters := |chapterLinks|;
    var progressInterval := ProgressInterval(totalChapters);
    chapters, reported, log, aborted := [], [], [], false;
    var i := 0;
    while i < |chapterLinks| && !aborted
      invariant 0 <= i <= |chapterLinks|
      invariant Assembled(chapters, reported, log, aborted)
             == AssembleWith(chapterLinks, i, Builder(respond, convert))
      invariant book.items == items0 + chapters
    {
      chapters, reported, log, aborted :=
        VisitEntry(chapterLinks[i], i + 1, totalChapters, progressInterval, respond, convert,
                   book, chapters, reported, log);
      i := i + 1;
    }
    if aborted {
      AbortedStays(chapterLinks, i, |chapterLinks|, Builder(respond, convert));
    }
  }

  /** One pass of the loop body, WebToEpubNovel.py:92-141, for the entry `dd`
      at 1-based position `index`. */
  method VisitEntry(dd: ListEntry, index: nat, totalChapters: nat, progressInterval: nat,
                    respond: nat -> nat -> Response, convert: string -> string, book: EpubBook,
                    chapters0: seq<Chapter>, reported0: seq<nat>, log0: seq<string>)
    returns (chapters: seq<Chapter>, reported: seq<nat>, log: seq<string>, aborted: bool)
    requires progressInterval == ProgressInterval(totalChapters)
    modifies book
    ensures Assembled(chapters, reported, log, aborted)
         == Step(Assembled(chapters0, reported0, log0, false), dd, index, totalChapters,
                 Builder(respond, convert))
    ensures book.items == old(book.items) + chapters[|chapters0|..]
  {
    chapters, reported, log, aborted := chapters0, reported0, log0, false;
    if dd.anchor.Some? {
      var link := dd.anchor.value;
      if link.href.None? {
        aborted := true;
      } else if link.href.value != "" {
        var chapter, failure := FetchAndFormat(link, index, respond, convert);
        ghost var b := Builder(respond, convert)(link.text, link.href.value, index);
        assert chapter == b.chapter && failure == b.failure;
        if failure.Some? {
          log := log + [failure.value];
        }
        book.AddItem(chapter);
        chapters := chapters + [chapter];
        if index % progressInterval == 0 || index == totalChapters {
          reported := reported + [index];
        }
      }
    }
  }

  // ---------------------------------------------------------------------
  // Properties of the loop, for any way of building a chapter

  /** Once the loop has stopped on a KeyError, later entries change nothing. */
  lemma {:induction false} AbortedStays(links: seq<ListEntry>, i: nat, n: nat,
                                        build: (string, string, nat) -> Built)
    requires i <= n <= |links|
    requires AssembleWith(links, i, build).aborted
    ensures AssembleWith(links, n, build) == AssembleWith(links, i, build)
    decreases n - i
  {
    if i < n {
      AbortedStays(links, i, n - 1, build);
    }
  }

  /** The loop stops exactly when some visited entry has an `<a>` without
      `href`. */
  lemma {:induction false} AbortedIff(links: seq<ListEntry>, n: nat,
                                      build: (string, string, nat) -> Built)
    requires n <= |links|
    ensures AssembleWith(links, n, build).aborted <==> exists j :: 0 <= j < n && MissingHref(links[j])
  {
    if n > 0 {
      AbortedIff(links, n - 1, build);
      if MissingHref(links[n - 1]) {
        assert exists j :: 0 <= j < n && MissingHref(links[j]);
      }
      if exists j :: 0 <= j < n && MissingHref(links[j]) {
        var j :| 0 <= j < n && MissingHref(links[j]);
        if j < n - 1 {
          assert exists j' :: 0 <= j' < n - 1 && MissingHref(links[j']);
        }
      }
      if exists j :: 0 <= j < n - 1 && MissingHref(links[j]) {
        var j :| 0 <= j < n - 1 && MissingHref(links[j]);
        assert 0 <= j < n && MissingHref(links[j]);
      }
    }
  }

  /** Without a KeyError the chapter list holds, in discovery order, exactly
      one chapter per usable entry, built from that entry alone, and the log
      holds the failure messages of those entries, in the same order. */
  lemma {:induction false} ChaptersFollowUsableEntries(links: seq<ListEntry>, n: nat,
                                                       build: (string, string, nat) -> Built)
    requires n <= |links|
    requires forall j :: 0 <= j < n ==> !MissingHref(links[j])
    ensures var a := AssembleWith(links, n, build);
      var u := UsablePositions(links, n);
      !a.aborted && a.chapters == ChaptersOf(links, u, build) && a.log == Failures(BuiltsOf(links, u, build))
  {
    if n > 0 {
      ChaptersFollowUsableEntries(links, n - 1, build);
      ChaptersStep(links, n, AssembleWith(links, n - 1, build), build);
    }
  }

  /** The inductive step of ChaptersFollowUsableEntries. */
  lemma ChaptersStep(links: seq<ListEntry>, n: nat, prev: Assembled,
                     build: (string, string, nat) -> Built)
    requires 1 <= n <= |links|
    requires !prev.aborted && !MissingHref(links[n - 1])
    requires var v := UsablePositions(links, n - 1);
      prev.chapters == ChaptersOf(links, v, build) && prev.log == Failures(BuiltsOf(links, v, build))
    ensures var a := Step(prev, links[n - 1], n, |links|, build);
      var u := UsablePositions(links, n);
      !a.aborted && a.chapters == ChaptersOf(links, u, build) && a.log == Failures(BuiltsOf(links, u, build))
  {
    var u := UsablePositions(links, n);
    var v := UsablePositions(links, n - 1);
    if Usable(links[n - 1]) {
      assert u == v + [n];
      ChaptersOfAppend(links, v, n, build);
      FailuresOfAppend(links, v, n, build);
    } else {
      assert u == v;
    }
  }

  /** One more usable position adds its chapter at the end. */
  lemma ChaptersOfAppend(links: seq<ListEntry>, v: seq<nat>, n: nat,
                         build: (string, string, nat) -> Built)
    requires UsableAt(links, v) && 1 <= n <= |links| && Usable(links[n - 1])
    ensures UsableAt(links, v + [n])
    ensures ChaptersOf(links, v + [n], build) == ChaptersOf(links, v, build) + [BuiltAt(links, n, build).chapter]
  {
    var u := v + [n];
    assert forall k :: 0 <= k < |v| ==> u[k] == v[k];
  }

  /** One more usable position adds its failure message, if any, at the end. */
  lemma FailuresOfAppend(links: seq<ListEntry>, v: seq<nat>, n: nat,
                         build: (string, string, nat) -> Built)
    requires UsableAt(links, v) && 1 <= n <= |links| && Usable(links[n - 1])
    ensures UsableAt(links, v + [n])
    ensures var f := BuiltAt(links, n, build).failure;
      Failures(BuiltsOf(links, v + [n], build))
        == Failures(BuiltsOf(links, v, build)) + (if f.Some? then [f.value] else [])
  {
    var u := v + [n];
    assert forall k :: 0 <= k < |v| ==> u[k] == v[k];
    var bs := BuiltsOf(links, u, build);
    assert bs[..|bs| - 1] == BuiltsOf(links, v, build);
  }

  /** Without a KeyError, progress is printed for exactly the usable
      positions that the reporting rule selects, in increasing order. */
  lemma {:induction false} ReportedFollowRule(links: seq<ListEntry>, n: nat,
                                              build: (string, string, nat) -> Built)
    requires n <= |links|
    requires forall j :: 0 <= j < n ==> !MissingHref(links[j])
    ensures !AssembleWith(links, n, build).aborted
    ensures forall j :: j in AssembleWith(links, n, build).reported <==>
      1 <= j <= n && Usable(links[j - 1]) && ShouldReport(j, |links|)
    ensures forall k1, k2 :: 0 <= k1 < k2 < |AssembleWith(links, n, build).reported| ==>
      AssembleWith(links, n, build).reported[k1] < AssembleWith(links, n, build).reported[k2]
  {
    if n > 0 {
      ReportedFollowRule(links, n - 1, build);
      ReportStep(links, n, AssembleWith(links, n - 1, build), build);
    }
  }

  /** The inductive step of ReportedFollowRule. */
  lemma ReportStep(links: seq<ListEntry>, n: nat, prev: Assembled,
                   build: (string, string, nat) -> Built)
    requires 1 <= n <= |links|
    requires !prev.aborted && !MissingHref(links[n - 1])
    requires forall j :: j in prev.reported <==>
      1 <= j <= n - 1 && Usable(links[j - 1]) && ShouldReport(j, |links|)
    requires forall k1, k2 :: 0 <= k1 < k2 < |prev.reported| ==> prev.reported[k1] < prev.reported[k2]
    ensures var a := Step(prev, links[n - 1], n, |links|, build);
      !a.aborted &&
      (forall j :: j in a.reported <==> 1 <= j <= n && Usable(links[j - 1]) && ShouldReport(j, |links|)) &&
      (forall k1, k2 :: 0 <= k1 < k2 < |a.reported| ==> a.reported[k1] < a.reported[k2])
  {
    var r := prev.reported;
    var a := Step(prev, links[n - 1], n, |links|, build);
    if Usable(links[n - 1]) && ShouldReport(n, |links|) {
      assert a.reported == r + [n];
      forall k | 0 <= k < |r|
        ensures r[k] < n
      {
        assert r[k] in r;
      }
    } else {
      assert a.reported == r;
    }
  }

  /** When every entry is usable, the usable positions are 1..n. */
  lemma {:induction false} AllPositions(links: seq<ListEntry>, n: nat)
    requires n <= |links|
    requires forall j :: 0 <= j < n ==> Usable(links[j])
    ensures |UsablePositions(links, n)| == n
    ensures forall k :: 0 <= k < n ==> UsablePositions(links, n)[k] == k + 1
  {
    if n > 0 {
      AllPositions(links, n - 1);
    }
  }

  // ---------------------------------------------------------------------
  // Properties of the program's own chapter builder

  /** A fetch that ran out of retries gives a chapter document with an
      empty paragraph for a body. */
  lemma FailedBuildIsEmpty(text: string, href: string, index: nat,
                           respond: nat -> nat -> Response, convert: string -> string)
    requires BuildFor(text, href, index, respond, convert).failure.Some?
    ensures var c := BuildFor(text, href, index, respond, convert).chapter;
      c.content == "<h1>" + c.title + "</h1><p></p>"
  {
    EmptyChapterDocument(convert(Strip(text)));
  }

  /** The k-th chapter of the book is the one built from the k-th usable
      entry, with that entry's own fetch. */
  lemma ChapterAt(links: seq<ListEntry>, respond: nat -> nat -> Response,
                  convert: string -> string, k: nat)
    requires forall j :: 0 <= j < |links| ==> !MissingHref(links[j])
    requires k < |UsablePositions(links, |links|)|
    ensures |AssembleSpec(links, respond, convert).chapters| == |UsablePositions(links, |links|)|
    ensures AssembleSpec(links, respond, convert).chapters[k]
         == BuiltAt(links, UsablePositions(links, |links|)[k], Builder(respond, convert)).chapter
  {
    ChaptersFollowUsableEntries(links, |links|, Builder(respond, convert));
  }

  /** A chapter whose fetch ran out of retries is still in the list, with an
      empty paragraph for a body. */
  lemma ExhaustedChapterKept(links: seq<ListEntry>, respond: nat -> nat -> Response,
                             convert: string -> string, k: nat)
    requires forall j :: 0 <= j < |links| ==> !MissingHref(links[j])
    requires k < |UsablePositions(links, |links|)|
    requires BuiltAt(links, UsablePositions(links, |links|)[k], Builder(respond, convert)).failure.Some?
    ensures var c := AssembleSpec(links, respond, convert).chapters;
      k < |c| && c[k].content == "<h1>" + c[k].title + "</h1><p></p>"
  {
    ChapterAt(links, respond, convert, k);
    var p := UsablePositions(links, |links|)[k];
    var e := links[p - 1].anchor.value;
    assert BuiltAt(links, p, Builder(respond, convert))
        == BuildFor(e.text, e.href.value, p, respond, convert);
    FailedBuildIsEmpty(e.text, e.href.value, p, respond, convert);
  }

  /** With every entry linked, K entries give exactly K chapters, in
      listed order, however many of their fetches failed. */
  lemma EveryLinkedEntryBecomesAChapter(links: seq<ListEntry>, respond: nat -> nat -> Response,
                                        convert: string -> string)
    requires forall j :: 0 <= j < |links| ==> Usable(links[j])
    ensures |AssembleSpec(links, respond, convert).chapters| == |links|
    ensures forall k :: 0 <= k < |links| ==>
      AssembleSpec(links, respond, convert).chapters[k]
        == BuiltAt(links, k + 1, Builder(respond, convert)).chapter
  {
    AllPositions(links, |links|);
    ChaptersFollowUsableEntries(links, |links|, Builder(respond, convert));
  }

  /** When the last entry is usable and nothing stopped the loop, the final
      position is reported. */
  lemma LastChapterReported(links: seq<ListEntry>, respond: nat -> nat -> Response,
                            convert: string -> string)
    requires |links| >= 1 && Usable(links[|links| - 1])
    requires forall j :: 0 <= j < |links| ==> !MissingHref(links[j])
    ensures |links| in AssembleSpec(links, respond, convert).reported
  {
    ReportedFollowRule(links, |links|, Builder(respond, convert));
    ReportedPositions(|links|, |links|);
  }
}
