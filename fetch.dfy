/** The bounded-retry chapter fetch, `fetch_chapter_content` in
    WebToEpubNovel.py:97-122.

    The HTTP request and the HTML parse are an oracle: `respond(k)` is what
    the server answers to the request made on attempt `k + 1`, reduced to
    its status code and to the text of the content region
    `div.readcotent.bbb.font-normal` when the page holds one. The
    simplified-to-traditional conversion is the parameter `convert`. */
module Fetch {
  import opened Wrappers
  import opened Text

  /** One answer to `scraper.get(chapter_url)`. `region` is the text of the
      content region, or None when `select_one` finds no such element. */
  datatype Response = Response(status: int, region: Option<string>)

  /** The retry bound passed at the call site, WebToEpubNovel.py:124 (it is
      also the parameter's default). */
  const DefaultMaxRetries: int := 50

  /** The message printed when every attempt came back empty. */
  function FailureMessage(chapterUrl: string): (r: string)
  {
    "無法抓取 " + chapterUrl + " 的章節內容，超出重試次數。"
  }

  /** What `chapter_content` holds after one attempt that started with it
      empty (WebToEpubNovel.py:104-109): the stripped region text on a 200
      answer that has the region, "" otherwise. */
  function AttemptText(response: Response): (r: string)
  {
    if response.status == 200 then
      (if response.region.Some? then Strip(response.region.value) else "")
    else ""
  }

  /** The number of attempts the loop is allowed: `max_retries`, or none when
      it is not positive. */
  function Budget(maxRetries: int): (r: nat)
  {
    if maxRetries > 0 then maxRetries else 0
  }

  /** The first attempt, counting from `from`, below the bound that yields
      non-empty text. */
  function FirstSuccess(respond: nat -> Response, from: nat, maxRetries: int): (r: Option<nat>)
    ensures r.Some? ==>
      from <= r.value < maxRetries && AttemptText(respond(r.value)) != "" &&
      forall j :: from <= j < r.value ==> AttemptText(respond(j)) == ""
    ensures r.None? ==> forall j :: from <= j < maxRetries ==> AttemptText(respond(j)) == ""
    decreases if from < maxRetries then maxRetries - from else 0
  {
    if from >= maxRetries then None
    else if AttemptText(respond(from)) != "" then Some(from)
    else FirstSuccess(respond, from + 1, maxRetries)
  }

  /** Everything one call produces: the returned text, how many requests it
      made, how many times it slept, and the failure message if it printed one. */
  datatype FetchOutcome = FetchOutcome(content: string, attempts: nat, sleeps: nat, failure: Option<string>)

  /** The outcome of `fetch_chapter_content(chapter_url, cc, max_retries)`
      as a function of the server's answers. */
  function FetchSpec(chapterUrl: string, respond: nat -> Response, convert: string -> string,
                     maxRetries: int): (r: FetchOutcome)
  {
    match FirstSuccess(respond, 0, maxRetries)
    case Some(k) =>
      var raw := AttemptText(respond(k));
      FetchOutcome(convert(raw), k + 1, k, None)
    case None =>
      FetchOutcome("", Budget(maxRetries), Budget(maxRetries), Some(FailureMessage(chapterUrl)))
  }

  /** The retry loop itself. `retries` counts the empty attempts, each of
      which is followed by one sleep; `attempts` counts the requests. */
  method FetchChapterContent(chapterUrl: string, respond: nat -> Response,
                             convert: string -> string, maxRetries: int)
    returns (chapterContent: string, attempts: nat, sleeps: nat, failure: Option<string>)
    ensures FetchOutcome(chapterContent, attempts, sleeps, failure)
         == FetchSpec(chapterUrl, respond, convert, maxRetries)
  {
    chapterContent := "";
    var retries: int := 0;
    attempts, sleeps := 0, 0;
    while chapterContent == "" && retries < maxRetries
      invariant 0 <= retries <= Budget(maxRetries)
      invariant sleeps == retries
      invariant forall j :: 0 <= j < retries ==> AttemptText(respond(j)) == ""
      invariant chapterContent == "" ==> attempts == retries
      invariant chapterContent != "" ==>
        attempts == retries + 1 && retries < maxRetries &&
        chapterContent == AttemptText(respond(retries))
      decreases maxRetries - retries, if chapterContent == "" then 1 else 0
    {
      var response := respond(attempts);
      attempts := attempts + 1;
      if response.status == 200 {
        chapterContent := if response.region.Some? then Strip(response.region.value) else "";
      }
      if chapterContent == "" {
        // time.sleep(random.uniform(1, 3)): only the number of sleeps is kept
        sleeps := sleeps + 1;
        retries := retries + 1;
      }
    }
    if chapterContent != "" {
      FirstSuccessAt(respond, maxRetries, retries);
      chapterContent := convert(chapterContent);
      failure := None;
    } else {
      FirstSuccessNone(respond, maxRetries);
      failure := Some(FailureMessage(chapterUrl));
    }
  }

  /** An attempt below the bound that is the first non-empty one from
      `from` on is the one the search finds. */
  lemma {:induction false} FirstSuccessFrom(respond: nat -> Response, from: nat, maxRetries: int, k: nat)
    requires from <= k < maxRetries && AttemptText(respond(k)) != ""
    requires forall j :: from <= j < k ==> AttemptText(respond(j)) == ""
    ensures FirstSuccess(respond, from, maxRetries) == Some(k)
    decreases k - from
  {
    if from < k {
      assert AttemptText(respond(from)) == "";
      FirstSuccessFrom(respond, from + 1, maxRetries, k);
    }
  }

  lemma FirstSuccessAt(respond: nat -> Response, maxRetries: int, k: nat)
    requires k < maxRetries && AttemptText(respond(k)) != ""
    requires forall j :: 0 <= j < k ==> AttemptText(respond(j)) == ""
    ensures FirstSuccess(respond, 0, maxRetries) == Some(k)
  {
    FirstSuccessFrom(respond, 0, maxRetries, k);
  }

  /** With every attempt from `from` up to the bound empty, the search finds
      nothing. */
  lemma {:induction false} FirstSuccessNoneFrom(respond: nat -> Response, from: nat, maxRetries: int)
    requires forall j :: from <= j < maxRetries ==> AttemptText(respond(j)) == ""
    ensures FirstSuccess(respond, from, maxRetries) == None
    decreases if from < maxRetries then maxRetries - from else 0
  {
    if from < maxRetries {
      assert AttemptText(respond(from)) == "";
      FirstSuccessNoneFrom(respond, from + 1, maxRetries);
    }
  }

  lemma FirstSuccessNone(respond: nat -> Response, maxRetries: int)
    requires forall j :: 0 <= j < maxRetries ==> AttemptText(respond(j)) == ""
    ensures FirstSuccess(respond, 0, maxRetries) == None
  {
    FirstSuccessNoneFrom(respond, 0, maxRetries);
  }

  // ---------------------------------------------------------------------
  // Properties of one fetch

  /** An attempt is empty exactly when the answer is not 200, the content
      region is missing, or the region holds only whitespace. */
  lemma EmptyAttemptCases(r: Response)
    ensures AttemptText(r) == "" <==>
      r.status != 200 || r.region.None? || AllSpace(r.region.value)
  {
    if r.region.Some? {
      StripSpec(r.region.value);
    }
  }

  /** At most `max_retries` requests and sleeps; none at all for a bound
      that is not positive, and then the result is "". A failure message is
      printed exactly when no attempt succeeded. */
  lemma FetchBounded(chapterUrl: string, respond: nat -> Response, convert: string -> string,
                     maxRetries: int)
    ensures var f := FetchSpec(chapterUrl, respond, convert, maxRetries);
      f.attempts <= Budget(maxRetries) && f.sleeps <= f.attempts &&
      (f.failure.Some? <==> f.sleeps == f.attempts) &&
      (maxRetries <= 0 ==> f.attempts == 0 && f.content == "" && f.failure.Some?)
  {
  }

  /** If attempts 1..N-1 are empty and attempt N <= max_retries is not, the
      call makes exactly N requests and N-1 sleeps and returns the converted
      text of attempt N. */
  lemma FetchSucceedsOnAttempt(chapterUrl: string, respond: nat -> Response,
                               convert: string -> string, maxRetries: int, n: nat)
    requires 1 <= n <= maxRetries
    requires forall j :: 0 <= j < n - 1 ==> AttemptText(respond(j)) == ""
    requires AttemptText(respond(n - 1)) != ""
    ensures FetchSpec(chapterUrl, respond, convert, maxRetries)
         == FetchOutcome(convert(AttemptText(respond(n - 1))), n, n - 1, None)
  {
    FirstSuccessAt(respond, maxRetries, n - 1);
  }

  /** If all `max_retries` attempts are empty the call returns "" after
      exactly `max_retries` requests and sleeps and reports the failure. */
  lemma FetchExhausted(chapterUrl: string, respond: nat -> Response,
                       convert: string -> string, maxRetries: int)
    requires forall j :: 0 <= j < maxRetries ==> AttemptText(respond(j)) == ""
    ensures FetchSpec(chapterUrl, respond, convert, maxRetries)
         == FetchOutcome("", Budget(maxRetries), Budget(maxRetries), Some(FailureMessage(chapterUrl)))
  {
    FirstSuccessNone(respond, maxRetries);
  }

  /** The call succeeds exactly when some attempt within the bound yields
      non-empty text; when the conversion keeps non-empty text non-empty,
      that is also exactly when the returned text is non-empty. */
  lemma FetchSucceedsIff(chapterUrl: string, respond: nat -> Response,
                         convert: string -> string, maxRetries: int)
    ensures var f := FetchSpec(chapterUrl, respond, convert, maxRetries);
      f.failure.None? <==> exists j :: 0 <= j < maxRetries && AttemptText(respond(j)) != ""
    ensures (forall s :: s != "" ==> convert(s) != "") ==>
      (FetchSpec(chapterUrl, respond, convert, maxRetries).content != "" <==>
       exists j :: 0 <= j < maxRetries && AttemptText(respond(j)) != "")
  {
    var f := FetchSpec(chapterUrl, respond, convert, maxRetries);
    match FirstSuccess(respond, 0, maxRetries)
    case Some(k) =>
      assert 0 <= k < maxRetries && AttemptText(respond(k)) != "";
    case None =>
  }

  /** A successful attempt ends the loop: answers to later requests do not
      matter, because they are never asked for. */
  lemma {:induction false} FetchIgnoresLaterAnswers(chapterUrl: string, r1: nat -> Response,
                                                    r2: nat -> Response, convert: string -> string,
                                                    maxRetries: int)
    requires forall j :: 0 <= j < FetchSpec(chapterUrl, r1, convert, maxRetries).attempts ==>
      r1(j) == r2(j)
    ensures FetchSpec(chapterUrl, r2, convert, maxRetries) == FetchSpec(chapterUrl, r1, convert, maxRetries)
  {
    match FirstSuccess(r1, 0, maxRetries)
    case Some(k) =>
      assert r1(k) == r2(k);
      FirstSuccessAt(r2, maxRetries, k);
    case None =>
      FirstSuccessNone(r2, maxRetries);
  }

  /** A non-200 answer, a page without the content region and a blank
      region are interchangeable: replacing the answer to one attempt by any
      other empty answer changes nothing, not even the number of sleeps. */
  lemma EmptyAnswersInterchangeable(chapterUrl: string, respond: nat -> Response,
                                    convert: string -> string, maxRetries: int,
                                    k: nat, other: Response)
    requires AttemptText(respond(k)) == "" && AttemptText(other) == ""
    ensures FetchSpec(chapterUrl, (j: nat) => if j == k then other else respond(j), convert, maxRetries)
         == FetchSpec(chapterUrl, respond, convert, maxRetries)
  {
    var r2: nat -> Response := (j: nat) => if j == k then other else respond(j);
    assert forall j :: AttemptText(r2(j)) == AttemptText(respond(j));
    match FirstSuccess(respond, 0, maxRetries)
    case Some(n) =>
      assert n != k;
      FirstSuccessAt(r2, maxRetries, n);
    case None =>
      FirstSuccessNone(r2, maxRetries);
  }

  /** A page that comes back blank five times and then with text, under a
      bound of 10: six requests, five sleeps, and the converted text. */
  lemma SixthAttemptScenario(convert: string -> string)
    ensures var respond: nat -> Response :=
        j => if j < 5 then Response(200, Some(" \n ")) else Response(200, Some(" 第二章 "));
      FetchSpec("https://uukanshu.cc/book/1/2.html", respond, convert, 10)
        == FetchOutcome(convert("第二章"), 6, 5, None)
  {
    var respond: nat -> Response :=
      j => if j < 5 then Response(200, Some(" \n ")) else Response(200, Some(" 第二章 "));
    assert Strip(" \n ") == "";
    assert Strip(" 第二章 ") == "第二章";
    FetchSucceedsOnAttempt("https://uukanshu.cc/book/1/2.html", respond, convert, 10, 6);
  }
}
