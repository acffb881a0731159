/** The ratings export of `StatsPlusClient` (src/client.ts): starting the
    background job and extracting the poll URL from the server's reply, and
    the bounded polling loop of `getRatings`. Timers are not modelled as
    time: each `setTimeout` is a counted wait. The response to the k-th
    poll request is given by a function of k. */
module Ratings {
  import opened Wrappers
  import opened Text
  import opened Csv
  import opened Filters
  import opened Client

  /** `MAX_ATTEMPTS`: poll requests at most. */
  const MaxAttempts: nat := 20
  /** `POLL_INTERVAL_MS`: the wait between two poll requests. */
  const PollIntervalMs: nat := 15_000
  /** The wait between starting the job and the first poll. */
  const InitialDelayMs: nat := 30_000

  // ---------------------------------------------------------------------
  // Poll-URL extraction (initiateRatingsJob)
  // ---------------------------------------------------------------------

  /** `scheme` at position `i` of `s`, followed by a non-whitespace
      character. */
  predicate SchemeAt(s: string, i: nat, scheme: string) {
    i + |scheme| < |s| && s[i..i + |scheme|] == scheme && !IsSpace(s[i + |scheme|])
  }

  /** `https?:\/\/[^\s]+` matches starting at position `i`. */
  predicate MatchAt(s: string, i: nat) {
    SchemeAt(s, i, "https://") || SchemeAt(s, i, "http://")
  }

  /** `i` is where `String.prototype.match` finds the leftmost match. */
  ghost predicate FirstMatchAt(s: string, i: nat) {
    i < |s| && MatchAt(s, i) && forall j :: 0 <= j < i ==> !MatchAt(s, j)
  }

  /** The position of the leftmost match at or after `from`. */
  function FindMatch(s: string, from: nat): (r: Option<nat>)
    requires from <= |s|
    ensures r.None? ==> forall j :: from <= j < |s| ==> !MatchAt(s, j)
    ensures r.Some? ==> from <= r.value < |s| && MatchAt(s, r.value)
                        && forall j :: from <= j < r.value ==> !MatchAt(s, j)
    decreases |s| - from
  {
    if from == |s| then None
    else if MatchAt(s, from) then Some(from)
    else FindMatch(s, from + 1)
  }

  /** The end of the non-whitespace run starting at `j`, as far as the
      greedy `[^\s]+` reaches. */
  function RunEnd(s: string, j: nat): (e: nat)
    requires j <= |s|
    ensures j <= e <= |s|
    ensures forall k :: j <= k < e ==> !IsSpace(s[k])
    ensures e == |s| || IsSpace(s[e])
    decreases |s| - j
  {
    if j == |s| || IsSpace(s[j]) then j else RunEnd(s, j + 1)
  }

  /** The text of the match starting at `i`: the scheme (with the `s` when
      there is one) and the non-whitespace run after it. */
  function MatchText(s: string, i: nat): (m: string)
    requires i < |s| && MatchAt(s, i)
    ensures StartsWith(m, "http://") || StartsWith(m, "https://")
    ensures forall k :: 0 <= k < |m| ==> !IsSpace(m[k])
    ensures m <= s[i..]
    ensures i + |m| == |s| || IsSpace(s[i + |m|])
  {
    var scheme := if SchemeAt(s, i, "https://") then "https://" else "http://";
    var n := |scheme|;
    assert s[i..i + n] == scheme;
    forall k | i <= k < i + n ensures !IsSpace(s[k]) {
      assert s[k] == scheme[k - i];
    }
    s[i..RunEnd(s, i + n)]
  }

  predicate IsPunct(c: char) {
    c == '.' || c == ')'
  }

  /** `replace(/[.)]+$/, "")`: the maximal run of `.` and `)` at the end is
      removed. */
  function StripTrailingPunct(u: string): (r: string)
    ensures r <= u
    ensures |r| == 0 || !IsPunct(r[|r| - 1])
    ensures forall k :: |r| <= k < |u| ==> IsPunct(u[k])
  {
    if |u| > 0 && IsPunct(u[|u| - 1]) then StripTrailingPunct(u[..|u| - 1]) else u
  }

  /** `m` is the text `match` returns: it starts at the leftmost match `i`
      and is the whole whitespace-free run there. */
  ghost predicate LeftmostRun(text: string, i: nat, m: string) {
    && FirstMatchAt(text, i) && m <= text[i..]
    && (i + |m| == |text| || IsSpace(text[i + |m|]))
    && forall k :: 0 <= k < |m| ==> !IsSpace(m[k])
  }

  /** The poll URL in the reply to the request that starts the job: the
      leftmost `http://` or `https://` followed by non-whitespace, less any
      trailing `.` and `)`. A reply without one is an error carrying the
      reply. */
  function ExtractPollUrl(text: string): (r: Result<string, ApiError>)
    ensures r.Failure? <==> forall i :: 0 <= i < |text| ==> !MatchAt(text, i)
    ensures r.Failure? ==> r.error == MalformedJobResponse(text)
    ensures r.Success? ==> StartsWith(r.value, "http://") || StartsWith(r.value, "https://")
    ensures r.Success? ==> forall k :: 0 <= k < |r.value| ==> !IsSpace(r.value[k])
    ensures r.Success? ==> !IsPunct(r.value[|r.value| - 1])
    ensures r.Success? ==>
              exists i: nat, m: string :: LeftmostRun(text, i, m) && r.value <= m
                                          && forall k :: |r.value| <= k < |m| ==> IsPunct(m[k])
  {
    match FindMatch(text, 0)
    case None => Failure(MalformedJobResponse(text))
    case Some(i) =>
      var m := MatchText(text, i);
      var u := StripTrailingPunct(m);
      assert FirstMatchAt(text, i);
      var n := if StartsWith(m, "https://") then 8 else 7;
      assert !IsPunct(m[n - 1]);
      assert u[..n] == m[..n];
      assert LeftmostRun(text, i, m);
      Success(u)
  }

  /** Trailing punctuation appended to a URL that does not end in it is
      exactly what the stripping removes. */
  lemma {:induction false} StripAppended(u: string, punct: string)
    requires |u| > 0 && !IsPunct(u[|u| - 1])
    requires forall k :: 0 <= k < |punct| ==> IsPunct(punct[k])
    ensures StripTrailingPunct(u + punct) == u
    decreases |punct|
  {
    if |punct| == 0 {
      assert u + punct == u;
    } else {
      var p := punct[..|punct| - 1];
      assert (u + punct)[..|u + punct| - 1] == u + p;
      StripAppended(u, p);
    }
  }

  /** A URL written into a reply is the URL extracted from it, when no match
      starts before it and it is followed only by `.` or `)` characters and
      then whitespace or the end of the reply. */
  lemma ExtractWrittenUrl(pre: string, scheme: string, rest: string, punct: string, post: string)
    requires scheme == "http://" || scheme == "https://"
    requires forall j :: 0 <= j < |pre| ==> !MatchAt(pre + scheme + rest + punct + post, j)
    requires |rest| > 0 && !IsPunct(rest[|rest| - 1])
    requires forall k :: 0 <= k < |rest| ==> !IsSpace(rest[k])
    requires forall k :: 0 <= k < |punct| ==> IsPunct(punct[k])
    requires |post| == 0 || IsSpace(post[0])
    ensures ExtractPollUrl(pre + scheme + rest + punct + post) == Success(scheme + rest)
  {
    var text := pre + scheme + rest + punct + post;
    WrittenUrlMatches(pre, scheme, rest, punct, post);
    FindMatchReaches(text, 0, |pre|);
    StripAppended(scheme + rest, punct);
  }

  /** A sentence that ends in a URL and a full stop: the `h` of "Check"
      does not start a match, and the full stop is not part of the URL. */
  lemma SentenceUrl()
    ensures ExtractPollUrl("Check https://x.y/z.") == Success("https://x.y/z")
  {
    var pre, rest := "Check ", "x.y/z";
    var text := pre + "https://" + rest + "." + "";
    assert text == "Check https://x.y/z.";
    assert "https://" + rest == "https://x.y/z";
    assert forall k :: 0 <= k < |rest| ==> !IsSpace(rest[k]);
    forall j | 0 <= j < |pre| ensures !MatchAt(text, j) {
      NoMatchWhen(text, j, if j == 1 then 1 else 0);
    }
    ExtractWrittenUrl(pre, "https://", rest, ".", "");
    assert ExtractPollUrl(text) == Success("https://x.y/z");
  }

  /** No match starts where the text leaves the common `http` of the two
      schemes. */
  lemma NoMatchWhen(s: string, i: nat, k: nat)
    requires k < 4 && i + k < |s| && s[i + k] != "http"[k]
    ensures !MatchAt(s, i)
  {
    assert "https://"[k] == "http://"[k] == "http"[k];
    NotSchemeAt(s, i, "https://", k);
    NotSchemeAt(s, i, "http://", k);
  }

  lemma NotSchemeAt(s: string, i: nat, scheme: string, k: nat)
    requires k < |scheme| && i + k < |s| && s[i + k] != scheme[k]
    ensures !SchemeAt(s, i, scheme)
  {
    if i + |scheme| < |s| {
      assert s[i..i + |scheme|][k] == s[i + k];
    }
  }

  /** The match in such a reply starts right after `pre` and takes in the
      punctuation but not what follows it. */
  lemma WrittenUrlMatches(pre: string, scheme: string, rest: string, punct: string, post: string)
    requires scheme == "http://" || scheme == "https://"
    requires |rest| > 0
    requires forall k :: 0 <= k < |rest| ==> !IsSpace(rest[k])
    requires forall k :: 0 <= k < |punct| ==> IsPunct(punct[k])
    requires |post| == 0 || IsSpace(post[0])
    ensures |pre| < |pre + scheme + rest + punct + post|
    ensures MatchAt(pre + scheme + rest + punct + post, |pre|)
    ensures MatchText(pre + scheme + rest + punct + post, |pre|) == scheme + rest + punct
  {
    var text := pre + scheme + rest + punct + post;
    assert text == pre + (scheme + ((rest + punct) + post));
    assert text[|pre|..] == scheme + ((rest + punct) + post);
    forall k | 0 <= k < |rest + punct| ensures !IsSpace((rest + punct)[k]) {
      if k < |rest| {
        assert (rest + punct)[k] == rest[k];
      } else {
        assert (rest + punct)[k] == punct[k - |rest|];
      }
    }
    UrlAt(text, |pre|, scheme, rest + punct, post);
    assert scheme + (rest + punct) == scheme + rest + punct;
  }

  /** The match at `i` of a scheme, a whitespace-free `tail` and then
      whitespace or the end of the text. */
  lemma UrlAt(text: string, i: nat, scheme: string, tail: string, post: string)
    requires scheme == "http://" || scheme == "https://"
    requires i <= |text| && text[i..] == scheme + (tail + post)
    requires |tail| > 0 && forall k :: 0 <= k < |tail| ==> !IsSpace(tail[k])
    requires |post| == 0 || IsSpace(post[0])
    ensures i < |text| && MatchAt(text, i)
    ensures MatchText(text, i) == scheme + tail
  {
    var n := |scheme|;
    assert text[i..i + n] == text[i..][..n];
    assert text[i + n..] == text[i..][n..];
    assert text[i + n] == tail[0];
    SchemeWritten(text, i, scheme);
    RunWritten(text, i + n, tail, post);
    assert text[i..i + n + |tail|] == text[i..][..n + |tail|];
  }

  /** A written scheme followed by a non-whitespace character is a match,
      and it is the `https://` alternative exactly when that was written. */
  lemma SchemeWritten(text: string, i: nat, scheme: string)
    requires scheme == "http://" || scheme == "https://"
    requires i + |scheme| < |text| && text[i..i + |scheme|] == scheme
    requires !IsSpace(text[i + |scheme|])
    ensures MatchAt(text, i)
    ensures SchemeAt(text, i, "https://") <==> scheme == "https://"
  {
    if scheme == "http://" {
      assert text[i + 4] == text[i..i + |scheme|][4];
    }
  }

  /** The whitespace-free `tail` written at `j` and followed by `post` is
      the run `RunEnd` measures. */
  lemma RunWritten(text: string, j: nat, tail: string, post: string)
    requires j + |tail| + |post| == |text| && text[j..] == tail + post
    requires forall k :: 0 <= k < |tail| ==> !IsSpace(tail[k])
    requires |post| == 0 || IsSpace(post[0])
    ensures RunEnd(text, j) == j + |tail|
  {
    var e := j + |tail|;
    forall k | j <= k < e ensures !IsSpace(text[k]) {
      assert text[k] == text[j..][k - j];
    }
    assert e < |text| ==> text[e] == text[j..][|tail|];
    RunEndReaches(text, j, e);
  }

  lemma {:induction false} FindMatchReaches(s: string, from: nat, i: nat)
    requires from <= i < |s| && MatchAt(s, i)
    requires forall j :: from <= j < i ==> !MatchAt(s, j)
    ensures FindMatch(s, from) == Some(i)
    decreases i - from
  {
    if from < i {
      FindMatchReaches(s, from + 1, i);
    }
  }

  lemma {:induction false} RunEndReaches(s: string, j: nat, e: nat)
    requires j <= e <= |s|
    requires forall k :: j <= k < e ==> !IsSpace(s[k])
    requires e == |s| || IsSpace(s[e])
    ensures RunEnd(s, j) == e
    decreases e - j
  {
    if j < e {
      RunEndReaches(s, j + 1, e);
    }
  }

  /** `initiateRatingsJob`: the `/ratings/` request, then the poll URL in
      its reply. */
  function InitiateRatingsJob(config: Config, init: Response): (r: Result<string, ApiError>)
    ensures !init.ok ==> r == Failure(HttpError(init.status, init.statusText, BaseUrl(config) + "/ratings/"))
    ensures init.ok ==> r == ExtractPollUrl(init.body)
  {
    var req := MakeRequest(config, "/ratings/", []);
    assert req.query == [] && req.url + "" == req.url;
    var text :- CheckResponse(req, init);
    ExtractPollUrl(text)
  }

  // ---------------------------------------------------------------------
  // Polling (getRatings)
  // ---------------------------------------------------------------------

  /** The job is still running: the reply says "still in progress"
      somewhere or begins with "Request received". */
  predicate IsPending(body: string) {
    Contains(body, "still in progress") || StartsWith(body, "Request received")
  }

  /** An ok reply that says the export is not ready: the loop goes on. */
  predicate StillPending(resp: Response) {
    resp.ok && IsPending(resp.body)
  }

  /** What a poll that ends the loop yields: the error for a non-ok
      status, otherwise the decoded and filtered rows. */
  function Settle(resp: Response, ids: seq<real>): (r: Result<seq<Row>, ApiError>)
    ensures r.Failure? <==> !resp.ok
    ensures r.Failure? ==> r.error == PollError(resp.status, resp.statusText)
    ensures r.Success? ==> r.value == RatingsFilter(ParseCsv(resp.body), ids)
  {
    if !resp.ok then Failure(PollError(resp.status, resp.statusText))
    else Success(RatingsFilter(ParseCsv(resp.body), ids))
  }

  /** How the loop ended: at the reply with index `settledAt`, or, when
      there is none, by running out of attempts; with the number of poll
      requests and of waits between them. */
  datatype PollRun = PollRun(settledAt: Option<nat>, polls: nat, sleeps: nat)

  /** The `for` loop of `getRatings` from `attempt` on: poll, stop at a
      non-ok or finished reply, otherwise wait unless this was the last
      attempt. The loop stops at the first reply that is not pending, and
      only runs out of attempts when every reply is pending; a wait falls
      between two polls and never after the last one. */
  function PollLoop(polls: nat -> Response, attempt: nat): (r: PollRun)
    requires attempt <= MaxAttempts
    ensures r.polls <= MaxAttempts - attempt
    ensures r.sleeps == if r.polls == 0 then 0 else r.polls - 1
    ensures forall j :: attempt <= j < attempt + r.polls - 1 ==> StillPending(polls(j))
    ensures r.settledAt.Some? ==>
              r.settledAt.value == attempt + r.polls - 1 && !StillPending(polls(r.settledAt.value))
    ensures r.settledAt.None? ==>
              r.polls == MaxAttempts - attempt && forall j :: attempt <= j < MaxAttempts ==> StillPending(polls(j))
    decreases MaxAttempts - attempt
  {
    if attempt == MaxAttempts then PollRun(None, 0, 0)
    else if !StillPending(polls(attempt)) then PollRun(Some(attempt), 1, 0)
    else
      var rest := PollLoop(polls, attempt + 1);
      var wait := if attempt < MaxAttempts - 1 then 1 else 0;
      PollRun(rest.settledAt, rest.polls + 1, rest.sleeps + wait)
  }

  /** The loop ends at the first reply that is not pending, after exactly
      one poll per reply up to it. */
  lemma PollLoopSettles(polls: nat -> Response, attempt: nat, k: nat)
    requires attempt <= k < MaxAttempts
    requires forall j :: attempt <= j < k ==> StillPending(polls(j))
    requires !StillPending(polls(k))
    ensures PollLoop(polls, attempt) == PollRun(Some(k), k - attempt + 1, k - attempt)
  {
  }

  /** Out of attempts exactly when every remaining reply is pending, and
      then after one poll per remaining attempt. */
  lemma PollLoopTimesOut(polls: nat -> Response, attempt: nat)
    requires attempt < MaxAttempts
    ensures PollLoop(polls, attempt).settledAt.None?
            <==> forall j :: attempt <= j < MaxAttempts ==> StillPending(polls(j))
    ensures PollLoop(polls, attempt).settledAt.None? ==>
              PollLoop(polls, attempt) == PollRun(None, MaxAttempts - attempt, MaxAttempts - attempt - 1)
  {
  }

  /** What `getRatings` returns or raises once the loop has ended. */
  function Finish(run: PollRun, polls: nat -> Response, ids: seq<real>): (r: Result<seq<Row>, ApiError>)
    ensures run.settledAt.None? ==> r == Failure(TimedOut)
    ensures run.settledAt.Some? ==> r == Settle(polls(run.settledAt.value), ids)
  {
    match run.settledAt
    case None => Failure(TimedOut)
    case Some(k) => Settle(polls(k), ids)
  }

  /** `GetRatingsParams`: an optional poll URL from `startRatingsJob` and
      the identifiers to keep. */
  datatype RatingsParams = RatingsParams(pollUrl: Option<string>, playerIds: seq<real>)

  /** The side effects of one `getRatings` call, counted. */
  datatype Trace = Trace(initRequests: nat, initialWaits: nat, polls: nat, sleeps: nat)

  /** The outcome of `getRatings`, what it did, and the URL it polled, if it
      got as far as polling. */
  datatype RatingsRun = RatingsRun(outcome: Result<seq<Row>, ApiError>, trace: Trace, polled: Option<string>)

  /** `if (params.poll_url)`: a present, non-empty poll URL. */
  predicate HasPollUrl(params: RatingsParams) {
    params.pollUrl.Some? && params.pollUrl.value != ""
  }

  /** The time spent waiting, in milliseconds. */
  function WaitedMs(t: Trace): nat {
    t.initialWaits * InitialDelayMs + t.sleeps * PollIntervalMs
  }

  /** `getRatings`: with a poll URL the job is polled directly; without one
      the job is started, the initial delay is waited, and the extracted URL
      is polled. `init` is the reply to the `/ratings/` request and
      `polls(k)` the reply to the k-th poll. */
  function GetRatings(config: Config, params: RatingsParams, init: Response, polls: nat -> Response)
    : (r: RatingsRun)
    ensures r.trace.polls <= MaxAttempts
    ensures r.trace.initRequests <= 1 && r.trace.initialWaits <= r.trace.initRequests
    ensures r.trace.polls > 0 ==> r.trace.sleeps == r.trace.polls - 1
    ensures r.trace.polls == 0 ==> r.trace.sleeps == 0 && r.outcome.Failure?
    ensures WaitedMs(r.trace) <= InitialDelayMs + (MaxAttempts - 1) * PollIntervalMs
    ensures HasPollUrl(params) ==>
              r.trace.initRequests == 0 && r.trace.initialWaits == 0 && r.polled == params.pollUrl
    ensures !HasPollUrl(params) ==> r.trace.initRequests == 1
    ensures !HasPollUrl(params) && InitiateRatingsJob(config, init).Success? ==>
              r.trace.initialWaits == 1 && r.polled == Some(InitiateRatingsJob(config, init).value)
    ensures !HasPollUrl(params) && InitiateRatingsJob(config, init).Failure? ==>
              r.outcome == Failure(InitiateRatingsJob(config, init).error) && r.trace.polls == 0
    ensures r.polled.Some? <==> r.trace.polls > 0
  {
    if HasPollUrl(params) then
      var run := PollLoop(polls, 0);
      RatingsRun(Finish(run, polls, params.playerIds), Trace(0, 0, run.polls, run.sleeps), params.pollUrl)
    else
      match InitiateRatingsJob(config, init)
      case Failure(e) => RatingsRun(Failure(e), Trace(1, 0, 0, 0), None)
      case Success(url) =>
        var run := PollLoop(polls, 0);
        RatingsRun(Finish(run, polls, params.playerIds), Trace(1, 1, run.polls, run.sleeps), Some(url))
  }

  /** Polling starts: a poll URL was given, or starting the job gave one. */
  predicate Polls(config: Config, params: RatingsParams, init: Response) {
    HasPollUrl(params) || InitiateRatingsJob(config, init).Success?
  }

  /** Twenty pending replies end in the timeout error after twenty polls
      and nineteen waits: none after the last attempt. */
  lemma RatingsTimeOut(config: Config, params: RatingsParams, init: Response, polls: nat -> Response)
    requires Polls(config, params, init)
    requires forall j :: 0 <= j < MaxAttempts ==> StillPending(polls(j))
    ensures GetRatings(config, params, init, polls).outcome == Failure(TimedOut)
    ensures GetRatings(config, params, init, polls).trace.polls == 20
    ensures GetRatings(config, params, init, polls).trace.sleeps == 19
  {
    PollLoopTimesOut(polls, 0);
  }

  /** The first reply that is not pending ends `getRatings`: a non-ok one
      with the poll error, an ok one with its decoded rows, filtered by the
      identifiers; no poll follows it. */
  lemma RatingsSettle(config: Config, params: RatingsParams, init: Response, polls: nat -> Response, k: nat)
    requires Polls(config, params, init)
    requires k < MaxAttempts
    requires forall j :: 0 <= j < k ==> StillPending(polls(j))
    requires !StillPending(polls(k))
    ensures GetRatings(config, params, init, polls).outcome == Settle(polls(k), params.playerIds)
    ensures GetRatings(config, params, init, polls).trace.polls == k + 1
    ensures GetRatings(config, params, init, polls).trace.sleeps == k
  {
    PollLoopSettles(polls, 0, k);
  }

  /** An empty `poll_url` is falsy: it starts a new job exactly as an absent
      one does. */
  lemma EmptyPollUrlStartsJob(config: Config, ids: seq<real>, init: Response, polls: nat -> Response)
    ensures GetRatings(config, RatingsParams(Some(""), ids), init, polls)
            == GetRatings(config, RatingsParams(None, ids), init, polls)
    ensures GetRatings(config, RatingsParams(None, ids), init, polls).trace.initRequests == 1
  {
  }

  /** A reply that mentions the job still running anywhere is pending. */
  lemma {:induction false} ProgressNoticePending(pre: string, post: string)
    ensures IsPending(pre + "still in progress" + post)
  {
    var body := pre + "still in progress" + post;
    assert body[|pre|..|pre| + 17] == "still in progress";
    assert OccursAt(body, "still in progress", |pre|);
    ContainsIff(body, "still in progress");
  }
}
