/**
 The three request handlers of the recommendations component over an
 abstract, append-only document store: producing and saving a
 recommendation, summarising a user's history, and paging through the saved
 recommendations. The text generator and the JSON decoder are parameters.
 */
module Recommendations {
  import opened Wrappers
  import opened Analytics
  import Weekly
  import Extraction
  import Sequences

  datatype User = User(id: nat, username: string)

  /** The part of an analysis that is copied into a recommendation and its response. */
  datatype AnalysisView = AnalysisView(hasStress: bool, createdAt: int, imageUrl: Option<string>)

  /** A saved recommendation document. */
  datatype RecommendationRecord = RecommendationRecord(
    username: string,
    userId: nat,
    analysisId: nat,
    createdAt: int,
    analysisData: AnalysisView,
    stats: Stats,
    recommendations: Extraction.Json)

  /** The three collections the handlers read; only `recommendations` is ever written. */
  datatype Store = Store(
    users: seq<User>,
    analyses: seq<Analysis>,
    recommendations: seq<RecommendationRecord>)

  /** The distinguishable failures of the handlers. */
  datatype Error =
    | UsernameRequired
    | UserNotFound
    | NoAnalysis
    | GenerationFailed
    | NoHistory
    | NoRecommendations

  /** What the fixed prompt template is filled with: the newest result and the window counts. */
  datatype PromptInput = PromptInput(currentStress: bool, window: Stats)

  datatype RecommendationResponse = RecommendationResponse(
    analysis: AnalysisView,
    stats: Stats,
    recommendations: Extraction.Json)

  /** The first user document with the given name. */
  function FindUser(users: seq<User>, name: string): (r: Option<User>)
    ensures r.Some? ==> r.value in users && r.value.username == name
    ensures r.None? ==> forall i :: 0 <= i < |users| ==> users[i].username != name
  {
    if users == [] then None
    else if users[0].username == name then Some(users[0])
    else FindUser(users[1..], name)
  }

  /** A document that belongs to user `name`. */
  function AnalysisOf(name: string): Analysis -> bool
  {
    (a: Analysis) => a.username == name
  }

  /** The analyses stored for user `name`, in insertion order. */
  function AnalysesOf(xs: seq<Analysis>, name: string): seq<Analysis>
  {
    Sequences.Filter(xs, AnalysisOf(name))
  }

  /** An image reference as stored in the response: a missing or empty URL becomes null. */
  function ImageRef(url: Option<string>): Option<string>
  {
    if url.Some? && url.value != [] then url else None
  }

  function ViewOf(a: Analysis): AnalysisView
  {
    AnalysisView(a.hasStress, a.createdAt, ImageRef(a.imageUrl))
  }

  /**
   Produces a recommendation for `username` at instant `now` and saves it.
   Checks run in order: a name is given, the user exists, the user has an
   analysis; then the seven-day statistics are computed, the generator is
   called, its reply is extracted and exactly one record is appended. Every
   failure leaves the store untouched; a success appends one record that
   carries the same analysis view, statistics and payload as the response.
   */
  method GetRecommendations(
    store: Store,
    username: string,
    now: int,
    generate: PromptInput -> Option<string>,
    parse: string -> Option<Extraction.Json>)
    returns (result: Result<RecommendationResponse, Error>, store': Store)
    ensures store'.users == store.users && store'.analyses == store.analyses
    ensures result.Failure? ==> store' == store
    ensures result.Success? ==>
      && |store'.recommendations| == |store.recommendations| + 1
      && store'.recommendations[..|store.recommendations|] == store.recommendations
    ensures username == [] ==> result == Failure(UsernameRequired)
    ensures username != [] && FindUser(store.users, username).None? ==> result == Failure(UserNotFound)
    ensures (username != [] && FindUser(store.users, username).Some?
             && AnalysesOf(store.analyses, username) == []) ==> result == Failure(NoAnalysis)
    ensures result.Success? || result == Failure(GenerationFailed) <==>
      username != [] && FindUser(store.users, username).Some? && AnalysesOf(store.analyses, username) != []
    ensures result.Success? ==>
      var xs := AnalysesOf(store.analyses, username);
      && xs != []
      && var latest := xs[LatestIndex(xs)];
      && var stats := WindowStats(xs, now);
      && var reply := generate(PromptInput(latest.hasStress, stats));
      && var record := store'.recommendations[|store.recommendations|];
      && reply.Some?
      && result.value == RecommendationResponse(ViewOf(latest), stats, Extraction.Extract(reply.value, parse))
      && record == RecommendationRecord(username, FindUser(store.users, username).value.id, latest.id, now,
                                        result.value.analysis, result.value.stats, result.value.recommendations)
      && record.analysisData.hasStress == latest.hasStress
      && record.analysisData.createdAt == latest.createdAt
      && (record.analysisData.imageUrl.None? <==> latest.imageUrl.None? || latest.imageUrl.value == [])
      && (record.analysisData.imageUrl.Some? ==> record.analysisData.imageUrl == latest.imageUrl)
    ensures result == Failure(GenerationFailed) ==>
      var xs := AnalysesOf(store.analyses, username);
      && xs != []
      && var latest := xs[LatestIndex(xs)];
      && generate(PromptInput(latest.hasStress, WindowStats(xs, now))).None?
  {
    store' := store;
    if username == [] {
      return Failure(UsernameRequired), store';
    }
    var user := FindUser(store.users, username);
    if user.None? {
      return Failure(UserNotFound), store';
    }
    var xs := AnalysesOf(store.analyses, username);
    if xs == [] {
      return Failure(NoAnalysis), store';
    }
    var latest := xs[LatestIndex(xs)];
    var stats := WindowStats(xs, now);
    var reply := generate(PromptInput(latest.hasStress, stats));
    if reply.None? {
      return Failure(GenerationFailed), store';
    }
    var payload := Extraction.Extract(reply.value, parse);
    var view := ViewOf(latest);
    var record := RecommendationRecord(username, user.value.id, latest.id, now, view, stats, payload);
    store' := store.(recommendations := store.recommendations + [record]);
    result := Success(RecommendationResponse(view, stats, payload));
  }

  // ----- Health summary -----

  datatype Summary = Summary(
    totalAnalyses: nat,
    stressDetectedCount: nat,
    stressPercentage: nat,
    latestStatus: string,
    latestAnalysisTime: int,
    weeklyTrends: seq<Weekly.WeekBucket>)

  function StatusText(hasStress: bool): string
  {
    if hasStress then "Stress detected" else "No stress detected"
  }

  /**
   The whole-history summary of `username`: counts and percentage over all
   analyses, the status and time of the newest one, and the weekly trend.
   Reads only.
   */
  function GetEyeHealthSummary(store: Store, username: string): (r: Result<Summary, Error>)
    ensures username == [] ==> r == Failure(UsernameRequired)
    ensures username != [] && FindUser(store.users, username).None? ==> r == Failure(UserNotFound)
    ensures r.Success? <==>
      username != [] && FindUser(store.users, username).Some? && AnalysesOf(store.analyses, username) != []
    ensures r.Failure? && username != [] && FindUser(store.users, username).Some? ==> r == Failure(NoHistory)
    ensures r.Success? ==>
      var xs := AnalysesOf(store.analyses, username);
      var s := r.value;
      && s.totalAnalyses == |xs| >= 1
      && s.stressDetectedCount == StressCount(xs) <= s.totalAnalyses
      && s.stressPercentage == RoundPercent(s.stressDetectedCount, s.totalAnalyses) <= 100
      && (forall k :: 0 <= k < |xs| ==> xs[k].createdAt <= s.latestAnalysisTime)
      && (exists k :: 0 <= k < |xs| && xs[k].createdAt == s.latestAnalysisTime
                      && s.latestStatus == StatusText(xs[k].hasStress))
      && s.weeklyTrends == Weekly.WeeklyTrends(xs)
  {
    if username == [] then Failure(UsernameRequired)
    else if FindUser(store.users, username).None? then Failure(UserNotFound)
    else
      var xs := AnalysesOf(store.analyses, username);
      if xs == [] then Failure(NoHistory)
      else
        var all := StatsOf(xs);
        var latest := xs[LatestIndex(xs)];
        Success(Summary(all.total, all.stressCount, all.percentage,
                        StatusText(latest.hasStress), latest.createdAt, Weekly.WeeklyTrends(xs)))
  }

  /**
   The summary's weekly trend agrees with its headline numbers: the weekly
   totals add up to the number of analyses and the weekly stress counts to
   the stress count, and every week is a valid, non-empty bucket.
   */
  lemma SummaryConsistent(store: Store, username: string)
    requires GetEyeHealthSummary(store, username).Success?
    ensures var s := GetEyeHealthSummary(store, username).value;
      && Sequences.SumOf(s.weeklyTrends, Weekly.BucketTotal) == s.totalAnalyses
      && Sequences.SumOf(s.weeklyTrends, Weekly.BucketStress) == s.stressDetectedCount
      && forall i :: 0 <= i < |s.weeklyTrends| ==>
           1 <= s.weeklyTrends[i].total && s.weeklyTrends[i].stressDetected <= s.weeklyTrends[i].total
           && s.weeklyTrends[i].percentage <= 100
  {
    var xs := AnalysesOf(store.analyses, username);
    var t := Weekly.WeeklyTrends(xs);
    Weekly.WeeklyTrendsCorrect(xs);
    forall i | 0 <= i < |t|
      ensures 1 <= t[i].total && t[i].stressDetected <= t[i].total && t[i].percentage <= 100
    {
      assert Weekly.WeekFacts(xs, t[i]);
    }
    var s := GetEyeHealthSummary(store, username).value;
    assert s.weeklyTrends == t && s.totalAnalyses == |xs| && s.stressDetectedCount == StressCount(xs);
  }

  // ----- Recommendation history -----

  datatype Pagination = Pagination(total: nat, limit: nat, skip: nat, hasMore: bool)

  datatype History = History(records: seq<RecommendationRecord>, pagination: Pagination)

  function RecordOf(name: string): RecommendationRecord -> bool
  {
    (r: RecommendationRecord) => r.username == name
  }

  /** The saved recommendations of user `name`, in insertion order. */
  function RecordsOf(rs: seq<RecommendationRecord>, name: string): seq<RecommendationRecord>
  {
    Sequences.Filter(rs, RecordOf(name))
  }

  function NegCreatedAt(r: RecommendationRecord): int { -r.createdAt }

  /** Records newest first; records created at the same instant keep their stored order. */
  function NewestFirst(rs: seq<RecommendationRecord>): (r: seq<RecommendationRecord>)
    ensures multiset(r) == multiset(rs) && |r| == |rs|
    ensures forall i, j :: 0 <= i < j < |r| ==> r[i].createdAt >= r[j].createdAt
  {
    var r := Sequences.SortBy(rs, NegCreatedAt);
    assert |r| == |multiset(r)|;
    assert forall i, j :: 0 <= i < j < |r| ==> NegCreatedAt(r[i]) <= NegCreatedAt(r[j]);
    r
  }

  /**
   The page after skipping `skip` records, at most `limit` long; a limit of
   zero means no limit, as in the database's cursor.
   */
  function Page<T>(s: seq<T>, skip: nat, limit: nat): (r: seq<T>)
    ensures skip >= |s| ==> r == []
    ensures skip < |s| ==> |r| == (if limit == 0 || skip + limit > |s| then |s| - skip else limit)
    ensures forall i :: 0 <= i < |r| ==> skip + i < |s| && r[i] == s[skip + i]
  {
    if skip >= |s| then []
    else if limit == 0 || skip + limit > |s| then s[skip..]
    else s[skip..skip + limit]
  }

  /** Page size used when the request gives no `limit`. */
  const DefaultLimit: nat := 10

  /** Offset used when the request gives no `skip`. */
  const DefaultSkip: nat := 0

  /**
   One page of the saved recommendations of `username`, newest first, with
   the total count and whether more records follow the page. A missing
   `limit` or `skip` takes its default. An empty page is reported as not
   found. Reads only.
   */
  function GetUserRecommendationHistory(store: Store, username: string, limit: Option<nat>, skip: Option<nat>)
    : (r: Result<History, Error>)
    ensures username == [] ==> r == Failure(UsernameRequired)
    ensures username != [] && FindUser(store.users, username).None? ==> r == Failure(UserNotFound)
    ensures r.Failure? && username != [] && FindUser(store.users, username).Some? ==> r == Failure(NoRecommendations)
    ensures var n := if limit.Some? then limit.value else DefaultLimit;
      var k := if skip.Some? then skip.value else DefaultSkip;
      var all := NewestFirst(RecordsOf(store.recommendations, username));
      && (r.Success? <==> username != [] && FindUser(store.users, username).Some? && Page(all, k, n) != [])
      && (r.Success? ==>
            && r.value.records != []
            && r.value.records == Page(all, k, n)
            && r.value.pagination == Pagination(|all|, n, k, k + |r.value.records| < |all|))
  {
    var numLimit := if limit.Some? then limit.value else DefaultLimit;
    var numSkip := if skip.Some? then skip.value else DefaultSkip;
    if username == [] then Failure(UsernameRequired)
    else if FindUser(store.users, username).None? then Failure(UserNotFound)
    else
      var all := NewestFirst(RecordsOf(store.recommendations, username));
      var page := Page(all, numSkip, numLimit);
      if page == [] then Failure(NoRecommendations)
      else Success(History(page, Pagination(|all|, numLimit, numSkip, numSkip + |page| < |all|)))
  }

  /**
   `hasMore` says exactly that the page was cut short by the limit: a limit
   is set and records remain past `skip + limit`; and an empty page happens
   exactly when `skip` reaches past the user's records.
   */
  lemma HasMoreMeansRecordsRemain(store: Store, username: string, limit: nat, skip: nat)
    requires username != [] && FindUser(store.users, username).Some?
    ensures var total := |RecordsOf(store.recommendations, username)|;
      var r := GetUserRecommendationHistory(store, username, Some(limit), Some(skip));
      && (r.Failure? <==> skip >= total)
      && (r.Success? ==> (r.value.pagination.hasMore <==> limit > 0 && skip + limit < total))
  {
    var all := NewestFirst(RecordsOf(store.recommendations, username));
    var page := Page(all, skip, limit);
    if skip < |all| {
      assert page != [];
    }
  }

  /**
   Twelve saved records, pages of ten: the first page, which a request with
   no parameters gets, has more; the second has two and no more; the third
   is empty.
   */
  lemma TwelveRecordsInPagesOfTen(store: Store, username: string)
    requires username != [] && FindUser(store.users, username).Some?
    requires |RecordsOf(store.recommendations, username)| == 12
    ensures var first := GetUserRecommendationHistory(store, username, None, None);
      first.Success? && |first.value.records| == 10 && first.value.pagination.hasMore
    ensures var second := GetUserRecommendationHistory(store, username, Some(10), Some(10));
      second.Success? && |second.value.records| == 2 && !second.value.pagination.hasMore
    ensures GetUserRecommendationHistory(store, username, None, Some(12)) == Failure(NoRecommendations)
  {
    var all := NewestFirst(RecordsOf(store.recommendations, username));
    assert |Page(all, 0, 10)| == 10;
    assert |Page(all, 10, 10)| == 2;
  }
}
