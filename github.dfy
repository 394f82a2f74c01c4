/**
 The GitHub repository list provider: `getRepos` serves `tmp/repos.json` while it is at
 most six hours old and otherwise asks the GitHub API with curl. A curl error or a falsy
 body ("" or "0") is a failure: nothing is written and null is returned. The HTTP status is
 never looked at, so any other body, an error document included, is cached and returned.
 */
module GitHubRepos {
  import opened Wrappers
  import opened Php
  import opened FileCache

  /** `REPOS_CACHE_TIME`: six hours, in seconds. */
  const ReposCacheTime: int := 3600 * 6

  /** The one endpoint this provider asks. */
  const ReposUrl: string := "https://api.github.com/users/arian/repos?sort=pushed"

  /** The body `fetchFromAPI` keeps: none on a curl error, none when the body is falsy,
      otherwise the body whatever its status code. */
  function AcceptedBody(response: FetchResult): (kept: Option<Bytes>)
    ensures response.Failure? ==> kept.None?
    ensures kept.Some? ==> response.Success? && kept.value == response.body && StringIsTruthy(kept.value)
  {
    match response
    case Failure => None
    case Success(body, _) => if StringIsTruthy(body) then Some(body) else None
  }

  /** What `getRepos` returns and the repos cache file it leaves. */
  function GetReposStep(file: Option<Entry>, now: int, response: FetchResult, decode: Bytes -> Value): (o: Outcome)
    ensures o.file != file ==> Stale(file, now, ReposCacheTime) && response.Success? &&
                               StringIsTruthy(response.body) && o.file == Some(Entry(response.body, now))
    ensures o.result == Null || (o.file.Some? && o.result == decode(o.file.value.payload))
  {
    CacheOrFetch(file, now, ReposCacheTime, decode, AcceptedBody(response), Null)
  }

  /** A status code never changes which body is kept. */
  lemma StatusNeverMatters(body: Bytes, c1: int, c2: int)
    ensures AcceptedBody(Success(body, c1)) == AcceptedBody(Success(body, c2))
  {
  }

  /** The calls a sequence of `getRepos` requests makes of the shared policy: each clock
      reading with the body `fetchFromAPI` would keep from that moment's response. */
  function ReposCalls(log: seq<(int, FetchResult)>): seq<Call> {
    seq(|log|, i requires 0 <= i < |log| => Call(log[i].0, AcceptedBody(log[i].1)))
  }

  /** After any sequence of `getRepos` calls the repos file is the initial one or a body
      some response carried without a curl error, stamped with that call's clock; so if it
      did not start out holding "" or "0", it never comes to hold them. */
  lemma ReposFileComesFromResponse(file: Option<Entry>, decode: Bytes -> Value, log: seq<(int, FetchResult)>)
    ensures var f := Run(file, ReposCacheTime, decode, Null, ReposCalls(log)).file;
            f == file ||
            exists i :: 0 <= i < |log| && log[i].1.Success? && StringIsTruthy(log[i].1.body) &&
                        f == Some(Entry(log[i].1.body, log[i].0))
    ensures var f := Run(file, ReposCacheTime, decode, Null, ReposCalls(log)).file;
            (file.None? || StringIsTruthy(file.value.payload)) ==> (f.None? || StringIsTruthy(f.value.payload))
  {
    var calls := ReposCalls(log);
    FileHoldsAcceptedBody(file, ReposCacheTime, decode, Null, calls);
    var f := Run(file, ReposCacheTime, decode, Null, calls).file;
    if f != file {
      var i :| 0 <= i < |calls| && calls[i].accepted.Some? &&
               f == Some(Entry(calls[i].accepted.value, calls[i].now));
      assert calls[i].accepted == AcceptedBody(log[i].1);
    }
  }

  /** The boundary is strict: a file exactly six hours old is served without a request,
      one second later it is refetched, and if that fetch fails the result is null. */
  lemma StalenessBoundary(e: Entry, response: FetchResult, decode: Bytes -> Value)
    ensures GetReposStep(Some(e), e.mtime + 21600, response, decode) == Outcome(decode(e.payload), Some(e))
    ensures GetReposStep(Some(e), e.mtime + 21601, Failure, decode) == Outcome(Null, Some(e))
  {
  }

  /** A transport error yields null and leaves the file, even a stale one: no fallback. */
  lemma CurlErrorGivesNull(file: Option<Entry>, now: int, decode: Bytes -> Value)
    requires Stale(file, now, ReposCacheTime)
    ensures GetReposStep(file, now, Failure, decode) == Outcome(Null, file)
  {
  }

  /** An empty body, or the body "0", counts as a failure too. */
  lemma FalsyBodyGivesNull(file: Option<Entry>, now: int, code: int, decode: Bytes -> Value)
    requires Stale(file, now, ReposCacheTime)
    ensures GetReposStep(file, now, Success([], code), decode) == Outcome(Null, file)
    ensures GetReposStep(file, now, Success([Zero], code), decode) == Outcome(Null, file)
  {
  }

  /** The status code never matters: a truthy body, be it a 404 or 500 document, is cached
      and returned decoded. */
  lemma StatusIsIgnored(file: Option<Entry>, now: int, body: Bytes, code: int, decode: Bytes -> Value)
    requires Stale(file, now, ReposCacheTime) && StringIsTruthy(body)
    ensures GetReposStep(file, now, Success(body, code), decode) == Outcome(decode(body), Some(Entry(body, now)))
  {
  }

  /** The GitHub provider object. */
  class GitHub {
    const url: string
    const jsonDecode: Bytes -> Value
    /** The file `tmp/repos.json`: its contents and mtime, or None while it does not exist. */
    var file: Option<Entry>
    /** The number of requests made to the API so far. */
    ghost var requests: nat

    constructor (file: Option<Entry>, jsonDecode: Bytes -> Value)
      ensures url == ReposUrl && this.file == file && this.jsonDecode == jsonDecode
      ensures requests == 0
    {
      url := ReposUrl;
      this.file := file;
      this.jsonDecode := jsonDecode;
      requests := 0;
    }

    /** `getRepos`: one request exactly when the file is missing or stale. */
    method GetRepos(now: int, api: string -> FetchResult) returns (repos: Value)
      modifies this
      ensures Outcome(repos, file) == GetReposStep(old(file), now, api(url), jsonDecode)
      ensures requests == old(requests) + if Stale(old(file), now, ReposCacheTime) then 1 else 0
      ensures !Stale(old(file), now, ReposCacheTime) ==>
                file == old(file) && repos == jsonDecode(file.value.payload)
      ensures repos == Null || (file.Some? && repos == FetchFromCache())
    {
      if file.None? || now - file.value.mtime > ReposCacheTime {
        repos := FetchFromAPI(now, api);
        return;
      }
      repos := FetchFromCache();
    }

    /** `fetchFromAPI`: one request; the body survives only without a curl error and when
        it is truthy, and then it is written to the file and returned decoded. */
    method FetchFromAPI(now: int, api: string -> FetchResult) returns (repos: Value)
      modifies this
      ensures requests == old(requests) + 1
      ensures AcceptedBody(api(url)).Some? ==>
                file == Some(Entry(api(url).body, now)) && repos == jsonDecode(api(url).body)
      ensures AcceptedBody(api(url)).None? ==> file == old(file) && repos == Null
    {
      requests := requests + 1;
      var response := api(url);
      var json: Option<Bytes> := None;
      if response.Success? {
        json := Some(response.body);
      }
      if json.Some? && StringIsTruthy(json.value) {
        SaveToCache(json.value, now);
        repos := jsonDecode(json.value);
        return;
      }
      repos := Null;
    }

    /** `fetchFromCache`: the decoded contents of the file. */
    function FetchFromCache(): (repos: Value)
      reads this
      requires file.Some?
    {
      jsonDecode(file.value.payload)
    }

    /** `saveToCache`: the whole file is replaced and stamped `now`; reading it back gives
        the decode of what was written, and it is fresh for the next six hours. */
    method SaveToCache(json: Bytes, now: int)
      modifies this`file
      ensures file == Some(Entry(json, now))
      ensures FetchFromCache() == jsonDecode(json)
      ensures forall t :: t <= now + ReposCacheTime ==> !Stale(file, t, ReposCacheTime)
    {
      file := Some(Entry(json, now));
    }
  }
}
