/**
 The Twitter timeline provider: `getTweets` serves `tmp/tweets.json` while it is at most six
 hours old and otherwise asks the user_timeline endpoint through an OAuth client built from
 the configuration given to the constructor. Only status 200 counts: its body is written to
 the file unchecked (an empty body included) and returned decoded; any other status gives
 the empty array and leaves the file alone.
 */
module TwitterFeed {
  import opened Wrappers
  import opened Php
  import opened FileCache

  /** `TWEETS_CACHE_TIME`: six hours, in seconds. */
  const TweetsCacheTime: int := 3600 * 6

  /** PHP's `array()`. */
  const EmptyArray: Value := Arr([])

  /** The body `fetchFromAPI` keeps: the response of a 200, and nothing otherwise. */
  function AcceptedBody(response: FetchResult): (kept: Option<Bytes>)
    ensures response.Failure? ==> kept.None?
    ensures kept.Some? ==> response == Success(kept.value, 200)
  {
    if response.Success? && response.code == 200 then Some(response.body) else None
  }

  /** What `getTweets` returns and the tweets cache file it leaves. */
  function GetTweetsStep(file: Option<Entry>, now: int, response: FetchResult, decode: Bytes -> Value): (o: Outcome)
    ensures o.file != file ==> Stale(file, now, TweetsCacheTime) && response.Success? &&
                               response.code == 200 && o.file == Some(Entry(response.body, now))
    ensures o.result == EmptyArray || (o.file.Some? && o.result == decode(o.file.value.payload))
  {
    CacheOrFetch(file, now, TweetsCacheTime, decode, AcceptedBody(response), EmptyArray)
  }

  /** Every body of a 200 response is kept, the empty body included. */
  lemma EveryOkBodyIsKept(body: Bytes)
    ensures AcceptedBody(Success(body, 200)) == Some(body)
    ensures AcceptedBody(Success([], 200)) == Some([])
  {
  }

  /** The calls a sequence of `getTweets` requests makes of the shared policy: each clock
      reading with the body `fetchFromAPI` would keep from that moment's response. */
  function TweetsCalls(log: seq<(int, FetchResult)>): seq<Call> {
    seq(|log|, i requires 0 <= i < |log| => Call(log[i].0, AcceptedBody(log[i].1)))
  }

  /** After any sequence of `getTweets` calls the tweets file is the initial one or the body
      of some 200 response, stamped with that call's clock. */
  lemma TweetsFileComesFromOkResponse(file: Option<Entry>, decode: Bytes -> Value, log: seq<(int, FetchResult)>)
    ensures var f := Run(file, TweetsCacheTime, decode, EmptyArray, TweetsCalls(log)).file;
            f == file ||
            exists i :: 0 <= i < |log| && log[i].1.Success? && log[i].1.code == 200 &&
                        f == Some(Entry(log[i].1.body, log[i].0))
  {
    var calls := TweetsCalls(log);
    FileHoldsAcceptedBody(file, TweetsCacheTime, decode, EmptyArray, calls);
    var f := Run(file, TweetsCacheTime, decode, EmptyArray, calls).file;
    if f != file {
      var i :| 0 <= i < |calls| && calls[i].accepted.Some? &&
               f == Some(Entry(calls[i].accepted.value, calls[i].now));
      assert calls[i].accepted == AcceptedBody(log[i].1);
    }
  }

  /** The boundary is strict: a file exactly six hours old is served without a request,
      one second later it is refetched, and a failed fetch then gives the empty array. */
  lemma StalenessBoundary(e: Entry, response: FetchResult, decode: Bytes -> Value)
    ensures GetTweetsStep(Some(e), e.mtime + 21600, response, decode) == Outcome(decode(e.payload), Some(e))
    ensures GetTweetsStep(Some(e), e.mtime + 21601, Failure, decode) == Outcome(EmptyArray, Some(e))
  {
  }

  /** A 200 writes its body, with no emptiness check, over the whole file and returns it decoded. */
  lemma OkBodyIsCached(file: Option<Entry>, now: int, body: Bytes, decode: Bytes -> Value)
    requires Stale(file, now, TweetsCacheTime)
    ensures GetTweetsStep(file, now, Success(body, 200), decode) == Outcome(decode(body), Some(Entry(body, now)))
    ensures GetTweetsStep(file, now, Success([], 200), decode) == Outcome(decode([]), Some(Entry([], now)))
  {
  }

  /** Any other status, or no response at all, gives the empty array and keeps the file,
      even a stale one: no fallback to old tweets. */
  lemma OtherStatusGivesEmpty(file: Option<Entry>, now: int, response: FetchResult, decode: Bytes -> Value)
    requires Stale(file, now, TweetsCacheTime)
    requires response.Failure? || response.code != 200
    ensures GetTweetsStep(file, now, response, decode) == Outcome(EmptyArray, file)
  {
  }

  /** The Twitter provider object. */
  class Tweets {
    const config: PhpArray
    const jsonDecode: Bytes -> Value
    /** The file `tmp/tweets.json`: its contents and mtime, or None while it does not exist. */
    var file: Option<Entry>
    /** The number of requests made to the API so far. */
    ghost var requests: nat

    /** The OAuth configuration is kept as given. */
    constructor (config: PhpArray, file: Option<Entry>, jsonDecode: Bytes -> Value)
      ensures this.config == config && this.file == file && this.jsonDecode == jsonDecode
      ensures requests == 0
    {
      this.config := config;
      this.file := file;
      this.jsonDecode := jsonDecode;
      requests := 0;
    }

    /** `getTweets`: one request, signed with the stored config, exactly when the file is
        missing or stale; a fresh file is served whatever the endpoint would answer. */
    method GetTweets(now: int, timeline: PhpArray -> FetchResult) returns (tweets: Value)
      modifies this
      ensures Outcome(tweets, file) == GetTweetsStep(old(file), now, timeline(config), jsonDecode)
      ensures requests == old(requests) + if Stale(old(file), now, TweetsCacheTime) then 1 else 0
      ensures !Stale(old(file), now, TweetsCacheTime) ==>
                file == old(file) && tweets == jsonDecode(file.value.payload)
      ensures tweets == EmptyArray || (file.Some? && tweets == FetchFromCache())
    {
      if file.None? || now - file.value.mtime > TweetsCacheTime {
        tweets := FetchFromAPI(now, timeline);
        return;
      }
      tweets := FetchFromCache();
    }

    /** `fetchFromAPI`: one request; a 200 body is written to the file and returned
        decoded, anything else gives the empty array. */
    method FetchFromAPI(now: int, timeline: PhpArray -> FetchResult) returns (tweets: Value)
      modifies this
      ensures requests == old(requests) + 1
      ensures AcceptedBody(timeline(config)).Some? ==>
                file == Some(Entry(timeline(config).body, now)) && tweets == jsonDecode(timeline(config).body)
      ensures AcceptedBody(timeline(config)).None? ==> file == old(file) && tweets == EmptyArray
    {
      requests := requests + 1;
      var response := timeline(config);
      if response.Success? && response.code == 200 {
        SaveToCache(response.body, now);
        tweets := jsonDecode(response.body);
        return;
      }
      tweets := EmptyArray;
    }

    /** `fetchFromCache`: the decoded contents of the file. */
    function FetchFromCache(): (tweets: Value)
      reads this
      requires file.Some?
    {
      jsonDecode(file.value.payload)
    }

    /** `saveToCache`: the whole file is replaced and stamped `now`, whatever it held;
        reading it back gives the decode of what was written. */
    method SaveToCache(json: Bytes, now: int)
      modifies this`file
      ensures file == Some(Entry(json, now))
      ensures FetchFromCache() == jsonDecode(json)
      ensures forall t :: t <= now + TweetsCacheTime ==> !Stale(file, t, TweetsCacheTime)
    {
      file := Some(Entry(json, now));
    }
  }
}
