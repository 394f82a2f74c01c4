/**
 The cache-or-fetch policy that both homepage data providers follow: serve the cache file
 while it is fresh, otherwise ask the remote API; an accepted response overwrites the cache
 file and is returned decoded, a rejected one yields the provider's fallback value and
 leaves the file alone. There is no stale-serve fallback: a rejected refetch never falls
 back to the stale file.

 The file system is an in-memory entry (payload and modification time, or absent), the
 clock an explicit `now` in seconds, and `json_decode` a function parameter.
 */
module FileCache {
  import opened Wrappers
  import opened Php

  /** A cache file: its bytes and its modification time (`filemtime`), in seconds. */
  datatype Entry = Entry(payload: Bytes, mtime: int)

  /** What one remote request gave: a body with its HTTP status code, or a transport error. */
  datatype FetchResult = Success(body: Bytes, code: int) | Failure

  /** What one call returns, and the cache file it leaves behind. */
  datatype Outcome = Outcome(result: Value, file: Option<Entry>)

  /** The staleness test: the file is missing, or more than `ttl` seconds old. A file
      exactly `ttl` seconds old is still fresh, and so is one whose mtime lies ahead of
      the clock. */
  predicate Stale(file: Option<Entry>, now: int, ttl: int)
    ensures !Stale(file, now, ttl) <==> file.Some? && now <= file.value.mtime + ttl
  {
    file.None? || now - file.value.mtime > ttl
  }

  /** Once a file is stale it stays stale while the clock moves forward. */
  lemma StalenessIsMonotone(file: Option<Entry>, t1: int, t2: int, ttl: int)
    requires t1 <= t2 && Stale(file, t1, ttl)
    ensures Stale(file, t2, ttl)
  {
  }

  /** One call of a provider's public getter. `accepted` is the body the provider's fetch
      would keep (None when it rejects the response); it is consulted only when the file
      is stale. The file changes only by taking an accepted body on a stale call, and what
      is returned is either the fallback or what reading the file back gives. */
  function CacheOrFetch(file: Option<Entry>, now: int, ttl: int, decode: Bytes -> Value,
                        accepted: Option<Bytes>, fallback: Value): (o: Outcome)
    ensures o.file != file ==> Stale(file, now, ttl) && accepted.Some? && o.file == Some(Entry(accepted.value, now))
    ensures o.result == fallback || (o.file.Some? && o.result == decode(o.file.value.payload))
  {
    if Stale(file, now, ttl) then
      match accepted
      case Some(body) => Outcome(decode(body), Some(Entry(body, now)))
      case None => Outcome(fallback, file)
    else
      Outcome(decode(file.value.payload), file)
  }

  /** A fresh file is served decoded, nothing is written, and the remote answer is ignored. */
  lemma FreshIsServedFromFile(e: Entry, now: int, ttl: int, decode: Bytes -> Value,
                              accepted: Option<Bytes>, fallback: Value)
    requires now - e.mtime <= ttl
    ensures CacheOrFetch(Some(e), now, ttl, decode, accepted, fallback) == Outcome(decode(e.payload), Some(e))
  {
  }

  /** On a stale or missing file, an accepted body replaces the file, stamped `now`, and is
      returned decoded; reading the new file back gives the same data. */
  lemma AcceptedIsWrittenAndReturned(file: Option<Entry>, now: int, ttl: int, decode: Bytes -> Value,
                                     body: Bytes, fallback: Value)
    requires Stale(file, now, ttl)
    ensures var o := CacheOrFetch(file, now, ttl, decode, Some(body), fallback);
            o.file == Some(Entry(body, now)) && o.result == decode(o.file.value.payload)
            && (!Stale(o.file, now, ttl) <==> ttl >= 0)
  {
  }

  /** On a stale or missing file, a rejected fetch returns the fallback and leaves the file
      as it was, even when a stale file exists. */
  lemma RejectedGivesFallback(file: Option<Entry>, now: int, ttl: int, decode: Bytes -> Value,
                              fallback: Value)
    requires Stale(file, now, ttl)
    ensures CacheOrFetch(file, now, ttl, decode, None, fallback) == Outcome(fallback, file)
  {
  }

  // Sequences of calls

  /** One call of the getter: the clock, and the body the fetch would accept at that moment. */
  datatype Call = Call(now: int, accepted: Option<Bytes>)

  /** What a sequence of calls returns, and the file left at the end. */
  datatype Trace = Trace(results: seq<Value>, file: Option<Entry>)

  function Run(file: Option<Entry>, ttl: int, decode: Bytes -> Value, fallback: Value,
               calls: seq<Call>): (t: Trace)
    ensures |t.results| == |calls|
    decreases |calls|
  {
    if calls == [] then Trace([], file)
    else
      var o := CacheOrFetch(file, calls[0].now, ttl, decode, calls[0].accepted, fallback);
      var rest := Run(o.file, ttl, decode, fallback, calls[1..]);
      Trace([o.result] + rest.results, rest.file)
  }

  /** While the clock stays within `ttl` seconds of a file's mtime, every call is served
      from that file and the file is never rewritten, whatever the remote would answer. */
  lemma {:induction false} ServedWithinTtl(e: Entry, ttl: int, decode: Bytes -> Value, fallback: Value,
                                          calls: seq<Call>)
    requires forall i :: 0 <= i < |calls| ==> calls[i].now - e.mtime <= ttl
    ensures Run(Some(e), ttl, decode, fallback, calls).file == Some(e)
    ensures forall i :: 0 <= i < |calls| ==> Run(Some(e), ttl, decode, fallback, calls).results[i] == decode(e.payload)
    decreases |calls|
  {
    if calls != [] {
      ServedWithinTtl(e, ttl, decode, fallback, calls[1..]);
    }
  }

  /** A successful refetch is served for the next `ttl` seconds: every later call up to
      `ttl` seconds after it returns the same decoded body. */
  lemma FetchedThenServed(file: Option<Entry>, now: int, ttl: int, decode: Bytes -> Value,
                          body: Bytes, fallback: Value, later: seq<Call>)
    requires Stale(file, now, ttl)
    requires forall i :: 0 <= i < |later| ==> later[i].now - now <= ttl
    ensures var t := Run(file, ttl, decode, fallback, [Call(now, Some(body))] + later);
            t.file == Some(Entry(body, now)) &&
            forall i :: 0 <= i < |t.results| ==> t.results[i] == decode(body)
  {
    var calls := [Call(now, Some(body))] + later;
    assert calls[1..] == later;
    ServedWithinTtl(Entry(body, now), ttl, decode, fallback, later);
  }

  /** The cache file only ever holds what it held at the start or a body some call accepted,
      stamped with that call's clock: a rejected response never reaches the file. */
  lemma {:induction false} FileHoldsAcceptedBody(file: Option<Entry>, ttl: int, decode: Bytes -> Value,
                                                fallback: Value, calls: seq<Call>)
    ensures var f := Run(file, ttl, decode, fallback, calls).file;
            f == file ||
            exists i :: 0 <= i < |calls| && calls[i].accepted.Some? &&
                        f == Some(Entry(calls[i].accepted.value, calls[i].now))
    decreases |calls|
  {
    if calls != [] {
      var o := CacheOrFetch(file, calls[0].now, ttl, decode, calls[0].accepted, fallback);
      var rest := calls[1..];
      FileHoldsAcceptedBody(o.file, ttl, decode, fallback, rest);
      var f := Run(o.file, ttl, decode, fallback, rest).file;
      if f != o.file {
        var i :| 0 <= i < |rest| && rest[i].accepted.Some? &&
                 f == Some(Entry(rest[i].accepted.value, rest[i].now));
        assert calls[i + 1] == rest[i];
      } else if o.file != file {
        assert calls[0].accepted.Some? && f == Some(Entry(calls[0].accepted.value, calls[0].now));
      }
    }
  }
}
