# Homepage data providers and template, in Dafny

This project models the PHP core of a personal homepage generator: two data providers that
decide between a disk cache and a remote API (`GitHub::getRepos` for the repository list,
`Tweets::getTweets` for the tweet timeline), and the `Template` object whose parameter
store feeds the page.

- `wrappers.dfy` — `Option`.
- `php.dfy` (module `Php`) — the PHP values the code handles: byte strings and their
  truthiness (`""` and `"0"` are false), and PHP arrays as ordered maps with distinct keys,
  with `$a[$k] = $v` (`Assign`) and `array_merge` (`ArrayMerge`, string keys assigned in
  place, integer keys renumbered from the next free index).
- `file_cache.dfy` (module `FileCache`) — the cache-or-fetch policy the two providers share.
  A cache file is `Option<Entry>` (bytes and mtime), the clock is an explicit `now`, the
  remote answer a `FetchResult` (`Success(body, code)` or `Failure`), and `json_decode` a
  function parameter. `Stale` is the test `!file_exists || now - filemtime > ttl`;
  `CacheOrFetch` is one call; `Run` is a sequence of calls, used to state what the cache
  guarantees over time.
- `github.dfy` (module `GitHubRepos`) — class `GitHub`: curl errors and falsy bodies fail
  with null, the HTTP status is never checked.
- `tweets.dfy` (module `TwitterFeed`) — class `Tweets`: only status 200 is accepted, its
  body is cached unchecked, anything else gives `array()`.
- `template.dfy` (module `Templates`) — class `Template`: `$params` and the internal array
  pointer as fields, the magic accessors and the Iterator methods.

Each provider class has a ghost counter `requests` of the API requests made, so that
"a request is made exactly when the file is missing or stale" is part of the getters'
contracts. The API is passed to the getter as a function of what the request is built
from (the fixed URL for GitHub, the stored OAuth configuration for Twitter); a fresh file
is served without applying it.

Neither provider falls back to a stale file: when a refetch fails, GitHub returns null and
Twitter returns `array()`, and an existing stale file is left on disk unread. GitHub never
checks the HTTP status, so any truthy body, an error document included, is cached and
returned. Twitter accepts only status 200, but caches a 200 body without checking it, so an
empty body is cached too.

PHP array behaviour follows PHP 5, the PHP of this code. The array built by `array_merge`
has its internal pointer on its first entry. An entry appended while the pointer is past the
end becomes the current one, as in PHP 7.

## Model

| member | source | states |
|---|---|---|
| `Php.Lookup` | scripts/_index/_home/lib/Template.php:19-20 | `$a[$k]` finds a value exactly when `k` is a key of the array, and the value found is stored under `k` |
| `Php.Assign` | scripts/_index/_home/lib/Template.php:15 | `$a[$k] = $v` adds `k` to the keys, grows the array only when `k` was new, and keeps every existing key at its position |
| `Php.AssignLookup` | scripts/_index/_home/lib/Template.php:14-16 | after the assignment the keys are still distinct, `k` holds `v`, and every other key holds what it held before |
| `Php.CountIsKeyCount` | scripts/_index/_home/lib/Template.php:29-31 | on an array with distinct keys the number of entries equals the number of keys |
| `Php.MergeEntry` | scripts/_index/_home/lib/Template.php:8 | copying one entry keeps every existing key at its position, adds at most one entry, and adds only that entry's key among string keys |
| `Php.MergeEntryOk` | scripts/_index/_home/lib/Template.php:8 | copying one entry keeps keys distinct and the next free index ahead, and changes only the copied string key's value |
| `Php.MergeInto` | scripts/_index/_home/lib/Template.php:8 | copying a whole array keeps existing keys at their positions, adds at most as many entries as it copies, and its string keys are the old ones plus the copied ones |
| `Php.ArrayMerge` | scripts/_index/_home/lib/Template.php:8 | `array_merge($a, $b)` has at most as many entries as `a` and `b` together and its string keys are exactly those of `a` and `b` |
| `Php.MergeIntoOk` | scripts/_index/_home/lib/Template.php:8 | copying entries in the way `array_merge` does keeps the keys distinct and the next free integer index above every integer key |
| `Php.MergeIntoLookup` | scripts/_index/_home/lib/Template.php:8 | after merging `s` in, a string key has the value `s` gives it, or else the value it had before |
| `Php.ArrayMergeLookup` | scripts/_index/_home/lib/Template.php:8 | `array_merge($a, $b)` has distinct keys; a string key of `b` takes `b`'s value, a string key only in `a` keeps `a`'s, a key in neither is absent |
| `FileCache.Stale` | scripts/_index/_home/lib/GitHub.php:17 | a file is fresh exactly when it exists and the clock is at most `mtime + ttl`; a missing file is always stale (the same test as scripts/_index/_home/lib/Tweets.php:20) |
| `FileCache.StalenessIsMonotone` | scripts/_index/_home/lib/Tweets.php:20 | once stale, a file stays stale as the clock moves forward |
| `FileCache.CacheOrFetch` | scripts/_index/_home/lib/GitHub.php:15-41 | the file changes only on a stale call, to the accepted body stamped `now`; the result is the fallback or the decode of the file as left |
| `FileCache.FreshIsServedFromFile` | scripts/_index/_home/lib/GitHub.php:15-22 | a file at most `ttl` seconds old is returned decoded, is not rewritten, and the remote answer plays no part |
| `FileCache.AcceptedIsWrittenAndReturned` | scripts/_index/_home/lib/GitHub.php:37-40 | on a missing or stale file an accepted body replaces the file stamped `now` and the result is the decode of what the file now holds |
| `FileCache.RejectedGivesFallback` | scripts/_index/_home/lib/GitHub.php:37-41 | on a missing or stale file a rejected fetch returns the fallback and leaves the file, stale or not, as it was |
| `FileCache.ServedWithinTtl` | scripts/_index/_home/lib/GitHub.php:15-22 | over any sequence of calls whose clock stays within `ttl` of the file's mtime, every call returns the decoded file and the file is never rewritten |
| `FileCache.FetchedThenServed` | scripts/_index/_home/lib/GitHub.php:37-49 | after a successful refetch at `now`, every later call up to `now + ttl` returns the same decoded body |
| `FileCache.FileHoldsAcceptedBody` | scripts/_index/_home/lib/GitHub.php:37-49 | after any sequence of calls the file is the initial one or the body some call accepted, stamped with that call's clock |
| `GitHubRepos.AcceptedBody` | scripts/_index/_home/lib/GitHub.php:29-41 | a curl error keeps nothing; whatever is kept is the response body itself and is truthy (never "" or "0") |
| `GitHubRepos.StatusNeverMatters` | scripts/_index/_home/lib/GitHub.php:26-40 | two responses with the same body and different status codes keep the same body |
| `GitHubRepos.GetReposStep` | scripts/_index/_home/lib/GitHub.php:15-41 | the repos file changes only on a stale call, to a truthy body with no curl error stamped `now`; the result is null or what reading the file back gives |
| `GitHubRepos.ReposFileComesFromResponse` | scripts/_index/_home/lib/GitHub.php:37-49 | after any sequence of `getRepos` calls the file is the initial one or a truthy response body stamped with its call's clock, so a file that never held "" or "0" never comes to |
| `GitHubRepos.StalenessBoundary` | scripts/_index/_home/lib/GitHub.php:3-21 | a file exactly 21600 s old is served from cache; at 21601 s it is refetched and a failure gives null |
| `GitHubRepos.CurlErrorGivesNull` | scripts/_index/_home/lib/GitHub.php:31-41 | on a stale or missing file a curl error yields null and no write, even when a stale file exists |
| `GitHubRepos.FalsyBodyGivesNull` | scripts/_index/_home/lib/GitHub.php:37-41 | an empty body and the body "0" are failures: null, no write |
| `GitHubRepos.StatusIsIgnored` | scripts/_index/_home/lib/GitHub.php:26-40 | any truthy body is cached and returned decoded whatever its status code |
| `GitHubRepos.GitHub.constructor` | scripts/_index/_home/lib/GitHub.php:10-13 | the URL is the fixed repos endpoint; no request made yet |
| `GitHubRepos.GitHub.GetRepos` | scripts/_index/_home/lib/GitHub.php:15-22 | result and new file follow the shared policy with a six-hour TTL and null fallback; one request exactly when the file is missing or stale; a fresh file is served unchanged; the result is null or what `fetchFromCache` would read back from the new file |
| `GitHubRepos.GitHub.FetchFromAPI` | scripts/_index/_home/lib/GitHub.php:24-41 | one request; an accepted body is written stamped `now` and returned decoded, otherwise the file is unchanged and null returned |
| `GitHubRepos.GitHub.SaveToCache` | scripts/_index/_home/lib/GitHub.php:47-49 | the file is replaced whole, stamped `now`; reading it back gives the decode of what was written; it is fresh for six hours |
| `TwitterFeed.AcceptedBody` | scripts/_index/_home/lib/Tweets.php:32-40 | a transport failure keeps nothing; whatever is kept comes from a response with status 200 and is its body |
| `TwitterFeed.EveryOkBodyIsKept` | scripts/_index/_home/lib/Tweets.php:34-37 | every 200 body is kept, the empty body included |
| `TwitterFeed.GetTweetsStep` | scripts/_index/_home/lib/Tweets.php:18-41 | the tweets file changes only on a stale call, to the body of a 200 response stamped `now`; the result is `array()` or what reading the file back gives |
| `TwitterFeed.TweetsFileComesFromOkResponse` | scripts/_index/_home/lib/Tweets.php:34-49 | after any sequence of `getTweets` calls the file is the initial one or the body of some 200 response stamped with its call's clock |
| `TwitterFeed.StalenessBoundary` | scripts/_index/_home/lib/Tweets.php:6-24 | a file exactly 21600 s old is served from cache; at 21601 s it is refetched and a failure gives the empty array |
| `TwitterFeed.OkBodyIsCached` | scripts/_index/_home/lib/Tweets.php:34-37 | a 200 body, the empty one included, overwrites the file and is returned decoded |
| `TwitterFeed.OtherStatusGivesEmpty` | scripts/_index/_home/lib/Tweets.php:34-40 | a failure or any status other than 200 gives the empty array and leaves the file, even a stale one |
| `TwitterFeed.Tweets.constructor` | scripts/_index/_home/lib/Tweets.php:13-16 | the configuration is stored as given; no request made yet |
| `TwitterFeed.Tweets.GetTweets` | scripts/_index/_home/lib/Tweets.php:18-26 | result and new file follow the shared policy with a six-hour TTL and `array()` fallback; one request, built from the stored config, exactly when the file is missing or stale; a fresh file is served unchanged; the result is `array()` or what `fetchFromCache` would read back from the new file |
| `TwitterFeed.Tweets.FetchFromAPI` | scripts/_index/_home/lib/Tweets.php:28-41 | one request; a 200 body is written stamped `now` and returned decoded, otherwise the file is unchanged and `array()` returned |
| `TwitterFeed.Tweets.SaveToCache` | scripts/_index/_home/lib/Tweets.php:47-49 | the file is replaced whole, whatever it held, stamped `now`; reading it back gives the decode of what was written |
| `Templates.Visits` | scripts/_index/_home/lib/Template.php:33-51 | what a `foreach` yields from the pointer is a contiguous slice of the parameters starting there, with no `false` value in it |
| `Templates.VisitsStopAtFalse` | scripts/_index/_home/lib/Template.php:37-51 | a `foreach` yields a contiguous run of entries from the pointer, none `false`, ending at the array's end or at the first stored `false` |
| `Templates.Template.constructor` | scripts/_index/_home/lib/Template.php:5 | the parameters start empty |
| `Templates.Template.Render` | scripts/_index/_home/lib/Template.php:7-8 | the parameters become `array_merge` of the old and the render-time ones, pointer at the start; for string keys the render-time value wins and other keys keep their values |
| `Templates.Template.SetParam` | scripts/_index/_home/lib/Template.php:14-16 | the key holds the value, `__get`/`__isset` see it unless it is null, other keys are unchanged, and a pointer past the end lands on a newly appended entry |
| `Templates.Template.GetParam` | scripts/_index/_home/lib/Template.php:18-23 | the stored value when it is set and not null; otherwise a notice and null |
| `Templates.Template.IssetParam` | scripts/_index/_home/lib/Template.php:25-27 | true exactly when some entry has the key and a non-null value |
| `Templates.Template.Count` | scripts/_index/_home/lib/Template.php:29-31 | the number of stored keys, null-valued ones included |
| `Templates.Template.Rewind` | scripts/_index/_home/lib/Template.php:33-35 | the pointer is on the first entry; a `foreach` then yields the parameters from the first entry up to the end or up to the first stored `false` |
| `Templates.Template.Current` | scripts/_index/_home/lib/Template.php:37-39 | the value stored under the key at the pointer, or `false` past the end |
| `Templates.Template.Key` | scripts/_index/_home/lib/Template.php:41-43 | the key of the entry under the pointer (null past the end), whose value is the one `current` reports |
| `Templates.Template.Next` | scripts/_index/_home/lib/Template.php:45-47 | the pointer moves one entry on, stays past the end once there, returns the new current; a valid step consumes exactly the entry it was on |
| `Templates.Template.Valid` | scripts/_index/_home/lib/Template.php:49-51 | true exactly when the pointer is on an entry whose value is not `false` |

## Left out

- The curl request (scripts/_index/_home/lib/GitHub.php:26-35) and the tmhOAuth client (scripts/_index/_home/lib/Tweets.php:3-4, 30-32): foreign network code, replaced by a `FetchResult` the caller supplies as a function of the URL or of the configuration.
- `file_exists`, `filemtime`, `file_get_contents`, `file_put_contents`: the file is an in-memory `Option<Entry>`. A file whose `@filemtime` fails reads as mtime 0 in PHP, so it is stale; the model has no such state. Writes are whole-value replacements, so a torn write cannot be expressed.
- `json_decode`: a library parser, given to each provider as a total function from bytes to values.
- `time()`: an explicit `now` parameter.
- `Templates.Template.Render`: PHP 7.3 and later return the first array itself from `array_merge` when the second is empty, and then `render` with no parameters keeps the pointer where it was. The model follows PHP 5, where the pointer always returns to the first entry.
- `Templates.Template.Render`: the output buffering and the `include` of the template file (scripts/_index/_home/lib/Template.php:9-11) are I/O and dynamic code, so only the parameter merge is modelled; a `$params` that is not an array is not modelled.
- `Templates.Template.SetParam`: takes an `ArrayKey`; PHP's conversion of a decimal property name such as "5" to the integer key 5 is not modelled.
- `Php.ArrayMergeLookup`: only string keys are stated; the renumbering of integer keys is modelled in `MergeInto` but no property of it is proved.
- `fetchFromCache` (`GitHubRepos.GitHub.FetchFromCache`, `TwitterFeed.Tweets.FetchFromCache`): no contract of its own; it requires the file to exist, which the getters check first. What it reads back is stated by `SaveToCache` and by the getters.
- scripts/_index/_home/templates/index.php, _index/index.php, scripts/index.js, watch.js: presentation, wiring and build plumbing.
- Concurrency between page renders sharing one cache file: each render is modelled as a sequential call.
