# Issue-automation backend — a Dafny model

This project models the core of the backend in `backend/main.py`, a FastAPI
service that labels newly opened GitHub issues with an AI agent.

- **Automation-status store.** It holds one record per issue, keyed by
  `"{owner}/{repo}#{number}"`. The model has three parts:
  - the webhook and the retry endpoint write a *pending* record;
  - the background runner moves the record to *running* and then to
    *completed* or *failed*, keeping the start time;
  - two read endpoints return one issue's record, or every record of one
    repository by splitting the keys at `#`.
- **Failure messages.** Before a failure is stored, its message is
  normalised: any message that mentions 403, 401 or "access" becomes one
  fixed text.
- **Repository registry.** The in-memory registry is what the backend uses
  when no database is configured. It supports create (409 on a duplicate
  full name), list, and delete (404 for an unknown id).
- **GitHub rules:**
  - the classification made by `verify_repository_access`;
  - the OAuth authorisation URL, which is empty while the client id is the
    placeholder and otherwise is built with Python's `urlencode`;
  - the page size sent when listing a user's repositories,
    `min(per_page, 100)`.

## How it is modelled

Modules follow the program's structure:

- `Outcomes`: `Option`, `Result` and `HttpError`.
- `Text`: the Python string operations the code relies on. These are `in`,
  `lower`, `split`, `join` and `str(int)`, plus a decimal reader that
  partners `str(int)`.
- `StatusStore`: the status dict.
- `Lifecycle`: the webhook, the retry, the runner, error normalisation, and
  the whole-history invariants.
- `Registry`: the in-memory repository registry.
- `UrlEncoding`: `urlencode` and `quote_plus`, with a decoder as partner.
- `GitHubAccess`: the access check, the authorisation URL and the page size.

Modelling choices:

- **The dict.** A Python dict is an insertion-ordered association list
  (`seq<Entry>`) with unique keys:
  - writing an existing key keeps its position, and a new key goes last;
  - the per-repository listing walks the items in order, so a later item
    overwrites an earlier one with the same issue text.
- **The runner.** Threads are not modelled. The runner is split into its
  two writes, `BeginRun` and `FinishRun`, because the second write reads
  the start time back from the store rather than keeping it. A retry
  landing between the two writes is therefore visible in the model.
- **Inputs from outside.** Clock readings, uuids, whether the agent is
  configured, the agent's outcome, GitHub's HTTP reply and the
  token/OAuth settings are all parameters.

## Model

| member | source | states |
|---|---|---|
| `StatusStore.EncodeKeyInjective` | backend/main.py:92-100 | two (repository, issue) pairs with the same key are the same pair, for any repository name, so no issue's record is ever shared |
| `StatusStore.EncodeKey` | backend/main.py:94 | the key starts with the repository name and `#`, and the text after that `#` reads back as the issue number, whatever the name holds |
| `StatusStore.KeyDecodes` | backend/main.py:797-800 | for a repository name without `#`, splitting a key at `#` gives back the name and the decimal issue text, and that text reads back as the issue number |
| `StatusStore.Get` | backend/main.py:100 | `dict.get`: `None` exactly when the key is absent; otherwise the status of the key's first item |
| `StatusStore.Put` | backend/main.py:95 | `d[k] = v`: the key is present afterwards; an existing key keeps its position and a new key is appended; items with other keys are untouched, and every item with key `k` carries `v` |
| `StatusStore.GetPutSame` | backend/main.py:95 | after writing `k`, reading `k` gives the written value |
| `StatusStore.GetPutOther` | backend/main.py:95 | after writing `k`, every other key reads as before |
| `StatusStore.GetFirst` | backend/main.py:100 | `dict.get` returns the status of the first item carrying the key |
| `StatusStore.PutKeepsUniqueKeys` | backend/main.py:45 | writes preserve the dict's distinct keys |
| `StatusStore.UpdateAutomationStatus` | backend/main.py:92-95 | reading the written issue gives the new record; every other (repository, issue) pair reads as before |
| `StatusStore.GetAutomationStatus` | backend/main.py:97-100 | a record exists exactly when the issue's key is stored |
| `StatusStore.GetIssueAutomationStatus` | backend/main.py:780-789 | the single-issue endpoint answers with a record exactly when `"{owner}/{name}#{issue}"` is stored, and the record it gives is the one stored under that key |
| `StatusStore.Project` | backend/main.py:795-800 | the listing loop lists every text `t` that some item's key is filed under (it starts with the prefix and `split("#")[1]` is `t`), and each listed text carries the status of the last item filed under it |
| `StatusStore.RepositoryStatuses` | backend/main.py:791-802 | the listing endpoint lists exactly the texts that some stored key of `"{owner}/{name}#"` is filed under |
| `StatusStore.FileItemKeeps` | backend/main.py:797-800 | one turn of the listing loop keeps "every filed text listed, with its last status" for the items visited so far |
| `StatusStore.FileItemLast` | backend/main.py:797-800 | after one turn of the loop, each listed text carries the status of the last visited item filed under it |
| `StatusStore.LastFiledKept` | backend/main.py:797-800 | an item not filed under `t` leaves the last item filed under `t` as it was |
| `StatusStore.SameFirstPiece` | backend/main.py:798 | two `#`-free names that both stand before the first `#` of one text are the same name |
| `StatusStore.FiledUnderSecondPiece` | backend/main.py:798-799 | a key `"{q}#{m}#{n}"` with `#`-free `q` and `m` is filed under `m` in `q`'s listing |
| `StatusStore.EncodeKeyValid` | backend/main.py:94 | a key built from a repository name without `#` has exactly one `#`, followed by canonical decimal text |
| `StatusStore.UpdateKeepsValid` | backend/main.py:92-95 | writes under `#`-free repository names keep the store valid (unique keys of that shape) |
| `StatusStore.MatchingKeyShape` | backend/main.py:798-799 | a valid key that starts with `"{repo}#"` is exactly that prefix followed by the piece `split("#")[1]` returns |
| `StatusStore.GetSnoc` | backend/main.py:797 | reading a store that has one more item at the end |
| `StatusStore.ProjectExact` | backend/main.py:795-800 | the listing loop's map holds text `t` exactly when `"{repo}#{t}"` is stored, and maps it to the stored record |
| `StatusStore.ListingExact` | backend/main.py:791-802 | on a valid store and a `#`-free name, issue `n` is listed exactly when its record exists, it is listed with that record, and every listed text is the canonical decimal of an integer |
| `StatusStore.PrefixOnlyMatchesOwnRepo` | backend/main.py:798 | for `#`-free names, a key carries the prefix `"{q}#"` only if it belongs to repository `q` |
| `StatusStore.KeyOutsidePrefix` | backend/main.py:798 | a key of another `#`-free repository is never `"{q}#{t}"` |
| `StatusStore.SameReadsSameListing` | backend/main.py:797-800 | two valid stores that read alike under a repository's prefix list that repository alike |
| `StatusStore.UpdateElsewhereInvisible` | backend/main.py:791-802 | writing an issue of another `#`-free repository leaves a repository's listing unchanged |
| `StatusStore.IssueEndpointAgreesWithListing` | backend/main.py:780-802 | the single-issue endpoint returns the record the listing shows for that issue, and `None` when the listing lacks it |
| `StatusStore.HashInNameLeaks` | backend/main.py:797-800 | without the `#`-free condition the listing is not exact: an issue of repository `"{q}#{m}"` appears in `q`'s listing under the text of `m` |
| `StatusStore.FirstWrite` | backend/main.py:95 | the first write into an empty store yields that single item |
| `StatusStore.ProjectSingle` | backend/main.py:797-800 | listing a one-item store whose key carries the prefix gives the item under the text after the first `#` |
| `Lifecycle.LowerOccurs` | backend/main.py:289 | `w` occurs in `s.lower()` exactly when it occurs in `s` compared in lower case |
| `Lifecycle.NormalizeError` | backend/main.py:286-290 | a message naming 403 or 401, or containing "access" in any case, becomes the fixed access-denied text; any other message is kept |
| `Lifecycle.NormalizeIdempotent` | backend/main.py:289-290 | normalising an already normalised message changes nothing |
| `Lifecycle.TaskOf` | backend/main.py:738-747 | the handler gets a task exactly when `issue` and `repository` are objects carrying the number, `repository_url` and `full_name`, and the owner (if given) is an object; the task then carries that full name, number and URL, and the owner's login as user id (none when the owner is absent) |
| `Lifecycle.HandleWebhook` | backend/main.py:732-778 | other events are acknowledged with the store unchanged; an opened-issue event with unusable fields fails with 500 and nothing written; otherwise the issue becomes pending, and the task is queued only when the agent is configured |
| `Lifecycle.RetryAutomation` | backend/main.py:804-833 | without the agent: 503 and no change; with it, the issue resets to pending, every other record is untouched, and a run is started for that repository, issue and user |
| `Lifecycle.UsableToken` | backend/main.py:261 | a token is used only for a non-empty user id whose stored token is non-empty |
| `Lifecycle.TaskPrompt` | backend/main.py:264-267 | the prompt starts with the labelling instruction, equals it exactly when there is no token, and otherwise ends with the token |
| `Lifecycle.BeginRun` | backend/main.py:252-258 | the runner's first write leaves the issue running with the given start time and no other fields, and no other issue's record changes |
| `Lifecycle.FinishRun` | backend/main.py:272-299 | with no record to read, the store is unchanged (the lookup raises); otherwise the issue ends completed or failed, keeps the start time found in the store and gets the completion time; a failure records the normalised message and no task id; no other issue's record changes |
| `Lifecycle.RunAutomationTask` | backend/main.py:242-299 | without the agent nothing changes; otherwise an uninterrupted run ends completed (with the run's id) or failed (with the normalised message), carrying the start time it wrote, and no other issue's record changes |
| `Lifecycle.UpdateKeepsConsistent` | backend/main.py:92-95 | writing a well-formed record keeps every record well-formed |
| `Lifecycle.ApplyKeepsConsistent` | backend/main.py:732-833 | webhooks, retries and uninterrupted runs write only well-formed records, meaning each phase carries the timestamps, message and task id it should |
| `Lifecycle.FinishKeepsConsistent` | backend/main.py:273-299 | the runner's last write is well-formed whenever the record it reads carries a start time |
| `Lifecycle.ReplayKeepsConsistent` | backend/main.py:732-833 | any sequence of those events keeps every record well-formed |
| `Lifecycle.ApplyKeepsValid` | backend/main.py:750-822 | an event on a `#`-free repository name keeps the store's keys valid |
| `Lifecycle.FinishKeepsValid` | backend/main.py:273-299 | the runner's last write under a `#`-free repository name keeps the store's keys valid |
| `Lifecycle.ReplayKeepsValid` | backend/main.py:750-822 | any sequence of events on `#`-free names keeps the keys valid, so the listing stays exact |
| `Lifecycle.RetryDuringRunDropsStartTime` | backend/main.py:273-279 | a retry landing between the runner's two writes makes the run finish as completed with no start time, which is not a well-formed record |
| `Registry.ListRepositories` | backend/main.py:539 | an unknown user has no repositories; a known user gets their records in insertion order |
| `Registry.CreateRepository` | backend/main.py:490-524 | fails with 409 exactly when the user already has the full name, and then changes nothing; on success, appends the new record with the request's fields, the new id and the timestamps; other users are untouched |
| `Registry.FirstWithId` | backend/main.py:566 | `next(...)` over the user's list: the index of the first record with the id, or `None` when no record has it |
| `Registry.DeleteRepository` | backend/main.py:562-577 | succeeds exactly when the user's list holds the id, removing the first such record; otherwise 404 with no change; other users are untouched |
| `Registry.CreateKeepsUniqueFullNames` | backend/main.py:509-518 | creating keeps full names unique within each user's list |
| `Registry.DeleteKeepsUniqueFullNames` | backend/main.py:564-568 | deleting keeps full names unique within each user's list |
| `Registry.RemoveAtKeepsDistinct` | backend/main.py:568 | removing one record from a list whose full names are distinct keeps them distinct |
| `Registry.CreateKeepsUniqueIds` | backend/main.py:492-518 | with a fresh uuid, creating keeps ids unique across the registry |
| `Registry.DeleteRemovesId` | backend/main.py:566-568 | with unique ids, a successful delete leaves no record with that id in the user's list |
| `Registry.CreateThenDeleteRestores` | backend/main.py:490-577 | deleting a freshly created record by its new id restores every user's listing |
| `UrlEncoding.Utf8` | backend/main.py:176 | each character is one to four UTF-8 bytes |
| `UrlEncoding.HexRoundTrip` | backend/main.py:176 | an escape's hex digit reads back as the nibble it encodes |
| `UrlEncoding.PercentBytes` | backend/main.py:176 | `%XX` escapes consist only of characters an encoded string may hold |
| `UrlEncoding.QuoteChar` | backend/main.py:176 | `quote_plus` of one character uses only unreserved characters, `+` and `%` |
| `UrlEncoding.QuotePlus` | backend/main.py:176 | the same for a whole string |
| `UrlEncoding.EncodedLacks` | backend/main.py:176 | a character outside that alphabet (such as `&`, `=`, `?` or `#`) never appears in `quote_plus` output |
| `UrlEncoding.DecodePercentBytes` | backend/main.py:176 | decoding the escapes of some bytes gives those bytes back, followed by the decoding of the rest |
| `UrlEncoding.DecodeQuoteChar` | backend/main.py:176 | decoding one encoded character gives its UTF-8 bytes |
| `UrlEncoding.QuotePlusRoundTrip` | backend/main.py:176 | decoding `quote_plus(s)` gives the UTF-8 bytes of `s` |
| `UrlEncoding.EncodeFields` | backend/main.py:176 | `urlencode` writes one `key=value` field per parameter, in order |
| `UrlEncoding.Utf8Params` | backend/main.py:176 | the bytes each parameter should arrive as, one pair per parameter |
| `UrlEncoding.DecodeEncodedPair` | backend/main.py:176 | an encoded field holds no `&` and decodes to its key and value |
| `UrlEncoding.DecodeEncodedFields` | backend/main.py:176 | decoding the encoded fields gives back every parameter |
| `UrlEncoding.UrlEncode` | backend/main.py:176 | an empty list encodes to the empty query; otherwise cutting the query at each `&` gives back exactly the encoded fields, one per parameter, in order |
| `UrlEncoding.UrlEncodeRoundTrip` | backend/main.py:176 | a non-empty parameter list survives `urlencode` followed by parsing, in order, with keys and values intact |
| `UrlEncoding.UrlEncodeStaysInQuery` | backend/main.py:176 | an encoded query holds no `?` or `#`, so it cannot cut the URL short |
| `UrlEncoding.JoinLacks` | backend/main.py:176 | joining pieces that lack a character gives a string that lacks it, when that character is not the separator |
| `GitHubAccess.GitHubAuthUrl` | backend/main.py:164-176 | empty exactly when the client id is the placeholder; otherwise starts with the authorize endpoint and `?` |
| `GitHubAccess.UrlWithQuery` | backend/main.py:176 | an endpoint without `?`, followed by `?` and an encoded query, splits back into the two and the query parses back |
| `GitHubAccess.AuthUrlCarriesParams` | backend/main.py:164-176 | a configured URL splits at its single `?`; the query parses back to client id, redirect URI, scope and state, in order, with the configured values |
| `GitHubAccess.TokenFor` | backend/main.py:112-114 | a token exists exactly when the user has a non-empty stored token |
| `GitHubAccess.VerifyRepositoryAccess` | backend/main.py:110-162 | access exactly when a token exists and GitHub answers 200 with a readable body. No token gives `no_github_token`, 401 `invalid_token`, 404 `repository_not_found`, any other status `api_error` naming it, and an exception `network_error`. The auth URL is offered exactly for the first two |
| `GitHubAccess.ApiErrorNamesStatus` | backend/main.py:151-156 | an `api_error` message is the fixed prefix followed by text that reads back as the status code |
| `GitHubAccess.ClampPageSize` | backend/main.py:427 | `min(per_page, 100)`: at most 100 and at most the request, and equal to one of them |
| `GitHubAccess.RepoListRequestCapsPageSize` | backend/main.py:423-431 | the encoded request query parses back to four fields, the first being `per_page` with the clamped value; that value reads as a number of at most 100, and as the requested number when that was not above 100 |
| `GitHubAccess.QueryReadsBack` | backend/main.py:426-431 | a non-empty query parses back with as many fields as parameters, the first one intact |
| `Text.ContainsIffOccurs` | backend/main.py:289 | Python's `p in s` holds exactly when `p` occurs at some position of `s` |
| `Text.Lower` | backend/main.py:289 | the lowered text has the same length and no capital letter; each capital becomes its small letter in place, and every other character is kept |
| `Text.LowerIdempotent` | backend/main.py:289 | lowering an already lowered text changes nothing |
| `Text.IndexOf` | backend/main.py:799 | the first position of a character, or `None` exactly when the character is absent |
| `Text.Split` | backend/main.py:799 | `split` yields at least one piece, exactly one when the separator is absent, and no piece contains the separator |
| `Text.SplitAfterFree` | backend/main.py:799 | splitting a string whose first separator follows `a` gives `a` as the first piece |
| `Text.JoinSplit` | backend/main.py:799 | joining the pieces of a split restores the string |
| `Text.SplitJoin` | backend/main.py:799 | splitting the join of separator-free pieces gives back the pieces |
| `Text.NatToString` | backend/main.py:94 | `str(n)` of a natural number is a non-empty run of digits |
| `Text.IntToString` | backend/main.py:94 | `str(i)` is non-empty and holds only digits and `-` |
| `Text.NatRoundTrip` | backend/main.py:94 | the digits of `n` read back as `n` |
| `Text.IntRoundTrip` | backend/main.py:94 | `str(i)` reads back as `i`, negative numbers included |
| `Text.IntToStringInjective` | backend/main.py:94 | distinct integers have distinct decimal texts |
| `Text.DecimalLacks` | backend/main.py:94 | decimal text never contains `#` or any other character besides digits and `-` |

## Left out

- The database path of create, list and delete is not modelled. Only the
  in-memory fallback is; it is the whole behaviour when no database is
  configured, because the database call then always raises.
- The `Failed to ... repository` 500 replies of those endpoints are not
  modelled, since they arise only with a configured database.
- HTTP transport, FastAPI routing and JSON serialisation are not modelled.
  Replies are modelled as `Result` values; the echoed payloads and `note`
  texts are dropped.
- Threads are not modelled: the runner is modelled as its two store writes.
  Only one interleaving is exhibited, a retry between them
  (`Lifecycle.RetryDuringRunDropsStartTime`).
- The AI agent's internals (its planning, tools and LLM calls) are replaced
  by its outcome, `AgentOutcome`.
- Timestamps and uuids are parameters, not clock or random reads; the two
  `datetime.now()` calls of create are two independent parameters.
- Lifecycle.TaskOf: a `full_name` or `repository_url` that is present but
  JSON `null` (or not a string) is not represented. The handler does not
  raise on it: it formats the key as `"None#{number}"` and queues the run.
  The model treats such a payload like one missing the field, as unusable.
- Webhook issue numbers are modelled as integers. A non-integer `number`
  in a payload is not modelled.
- The listing is modelled as a map. The key order of the JSON object it
  becomes is not modelled.
- `Text.Lower`: only ASCII letters are lowered. For the single marker word
  "access" this decides exactly as Python's Unicode `lower()`, because no
  non-ASCII character lowers to an ASCII letter of that word.
- `UrlEncoding.ParseQuery` is a strict partner decoder: it rejects
  malformed escapes. Python's lenient `unquote` is not modelled; it is
  never applied by this code.
- The repository-listing endpoint echoes the requested `per_page`
  unclamped in its reply. Only the value sent to GitHub is modelled.
- The repository-listing endpoint also performs the GitHub call itself,
  paginates and reshapes the response JSON; none of this is modelled.
- The following endpoints are outside the modelled core:
  - `/run-task` and the other agent endpoints;
  - the debug endpoints;
  - the OAuth callback and `exchange_github_code_for_token` (a network
    exchange);
  - webhook setup and webhook status;
  - the authentication-status endpoint;
  - the issue-fetching endpoints.
- The webhook signature secrets (`webhook_secrets`) are not modelled; no
  modelled operation reads them.
- `GitHubAccess.VerifyRepositoryAccess` keeps GitHub's JSON body and
  `permissions` only as "readable or not". The repository data it returns
  is not modelled.
