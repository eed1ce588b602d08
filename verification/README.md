# Record/replay tape engine and crawl-rule parsing, in Dafny

This project models two parts of a web-crawling toolkit.

The first is `ReplayManager` (src/replay.ts). In write mode it performs each fetch
and appends one archived request/response record to a tape. In read mode it answers
each fetch from the tape without touching the network. The answer is chosen in
these steps:

- a hard filter on origin, pathname and method, where an absent or empty method means GET;
- a query score and a header score, each the number of agreeing key/value pairs (the query score is always 0; see below);
- a stable sort: query score highest first, then header score highest first, then capture order lowest first;
- removal of the records already replayed in the current session;
- the first remaining record, which is then marked as consumed.

`playTape` starts a new session. `saveTape` and `openTape` store the tape in a file
and load it back.

The second is the default export of src/cookies/main.ts. It turns a table of
cookie-banner rules into crawl entries:

- it keeps the keys that contain ".com";
- it keeps the values whose `s` field is neither undefined nor null;
- it deletes `{...}` spans with the greedy regex `/{.*}/g`;
- it splits the rest on ',' into the entry's CSS selectors.

Files:

- `Wrappers.dfy`: `Option` and `Result`.
- `Base64.dfy`: the base64 encoding of section 4 of RFC 4648, used for every response body and for buffer request bodies. It proves the decode/encode round trip.
- `Tape.dfy`: the records of a tape. `Archive` turns a captured exchange into a record, and `Hydrate` turns a record back into a response. `WellFormedTape` is what every captured tape satisfies.
- `Matcher.dfy`: the candidate selection of `simulateResponse`, as pure functions, with the lemmas about the ranking.
- `ReplayManager.dfy`: the `ReplayManager` class, whose methods update `requestTape` and `consumedPayloads` in place. It also has a `FileSystem` class that holds saved tapes, and end-to-end scenarios of capture and replay.
- `CrawlRules.dfy`: the rule-parsing pipeline, together with JavaScript's `indexOf`, the greedy `/{.*}/g` replacement and `split(',')`.

A consequence of the code as written: at src/replay.ts:204-207 the query score is
computed on two `URLSearchParams` objects. `Object.entries` of such an object is
always empty, so the query score is 0 for every record. The query string therefore
never influences which record is replayed. The model keeps this behaviour
(`Matcher.SearchParamsEntries`) and proves it (`Matcher.QueryScoreIsZero`).

## Model

| member | source | states |
|---|---|---|
| Base64.CharOf | src/replay.ts:130 | every sextet maps to a character of the base64 alphabet |
| Base64.ValueOf | src/replay.ts:246 | decoding a character of the alphabet gives the sextet that encodes to it |
| Base64.Encode | src/replay.ts:130 | `toString("base64")`: the text is empty exactly when there are no bytes, and comes in groups of four characters |
| Base64.Decode | src/replay.ts:246 | `Buffer.from(text, "base64")` succeeds only on text of complete groups of four, giving at most three bytes per group |
| Base64.CharOfInAlphabet | src/replay.ts:137 | character mapping and its inverse agree on all 64 values |
| Base64.EncodeLength | src/replay.ts:137 | an encoded body has four characters per started group of three bytes |
| Base64.QuantumRoundTrip | src/replay.ts:137 | a full group of three bytes decodes back from its four characters |
| Base64.OneByteRoundTrip | src/replay.ts:137 | a final single byte, padded with "==", decodes back |
| Base64.TwoByteRoundTrip | src/replay.ts:137 | a final pair of bytes, padded with "=", decodes back |
| Base64.ThreeByteRoundTrip | src/replay.ts:137 | a body of exactly three bytes decodes back |
| Base64.ShortRoundTrip | src/replay.ts:137 | every body of one to three bytes decodes back |
| Base64.LongRoundTrip | src/replay.ts:137 | a leading full group decodes in front of a tail that round-trips |
| Base64.DecodeEncode | src/replay.ts:246 | body fidelity: for every byte string, base64 decoding of its encoding gives back exactly the bytes |
| Base64.EncodeAlphabet | src/replay.ts:137 | encoded text uses only alphabet characters and '=' |
| Tape.StoredRequestBody | src/replay.ts:130 | the stored request body is null exactly when no body or the empty string was sent; a buffer is stored as base64 that decodes back to its bytes; a non-empty string is stored verbatim |
| Tape.ArchiveRequestBody | src/replay.ts:130 | the same three facts, stated of the pushed record |
| Tape.Archive | src/replay.ts:124-142 | the pushed record's response body decodes back to exactly the bytes fetched |
| Tape.Hydrate | src/replay.ts:245-256 | the rebuilt response's body is the base64 decoding of the stored body |
| Tape.HydrateArchive | src/replay.ts:124-142 | replaying a captured record gives back exactly the response that was fetched: url, redirected, status, statusText, headers and body |
| Tape.StoredAsWritten | src/replay.ts:261-267 | JSON text keeps a record's identifier, request, inflight time and every response field but the headers, which it writes as `{}` |
| Tape.StoredAsWrittenLosesHeaders | src/replay.ts:245-252 | as written, a capture replayed from a saved file comes back with no headers, so it differs from the fetched response whenever that had any |
| Tape.Identifiers | src/replay.ts:125 | the set holds exactly the identifiers of the tape's records |
| Tape.IdentifiersGrow | src/replay.ts:124 | pushing a record adds exactly its identifier |
| Tape.PrefixIdentifiersGrow | src/replay.ts:124 | the identifiers of the first k+1 records are those of the first k plus record k's |
| Tape.AppendWellFormed | src/replay.ts:124-142 | a push with order equal to the old length and a fresh identifier keeps order = index, unique identifiers and decodable bodies |
| Tape.AppendKeepsInvariant | src/replay.ts:124-142 | capture keeps the tape well-formed and the consumed set within the tape's identifiers |
| Matcher.Lookup | src/replay.ts:184 | `compare[key]` is defined exactly when some pair has that key, and is then the value of such a pair |
| Matcher.CountAgreeing | src/replay.ts:183-185 | the map/reduce is at most the number of keys of `truth` |
| Matcher.ScoreDictionaries | src/replay.ts:177-186 | the score is 0 when either side is absent, and at most the number of keys of `truth` |
| Matcher.CountIsAgreeingKeys | src/replay.ts:183-185 | the score is the number of keys of `truth` whose value equals `compare[key]` |
| Matcher.KeySetSize | src/replay.ts:183 | a dictionary has as many distinct keys as entries |
| Matcher.SelfScoreIsMaximal | src/replay.ts:177-186 | headers scored against themselves get their size, and no other headers score higher against them |
| Matcher.LookupDistinct | src/replay.ts:184 | in a dictionary without repeated keys, looking up an entry's key gives its value |
| Matcher.MethodOrGet | src/replay.ts:198 | an absent or empty method means "GET"; any other method is kept as it is |
| Matcher.HardMatch | src/replay.ts:193-199 | a record captured without a method matches a GET request on origin and pathname alone, and a GET record matches a request without a method likewise |
| Matcher.MismatchNeverReplayed | src/replay.ts:193-199 | a record whose origin, pathname or defaulted method differs from the request is never replayed, even as the only record on the tape |
| Matcher.SearchParamsEntries | src/replay.ts:204-207 | `Object.entries` of a `URLSearchParams` is empty whatever the query string holds |
| Matcher.ScoreEntry | src/replay.ts:200-213 | the scores of a record are non-negative; its header score is at most its number of headers, and 0 when either side has no headers |
| Matcher.QueryScoreIsZero | src/replay.ts:204-207 | the query score is 0 for every record, whatever the query strings hold |
| Matcher.Candidates | src/replay.ts:188-213 | the scored records are exactly the records of the tape that pass the origin, pathname and method filter |
| Matcher.Compare | src/replay.ts:217-226 | the comparator is non-positive exactly when the first record ranks no later, and 0 exactly when both scores and the order are equal |
| Matcher.CompareMeaning | src/replay.ts:217-226 | the comparator is antisymmetric and is non-positive exactly when the first record ranks no later: higher query score, then higher header score, then lower order |
| Matcher.CompareTransitive | src/replay.ts:217-226 | the comparator is transitive, so the sort is well defined |
| Matcher.Insert | src/replay.ts:214-227 | insertion adds exactly the one element |
| Matcher.Sort | src/replay.ts:214-227 | the sort is a permutation of the candidates |
| Matcher.InsertSorted | src/replay.ts:214-227 | inserting into a sorted list keeps it sorted |
| Matcher.SortedCons | src/replay.ts:214-227 | an element that ranks no later than all of a sorted list may go in front of it |
| Matcher.SortSorted | src/replay.ts:214-227 | the sort's output is ordered by the comparator |
| Matcher.Unconsumed | src/replay.ts:228-231 | the consumed filter keeps exactly the records whose identifier is not consumed |
| Matcher.InsertUnconsumedFront | src/replay.ts:228-231 | the consumed filter commutes with inserting a record at the front |
| Matcher.InsertUnconsumedBack | src/replay.ts:228-231 | the consumed filter commutes with inserting a record past the head |
| Matcher.InsertKeepsHead | src/replay.ts:214-227 | a record that ranks after the head is inserted behind it |
| Matcher.InsertBehindHead | src/replay.ts:228-231 | keeping or dropping the head commutes with inserting a record that ranks after it |
| Matcher.InsertPast | src/replay.ts:214-227 | a record that ranks after the head is inserted into the tail |
| Matcher.InsertUnconsumed | src/replay.ts:228-231 | on a sorted list, the consumed filter commutes with insertion |
| Matcher.SortUnconsumedCommute | src/replay.ts:214-231 | filtering consumed records after the sort gives the same list as filtering them before it |
| Matcher.Ranked | src/replay.ts:188-227 | the ranked candidates are ordered by the comparator and are a permutation of the filtered, scored records |
| Matcher.Select | src/replay.ts:188-238 | the chosen record is on the tape, passes the hard filter and is not consumed |
| Matcher.SelectComplete | src/replay.ts:233-236 | replay fails exactly when no unconsumed record passes the hard filter |
| Matcher.SelectBest | src/replay.ts:214-238 | the chosen record ranks no later than any other eligible record |
| Matcher.UnconsumedSorted | src/replay.ts:228-231 | the consumed filter keeps a sorted list sorted |
| Matcher.SelectFilterFirst | src/replay.ts:214-238 | filtering consumed records before ranking chooses the same record |
| Matcher.SelectUnique | src/replay.ts:214-238 | on a well-formed tape the best eligible record is unique |
| Matcher.SelectNeverRepeats | src/replay.ts:228-239 | once a record is consumed, the next choice is a different record |
| Matcher.HeaderScoreAtMostOwn | src/replay.ts:208-211 | against the headers a record was captured with, no record has a higher header score than that record |
| Matcher.PrefixIdentifiers | src/replay.ts:239 | after the first i records are consumed, record i is not consumed |
| Matcher.ReplayInCaptureOrder | src/replay.ts:188-239 | replaying the captured requests in capture order answers each with its own record |
| Replay.FileSystem.constructor | src/replay.ts:263-273 | an empty store holds only well-formed tapes |
| Replay.ReplayManager.constructor | src/replay.ts:67-71 | a new manager has the given path, mode and latency flag, an empty tape and an empty consumed set |
| Replay.ReplayManager.Create | src/replay.ts:62-81 | in read mode with a path, construction fails exactly when the file is missing, and otherwise loads the saved tape; in every other case the tape is empty; the consumed set always starts empty |
| Replay.ReplayManager.PlayTape | src/replay.ts:83-88 | the consumed set becomes empty and the tape is unchanged |
| Replay.ReplayManager.NewRequest | src/replay.ts:104-145 | exactly one record is appended, with order equal to the old tape length, a base64 response body and the request body of `StoredRequestBody`; earlier records and the consumed set are unchanged; the fetched response is returned |
| Replay.ReplayManager.SimulateResponse | src/replay.ts:147-259 | answers with the hydrated best eligible record and consumes its identifier; fails with `ReplayError` and changes nothing when none is left; the tape is unchanged |
| Replay.ReplayManager.HandleFetch | src/replay.ts:90-102 | read mode replays, write mode captures, each with its effect on tape and consumed set |
| Replay.ReplayManager.SaveTape | src/replay.ts:261-267 | fails without a path; otherwise the file at the path holds the whole tape, response headers included (see Findings), and no other file changes |
| Replay.ReplayManager.OpenTape | src/replay.ts:269-274 | fails without a path or without a file; otherwise returns the stored tape, which is well-formed |
| Replay.ReplayCapturedInOrder | src/replay.ts:214-239 | for a request captured n times, after k replays the next replay picks record k; after n replays none is left |
| Replay.ReplayNext | src/replay.ts:147-259 | the k-th replay of a request captured n times returns the k-th captured response while records remain, then `ReplayError` |
| Replay.CaptureTwice | src/replay.ts:104-145 | two captures of one request, then a save, store a tape of two records with orders 0 and 1 |
| Replay.CaptureSaveReplay | src/replay.ts:62-259 | capture twice, save, load in read mode, then replay three times: the two captured responses in capture order, headers included, then `ReplayError` |
| CrawlRules.IndexOfFrom | src/cookies/main.ts:13 | the result is the first occurrence at or after the start, or -1 when there is none |
| CrawlRules.IndexOf | src/cookies/main.ts:13 | `key.indexOf(".com")` is -1 or the position of the first occurrence |
| CrawlRules.IndexOfFound | src/cookies/main.ts:13 | `indexOf(sub) > -1` holds exactly when the key contains `sub` |
| CrawlRules.LastClose | src/cookies/main.ts:19 | the greedy `.*}` stops at the last '}' before the first line terminator, or finds none |
| CrawlRules.SingleLineTail | src/cookies/main.ts:19 | a prefix without line terminators stays so after dropping its first character |
| CrawlRules.StripBraces | src/cookies/main.ts:19 | the replacement never lengthens the selector |
| CrawlRules.StripNoOpen | src/cookies/main.ts:19 | a selector with no '{' passes through unchanged |
| CrawlRules.StripNoClose | src/cookies/main.ts:19 | a selector with no '}' passes through unchanged |
| CrawlRules.StripAfterPlainPrefix | src/cookies/main.ts:19 | text before the first '{' is kept as it is |
| CrawlRules.LastCloseOfSingleLine | src/cookies/main.ts:19 | on one line, the match ends at the last '}' |
| CrawlRules.StripSingleLine | src/cookies/main.ts:19 | on one line, the span from the first '{' to the last '}' after it is deleted and nothing else changes |
| CrawlRules.StripSingleLineUnclosed | src/cookies/main.ts:19 | on one line, a '{' with no '}' after it deletes nothing |
| CrawlRules.Split | src/cookies/main.ts:25 | the selectors are never empty, number one more than the commas, and contain no comma |
| CrawlRules.JoinSplit | src/cookies/main.ts:19-25 | joining the selectors with ',' gives back the stripped string exactly |
| CrawlRules.SplitJoin | src/cookies/main.ts:25 | splitting comma-free pieces joined with ',' gives back the pieces |
| CrawlRules.SplitPiece | src/cookies/main.ts:25 | a comma-free piece in front of a comma extends the first selector |
| CrawlRules.KeepCom | src/cookies/main.ts:13 | keeps exactly the rules whose key has `indexOf(".com") > -1` |
| CrawlRules.KeepWithSelector | src/cookies/main.ts:16 | keeps exactly the rules whose `s` is neither undefined nor null |
| CrawlRules.StripSelectors | src/cookies/main.ts:19 | each rule's value becomes its stripped `s`, keys and order kept |
| CrawlRules.ToEntries | src/cookies/main.ts:22-28 | each pair becomes an entry with the key as url and the split value as selectors, order kept |
| CrawlRules.ParseRules | src/cookies/main.ts:8-29 | there are at most as many entries as rules |
| CrawlRules.KeepComAppend | src/cookies/main.ts:13 | the ".com" filter distributes over concatenation |
| CrawlRules.KeepWithSelectorAppend | src/cookies/main.ts:16 | the `s` filter distributes over concatenation |
| CrawlRules.ParseRulesAppend | src/cookies/main.ts:13-28 | the output keeps the input order: parsing a concatenation gives the concatenated parses |
| CrawlRules.StripSelectorsAppend | src/cookies/main.ts:19 | stripping distributes over concatenation |
| CrawlRules.ToEntriesAppend | src/cookies/main.ts:22-28 | building entries distributes over concatenation |
| CrawlRules.ParseOneRule | src/cookies/main.ts:13-28 | a single rule gives its entry exactly when its key contains ".com" and its `s` is defined, and nothing otherwise |
| CrawlRules.ParseRulesByRule | src/cookies/main.ts:13-28 | the pipeline is the rule-by-rule concatenation of each rule's entry |
| CrawlRules.ParsedEntry | src/cookies/main.ts:13-28 | every entry's url is a rule key containing ".com" whose `s` is defined; joining its selectors gives the stripped `s`; there is one more selector than there are commas |

## Findings

| source | as written | input that shows it | evidently intended | confidence | as-written member | corrected member |
|---|---|---|---|---|---|---|
| src/replay.ts:263 | the response's `Headers` object is stored and serialised with `JSON.stringify`, which writes it as `{}` | capture a response with a `content-type` header, save the tape, load it in read mode and replay: the replayed response has no headers | the captured headers come back on replay, as src/replay.ts:249 passes them to the rebuilt response | medium, not executed | Tape.StoredAsWrittenLosesHeaders | Replay.CaptureSaveReplay |

## Left out

- Latency simulation: the `sleep(inflightMilliseconds)` at src/replay.ts:241 is timer behaviour. `inflightMilliseconds` is kept as a stored number, computed from two clock readings that `NewRequest` takes as parameters in place of `Date.now()`.
- Foreign calls are parameters of `NewRequest` and `HandleFetch`:
  - the fetch itself, `fetchFn(url, config)`, and `response.buffer()` become the `fetched` response with its body bytes;
  - `uuid4()` becomes `identifier`. That it is fresh is a precondition, because uuids are taken to be unique.
- Persistence: gzip compression is lossless, and the JSON text keeps every field of a record except the response headers. A file holds the tape that `saveTape` wrote, so `FileSystem.Valid` requires every stored tape to be well-formed. A hand-edited or corrupt file is not modelled.
- Replay.ReplayManager.SaveTape: stores the response headers, which is the evidently intended behaviour. As written, `JSON.stringify` writes a fetch `Headers` object as `{}`, so a tape loaded from a file replays responses without headers. `Tape.StoredAsWritten` models that behaviour, and the Findings table records it.
- Replay.ReplayManager.NewRequest: a capture is modelled as one step that no other capture interleaves with. In the source, `order` is read before the `await response.buffer()` at src/replay.ts:137 and the record is pushed after it. Two concurrent captures can therefore both read the same length. They then get the same `order`, or an `order` that differs from their position, and such a tape is not well-formed in the sense of `Tape.WellFormedTape`.
- Replay.ReplayManager.Create: the defaults `mode = "read"` and `simulateLatency = true` at src/replay.ts:64-65 are not modelled. `new ReplayManager(path)` corresponds to `Create(Some(path), Read, true, fs)`: a caller of `Create` passes the defaults explicitly.
- URLs are modelled already parsed into origin, pathname and query pairs. WHATWG URL parsing is not modelled, nor the `TypeError` that `new URL` throws on an invalid URL.
- Replay.ReplayManager.OpenTape: a path whose file is missing fails with `FileNotFound`. In the source, `readFileSync` throws.
- Base64 decoding is strict. It returns None on text that is not complete, padded groups. Node's lenient decoding of malformed text, which skips bad characters, is not modelled. Every body on a well-formed tape is produced by the encoder, so replay never decodes malformed text.
- The `Response` constructor's header normalisation (lower-casing names, merging repeats) is not modelled. Headers are returned as stored.
- Header and query dictionaries hold string values, compared with `==` on strings. JavaScript's loose equality between values of different types is not modelled.
- Replay.ReplayManager.HandleFetch: the third branch, which throws `ReplayError` for a mode that is neither "read" nor "write", cannot be reached because `ReplyMode` has exactly two values. The request is also not actually sent in write mode: the fetched response is an input.
- Console logging is not modelled.
- Constructor options objects, `listen`, `port`, `close` and override-URL substitution are not part of src/replay.ts.
- The proxy, browser automation, `limitConcurrency`, `recordToDict` and parse_tape_urls.py are not part of this model.
- The rule table that src/cookies/main.ts imports from ./rules.js is not part of this model. It is a parameter: a sequence of (key, `s`) pairs in `Object.entries` order, where `s` is None for undefined or null. Only the `s` field of a rule's value is represented.
- CrawlRules.StripBraces models `.` as matching every character except line terminators, as the regex without flags does. Multi-line selectors are handled by that rule; the single-line lemmas are the ones stated as properties.
