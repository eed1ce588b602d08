/**
 * `ReplayManager` of src/replay.ts: a tape of archived exchanges and the set of
 * identifiers replayed in the current session, with capture (`newRequest`), replay
 * (`simulateResponse`), session reset (`playTape`), mode dispatch (`handleFetch`) and
 * persistence (`saveTape`, `openTape`).
 */
module Replay {
  import opened Wrappers
  import opened Tape
  import opened Matcher

  /** The two modes a manager is built in: replay from a tape, or capture into one. */
  datatype ReplyMode = Read | Write

  datatype ReplayFailure =
    | NoMatch                  // `ReplayError`: no unconsumed record matches
    | NoPath                   // `saveTape`/`openTape` without a path
    | FileNotFound(path: string)

  /** `this.path` is truthy: neither null nor the empty string. */
  predicate HasPath(path: Option<string>)
  {
    path.Some? && path.value != ""
  }

  /**
   * The files tapes are saved to and loaded from. A file holds a whole tape; the
   * store keeps the intended form of each record, while `Tape.StoredAsWritten` is
   * what `JSON.stringify` actually writes.
   */
  class FileSystem {
    var files: map<string, seq<ArchivedPayload>>

    /** Every stored tape was written by `saveTape`, so it is well-formed. */
    ghost predicate Valid()
      reads this
    {
      forall p :: p in files ==> WellFormedTape(files[p])
    }

    constructor ()
      ensures Valid() && files == map[]
    {
      files := map[];
    }
  }

  class ReplayManager {
    var mode: ReplyMode
    var path: Option<string>
    var simulateLatency: bool
    var requestTape: seq<ArchivedPayload>
    var consumedPayloads: set<string>

    /** The tape is well-formed and only its own identifiers are ever consumed. */
    ghost predicate Valid()
      reads this
    {
      SessionInvariant(requestTape, consumedPayloads)
    }

    /** The field initialisation of the constructor: an empty tape and an empty session. */
    constructor (path: Option<string>, mode: ReplyMode, simulateLatency: bool)
      ensures Valid()
      ensures this.path == path && this.mode == mode && this.simulateLatency == simulateLatency
      ensures requestTape == [] && consumedPayloads == {}
    {
      this.path := path;
      this.mode := mode;
      this.simulateLatency := simulateLatency;
      requestTape := [];
      consumedPayloads := {};
    }

    /**
     * `new ReplayManager(path, mode, simulateLatency)`: in read mode with a path, the
     * tape is loaded from the file, and construction fails when there is no file.
     */
    static method Create(path: Option<string>, mode: ReplyMode, simulateLatency: bool, fs: FileSystem)
      returns (r: Result<ReplayManager, ReplayFailure>)
      requires fs.Valid()
      ensures r.Failure? <==> mode == Read && HasPath(path) && path.value !in fs.files
      ensures r.Failure? ==> r.error == FileNotFound(path.value)
      ensures r.Success? ==> fresh(r.value) && r.value.Valid()
      ensures r.Success? ==> r.value.path == path && r.value.mode == mode && r.value.simulateLatency == simulateLatency
      ensures r.Success? ==> r.value.consumedPayloads == {}
      ensures r.Success? ==> r.value.requestTape == if mode == Read && HasPath(path) then fs.files[path.value] else []
    {
      var m := new ReplayManager(path, mode, simulateLatency);
      if mode == Read && HasPath(path) {
        if path.value !in fs.files {
          return Failure(FileNotFound(path.value));
        }
        var loaded := m.OpenTape(fs);
        assert loaded.Success?;
        m.requestTape := loaded.value;
      }
      r := Success(m);
    }

    /** Starts a new replay session: every record may be replayed once more. */
    method PlayTape()
      requires Valid()
      modifies this`consumedPayloads
      ensures Valid()
      ensures consumedPayloads == {}
    {
      consumedPayloads := {};
    }

    /**
     * Capture: the fetch has already happened, giving `fetched`, with the clock read
     * before (`startedAt`) and after (`finishedAt`); `identifier` is a fresh uuid.
     * Exactly one record is appended, with `order` equal to the old tape length.
     */
    method NewRequest(url: Url, config: FetchConfig, fetched: HttpResponse, identifier: string,
                      startedAt: int, finishedAt: int) returns (response: HttpResponse)
      requires Valid()
      requires identifier !in Identifiers(requestTape)
      modifies this`requestTape
      ensures Valid()
      ensures requestTape
           == old(requestTape) + [Archive(identifier, url, config, fetched, |old(requestTape)|, finishedAt - startedAt)]
      ensures response == fetched
    {
      AppendKeepsInvariant(requestTape, consumedPayloads, identifier, url, config, fetched, finishedAt - startedAt);
      requestTape := requestTape + [Archive(identifier, url, config, fetched, |requestTape|, finishedAt - startedAt)];
      response := fetched;
    }

    /**
     * Replay: answers with the best unconsumed record that matches origin, pathname
     * and method, and consumes it; fails, changing nothing, when none is left.
     * The latency simulation (a sleep of `inflightMilliseconds`) is not modelled.
     */
    method SimulateResponse(url: Url, config: FetchConfig) returns (r: Result<HttpResponse, ReplayFailure>)
      requires Valid()
      modifies this`consumedPayloads
      ensures Valid()
      ensures var choice := Select(requestTape, old(consumedPayloads), url, config);
              match choice
              case None => r == Failure(NoMatch) && consumedPayloads == old(consumedPayloads)
              case Some(e) => r == Success(Hydrate(e)) && consumedPayloads == old(consumedPayloads) + {e.identifier}
    {
      var ranked := Ranked(requestTape, url, config);
      var matchingRequests := Unconsumed(ranked, consumedPayloads);
      if |matchingRequests| == 0 {
        return Failure(NoMatch);
      }
      var match_ := matchingRequests[0].entry;
      assert Select(requestTape, consumedPayloads, url, config) == Some(match_);
      consumedPayloads := consumedPayloads + {match_.identifier};
      r := Success(Hydrate(match_));
    }

    /** Dispatch on the mode fixed at construction. */
    method HandleFetch(url: Url, config: FetchConfig, fetched: HttpResponse, identifier: string,
                       startedAt: int, finishedAt: int) returns (r: Result<HttpResponse, ReplayFailure>)
      requires Valid()
      requires mode == Write ==> identifier !in Identifiers(requestTape)
      modifies this`requestTape, this`consumedPayloads
      ensures Valid()
      ensures mode == Read ==>
                requestTape == old(requestTape) &&
                match Select(requestTape, old(consumedPayloads), url, config)
                case None => r == Failure(NoMatch) && consumedPayloads == old(consumedPayloads)
                case Some(e) => r == Success(Hydrate(e)) && consumedPayloads == old(consumedPayloads) + {e.identifier}
      ensures mode == Write ==>
                && r == Success(fetched)
                && consumedPayloads == old(consumedPayloads)
                && requestTape == old(requestTape)
                     + [Archive(identifier, url, config, fetched, |old(requestTape)|, finishedAt - startedAt)]
    {
      match mode
      case Read =>
        r := SimulateResponse(url, config);
      case Write =>
        var response := NewRequest(url, config, fetched, identifier, startedAt, finishedAt);
        r := Success(response);
    }

    /** Writes the whole tape to the file at `path`; fails without a path. */
    method SaveTape(fs: FileSystem) returns (r: Result<(), ReplayFailure>)
      requires Valid() && fs.Valid()
      modifies fs
      ensures fs.Valid()
      ensures !HasPath(path) ==> r == Failure(NoPath) && fs.files == old(fs.files)
      ensures HasPath(path) ==> r == Success(()) && fs.files == old(fs.files)[path.value := requestTape]
    {
      if !HasPath(path) {
        return Failure(NoPath);
      }
      fs.files := fs.files[path.value := requestTape];
      r := Success(());
    }

    /** Reads the tape stored at `path`; fails without a path or without a file. */
    method OpenTape(fs: FileSystem) returns (r: Result<seq<ArchivedPayload>, ReplayFailure>)
      requires fs.Valid()
      ensures !HasPath(path) ==> r == Failure(NoPath)
      ensures HasPath(path) && path.value !in fs.files ==> r == Failure(FileNotFound(path.value))
      ensures HasPath(path) && path.value in fs.files ==> r == Success(fs.files[path.value])
      ensures r.Success? ==> WellFormedTape(r.value)
    {
      if !HasPath(path) {
        return Failure(NoPath);
      }
      if path.value !in fs.files {
        return Failure(FileNotFound(path.value));
      }
      r := Success(fs.files[path.value]);
    }
  }

  /** A tape whose every record was captured from the same request. */
  predicate CapturedFrom(tape: seq<ArchivedPayload>, url: Url, config: FetchConfig)
  {
    forall j :: 0 <= j < |tape| ==> && tape[j].request.url == url
                                     && tape[j].request.httpMethod == config.httpMethod
                                     && tape[j].request.headers == config.headers
  }

  /**
   * Replaying a request that was captured `|tape|` times: after the first `k` records
   * have been consumed, the next replay picks record `k`; once all are consumed there
   * is no match. Identical requests are answered in capture order, each record once.
   */
  lemma {:induction false} ReplayCapturedInOrder(tape: seq<ArchivedPayload>, k: nat, url: Url, config: FetchConfig)
    requires WellFormedTape(tape) && CapturedFrom(tape, url, config) && k <= |tape|
    requires config.headers.Some? ==> DistinctKeys(config.headers.value)
    ensures k < |tape| ==> Select(tape, Identifiers(tape[..k]), url, config) == Some(tape[k])
    ensures k == |tape| ==> Select(tape, Identifiers(tape[..k]), url, config) == None
  {
    if k < |tape| {
      ReplayInCaptureOrder(tape, k, config);
    } else {
      assert tape[..k] == tape;
      SelectComplete(tape, Identifiers(tape), url, config);
    }
  }

  /**
   * The `k`-th replay, in one session, of a request the tape captured `|tape|` times:
   * the `k`-th captured response while records remain, then `ReplayError`.
   */
  method ReplayNext(reader: ReplayManager, url: Url, config: FetchConfig, k: nat)
    returns (r: Result<HttpResponse, ReplayFailure>)
    requires reader.Valid() && CapturedFrom(reader.requestTape, url, config) && k <= |reader.requestTape|
    requires config.headers.Some? ==> DistinctKeys(config.headers.value)
    requires reader.consumedPayloads == Identifiers(reader.requestTape[..k])
    modifies reader`consumedPayloads
    ensures reader.Valid()
    ensures k < |reader.requestTape| ==>
              && r == Success(Hydrate(reader.requestTape[k]))
              && reader.consumedPayloads == Identifiers(reader.requestTape[..k + 1])
    ensures k == |reader.requestTape| ==> r == Failure(NoMatch) && reader.consumedPayloads == old(reader.consumedPayloads)
  {
    var tape := reader.requestTape;
    ReplayCapturedInOrder(tape, k, url, config);
    if k < |tape| {
      PrefixIdentifiersGrow(tape, k);
    }
    r := reader.SimulateResponse(url, config);
  }

  /** Captures two responses to one request in write mode and saves the tape. */
  method CaptureTwice(fs: FileSystem, path: string, url: Url, config: FetchConfig,
                      first: HttpResponse, firstId: string, second: HttpResponse, secondId: string)
    requires fs.Valid() && path != "" && firstId != secondId
    modifies fs
    ensures fs.Valid()
    ensures path in fs.files
    ensures fs.files[path] == [Archive(firstId, url, config, first, 0, 120), Archive(secondId, url, config, second, 1, 50)]
  {
    var writer := new ReplayManager(Some(path), Write, true);
    var _ := writer.NewRequest(url, config, first, firstId, 0, 120);
    var _ := writer.NewRequest(url, config, second, secondId, 200, 250);
    var saved := writer.SaveTape(fs);
  }

  /**
   * A capture session followed by a replay session against the saved file: two
   * identical requests are captured, the tape is saved and loaded in read mode,
   * and the same request is replayed three times. The first two replays give back
   * the captured responses in capture order; the third finds nothing left.
   */
  method CaptureSaveReplay(path: string, url: Url, config: FetchConfig,
                           first: HttpResponse, firstId: string, second: HttpResponse, secondId: string)
    returns (r1: Result<HttpResponse, ReplayFailure>, r2: Result<HttpResponse, ReplayFailure>,
             r3: Result<HttpResponse, ReplayFailure>)
    requires path != "" && firstId != secondId
    requires config.headers.Some? ==> DistinctKeys(config.headers.value)
    ensures r1 == Success(first) && r2 == Success(second) && r3 == Failure(NoMatch)
  {
    var fs := new FileSystem();
    CaptureTwice(fs, path, url, config, first, firstId, second, secondId);
    var tape := fs.files[path];
    var created := ReplayManager.Create(Some(path), Read, true, fs);
    var reader := created.value;
    HydrateArchive(firstId, url, config, first, 0, 120);
    HydrateArchive(secondId, url, config, second, 1, 50);
    assert CapturedFrom(tape, url, config);
    assert Identifiers(tape[..0]) == {} by { assert tape[..0] == []; }
    r1 := ReplayNext(reader, url, config, 0);
    r2 := ReplayNext(reader, url, config, 1);
    r3 := ReplayNext(reader, url, config, 2);
  }
}
