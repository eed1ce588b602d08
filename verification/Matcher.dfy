/**
 * The candidate selection of `simulateResponse` in src/replay.ts, as pure functions:
 * hard filter on origin, pathname and method; query and header scores; a stable sort
 * by query score (highest first), header score (highest first) and capture order
 * (lowest first); removal of consumed records; the first that remains.
 */
module Matcher {
  import opened Wrappers
  import opened Tape

  // ---------------------------------------------------------------------------
  // Scoring

  /** `compare[key]`: the value stored under `key`, if any. */
  function Lookup(d: Dict, key: string): (r: Option<string>)
    ensures r.Some? <==> exists i :: 0 <= i < |d| && d[i].0 == key
    ensures r.Some? ==> exists i :: 0 <= i < |d| && d[i] == (key, r.value)
  {
    if d == [] then None
    else if d[0].0 == key then Some(d[0].1)
    else Lookup(d[1..], key)
  }

  predicate Agrees(entry: (string, string), compare: Dict)
  {
    Lookup(compare, entry.0) == Some(entry.1)
  }

  /** The map/reduce over `Object.entries(truth)`: one point per value equal to `compare[key]`. */
  function CountAgreeing(truth: Dict, compare: Dict): (n: nat)
    ensures n <= |truth|
  {
    if truth == [] then 0
    else (if Agrees(truth[0], compare) then 1 else 0) + CountAgreeing(truth[1..], compare)
  }

  /** `scoreDictionaries`: zero when either side is absent. */
  function ScoreDictionaries(truth: Option<Dict>, compare: Option<Dict>): (n: nat)
    ensures truth.None? || compare.None? ==> n == 0
    ensures truth.Some? ==> n <= |truth.value|
  {
    if truth.None? || compare.None? then 0 else CountAgreeing(truth.value, compare.value)
  }

  /** The keys of `truth` whose value `compare` repeats. */
  function AgreeingKeys(truth: Dict, compare: Dict): set<string>
  {
    set i | 0 <= i < |truth| && Agrees(truth[i], compare) :: truth[i].0
  }

  /** Scoring counts exactly the keys on which the two dictionaries agree. */
  lemma {:induction false} CountIsAgreeingKeys(truth: Dict, compare: Dict)
    requires DistinctKeys(truth)
    ensures CountAgreeing(truth, compare) == |AgreeingKeys(truth, compare)|
    decreases |truth|
  {
    if truth != [] {
      DistinctKeysTail(truth);
      CountIsAgreeingKeys(truth[1..], compare);
      AgreeingKeysCons(truth, compare);
    }
  }

  lemma {:induction false} DistinctKeysTail(d: Dict)
    requires d != [] && DistinctKeys(d)
    ensures DistinctKeys(d[1..])
    ensures forall i :: 0 <= i < |d[1..]| ==> d[1..][i].0 != d[0].0
  {
    forall a, b | 0 <= a < b < |d[1..]| ensures d[1..][a].0 != d[1..][b].0 {
      assert d[1..][a] == d[a + 1] && d[1..][b] == d[b + 1];
    }
    forall i | 0 <= i < |d[1..]| ensures d[1..][i].0 != d[0].0 {
      assert d[1..][i] == d[i + 1];
    }
  }

  lemma {:induction false} AgreeingKeysCons(truth: Dict, compare: Dict)
    requires truth != []
    requires forall i :: 0 <= i < |truth[1..]| ==> truth[1..][i].0 != truth[0].0
    ensures var head := if Agrees(truth[0], compare) then {truth[0].0} else {};
            AgreeingKeys(truth, compare) == head + AgreeingKeys(truth[1..], compare)
            && truth[0].0 !in AgreeingKeys(truth[1..], compare)
  {
    var rest := truth[1..];
    var head := if Agrees(truth[0], compare) then {truth[0].0} else {};
    forall k | k in AgreeingKeys(truth, compare)
      ensures k in head + AgreeingKeys(rest, compare)
    {
      var i :| 0 <= i < |truth| && Agrees(truth[i], compare) && truth[i].0 == k;
      if i > 0 { assert rest[i - 1] == truth[i]; }
    }
    forall k | k in AgreeingKeys(rest, compare)
      ensures k in AgreeingKeys(truth, compare)
    {
      var i :| 0 <= i < |rest| && Agrees(rest[i], compare) && rest[i].0 == k;
      assert truth[i + 1] == rest[i];
    }
  }

  function KeySet(d: Dict): set<string>
  {
    set i | 0 <= i < |d| :: d[i].0
  }

  lemma {:induction false} KeySetSize(d: Dict)
    ensures |KeySet(d)| <= |d|
    ensures DistinctKeys(d) ==> |KeySet(d)| == |d|
    decreases |d|
  {
    if d != [] {
      KeySetSize(d[1..]);
      assert KeySet(d) == {d[0].0} + KeySet(d[1..]) by {
        forall k | k in KeySet(d) ensures k in {d[0].0} + KeySet(d[1..]) {
          var i :| 0 <= i < |d| && d[i].0 == k;
          if i > 0 { assert d[1..][i - 1] == d[i]; }
        }
        forall k | k in KeySet(d[1..]) ensures k in KeySet(d) {
          var i :| 0 <= i < |d[1..]| && d[1..][i].0 == k;
          assert d[i + 1] == d[1..][i];
        }
      }
      if DistinctKeys(d) {
        DistinctKeysTail(d);
      }
    }
  }

  /**
   * A dictionary scored against itself gets its own size, and nothing scores higher
   * against it: the sent headers are the best possible match for the recorded ones.
   */
  lemma {:induction false} SelfScoreIsMaximal(d: Dict, other: Dict)
    requires DistinctKeys(d) && DistinctKeys(other)
    ensures CountAgreeing(d, d) == |d|
    ensures CountAgreeing(other, d) <= |d|
  {
    CountIsAgreeingKeys(d, d);
    CountIsAgreeingKeys(other, d);
    KeySetSize(d);
    assert AgreeingKeys(d, d) == KeySet(d) by {
      forall k | k in KeySet(d) ensures k in AgreeingKeys(d, d) {
        var i :| 0 <= i < |d| && d[i].0 == k;
        LookupDistinct(d, i);
      }
    }
    assert AgreeingKeys(other, d) <= KeySet(d) by {
      forall k | k in AgreeingKeys(other, d) ensures k in KeySet(d) {
        var i :| 0 <= i < |other| && Agrees(other[i], d) && other[i].0 == k;
        var j :| 0 <= j < |d| && d[j] == (k, other[i].1);
      }
    }
    SubsetSize(AgreeingKeys(other, d), KeySet(d));
  }

  lemma {:induction false} LookupDistinct(d: Dict, i: nat)
    requires DistinctKeys(d) && i < |d|
    ensures Lookup(d, d[i].0) == Some(d[i].1)
    decreases i
  {
    if i > 0 {
      assert d[0].0 != d[i].0;
      DistinctKeysTail(d);
      LookupDistinct(d[1..], i - 1);
      assert d[1..][i - 1] == d[i];
    }
  }

  lemma {:induction false} SubsetSize<T>(a: set<T>, b: set<T>)
    requires a <= b
    ensures |a| <= |b|
  {
    assert b == a + (b - a);
  }

  // ---------------------------------------------------------------------------
  // Hard filter and scores of one record

  /** `(method || "GET")`: an absent or empty method means GET. */
  function MethodOrGet(m: Option<string>): (r: string)
    ensures r != ""
    ensures m.None? || m == Some("") ==> r == "GET"
    ensures m.Some? && m.value != "" ==> r == m.value
  {
    if m.None? || m.value == "" then "GET" else m.value
  }

  /**
   * Origin and pathname must be equal, and so must the methods once defaulted: a
   * record captured without a method matches a GET, and the reverse.
   */
  predicate HardMatch(p: ArchivedPayload, url: Url, config: FetchConfig)
    ensures p.request.httpMethod.None? && config.httpMethod == Some("GET") ==>
              (HardMatch(p, url, config) <==> p.request.url.origin == url.origin && p.request.url.pathname == url.pathname)
    ensures config.httpMethod.None? && p.request.httpMethod == Some("GET") ==>
              (HardMatch(p, url, config) <==> p.request.url.origin == url.origin && p.request.url.pathname == url.pathname)
  {
    && p.request.url.origin == url.origin
    && p.request.url.pathname == url.pathname
    && MethodOrGet(p.request.httpMethod) == MethodOrGet(config.httpMethod)
  }

  /**
   * `Object.entries` of a `URLSearchParams` object. Such an object has no own
   * enumerable properties, so the list is empty whatever the query string holds.
   */
  function SearchParamsEntries(u: Url): (r: Dict)
    ensures |r| == 0
  {
    []
  }

  datatype Scored = Scored(entry: ArchivedPayload, queryScore: int, headerScore: int)

  /** The scores of one record: the query score, and the header score bounded by the record's headers. */
  function ScoreEntry(p: ArchivedPayload, url: Url, config: FetchConfig): (r: Scored)
    ensures r.entry == p
    ensures 0 <= r.queryScore && 0 <= r.headerScore
    ensures p.request.headers.Some? ==> r.headerScore <= |p.request.headers.value|
    ensures p.request.headers.None? || config.headers.None? ==> r.headerScore == 0
  {
    Scored(p,
           ScoreDictionaries(Some(SearchParamsEntries(p.request.url)), Some(SearchParamsEntries(url))),
           ScoreDictionaries(p.request.headers, config.headers))
  }

  /** As the code stands, the query score never separates two records. */
  lemma {:induction false} QueryScoreIsZero(p: ArchivedPayload, url: Url, config: FetchConfig)
    ensures ScoreEntry(p, url, config).queryScore == 0
  {
  }

  /** The records that pass the hard filter, in tape order, with their scores. */
  function Candidates(tape: seq<ArchivedPayload>, url: Url, config: FetchConfig): (r: seq<Scored>)
    ensures |r| <= |tape|
    ensures forall c :: c in r ==> c.entry in tape && HardMatch(c.entry, url, config)
                                   && c == ScoreEntry(c.entry, url, config)
    ensures forall p :: p in tape && HardMatch(p, url, config) ==> ScoreEntry(p, url, config) in r
  {
    if tape == [] then []
    else
      (if HardMatch(tape[0], url, config) then [ScoreEntry(tape[0], url, config)] else [])
      + Candidates(tape[1..], url, config)
  }

  // ---------------------------------------------------------------------------
  // Ranking

  /** The comparator handed to `sort`: negative when `a` goes first. */
  function Compare(a: Scored, b: Scored): (r: int)
    ensures r <= 0 <==> RanksNoLater(a, b)
    ensures r == 0 <==> a.queryScore == b.queryScore && a.headerScore == b.headerScore
                        && a.entry.request.order == b.entry.request.order
  {
    if a.queryScore > b.queryScore then -1
    else if a.queryScore < b.queryScore then 1
    else if a.headerScore > b.headerScore then -1
    else if a.headerScore < b.headerScore then 1
    else a.entry.request.order - b.entry.request.order
  }

  /** The ranking, stated lexicographically: `a` may go before `b`. */
  predicate RanksNoLater(a: Scored, b: Scored)
  {
    || a.queryScore > b.queryScore
    || (a.queryScore == b.queryScore && a.headerScore > b.headerScore)
    || (a.queryScore == b.queryScore && a.headerScore == b.headerScore
        && a.entry.request.order <= b.entry.request.order)
  }

  /** The comparator is antisymmetric and agrees with the lexicographic ranking. */
  lemma {:induction false} CompareMeaning(a: Scored, b: Scored)
    ensures Compare(a, b) == -Compare(b, a)
    ensures Compare(a, b) <= 0 <==> RanksNoLater(a, b)
  {
  }

  /** The comparator is a total preorder, so a sort by it is well defined. */
  lemma {:induction false} CompareTransitive(a: Scored, b: Scored, c: Scored)
    requires Compare(a, b) <= 0 && Compare(b, c) <= 0
    ensures Compare(a, c) <= 0
  {
  }

  predicate Sorted(s: seq<Scored>)
  {
    forall i, j :: 0 <= i < j < |s| ==> Compare(s[i], s[j]) <= 0
  }

  /** Puts `x` before the first element it does not rank after: ties keep `x` first. */
  function Insert(x: Scored, s: seq<Scored>): (r: seq<Scored>)
    ensures multiset(r) == multiset(s) + multiset{x}
    ensures |r| == |s| + 1
  {
    if s == [] || Compare(x, s[0]) <= 0 then [x] + s
    else assert s == [s[0]] + s[1..]; [s[0]] + Insert(x, s[1..])
  }

  /** A stable insertion sort by `Compare`. */
  function Sort(s: seq<Scored>): (r: seq<Scored>)
    ensures multiset(r) == multiset(s)
    ensures |r| == |s|
  {
    if s == [] then [] else assert s == [s[0]] + s[1..]; Insert(s[0], Sort(s[1..]))
  }

  lemma {:induction false} InsertSorted(x: Scored, s: seq<Scored>)
    requires Sorted(s)
    ensures Sorted(Insert(x, s))
    decreases |s|
  {
    if s == [] || Compare(x, s[0]) <= 0 {
      forall y | y in s ensures Compare(x, y) <= 0 {
        var k :| 0 <= k < |s| && s[k] == y;
        if k > 0 { CompareTransitive(x, s[0], y); }
      }
      SortedCons(x, s);
    } else {
      var t := s[1..];
      InsertSorted(x, t);
      CompareMeaning(x, s[0]);
      forall y | y in Insert(x, t) ensures Compare(s[0], y) <= 0 {
        assert y in multiset(Insert(x, t));
        if y != x {
          assert y in multiset(t);
          var k :| 0 <= k < |t| && t[k] == y;
          assert s[k + 1] == y;
        }
      }
      SortedCons(s[0], Insert(x, t));
    }
  }

  /** A sorted list stays sorted with an element in front that ranks no later than any of it. */
  lemma {:induction false} SortedCons(y: Scored, s: seq<Scored>)
    requires Sorted(s)
    requires forall z :: z in s ==> Compare(y, z) <= 0
    ensures Sorted([y] + s)
  {
    var r := [y] + s;
    forall i, j | 0 <= i < j < |r| ensures Compare(r[i], r[j]) <= 0 {
      assert r[j] == s[j - 1];
      if i > 0 { assert r[i] == s[i - 1]; }
    }
  }

  lemma {:induction false} SortSorted(s: seq<Scored>)
    ensures Sorted(Sort(s))
    decreases |s|
  {
    if s != [] {
      SortSorted(s[1..]);
      InsertSorted(s[0], Sort(s[1..]));
    }
  }

  // ---------------------------------------------------------------------------
  // Consumed filter and selection

  /** Keeps the records whose identifier has not been replayed in this session. */
  function Unconsumed(s: seq<Scored>, consumed: set<string>): (r: seq<Scored>)
    ensures |r| <= |s|
    ensures forall c :: c in r <==> c in s && c.entry.identifier !in consumed
  {
    if s == [] then []
    else (if s[0].entry.identifier in consumed then [] else [s[0]]) + Unconsumed(s[1..], consumed)
  }

  /** Inserting at the front: `x` still goes first among the unconsumed records. */
  lemma {:induction false} InsertUnconsumedFront(x: Scored, s: seq<Scored>, consumed: set<string>)
    requires Sorted(s)
    requires s == [] || Compare(x, s[0]) <= 0
    ensures Unconsumed(Insert(x, s), consumed)
         == if x.entry.identifier in consumed then Unconsumed(s, consumed)
            else Insert(x, Unconsumed(s, consumed))
  {
    var u := Unconsumed(s, consumed);
    assert Insert(x, s) == [x] + s;
    assert ([x] + s)[1..] == s;
    if u != [] {
      assert u[0] in s;
      var k :| 0 <= k < |s| && s[k] == u[0];
      if k > 0 { CompareTransitive(x, s[0], u[0]); }
    }
  }

  /** Inserting past the head: the head stays in front, whether consumed or not. */
  lemma {:induction false} InsertUnconsumedBack(x: Scored, s: seq<Scored>, consumed: set<string>)
    requires s != [] && Compare(x, s[0]) > 0
    requires Unconsumed(Insert(x, s[1..]), consumed)
          == if x.entry.identifier in consumed then Unconsumed(s[1..], consumed)
             else Insert(x, Unconsumed(s[1..], consumed))
    ensures Unconsumed(Insert(x, s), consumed)
         == if x.entry.identifier in consumed then Unconsumed(s, consumed)
            else Insert(x, Unconsumed(s, consumed))
  {
    var r := Insert(x, s);
    InsertKeepsHead(x, s);
    var h := if s[0].entry.identifier in consumed then [] else [s[0]];
    assert Unconsumed(r, consumed) == h + Unconsumed(r[1..], consumed);
    assert Unconsumed(s, consumed) == h + Unconsumed(s[1..], consumed);
    InsertBehindHead(x, s[0], h, Unconsumed(s[1..], consumed), Unconsumed(r[1..], consumed),
                     x.entry.identifier in consumed);
  }

  lemma {:induction false} InsertKeepsHead(x: Scored, s: seq<Scored>)
    requires s != [] && Compare(x, s[0]) > 0
    ensures Insert(x, s) != [] && Insert(x, s)[0] == s[0] && Insert(x, s)[1..] == Insert(x, s[1..])
  {
  }

  /** The case analysis of InsertUnconsumedBack over abstract lists. */
  lemma {:induction false} InsertBehindHead(x: Scored, y: Scored, h: seq<Scored>, ut: seq<Scored>, ui: seq<Scored>, dropped: bool)
    requires Compare(x, y) > 0
    requires h == [] || h == [y]
    requires ui == if dropped then ut else Insert(x, ut)
    ensures h + ui == if dropped then h + ut else Insert(x, h + ut)
  {
    if !dropped && h == [y] {
      InsertPast(x, y, ut);
    } else if !dropped {
      assert h + ut == ut && h + ui == ui;
    }
  }

  lemma {:induction false} InsertPast(x: Scored, y: Scored, s: seq<Scored>)
    requires Compare(x, y) > 0
    ensures Insert(x, [y] + s) == [y] + Insert(x, s)
  {
    assert ([y] + s)[0] == y && ([y] + s)[1..] == s;
  }

  lemma {:induction false} InsertUnconsumed(x: Scored, s: seq<Scored>, consumed: set<string>)
    requires Sorted(s)
    ensures Unconsumed(Insert(x, s), consumed)
         == if x.entry.identifier in consumed then Unconsumed(s, consumed)
            else Insert(x, Unconsumed(s, consumed))
    decreases |s|
  {
    if s == [] || Compare(x, s[0]) <= 0 {
      InsertUnconsumedFront(x, s, consumed);
    } else {
      assert Sorted(s[1..]);
      InsertUnconsumed(x, s[1..], consumed);
      InsertUnconsumedBack(x, s, consumed);
    }
  }

  /** Dropping consumed records after the sort gives the same list as dropping them before. */
  lemma {:induction false} SortUnconsumedCommute(s: seq<Scored>, consumed: set<string>)
    ensures Unconsumed(Sort(s), consumed) == Sort(Unconsumed(s, consumed))
    decreases |s|
  {
    if s != [] {
      SortSorted(s[1..]);
      InsertUnconsumed(s[0], Sort(s[1..]), consumed);
      SortUnconsumedCommute(s[1..], consumed);
      var rest := Unconsumed(s[1..], consumed);
      if s[0].entry.identifier !in consumed {
        assert Unconsumed(s, consumed) == [s[0]] + rest;
        assert ([s[0]] + rest)[1..] == rest;
      } else {
        assert Unconsumed(s, consumed) == rest;
      }
    }
  }

  /** The records that pass the hard filter, best first. */
  function Ranked(tape: seq<ArchivedPayload>, url: Url, config: FetchConfig): (r: seq<Scored>)
    ensures Sorted(r)
    ensures multiset(r) == multiset(Candidates(tape, url, config))
  {
    SortSorted(Candidates(tape, url, config));
    Sort(Candidates(tape, url, config))
  }

  /** The record replay answers with, or None when every candidate has been consumed. */
  function Select(tape: seq<ArchivedPayload>, consumed: set<string>, url: Url, config: FetchConfig)
    : (r: Option<ArchivedPayload>)
    ensures r.Some? ==> r.value in tape && Eligible(r.value, consumed, url, config)
  {
    var remaining := Unconsumed(Ranked(tape, url, config), consumed);
    if remaining == [] then None
    else
      assert remaining[0] in Ranked(tape, url, config);
      assert remaining[0] in multiset(Ranked(tape, url, config));
      Some(remaining[0].entry)
  }

  /**
   * A record whose origin, pathname or defaulted method differs from the request is
   * never replayed, even when it is the only record on the tape.
   */
  lemma {:induction false} MismatchNeverReplayed(tape: seq<ArchivedPayload>, consumed: set<string>, url: Url,
                                                 config: FetchConfig, p: ArchivedPayload)
    requires || p.request.url.origin != url.origin
             || p.request.url.pathname != url.pathname
             || MethodOrGet(p.request.httpMethod) != MethodOrGet(config.httpMethod)
    ensures Select(tape, consumed, url, config) != Some(p)
    ensures Select([p], consumed, url, config) == None
  {
    SelectComplete([p], consumed, url, config);
  }

  /** A record is eligible when it passes the hard filter and is not yet consumed. */
  predicate Eligible(p: ArchivedPayload, consumed: set<string>, url: Url, config: FetchConfig)
  {
    HardMatch(p, url, config) && p.identifier !in consumed
  }

  /** Replay fails only when no eligible record is left. */
  lemma {:induction false} SelectComplete(tape: seq<ArchivedPayload>, consumed: set<string>, url: Url, config: FetchConfig)
    ensures Select(tape, consumed, url, config).None? <==> forall p :: p in tape ==> !Eligible(p, consumed, url, config)
  {
    var ranked := Ranked(tape, url, config);
    if p :| p in tape && Eligible(p, consumed, url, config) {
      assert ScoreEntry(p, url, config) in Candidates(tape, url, config);
      assert ScoreEntry(p, url, config) in multiset(ranked);
      assert ScoreEntry(p, url, config) in Unconsumed(ranked, consumed);
    }
  }

  /**
   * The chosen record ranks no later than any other eligible record: highest query
   * score, then highest header score, then earliest capture.
   */
  lemma {:induction false} SelectBest(tape: seq<ArchivedPayload>, consumed: set<string>, url: Url, config: FetchConfig,
                   p: ArchivedPayload)
    requires Select(tape, consumed, url, config).Some?
    requires p in tape && Eligible(p, consumed, url, config)
    ensures RanksNoLater(ScoreEntry(Select(tape, consumed, url, config).value, url, config),
                         ScoreEntry(p, url, config))
  {
    var ranked := Ranked(tape, url, config);
    var remaining := Unconsumed(ranked, consumed);
    SortSorted(Candidates(tape, url, config));
    var sp := ScoreEntry(p, url, config);
    assert sp in Candidates(tape, url, config);
    assert sp in multiset(ranked);
    assert remaining[0] in multiset(Candidates(tape, url, config));
    assert sp in remaining;
    var j :| 0 <= j < |remaining| && remaining[j] == sp;
    assert Sorted(remaining) by {
      UnconsumedSorted(ranked, consumed);
    }
    if j > 0 { assert Compare(remaining[0], remaining[j]) <= 0; }
    CompareMeaning(remaining[0], sp);
  }

  lemma {:induction false} UnconsumedSorted(s: seq<Scored>, consumed: set<string>)
    requires Sorted(s)
    ensures Sorted(Unconsumed(s, consumed))
    decreases |s|
  {
    if s != [] {
      assert Sorted(s[1..]);
      UnconsumedSorted(s[1..], consumed);
      var u := Unconsumed(s[1..], consumed);
      forall j | 0 <= j < |u| ensures Compare(s[0], u[j]) <= 0 {
        assert u[j] in s[1..];
        var k :| 0 <= k < |s[1..]| && s[1..][k] == u[j];
        assert s[k + 1] == u[j];
      }
    }
  }

  /**
   * Applying the consumed filter first and then ranking chooses the same record,
   * so the choice is the best eligible record however the pipeline is arranged.
   */
  lemma {:induction false} SelectFilterFirst(tape: seq<ArchivedPayload>, consumed: set<string>, url: Url, config: FetchConfig)
    ensures var before := Sort(Unconsumed(Candidates(tape, url, config), consumed));
            Select(tape, consumed, url, config) == if before == [] then None else Some(before[0].entry)
  {
    SortUnconsumedCommute(Candidates(tape, url, config), consumed);
  }

  /**
   * On a well-formed tape there is exactly one best eligible record: any eligible
   * record that ranks no later than the choice is the choice.
   */
  lemma {:induction false} SelectUnique(tape: seq<ArchivedPayload>, consumed: set<string>, url: Url, config: FetchConfig,
                     p: ArchivedPayload)
    requires WellFormedTape(tape)
    requires Select(tape, consumed, url, config).Some?
    requires p in tape && Eligible(p, consumed, url, config)
    requires RanksNoLater(ScoreEntry(p, url, config), ScoreEntry(Select(tape, consumed, url, config).value, url, config))
    ensures p == Select(tape, consumed, url, config).value
  {
    var e := Select(tape, consumed, url, config).value;
    SelectBest(tape, consumed, url, config, p);
    var i :| 0 <= i < |tape| && tape[i] == p;
    var k :| 0 <= k < |tape| && tape[k] == e;
    assert p.request.order == e.request.order;
  }

  /** A record once chosen is never chosen again after its identifier is consumed. */
  lemma {:induction false} SelectNeverRepeats(tape: seq<ArchivedPayload>, consumed: set<string>, url: Url, config: FetchConfig)
    requires Select(tape, consumed, url, config).Some?
    ensures var e := Select(tape, consumed, url, config).value;
            var next := Select(tape, consumed + {e.identifier}, url, config);
            next.Some? ==> next.value.identifier != e.identifier && next.value != e
  {
  }

  /** Against the headers a record was captured with, no record scores higher than that record. */
  lemma {:induction false} HeaderScoreAtMostOwn(p: ArchivedPayload, q: ArchivedPayload, url: Url, config: FetchConfig)
    requires config.headers == q.request.headers
    requires p.request.headers.Some? ==> DistinctKeys(p.request.headers.value)
    requires q.request.headers.Some? ==> DistinctKeys(q.request.headers.value)
    ensures ScoreEntry(p, url, config).headerScore <= ScoreEntry(q, url, config).headerScore
  {
    if config.headers.Some? && p.request.headers.Some? {
      SelfScoreIsMaximal(config.headers.value, p.request.headers.value);
    }
  }

  lemma {:induction false} PrefixIdentifiers(tape: seq<ArchivedPayload>, i: nat)
    requires WellFormedTape(tape) && i < |tape|
    ensures forall j :: 0 <= j < i ==> tape[j].identifier in Identifiers(tape[..i])
    ensures tape[i].identifier !in Identifiers(tape[..i])
  {
    forall j | 0 <= j < i ensures tape[j].identifier in Identifiers(tape[..i]) {
      assert tape[..i][j] == tape[j];
    }
    forall j | 0 <= j < i ensures tape[..i][j].identifier != tape[i].identifier {
      assert tape[..i][j] == tape[j];
    }
  }

  /**
   * Replaying the captured requests in the order they were captured answers each one
   * with its own record: its headers score highest against themselves, and every
   * earlier record with an equal score has been consumed.
   */
  lemma {:induction false} ReplayInCaptureOrder(tape: seq<ArchivedPayload>, i: nat, config: FetchConfig)
    requires WellFormedTape(tape) && i < |tape|
    requires forall j :: 0 <= j < |tape| && tape[j].request.headers.Some? ==> DistinctKeys(tape[j].request.headers.value)
    requires config.httpMethod == tape[i].request.httpMethod && config.headers == tape[i].request.headers
    ensures Select(tape, Identifiers(tape[..i]), tape[i].request.url, config) == Some(tape[i])
  {
    var consumed := Identifiers(tape[..i]);
    var url := tape[i].request.url;
    PrefixIdentifiers(tape, i);
    SelectComplete(tape, consumed, url, config);
    assert tape[i] in tape && Eligible(tape[i], consumed, url, config);
    var e := Select(tape, consumed, url, config).value;
    SelectBest(tape, consumed, url, config, tape[i]);
    var k :| 0 <= k < |tape| && tape[k] == e;
    HeaderScoreAtMostOwn(e, tape[i], url, config);
    assert e.request.order <= i;
    assert k == i;
  }
}
