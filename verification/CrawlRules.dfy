/**
 * The default export of src/cookies/main.ts: turns the rule table into crawl entries.
 * Rules whose key contains ".com" and whose value has an `s` field are kept; `{...}`
 * spans are removed from `s` with the greedy global regex `/{.*}/g`; what is left is
 * split on ',' into the entry's CSS selectors.
 */
module CrawlRules {
  import opened Wrappers

  /** A rule's value as the parser reads it: its `s` field, None when undefined or null. */
  datatype RuleValue = RuleValue(s: Option<string>)

  /** One rule as `Object.entries(rules)` lists it. */
  type Rule = (string, RuleValue)

  datatype CrawlEntry = CrawlEntry(url: string, cssSelectors: seq<string>)

  // ---------------------------------------------------------------------------
  // `key.indexOf('.com') > -1`

  predicate OccursAt(s: string, sub: string, i: int)
  {
    0 <= i && i + |sub| <= |s| && s[i..i + |sub|] == sub
  }

  ghost predicate Contains(s: string, sub: string)
  {
    exists i :: OccursAt(s, sub, i)
  }

  /** `String.prototype.indexOf` searching from `from`: the first occurrence, or -1. */
  function IndexOfFrom(s: string, sub: string, from: nat): (r: int)
    requires from <= |s|
    ensures r == -1 || (from <= r && OccursAt(s, sub, r))
    ensures r == -1 ==> forall i :: from <= i ==> !OccursAt(s, sub, i)
    ensures r != -1 ==> forall i :: from <= i < r ==> !OccursAt(s, sub, i)
    decreases |s| - from
  {
    if from + |sub| > |s| then -1
    else if s[from..from + |sub|] == sub then from
    else IndexOfFrom(s, sub, from + 1)
  }

  /** `s.indexOf(sub)`: the first occurrence of `sub` in `s`, or -1. */
  function IndexOf(s: string, sub: string): (r: int)
    ensures r == -1 || OccursAt(s, sub, r)
    ensures r != -1 ==> forall i :: 0 <= i < r ==> !OccursAt(s, sub, i)
  {
    IndexOfFrom(s, sub, 0)
  }

  /** The filter's test holds exactly when the key contains the text. */
  lemma {:induction false} IndexOfFound(s: string, sub: string)
    ensures IndexOf(s, sub) > -1 <==> Contains(s, sub)
  {
    if Contains(s, sub) {
      var i :| OccursAt(s, sub, i);
    }
  }

  // ---------------------------------------------------------------------------
  // `.replace(/{.*}/g, '')`

  /** The characters `.` does not match: LF, CR, LINE SEPARATOR, PARAGRAPH SEPARATOR. */
  predicate IsLineTerminator(c: char)
  {
    c == '\n' || c == '\r' || c == '\U{2028}' || c == '\U{2029}'
  }

  predicate SingleLine(s: string)
  {
    forall i :: 0 <= i < |s| ==> !IsLineTerminator(s[i])
  }

  /**
   * Given the text after a `{`, where the greedy `.*}` stops: at the last `}` that
   * comes before the first line terminator, or None when there is no such `}`.
   */
  function LastClose(t: string): (r: Option<nat>)
    ensures r.Some? ==> r.value < |t| && t[r.value] == '}' && SingleLine(t[..r.value])
    ensures r.Some? ==> forall k :: r.value < k < |t| && SingleLine(t[..k]) ==> t[k] != '}'
    ensures r.None? ==> forall k :: 0 <= k < |t| && SingleLine(t[..k]) ==> t[k] != '}'
  {
    if t == [] || IsLineTerminator(t[0]) then None
    else
      var rest := LastClose(t[1..]);
      SingleLineTail(t);
      if rest.Some? then Some(rest.value + 1)
      else if t[0] == '}' then Some(0)
      else None
  }

  lemma {:induction false} SingleLineTail(t: string)
    requires t != []
    ensures forall k :: 0 < k <= |t| && SingleLine(t[..k]) ==> SingleLine(t[1..][..k - 1])
  {
    forall k | 0 < k <= |t| && SingleLine(t[..k])
      ensures SingleLine(t[1..][..k - 1])
    {
      assert t[1..][..k - 1] == t[..k][1..];
    }
  }

  /**
   * The global replacement: scanning left to right, a `{` that has a `}` later on its
   * line starts a match that runs to the last such `}` and is deleted; scanning goes
   * on after it. Any other character is kept.
   */
  function StripBraces(s: string): (r: string)
    ensures |r| <= |s|
    decreases |s|
  {
    if s == [] then []
    else if s[0] == '{' && LastClose(s[1..]).Some? then
      StripBraces(s[LastClose(s[1..]).value + 2..])
    else [s[0]] + StripBraces(s[1..])
  }

  /** A selector without `{` is left as it is. */
  lemma {:induction false} StripNoOpen(s: string)
    requires forall i :: 0 <= i < |s| ==> s[i] != '{'
    ensures StripBraces(s) == s
    decreases |s|
  {
    if s != [] {
      StripNoOpen(s[1..]);
    }
  }

  /** A selector without `}` is left as it is. */
  lemma {:induction false} StripNoClose(s: string)
    requires forall i :: 0 <= i < |s| ==> s[i] != '}'
    ensures StripBraces(s) == s
    decreases |s|
  {
    if s != [] {
      assert LastClose(s[1..]).None?;
      StripNoClose(s[1..]);
    }
  }

  lemma {:induction false} StripAfterPlainPrefix(prefix: string, rest: string)
    requires forall i :: 0 <= i < |prefix| ==> prefix[i] != '{'
    ensures StripBraces(prefix + rest) == prefix + StripBraces(rest)
    decreases |prefix|
  {
    if prefix != [] {
      assert (prefix + rest)[0] == prefix[0];
      assert (prefix + rest)[1..] == prefix[1..] + rest;
      StripAfterPlainPrefix(prefix[1..], rest);
      assert prefix == [prefix[0]] + prefix[1..];
    } else {
      assert prefix + rest == rest;
    }
  }

  lemma {:induction false} LastCloseOfSingleLine(t: string, k: nat)
    requires SingleLine(t) && k < |t| && t[k] == '}'
    requires forall j :: k < j < |t| ==> t[j] != '}'
    ensures LastClose(t) == Some(k)
  {
    assert SingleLine(t[..k]);
  }

  /**
   * On one line, the span from the first `{` to the last `}` after it is deleted
   * and nothing else changes.
   */
  lemma {:induction false} StripSingleLine(s: string, p: nat, q: nat)
    requires SingleLine(s)
    requires p < q < |s| && s[p] == '{' && s[q] == '}'
    requires forall i :: 0 <= i < p ==> s[i] != '{'
    requires forall i :: q < i < |s| ==> s[i] != '}'
    ensures StripBraces(s) == s[..p] + s[q + 1..]
  {
    var rest := s[p..];
    assert s == s[..p] + rest;
    StripAfterPlainPrefix(s[..p], rest);
    var t := rest[1..];
    assert SingleLine(t);
    LastCloseOfSingleLine(t, q - p - 1);
    assert rest[q - p + 1..] == s[q + 1..];
    StripNoClose(s[q + 1..]);
  }

  /** On one line, a `{` with no `}` after it starts no deletion. */
  lemma {:induction false} StripSingleLineUnclosed(s: string, p: nat)
    requires SingleLine(s)
    requires p < |s| && s[p] == '{'
    requires forall i :: 0 <= i < p ==> s[i] != '{'
    requires forall i :: p < i < |s| ==> s[i] != '}'
    ensures StripBraces(s) == s
  {
    var rest := s[p..];
    assert s == s[..p] + rest;
    StripAfterPlainPrefix(s[..p], rest);
    assert LastClose(rest[1..]).None?;
    assert StripBraces(rest) == [rest[0]] + StripBraces(rest[1..]);
    StripNoClose(rest[1..]);
    assert [rest[0]] + rest[1..] == rest;
  }

  // ---------------------------------------------------------------------------
  // `.split(',')` and its inverse

  function CountCommas(s: string): nat
  {
    if s == [] then 0 else (if s[0] == ',' then 1 else 0) + CountCommas(s[1..])
  }

  predicate NoComma(s: string)
  {
    forall i :: 0 <= i < |s| ==> s[i] != ','
  }

  /** `split(',')`: the pieces between commas; the empty string gives one empty piece. */
  function Split(s: string): (parts: seq<string>)
    ensures |parts| == CountCommas(s) + 1
    ensures forall i :: 0 <= i < |parts| ==> NoComma(parts[i])
  {
    if s == [] then [[]]
    else
      var rest := Split(s[1..]);
      if s[0] == ',' then [[]] + rest
      else [[s[0]] + rest[0]] + rest[1..]
  }

  /** `join(',')`. */
  function Join(parts: seq<string>): string
  {
    if parts == [] then []
    else if |parts| == 1 then parts[0]
    else parts[0] + "," + Join(parts[1..])
  }

  /** Joining the pieces with ',' gives back the split text. */
  lemma {:induction false} JoinSplit(s: string)
    ensures Join(Split(s)) == s
    decreases |s|
  {
    if s != [] {
      var rest := Split(s[1..]);
      JoinSplit(s[1..]);
      if s[0] == ',' {
        assert ([[]] + rest)[1..] == rest;
      } else {
        var parts := [[s[0]] + rest[0]] + rest[1..];
        assert parts[1..] == rest[1..];
        if |rest| == 1 {
          assert Join(rest) == rest[0];
        } else {
          assert Join(rest) == rest[0] + "," + Join(rest[1..]);
        }
      }
    }
  }

  /** Splitting comma-free pieces joined with ',' gives back the pieces. */
  lemma {:induction false} SplitJoin(parts: seq<string>)
    requires |parts| >= 1
    requires forall i :: 0 <= i < |parts| ==> NoComma(parts[i])
    ensures Split(Join(parts)) == parts
    decreases |parts|
  {
    if |parts| == 1 {
      SplitPiece(parts[0], []);
      assert parts[0] + [] == parts[0];
      assert Split([]) == [[]];
      assert parts == [parts[0]];
    } else {
      SplitJoin(parts[1..]);
      var tail := Join(parts[1..]);
      var rest := [','] + tail;
      SplitPiece(parts[0], rest);
      assert Join(parts) == parts[0] + rest;
      assert rest[1..] == tail;
      var split := Split(rest);
      assert split == [[]] + parts[1..];
      assert split[0] == [] && split[1..] == parts[1..];
      assert parts[0] + split[0] == parts[0];
      assert parts == [parts[0]] + parts[1..];
    }
  }

  /** A comma-free piece in front of text starting with ',' or empty extends the first part. */
  lemma {:induction false} SplitPiece(piece: string, rest: string)
    requires NoComma(piece)
    requires rest == [] || rest[0] == ','
    ensures Split(piece + rest) == [piece + Split(rest)[0]] + Split(rest)[1..]
    ensures Split(rest)[0] == []
    decreases |piece|
  {
    var tail := Split(rest);
    if rest != [] {
      assert tail == [[]] + Split(rest[1..]);
    }
    if piece != [] {
      var whole := piece + rest;
      assert whole[0] == piece[0] && whole[0] != ',';
      assert whole[1..] == piece[1..] + rest;
      SplitPiece(piece[1..], rest);
      var inner := Split(whole[1..]);
      assert inner == [piece[1..] + tail[0]] + tail[1..];
      assert Split(whole) == [[piece[0]] + inner[0]] + inner[1..];
      assert inner[1..] == tail[1..];
      assert [piece[0]] + (piece[1..] + tail[0]) == piece + tail[0];
    } else {
      assert piece + rest == rest;
      assert tail == [tail[0]] + tail[1..];
    }
  }

  // ---------------------------------------------------------------------------
  // The pipeline

  /** Step 1: keep the rules whose key contains ".com". */
  function KeepCom(rules: seq<Rule>): (r: seq<Rule>)
    ensures |r| <= |rules|
    ensures forall x :: x in r <==> x in rules && IndexOf(x.0, ".com") > -1
  {
    if rules == [] then []
    else (if IndexOf(rules[0].0, ".com") > -1 then [rules[0]] else []) + KeepCom(rules[1..])
  }

  /** Step 2: keep the rules whose value has an `s` (loose `!= undefined` also drops null). */
  function KeepWithSelector(rules: seq<Rule>): (r: seq<Rule>)
    ensures |r| <= |rules|
    ensures forall x :: x in r <==> x in rules && x.1.s.Some?
  {
    if rules == [] then []
    else (if rules[0].1.s.Some? then [rules[0]] else []) + KeepWithSelector(rules[1..])
  }

  /** Step 3: replace each value by its `s` with the `{...}` spans removed. */
  function StripSelectors(rules: seq<Rule>): (r: seq<(string, string)>)
    requires forall i :: 0 <= i < |rules| ==> rules[i].1.s.Some?
    ensures |r| == |rules|
    ensures forall i :: 0 <= i < |r| ==> r[i] == (rules[i].0, StripBraces(rules[i].1.s.value))
  {
    if rules == [] then []
    else [(rules[0].0, StripBraces(rules[0].1.s.value))] + StripSelectors(rules[1..])
  }

  /** Step 4: split each stripped selector on ','. */
  function ToEntries(pairs: seq<(string, string)>): (r: seq<CrawlEntry>)
    ensures |r| == |pairs|
    ensures forall i :: 0 <= i < |r| ==> r[i] == CrawlEntry(pairs[i].0, Split(pairs[i].1))
  {
    if pairs == [] then []
    else [CrawlEntry(pairs[0].0, Split(pairs[0].1))] + ToEntries(pairs[1..])
  }

  /** The default export, with the imported rule table as its argument. */
  function ParseRules(rules: seq<Rule>): (entries: seq<CrawlEntry>)
    ensures |entries| <= |rules|
  {
    var kept := KeepWithSelector(KeepCom(rules));
    ToEntries(StripSelectors(kept))
  }

  /** The entry one rule contributes, if any. */
  ghost function EntryOf(rule: Rule): seq<CrawlEntry>
  {
    if Contains(rule.0, ".com") && rule.1.s.Some? then [CrawlEntry(rule.0, Split(StripBraces(rule.1.s.value)))]
    else []
  }

  lemma {:induction false} KeepComAppend(a: seq<Rule>, b: seq<Rule>)
    ensures KeepCom(a + b) == KeepCom(a) + KeepCom(b)
  {
    if a != [] {
      assert (a + b)[1..] == a[1..] + b;
      KeepComAppend(a[1..], b);
    } else {
      assert a + b == b;
    }
  }

  lemma {:induction false} KeepWithSelectorAppend(a: seq<Rule>, b: seq<Rule>)
    ensures KeepWithSelector(a + b) == KeepWithSelector(a) + KeepWithSelector(b)
  {
    if a != [] {
      assert (a + b)[1..] == a[1..] + b;
      KeepWithSelectorAppend(a[1..], b);
    } else {
      assert a + b == b;
    }
  }

  /**
   * The output keeps the input order: parsing a concatenation of rule lists gives the
   * concatenation of their parses, and a single rule gives at most its own entry.
   */
  lemma {:induction false} ParseRulesAppend(a: seq<Rule>, b: seq<Rule>)
    ensures ParseRules(a + b) == ParseRules(a) + ParseRules(b)
  {
    KeepComAppend(a, b);
    KeepWithSelectorAppend(KeepCom(a), KeepCom(b));
    var ka, kb := KeepWithSelector(KeepCom(a)), KeepWithSelector(KeepCom(b));
    StripSelectorsAppend(ka, kb);
    ToEntriesAppend(StripSelectors(ka), StripSelectors(kb));
  }

  lemma {:induction false} StripSelectorsAppend(a: seq<Rule>, b: seq<Rule>)
    requires forall i :: 0 <= i < |a| ==> a[i].1.s.Some?
    requires forall i :: 0 <= i < |b| ==> b[i].1.s.Some?
    ensures StripSelectors(a + b) == StripSelectors(a) + StripSelectors(b)
  {
    var l, r := StripSelectors(a), StripSelectors(b);
    assert forall i :: 0 <= i < |l + r| ==> StripSelectors(a + b)[i] == (l + r)[i] by {
      forall i | 0 <= i < |l + r|
        ensures StripSelectors(a + b)[i] == (l + r)[i]
      {
        if i < |a| { assert (a + b)[i] == a[i]; } else { assert (a + b)[i] == b[i - |a|]; }
      }
    }
  }

  lemma {:induction false} ToEntriesAppend(a: seq<(string, string)>, b: seq<(string, string)>)
    ensures ToEntries(a + b) == ToEntries(a) + ToEntries(b)
  {
    if a == [] {
      assert a + b == b;
    } else {
      assert (a + b)[1..] == a[1..] + b;
      ToEntriesAppend(a[1..], b);
    }
  }

  lemma {:induction false} ParseOneRule(rule: Rule)
    ensures ParseRules([rule]) == EntryOf(rule)
  {
    IndexOfFound(rule.0, ".com");
    assert [rule][1..] == [];
  }

  /** The pipeline is the rule-by-rule map of EntryOf over the table. */
  lemma {:induction false} ParseRulesByRule(rules: seq<Rule>)
    ensures ParseRules(rules) == if rules == [] then [] else EntryOf(rules[0]) + ParseRules(rules[1..])
  {
    if rules != [] {
      assert rules == [rules[0]] + rules[1..];
      ParseRulesAppend([rules[0]], rules[1..]);
      ParseOneRule(rules[0]);
    }
  }

  /**
   * What every entry satisfies: it comes from a rule whose key contains ".com" and whose
   * `s` is defined, its selectors are never empty, there is one more selector than
   * there are commas, and joining them with ',' gives the stripped `s`.
   */
  lemma {:induction false} ParsedEntry(rules: seq<Rule>, e: CrawlEntry)
    requires e in ParseRules(rules)
    ensures Contains(e.url, ".com")
    ensures exists i :: 0 <= i < |rules| && rules[i].0 == e.url && rules[i].1.s.Some?
                        && Join(e.cssSelectors) == StripBraces(rules[i].1.s.value)
                        && |e.cssSelectors| == CountCommas(StripBraces(rules[i].1.s.value)) + 1
  {
    var kept := KeepWithSelector(KeepCom(rules));
    var pairs := StripSelectors(kept);
    var k :| 0 <= k < |ToEntries(pairs)| && ToEntries(pairs)[k] == e;
    assert kept[k] in kept;
    var i :| 0 <= i < |rules| && rules[i] == kept[k];
    IndexOfFound(e.url, ".com");
    JoinSplit(StripBraces(rules[i].1.s.value));
  }
}
