/**
 * The clause classifier and the heuristic what-if analyzer of
 * app/services/whatif.py, plus the parsing of a language-model reply into
 * what-if items (the tail of `whatif_llm`).
 */
module WhatIf {
  import opened Wrappers
  import opened Strings
  import opened Summarizer

  /** The six clause buckets, the keys of `CLAUSE_HINTS`. */
  datatype Bucket = Payment | Liability | Termination | Confidentiality | Ip | Jurisdiction {

    /** The dictionary key the bucket is reported under. */
    function Name(): (name: string)
      ensures name in {"payment", "liability", "termination", "confidentiality", "ip", "jurisdiction"}
    {
      match this
      case Payment => "payment"
      case Liability => "liability"
      case Termination => "termination"
      case Confidentiality => "confidentiality"
      case Ip => "ip"
      case Jurisdiction => "jurisdiction"
    }
  }

  /** Distinct buckets are reported under distinct keys. */
  lemma NamesDistinct(a: Bucket, b: Bucket)
    ensures a.Name() == b.Name() ==> a == b
  {
  }

  /** The buckets in the order of `CLAUSE_HINTS`. */
  const BUCKETS: seq<Bucket> := [Payment, Liability, Termination, Confidentiality, Ip, Jurisdiction]

  /** The position of a bucket in BUCKETS. */
  function Position(b: Bucket): (p: nat)
    ensures p < |BUCKETS| && BUCKETS[p] == b
  {
    match b
    case Payment => 0
    case Liability => 1
    case Termination => 2
    case Confidentiality => 3
    case Ip => 4
    case Jurisdiction => 5
  }

  /** The alternatives of each `CLAUSE_HINTS` pattern; every one is a plain lower-case literal. */
  function Hints(b: Bucket): (r: seq<string>)
    ensures |r| > 0 && forall k :: 0 <= k < |r| ==> |r[k]| >= 3
  {
    match b
    case Payment => ["payment", "fee", "compensation", "invoice", "amount", "consideration", "price", "remuneration"]
    case Liability => ["liabilit", "indemnif", "damages", "hold harmless", "limitation of liability", "cap"]
    case Termination => ["terminat", "expiry", "expire", "renewal", "notice period", "breach"]
    case Confidentiality => ["confidential", "non-disclosure", "nda", "proprietary", "trade secret"]
    case Ip => ["intellectual property", "ip rights", "license", "licence", "ownership", "assign"]
    case Jurisdiction => ["jurisdiction", "governing law", "venue", "dispute", "arbitration", "forum"]
  }

  /** `re.search(pat, s, flags=re.I)`: some alternative occurs in the sentence, ignoring case. */
  predicate Matches(sentence: string, b: Bucket)
    ensures Matches(sentence, b) ==> |sentence| >= 3
  {
    ContainsAny(Lower(sentence), Hints(b))
  }

  /** The sentences the bucket collects: those matching its pattern, in document order. */
  function BucketSentences(sents: seq<string>, b: Bucket): (r: seq<string>)
    ensures |r| <= |sents|
    decreases |sents|
  {
    if |sents| == 0 then []
    else
      var last := sents[|sents| - 1];
      BucketSentences(sents[..|sents| - 1], b) + (if Matches(last, b) then [last] else [])
  }

  /** The document positions of the sentences the bucket collects. */
  function MatchIndices(sents: seq<string>, b: Bucket): (r: seq<nat>)
    decreases |sents|
  {
    if |sents| == 0 then []
    else MatchIndices(sents[..|sents| - 1], b) + (if Matches(sents[|sents| - 1], b) then [|sents| - 1] else [])
  }

  /** The listed positions are in range, strictly increasing, and pick out the bucket's sentences. */
  lemma {:induction false} MatchIndicesPickBucket(sents: seq<string>, b: Bucket)
    ensures |MatchIndices(sents, b)| == |BucketSentences(sents, b)|
    ensures forall j :: 0 <= j < |MatchIndices(sents, b)| ==>
      MatchIndices(sents, b)[j] < |sents| && BucketSentences(sents, b)[j] == sents[MatchIndices(sents, b)[j]]
    ensures forall j1, j2 :: 0 <= j1 < j2 < |MatchIndices(sents, b)| ==> MatchIndices(sents, b)[j1] < MatchIndices(sents, b)[j2]
    decreases |sents|
  {
    if |sents| > 0 {
      var init := sents[..|sents| - 1];
      MatchIndicesPickBucket(init, b);
      var n := |sents| - 1;
      var r0, idx0 := BucketSentences(init, b), MatchIndices(init, b);
      forall j | 0 <= j < |idx0| ensures idx0[j] < n && r0[j] == sents[idx0[j]] {
        assert r0[j] == init[idx0[j]];
      }
      if Matches(sents[n], b) {
        assert BucketSentences(sents, b) == r0 + [sents[n]];
        assert MatchIndices(sents, b) == idx0 + [n];
      } else {
        assert BucketSentences(sents, b) == r0;
        assert MatchIndices(sents, b) == idx0;
      }
    }
  }

  /** A position is listed exactly when its sentence matches the bucket's pattern. */
  lemma {:induction false} MatchIndicesComplete(sents: seq<string>, b: Bucket, i: nat)
    requires i < |sents|
    ensures i in MatchIndices(sents, b) <==> Matches(sents[i], b)
    decreases |sents|
  {
    var n := |sents| - 1;
    var init := sents[..n];
    var prev := MatchIndices(init, b);
    assert MatchIndices(sents, b) == prev + (if Matches(sents[n], b) then [n] else []);
    MatchIndicesBelow(init, b);
    assert n !in prev;
    if i < n {
      MatchIndicesComplete(init, b, i);
      assert init[i] == sents[i];
    }
  }

  /** Every listed position is a position of the document. */
  lemma {:induction false} MatchIndicesBelow(sents: seq<string>, b: Bucket)
    ensures forall j :: 0 <= j < |MatchIndices(sents, b)| ==> MatchIndices(sents, b)[j] < |sents|
    decreases |sents|
  {
    if |sents| > 0 {
      MatchIndicesBelow(sents[..|sents| - 1], b);
    }
  }

  /**
   * A bucket is the ordered subsequence of the sentences matching its pattern:
   * entry `j` is the sentence at position `MatchIndices[j]`, positions strictly
   * increase, and a position is listed exactly when its sentence matches.
   */
  lemma BucketIsMatchingSubsequence(sents: seq<string>, b: Bucket)
    ensures var r, idx := BucketSentences(sents, b), MatchIndices(sents, b);
      && |idx| == |r|
      && (forall j :: 0 <= j < |idx| ==> idx[j] < |sents| && r[j] == sents[idx[j]])
      && (forall j1, j2 :: 0 <= j1 < j2 < |idx| ==> idx[j1] < idx[j2])
      && (forall i :: 0 <= i < |sents| ==> (i in idx <==> Matches(sents[i], b)))
  {
    MatchIndicesPickBucket(sents, b);
    forall i | 0 <= i < |sents| ensures i in MatchIndices(sents, b) <==> Matches(sents[i], b) {
      MatchIndicesComplete(sents, b, i);
    }
  }

  /** A sentence lands in a bucket exactly when it is in the document and matches (buckets overlap freely). */
  lemma {:induction false} BucketMembers(sents: seq<string>, b: Bucket, s: string)
    ensures s in BucketSentences(sents, b) <==> s in sents && Matches(s, b)
    decreases |sents|
  {
    if |sents| > 0 {
      var init := sents[..|sents| - 1];
      BucketMembers(init, b, s);
      assert sents == init + [sents[|sents| - 1]];
    }
  }

  /** The table `extract_clauses` returns: every bucket, with its sentences. */
  ghost predicate IsClauseTable(found: map<Bucket, seq<string>>, sents: seq<string>) {
    forall b: Bucket :: b in found && found[b] == BucketSentences(sents, b)
  }

  /** Distinct buckets sit at distinct positions. */
  lemma PositionDistinct(a: Bucket, b: Bucket)
    requires a != b
    ensures Position(a) != Position(b)
  {
  }

  /** BUCKETS lists every bucket once, so a bucket's position is where it is listed. */
  lemma PositionOfListed(j: nat)
    requires j < |BUCKETS|
    ensures Position(BUCKETS[j]) == j
  {
  }

  /** Extending the document by one sentence extends each bucket by that sentence when it matches. */
  lemma BucketStep(sents: seq<string>, i: nat, b: Bucket)
    requires i < |sents|
    ensures BucketSentences(sents[..i + 1], b)
      == BucketSentences(sents[..i], b) + (if Matches(sents[i], b) then [sents[i]] else [])
  {
    assert sents[..i + 1][..i] == sents[..i];
  }

  /**
   * `updated` is `found` with `s` appended to each bucket of `done` for which
   * `hit` holds (`hit` is whether `s` matches the bucket's pattern).
   */
  ghost predicate AppendedTo(found: map<Bucket, seq<string>>, updated: map<Bucket, seq<string>>, s: string,
                             hit: Bucket -> bool, done: set<Bucket>) {
    forall b: Bucket :: b in found && b in updated &&
      updated[b] == found[b] + (if b in done && hit(b) then [s] else [])
  }

  /** One step of the inner loop keeps `AppendedTo`: the next bucket gets `s` when it is hit. */
  lemma AppendStep(found: map<Bucket, seq<string>>, updated: map<Bucket, seq<string>>, s: string,
                   hit: Bucket -> bool, done: set<Bucket>, name: Bucket)
    requires AppendedTo(found, updated, s, hit, done) && name !in done
    ensures AppendedTo(found, if hit(name) then updated[name := updated[name] + [s]] else updated, s, hit, done + {name})
  {
    var next := if hit(name) then updated[name := updated[name] + [s]] else updated;
    forall b: Bucket
      ensures b in found && b in next
      ensures next[b] == found[b] + (if b in done + {name} && hit(b) then [s] else [])
    {
      if b != name {
        assert next[b] == updated[b];
      }
    }
  }

  /**
   * The inner loop of `extract_clauses`: append `s` to every bucket whose
   * pattern it matches, in `CLAUSE_HINTS` order.
   */
  method AppendMatching(found: map<Bucket, seq<string>>, s: string) returns (updated: map<Bucket, seq<string>>)
    requires IsStripped(s)
    requires forall b: Bucket :: b in found
    ensures forall b: Bucket :: b in updated && updated[b] == found[b] + (if Matches(s, b) then [s] else [])
  {
    ghost var hit := b => Matches(s, b);
    ghost var done: set<Bucket> := {};
    updated := found;
    for j := 0 to |BUCKETS|
      invariant AppendedTo(found, updated, s, hit, done)
      invariant forall b: Bucket :: b in done <==> Position(b) < j
    {
      var name := BUCKETS[j];
      PositionOfListed(j);
      AppendStep(found, updated, s, hit, done, name);
      if Matches(s, name) {
        StrippedIsFixed(s);
        updated := updated[name := updated[name] + [Strip(s)]];
      }
      forall b: Bucket ensures b in done + {name} <==> Position(b) < j + 1 {
        if b != name { PositionDistinct(b, name); }
      }
      done := done + {name};
    }
  }

  /** `extract_clauses`: test every sentence against every bucket's pattern and append it where it matches. */
  method ExtractClauses(pieces: seq<string>) returns (found: map<Bucket, seq<string>>)
    ensures forall b: Bucket :: b in found
    ensures IsClauseTable(found, SentenceSplit(pieces))
  {
    var sents := SentenceSplit(pieces);
    found := map b | b in BUCKETS :: [];
    assert forall b: Bucket :: b in found by {
      forall b: Bucket ensures b in found { assert BUCKETS[Position(b)] == b; }
    }
    for i := 0 to |sents|
      invariant IsClauseTable(found, sents[..i])
    {
      found := AppendMatching(found, sents[i]);
      forall b: Bucket ensures found[b] == BucketSentences(sents[..i + 1], b) {
        BucketStep(sents, i, b);
      }
    }
    assert sents[..|sents|] == sents;
  }

  /** One what-if answer: `{"hypothetical": ..., "analysis": ...}`. */
  datatype WhatIfItem = WhatIfItem(hypothetical: string, analysis: string)

  /** The keyword groups of the `heuristic_whatif` ladder. */
  const PAYMENT_KEYS: seq<string> := ["pay", "fee", "amount", "price", "invoice", "compensation"]
  const TERMINATION_KEYS: seq<string> := ["terminat", "extend", "renew", "notice", "breach"]
  const LIABILITY_KEYS: seq<string> := ["liability", "indemn", "damages", "cap"]
  const CONFIDENTIALITY_KEYS: seq<string> := ["confidential", "nda", "secret", "non-disclosure"]
  const JURISDICTION_KEYS: seq<string> := ["jurisdiction", "governing law", "court", "arbitration", "forum"]
  const IP_KEYS: seq<string> := ["ip", "license", "ownership", "assign"]

  /** A priority rule: a keyword group and the bucket it selects. */
  datatype Rule = Rule(keys: seq<string>, bucket: Bucket)

  /** The rules in priority order: payment, termination, liability, confidentiality, jurisdiction, ip. */
  const RULES: seq<Rule> := [
    Rule(PAYMENT_KEYS, Payment), Rule(TERMINATION_KEYS, Termination), Rule(LIABILITY_KEYS, Liability),
    Rule(CONFIDENTIALITY_KEYS, Confidentiality), Rule(JURISDICTION_KEYS, Jurisdiction), Rule(IP_KEYS, Ip)
  ]

  /** Rule `i` of `rules` fires on the lower-cased hypothetical. */
  predicate Fires(rules: seq<Rule>, lower: string, i: nat)
    requires i < |rules|
  {
    ContainsAny(lower, rules[i].keys)
  }

  /** The bucket of the first rule at or after `from` that fires, if any. */
  function FirstMatch(rules: seq<Rule>, lower: string, from: nat): (r: Option<Bucket>)
    requires from <= |rules|
    ensures r.None? <==> forall i :: from <= i < |rules| ==> !Fires(rules, lower, i)
    ensures r.Some? ==> exists i :: (from <= i < |rules| && Fires(rules, lower, i) && rules[i].bucket == r.value &&
      forall j :: from <= j < i ==> !Fires(rules, lower, j))
    decreases |rules| - from
  {
    if from == |rules| then None
    else if Fires(rules, lower, from) then Some(rules[from].bucket)
    else FirstMatch(rules, lower, from + 1)
  }

  /** The bucket the ladder picks for a lower-cased hypothetical: first match wins. */
  function ChosenBucket(lower: string): (r: Option<Bucket>)
    ensures r.None? <==> forall i :: 0 <= i < |RULES| ==> !Fires(RULES, lower, i)
  {
    FirstMatch(RULES, lower, 0)
  }

  /** The first-match rule list reads as the `if`/`elif` ladder of `heuristic_whatif`. */
  lemma ChosenBucketIsLadder(lower: string)
    ensures ChosenBucket(lower) ==
      if ContainsAny(lower, PAYMENT_KEYS) then Some(Payment)
      else if ContainsAny(lower, TERMINATION_KEYS) then Some(Termination)
      else if ContainsAny(lower, LIABILITY_KEYS) then Some(Liability)
      else if ContainsAny(lower, CONFIDENTIALITY_KEYS) then Some(Confidentiality)
      else if ContainsAny(lower, JURISDICTION_KEYS) then Some(Jurisdiction)
      else if ContainsAny(lower, IP_KEYS) then Some(Ip)
      else None
  {
    var m5 := FirstMatch(RULES, lower, 5);
    assert FirstMatch(RULES, lower, 6) == None;
    assert RULES[5] == Rule(IP_KEYS, Ip);
    assert m5 == if ContainsAny(lower, IP_KEYS) then Some(Ip) else None;
    var m4 := FirstMatch(RULES, lower, 4);
    assert RULES[4] == Rule(JURISDICTION_KEYS, Jurisdiction);
    assert m4 == if ContainsAny(lower, JURISDICTION_KEYS) then Some(Jurisdiction) else m5;
    var m3 := FirstMatch(RULES, lower, 3);
    assert RULES[3] == Rule(CONFIDENTIALITY_KEYS, Confidentiality);
    assert m3 == if ContainsAny(lower, CONFIDENTIALITY_KEYS) then Some(Confidentiality) else m4;
    var m2 := FirstMatch(RULES, lower, 2);
    assert RULES[2] == Rule(LIABILITY_KEYS, Liability);
    assert m2 == if ContainsAny(lower, LIABILITY_KEYS) then Some(Liability) else m3;
    var m1 := FirstMatch(RULES, lower, 1);
    assert RULES[1] == Rule(TERMINATION_KEYS, Termination);
    assert m1 == if ContainsAny(lower, TERMINATION_KEYS) then Some(Termination) else m2;
    assert RULES[0] == Rule(PAYMENT_KEYS, Payment);
    assert FirstMatch(RULES, lower, 0) == if ContainsAny(lower, PAYMENT_KEYS) then Some(Payment) else m1;
  }

  /** `relevant`: the chosen bucket's sentences, or nothing when no keyword group fires. */
  function Relevant(sents: seq<string>, hypo: string): (r: seq<string>)
    ensures |r| <= |sents|
  {
    match ChosenBucket(Lower(hypo))
    case None => []
    case Some(b) => BucketSentences(sents, b)
  }

  /** With no keyword group firing nothing is relevant; otherwise exactly the sentences that match the chosen bucket are. */
  lemma RelevantSentences(sents: seq<string>, hypo: string, s: string)
    ensures ChosenBucket(Lower(hypo)).None? ==> Relevant(sents, hypo) == []
    ensures ChosenBucket(Lower(hypo)).Some? ==>
      (s in Relevant(sents, hypo) <==> s in sents && Matches(s, ChosenBucket(Lower(hypo)).value))
  {
    var c := ChosenBucket(Lower(hypo));
    if c.Some? {
      BucketMembers(sents, c.value, s);
    }
  }

  const FALLBACK := "Based on the current clauses, the hypothetical change may affect the above terms. Review obligations, exceptions, and notice requirements."
  const SNIPPETS_HEADER := "Likely affected clauses (snippets):\n- "
  const BULLET := "\n- "
  const IMPACT_HEADER := "\n\nImpact (heuristic): "
  const IMPACT_TAIL := " could trigger renegotiation duties, require written amendments, or change risk allocation. Check conflict/residual clauses."
  const MAX_SNIPPETS := 5

  /** The analysis text for one hypothetical given its relevant sentences. */
  function Analysis(hypo: string, relevant: seq<string>): (r: string)
    ensures |relevant| > 0 ==> Contains(r, hypo)
  {
    if |relevant| == 0 then FALLBACK
    else
      var snippet := Join(relevant[..if |relevant| < MAX_SNIPPETS then |relevant| else MAX_SNIPPETS], BULLET);
      TemplateQuotes(SNIPPETS_HEADER, snippet, IMPACT_HEADER, hypo, IMPACT_TAIL, "", 0);
      SNIPPETS_HEADER + snippet + IMPACT_HEADER + hypo + IMPACT_TAIL
  }

  /** The answer for one hypothetical. */
  function AnswerFor(sents: seq<string>, hypo: string): WhatIfItem {
    WhatIfItem(hypo, Analysis(hypo, Relevant(sents, hypo)))
  }

  /** What `heuristic_whatif` returns: the answer for each hypothetical, in order. */
  function HeuristicItems(sents: seq<string>, hyps: seq<string>): (items: seq<WhatIfItem>)
    ensures |items| == |hyps|
    ensures forall i :: 0 <= i < |hyps| ==> items[i] == AnswerFor(sents, hyps[i])
    decreases |hyps|
  {
    if |hyps| == 0 then []
    else HeuristicItems(sents, hyps[..|hyps| - 1]) + [AnswerFor(sents, hyps[|hyps| - 1])]
  }

  /** The `if`/`elif` ladder of `heuristic_whatif`: the clauses of the first keyword group that fires. */
  method RelevantClauses(clauses: map<Bucket, seq<string>>, hypo: string, ghost sents: seq<string>)
    returns (relevant: seq<string>)
    requires IsClauseTable(clauses, sents)
    ensures relevant == Relevant(sents, hypo)
  {
    var lower := Lower(hypo);
    ChosenBucketIsLadder(lower);
    relevant := [];
    if ContainsAny(lower, PAYMENT_KEYS) {
      relevant := clauses[Payment];
    } else if ContainsAny(lower, TERMINATION_KEYS) {
      relevant := clauses[Termination];
    } else if ContainsAny(lower, LIABILITY_KEYS) {
      relevant := clauses[Liability];
    } else if ContainsAny(lower, CONFIDENTIALITY_KEYS) {
      relevant := clauses[Confidentiality];
    } else if ContainsAny(lower, JURISDICTION_KEYS) {
      relevant := clauses[Jurisdiction];
    } else if ContainsAny(lower, IP_KEYS) {
      relevant := clauses[Ip];
    }
  }

  /** The body of the `heuristic_whatif` loop: pick the relevant clauses for one hypothetical and write its analysis. */
  method AnalyzeOne(clauses: map<Bucket, seq<string>>, hypo: string, ghost sents: seq<string>) returns (item: WhatIfItem)
    requires IsClauseTable(clauses, sents)
    ensures item == AnswerFor(sents, hypo)
  {
    var relevant := RelevantClauses(clauses, hypo, sents);
    var analysis := FALLBACK;
    if |relevant| > 0 {
      var snippet := Join(relevant[..if |relevant| < MAX_SNIPPETS then |relevant| else MAX_SNIPPETS], BULLET);
      analysis := SNIPPETS_HEADER + snippet + IMPACT_HEADER + hypo + IMPACT_TAIL;
    }
    item := WhatIfItem(hypo, analysis);
  }

  /** One more hypothetical appends its answer. */
  lemma HeuristicItemsSnoc(sents: seq<string>, hyps: seq<string>, n: nat)
    requires n < |hyps|
    ensures HeuristicItems(sents, hyps[..n + 1]) == HeuristicItems(sents, hyps[..n]) + [AnswerFor(sents, hyps[n])]
  {
    assert hyps[..n + 1][..n] == hyps[..n];
  }

  /** `heuristic_whatif`: one item per hypothetical, in order, through the first-match keyword ladder. */
  method HeuristicWhatIf(pieces: seq<string>, hypotheticals: seq<string>) returns (results: seq<WhatIfItem>)
    ensures |results| == |hypotheticals|
    ensures forall i :: 0 <= i < |results| ==> results[i].hypothetical == hypotheticals[i]
    ensures results == HeuristicItems(SentenceSplit(pieces), hypotheticals)
  {
    var clauses := ExtractClauses(pieces);
    ghost var sents := SentenceSplit(pieces);
    results := [];
    for n := 0 to |hypotheticals|
      invariant results == HeuristicItems(sents, hypotheticals[..n])
    {
      var item := AnalyzeOne(clauses, hypotheticals[n], sents);
      HeuristicItemsSnoc(sents, hypotheticals, n);
      results := results + [item];
    }
    assert hypotheticals[..|hypotheticals|] == hypotheticals;
  }

  /** The fallback text is used exactly when no relevant sentence was found. */
  lemma AnalysisIsFallbackIff(hypo: string, relevant: seq<string>)
    ensures Analysis(hypo, relevant) == FALLBACK <==> |relevant| == 0
  {
    if |relevant| > 0 {
      var a := Analysis(hypo, relevant);
      assert a[|a| - 3] == IMPACT_TAIL[|IMPACT_TAIL| - 3] == 'e';
      assert FALLBACK[|FALLBACK| - 3] == 't';
    }
  }

  /** A text `h + snippet + m + hypo + t` quotes `hypo` and whatever the snippet holds. */
  lemma TemplateQuotes(h: string, snippet: string, m: string, hypo: string, t: string, part: string, i: int)
    requires OccursAt(snippet, part, i)
    ensures Contains(h + snippet + m + hypo + t, hypo)
    ensures Contains(h + snippet + m + hypo + t, part)
  {
    var pre := h + snippet + m;
    assert hypo[0..|hypo|] == hypo;
    OccursInContext(pre, hypo, t, hypo, 0);
    ContainsAt(pre + hypo + t, hypo, |pre|);
    OccursInContext(h, snippet, m, part, i);
    OccursInPrefix(pre, hypo, part, |h| + i);
    OccursInPrefix(pre + hypo, t, part, |h| + i);
    ContainsAt(pre + hypo + t, part, |h| + i);
  }

  /** A non-fallback analysis quotes the hypothetical verbatim and each of the first five relevant sentences. */
  lemma AnalysisQuotes(hypo: string, relevant: seq<string>, k: nat)
    requires k < |relevant| && k < MAX_SNIPPETS
    ensures Contains(Analysis(hypo, relevant), hypo)
    ensures Contains(Analysis(hypo, relevant), relevant[k])
  {
    var shown := relevant[..if |relevant| < MAX_SNIPPETS then |relevant| else MAX_SNIPPETS];
    JoinHasParts(shown, BULLET, k);
    var i :| OccursAt(Join(shown, BULLET), shown[k], i);
    TemplateQuotes(SNIPPETS_HEADER, Join(shown, BULLET), IMPACT_HEADER, hypo, IMPACT_TAIL, relevant[k], i);
  }

  /**
   * Every answer of `heuristic_whatif` either is the fallback, when the chosen
   * bucket is empty or no keyword group fires, or quotes the hypothetical and
   * the first sentence of the chosen bucket.
   */
  lemma HeuristicAnswerShape(sents: seq<string>, hypo: string)
    ensures var item := AnswerFor(sents, hypo);
      && item.hypothetical == hypo
      && (item.analysis == FALLBACK <==> Relevant(sents, hypo) == [])
      && (Relevant(sents, hypo) != [] ==>
            Contains(item.analysis, hypo) && Contains(item.analysis, Relevant(sents, hypo)[0]))
  {
    AnalysisIsFallbackIff(hypo, Relevant(sents, hypo));
    if Relevant(sents, hypo) != [] {
      AnalysisQuotes(hypo, Relevant(sents, hypo), 0);
    }
  }

  /** A sentence with a word whose lower-cased form contains one of a bucket's alternatives matches that bucket. */
  lemma WordMatches(pre: string, word: string, post: string, b: Bucket, hint: string)
    requires hint in Hints(b) && Contains(Lower(word), hint)
    ensures Matches(pre + word + post, b)
  {
    LoweredPieceOccurs(pre, word, post, hint);
  }

  /** Matching is by substring, not by whole word: a sentence that mentions "coffee" lands in the payment bucket. */
  lemma CoffeeMatchesPayment(pre: string, post: string)
    ensures Matches(pre + "coffee" + post, Payment)
  {
    var w := "coffee";
    assert Lower(w) == w;
    assert w[3..6] == "fee";
    assert OccursAt(Lower(w), "fee", 3);
    ContainsAt(Lower(w), "fee", 3);
    WordMatches(pre, w, post, Payment, "fee");
  }

  /** A question that mentions "payment" selects the payment bucket. */
  lemma PaymentQuestionPicksPayment(q1: string, q2: string)
    ensures ChosenBucket(Lower(q1 + "payment" + q2)) == Some(Payment)
  {
    assert "payment"[..3] == "pay";
    assert Contains(Lower("payment"), "pay");
    LoweredPieceOccurs(q1, "payment", q2, "pay");
    assert "pay" in PAYMENT_KEYS;
    ChosenBucketIsLadder(Lower(q1 + "payment" + q2));
  }

  /** A sentence that mentions "Fees" matches the payment pattern. */
  lemma FeeSentenceMatchesPayment(f1: string, f2: string)
    ensures Matches(f1 + "Fees" + f2, Payment)
  {
    assert "fees"[..3] == "fee";
    assert Contains(Lower("Fees"), "fee");
    WordMatches(f1, "Fees", f2, Payment, "fee");
  }

  /**
   * A question that mentions "payment", asked of a document whose only sentence
   * mentions "Fees", picks the payment bucket and quotes that sentence.
   */
  lemma PaymentQuestionQuotesFeeSentence(q1: string, q2: string, f1: string, f2: string)
    requires IsStripped(f1 + "Fees" + f2)
    ensures var hypo, fee := q1 + "payment" + q2, f1 + "Fees" + f2;
      && SentenceSplit([fee]) == [fee]
      && ChosenBucket(Lower(hypo)) == Some(Payment)
      && Relevant([fee], hypo) == [fee]
      && Contains(AnswerFor([fee], hypo).analysis, fee)
  {
    var hypo, fee := q1 + "payment" + q2, f1 + "Fees" + f2;
    StrippedIsFixed(fee);
    PaymentQuestionPicksPayment(q1, q2);
    FeeSentenceMatchesPayment(f1, f2);
    assert BucketSentences([fee], Payment) == [fee];
    AnalysisQuotes(hypo, [fee], 0);
  }

  /**
   * In a document whose sentences mention "terminate", "Confidential" and
   * "Governing law" in turn, each sentence lands in its own bucket.
   */
  lemma ThreeClauseDocument(a1: string, a2: string, b1: string, b2: string, c1: string, c2: string)
    ensures var s1, s2, s3 := a1 + "terminate" + a2, b1 + "Confidential" + b2, c1 + "Governing law" + c2;
      var sents := [s1, s2, s3];
      && s1 in BucketSentences(sents, Termination)
      && s2 in BucketSentences(sents, Confidentiality)
      && s3 in BucketSentences(sents, Jurisdiction)
  {
    var s1, s2, s3 := a1 + "terminate" + a2, b1 + "Confidential" + b2, c1 + "Governing law" + c2;
    var sents := [s1, s2, s3];
    assert "terminate"[..8] == "terminat";
    assert Contains(Lower("terminate"), "terminat");
    WordMatches(a1, "terminate", a2, Termination, "terminat");
    assert Contains(Lower("Confidential"), "confidential");
    WordMatches(b1, "Confidential", b2, Confidentiality, "confidential");
    assert Contains(Lower("Governing law"), "governing law");
    WordMatches(c1, "Governing law", c2, Jurisdiction, "governing law");
    BucketMembers(sents, Termination, s1);
    BucketMembers(sents, Confidentiality, s2);
    BucketMembers(sents, Jurisdiction, s3);
  }

  /** A bucket is empty exactly when no sentence of the document matches its pattern. */
  lemma BucketEmptyIff(sents: seq<string>, b: Bucket)
    ensures BucketSentences(sents, b) == [] <==> forall s :: s in sents ==> !Matches(s, b)
  {
    var r := BucketSentences(sents, b);
    forall s | s in sents ensures s in r <==> Matches(s, b) {
      BucketMembers(sents, b, s);
    }
    if r != [] {
      BucketMembers(sents, b, r[0]);
    }
  }

  /**
   * Word-level evidence that no payment alternative occurs in words joined by
   * single spaces: for each alternative, two of its characters that no word at
   * least as long holds both of. "fee" is tested from the second word on, since
   * a first word such as "confidential" holds all its characters; the lemma
   * about it asks for that word to lack "fee" outright.
   */
  predicate PaymentWordsFail(lws: seq<string>) {
    && WordsFail(lws, "payment", 0, 0, 0)
    && |lws| > 1 && WordsFail(lws, "fee", 0, 1, 1)
    && WordsFail(lws, "compensation", 0, 2, 0)
    && WordsFail(lws, "invoice", 2, 5, 0)
    && WordsFail(lws, "amount", 0, 3, 0)
    && WordsFail(lws, "consideration", 0, 0, 0)
    && WordsFail(lws, "price", 0, 0, 0)
    && WordsFail(lws, "remuneration", 0, 0, 0)
  }

  /** The same evidence for liability; a spaced alternative is tested by its first word. */
  predicate LiabilityWordsFail(lws: seq<string>) {
    && WordsFail(lws, "liabilit", 0, 3, 0)
    && WordsFail(lws, "indemnif", 2, 4, 0)
    && WordsFail(lws, "damages", 0, 2, 0)
    && WordsFail(lws, "hold", 0, 1, 0)
    && WordsFail(lws, "limitation", 0, 2, 0)
    && WordsFail(lws, "cap", 0, 2, 0)
  }

  /** The same evidence for ip, testing "licence" from the second word on. */
  predicate IpWordsFail(lws: seq<string>) {
    && WordsFail(lws, "intellectual", 0, 9, 0)
    && WordsFail(lws, "ip", 0, 1, 0)
    && WordsFail(lws, "license", 4, 5, 0)
    && |lws| > 1 && WordsFail(lws, "licence", 0, 4, 1)
    && WordsFail(lws, "ownership", 0, 1, 0)
    && WordsFail(lws, "assign", 0, 1, 0)
  }

  /** Words that fail the payment test, the first of them lacking "fee", form a sentence no payment alternative occurs in. */
  lemma PaymentMissed(lws: seq<string>)
    requires PaymentWordsFail(lws) && !Contains(lws[0], "fee")
    ensures !ContainsAny(Join(lws, " "), Hints(Payment))
  {
    assert lws[0..] == lws;
    WordsMiss(lws, "payment", 0, 0, 0);
    FirstWordAbsent(lws, "fee", 0, 1);
    WordsMiss(lws, "compensation", 0, 2, 0);
    WordsMiss(lws, "invoice", 2, 5, 0);
    WordsMiss(lws, "amount", 0, 3, 0);
    WordsMiss(lws, "consideration", 0, 0, 0);
    WordsMiss(lws, "price", 0, 0, 0);
    WordsMiss(lws, "remuneration", 0, 0, 0);
  }

  /** Words that fail the liability test form a sentence no liability alternative occurs in. */
  lemma LiabilityMissed(lws: seq<string>)
    requires LiabilityWordsFail(lws)
    ensures !ContainsAny(Join(lws, " "), Hints(Liability))
  {
    var l := Join(lws, " ");
    assert lws[0..] == lws;
    WordsMiss(lws, "liabilit", 0, 3, 0);
    WordsMiss(lws, "indemnif", 2, 4, 0);
    WordsMiss(lws, "damages", 0, 2, 0);
    WordsMiss(lws, "hold", 0, 1, 0);
    assert OccursAt("hold harmless", "hold", 0);
    AbsentInfixAbsent(l, "hold harmless", "hold", 0);
    WordsMiss(lws, "limitation", 0, 2, 0);
    assert OccursAt("limitation of liability", "limitation", 0);
    AbsentInfixAbsent(l, "limitation of liability", "limitation", 0);
    WordsMiss(lws, "cap", 0, 2, 0);
  }

  /** The spaced ip alternatives and "license" are absent from words that fail the ip test. */
  lemma IpLeadingAbsent(lws: seq<string>)
    requires IpWordsFail(lws)
    ensures var l := Join(lws, " ");
      !Contains(l, "intellectual property") && !Contains(l, "ip rights") && !Contains(l, "license")
  {
    var l := Join(lws, " ");
    assert lws[0..] == lws;
    WordsMiss(lws, "intellectual", 0, 9, 0);
    assert OccursAt("intellectual property", "intellectual", 0);
    AbsentInfixAbsent(l, "intellectual property", "intellectual", 0);
    WordsMiss(lws, "ip", 0, 1, 0);
    assert OccursAt("ip rights", "ip", 0);
    AbsentInfixAbsent(l, "ip rights", "ip", 0);
    WordsMiss(lws, "license", 4, 5, 0);
  }

  /** The other ip alternatives are absent from words that fail the ip test, the first lacking "licence". */
  lemma IpTrailingAbsent(lws: seq<string>)
    requires IpWordsFail(lws) && !Contains(lws[0], "licence")
    ensures var l := Join(lws, " ");
      !Contains(l, "licence") && !Contains(l, "ownership") && !Contains(l, "assign")
  {
    assert lws[0..] == lws;
    FirstWordAbsent(lws, "licence", 0, 4);
    WordsMiss(lws, "ownership", 0, 1, 0);
    WordsMiss(lws, "assign", 0, 1, 0);
  }

  /** Words that fail the ip test, the first of them lacking "licence", form a sentence no ip alternative occurs in. */
  lemma IpMissed(lws: seq<string>)
    requires IpWordsFail(lws) && !Contains(lws[0], "licence")
    ensures !ContainsAny(Join(lws, " "), Hints(Ip))
  {
    IpLeadingAbsent(lws);
    IpTrailingAbsent(lws);
  }
}
