/**
 * The frequency-based extractive summarizer of app/services/summarizer.py:
 * sentence clean-up, the lexical normalizer, the word-frequency table and
 * the per-sentence score. Ranking and selection live in module Ranking.
 */
module Summarizer {
  import opened Strings
  import opened Ranking

  /**
   * `sentence_split`: NLTK's `sent_tokenize` is not modelled; `pieces` is its
   * output. What the function itself does is strip every piece and drop the
   * pieces that are blank.
   */
  function SentenceSplit(pieces: seq<string>): (sents: seq<string>)
    ensures |sents| <= |pieces|
    ensures forall i :: 0 <= i < |sents| ==> sents[i] != "" && IsStripped(sents[i])
    decreases |pieces|
  {
    if |pieces| == 0 then []
    else
      var s := Strip(pieces[0]);
      var rest := SentenceSplit(pieces[1..]);
      if s != "" then [s] + rest else rest
  }

  /** A sentence comes out of `sentence_split` exactly when it is a non-blank piece, stripped. */
  lemma {:induction false} SentenceSplitMembers(pieces: seq<string>, s: string)
    ensures s in SentenceSplit(pieces) <==> s != "" && exists i :: 0 <= i < |pieces| && s == Strip(pieces[i])
    decreases |pieces|
  {
    if |pieces| > 0 {
      SentenceSplitMembers(pieces[1..], s);
      if exists i :: 0 <= i < |pieces[1..]| && s == Strip(pieces[1..][i]) {
        var i :| 0 <= i < |pieces[1..]| && s == Strip(pieces[1..][i]);
        assert s == Strip(pieces[i + 1]);
      }
      if i :| 0 <= i < |pieces| && s == Strip(pieces[i]) {
        if i > 0 { assert s == Strip(pieces[1..][i - 1]); }
      }
    }
  }

  /** `sentence_split` of two runs of pieces is the split of the first followed by the split of the second. */
  lemma {:induction false} SentenceSplitConcat(a: seq<string>, b: seq<string>)
    ensures SentenceSplit(a + b) == SentenceSplit(a) + SentenceSplit(b)
    decreases |a|
  {
    if |a| == 0 {
      assert a + b == b;
    } else {
      assert (a + b)[0] == a[0] && (a + b)[1..] == a[1..] + b;
      SentenceSplitConcat(a[1..], b);
    }
  }

  /** Splitting already split sentences changes nothing. */
  lemma {:induction false} SentenceSplitIdempotent(pieces: seq<string>)
    ensures SentenceSplit(SentenceSplit(pieces)) == SentenceSplit(pieces)
    decreases |pieces|
  {
    if |pieces| > 0 {
      var s := Strip(pieces[0]);
      var rest := SentenceSplit(pieces[1..]);
      SentenceSplitIdempotent(pieces[1..]);
      if s != "" {
        StripIdempotent(pieces[0]);
        assert ([s] + rest)[1..] == rest;
      }
    }
  }

  /** `STOPWORDS`, the fixed set of English function words. */
  const STOPWORDS: set<string> := {
    "a", "an", "the", "and", "or", "but", "if", "while", "with", "without", "to", "from",
    "by", "for", "of", "on", "in", "into", "at", "over", "under", "above", "below", "is",
    "are", "was", "were", "be", "being", "been", "am", "do", "does", "did", "doing", "have",
    "has", "had", "having", "this", "that", "those", "these", "as", "it", "its", "their",
    "his", "her", "hers", "them", "they", "you", "your", "i", "me", "my", "we", "our", "us",
    "not", "no", "nor", "can", "could", "should", "would", "may", "might", "will", "shall",
    "must"
  }

  /** A character of the token class `[A-Za-z']`. */
  predicate IsWordChar(c: char) {
    'a' <= c <= 'z' || 'A' <= c <= 'Z' || c == '\''
  }

  predicate IsWord(t: string) {
    forall i :: 0 <= i < |t| ==> IsWordChar(t[i])
  }

  /** Every character is a lower-case ASCII letter or an apostrophe. */
  predicate IsLowerWord(t: string) {
    forall i :: 0 <= i < |t| ==> 'a' <= t[i] <= 'z' || t[i] == '\''
  }

  /** The length of the run of word characters at the start of `s`. */
  function RunLength(s: string): (n: nat)
    ensures n <= |s|
    ensures forall i :: 0 <= i < n ==> IsWordChar(s[i])
    ensures n < |s| ==> !IsWordChar(s[n])
  {
    if |s| > 0 && IsWordChar(s[0]) then 1 + RunLength(s[1..]) else 0
  }

  /** The run at the start of `s` is the one that ends where the word characters stop. */
  lemma {:induction false} RunLengthIs(s: string, m: nat)
    requires m <= |s| && (forall i :: 0 <= i < m ==> IsWordChar(s[i]))
    requires m < |s| ==> !IsWordChar(s[m])
    ensures RunLength(s) == m
    decreases m
  {
    if m > 0 {
      assert IsWordChar(s[0]);
      RunLengthIs(s[1..], m - 1);
    }
  }

  /** `re.findall(r"[A-Za-z']+", s)`: the maximal runs of word characters, left to right. */
  function Tokens(s: string): (ts: seq<string>)
    ensures forall k :: 0 <= k < |ts| ==> ts[k] != "" && IsWord(ts[k])
    decreases |s|
  {
    if |s| == 0 then []
    else if !IsWordChar(s[0]) then Tokens(s[1..])
    else
      var n := RunLength(s);
      [s[..n]] + Tokens(s[n..])
  }

  /** A token survives normalization: longer than two characters and not a stopword. */
  predicate Keep(t: string) {
    |t| > 2 && t !in STOPWORDS
  }

  /** The list comprehension of `normalize`: keep the tokens that pass `Keep`, in order. */
  function KeepContent(ts: seq<string>): (r: seq<string>)
    ensures |r| <= |ts|
    ensures forall k :: 0 <= k < |r| ==> Keep(r[k]) && r[k] in ts
    decreases |ts|
  {
    if |ts| == 0 then []
    else if Keep(ts[0]) then [ts[0]] + KeepContent(ts[1..])
    else KeepContent(ts[1..])
  }

  /** `normalize`: the content words of `text`, lower-cased, in order. */
  function Normalize(text: string): (r: seq<string>)
    ensures forall k :: 0 <= k < |r| ==> |r[k]| > 2 && r[k] !in STOPWORDS && IsLowerWord(r[k])
  {
    var ts := Tokens(Lower(text));
    assert forall k :: 0 <= k < |ts| ==> IsLowerWord(ts[k]) by {
      forall k | 0 <= k < |ts| ensures IsLowerWord(ts[k]) { TokensOfLowered(Lower(text), ts[k]); }
    }
    KeepContent(ts)
  }

  /** No character of `s` is an upper-case ASCII letter. */
  predicate NoUpper(s: string) {
    forall i :: 0 <= i < |s| ==> !('A' <= s[i] <= 'Z')
  }

  /** Tokens of text without upper-case letters are lower-case words. */
  lemma {:induction false} TokensOfLowered(s: string, t: string)
    requires NoUpper(s) && t in Tokens(s)
    ensures IsLowerWord(t)
    decreases |s|
  {
    if |s| > 0 {
      if !IsWordChar(s[0]) {
        TokensOfLowered(s[1..], t);
      } else {
        var n := RunLength(s);
        if t != s[..n] { TokensOfLowered(s[n..], t); }
      }
    }
  }

  /** A token is normalized output exactly when it is a token of the lowered text that `Keep` accepts. */
  lemma {:induction false} KeepContentMembers(ts: seq<string>, t: string)
    ensures t in KeepContent(ts) <==> t in ts && Keep(t)
    decreases |ts|
  {
    if |ts| > 0 {
      KeepContentMembers(ts[1..], t);
      assert ts == [ts[0]] + ts[1..];
    }
  }

  /**
   * The comprehension of `normalize` keeps order and repeats: filtering two
   * runs of tokens is filtering the first, then the second.
   */
  lemma {:induction false} KeepContentConcat(a: seq<string>, b: seq<string>)
    ensures KeepContent(a + b) == KeepContent(a) + KeepContent(b)
    decreases |a|
  {
    if |a| == 0 {
      assert a + b == b;
    } else {
      var ab := a + b;
      assert ab[0] == a[0] && ab[1..] == a[1..] + b;
      KeepContentConcat(a[1..], b);
      var tail := KeepContent(a[1..]) + KeepContent(b);
      assert KeepContent(ab[1..]) == tail;
      if Keep(a[0]) {
        assert KeepContent(ab) == [a[0]] + tail;
        assert KeepContent(a) == [a[0]] + KeepContent(a[1..]);
        assert [a[0]] + tail == ([a[0]] + KeepContent(a[1..])) + KeepContent(b);
      } else {
        assert KeepContent(ab) == tail;
        assert KeepContent(a) == KeepContent(a[1..]);
      }
    }
  }

  /** One token stays exactly when `Keep` accepts it. */
  lemma KeepContentSingle(t: string)
    ensures KeepContent([t]) == if Keep(t) then [t] else []
  {
    assert [t][1..] == [];
  }

  lemma NormalizeMembers(text: string, t: string)
    ensures t in Normalize(text) <==> t in Tokens(Lower(text)) && |t| > 2 && t !in STOPWORDS
  {
    KeepContentMembers(Tokens(Lower(text)), t);
  }

  /**
   * A character outside `[A-Za-z']` splits `normalize`: the content words of
   * the text before it, in order and with their repeats, then those after it.
   */
  lemma NormalizeSplit(a: string, c: char, b: string)
    requires !IsWordChar(c)
    ensures Normalize(a + [c] + b) == Normalize(a) + Normalize(b)
  {
    LowerConcat(a + [c], b);
    LowerConcat(a, [c]);
    assert Lower([c]) == [c];
    TokensSplit(Lower(a), c, Lower(b));
    KeepContentConcat(Tokens(Lower(a)), Tokens(Lower(b)));
  }

  /** A single word normalizes to its lower-cased form when that is kept, and to nothing otherwise. */
  lemma NormalizeWord(w: string)
    requires w != "" && IsWord(w)
    ensures Normalize(w) == if Keep(Lower(w)) then [Lower(w)] else []
  {
    var lw := Lower(w);
    assert IsWord(lw);
    TokensOfWord(lw, "");
    assert lw + "" == lw;
    assert Tokens("") == [];
    KeepContentSingle(lw);
  }

  /** A non-empty word is its own single token. */
  lemma {:induction false} TokensOfWord(w: string, rest: string)
    requires w != "" && IsWord(w)
    requires rest == "" || !IsWordChar(rest[0])
    ensures Tokens(w + rest) == [w] + Tokens(rest)
  {
    var s := w + rest;
    var n := RunLength(s);
    assert forall i :: 0 <= i < |w| ==> s[i] == w[i];
    assert |w| < |s| ==> s[|w|] == rest[0];
    assert n == |w|;
    assert s[..n] == w;
    assert s[n..] == rest;
  }

  /** A string without word characters has no tokens. */
  lemma {:induction false} TokensOfNonWord(s: string)
    requires forall i :: 0 <= i < |s| ==> !IsWordChar(s[i])
    ensures Tokens(s) == []
    decreases |s|
  {
    if |s| > 0 {
      TokensOfNonWord(s[1..]);
    }
  }

  /** A non-word character separates tokens: the tokens on either side of it, in order. */
  lemma {:induction false} TokensSplit(a: string, c: char, b: string)
    requires !IsWordChar(c)
    ensures Tokens(a + [c] + b) == Tokens(a) + Tokens(b)
    decreases |a|
  {
    var s := a + [c] + b;
    if |a| == 0 {
      assert s[0] == c && s[1..] == b;
    } else if !IsWordChar(a[0]) {
      assert s[0] == a[0] && s[1..] == a[1..] + [c] + b;
      TokensSplit(a[1..], c, b);
    } else {
      var m := RunLength(a);
      assert forall i :: 0 <= i < |a| ==> s[i] == a[i];
      assert s[|a|] == c;
      RunLengthIs(s, m);
      var n := RunLength(s);
      assert s[..n] == a[..m];
      assert s[n..] == a[m..] + [c] + b;
      TokensSplit(a[m..], c, b);
    }
  }

  /** Tokenizing words joined by single spaces gives the words back. */
  lemma {:induction false} TokensOfJoin(ws: seq<string>)
    requires forall k :: 0 <= k < |ws| ==> ws[k] != "" && IsWord(ws[k])
    ensures Tokens(Join(ws, " ")) == ws
    decreases |ws|
  {
    if |ws| == 1 {
      TokensOfWord(ws[0], "");
      assert ws[0] + "" == ws[0];
    } else if |ws| > 1 {
      var rest := Join(ws[1..], " ");
      TokensOfJoin(ws[1..]);
      TokensOfWord(ws[0], " " + rest);
      assert (" " + rest)[1..] == rest;
      assert ws[0] + " " + rest == ws[0] + (" " + rest);
      assert ws == [ws[0]] + ws[1..];
    }
  }

  /** Joining lower-case words with spaces introduces no upper-case letter. */
  lemma {:induction false} JoinNoUpper(ws: seq<string>)
    requires forall k :: 0 <= k < |ws| ==> IsLowerWord(ws[k])
    ensures NoUpper(Join(ws, " "))
    decreases |ws|
  {
    if |ws| > 1 {
      JoinNoUpper(ws[1..]);
      var rest := Join(ws[1..], " ");
      var s := ws[0] + " " + rest;
      forall i | 0 <= i < |s| ensures !('A' <= s[i] <= 'Z') {
        if i < |ws[0]| { assert s[i] == ws[0][i]; }
        else if i > |ws[0]| { assert s[i] == rest[i - |ws[0]| - 1]; }
      }
    }
  }

  /** Keeping content words twice is keeping them once. */
  lemma {:induction false} KeepContentOfKept(ts: seq<string>)
    requires forall k :: 0 <= k < |ts| ==> Keep(ts[k])
    ensures KeepContent(ts) == ts
    decreases |ts|
  {
    if |ts| > 0 {
      KeepContentOfKept(ts[1..]);
      assert ts == [ts[0]] + ts[1..];
    }
  }

  /** Normalizing the space-joined output of `normalize` reproduces it. */
  lemma NormalizeIdempotent(text: string)
    ensures Normalize(Join(Normalize(text), " ")) == Normalize(text)
  {
    var ws := Normalize(text);
    var joined := Join(ws, " ");
    JoinNoUpper(ws);
    assert Lower(joined) == joined;
    TokensOfJoin(ws);
    KeepContentOfKept(ws);
  }

  /** All normalized words of the sentences, in document order (what the Counter is fed). */
  function AllWords(sents: seq<string>): (ws: seq<string>)
    decreases |sents|
  {
    if |sents| == 0 then [] else AllWords(sents[..|sents| - 1]) + Normalize(sents[|sents| - 1])
  }

  /** `freq` is the Counter of multiset `m`: every key present with its multiplicity, and no other key. */
  ghost predicate Counts(freq: map<string, nat>, m: multiset<string>) {
    (forall w :: w in freq <==> w in m) && (forall w :: w in freq ==> freq[w] == m[w])
  }

  /** The frequency table of the whole document. */
  function Frequencies(sents: seq<string>): (freq: map<string, nat>)
    ensures Counts(freq, multiset(AllWords(sents)))
  {
    var m := multiset(AllWords(sents));
    map w | w in m :: m[w]
  }

  /** A Counter is determined by what it counts. */
  lemma CountsUnique(f: map<string, nat>, g: map<string, nat>, m: multiset<string>)
    requires Counts(f, m) && Counts(g, m)
    ensures f == g
  {
    assert f.Keys == g.Keys;
  }

  /** An empty table means no sentence contributed a single content word. */
  lemma {:induction false} FrequenciesEmpty(sents: seq<string>)
    ensures |Frequencies(sents)| == 0 <==> forall i :: 0 <= i < |sents| ==> Normalize(sents[i]) == []
    decreases |sents|
  {
    var m := multiset(AllWords(sents));
    assert |Frequencies(sents)| == 0 <==> m == multiset{};
    AllWordsEmpty(sents);
  }

  lemma {:induction false} AllWordsEmpty(sents: seq<string>)
    ensures AllWords(sents) == [] <==> forall i :: 0 <= i < |sents| ==> Normalize(sents[i]) == []
    decreases |sents|
  {
    if |sents| > 0 {
      var init := sents[..|sents| - 1];
      AllWordsEmpty(init);
      assert forall i :: 0 <= i < |init| ==> init[i] == sents[i];
    }
  }

  /** A Counter lookup: `word_freq[w]`, zero for a missing key. */
  function CountOf(freq: map<string, nat>, w: string): nat {
    if w in freq then freq[w] else 0
  }

  /** `Counter.update(words)`: one more for every occurrence of every word. */
  method Update(freq: map<string, nat>, words: seq<string>, ghost m: multiset<string>)
    returns (freq': map<string, nat>)
    requires Counts(freq, m)
    ensures Counts(freq', m + multiset(words))
  {
    freq' := freq;
    for j := 0 to |words|
      invariant Counts(freq', m + multiset(words[..j]))
    {
      var w := words[j];
      CountsAdd(freq', m + multiset(words[..j]), w);
      freq' := freq'[w := CountOf(freq', w) + 1];
      assert words[..j + 1] == words[..j] + [w];
    }
    assert words[..|words|] == words;
  }

  /** The loop that fills `word_freq` from the normalized words of every sentence. */
  method CountWords(sents: seq<string>) returns (freq: map<string, nat>)
    ensures Counts(freq, multiset(AllWords(sents)))
    ensures freq == Frequencies(sents)
  {
    freq := map[];
    for i := 0 to |sents|
      invariant Counts(freq, multiset(AllWords(sents[..i])))
    {
      var words := Normalize(sents[i]);
      freq := Update(freq, words, multiset(AllWords(sents[..i])));
      assert sents[..i + 1][..i] == sents[..i];
      assert AllWords(sents[..i + 1]) == AllWords(sents[..i]) + words;
    }
    assert sents[..|sents|] == sents;
    CountsUnique(freq, Frequencies(sents), multiset(AllWords(sents)));
  }

  /** One more occurrence of `w` is one more in its count. */
  lemma CountsAdd(freq: map<string, nat>, m: multiset<string>, w: string)
    requires Counts(freq, m)
    ensures Counts(freq[w := CountOf(freq, w) + 1], m + multiset{w})
  {
  }

  /** `sum(word_freq[w] for w in words)`. */
  function SumCounts(freq: map<string, nat>, words: seq<string>): nat
    decreases |words|
  {
    if |words| == 0 then 0 else CountOf(freq, words[0]) + SumCounts(freq, words[1..])
  }

  function MaxReal(a: real, b: real): real {
    if a >= b then a else b
  }

  /**
   * The score of the sentence at `idx` (of `n`) with normalized words `words`:
   * mean word frequency, times the position bonus `1 + 0.1 * exp(-idx / max(1, n / 10))`.
   * `exp` stands for `math.exp`; exact reals stand for floats.
   */
  function Score(freq: map<string, nat>, words: seq<string>, idx: nat, n: nat, exp: real -> real): (r: real)
    ensures SumCounts(freq, words) == 0 ==> r == 0.0
    ensures exp(-(idx as real) / MaxReal(1.0, n as real / 10.0)) >= 0.0 ==> r >= 0.0
  {
    var base := SumCounts(freq, words) as real / (|words| as real + 0.000001);
    base * (1.0 + 0.1 * exp(-(idx as real) / MaxReal(1.0, n as real / 10.0)))
  }

  /** The `scores` list: one `(score, idx, s)` entry per sentence, in document order. */
  function Scores(sents: seq<string>, freq: map<string, nat>, exp: real -> real): (xs: seq<Scored>)
    ensures |xs| == |sents| && Indexed(xs)
    ensures forall i :: 0 <= i < |sents| ==> xs[i].sentence == sents[i]
  {
    seq(|sents|, i requires 0 <= i < |sents| =>
      Scored(Score(freq, Normalize(sents[i]), i, |sents|, exp), i, sents[i]))
  }

  /** The sentences of a list of entries: `[s for _, _, s in xs]`. */
  function Sentences(xs: seq<Scored>): (r: seq<string>)
    ensures |r| == |xs| && forall j :: 0 <= j < |xs| ==> r[j] == xs[j].sentence
  {
    seq(|xs|, j requires 0 <= j < |xs| => xs[j].sentence)
  }

  /**
   * The value of `extractive_summary(text, k)`, `pieces` being NLTK's
   * sentences of `text` and `exp` standing for `math.exp`.
   */
  function Summary(pieces: seq<string>, k: nat, exp: real -> real): (r: string)
    ensures r == "" <==> |SentenceSplit(pieces)| == 0 || k == 0
  {
    var sents := SentenceSplit(pieces);
    if |sents| == 0 then ""
    else
      var freq := Frequencies(sents);
      if |freq| == 0 then Join(sents[..Min(k, |sents|)], " ")
      else
        var xs := Scores(sents, freq, exp);
        EmittedSentences(sents, xs, k);
        Join(Sentences(Emitted(xs, k)), " ")
  }

  /** The loop over `enumerate(sents)` that appends one scored entry per sentence. */
  method ScoreSentences(sents: seq<string>, wordFreq: map<string, nat>, exp: real -> real)
    returns (scores: seq<Scored>)
    ensures scores == Scores(sents, wordFreq, exp)
  {
    scores := [];
    for idx := 0 to |sents|
      invariant |scores| == idx
      invariant forall i :: 0 <= i < idx ==>
        scores[i] == Scored(Score(wordFreq, Normalize(sents[i]), i, |sents|, exp), i, sents[i])
    {
      var words := Normalize(sents[idx]);
      var score := Score(wordFreq, words, idx, |sents|, exp);
      scores := scores + [Scored(score, idx, sents[idx])];
    }
  }

  /** The emitted sentences are the sentences at the selected indices. */
  lemma EmittedSentences(sents: seq<string>, xs: seq<Scored>, k: nat)
    requires Indexed(xs) && |xs| == |sents|
    requires forall i :: 0 <= i < |sents| ==> xs[i].sentence == sents[i]
    ensures var sel := SelectedIndices(xs, k);
      && (forall j :: 0 <= j < |sel| ==> sel[j] < |sents|)
      && Sentences(Emitted(xs, k)) == seq(|sel|, j requires 0 <= j < |sel| => sents[sel[j]])
  {
    EmittedAreOriginal(xs, k);
  }

  /** With content words present the summary joins the emitted sentences. */
  lemma SummaryWithContentWords(pieces: seq<string>, k: nat, exp: real -> real)
    requires var sents := SentenceSplit(pieces);
      exists i :: 0 <= i < |sents| && Normalize(sents[i]) != []
    ensures var sents := SentenceSplit(pieces);
      Summary(pieces, k, exp) == Join(Sentences(Emitted(Scores(sents, Frequencies(sents), exp), k)), " ")
  {
    FrequenciesEmpty(SentenceSplit(pieces));
  }

  /** `extractive_summary`: count words, score every sentence, keep the top `k`, re-emit them in order. */
  method ExtractiveSummary(pieces: seq<string>, maxSentences: nat, exp: real -> real) returns (summary: string)
    ensures summary == Summary(pieces, maxSentences, exp)
  {
    var sents := SentenceSplit(pieces);
    if |sents| == 0 {
      return "";
    }
    var wordFreq := CountWords(sents);
    if |wordFreq| == 0 {
      return Join(sents[..Min(maxSentences, |sents|)], " ");
    }
    var scores := ScoreSentences(sents, wordFreq, exp);
    var top := SortByScore(scores)[..Min(maxSentences, |scores|)];
    var topSorted := SortByIdx(top);
    summary := Join(Sentences(topSorted), " ");
  }

  /** A text without sentences summarizes to the empty string. */
  lemma SummaryOfNoSentences(pieces: seq<string>, k: nat, exp: real -> real)
    requires SentenceSplit(pieces) == []
    ensures Summary(pieces, k, exp) == ""
  {
  }

  /** Without a single content word the summary is the first `k` sentences. */
  lemma SummaryWithoutContentWords(pieces: seq<string>, k: nat, exp: real -> real)
    requires var sents := SentenceSplit(pieces);
      |sents| > 0 && forall i :: 0 <= i < |sents| ==> Normalize(sents[i]) == []
    ensures var sents := SentenceSplit(pieces);
      Summary(pieces, k, exp) == Join(sents[..Min(k, |sents|)], " ")
  {
    FrequenciesEmpty(SentenceSplit(pieces));
  }

  /**
   * `summary` is the single-space join of `min(k, n)` distinct sentences in
   * ascending document order; each kept sentence scores at least as much as
   * every sentence left out, and of two equal scores the earlier is kept.
   */
  ghost predicate JoinsTopSentences(sents: seq<string>, xs: seq<Scored>, k: nat, summary: string)
    requires |xs| == |sents|
  {
    var sel := SelectedIndices(xs, k);
    && |sel| == Min(k, |sents|)
    && (forall j :: 0 <= j < |sel| ==> sel[j] < |sents|)
    && (forall j1, j2 :: 0 <= j1 < j2 < |sel| ==> sel[j1] < sel[j2])
    && summary == Join(seq(|sel|, j requires 0 <= j < |sel| => sents[sel[j]]), " ")
    && (forall j, i :: 0 <= j < |sel| && 0 <= i < |sents| && i !in sel ==>
          xs[sel[j]].score >= xs[i].score && (xs[sel[j]].score == xs[i].score ==> sel[j] < i))
  }

  /** Emitting the top entries of any index-ordered score list joins the top sentences. */
  lemma EmittedJoinsTopSentences(sents: seq<string>, xs: seq<Scored>, k: nat)
    requires Indexed(xs) && |xs| == |sents|
    requires forall i :: 0 <= i < |sents| ==> xs[i].sentence == sents[i]
    ensures JoinsTopSentences(sents, xs, k, Join(Sentences(Emitted(xs, k)), " "))
  {
    SelectionProperties(xs, k);
    EmittedSentences(sents, xs, k);
  }

  /** With content words present, the summary joins the top-scoring sentences in document order. */
  lemma SummarySelectsTopSentences(pieces: seq<string>, k: nat, exp: real -> real)
    requires var sents := SentenceSplit(pieces);
      exists i :: 0 <= i < |sents| && Normalize(sents[i]) != []
    ensures var sents := SentenceSplit(pieces);
      JoinsTopSentences(sents, Scores(sents, Frequencies(sents), exp), k, Summary(pieces, k, exp))
  {
    var sents := SentenceSplit(pieces);
    SummaryWithContentWords(pieces, k, exp);
    EmittedJoinsTopSentences(sents, Scores(sents, Frequencies(sents), exp), k);
  }

  /** A document of at most `k` sentences summarizes to all of them, in order. */
  lemma SummaryOfShortDocument(pieces: seq<string>, k: nat, exp: real -> real)
    requires |SentenceSplit(pieces)| <= k
    ensures Summary(pieces, k, exp) == Join(SentenceSplit(pieces), " ")
  {
    var sents := SentenceSplit(pieces);
    if |sents| > 0 {
      assert sents[..Min(k, |sents|)] == sents;
      var freq := Frequencies(sents);
      if |freq| > 0 {
        var xs := Scores(sents, freq, exp);
        AllSelectedWhenFew(xs, k);
        assert Sentences(xs) == sents;
      }
    }
  }
}
