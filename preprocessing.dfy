/**
 * The offline preparation steps and the hybrid suggestion of preprocessamento.py:
 * the rank-score frequency table built from the lexicon, the vocabulary and its
 * trie, the post-processing of generated continuations, and the merge of trie
 * hits with generated words.
 */
module Preprocessing {
  import opened Wrappers
  import opened Strings
  import opened Seqs
  import opened Ordering
  import opened Tries

  // ---------------------------------------------------------------------------
  // Frequency table (baixar_e_preparar_frequencia)
  // ---------------------------------------------------------------------------

  /** The word a lexicon line offers: its first tab-separated column, stripped and lower-cased. */
  function LexiconWord(line: String): String {
    Lower(Strip(FirstField(Strip(line))))
  }

  /** A line contributes when it is not blank and its word is alphabetic. */
  predicate AcceptsLine(line: String) {
    Strip(line) != [] && IsAlpha(LexiconWord(line))
  }

  /** The word a line contributes, or `None` for a blank line or a non-alphabetic word. */
  function Offered(line: String): Option<String> {
    if AcceptsLine(line) then Some(LexiconWord(line)) else None
  }

  /** An offered word is alphabetic and already in lower case. */
  lemma OfferedIsLowerAlpha(line: String)
    ensures Offered(line).Some? ==> IsAlpha(Offered(line).value)
    ensures Offered(line).Some? ==> Lower(Offered(line).value) == Offered(line).value
  {
    LowerIdempotent(Strip(FirstField(Strip(line))));
  }

  function OfferedWords(lines: seq<String>): (os: seq<Option<String>>)
    ensures |os| == |lines|
    ensures forall i :: 0 <= i < |lines| ==> os[i] == Offered(lines[i])
  {
    seq(|lines|, i requires 0 <= i < |lines| => Offered(lines[i]))
  }

  /** The table after the offered words: a new word scores 1 / (1 + entries already present). */
  function TableOf(offered: seq<Option<String>>): map<String, real> {
    if offered == [] then map[]
    else
      var t := TableOf(offered[..|offered| - 1]);
      match offered[|offered| - 1]
      case Some(w) => if w !in t then t[w := 1.0 / ((|t| + 1) as real)] else t
      case None => t
  }

  /** The table built from a whole lexicon file; its first line is a header. */
  function FrequencyTable(lexicon: seq<String>): map<String, real> {
    if lexicon == [] then map[] else TableOf(OfferedWords(lexicon[1..]))
  }

  /** The distinct offered words, in the order they were first offered. */
  function Ranked(offered: seq<Option<String>>): seq<String> {
    if offered == [] then []
    else
      var ws := Ranked(offered[..|offered| - 1]);
      match offered[|offered| - 1]
      case Some(w) => if w !in ws then ws + [w] else ws
      case None => ws
  }

  /** The score of the k-th distinct accepted word, counting from 1. */
  function RankScore(k: nat): real
    requires k >= 1
  {
    1.0 / (k as real)
  }

  /**
   * The processing loop over the lexicon lines after the header, with the
   * table updated in place.
   */
  method BuildFrequencyTable(lexicon: seq<String>) returns (freq: map<String, real>)
    ensures freq == FrequencyTable(lexicon)
  {
    freq := map[];
    var body := if lexicon == [] then [] else lexicon[1..];
    ghost var offered := OfferedWords(body);
    var i := 0;
    while i < |body|
      invariant 0 <= i <= |body|
      invariant freq == TableOf(offered[..i])
    {
      TableOfStep(offered, i);
      var palavra := ReadLine(body[i]);
      if palavra.Some? && palavra.value !in freq {
        freq := freq[palavra.value := 1.0 / ((|freq| + 1) as real)];
      }
      i := i + 1;
    }
    assert offered[..|body|] == offered;
  }

  /**
   * Lines 28-37 for one line, as the statements the loop body runs: strip,
   * skip a blank line, take the first column, lower it, test `isalpha`.
   * `Offered` is the specification it is proved against; keeping the steps
   * in their own method also keeps the loop's proof about the table alone.
   */
  method ReadLine(line: String) returns (palavra: Option<String>)
    ensures palavra == Offered(line)
  {
    var linha := Strip(line);
    if linha == [] {
      return None;
    }
    var w := Lower(Strip(FirstField(linha)));
    if !IsAlpha(w) {
      return None;
    }
    return Some(w);
  }

  lemma TableOfStep(offered: seq<Option<String>>, i: nat)
    requires i < |offered|
    ensures TableOf(offered[..i + 1]) ==
      match offered[i]
      case Some(w) => if w !in TableOf(offered[..i]) then TableOf(offered[..i])[w := 1.0 / ((|TableOf(offered[..i])| + 1) as real)] else TableOf(offered[..i])
      case None => TableOf(offered[..i])
  {
    assert offered[..i + 1][..i] == offered[..i];
  }

  /** The table's keys are exactly the distinct offered words. */
  lemma {:induction false} RankedKeys(offered: seq<Option<String>>)
    ensures Distinct(Ranked(offered))
    ensures TableOf(offered).Keys == Elems(Ranked(offered))
    ensures |TableOf(offered)| == |Ranked(offered)|
  {
    if offered != [] {
      var init := offered[..|offered| - 1];
      RankedKeys(init);
      if offered[|offered| - 1].Some? {
        var w := offered[|offered| - 1].value;
        assert Elems(Ranked(init) + [w]) == Elems(Ranked(init)) + {w};
      }
    }
  }

  /** The k-th distinct offered word (from 1) scores exactly 1/k. */
  lemma {:induction false} RankedScores(offered: seq<Option<String>>)
    ensures forall j :: 0 <= j < |Ranked(offered)| ==>
      Ranked(offered)[j] in TableOf(offered) && TableOf(offered)[Ranked(offered)[j]] == RankScore(j + 1)
  {
    if offered != [] {
      var init := offered[..|offered| - 1];
      var ws, t := Ranked(init), TableOf(init);
      RankedScores(init);
      RankedKeys(init);
      match offered[|offered| - 1]
      case None =>
        assert Ranked(offered) == ws && TableOf(offered) == t;
      case Some(w) =>
        if w in ws {
          assert w in t.Keys;
          assert Ranked(offered) == ws && TableOf(offered) == t;
        } else {
          assert w !in t;
          assert Ranked(offered) == ws + [w];
          assert TableOf(offered) == t[w := RankScore(|ws| + 1)];
          forall j | 0 <= j < |ws| + 1
            ensures (ws + [w])[j] in TableOf(offered) && TableOf(offered)[(ws + [w])[j]] == RankScore(j + 1)
          {
            if j < |ws| {
              assert (ws + [w])[j] == ws[j] && ws[j] != w;
            }
          }
        }
    }
  }

  /** Every stored score lies in (0, 1]. */
  lemma ScoresInUnitInterval(offered: seq<Option<String>>)
    ensures forall w :: w in TableOf(offered) ==> 0.0 < TableOf(offered)[w] <= 1.0
  {
    RankedKeys(offered);
    RankedScores(offered);
    var t, ws := TableOf(offered), Ranked(offered);
    forall w | w in t ensures 0.0 < t[w] <= 1.0 {
      var j :| 0 <= j < |ws| && ws[j] == w;
      RankScoreInUnitInterval(j + 1);
    }
  }

  lemma RankScoreInUnitInterval(k: nat)
    requires k >= 1
    ensures 0.0 < RankScore(k) <= 1.0
  {
  }

  /** Scores strictly decrease in the order words were first offered. */
  lemma ScoresDecrease(offered: seq<Option<String>>, i: nat, j: nat)
    requires i < j < |Ranked(offered)|
    ensures Ranked(offered)[i] in TableOf(offered) && Ranked(offered)[j] in TableOf(offered)
    ensures TableOf(offered)[Ranked(offered)[i]] > TableOf(offered)[Ranked(offered)[j]]
  {
    RankedScores(offered);
    ReciprocalDecreases((i + 1) as real, (j + 1) as real);
  }

  lemma ReciprocalDecreases(a: real, b: real)
    requires 0.0 < a < b
    ensures 1.0 / b < 1.0 / a
  {
    var x, y := 1.0 / a, 1.0 / b;
    assert x * a == 1.0 && y * b == 1.0;
    assert x > 0.0 && y > 0.0;
    assert x * y > 0.0;
    assert (x * y) * (b - a) > 0.0;
    assert (x * y) * (b - a) == x * (y * b) - y * (x * a);
  }

  /** A word is in the table exactly when it was offered. */
  lemma {:induction false} InTableOfIff(offered: seq<Option<String>>, w: String)
    ensures w in TableOf(offered) <==> Some(w) in offered
  {
    if offered != [] {
      var init := offered[..|offered| - 1];
      InTableOfIff(init, w);
      assert offered == init + [offered[|offered| - 1]];
    }
  }

  /**
   * A word is in the lexicon's table exactly when some line after the header
   * offers it: the line is non-blank and its first column, stripped and
   * lower-cased, is that alphabetic word.
   */
  lemma InTableIff(lexicon: seq<String>, w: String)
    ensures w in FrequencyTable(lexicon) <==>
      exists i :: 1 <= i < |lexicon| && Offered(lexicon[i]) == Some(w)
  {
    if lexicon != [] {
      var offered := OfferedWords(lexicon[1..]);
      InTableOfIff(offered, w);
      if Some(w) in offered {
        var i :| 0 <= i < |offered| && offered[i] == Some(w);
        assert lexicon[1..][i] == lexicon[i + 1];
      }
      if exists i :: 1 <= i < |lexicon| && Offered(lexicon[i]) == Some(w) {
        var i :| 1 <= i < |lexicon| && Offered(lexicon[i]) == Some(w);
        assert lexicon[1..][i - 1] == lexicon[i];
        assert offered[i - 1] == Some(w);
      }
    }
  }

  /** The table holds lower-case words only: lowering a looked-up word cannot miss one. */
  lemma TableWordsAreLower(lexicon: seq<String>, w: String)
    requires w in FrequencyTable(lexicon)
    ensures Lower(w) == w
  {
    InTableIff(lexicon, w);
    var i :| 1 <= i < |lexicon| && Offered(lexicon[i]) == Some(w);
    OfferedIsLowerAlpha(lexicon[i]);
  }

  /** First occurrence wins: later lines never change the score of a word already in the table. */
  lemma {:induction false} FirstOccurrenceWins(a: seq<Option<String>>, b: seq<Option<String>>, w: String)
    requires w in TableOf(a)
    ensures w in TableOf(a + b) && TableOf(a + b)[w] == TableOf(a)[w]
    decreases |b|
  {
    if b == [] {
      assert a + b == a;
    } else {
      var b' := b[..|b| - 1];
      FirstOccurrenceWins(a, b', w);
      assert (a + b)[..|a + b| - 1] == a + b';
    }
  }

  /** A line that offers nothing (blank, or not alphabetic) can be removed without effect. */
  lemma {:induction false} RejectedLineIgnored(a: seq<Option<String>>, b: seq<Option<String>>)
    ensures TableOf(a + [None] + b) == TableOf(a + b)
    decreases |b|
  {
    if b == [] {
      assert (a + [None] + b)[..|a|] == a;
      assert a + b == a;
    } else {
      var b' := b[..|b| - 1];
      RejectedLineIgnored(a, b');
      assert (a + [None] + b)[..|a + [None] + b| - 1] == a + [None] + b';
      assert (a + b)[..|a + b| - 1] == a + b';
    }
  }

  /** Blank lines offer nothing. */
  lemma BlankLineRejected(line: String)
    requires AllSpace(line)
    ensures Offered(line) == None
  {
    StripSpec(line);
  }

  // ---------------------------------------------------------------------------
  // Vocabulary and trie (preparar_vocab_e_trie)
  // ---------------------------------------------------------------------------

  /** A tokenizer word enters the vocabulary when it is alphabetic and longer than 2 characters. */
  predicate IsVocabularyWord(w: String) {
    IsAlpha(w) && |w| > 2
  }

  /** The tokenizer words that qualify, in tokenizer order. */
  function KeptTokens(tokens: seq<String>): (r: seq<String>)
    ensures |r| <= |tokens|
    ensures forall w :: w in r <==> w in tokens && IsVocabularyWord(w)
  {
    if tokens == [] then []
    else
      assert tokens == [tokens[0]] + tokens[1..];
      (if IsVocabularyWord(tokens[0]) then [tokens[0]] else []) + KeptTokens(tokens[1..])
  }

  /** The vocabulary comprehension: qualifying tokenizer words, at most `maxWords` of them. */
  function SelectVocabulary(tokens: seq<String>, maxWords: nat): (v: seq<String>)
    ensures |v| <= maxWords
    ensures forall w :: w in v ==> w in tokens && IsVocabularyWord(w)
  {
    Take(KeptTokens(tokens), maxWords)
  }

  lemma {:induction false} KeptTokensAppend(a: seq<String>, b: seq<String>)
    ensures KeptTokens(a + b) == KeptTokens(a) + KeptTokens(b)
    decreases |a|
  {
    if a != [] {
      assert (a + b)[1..] == a[1..] + b;
      KeptTokensAppend(a[1..], b);
    } else {
      assert a + b == b;
    }
  }

  lemma {:induction false} KeptTokensDistinct(tokens: seq<String>)
    requires Distinct(tokens)
    ensures Distinct(KeptTokens(tokens))
  {
    if tokens != [] {
      assert Distinct(tokens[1..]);
      KeptTokensDistinct(tokens[1..]);
      assert tokens[0] !in tokens[1..];
    }
  }

  /**
   * With distinct tokenizer words (the keys of the tokenizer's vocabulary),
   * a token is in the vocabulary exactly when it qualifies and fewer than
   * `maxWords` qualifying tokens come before it.
   */
  lemma VocabularyMembership(tokens: seq<String>, maxWords: nat, i: nat)
    requires Distinct(tokens)
    requires i < |tokens|
    ensures tokens[i] in SelectVocabulary(tokens, maxWords) <==>
      IsVocabularyWord(tokens[i]) && |KeptTokens(tokens[..i])| < maxWords
  {
    var x := tokens[i];
    var before := KeptTokens(tokens[..i]);
    assert tokens == tokens[..i] + [x] + tokens[i + 1..];
    KeptTokensAppend(tokens[..i] + [x], tokens[i + 1..]);
    KeptTokensAppend(tokens[..i], [x]);
    var all := KeptTokens(tokens);
    KeptTokensDistinct(tokens);
    if IsVocabularyWord(x) {
      assert KeptTokens([x]) == [x];
      var p := |before|;
      assert all[p] == x;
      if |before| < maxWords {
        assert Take(all, maxWords)[p] == x;
      }
      if x in SelectVocabulary(tokens, maxWords) {
        var q :| 0 <= q < |Take(all, maxWords)| && Take(all, maxWords)[q] == x;
        assert all[q] == x;
        assert q == p;
      }
    }
  }

  /** The trie's entries after `trie[w.lower()] = i` for each vocabulary position in turn. */
  function TrieIndex(vocab: seq<String>): map<String, int> {
    if vocab == [] then map[]
    else TrieIndex(vocab[..|vocab| - 1])[Lower(vocab[|vocab| - 1]) := |vocab| - 1]
  }

  /** Every lower-cased vocabulary word is a key, and there are no other keys. */
  lemma {:induction false} TrieIndexKeys(vocab: seq<String>, k: String)
    ensures k in TrieIndex(vocab) <==> exists i :: 0 <= i < |vocab| && Lower(vocab[i]) == k
  {
    if vocab != [] {
      var init := vocab[..|vocab| - 1];
      TrieIndexKeys(init, k);
      if exists i :: 0 <= i < |init| && Lower(init[i]) == k {
        var i :| 0 <= i < |init| && Lower(init[i]) == k;
        assert vocab[i] == init[i];
      }
      if exists i :: 0 <= i < |vocab| && Lower(vocab[i]) == k {
        var i :| 0 <= i < |vocab| && Lower(vocab[i]) == k;
        if i < |init| {
          assert init[i] == vocab[i];
        }
      }
    }
  }

  /**
   * A key's payload is the last position whose word lowers to it: later
   * assignments overwrite earlier ones.
   */
  lemma {:induction false} TrieIndexLastPosition(vocab: seq<String>, k: String)
    requires k in TrieIndex(vocab)
    ensures 0 <= TrieIndex(vocab)[k] < |vocab| && Lower(vocab[TrieIndex(vocab)[k]]) == k
    ensures forall j :: TrieIndex(vocab)[k] < j < |vocab| ==> Lower(vocab[j]) != k
  {
    var init := vocab[..|vocab| - 1];
    if k != Lower(vocab[|vocab| - 1]) {
      TrieIndexLastPosition(init, k);
      var i := TrieIndex(init)[k];
      assert vocab[i] == init[i];
      forall j | i < j < |vocab| ensures Lower(vocab[j]) != k {
        if j < |init| {
          assert vocab[j] == init[j];
        }
      }
    }
  }

  /** preparar_vocab_e_trie without its file output: the vocabulary and the trie over it. */
  method PrepareVocabularyAndTrie(tokens: seq<String>, maxWords: nat) returns (vocab: seq<String>, trie: CharTrie<int>)
    ensures vocab == SelectVocabulary(tokens, maxWords)
    ensures fresh(trie) && trie.Valid()
    ensures trie.entries == TrieIndex(vocab)
  {
    vocab := SelectVocabulary(tokens, maxWords);
    trie := new CharTrie();
    var i := 0;
    while i < |vocab|
      invariant 0 <= i <= |vocab|
      invariant trie.Valid()
      invariant trie.entries == TrieIndex(vocab[..i])
    {
      trie.Set(Lower(vocab[i]), i);
      assert vocab[..i + 1][..i] == vocab[..i];
      i := i + 1;
    }
    assert vocab[..|vocab|] == vocab;
  }

  // ---------------------------------------------------------------------------
  // Continuations of a prefix (gerar_sugestoes_gpt2, post-processing)
  // ---------------------------------------------------------------------------

  /**
   * The first word after the prompt in one decoding,
   * `decoded[len(prefixo):].strip().split()[0]`, or `None` where that raises
   * `IndexError` because nothing but whitespace follows the prompt's length.
   */
  function NextWord(prefix: String, decoded: String): Option<String> {
    FirstWord(Strip(SliceFrom(decoded, |prefix|)))
  }

  /** A next word is a non-empty run of non-whitespace characters. */
  lemma NextWordIsWord(prefix: String, decoded: String)
    ensures NextWord(prefix, decoded).Some? ==>
      NextWord(prefix, decoded).value != [] && NoSpace(NextWord(prefix, decoded).value)
  {
    FirstWordIsWord(Strip(SliceFrom(decoded, |prefix|)));
  }

  /**
   * The `IndexError` case: a decoding has no next word exactly when nothing
   * but whitespace follows its first `len(prefixo)` characters, in
   * particular when the decoding is no longer than the prompt.
   */
  lemma NextWordMissing(prefix: String, decoded: String)
    ensures NextWord(prefix, decoded).None? <==> AllSpace(SliceFrom(decoded, |prefix|))
  {
    FirstWordMissing(Strip(SliceFrom(decoded, |prefix|)));
    StripSpec(SliceFrom(decoded, |prefix|));
  }

  function NextWords(prefix: String, decodings: seq<String>): (os: seq<Option<String>>)
    ensures |os| == |decodings|
    ensures forall i :: 0 <= i < |decodings| ==> os[i] == NextWord(prefix, decodings[i])
  {
    seq(|decodings|, i requires 0 <= i < |decodings| => NextWord(prefix, decodings[i]))
  }

  /** The `sugestoes` list: the alphabetic next words, in decoding order. */
  function AlphaWords(os: seq<Option<String>>): (ws: seq<String>)
    ensures |ws| <= |os|
  {
    if os == [] then []
    else
      var ws := AlphaWords(os[..|os| - 1]);
      match os[|os| - 1]
      case Some(w) => if IsAlpha(w) then ws + [w] else ws
      case None => ws
  }

  /** The collected words are exactly the alphabetic next words. */
  lemma {:induction false} AlphaWordsMembership(os: seq<Option<String>>)
    ensures forall w :: w in AlphaWords(os) <==> IsAlpha(w) && Some(w) in os
  {
    if os != [] {
      var init := os[..|os| - 1];
      AlphaWordsMembership(init);
      assert os == init + [os[|os| - 1]];
    }
  }

  /**
   * `ws` is `list(set(words))[:n]` for some iteration order of the set: a
   * duplicate-free selection of the words, as many as the set has, up to `n`.
   */
  ghost predicate IsSetListing(words: seq<String>, n: nat, ws: seq<String>) {
    && Distinct(ws)
    && Elems(ws) <= Elems(words)
    && |ws| == if |Elems(words)| <= n then |Elems(words)| else n
  }

  /**
   * Lines 129-136 of gerar_sugestoes_gpt2, given the decoded model outputs.
   * The order of `list(set(...))` is Python's set iteration order, which is
   * left open here: any order may come out.
   */
  method ExtractContinuations(prefix: String, decodings: seq<String>, numSuggestions: nat)
    returns (r: Result<seq<String>, PyException>)
    ensures r.Failure? <==> None in NextWords(prefix, decodings)
    ensures r.Failure? ==> r.error == IndexError
    ensures r.Success? ==> IsSetListing(AlphaWords(NextWords(prefix, decodings)), numSuggestions, r.value)
    ensures r.Success? ==> |r.value| <= numSuggestions && Distinct(r.value)
    ensures r.Success? ==> forall w :: w in r.value ==> IsAlpha(w) && Some(w) in NextWords(prefix, decodings)
  {
    var collected := CollectNextWords(prefix, decodings);
    if collected.Failure? {
      return Failure(collected.error);
    }
    var sugestoes := collected.value;
    var listed := ListSet(Elems(sugestoes));
    var taken := Take(listed, numSuggestions);
    AlphaWordsMembership(NextWords(prefix, decodings));
    forall w | w in taken ensures IsAlpha(w) && Some(w) in NextWords(prefix, decodings) {
      assert w in Elems(listed);
      assert w in sugestoes;
    }
    assert Elems(taken) <= Elems(listed);
    r := Success(taken);
  }

  /** The loop of lines 129-133: the alphabetic next words, or `IndexError` at the first decoding without one. */
  method CollectNextWords(prefix: String, decodings: seq<String>) returns (r: Result<seq<String>, PyException>)
    ensures r.Failure? <==> None in NextWords(prefix, decodings)
    ensures r.Failure? ==> r.error == IndexError
    ensures r.Success? ==> r.value == AlphaWords(NextWords(prefix, decodings))
  {
    ghost var os := NextWords(prefix, decodings);
    var sugestoes: seq<String> := [];
    var i := 0;
    while i < |decodings|
      invariant 0 <= i <= |decodings|
      invariant None !in os[..i]
      invariant sugestoes == AlphaWords(os[..i])
    {
      var proximo := NextWord(prefix, decodings[i]);
      assert proximo == os[i];
      AlphaWordsStep(os, i);
      if proximo.None? {
        return Failure(IndexError);
      }
      if IsAlpha(proximo.value) {
        sugestoes := sugestoes + [proximo.value];
      }
      i := i + 1;
    }
    assert os[..|decodings|] == os;
    r := Success(sugestoes);
  }

  /** One more decoding: its next word is appended when alphabetic, and a missing one is the first `None`. */
  lemma AlphaWordsStep(os: seq<Option<String>>, i: nat)
    requires i < |os|
    ensures AlphaWords(os[..i + 1]) ==
      AlphaWords(os[..i]) + (if os[i].Some? && IsAlpha(os[i].value) then [os[i].value] else [])
    ensures None in os[..i + 1] <==> None in os[..i] || os[i] == None
  {
    assert os[..i + 1][..i] == os[..i];
    assert os[..i + 1] == os[..i] + [os[i]];
  }

  /** `list(s)` for a set: each element once, in an order left open. */
  method ListSet(s: set<String>) returns (listed: seq<String>)
    ensures Distinct(listed)
    ensures Elems(listed) == s
    ensures |listed| == |s|
  {
    var remaining := s;
    listed := [];
    while remaining != {}
      invariant Distinct(listed)
      invariant Elems(listed) !! remaining
      invariant Elems(listed) + remaining == s
      invariant |listed| + |remaining| == |s|
      decreases |remaining|
    {
      var w :| w in remaining;
      assert w !in listed;
      listed := listed + [w];
      remaining := remaining - {w};
    }
  }

  lemma {:induction false} ElemsAtMostLength(s: seq<String>)
    ensures |Elems(s)| <= |s|
  {
    if s != [] {
      var t := s[..|s| - 1];
      ElemsAtMostLength(t);
      assert Elems(s) == Elems(t) + {s[|s| - 1]};
    }
  }

  /**
   * When the model returns no more decodings than the suggestions asked for
   * (the call asks for exactly as many), truncation drops nothing: the listing
   * holds every alphabetic next word, whatever the set's order.
   */
  lemma ListingIsComplete(words: seq<String>, n: nat, ws: seq<String>)
    requires IsSetListing(words, n, ws)
    requires |words| <= n
    ensures Elems(ws) == Elems(words)
  {
    ElemsAtMostLength(words);
    DistinctCardinality(ws);
    var a, b := Elems(ws), Elems(words);
    assert |b - a| == |b| - |a| by {
      assert b == a + (b - a) && a !! (b - a);
    }
    assert b - a == {};
  }

  // ---------------------------------------------------------------------------
  // Hybrid suggestion (sugerir_hibrido)
  // ---------------------------------------------------------------------------

  /** Line 155's filter: longer than one character, and the raw continuation not among the candidates. */
  predicate Accepted(s: String, candidatos: seq<String>) {
    |s| > 1 && s !in candidatos
  }

  /** `[prefixo + s for s in novas if len(s) > 1 and s not in candidatos]`. */
  function Completions(prefix: String, novas: seq<String>, candidatos: seq<String>): (ws: seq<String>)
    ensures |ws| <= |novas|
    ensures forall w :: w in ws ==> prefix <= w
  {
    if novas == [] then []
    else
      var rest := Completions(prefix, novas[1..], candidatos);
      if Accepted(novas[0], candidatos) then [prefix + novas[0]] + rest else rest
  }

  /**
   * A word is completed from the fallback exactly when it is the prefix
   * followed by a generated continuation that passes the filter. The filter
   * looks at the continuation itself, not at the completed word.
   */
  lemma {:induction false} CompletionsMembership(prefix: String, novas: seq<String>, candidatos: seq<String>, w: String)
    ensures w in Completions(prefix, novas, candidatos) <==>
      prefix <= w && w[|prefix|..] in novas && Accepted(w[|prefix|..], candidatos)
  {
    if novas != [] {
      CompletionsMembership(prefix, novas[1..], candidatos, w);
      assert novas == [novas[0]] + novas[1..];
      if prefix <= w && w[|prefix|..] == novas[0] {
        assert w == prefix + novas[0];
      }
      assert (prefix + novas[0])[|prefix|..] == novas[0];
    }
  }

  lemma {:induction false} CompletionsDistinct(prefix: String, novas: seq<String>, candidatos: seq<String>)
    requires Distinct(novas)
    ensures Distinct(Completions(prefix, novas, candidatos))
  {
    if novas != [] {
      assert Distinct(novas[1..]);
      CompletionsDistinct(prefix, novas[1..], candidatos);
      CompletionsMembership(prefix, novas[1..], candidatos, prefix + novas[0]);
      assert (prefix + novas[0])[|prefix|..] == novas[0];
      assert novas[0] !in novas[1..];
    }
  }

  /** The filter only asks whether a continuation is among the candidates, so their order is irrelevant. */
  lemma {:induction false} CompletionsDependOnCandidateSet(prefix: String, novas: seq<String>, c1: seq<String>, c2: seq<String>)
    requires Elems(c1) == Elems(c2)
    ensures Completions(prefix, novas, c1) == Completions(prefix, novas, c2)
  {
    if novas != [] {
      assert (novas[0] in c1) == (novas[0] in c2) by {
        assert novas[0] in c1 <==> novas[0] in Elems(c1);
      }
      CompletionsDependOnCandidateSet(prefix, novas[1..], c1, c2);
    }
  }

  lemma CompletionsDependOnContinuationSet(prefix: String, n1: seq<String>, n2: seq<String>, candidatos: seq<String>)
    requires Elems(n1) == Elems(n2)
    ensures Elems(Completions(prefix, n1, candidatos)) == Elems(Completions(prefix, n2, candidatos))
  {
    forall w ensures w in Completions(prefix, n1, candidatos) <==> w in Completions(prefix, n2, candidatos) {
      CompletionsMembership(prefix, n1, candidatos, w);
      CompletionsMembership(prefix, n2, candidatos, w);
      if prefix <= w {
        assert w[|prefix|..] in n1 <==> w[|prefix|..] in Elems(n1);
        assert w[|prefix|..] in n2 <==> w[|prefix|..] in Elems(n2);
      }
    }
  }

  /** The words merged at line 164: the candidates, plus the completions when the fallback ran. */
  function Merged(limite: int, prefix: String, candidatos: seq<String>, novas: seq<String>): seq<String> {
    if |candidatos| < limite then candidatos + Completions(prefix, novas, candidatos) else candidatos
  }

  /** `sorted(set(candidatos))[:limite]` after the fallback step. */
  function HybridResult(limite: int, prefix: String, candidatos: seq<String>, novas: seq<String>): (r: seq<String>)
    ensures StrictlySorted(r) && Distinct(r)
    ensures limite >= 0 ==> |r| <= limite
    ensures forall w :: w in r ==> w in Merged(limite, prefix, candidatos, novas)
  {
    var all := Merged(limite, prefix, candidatos, novas);
    var r := SliceTo(SortUnique(all), limite);
    assert forall w :: w in r ==> w in Elems(SortUnique(all));
    StrictlySortedDistinct(r);
    r
  }

  /**
   * The result holds the smallest merged words: a merged word is left out
   * only when `limite` words, each smaller than it, were returned.
   */
  lemma HybridKeepsSmallest(limite: int, prefix: String, candidatos: seq<String>, novas: seq<String>, w: String)
    requires w in Merged(limite, prefix, candidatos, novas)
    requires w !in HybridResult(limite, prefix, candidatos, novas)
    ensures limite >= 0 ==> |HybridResult(limite, prefix, candidatos, novas)| == limite
    ensures forall v :: v in HybridResult(limite, prefix, candidatos, novas) ==> LexLess(v, w)
  {
    var sorted := SortUnique(Merged(limite, prefix, candidatos, novas));
    assert w in Elems(sorted);
    var k :| 0 <= k < |sorted| && sorted[k] == w;
    var r := HybridResult(limite, prefix, candidatos, novas);
    assert r <= sorted;
    assert k >= |r|;
    forall v | v in r ensures LexLess(v, w) {
      var m :| 0 <= m < |r| && r[m] == v;
      assert sorted[m] == v;
    }
  }

  /** When every candidate starts with the prefix, so does every returned word. */
  lemma HybridStartsWithPrefix(limite: int, prefix: String, candidatos: seq<String>, novas: seq<String>)
    requires forall c :: c in candidatos ==> prefix <= c
    ensures forall w :: w in HybridResult(limite, prefix, candidatos, novas) ==> prefix <= w
  {
  }

  /**
   * The final `sorted(set(...))` undoes the frequency sort of line 148: the
   * result is the same whatever order the trie candidates come in.
   */
  lemma FrequencySortHasNoEffect(limite: int, prefix: String, ks: seq<String>, freq: map<String, real>, novas: seq<String>)
    ensures HybridResult(limite, prefix, SortByScore(ks, freq), novas) == HybridResult(limite, prefix, ks, novas)
  {
    var sorted := SortByScore(ks, freq);
    assert Elems(sorted) == Elems(ks) by {
      forall x ensures x in sorted <==> x in ks {
        assert x in sorted <==> x in multiset(sorted);
        assert x in ks <==> x in multiset(ks);
      }
    }
    CompletionsDependOnCandidateSet(prefix, novas, sorted, ks);
    var a, b := Merged(limite, prefix, sorted, novas), Merged(limite, prefix, ks, novas);
    assert Elems(a) == Elems(b) by {
      forall x ensures x in a <==> x in b {
        assert x in sorted <==> x in Elems(sorted);
      }
    }
    SortUniqueDependsOnElems(a, b);
  }

  /** Lines 146-150: the trie keys under the prefix ranked by score, or none when `iterkeys` raises `KeyError`. */
  function TrieCandidates<V>(trie: CharTrie<V>, freq: map<String, real>, prefix: String): (c: seq<String>)
    reads trie
    requires trie.Valid()
    ensures forall w :: w in c <==> w in trie.entries && prefix <= w
    ensures SortedByScore(c, freq)
    ensures Distinct(c) && |c| == |trie.KeysWithPrefix(prefix)|
  {
    match trie.IterKeys(prefix)
    case Success(ks) =>
      var c := SortByScore(ks, freq);
      SortByScoreElems(ks, freq);
      PermutationKeepsDistinct(c, ks);
      c
    case Failure(_) =>
      KeysLieUnderNode(trie, prefix);
      []
  }

  /** Every word of `ws`, marked `True` as at line 159. */
  function Marked(ws: seq<String>): (m: map<String, bool>)
    ensures m.Keys == Elems(ws)
  {
    map w | w in ws :: true
  }

  /** The new scores of line 160 for every word of `ws`: one more than `frequencia.get(w, 1.0)`. */
  function Boosted(freq: map<String, real>, ws: seq<String>): (m: map<String, real>)
    ensures m.Keys == Elems(ws)
    ensures forall w :: w in m ==> m[w] == Score(freq, w) + 1.0
  {
    map w | w in ws :: Score(freq, w) + 1.0
  }

  lemma BoostedSnoc(freq: map<String, real>, ws: seq<String>, x: String)
    ensures Boosted(freq, ws + [x]) == Boosted(freq, ws)[x := Score(freq, x) + 1.0]
  {
    var lhs, rhs := Boosted(freq, ws + [x]), Boosted(freq, ws)[x := Score(freq, x) + 1.0];
    assert Elems(ws + [x]) == Elems(ws) + {x};
    assert lhs.Keys == rhs.Keys;
  }

  lemma BoostStep(freq: map<String, real>, ws: seq<String>, x: String)
    requires x !in ws
    ensures freq + Boosted(freq, ws + [x])
         == (freq + Boosted(freq, ws))[x := Score(freq + Boosted(freq, ws), x) + 1.0]
  {
    BoostedSnoc(freq, ws, x);
    assert x !in Boosted(freq, ws);
    var b := Boosted(freq, ws);
    assert freq + b[x := Score(freq, x) + 1.0] == (freq + b)[x := Score(freq, x) + 1.0];
  }

  lemma MarkStep(entries: map<String, bool>, ws: seq<String>, x: String)
    ensures entries + Marked(ws + [x]) == (entries + Marked(ws))[x := true]
  {
    var lhs, rhs := entries + Marked(ws + [x]), (entries + Marked(ws))[x := true];
    assert lhs.Keys == rhs.Keys;
    forall k | k in lhs ensures lhs[k] == rhs[k] {
      if k != x {
        assert k in Marked(ws + [x]) <==> k in Marked(ws);
      }
    }
  }

  lemma BoostAt(freq: map<String, real>, ws: seq<String>, i: nat)
    requires i < |ws| && Distinct(ws)
    ensures freq + Boosted(freq, ws[..i + 1])
         == (freq + Boosted(freq, ws[..i]))[ws[i] := Score(freq + Boosted(freq, ws[..i]), ws[i]) + 1.0]
  {
    assert ws[..i + 1] == ws[..i] + [ws[i]];
    assert ws[i] !in ws[..i];
    BoostStep(freq, ws[..i], ws[i]);
  }

  lemma MarkAt(entries: map<String, bool>, ws: seq<String>, i: nat)
    requires i < |ws|
    ensures entries + Marked(ws[..i + 1]) == (entries + Marked(ws[..i]))[ws[i] := true]
  {
    assert ws[..i + 1] == ws[..i] + [ws[i]];
    MarkStep(entries, ws[..i], ws[i]);
  }

  /**
   * Lines 158-160: each accepted completion is stored in the trie and its
   * score raised by one. The completions are distinct, so each is raised once.
   */
  method RecordCompletions(trie: CharTrie<bool>, frequencia: map<String, real>, completas: seq<String>)
    returns (frequencia': map<String, real>)
    requires trie.Valid()
    requires Distinct(completas)
    modifies trie
    ensures trie.Valid()
    ensures trie.entries == old(trie.entries) + Marked(completas)
    ensures frequencia' == frequencia + Boosted(frequencia, completas)
  {
    frequencia' := frequencia;
    var i := 0;
    while i < |completas|
      invariant 0 <= i <= |completas|
      invariant trie.Valid()
      invariant trie.entries == old(trie.entries) + Marked(completas[..i])
      invariant frequencia' == frequencia + Boosted(frequencia, completas[..i])
    {
      var palavra := completas[i];
      BoostAt(frequencia, completas, i);
      MarkAt(old(trie.entries), completas, i);
      trie.Set(palavra, true);
      frequencia' := frequencia'[palavra := Score(frequencia', palavra) + 1.0];
      i := i + 1;
    }
    assert completas[..|completas|] == completas;
  }

  /**
   * sugerir_hibrido from line 143 on, run on a given trie and frequency
   * table. `decodings` are the model outputs the fallback call would decode;
   * `request` is the `num_sugestoes` it was called with, `None` when it was
   * not called. The trie and table receive the accepted completions.
   */
  method SuggestHybridOn(trie: CharTrie<bool>, frequencia: map<String, real>, prefixo: String, limite: int, decodings: seq<String>)
    returns (r: Result<seq<String>, PyException>, frequencia': map<String, real>, request: Option<nat>, novas: seq<String>)
    requires trie.Valid()
    modifies trie
    ensures trie.Valid()
    ensures
      var p := Lower(prefixo);
      var candidatos := old(TrieCandidates(trie, frequencia, p));
      var completas := Completions(p, novas, candidatos);
      && request == (if |candidatos| < limite then Some(2 * limite) else None)
      && (request.None? ==> novas == [] && r == Success(HybridResult(limite, p, candidatos, [])))
      && (request.Some? ==> (r.Failure? <==> None in NextWords(p, decodings)))
      && (r.Failure? ==> r.error == IndexError)
      && (r.Failure? || request.None? ==> trie.entries == old(trie.entries) && frequencia' == frequencia)
      && (r.Success? && request.Some? ==>
            && IsSetListing(AlphaWords(NextWords(p, decodings)), 2 * limite, novas)
            && r.value == HybridResult(limite, p, candidatos, novas)
            && trie.entries == old(trie.entries) + Marked(completas)
            && frequencia' == frequencia + Boosted(frequencia, completas))
  {
    var p := Lower(prefixo);
    var candidatos: seq<String>;
    match trie.IterKeys(p) {
      case Success(ks) => candidatos := SortByScore(ks, frequencia);
      case Failure(_) => candidatos := [];
    }
    assert candidatos == old(TrieCandidates(trie, frequencia, p));
    frequencia' := frequencia;
    novas := [];
    request := None;
    if |candidatos| < limite {
      request := Some(2 * limite);
      var generated := ExtractContinuations(p, decodings, 2 * limite);
      if generated.Failure? {
        return Failure(generated.error), frequencia', request, novas;
      }
      novas := generated.value;
      var completas := Completions(p, novas, candidatos);
      CompletionsDistinct(p, novas, candidatos);
      frequencia' := RecordCompletions(trie, frequencia, completas);
      candidatos := candidatos + completas;
    }
    r := Success(SliceTo(SortUnique(candidatos), limite));
  }

  /**
   * sugerir_hibrido as written: it builds a fresh, empty trie and table
   * (lines 140-141), so the trie phase finds nothing, the fallback runs
   * whenever `limite > 0`, and the result is the sorted accepted completions.
   * No state outside the call changes.
   */
  method SuggestHybrid(prefixo: String, limite: int, decodings: seq<String>)
    returns (r: Result<seq<String>, PyException>, request: Option<nat>, novas: seq<String>)
    ensures
      var p := Lower(prefixo);
      var words := AlphaWords(NextWords(p, decodings));
      && request == (if 0 < limite then Some(2 * limite) else None)
      && (r.Failure? <==> 0 < limite && None in NextWords(p, decodings))
      && (r.Failure? ==> r.error == IndexError)
      && (r.Success? ==> StrictlySorted(r.value) && (limite >= 0 ==> |r.value| <= limite))
      && (r.Success? && limite <= 0 ==> r.value == [])
      && (r.Success? ==> forall w :: w in r.value ==>
            p <= w && |w[|p|..]| > 1 && IsAlpha(w[|p|..]) && w[|p|..] in words)
      && (r.Success? && 0 < limite ==>
            IsSetListing(words, 2 * limite, novas) && r.value == SliceTo(SortUnique(Completions(p, novas, [])), limite))
      && (r.Success? && |decodings| <= 2 * limite ==>
            r.value == SliceTo(SortUnique(Completions(p, words, [])), limite))
  {
    var trie := new CharTrie<bool>();
    var frequencia: map<String, real> := map[];
    var p := Lower(prefixo);
    ElemsEmpty(trie.order);
    assert TrieCandidates(trie, frequencia, p) == [];
    var frequencia';
    r, frequencia', request, novas := SuggestHybridOn(trie, frequencia, prefixo, limite, decodings);
    if r.Success? {
      AlphaWordsMembership(NextWords(p, decodings));
      HybridFromScratch(limite, p, novas, AlphaWords(NextWords(p, decodings)));
    }
  }

  /**
   * With no trie candidates, the hybrid result is the sorted accepted
   * completions of the listed continuations, and all of them when nothing
   * was truncated.
   */
  lemma HybridFromScratch(limite: int, p: String, novas: seq<String>, words: seq<String>)
    requires 0 < limite ==> IsSetListing(words, 2 * limite, novas)
    requires limite <= 0 ==> novas == []
    requires forall w :: w in words ==> IsAlpha(w)
    ensures limite <= 0 ==> HybridResult(limite, p, [], novas) == []
    ensures 0 < limite ==> HybridResult(limite, p, [], novas) == SliceTo(SortUnique(Completions(p, novas, [])), limite)
    ensures forall w :: w in HybridResult(limite, p, [], novas) ==>
      p <= w && |w[|p|..]| > 1 && IsAlpha(w[|p|..]) && w[|p|..] in words
    ensures |words| <= 2 * limite ==>
      HybridResult(limite, p, [], novas) == SliceTo(SortUnique(Completions(p, words, [])), limite)
  {
    var r := HybridResult(limite, p, [], novas);
    if 0 < limite {
      assert [] + Completions(p, novas, []) == Completions(p, novas, []);
      forall w | w in r
        ensures p <= w && |w[|p|..]| > 1 && IsAlpha(w[|p|..]) && w[|p|..] in words
      {
        CompletionsMembership(p, novas, [], w);
        assert w[|p|..] in Elems(novas);
      }
      if |words| <= 2 * limite {
        ListingIsComplete(words, 2 * limite, novas);
        CompletionsDependOnContinuationSet(p, novas, words, []);
        SortUniqueDependsOnElems(Completions(p, novas, []), Completions(p, words, []));
      }
    } else {
      assert r == SliceTo(SortUnique([]), limite);
    }
  }
}
