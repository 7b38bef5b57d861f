/**
 * The request handlers of the suggestion service, without the HTTP layer:
 * each takes the loaded resources (trie, frequency table, vocabulary,
 * embedding rows) as arguments and returns the reply body as a value.
 */
module Api {
  import opened Wrappers
  import opened Strings
  import opened Seqs
  import opened Ordering
  import opened Tries
  import opened Preprocessing

  /** The body `{"prefixo": ..., "sugestoes": [...]}`. */
  datatype Suggestions = Suggestions(prefixo: String, sugestoes: seq<String>)

  /** The body of `/frequencia/`: the stored score, or the not-in-lexicon error. */
  datatype FrequencyReply = Frequency(palavra: String, frequenciaInvertida: real) | NotInLexicon(palavra: String)

  /** The body of `/embedding/`: the word's row, or the not-in-vocabulary error. */
  datatype EmbeddingReply<Row> = Embedding(palavra: String, embedding: Row) | NotInVocabulary(palavra: String)

  // ---------------------------------------------------------------------------
  // sugerir
  // ---------------------------------------------------------------------------

  /** `sorted(ks, key=frequencia.get(.., 1.0), reverse=True)[:limite]`. */
  function BestFirst(ks: seq<String>, freq: map<String, real>, limite: int): (r: seq<String>)
    ensures Distinct(ks) ==> Distinct(r)
    ensures SortedByScore(r, freq)
    ensures forall w :: w in r ==> w in ks
    ensures limite >= 0 ==> |r| == if limite <= |ks| then limite else |ks|
    ensures 0 <= |ks| <= limite ==> forall w :: w in r <==> w in ks
  {
    var sorted := SortByScore(ks, freq);
    var r := SliceTo(sorted, limite);
    PermutationKeepsDistinct(sorted, ks);
    SortByScoreElems(ks, freq);
    PrefixElems(r, sorted);
    SortedPrefix(r, sorted, freq);
    assert |ks| <= limite ==> r == sorted;
    r
  }

  /** The keys under `p` ranked by score, best first, then cut as `[:limite]`. */
  function TopKeys(trie: CharTrie<int>, freq: map<String, real>, p: String, limite: int): (r: seq<String>)
    reads trie
    requires trie.Valid()
    ensures Distinct(r)
    ensures SortedByScore(r, freq)
    ensures forall w :: w in r ==> w in trie.entries && p <= w
    ensures limite >= 0 ==>
      |r| == if limite <= |trie.KeysWithPrefix(p)| then limite else |trie.KeysWithPrefix(p)|
    ensures 0 <= |trie.KeysWithPrefix(p)| <= limite ==> forall w :: w in r <==> w in trie.entries && p <= w
  {
    BestFirst(trie.KeysWithPrefix(p), freq, limite)
  }

  /**
   * `sugerir`: the lowered prefix, and when the trie has a subtrie there the
   * keys under it, best score first, at most `limite` of them.
   */
  function Suggest(trie: CharTrie<int>, freq: map<String, real>, prefixo: String, limite: int): (r: Suggestions)
    reads trie
    requires trie.Valid()
    ensures r.prefixo == Lower(prefixo)
    ensures !trie.HasSubtrie(r.prefixo) ==> r.sugestoes == []
    ensures Distinct(r.sugestoes) && SortedByScore(r.sugestoes, freq)
    ensures forall w :: w in r.sugestoes ==> w in trie.entries && r.prefixo <= w
    ensures trie.HasSubtrie(r.prefixo) && limite >= 0 ==>
      |r.sugestoes| == if limite <= |trie.KeysWithPrefix(r.prefixo)| then limite else |trie.KeysWithPrefix(r.prefixo)|
  {
    var p := Lower(prefixo);
    if !trie.HasSubtrie(p) then Suggestions(p, []) else Suggestions(p, TopKeys(trie, freq, p, limite))
  }

  /**
   * The suggestions are the best-scored keys: a key under the prefix that is
   * left out scores no higher than any key returned, and was left out only
   * because `limite` keys were returned.
   */
  lemma SuggestKeepsBest(trie: CharTrie<int>, freq: map<String, real>, prefixo: String, limite: int, w: String)
    requires trie.Valid()
    requires trie.HasSubtrie(Lower(prefixo))
    requires w in trie.entries && Lower(prefixo) <= w
    requires w !in Suggest(trie, freq, prefixo, limite).sugestoes
    ensures limite >= 0 ==> |Suggest(trie, freq, prefixo, limite).sugestoes| == limite
    ensures forall v :: v in Suggest(trie, freq, prefixo, limite).sugestoes ==> Score(freq, v) >= Score(freq, w)
  {
    var p := Lower(prefixo);
    var ks := trie.KeysWithPrefix(p);
    assert w in ks;
    BestFirstKeepsBest(ks, freq, limite, w);
  }

  /** A word of `ks` that the ranking leaves out scores no higher than any word it keeps. */
  lemma BestFirstKeepsBest(ks: seq<String>, freq: map<String, real>, limite: int, w: String)
    requires w in ks && w !in BestFirst(ks, freq, limite)
    ensures limite >= 0 ==> |BestFirst(ks, freq, limite)| == limite
    ensures forall v :: v in BestFirst(ks, freq, limite) ==> Score(freq, v) >= Score(freq, w)
  {
    var sorted := SortByScore(ks, freq);
    var r := BestFirst(ks, freq, limite);
    assert r == SliceTo(sorted, limite);
    SortByScoreElems(ks, freq);
    var k :| 0 <= k < |sorted| && sorted[k] == w;
    assert k >= |r|;
    forall v | v in r ensures Score(freq, v) >= Score(freq, w) {
      var m :| 0 <= m < |r| && r[m] == v;
      assert sorted[m] == v;
    }
  }

  lemma {:induction false} WithScorePrefix(a: seq<String>, b: seq<String>, freq: map<String, real>, v: real)
    requires a <= b
    ensures WithScore(a, freq, v) <= WithScore(b, freq, v)
  {
    if a != [] {
      assert a[0] == b[0] && a[1..] <= b[1..];
      WithScorePrefix(a[1..], b[1..], freq, v);
    }
  }

  /** Keys of equal score are suggested in the trie's traversal order (the sort is stable). */
  lemma SuggestStable(trie: CharTrie<int>, freq: map<String, real>, prefixo: String, limite: int, v: real)
    requires trie.Valid()
    ensures WithScore(Suggest(trie, freq, prefixo, limite).sugestoes, freq, v)
         <= WithScore(trie.KeysWithPrefix(Lower(prefixo)), freq, v)
  {
    var p := Lower(prefixo);
    var ks := trie.KeysWithPrefix(p);
    if trie.HasSubtrie(p) {
      SortByScoreStable(ks, freq, v);
      WithScorePrefix(Suggest(trie, freq, prefixo, limite).sugestoes, SortByScore(ks, freq), freq, v);
    }
  }

  /** Suggestions ignore the case of the prefix. */
  lemma SuggestIgnoresCase(trie: CharTrie<int>, freq: map<String, real>, prefixo: String, limite: int)
    requires trie.Valid()
    ensures Suggest(trie, freq, Lower(prefixo), limite) == Suggest(trie, freq, prefixo, limite)
  {
    LowerIdempotent(prefixo);
  }

  /**
   * A stored word that no longer key extends (a leaf of the trie) is not
   * suggested for itself as prefix, although it starts with that prefix and
   * `iterkeys` would yield it: `has_subtrie` is false at a leaf.
   */
  lemma LeafWordNotSuggested(trie: CharTrie<int>, freq: map<String, real>, prefixo: String, limite: int)
    requires trie.Valid()
    requires Lower(prefixo) in trie.entries
    requires forall k :: k in trie.entries ==> !(Lower(prefixo) < k)
    ensures Suggest(trie, freq, prefixo, limite).sugestoes == []
    ensures trie.IterKeys(Lower(prefixo)).Success? && Lower(prefixo) in trie.IterKeys(Lower(prefixo)).value
  {
  }

  /**
   * `sugerir` with the guard checking for the node instead of a subtrie, as
   * its description (the words that start with the prefix) asks: the trie phase
   * then returns every key under the prefix when at most `limite` exist.
   */
  function SuggestIntended(trie: CharTrie<int>, freq: map<String, real>, prefixo: String, limite: int): (r: Suggestions)
    reads trie
    requires trie.Valid()
    ensures r.prefixo == Lower(prefixo)
    ensures Distinct(r.sugestoes) && SortedByScore(r.sugestoes, freq)
    ensures forall w :: w in r.sugestoes ==> w in trie.entries && r.prefixo <= w
    ensures 0 <= |trie.KeysWithPrefix(r.prefixo)| <= limite ==>
      forall w :: w in r.sugestoes <==> w in trie.entries && r.prefixo <= w
  {
    var p := Lower(prefixo);
    if !trie.HasNode(p) then Suggestions(p, []) else Suggestions(p, TopKeys(trie, freq, p, limite))
  }

  /** Where the trie has a subtrie at the prefix, the intended and the written `sugerir` agree. */
  lemma IntendedAgreesOnSubtries(trie: CharTrie<int>, freq: map<String, real>, prefixo: String, limite: int)
    requires trie.Valid()
    ensures trie.HasSubtrie(Lower(prefixo)) ==> SuggestIntended(trie, freq, prefixo, limite) == Suggest(trie, freq, prefixo, limite)
    ensures !trie.HasSubtrie(Lower(prefixo)) && Lower(prefixo) !in trie.entries ==>
      SuggestIntended(trie, freq, prefixo, limite).sugestoes == []
  {
    var p := Lower(prefixo);
    if trie.HasSubtrie(p) {
      var k :| k in trie.entries && p < k;
      assert trie.HasNode(p);
    } else if p !in trie.entries && trie.HasNode(p) {
      SubtrieOfNonKey(trie, p);
    }
  }

  // ---------------------------------------------------------------------------
  // get_frequencia
  // ---------------------------------------------------------------------------

  /**
   * `get_frequencia`: the stored score of the lowered word when it is truthy;
   * an absent word and a stored score of `0.0` both give the error reply.
   */
  function GetFrequency(freq: map<String, real>, palavra: String): (r: FrequencyReply)
    ensures r.palavra == Lower(palavra)
    ensures r.Frequency? <==> Lower(palavra) in freq && freq[Lower(palavra)] != 0.0
    ensures r.Frequency? ==> r.frequenciaInvertida == freq[Lower(palavra)]
  {
    var p := Lower(palavra);
    if p in freq && freq[p] != 0.0 then Frequency(p, freq[p]) else NotInLexicon(p)
  }

  /**
   * On the table built from a lexicon every score is truthy, so the reply is
   * a score exactly for the words the table holds, and that score lies in
   * (0, 1].
   */
  lemma GetFrequencyOnBuiltTable(lexicon: seq<String>, palavra: String)
    ensures var r := GetFrequency(FrequencyTable(lexicon), palavra);
      && (r.Frequency? <==> Lower(palavra) in FrequencyTable(lexicon))
      && (r.Frequency? ==> 0.0 < r.frequenciaInvertida <= 1.0)
  {
    if lexicon != [] {
      ScoresInUnitInterval(OfferedWords(lexicon[1..]));
    }
  }

  /** Every word of the built table is found under itself, whatever its case when asked. */
  lemma TableWordsFound(lexicon: seq<String>, w: String)
    requires w in FrequencyTable(lexicon)
    ensures GetFrequency(FrequencyTable(lexicon), w) == Frequency(w, FrequencyTable(lexicon)[w])
    ensures forall asked :: Lower(asked) == w ==>
      GetFrequency(FrequencyTable(lexicon), asked) == Frequency(w, FrequencyTable(lexicon)[w])
  {
    TableWordsAreLower(lexicon, w);
    GetFrequencyOnBuiltTable(lexicon, w);
    forall asked | Lower(asked) == w
      ensures GetFrequency(FrequencyTable(lexicon), asked) == Frequency(w, FrequencyTable(lexicon)[w])
    {
      GetFrequencyOnBuiltTable(lexicon, asked);
    }
  }

  // ---------------------------------------------------------------------------
  // get_embedding
  // ---------------------------------------------------------------------------

  /**
   * `get_embedding`: the row at the first position of the lowered word in the
   * vocabulary; the error reply when it is not there. A position with no row
   * raises `IndexError`, which the handler does not catch.
   */
  function GetEmbedding<Row>(vocabulario: seq<String>, embeddings: seq<Row>, palavra: String)
    : (r: Result<EmbeddingReply<Row>, PyException>)
    ensures r.Success? ==> r.value.palavra == Lower(palavra)
    ensures r.Success? && r.value.NotInVocabulary? <==> Lower(palavra) !in vocabulario
    ensures r.Success? && r.value.Embedding? ==>
      exists i :: 0 <= i < |vocabulario| && i < |embeddings| && vocabulario[i] == Lower(palavra)
        && Lower(palavra) !in vocabulario[..i] && r.value.embedding == embeddings[i]
    ensures r.Failure? ==> r.error == IndexError && Lower(palavra) in vocabulario && |embeddings| < |vocabulario|
    ensures r.Failure? <==>
      IndexOf(vocabulario, Lower(palavra)).Some? && IndexOf(vocabulario, Lower(palavra)).value >= |embeddings|
  {
    var p := Lower(palavra);
    match IndexOf(vocabulario, p)
    case None => Success(NotInVocabulary(p))
    case Some(idx) =>
      if idx < |embeddings| then Success(Embedding(p, embeddings[idx])) else Failure(IndexError)
  }

  /** With one row per vocabulary word, as the pipeline computes them, the lookup never raises. */
  lemma EmbeddingsAligned<Row>(vocabulario: seq<String>, embeddings: seq<Row>, palavra: String)
    requires |embeddings| == |vocabulario|
    ensures GetEmbedding(vocabulario, embeddings, palavra).Success?
  {
  }

  /**
   * A vocabulary entry with upper-case letters is never found: the looked-up
   * word is always lowered first. Such an entry's row can only be reached
   * under some other, lower-case entry.
   */
  lemma UpperCaseEntryUnreachable<Row>(vocabulario: seq<String>, embeddings: seq<Row>, palavra: String, i: nat)
    requires i < |vocabulario| && Lower(vocabulario[i]) != vocabulario[i]
    ensures GetEmbedding(vocabulario, embeddings, palavra).Success? &&
            GetEmbedding(vocabulario, embeddings, palavra).value.Embedding?
        ==> Lower(palavra) != vocabulario[i]
  {
    NotLowerNeverMatched(vocabulario[i], palavra);
  }

  // ---------------------------------------------------------------------------
  // sugerir_com_gpt2
  // ---------------------------------------------------------------------------

  /** `[f"{prefixo}{s}" for s in sugestoes]`. */
  function Completed(prefix: String, sugestoes: seq<String>): (ws: seq<String>)
    ensures |ws| == |sugestoes|
    ensures forall i :: 0 <= i < |ws| ==> prefix <= ws[i] && ws[i][|prefix|..] == sugestoes[i]
  {
    seq(|sugestoes|, i requires 0 <= i < |sugestoes| => prefix + sugestoes[i])
  }

  /** Completing with a common prefix is one-to-one, so distinct suggestions stay distinct. */
  lemma CompletedKeepsDistinct(prefix: String, sugestoes: seq<String>)
    requires Distinct(sugestoes)
    ensures Distinct(Completed(prefix, sugestoes))
  {
    var ws := Completed(prefix, sugestoes);
    forall i, j | 0 <= i < j < |ws| ensures ws[i] != ws[j] {
      assert ws[i][|prefix|..] == sugestoes[i];
      assert ws[j][|prefix|..] == sugestoes[j];
    }
  }

  /**
   * `sugerir_com_gpt2`, given the model outputs: the next words after the
   * prompt, which here is the prefix as typed (not lowered), each appended
   * to that prefix. `novas` is the list gerar_sugestoes_gpt2 returns.
   */
  method SuggestWithGpt2(prefixo: String, limite: nat, decodings: seq<String>)
    returns (r: Result<Suggestions, PyException>, novas: seq<String>)
    ensures r.Failure? <==> None in NextWords(prefixo, decodings)
    ensures r.Failure? ==> r.error == IndexError && novas == []
    ensures r.Success? ==>
      IsSetListing(AlphaWords(NextWords(prefixo, decodings)), limite, novas)
      && r.value.sugestoes == Completed(prefixo, novas)
    ensures r.Success? ==> r.value.prefixo == prefixo && |r.value.sugestoes| <= limite && Distinct(r.value.sugestoes)
    ensures r.Success? ==> forall w :: w in r.value.sugestoes ==>
      prefixo <= w && IsAlpha(w[|prefixo|..]) && Some(w[|prefixo|..]) in NextWords(prefixo, decodings)
  {
    var sugestoes := ExtractContinuations(prefixo, decodings, limite);
    if sugestoes.Failure? {
      return Failure(sugestoes.error), [];
    }
    novas := sugestoes.value;
    var completas := Completed(prefixo, sugestoes.value);
    CompletedKeepsDistinct(prefixo, sugestoes.value);
    forall w | w in completas
      ensures prefixo <= w && IsAlpha(w[|prefixo|..]) && Some(w[|prefixo|..]) in NextWords(prefixo, decodings)
    {
      var i :| 0 <= i < |completas| && completas[i] == w;
      assert sugestoes.value[i] in sugestoes.value;
    }
    r := Success(Suggestions(prefixo, completas));
  }
}
