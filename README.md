# RecomNLP word suggestion, modelled in Dafny

RecomNLP suggests Portuguese words for a typed prefix. Offline, it builds
three resources:

- a **frequency table** from a lexicon file, where the k-th distinct accepted
  word scores 1/k;
- a **vocabulary** of tokenizer words;
- a **character trie** (pygtrie `CharTrie`) that maps each lower-cased
  vocabulary word to its position.

Online, the service answers in four ways:

- **`sugerir`**: the trie keys under the prefix, best score first, cut to
  `limite`;
- **`sugerir_hibrido`**: trie hits, then, when there are fewer than `limite`,
  continuations sampled from GPT-2, merged and returned in code-point order;
- **`sugerir_com_gpt2`**: the GPT-2 continuations appended to the prefix;
- **`get_frequencia`** and **`get_embedding`**: lookups in the table and in the
  vocabulary.

The project models this core and proves what the code guarantees. The
modules are:

- `Wrappers`: `Option`, `Result` and the two Python exceptions that can
  escape, `KeyError` and `IndexError`.
- `Strings`: the `str` methods used, restricted to Latin-1 characters, the
  encoding the lexicon is read in. These are `isalpha`, `lower`,
  `isspace`/`strip()`, `split('\t')[0]`, `split()` and `split()[0]`, as well as
  `s[n:]` and the code-point order `<`.
- `Seqs`: `xs[:n]`, including negative `n`, and `xs.index(x)`.
- `Ordering`: the stable descending sort by `frequencia.get(w, 1.0)`, and
  `sorted(set(xs))`.
- `Tries`: `CharTrie` as a class whose fields are its keys with their
  payloads, plus the order its traversal visits them in. That order is
  deliberately left unconstrained.
- `Preprocessing`: `preprocessamento.py`.
  - The lexicon loop, the trie loop, the continuation loop and the hybrid
    updates are methods with loop invariants, each proved against a
    specification function.
  - The comprehensions and the final `sorted(set(...))[:limite]` are functions.
  - `list(set(...))` is a loop that picks the set's elements in an order the
    model leaves open.
- `Api`: the handlers of `api.py`, as functions of the loaded resources.
  `sugerir_com_gpt2` calls the continuation method, so it is a method.

Behaviour of the code worth noting, which the model follows:

- `sugerir_hibrido` works on a trie and table it creates empty (lines
  140-141). Its trie phase therefore always finds nothing, and the fallback
  runs whenever `limite > 0`. The `SuggestHybridOn` method also models the
  same steps over any given trie and table.
- A decoding with only whitespace after the prompt raises `IndexError` at
  `split()[0]`. Nothing catches it, so the whole hybrid or GPT-2 request
  fails. The model returns `Failure(IndexError)`.
- The prefix itself is never tested with `isalpha`. Only the continuation
  `s` is tested (line 133).
- The fallback filter (line 155) tests the continuation `s` itself against
  the candidates, while what it adds is `prefixo + s`.
- `has_subtrie(p)` in pygtrie holds when the node for `p` has children, that
  is, when some key is strictly longer than `p` and starts with it. A prefix
  that is itself a key with no longer key under it has no subtrie. See
  "## Findings".

## Model

| member | source | states |
|---|---|---|
| Strings.LowerChars | preprocessamento.py:35 | lowering maps every character, in place, through the Latin-1 lower-case mapping |
| Strings.LowerIdempotent | api.py:37 | a lowered string is unchanged by lowering it again |
| Strings.LowerKeepsAlpha | preprocessamento.py:35-37 | `isalpha` gives the same answer before and after lowering |
| Strings.LStripSpec | preprocessamento.py:28 | `lstrip()` removes a leading run of whitespace and keeps the rest of the string |
| Strings.RStripSpec | preprocessamento.py:28 | `rstrip()` removes a trailing run of whitespace and keeps the rest of the string |
| Strings.StripSpec | preprocessamento.py:28-30 | the stripped line is empty exactly when the line is all whitespace; otherwise it starts and ends with a non-space; a line without whitespace is unchanged |
| Strings.FirstFieldSpec | preprocessamento.py:32-35 | the first column is a prefix of the line without tabs, ending at the first tab when there is one |
| Strings.TokenSpec | preprocessamento.py:132 | a word of `split()` is a whitespace-free prefix of the rest that stops only at whitespace or the end |
| Strings.SplitSpec | preprocessamento.py:132 | `split()` yields non-empty words without whitespace, and no word exactly when the string is all whitespace |
| Strings.FirstWordIsWord | preprocessamento.py:132 | `split()[0]`, when it exists, is a non-empty word without whitespace |
| Strings.FirstWordMissing | preprocessamento.py:132 | `split()[0]` raises exactly on a string of whitespace only |
| Strings.NotLowerNeverMatched | api.py:58-60 | a string that lowering changes is never equal to a lowered string |
| Strings.LexLessIrreflexive | preprocessamento.py:164 | no string sorts before itself |
| Strings.LexLessTransitive | preprocessamento.py:164 | the code-point order is transitive |
| Strings.LexLessTotal | preprocessamento.py:164 | any two different strings are ordered one way |
| Strings.LexLessAsymmetric | preprocessamento.py:164 | two strings are never ordered both ways |
| Seqs.Take | preprocessamento.py:69 | `xs[:n]` for `n >= 0` is the prefix of length `min(n, len(xs))` |
| Seqs.SliceTo | preprocessamento.py:164 | `xs[:n]` is a prefix of `xs`, of length `min(n, len)` for `n >= 0`, and without the last `-n` elements otherwise |
| Seqs.TakeKeepsDistinct | preprocessamento.py:136 | truncating a duplicate-free list keeps it duplicate-free |
| Seqs.DistinctCardinality | preprocessamento.py:136 | a duplicate-free list is as long as its set |
| Seqs.PermutationKeepsDistinct | api.py:43 | sorting a duplicate-free list cannot create duplicates |
| Seqs.DistinctMultiplicity | api.py:43 | in a duplicate-free list every element occurs at most once |
| Seqs.IndexOf | api.py:60 | `index` is absent exactly when the word is absent, and otherwise is the first position holding it |
| Ordering.InsertByScore | api.py:43 | inserting into a list sorted by descending score keeps it sorted and adds exactly the new word |
| Ordering.SortByScore | api.py:43 | the result is ordered by non-increasing `frequencia.get(w, 1.0)` and is a permutation of the input |
| Ordering.SortByScoreElems | api.py:43 | sorting keeps exactly the words it was given |
| Ordering.SortedPrefix | api.py:43-45 | cutting a score-sorted list keeps it sorted |
| Ordering.WithScoreInsert | api.py:43 | insertion places a word after every earlier word of its score |
| Ordering.SortByScoreStable | api.py:43 | words of equal score keep their input order |
| Ordering.StrictlySortedDistinct | preprocessamento.py:164 | a strictly ascending list has no duplicates |
| Ordering.InsertUnique | preprocessamento.py:164 | inserting into an ascending set list keeps it strictly ascending and adds just that word |
| Ordering.SortUnique | preprocessamento.py:164 | `sorted(set(xs))` is strictly ascending with exactly the words of `xs` |
| Ordering.StrictlySortedUnique | preprocessamento.py:164 | two strictly ascending lists with the same words are equal |
| Ordering.SortUniqueDependsOnElems | preprocessamento.py:164 | `sorted(set(xs))` depends only on the set of words, not on their order or repetition |
| Tries.FilterPrefix | api.py:42 | keeps exactly the words with that prefix, without adding duplicates |
| Tries.CharTrie.constructor | preprocessamento.py:71 | a new trie has no keys |
| Tries.CharTrie.Set | preprocessamento.py:73 | `trie[k] = v` stores `v` under `k` and changes no other key; an existing key keeps its place in traversal order; a new key is inserted without reordering the others |
| Tries.CharTrie.KeysWithPrefix | api.py:42 | the keys under a prefix, each once, and no others |
| Tries.CharTrie.IterKeys | preprocessamento.py:146-150 | `iterkeys(p)` raises `KeyError` exactly when no node exists for `p`; otherwise it yields each key starting with `p` once |
| Tries.SubtrieHasKeys | api.py:39-42 | after `has_subtrie(p)` holds, `iterkeys(p)` succeeds and yields a key longer than `p` |
| Tries.SubtrieOfNonKey | api.py:39-42 | for a prefix that is not a key, `has_subtrie` holds exactly when some key starts with it |
| Tries.ProperPrefixesHaveSubtrie | api.py:39 | every proper prefix of a stored key has a subtrie |
| Preprocessing.OfferedIsLowerAlpha | preprocessamento.py:28-37 | a line contributes only an alphabetic lower-case word |
| Preprocessing.ReadLine | preprocessamento.py:28-37 | the per-line steps produce exactly the word the line offers, or nothing for a blank or non-alphabetic line |
| Preprocessing.BuildFrequencyTable | preprocessamento.py:27-38 | the loop over the lines after the header yields the table that the rank-score specification assigns to the offered words |
| Preprocessing.TableOfStep | preprocessamento.py:37-38 | each line adds its word with score 1/(size+1) when it is new, and otherwise leaves the table unchanged |
| Preprocessing.RankedKeys | preprocessamento.py:37-38 | the table's keys are exactly the distinct accepted words, as many as there are |
| Preprocessing.RankedScores | preprocessamento.py:38 | the k-th distinct accepted word scores exactly 1/k |
| Preprocessing.ScoresInUnitInterval | preprocessamento.py:38 | every stored score lies in (0, 1] |
| Preprocessing.ScoresDecrease | preprocessamento.py:38 | scores strictly decrease in acceptance order |
| Preprocessing.ReciprocalDecreases | preprocessamento.py:38 | `1.0 / n` strictly decreases as `n` grows |
| Preprocessing.InTableOfIff | preprocessamento.py:37-38 | a word is in the table exactly when some line offered it |
| Preprocessing.InTableIff | preprocessamento.py:27-37 | a word is in the lexicon's table exactly when some line after the header offers it, so the header never contributes |
| Preprocessing.TableWordsAreLower | preprocessamento.py:35 | every table key is in lower case |
| Preprocessing.FirstOccurrenceWins | preprocessamento.py:37 | later lines never change the score of a word already stored |
| Preprocessing.RejectedLineIgnored | preprocessamento.py:29-37 | a blank or non-alphabetic line can be deleted without changing the table |
| Preprocessing.BlankLineRejected | preprocessamento.py:28-30 | blank lines contribute nothing |
| Preprocessing.KeptTokens | preprocessamento.py:66-68 | exactly the tokenizer words that are alphabetic and longer than 2 characters are kept |
| Preprocessing.SelectVocabulary | preprocessamento.py:66-69 | the vocabulary has at most `max_palavras` words, each alphabetic, longer than 2 characters and from the tokenizer |
| Preprocessing.KeptTokensAppend | preprocessamento.py:66-68 | the filter keeps tokenizer order: filtering a concatenation concatenates the filtered parts |
| Preprocessing.KeptTokensDistinct | preprocessamento.py:66-68 | distinct tokenizer words give a duplicate-free vocabulary |
| Preprocessing.VocabularyMembership | preprocessamento.py:66-69 | a tokenizer word is in the vocabulary exactly when it qualifies and fewer than `max_palavras` qualifying words precede it |
| Preprocessing.TrieIndexKeys | preprocessamento.py:71-73 | the keys are exactly the lowered vocabulary words |
| Preprocessing.TrieIndexLastPosition | preprocessamento.py:71-73 | each key's payload is the last position whose word lowers to it |
| Preprocessing.PrepareVocabularyAndTrie | preprocessamento.py:65-73 | returns the selected vocabulary and a fresh trie holding exactly the index specification's entries |
| Preprocessing.NextWordIsWord | preprocessamento.py:132 | the next word, when there is one, is non-empty and has no whitespace |
| Preprocessing.NextWordMissing | preprocessamento.py:132 | `IndexError` is raised exactly when only whitespace follows the first `len(prefixo)` characters of the decoding |
| Preprocessing.NextWords | preprocessamento.py:130-132 | one next-word result per decoding, in order |
| Preprocessing.AlphaWordsMembership | preprocessamento.py:133-134 | the collected words are exactly the alphabetic next words |
| Preprocessing.AlphaWordsStep | preprocessamento.py:130-134 | each decoding appends its next word when alphabetic, and a missing word is the first failure |
| Preprocessing.CollectNextWords | preprocessamento.py:129-134 | the loop fails with `IndexError` exactly when some decoding has no next word, and otherwise collects the alphabetic next words in order |
| Preprocessing.ListSet | preprocessamento.py:136 | `list(set(xs))` lists every element of the set once, in some order |
| Preprocessing.ExtractContinuations | preprocessamento.py:129-136 | fails with `IndexError` exactly when a decoding has no next word; otherwise returns a duplicate-free selection of the alphabetic next words, as many as there are up to `num_sugestoes` |
| Preprocessing.ElemsAtMostLength | preprocessamento.py:136 | a list has at least as many entries as distinct words |
| Preprocessing.ListingIsComplete | preprocessamento.py:136 | when no more words were collected than requested, the truncation drops none |
| Preprocessing.Completions | preprocessamento.py:155 | every completion starts with the prefix, and there are at most as many as continuations |
| Preprocessing.CompletionsMembership | preprocessamento.py:155 | a word is a completion exactly when it is the prefix plus a continuation `s` with `len(s) > 1` and `s` itself not among the candidates |
| Preprocessing.CompletionsDistinct | preprocessamento.py:155 | distinct continuations give distinct completions |
| Preprocessing.CompletionsDependOnCandidateSet | preprocessamento.py:155 | the filter depends only on which candidates exist, not on their order |
| Preprocessing.CompletionsDependOnContinuationSet | preprocessamento.py:155 | the set of completions depends only on the set of continuations |
| Preprocessing.HybridResult | preprocessamento.py:162-164 | the result is strictly ascending, so duplicate-free, at most `limite` long, and made of merged words |
| Preprocessing.HybridKeepsSmallest | preprocessamento.py:164 | an omitted merged word is larger than every returned word, and for `limite >= 0` exactly `limite` words were returned |
| Preprocessing.HybridStartsWithPrefix | preprocessamento.py:143-164 | when the candidates start with the prefix, every returned word does |
| Preprocessing.FrequencySortHasNoEffect | preprocessamento.py:148-164 | the frequency order of the candidates does not change the result |
| Preprocessing.TrieCandidates | preprocessamento.py:146-150 | the candidates are the trie keys starting with the prefix, each once and as many as there are, in non-increasing score order; `KeyError` gives none |
| Tries.KeysLieUnderNode | preprocessamento.py:146-150 | `iterkeys` raises `KeyError` only where no key starts with the prefix |
| Preprocessing.Marked | preprocessamento.py:159 | the entries `trie[palavra] = True` add, one per completion |
| Preprocessing.Boosted | preprocessamento.py:160 | each completion's new score is one more than `frequencia.get(palavra, 1.0)` |
| Preprocessing.BoostedSnoc | preprocessamento.py:160 | raising one more word adds just that word's raised score |
| Preprocessing.BoostStep | preprocessamento.py:160 | raising one more new word's score extends the raised table by that word alone |
| Preprocessing.MarkStep | preprocessamento.py:159 | storing one more completion extends the trie entries by that key alone |
| Preprocessing.RecordCompletions | preprocessamento.py:158-160 | the trie gains exactly the completions and the table their raised scores, nothing else changes |
| Preprocessing.SuggestHybridOn | preprocessamento.py:143-164 | on any trie and table: the fallback runs exactly when fewer than `limite` candidates exist and then asks for `2*limite` continuations; its `IndexError` propagates; the result is the hybrid merge of the candidates and the listed completions; the updates are exactly the completions' |
| Preprocessing.SuggestHybrid | preprocessamento.py:139-164 | on the fresh empty trie: the request is `2*limite` exactly when `limite > 0`; failure exactly on a decoding without a next word; the result is strictly ascending, at most `limite`, empty for `limite <= 0`; each word is the lowered prefix plus an alphabetic next word longer than one character; with no truncation it is determined by the decodings |
| Preprocessing.HybridFromScratch | preprocessamento.py:140-164 | with no candidates, the merge is the sorted accepted completions, and all of them when nothing was truncated |
| Api.BestFirst | api.py:43-45 | the cut sorted list is non-increasing in score, duplicate-free for distinct input, `min(limite, n)` long, and holds every key when they fit |
| Api.TopKeys | api.py:42-45 | the keys under the prefix, ranked and cut, with the same guarantees |
| Api.Suggest | api.py:35-45 | the reply carries the lowered prefix, is empty without a subtrie, and otherwise lists keys under the prefix, duplicate-free, non-increasing in score, `min(limite, n)` of them |
| Api.BestFirstKeepsBest | api.py:43-45 | a word the ranking leaves out scores no higher than any kept word, and `limite` words were kept |
| Api.SuggestKeepsBest | api.py:43-45 | a key under the prefix that is left out scores no higher than any returned key, and `limite` keys were returned |
| Api.WithScorePrefix | api.py:45 | truncation keeps the equal-score order |
| Api.SuggestStable | api.py:43-45 | keys of equal score appear in the trie's traversal order |
| Api.SuggestIgnoresCase | api.py:37 | the reply does not depend on the case of the prefix |
| Api.LeafWordNotSuggested | api.py:39-40 | a prefix that is a key with no longer key under it gets no suggestions, though `iterkeys` yields it |
| Api.SuggestIntended | api.py:36-45 | the guard on the node instead of the subtrie: the reply lists every key under the prefix whenever at most `limite` exist |
| Api.IntendedAgreesOnSubtries | api.py:39-45 | the intended and written handlers agree where a subtrie exists, and both are empty where no key starts with the prefix |
| Api.GetFrequency | api.py:68-74 | the lowered word's score is returned exactly when it is stored and truthy; otherwise the error reply |
| Api.GetFrequencyOnBuiltTable | api.py:70-74 | on the built table every stored word gets its score, which lies in (0, 1] |
| Api.TableWordsFound | api.py:70-73 | every table word, asked in any case that lowers to it, is answered with its score |
| Api.GetEmbedding | api.py:56-64 | the row at the first position of the lowered word; the error reply exactly when it is absent; `IndexError` exactly when that position has no row |
| Api.EmbeddingsAligned | api.py:60-61 | with one row per vocabulary word the lookup never raises |
| Api.UpperCaseEntryUnreachable | api.py:58-60 | a vocabulary entry with upper-case letters is never matched |
| Api.Completed | api.py:79 | each completed word is the prefix followed by its continuation |
| Api.CompletedKeepsDistinct | api.py:79 | distinct continuations give distinct completed words |
| Api.SuggestWithGpt2 | api.py:77-80 | fails with `IndexError` exactly on a decoding without a next word; otherwise the continuations are a duplicate-free listing of the alphabetic next words, as many as there are up to `limite`, and the reply is each of them appended to the unlowered prefix, in that order |

## Left out

- File and pickle I/O are left out: reading the lexicon as Latin-1, the
  `pickle.dump` and `pickle.load` calls, and `np.load`. The lexicon is a
  sequence of lines, and the loaded resources are parameters.
- The missing-file branch of `baixar_e_preparar_frequencia` (lines 16-20)
  only writes an empty table, so it is not modelled.
- The catch-all `except` (lines 57-58) is not modelled. No modelled step
  raises there.
- Logging `print` calls are not modelled.
- GPT-2 loading and sampling (lines 108-127) are left out. They are a
  stochastic external model, so the decoded outputs are an input sequence.
- How many outputs the model returns for `num_return_sequences` is not
  constrained.
- `calcular_embeddings` and `carregar_dispositivo` are left out: they are
  BERT inference and floating-point pooling. Embedding rows are opaque.
- FastAPI routing, `Query(min_length=1)`, `endpoint_sugestoes` (which only
  wraps `sugerir_hibrido`) and uvicorn are left out.
- `executar_pipeline.py` is not part of this model. It only orchestrates
  the steps above.
- Unicode beyond Latin-1 is not modelled. `isalpha`, `lower` and `isspace`
  follow Python for code points up to 255. Other characters count as
  neither letters nor whitespace, and lowering leaves them unchanged.
- Scores are the exact rationals 1/k, not IEEE doubles.
- Tries.CharTrie: pygtrie's node structure and its actual traversal order
  are not modelled. Nothing depends on an order beyond its being fixed for
  a given trie.
- Preprocessing.ExtractContinuations: the order of `list(set(...))` is left
  open, so the contract says which words come out, not in what order.
- Preprocessing.SelectVocabulary: `max_palavras` is a natural number. A
  negative `max_palavras`, which Python would slice from the end, is not
  modelled, because the pipeline only uses the default of 3000.
- Api.SuggestWithGpt2: `limite` is a natural number. A negative `limite` is
  handed to the generation call as `num_return_sequences`, and its effect
  there is not modelled.

## Findings

| source | as written | input that shows it | evidently intended | confidence | as-written member | corrected member |
|---|---|---|---|---|---|---|
| api.py:39-40 | the guard `has_subtrie(prefixo)` is false for a prefix that is a stored word with no longer word under it, so the handler answers `[]` | a trie whose only key is `sol`, queried with prefix `sol`: `iterkeys("sol")` yields `sol`, but the reply is empty | suggest the words that start with the prefix (the handler's description), including the prefix itself when it is a word | medium, not executed | Api.LeafWordNotSuggested | Api.SuggestIntended |
