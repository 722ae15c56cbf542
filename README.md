# CLIR glue logic in Dafny

This project models the deterministic logic of a cross-language document
retrieval pipeline. The pipeline translates a query, ranks a fixed corpus
against it with TF-IDF and cosine similarity, and evaluates the ranking.
The libraries behind it (scikit-learn, googletrans, NLTK) are inputs of the
model. The code around them is modelled and proved:

- `text.dfy` (`Text`): the Python string operations the code relies on, over
  `seq<char>`. This covers the whitespace class of `str.isspace`, `\s`,
  `str.strip` and `str.split()`, plus `str.lower` on ASCII, `str.split(sep)`
  and `sep.join`.
- `preprocessing.dfy` (`Preprocessing`): `TextPreprocessor.clean_text`,
  `tokenize` with its fallback, `remove_stopwords`, `lemmatize`, `preprocess`
  and `preprocess_for_retrieval`. The NLTK tokenizer, lemmatizer and stopword
  set are fields of a `Preprocessor` value.
- `corpus.dfy` (`Corpus`): how `load_corpus` turns a corpus text into
  documents, and the built-in ten-sentence sample.
- `ranking.dfy` (`Ranking`): the result selection of `retrieve`, given the
  similarity vector and an argsort of it.
- `retrieval.dfy` (`Retrieval`): the state of `DocumentRetriever`. This is
  load-or-rebuild on construction, `load_corpus`, `build_index`,
  `save_model`, `load_model` and `retrieve`, with the files as a `Store`
  object. It also covers the module singleton (`get_retriever`,
  `retrieve_documents`).
- `evaluation.dfy` (`Evaluation`): Precision@K, Recall@K, F1@K, mean
  reciprocal rank, `evaluate_query` and `evaluate_batch`. Floats are reals.
- `translation.dfy` (`Translation`): `TranslationEngine`, a translator behind
  an in-memory cache. The remote detector and translator are oracles that
  answer `None` when the call raises. Every request sent to them is recorded,
  so each path's calls are stated. The module singleton is `EngineSlot`.
- `header.dfy` (`Header`): `parse_header` of `cgi.py`.

## Model

| member | source | states |
|---|---|---|
| Header.ParseHeader | cgi.py:14-42 | An empty line gives `("", {})`. The primary value is the first `;`-piece, stripped and with its case kept. The parameters are the dictionary the loop builds from the other pieces. |
| Header.ParamsStep | cgi.py:34-40 | One loop turn: an empty piece or one without `=` leaves the dictionary as it was. Any other piece sets its key to its value. |
| Header.FirstEqualsSplits | cgi.py:37-39 | A piece is split at its first `=` only. The key is the stripped, lower-cased text before it. The value is the rest with quotes removed, and it may itself contain `=`. |
| Header.IndexOf | cgi.py:37 | Finds the first occurrence of the character: it is there, and not earlier. |
| Header.AssignKeys | cgi.py:34-40 | A key is in the parameter dictionary exactly when some parameter entry has that key. |
| Header.AssignLastWins | cgi.py:40 | When a key repeats, the value of its last entry is the one kept. |
| Header.AssignValues | cgi.py:40 | Every stored value is the value of some entry with that key. |
| Header.AssignSize | cgi.py:34-40 | The dictionary holds at most one key per entry. |
| Header.ValueChars | cgi.py:37-39 | A parameter value holds only characters of its piece. |
| Header.EntriesAvoid | cgi.py:30-39 | A character that no piece contains occurs in no parameter value. |
| Header.HeaderBounds | cgi.py:30-40 | There are no more parameters than `;` characters in the line. Neither the primary value nor any parameter value contains `;`. |
| Text.Lower | src/preprocessing.py:81 | Lower-casing keeps the length and leaves no upper-case letter. Each upper-case ASCII letter becomes its lower-case letter, and every other character is kept. |
| Text.Trim | cgi.py:39 | `strip(chars)` neither starts nor ends with a stripped character. It is empty exactly when every character is stripped, and it keeps only characters of the input. |
| Text.TrimIsSlice | cgi.py:39 | `strip(chars)` is the slice of the input that starts after its longest stripped prefix and is followed only by stripped characters. |
| Text.Strip | src/preprocessing.py:93 | `str.strip()` leaves no whitespace at either end. It is empty exactly when the input is all whitespace, and it keeps only input characters. |
| Text.StripSlice | src/preprocessing.py:93 | `str.strip()` is the slice of the input that starts after its leading whitespace and is followed only by whitespace. |
| Text.SplitOn | src/retrieval.py:62 | `s.split(sep)` always gives at least one piece. `JoinSplit`, `SplitOnPieces` and `SplitOnHead` state what the pieces are. |
| Text.SplitOnPieces | src/retrieval.py:62 | The pieces lie between the leftmost, non-overlapping occurrences of `sep`. No piece contains `sep`, and no occurrence starts inside a piece and runs into the separator after it. |
| Text.SplitOnHead | src/retrieval.py:62 | The first piece is a prefix of the text. When more pieces follow, it is followed by `sep`. |
| Text.JoinSplit | src/retrieval.py:62 | Joining the pieces of `s.split(sep)` with `sep` gives back `s`. |
| Text.SplitChars | src/retrieval.py:62 | Every character of every piece of a split occurs in the split text. |
| Text.SplitOnChar | cgi.py:30 | Splitting on one character gives pieces free of it, one more piece than it has occurrences. |
| Text.Words | src/preprocessing.py:111 | Every token of `str.split()` is non-empty and free of whitespace. |
| Text.WordsSkipSpaces | src/preprocessing.py:93 | Leading whitespace does not change the `str.split()` tokens. |
| Text.WordsAppendSpaces | src/preprocessing.py:93 | Trailing whitespace does not change the `str.split()` tokens. |
| Text.WordsOfJoin | src/preprocessing.py:166 | Splitting the blank-join of a list of words gives back the list. |
| Text.JoinIsNormalized | src/preprocessing.py:166 | The blank-join of words has single interior blanks and no whitespace at either end. |
| Text.JoinOfWords | src/preprocessing.py:90-93 | A string with single interior blanks is the blank-join of its own tokens. |
| Preprocessing.ScrubRuns | src/preprocessing.py:84-87 | A regular-expression deletion of a pattern that matches from a non-space character to the end of its run. It keeps only input characters and keeps leading whitespace. `ScrubRun` and `ScrubSpace` state what it does to each run. |
| Preprocessing.ScrubRun | src/preprocessing.py:84-87 | On a non-space run followed by whitespace or the end, the output keeps the run up to its first match position `m` and deletes the rest. It then goes on with the text after the run. |
| Preprocessing.ScrubSpace | src/preprocessing.py:84-87 | A whitespace character is kept, and the text after it is scrubbed on its own. |
| Preprocessing.ScrubRunPrefix | src/preprocessing.py:84-87 | Scrubbing cuts the leading non-space run short or drops it, and never lengthens it. |
| Preprocessing.UrlAtPrefix | src/preprocessing.py:84 | A URL match on a shortened run is a match on the full run. |
| Preprocessing.EmailAtPrefix | src/preprocessing.py:87 | An e-mail match on a shortened run is a match on the full run. |
| Preprocessing.NoMatchLeft | src/preprocessing.py:84-87 | After a scrub with such a pattern, no position of the output matches it. |
| Preprocessing.UrlMatcher | src/preprocessing.py:84 | The URL pattern `http\S+\|www\S+\|https\S+` matches from a position to the end of its run: a match on a shorter run is a match on the full run. |
| Preprocessing.EmailMatcher | src/preprocessing.py:87 | The e-mail pattern `\S+@\S+` matches from a position to the end of its run: a match on a shorter run is a match on the full run. |
| Preprocessing.RemoveUrls | src/preprocessing.py:84 | After `re.sub(r'http\S+\|www\S+\|https\S+', '', s)` no URL match is left anywhere. |
| Preprocessing.RemoveEmails | src/preprocessing.py:87 | After `re.sub(r'\S+@\S+', '', s)` no e-mail match is left anywhere. |
| Preprocessing.ScrubFixed | src/preprocessing.py:84-87 | Text with no match is returned unchanged. With the two lemmas above, each substitution is idempotent. |
| Preprocessing.CollapseSpaces | src/preprocessing.py:90 | `re.sub(r'\s+', ' ', s)` never lengthens the text. |
| Preprocessing.CollapseFirst | src/preprocessing.py:90 | `re.sub(r'\s+', ' ', s)` starts with whitespace exactly when `s` does. |
| Preprocessing.CollapseBlanks | src/preprocessing.py:90 | After the collapse, the only whitespace is a blank, and it is never followed by whitespace. |
| Preprocessing.CollapseChars | src/preprocessing.py:90 | Every character after the collapse is a blank or comes from the input. |
| Preprocessing.WordsCollapse | src/preprocessing.py:90 | Collapsing whitespace keeps the `str.split()` tokens. |
| Preprocessing.WordsStrip | src/preprocessing.py:93 | Stripping keeps the `str.split()` tokens. |
| Preprocessing.StripNormalized | src/preprocessing.py:90-93 | Stripping text whose whitespace is single blanks leaves single interior blanks and clean ends. |
| Preprocessing.CleanText | src/preprocessing.py:70-95 | The output has single interior blanks and no whitespace at either end. It holds no upper-case letter. It is the blank-join of the tokens of the lower-cased text with URL and e-mail runs deleted. |
| Preprocessing.Tokenize | src/preprocessing.py:97-113 | When `word_tokenize` succeeds its tokens are returned. When it raises, the tokens are `str.split()` tokens: non-empty and free of whitespace. On cleaned text, joining them with blanks gives the text back. |
| Preprocessing.RemoveStopwords | src/preprocessing.py:115-125 | Every kept token passes both tests (lower-case form not a stopword, not a substring of `string.punctuation`). So it is non-empty, and it is a token of the input. |
| Preprocessing.RemoveStopwordsCount | src/preprocessing.py:125 | Each token value is kept as often as it occurs when it passes the test, and not at all otherwise. |
| Preprocessing.RemoveStopwordsAppend | src/preprocessing.py:125 | Filtering a concatenation filters each part, so input order is kept. |
| Preprocessing.Lemmatize | src/preprocessing.py:127-137 | One lemma per token, in order: position `i` holds the lemmatizer's form of token `i`. |
| Preprocessing.Preprocess | src/preprocessing.py:139-168 | Without lemmatizing, and with whitespace-free tokens, the output has single interior blanks. Its tokens are the tokens of the cleaned text, stopword-filtered when the flag is on. With the `str.split()` fallback and both flags off, the output is the cleaned text. |
| Preprocessing.PreprocessForRetrieval | src/preprocessing.py:170-180 | When the tokens of the cleaned text are words, the retrieval form has single interior blanks. Its tokens are then the stopword-filtered tokens. Tokens are always words with the `str.split()` fallback, so there the form is the filtered `str.split()` tokens of the cleaned text. |
| Corpus.StripNonBlank | src/retrieval.py:62 | Every document is non-empty with no whitespace at either end. There are no documents exactly when every piece is blank. |
| Corpus.StripNonBlankAppend | src/retrieval.py:62 | The paragraph filter respects concatenation, so file order is kept. |
| Corpus.FallbackFindsNothing | src/retrieval.py:61-66 | The line-by-line fallback runs only when the text is all whitespace, so it finds no document either. |
| Corpus.FileDocuments | src/retrieval.py:59-66 | The documents are the stripped, non-blank `"\n\n"`-pieces of the file, in file order: the line fallback never adds one. Each is stripped and non-blank, and there are none exactly when the file is all whitespace. |
| Ranking.TopIndices | src/retrieval.py:153 | `np.argsort(s)[::-1][:top_k]` has the length of Python's slice, and its entries are the argsort read from the end. |
| Ranking.ReverseArgsort | src/retrieval.py:153 | The reversed argsort ranks distinct indices by non-increasing score. |
| Ranking.ArgsortCovers | src/retrieval.py:153 | An argsort lists every index. |
| Ranking.Positive | src/retrieval.py:157-158 | The kept indices are no more than the candidates, and each is a document index with a positive score. |
| Ranking.Pairs | src/retrieval.py:158 | One `(document, score)` pair per selected index, in order. |
| Ranking.PositiveMembers | src/retrieval.py:157-158 | An index is kept exactly when it is among the top indices and its score is positive. |
| Ranking.PositiveRanking | src/retrieval.py:156-159 | Keeping the positive entries of a ranking leaves a ranking. |
| Ranking.SelectTopK | src/retrieval.py:156-159 | The loop returns the pairs of the selected indices: at most `top_k` of them, each with a positive score, in non-increasing score order. |
| Ranking.SelectedRanked | src/retrieval.py:153-159 | The selected indices are distinct, have positive scores, come by non-increasing score, and number at most `top_k`. |
| Ranking.SelectedPairs | src/retrieval.py:156-159 | The returned pairs number at most `top_k`, have positive scores, and come by non-increasing score. |
| Ranking.SelectedAreBest | src/retrieval.py:153-159 | No index left out scores above any returned score. |
| Ranking.PositiveCut | src/retrieval.py:153-159 | Cutting a ranking to `t` entries keeps `min(t, c)` positive entries, where `c` counts the positive entries. |
| Ranking.PositiveOfAll | src/retrieval.py:153-159 | The full reversed argsort has exactly as many positive entries as there are indices with a positive score. |
| Ranking.SelectedCount | src/retrieval.py:153-159 | `retrieve` returns `min(top_k, number of positive scores)` results, with `top_k` read as a Python slice bound. |
| Retrieval.ResolvedPath | src/retrieval.py:26 | An empty corpus path means the default one; any other path is kept. |
| Retrieval.CorpusOf | src/retrieval.py:39-66 | An absent file gives the ten-sentence sample, in order. A present file gives the stripped, non-blank `"\n\n"`-pieces of its text, in file order. Each is stripped and non-blank, and there are none exactly when the text is all whitespace. |
| Retrieval.PreprocessAll | src/retrieval.py:75-78 | One preprocessed text per document, in order. |
| Retrieval.DocumentRetriever.constructor | src/retrieval.py:18-37 | With `load_existing` and a saved model, the documents and index are the saved ones. Otherwise, or when loading raises, the corpus is read, the index is built and the model is saved. The corpus files are unchanged. |
| Retrieval.DocumentRetriever.LoadCorpus | src/retrieval.py:39-68 | The documents become the corpus documents of the configured path. |
| Retrieval.DocumentRetriever.BuildIndex | src/retrieval.py:70-94 | The index is fitted on the preprocessed documents, and that model is saved. |
| Retrieval.DocumentRetriever.SaveModel | src/retrieval.py:96-110 | The model file holds the current documents and index. |
| Retrieval.DocumentRetriever.LoadModel | src/retrieval.py:112-126 | A readable model gives its documents and index, and the file is unchanged. An unreadable one makes the retriever read the corpus and rebuild. |
| Retrieval.DocumentRetriever.Retrieve | src/retrieval.py:128-162 | The results are the pairs of the selected indices for the query's scores: at most `top_k`, each with a positive score and a corpus document, in non-increasing score order. |
| Retrieval.DocumentRetriever.RetrieveDocuments | src/retrieval.py:164-175 | Returns what `retrieve` returns. |
| Retrieval.RetrieverRegistry.constructor | src/retrieval.py:178-179 | The module starts with no retriever. |
| Retrieval.RetrieverRegistry.GetRetriever | src/retrieval.py:182-187 | The first call creates a retriever for the given path: it takes the saved documents and index when the model file holds them, and otherwise reads the corpus, builds the index and saves the model. Corpus files are unchanged. Later calls return the same object, ignore the path, and touch no file. |
| Retrieval.RetrieverRegistry.RetrieveDocuments | src/retrieval.py:190-202 | The first call creates the retriever on the default corpus path, loading or rebuilding as `GetRetriever` does. Later calls reuse it and touch no file. The result is what that retriever's `retrieve` returns. |
| Evaluation.CountIn | src/evaluation.py:42 | Counting relevant entries with repetition never exceeds the number of entries. |
| Evaluation.CountInAll | src/evaluation.py:42 | Every entry is counted exactly when every entry is relevant. |
| Evaluation.PrecisionAtK | src/evaluation.py:23-44 | The result is 0 when `k == 0` or nothing was retrieved. For positive `k` it lies in [0, 1] and is at most `len(retrieved) / k`. For negative `k` it is not positive. |
| Evaluation.PrecisionIsOne | src/evaluation.py:38-44 | For positive `k`, precision is 1 exactly when at least `k` documents were retrieved and the first `k` are all relevant. |
| Evaluation.PrecisionMonotoneInRelevant | src/evaluation.py:38-44 | More relevant documents never lower precision. |
| Evaluation.RecallAtK | src/evaluation.py:46-68 | The result is 0 with no relevant document, and always lies in [0, 1]. |
| Evaluation.RecallIsOne | src/evaluation.py:58-68 | Recall is 1 exactly when there is a relevant document and every one is among the first `k` retrieved. |
| Evaluation.RecallMonotone | src/evaluation.py:61-66 | Recall never decreases as `k >= 0` grows. |
| Evaluation.HarmonicMean | src/evaluation.py:85-88 | The result is 0 when `p + r == 0`. For non-negative arguments it lies between them and is 0 exactly when one of them is. |
| Evaluation.F1AtK | src/evaluation.py:70-88 | For positive `k` it lies in [0, 1] and is 0 exactly when precision or recall is. |
| Evaluation.FirstRelevant | src/evaluation.py:105-109 | Finds the position of the first relevant document, or none exactly when no document is relevant. |
| Evaluation.ReciprocalRank | src/evaluation.py:103-112 | A query contributes a value in [0, 1], which is 0 exactly when no retrieved document is relevant. |
| Evaluation.ReciprocalRanks | src/evaluation.py:100-112 | One reciprocal rank per query, in order. |
| Evaluation.MeanBounds | src/evaluation.py:114 | The mean of values in [0, 1] lies in [0, 1]. |
| Evaluation.MeanReciprocalRank | src/evaluation.py:90-114 | The result is 0 for no queries. Otherwise it is the mean of the reciprocal ranks, each `1 / rank` of the first relevant document (or 0). It lies in [0, 1]. |
| Evaluation.RelevantDocs | src/evaluation.py:133-134 | Only corpus documents are picked, at most one per index. `RelevantDocsAppend`, `RelevantDocsDrop` and `RelevantDocsPick` state it index by index. |
| Evaluation.RelevantDocsInRange | src/evaluation.py:133-134 | With every index inside the corpus, each index picks its document. |
| Evaluation.RelevantDocsSkips | src/evaluation.py:133-134 | An index outside `[0, len(documents))` is dropped without an error. |
| Evaluation.RelevantDocsAppend | src/evaluation.py:133-134 | Filtering a concatenation of index lists filters each part, so the picked documents follow the order of their indices. |
| Evaluation.RelevantDocsDrop | src/evaluation.py:133-134 | An index outside `[0, len(documents))` is dropped wherever it stands in the list. |
| Evaluation.RelevantDocsPick | src/evaluation.py:133-134 | An index inside the corpus picks its document at its own place in the list. |
| Evaluation.DocsOf | src/evaluation.py:130 | The documents of the results, in order. |
| Evaluation.QueryMetrics | src/evaluation.py:137-147 | The map has exactly the nine metric keys, and every value lies in [0, 1]. |
| Evaluation.EvaluateQuery | src/evaluation.py:116-149 | A query's metrics have exactly the nine keys, each in [0, 1]. |
| Evaluation.BatchMetrics | src/evaluation.py:162-165 | One metrics map per query, in order. |
| Evaluation.BatchHasKeys | src/evaluation.py:162-171 | Every query of a batch reports every metric key. |
| Evaluation.Column | src/evaluation.py:170 | `[m[key] for m in all_metrics]`: one value per query, in order. |
| Evaluation.Averages | src/evaluation.py:167-171 | The averages have exactly the keys `avg_<key>`. |
| Evaluation.AveragesValue | src/evaluation.py:168-171 | Each `avg_<key>` is the mean of `key` over the queries. |
| Evaluation.AveragesInUnit | src/evaluation.py:168-171 | With every per-query value in [0, 1], every average is in [0, 1]. |
| Evaluation.AverageColumns | src/evaluation.py:167-171 | The loop leaves exactly the keys `avg_<key>`, each holding the mean of `key`. |
| Evaluation.EvaluateBatch | src/evaluation.py:151-173 | An empty batch fails: reading `all_metrics[0]` raises. Otherwise the result has exactly the nine `avg_` keys, each the mean over the queries and in [0, 1]. |
| Translation.CacheKey | src/translation.py:54 | The key is the text, `_`, the caller's `src`, `_` and `dest`: each part sits at its own position. |
| Translation.CacheKeyCollision | src/translation.py:54 | Two different `(text, src, dest)` triples share one cache entry. |
| Translation.DetectedLanguage | src/translation.py:34-39 | Failed detection gives `"auto"`; otherwise it gives the detected code. |
| Translation.SourceLanguage | src/translation.py:59-66 | The language sent to the remote service: the caller's `src`, or the detected language when `src` is `"auto"`. |
| Translation.Translated | src/translation.py:41-83 | With caching on, a stored key returns its value with no call and no change; no call happens only in that case. Otherwise the cache is unchanged or, with caching on, gains the caller's key mapped to the result. Without caching the cache is untouched. The last call is a remote translation unless the text comes back unchanged. At most two calls are made, at most one when `src` is not `"auto"`, all on the given text. `TranslateSucceeds` states the success path. |
| Translation.AutoShortcut | src/translation.py:61-65 | With `src == "auto"` and the detected language equal to `dest`, the text comes back unchanged after one detection call, and the cache is not written. |
| Translation.TranslateSucceeds | src/translation.py:59-78 | With no cache hit, no same-language shortcut and a successful remote call, the result is the remote translation. The cache gains the caller's key mapped to it when caching is on. The calls are the detection (when `src` is `"auto"`) and then one remote request from the source language. |
| Translation.FailureKeepsCache | src/translation.py:69-83 | A failed remote translation returns the original text with the cache unchanged. |
| Translation.SameLanguageCallsRemote | src/translation.py:59-69 | With `src == dest` other than `"auto"` and no cache hit, the text still goes to the remote service, whose answer is returned. |
| Translation.TranslateAgainHits | src/translation.py:55-75 | Once a translation is stored, the same request is a cache hit with no call. |
| Translation.NoCacheIgnoresCache | src/translation.py:22-75 | Without caching, the result and the calls do not depend on the cache. |
| Translation.TranslationEngine.constructor | src/translation.py:13-22 | The cache is the file's content with caching on, and empty otherwise. |
| Translation.TranslationEngine.DetectLanguage | src/translation.py:24-39 | Makes one detection request and returns the detected code, or `"auto"` when it fails. |
| Translation.TranslationEngine.Translate | src/translation.py:41-83 | Result, new cache and calls are those of `Translated` on the old cache. A stored translation is also written to the cache file, and the file is unchanged otherwise. |
| Translation.TranslationEngine.TranslateQuery | src/translation.py:85-96 | Translates with `src = "auto"`: result, cache and calls are those of `Translated`. The cache file gains the stored key when the cache changed, and is unchanged otherwise. |
| Translation.TranslationEngine.TranslateDocument | src/translation.py:98-110 | Translates from the given source language: result, cache and calls are those of `Translated`. The cache file gains the stored key when the cache changed, and is unchanged otherwise. |
| Translation.EngineSlot.constructor | src/translation.py:122-123 | The module starts with no engine. |
| Translation.EngineSlot.GetEngine | src/translation.py:126-131 | The first call creates the engine with the given `use_cache`. Later calls return it and ignore the argument. |
| Translation.EngineSlot.TranslateQuery | src/translation.py:134-147 | The module `translate_query` ignores `src` and always auto-detects. It goes through the existing engine, or through a new one created with caching on over the cache file's entries. The cache file gains the stored key when the engine's cache changed, and is unchanged otherwise. |

## Left out

- TF-IDF fitting, the vocabulary cap, n-grams and cosine similarity are scikit-learn float computations. `retrieve` takes the similarity function and `np.argsort` as parameters, required to return one score per document and an argsort. The index is identified with the preprocessed documents it was fitted on.
- Tie order: `np.argsort` defaults to an unstable sort, and its output is reversed. The model states no tie order: the code does not keep tied documents in corpus order.
- Retrieval.DocumentRetriever.constructor: fitting is treated as total. scikit-learn's `fit_transform` raises on an empty corpus (empty vocabulary) and on a one-document corpus (`max_df=0.95` of one document is below `min_df=1`); the exception ends `__init__`. The model returns a retriever with an index in those cases.
- Retrieval.DocumentRetriever.BuildIndex: the same; a `fit_transform` that raises is not modelled.
- Retrieval.DocumentRetriever.Retrieve: requires an index to exist. The rebuild guard at `src/retrieval.py:139-141` is therefore not modelled. Every construction path leaves an index, and nothing clears it.
- Pickle and file I/O: the corpus files and the model file are a `Store` object. Its `modelFile` is missing, unreadable or saved, which stands for `Path.exists`, `pickle.load` success and the saved content. A path that exists but is a directory, encoding errors on read, and a failing `save_model` are not modelled.
- Reading the corpus line by line after `f.seek(0)` is modelled as `content.split('\n')` of the text after universal-newline translation. Carriage returns are not modelled.
- Translation.TranslationEngine.Translate: the save after the in-memory write (`src/translation.py:75`) is modelled as infallible. If the save raised, the caller would get the original text while the memory kept the translation; that case is not modelled.
- googletrans: `detect` and `translate` are oracles returning `None` when the call raises. `get_supported_languages` (`src/translation.py:112-119`) returns the library's language table and is left out.
- The detection failure path: `detect_language` swallows a detection error and returns `"auto"`. `translate` then sends the text to the remote service with `src = "auto"`; it does not take its `except` branch. A same-language `translate(text, "en", "en")` does not return the text unchanged: it still calls the remote service (`Translation.SameLanguageCallsRemote`).
- NLTK: `word_tokenize`, the lemmatizer and the stopword list are fields of `Preprocessor`. Resource downloads and `_load_stopwords` are left out.
- Text.Lower: only ASCII letters are lower-cased. Python's full Unicode `str.lower` is not modelled.
- Python floats are Dafny reals, so rounding is not modelled.
- Preprocessing.Preprocess: with lemmatizing on, or with NLTK tokens that contain whitespace, only the composition is modelled. The lemmatizer and `word_tokenize` are arbitrary functions here.
- Logging, configuration loading and `src/utils.py` are I/O. The cache file is a `CacheFile` object whose entries `translate` updates.
- Front ends (`src/ui.py`, `src/main.py`, the Flask app) and `test_installation.py` are UI and dependency checks, and are left out.
