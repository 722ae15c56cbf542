/** The state of `DocumentRetriever` in `src/retrieval.py` and the module's
    singleton accessor. Files are a `Store` object: corpus texts by path and
    the saved model file. The TF-IDF index is identified with the
    preprocessed documents it was fitted on; the cosine similarity of a query
    against it and `np.argsort` are oracles. */
module Retrieval {
  import opened Prelude
  import opened Preprocessing
  import opened Corpus
  import opened Ranking
  import opened Text

  /** `data/english_corpus.txt` under the project root. */
  const DefaultCorpusPath: string := "data/english_corpus.txt"

  /** What `pickle.load` finds at `models/tfidf_vectorizer.pkl`: no file, a
      file that cannot be loaded, or a model with its documents and index. */
  datatype ModelFile = Missing | Unreadable | Saved(documents: seq<string>, index: seq<string>)

  /** The files the retriever reads and writes. */
  class Store {
    var corpusFiles: map<string, string>
    var modelFile: ModelFile

    /** A saved model has one index row per document, as `save_model`
        writes it. */
    predicate Consistent()
      reads this
    {
      modelFile.Saved? ==> |modelFile.index| == |modelFile.documents|
    }
  }

  /** `[preprocess_for_retrieval(doc) for doc in documents]`: what the
      vectorizer is fitted on. */
  function PreprocessAll(p: Preprocessor, documents: seq<string>): (r: seq<string>)
    ensures |r| == |documents|
    ensures forall i :: 0 <= i < |r| ==> r[i] == PreprocessForRetrieval(p, documents[i])
  {
    seq(|documents|, i requires 0 <= i < |documents| => PreprocessForRetrieval(p, documents[i]))
  }

  /** The documents `load_corpus` sets: the sample corpus when the file is
      absent, the documents of its text otherwise: each stripped and
      non-blank, and none exactly when the file is all whitespace. */
  function CorpusOf(files: map<string, string>, path: string): (docs: seq<string>)
    ensures path !in files ==> docs == SampleCorpus
    ensures path in files ==> docs == FileDocuments(files[path])
    ensures path in files ==> docs == StripNonBlank(SplitOn(files[path], "\n\n"))
    ensures path in files ==> forall k :: 0 <= k < |docs| ==> IsDocument(docs[k])
    ensures path in files ==> (docs == [] <==> AllSpace(files[path]))
  {
    if path in files then FileDocuments(files[path]) else SampleCorpus
  }

  /** `corpus_path or DEFAULT`: an empty path means the default one. */
  function ResolvedPath(corpusPath: string): (r: string)
    ensures r != ""
    ensures corpusPath != "" ==> r == corpusPath
  {
    if corpusPath == "" then DefaultCorpusPath else corpusPath
  }

  class DocumentRetriever {
    const corpusPath: string
    const preprocessor: Preprocessor
    const store: Store
    var documents: seq<string>
    /** `vectorizer` and `document_vectors`: `None` until built or loaded. */
    var index: Option<seq<string>>

    /** Built or loaded: there is an index with one row per document. */
    predicate Valid()
      reads this
    {
      index.Some? && |index.value| == |documents|
    }

    /** The state `load_corpus` followed by `build_index` leaves: the corpus
        documents, an index fitted on them, and that model saved. */
    predicate Rebuilt(files: map<string, string>)
      reads this, store
    {
      && documents == CorpusOf(files, corpusPath)
      && index == Some(PreprocessAll(preprocessor, documents))
      && store.modelFile == Saved(documents, index.value)
    }

    /** `__init__`: load the saved model when asked to and the file exists,
        otherwise (or when loading raises) read the corpus and build the
        index. */
    constructor (corpusPath: string, loadExisting: bool, preprocessor: Preprocessor, store: Store)
      requires store.Consistent()
      modifies store
      ensures this.corpusPath == ResolvedPath(corpusPath)
      ensures this.preprocessor == preprocessor && this.store == store
      ensures Valid() && store.Consistent()
      ensures store.corpusFiles == old(store.corpusFiles)
      ensures loadExisting && old(store.modelFile).Saved? ==>
        && documents == old(store.modelFile).documents
        && index == Some(old(store.modelFile).index)
        && store.modelFile == old(store.modelFile)
      ensures !(loadExisting && old(store.modelFile).Saved?) ==> Rebuilt(old(store.corpusFiles))
    {
      this.corpusPath := ResolvedPath(corpusPath);
      this.preprocessor := preprocessor;
      this.store := store;
      documents := [];
      index := None;
      new;
      if loadExisting && store.modelFile != Missing {
        LoadModel();
      } else {
        LoadCorpus();
        BuildIndex();
      }
    }

    /** `load_corpus`. */
    method LoadCorpus()
      modifies this`documents
      ensures documents == CorpusOf(store.corpusFiles, corpusPath)
    {
      if corpusPath !in store.corpusFiles {
        documents := SampleCorpus;
      } else {
        var content := store.corpusFiles[corpusPath];
        documents := ParagraphDocuments(content);
        if documents == [] {
          documents := LineDocuments(content);
        }
      }
    }

    /** `build_index`: fit the index on the preprocessed documents, then
        save the model. */
    method BuildIndex()
      modifies this`index, store`modelFile
      ensures index == Some(PreprocessAll(preprocessor, documents))
      ensures store.modelFile == Saved(documents, index.value)
      ensures Valid() && store.Consistent()
    {
      index := Some(PreprocessAll(preprocessor, documents));
      SaveModel();
    }

    /** `save_model`. */
    method SaveModel()
      requires index.Some?
      modifies store`modelFile
      ensures store.modelFile == Saved(documents, index.value)
    {
      store.modelFile := Saved(documents, index.value);
    }

    /** `load_model`: take documents and index from the saved model, or read
        the corpus and rebuild when loading raises. */
    method LoadModel()
      requires store.Consistent()
      modifies this`documents, this`index, store`modelFile
      ensures Valid() && store.Consistent()
      ensures old(store.modelFile).Saved? ==>
        && documents == old(store.modelFile).documents
        && index == Some(old(store.modelFile).index)
        && store.modelFile == old(store.modelFile)
      ensures !old(store.modelFile).Saved? ==> Rebuilt(store.corpusFiles)
    {
      match store.modelFile
      case Saved(docs, idx) =>
        documents := docs;
        index := Some(idx);
      case _ =>
        LoadCorpus();
        BuildIndex();
    }

    /** `retrieve(query, top_k)`: score the preprocessed query against the
        index, rank by the argsort, and keep the positive documents among
        the first `top_k`. */
    method Retrieve(query: string, topK: int, similarity: (seq<string>, string) -> seq<real>,
                    argsort: seq<real> -> seq<nat>)
      returns (results: seq<(string, real)>)
      requires Valid()
      requires |similarity(index.value, PreprocessForRetrieval(preprocessor, query))| == |documents|
      requires IsArgsort(similarity(index.value, PreprocessForRetrieval(preprocessor, query)),
                         argsort(similarity(index.value, PreprocessForRetrieval(preprocessor, query))))
      ensures var scores := similarity(index.value, PreprocessForRetrieval(preprocessor, query));
        results == Pairs(documents, scores, SelectedIndices(scores, argsort(scores), topK))
      ensures topK >= 0 ==> |results| <= topK
      ensures forall k :: 0 <= k < |results| ==> results[k].1 > 0.0 && results[k].0 in documents
      ensures forall a, b :: 0 <= a < b < |results| ==> results[a].1 >= results[b].1
    {
      var preprocessedQuery := PreprocessForRetrieval(preprocessor, query);
      var similarities := similarity(index.value, preprocessedQuery);
      var topIndices := argsort(similarities);
      results := SelectTopK(documents, similarities, topIndices, topK);
    }

    /** `retrieve_documents`, the method alias of `retrieve`. */
    method RetrieveDocuments(query: string, topK: int, similarity: (seq<string>, string) -> seq<real>,
                             argsort: seq<real> -> seq<nat>)
      returns (results: seq<(string, real)>)
      requires Valid()
      requires |similarity(index.value, PreprocessForRetrieval(preprocessor, query))| == |documents|
      requires IsArgsort(similarity(index.value, PreprocessForRetrieval(preprocessor, query)),
                         argsort(similarity(index.value, PreprocessForRetrieval(preprocessor, query))))
      ensures var scores := similarity(index.value, PreprocessForRetrieval(preprocessor, query));
        results == Pairs(documents, scores, SelectedIndices(scores, argsort(scores), topK))
    {
      results := Retrieve(query, topK, similarity, argsort);
    }
  }

  /** The oracles behave as the libraries do: one cosine score per index
      row, and `np.argsort` returns an argsort. */
  ghost predicate SoundOracles(similarity: (seq<string>, string) -> seq<real>, argsort: seq<real> -> seq<nat>)
  {
    && (forall idx, q :: |similarity(idx, q)| == |idx|)
    && (forall scores :: IsArgsort(scores, argsort(scores)))
  }

  /** The module global `_retriever` with `get_retriever` and the module
      function `retrieve_documents`. */
  class RetrieverRegistry {
    const preprocessor: Preprocessor
    const store: Store
    var retriever: DocumentRetriever?

    /** The module before any call: `_retriever = None`. */
    constructor (preprocessor: Preprocessor, store: Store)
      requires store.Consistent()
      ensures this.store == store && retriever == null && Valid()
    {
      this.preprocessor := preprocessor;
      this.store := store;
      retriever := null;
    }

    ghost predicate Valid()
      reads this, retriever, store
    {
      && store.Consistent()
      && (retriever != null ==>
            retriever.store == store && retriever.preprocessor == preprocessor && retriever.Valid())
    }

    /** `get_retriever(corpus_path)`: the first call creates the retriever,
        later calls return the same object and ignore `corpus_path`. */
    method GetRetriever(corpusPath: string) returns (r: DocumentRetriever)
      requires Valid()
      modifies this`retriever, store
      ensures Valid() && retriever == r && r.Valid()
      ensures old(retriever) != null ==> r == old(retriever) && unchanged(store)
      ensures old(retriever) == null ==> fresh(r) && r.corpusPath == ResolvedPath(corpusPath)
      ensures old(retriever) == null ==> store.corpusFiles == old(store.corpusFiles)
      ensures old(retriever) == null && old(store.modelFile).Saved? ==>
        && r.documents == old(store.modelFile).documents
        && r.index == Some(old(store.modelFile).index)
        && store.modelFile == old(store.modelFile)
      ensures old(retriever) == null && !old(store.modelFile).Saved? ==> r.Rebuilt(old(store.corpusFiles))
    {
      if retriever == null {
        retriever := new DocumentRetriever(corpusPath, true, preprocessor, store);
      }
      r := retriever;
    }

    /** The module function `retrieve_documents(query, top_k)`. */
    method RetrieveDocuments(query: string, topK: int, similarity: (seq<string>, string) -> seq<real>,
                             argsort: seq<real> -> seq<nat>)
      returns (results: seq<(string, real)>)
      requires Valid() && SoundOracles(similarity, argsort)
      modifies this`retriever, store
      ensures Valid() && retriever != null
      ensures old(retriever) != null ==> retriever == old(retriever) && unchanged(store)
      ensures old(retriever) == null ==> fresh(retriever) && retriever.corpusPath == DefaultCorpusPath
      ensures old(retriever) == null ==> store.corpusFiles == old(store.corpusFiles)
      ensures old(retriever) == null && old(store.modelFile).Saved? ==>
        && retriever.documents == old(store.modelFile).documents
        && retriever.index == Some(old(store.modelFile).index)
        && store.modelFile == old(store.modelFile)
      ensures old(retriever) == null && !old(store.modelFile).Saved? ==> retriever.Rebuilt(old(store.corpusFiles))
      ensures var scores := similarity(retriever.index.value, PreprocessForRetrieval(preprocessor, query));
        results == Pairs(retriever.documents, scores, SelectedIndices(scores, argsort(scores), topK))
    {
      var r := GetRetriever("");
      results := r.Retrieve(query, topK, similarity, argsort);
    }
  }
}
