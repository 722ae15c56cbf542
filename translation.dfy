/** `TranslationEngine` of `src/translation.py`: a translator fronted by an
    in-memory cache keyed by `text_src_dest`. The googletrans service is a
    pair of oracles (language detection and translation, `None` when the call
    raises); every call made to it is recorded, so that which paths reach the
    service can be stated. The JSON cache file is a `CacheFile` object. */
module Translation {
  import opened Prelude

  /** A request sent to the remote service. */
  datatype Call = Detect(text: string) | Remote(text: string, src: string, dest: string)

  /** What one `translate` call returns, the cache it leaves and the calls it
      makes, in order. */
  datatype Outcome = Outcome(text: string, cache: map<string, string>, calls: seq<Call>)

  /** `f"{text}_{src}_{dest}"`, built from the caller's `src`. */
  function CacheKey(text: string, src: string, dest: string): (key: string)
    ensures |key| == |text| + |src| + |dest| + 2
    ensures key[..|text|] == text && key[|text|] == '_'
    ensures key[|text| + 1..|text| + 1 + |src|] == src
    ensures key[|key| - |dest|..] == dest && key[|key| - |dest| - 1] == '_'
  {
    text + "_" + src + "_" + dest
  }

  /** Two different requests can share one cache entry: the key does not
      separate its parts, and `_` may occur inside them. */
  lemma CacheKeyCollision()
    ensures ("a_b", "c", "d") != ("a", "b_c", "d")
    ensures CacheKey("a_b", "c", "d") == CacheKey("a", "b_c", "d")
  {
    assert CacheKey("a_b", "c", "d") == "a_b_c_d";
    assert CacheKey("a", "b_c", "d") == "a_b_c_d";
  }

  /** `detect_language`: the detected code, or `"auto"` when detection
      raises. */
  function DetectedLanguage(detect: string -> Option<string>, text: string): (lang: string)
    ensures detect(text).None? ==> lang == "auto"
    ensures detect(text).Some? ==> lang == detect(text).value
  {
    match detect(text)
    case None => "auto"
    case Some(code) => code
  }

  /** The language the service is asked to translate from: the detected one
      for `"auto"`, the caller's otherwise. */
  function SourceLanguage(detect: string -> Option<string>, text: string, src: string): (from: string)
    ensures src != "auto" ==> from == src
    ensures src == "auto" ==> from == DetectedLanguage(detect, text)
  {
    if src == "auto" then DetectedLanguage(detect, text) else src
  }

  /** `translate(text, src, dest)`:
      - with caching on, a stored key answers with its value and no call;
      - with `src == "auto"` the language is detected first, and text already
        in `dest` comes back unchanged without a cache write;
      - otherwise the service translates; a success is stored under the key
        built from the caller's `src` when caching is on, and a failure gives
        back the text with the cache unchanged. */
  function Translated(useCache: bool, cache: map<string, string>, text: string, src: string, dest: string,
                     detect: string -> Option<string>, remote: (string, string, string) -> Option<string>): (o: Outcome)
    ensures useCache && CacheKey(text, src, dest) in cache ==>
      o.text == cache[CacheKey(text, src, dest)] && o.cache == cache && o.calls == []
    ensures o.calls == [] ==> useCache && CacheKey(text, src, dest) in cache
    ensures 1 <= |o.calls| ==> o.calls[|o.calls| - 1].Remote? || o.text == text
    ensures o.cache == cache
      || (useCache && CacheKey(text, src, dest) !in cache && o.cache == cache[CacheKey(text, src, dest) := o.text])
    ensures !useCache ==> o.cache == cache
    ensures |o.calls| <= 2 && (src != "auto" ==> |o.calls| <= 1)
    ensures forall i :: 0 <= i < |o.calls| ==> o.calls[i].text == text
  {
    var key := CacheKey(text, src, dest);
    if useCache && key in cache then
      Outcome(cache[key], cache, [])
    else
      var detected := DetectedLanguage(detect, text);
      if src == "auto" && detected == dest then
        Outcome(text, cache, [Detect(text)])
      else
        var from := SourceLanguage(detect, text, src);
        var calls := (if src == "auto" then [Detect(text)] else []) + [Remote(text, from, dest)];
        match remote(text, from, dest)
        case None => Outcome(text, cache, calls)
        case Some(translated) =>
          Outcome(translated, if useCache then cache[key := translated] else cache, calls)
  }

  /** The auto-detect shortcut: when the detected language is `dest`, the
      text comes back unchanged, only detection was called, and the cache is
      not written. */
  lemma AutoShortcut(useCache: bool, cache: map<string, string>, text: string, dest: string,
                     detect: string -> Option<string>, remote: (string, string, string) -> Option<string>)
    requires !(useCache && CacheKey(text, "auto", dest) in cache)
    requires DetectedLanguage(detect, text) == dest
    ensures Translated(useCache, cache, text, "auto", dest, detect, remote) == Outcome(text, cache, [Detect(text)])
  {
  }

  /** The success path: without a cache hit or the auto-detect shortcut, the
      text goes to the service from the detected or given language, the
      service's answer is returned, and with caching on it is stored under
      the caller's key. */
  lemma TranslateSucceeds(useCache: bool, cache: map<string, string>, text: string, src: string, dest: string,
                          detect: string -> Option<string>, remote: (string, string, string) -> Option<string>)
    requires !(useCache && CacheKey(text, src, dest) in cache)
    requires !(src == "auto" && DetectedLanguage(detect, text) == dest)
    requires remote(text, SourceLanguage(detect, text, src), dest).Some?
    ensures var t := remote(text, SourceLanguage(detect, text, src), dest).value;
      var o := Translated(useCache, cache, text, src, dest, detect, remote);
      && o.text == t
      && o.cache == (if useCache then cache[CacheKey(text, src, dest) := t] else cache)
      && o.calls == (if src == "auto" then [Detect(text)] else []) + [Remote(text, SourceLanguage(detect, text, src), dest)]
  {
  }

  /** A failed remote call gives back the original text and leaves the
      cache as it was. */
  lemma FailureKeepsCache(useCache: bool, cache: map<string, string>, text: string, src: string, dest: string,
                          detect: string -> Option<string>, remote: (string, string, string) -> Option<string>)
    requires !(useCache && CacheKey(text, src, dest) in cache)
    requires remote(text, SourceLanguage(detect, text, src), dest).None?
    ensures Translated(useCache, cache, text, src, dest, detect, remote).text == text
    ensures Translated(useCache, cache, text, src, dest, detect, remote).cache == cache
  {
  }

  /** Naming the same language as source and destination does not skip the
      service: only `"auto"` is checked against `dest`, so without a cache
      hit the text goes to the remote translator and its answer is
      returned. */
  lemma SameLanguageCallsRemote(useCache: bool, cache: map<string, string>, text: string, lang: string,
                                detect: string -> Option<string>, remote: (string, string, string) -> Option<string>)
    requires lang != "auto"
    requires !(useCache && CacheKey(text, lang, lang) in cache)
    ensures Translated(useCache, cache, text, lang, lang, detect, remote).calls == [Remote(text, lang, lang)]
    ensures remote(text, lang, lang).Some? ==>
      Translated(useCache, cache, text, lang, lang, detect, remote).text == remote(text, lang, lang).value
  {
  }

  /** After a translation is stored, asking again is a cache hit: the same
      text, no call, no change. */
  lemma TranslateAgainHits(cache: map<string, string>, text: string, src: string, dest: string,
                           detect: string -> Option<string>, remote: (string, string, string) -> Option<string>)
    requires Translated(true, cache, text, src, dest, detect, remote).cache != cache
    ensures var first := Translated(true, cache, text, src, dest, detect, remote);
      Translated(true, first.cache, text, src, dest, detect, remote) == Outcome(first.text, first.cache, [])
  {
    var first := Translated(true, cache, text, src, dest, detect, remote);
    assert CacheKey(text, src, dest) in first.cache;
  }

  /** Without the cache, a translation is a function of its arguments and
      the service alone: the cache given is neither read nor written. */
  lemma NoCacheIgnoresCache(c1: map<string, string>, c2: map<string, string>, text: string, src: string, dest: string,
                            detect: string -> Option<string>, remote: (string, string, string) -> Option<string>)
    ensures Translated(false, c1, text, src, dest, detect, remote).text
         == Translated(false, c2, text, src, dest, detect, remote).text
    ensures Translated(false, c1, text, src, dest, detect, remote).calls
         == Translated(false, c2, text, src, dest, detect, remote).calls
  {
  }

  /** `models/translations_cache.json`. */
  class CacheFile {
    var entries: map<string, string>

    constructor (entries: map<string, string>)
      ensures this.entries == entries
    {
      this.entries := entries;
    }
  }

  class TranslationEngine {
    const useCache: bool
    const detect: string -> Option<string>
    const remote: (string, string, string) -> Option<string>
    const file: CacheFile
    var cache: map<string, string>
    /** The requests sent to the service so far. */
    var calls: seq<Call>

    /** Without caching the in-memory cache stays empty. */
    predicate Valid()
      reads this
    {
      !useCache ==> cache == map[]
    }

    /** `__init__`: the cache is the file's content when caching is on, and
        empty otherwise. */
    constructor (useCache: bool, detect: string -> Option<string>, remote: (string, string, string) -> Option<string>,
                 file: CacheFile)
      ensures this.useCache == useCache && this.detect == detect && this.remote == remote && this.file == file
      ensures cache == (if useCache then file.entries else map[])
      ensures calls == [] && Valid()
    {
      this.useCache := useCache;
      this.detect := detect;
      this.remote := remote;
      this.file := file;
      cache := if useCache then file.entries else map[];
      calls := [];
    }

    /** `detect_language`: one detection request; `"auto"` when it raises. */
    method DetectLanguage(text: string) returns (lang: string)
      modifies this`calls
      ensures calls == old(calls) + [Detect(text)]
      ensures lang == DetectedLanguage(detect, text)
    {
      calls := calls + [Detect(text)];
      match detect(text)
      case None =>
        lang := "auto";
      case Some(code) =>
        lang := code;
    }

    /** `translate`: the outcome of `Translate` on the current cache; a
        stored translation is also written to the cache file. */
    method Translate(text: string, src: string, dest: string) returns (result: string)
      requires Valid()
      modifies this`cache, this`calls, file
      ensures Valid()
      ensures var o := Translated(useCache, old(cache), text, src, dest, detect, remote);
        && result == o.text
        && cache == o.cache
        && calls == old(calls) + o.calls
      ensures cache == old(cache) ==> file.entries == old(file.entries)
      ensures cache != old(cache) ==>
        file.entries == old(file.entries)[CacheKey(text, src, dest) := result]
    {
      var cacheKey := CacheKey(text, src, dest);
      if useCache && cacheKey in cache {
        return cache[cacheKey];
      }
      var from := src;
      if src == "auto" {
        var detected := DetectLanguage(text);
        if detected == dest {
          return text;
        }
        from := detected;
      }
      calls := calls + [Remote(text, from, dest)];
      match remote(text, from, dest)
      case None =>
        result := text;
      case Some(translated) =>
        if useCache {
          cache := cache[cacheKey := translated];
          file.entries := file.entries[cacheKey := translated];
        }
        result := translated;
    }

    /** `translate_query`: translate with the source language detected. */
    method TranslateQuery(query: string, dest: string) returns (result: string)
      requires Valid()
      modifies this`cache, this`calls, file
      ensures Valid()
      ensures var o := Translated(useCache, old(cache), query, "auto", dest, detect, remote);
        result == o.text && cache == o.cache && calls == old(calls) + o.calls
      ensures cache == old(cache) ==> file.entries == old(file.entries)
      ensures cache != old(cache) ==>
        file.entries == old(file.entries)[CacheKey(query, "auto", dest) := result]
    {
      result := Translate(query, "auto", dest);
    }

    /** `translate_document`: translate from a given source language. */
    method TranslateDocument(document: string, src: string, dest: string) returns (result: string)
      requires Valid()
      modifies this`cache, this`calls, file
      ensures Valid()
      ensures var o := Translated(useCache, old(cache), document, src, dest, detect, remote);
        result == o.text && cache == o.cache && calls == old(calls) + o.calls
      ensures cache == old(cache) ==> file.entries == old(file.entries)
      ensures cache != old(cache) ==>
        file.entries == old(file.entries)[CacheKey(document, src, dest) := result]
    {
      result := Translate(document, src, dest);
    }
  }

  /** The module global `_translation_engine` with `get_translation_engine`
      and the module function `translate_query`. */
  class EngineSlot {
    const detect: string -> Option<string>
    const remote: (string, string, string) -> Option<string>
    const file: CacheFile
    var engine: TranslationEngine?

    /** The module before any call: `_translation_engine = None`. */
    constructor (detect: string -> Option<string>, remote: (string, string, string) -> Option<string>, file: CacheFile)
      ensures this.detect == detect && this.remote == remote && this.file == file
      ensures engine == null && Valid()
    {
      this.detect := detect;
      this.remote := remote;
      this.file := file;
      engine := null;
    }

    ghost predicate Valid()
      reads this, engine
    {
      engine != null ==> engine.Valid() && engine.file == file && engine.detect == detect && engine.remote == remote
    }

    /** `get_translation_engine(use_cache)`: the first call creates the
        engine, later calls return it and ignore `use_cache`. */
    method GetEngine(useCache: bool) returns (e: TranslationEngine)
      requires Valid()
      modifies this`engine
      ensures Valid() && engine == e
      ensures old(engine) != null ==> e == old(engine)
      ensures old(engine) == null ==> fresh(e) && e.useCache == useCache && e.calls == []
      ensures old(engine) == null ==> e.cache == (if useCache then file.entries else map[])
    {
      if engine == null {
        engine := new TranslationEngine(useCache, detect, remote, file);
      }
      e := engine;
    }

    /** The module function `translate_query(query, src, dest)`: `src` is
        not used, the language is always detected. */
    method TranslateQuery(query: string, src: string, dest: string) returns (result: string)
      requires Valid()
      modifies this`engine, engine, file
      ensures Valid() && engine != null
      ensures old(engine) != null ==> engine == old(engine)
      ensures old(engine) != null ==>
        var o := Translated(engine.useCache, old(engine.cache), query, "auto", dest, detect, remote);
        result == o.text && engine.cache == o.cache && engine.calls == old(engine.calls) + o.calls
      ensures old(engine) == null ==>
        var o := Translated(true, old(file.entries), query, "auto", dest, detect, remote);
        result == o.text && engine.cache == o.cache && engine.calls == o.calls
      ensures old(engine) != null && engine.cache == old(engine.cache) ==> file.entries == old(file.entries)
      ensures old(engine) == null && engine.cache == old(file.entries) ==> file.entries == old(file.entries)
      ensures (if old(engine) != null then engine.cache != old(engine.cache) else engine.cache != old(file.entries)) ==>
        file.entries == old(file.entries)[CacheKey(query, "auto", dest) := result]
    {
      var e := GetEngine(true);
      result := e.TranslateQuery(query, dest);
    }
  }
}
