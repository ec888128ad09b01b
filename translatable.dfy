/** A translatable model instance (`WagtailParlerModel`) as far as this package touches it:
    its saved translations, parler's per-locale translation cache, the `_state.adding` flag,
    and the serialization helpers that carry translations through revisions and previews. */
module Translatable {
  import opened Common

  /** One entry of parler's translation cache for a locale: a translation object (with its
      field values) or the marker that the locale has no translation. */
  datatype CacheEntry = Missing | Cached(fields: map<string, Value>)

  /** `all(not d for d in data.values())` is false when `data` holds a non-empty dict, so the
      second half of the empty-locale test of `_from_serializable_translated_data` can never
      hold while its loop runs: that loop iterates the non-empty dict `data[root_rel_name]`. */
  lemma OuterDataNeverAllFalsy(data: map<string, Value>, root: string)
    requires root in data && data[root].VDict? && |data[root].entries| > 0
    ensures !AllFalsy(data)
  {
    assert Truthy(data[root]);
  }

  /** The serialized translations held by `data`: `data.get(root_rel_name, {})`. */
  function OldTranslations(data: map<string, Value>, root: string): map<string, Value>
    requires root in data ==> data[root].VDict?
  {
    if root in data then data[root].entries else map[]
  }

  /** The empty-locale test exactly as the source writes it. */
  predicate IsEmptyLocale(transData: Value, data: map<string, Value>)
  {
    !Truthy(transData) || AllFalsy(data)
  }

  /** What `_from_serializable_translated_data` demands of `data`: the translations entry,
      when present, is a dict whose non-empty entries are dicts (they are passed as `**kwargs`). */
  predicate WellFormedData(data: map<string, Value>, root: string)
  {
    root in data ==>
      data[root].VDict? &&
      forall l :: l in data[root].entries ==> IsEmptyLocale(data[root].entries[l], data) || data[root].entries[l].VDict?
  }

  /** `order` lists the keys of the serialized translations once each, in dict order. */
  predicate IsOrderOf(order: seq<string>, m: map<string, Value>)
  {
    Distinct(order) && (forall l :: l in order ==> l in m) && (forall l :: l in m ==> l in order)
  }

  /** The locales `_from_serializable_translated_data` collects in `empty_locales`, in order. */
  function EmptyLocales(serialized: map<string, Value>, data: map<string, Value>, order: seq<string>): seq<string>
    requires forall l :: l in order ==> l in serialized
  {
    if order == [] then []
    else
      var l := order[|order| - 1];
      EmptyLocales(serialized, data, order[..|order| - 1]) + (if IsEmptyLocale(serialized[l], data) then [l] else [])
  }

  /** The cache after the loop that fills `current_translations`: `get_translation(locale)`
      for each saved locale keeps a locale that is already cached and caches any other with
      its saved fields. */
  function Prefetched(cache: map<string, CacheEntry>, translations: map<string, map<string, Value>>,
                      available: seq<string>): map<string, CacheEntry>
    requires forall l :: l in available ==> l in translations
  {
    if available == [] then cache
    else
      var prev := Prefetched(cache, translations, available[..|available| - 1]);
      var l := available[|available| - 1];
      if l in prev then prev else prev[l := Cached(translations[l])]
  }

  /** After the prefetch every saved locale is cached: entries already there are kept, and
      the others hold the saved translation. */
  lemma {:induction false} PrefetchedEntries(cache: map<string, CacheEntry>, translations: map<string, map<string, Value>>,
                                             available: seq<string>, l: string)
    requires forall a :: a in available ==> a in translations
    ensures l in Prefetched(cache, translations, available) <==> l in cache || l in available
    ensures l in cache ==> Prefetched(cache, translations, available)[l] == cache[l]
    ensures l !in cache && l in available ==> Prefetched(cache, translations, available)[l] == Cached(translations[l])
  {
    if available != [] {
      var n := |available| - 1;
      PrefetchedEntries(cache, translations, available[..n], l);
      assert available == available[..n] + [available[n]];
    }
  }

  /** The locale `_set_translated_fields(**fields)` writes: the `language_code` the fields
      carry, or else the instance's current language `current`. */
  function SetFieldsTarget(fields: map<string, Value>, current: string): string
  {
    if "language_code" in fields && fields["language_code"].VStr? then fields["language_code"].s else current
  }

  /** A translation of `locale` not in the cache, with `fields` set on it: the saved one when
      parler may read the database (`readsDb`: a saved instance not being added), otherwise a
      new one (`auto_create=True`). */
  function WrittenEntry(translations: map<string, map<string, Value>>, readsDb: bool, locale: string,
                        fields: map<string, Value>): CacheEntry
  {
    var base := if readsDb && locale in translations then translations[locale] else map[];
    Cached(base + (fields - {"language_code"}))
  }

  /** The cache entry `_set_translated_fields(**fields)` leaves for its locale: the cached
      translation with the fields set on it, or a missing-marked locale created anew, or the
      entry read or created as `WrittenEntry` says. */
  function SetFieldsEntry(cache: map<string, CacheEntry>, translations: map<string, map<string, Value>>,
                          readsDb: bool, locale: string, fields: map<string, Value>): CacheEntry
  {
    if locale in cache then
      Cached((if cache[locale].Cached? then cache[locale].fields else map[]) + (fields - {"language_code"}))
    else WrittenEntry(translations, readsDb, locale, fields)
  }

  /** The cache after the first loop of `_from_serializable_translated_data`: each serialized
      locale, in order, is popped; a non-empty one then has its fields set, which caches the
      translation `_set_translated_fields` writes to. */
  function FirstLoop(cache: map<string, CacheEntry>, translations: map<string, map<string, Value>>, readsDb: bool,
                     current: string, serialized: map<string, Value>, data: map<string, Value>,
                     order: seq<string>): map<string, CacheEntry>
    requires forall l :: l in order ==> l in serialized && (IsEmptyLocale(serialized[l], data) || serialized[l].VDict?)
  {
    if order == [] then cache
    else
      var l := order[|order| - 1];
      var popped := FirstLoop(cache, translations, readsDb, current, serialized, data, order[..|order| - 1]) - {l};
      if IsEmptyLocale(serialized[l], data) then popped
      else
        var target := SetFieldsTarget(serialized[l].entries, current);
        popped[target := SetFieldsEntry(popped, translations, readsDb, target, serialized[l].entries)]
  }

  /** Each non-empty serialized translation names its own locale in `language_code`, as the
      data `_serializable_translated_data` writes for a translation model does. */
  predicate SelfKeyed(serialized: map<string, Value>, data: map<string, Value>)
  {
    forall l :: l in serialized && !IsEmptyLocale(serialized[l], data) ==>
      serialized[l].VDict? && "language_code" in serialized[l].entries && serialized[l].entries["language_code"] == VStr(l)
  }

  /** Dropping the last locale of a list without repeats leaves a list without repeats that
      does not hold it. */
  lemma DistinctLast(order: seq<string>)
    requires order != [] && Distinct(order)
    ensures Distinct(order[..|order| - 1]) && order[|order| - 1] !in order[..|order| - 1]
  {
    var n := |order| - 1;
    forall i, j | 0 <= i < j < n ensures order[..n][i] != order[..n][j] {
      assert order[..n][i] == order[i] && order[..n][j] == order[j];
    }
    forall i | 0 <= i < n ensures order[..n][i] != order[n] {
      assert order[..n][i] == order[i];
    }
  }

  /** With self-keyed data, the first loop leaves every locale outside the serialized ones
      as it was. */
  lemma {:induction false} FirstLoopKeeps(cache: map<string, CacheEntry>, translations: map<string, map<string, Value>>,
                                          readsDb: bool, current: string, serialized: map<string, Value>,
                                          data: map<string, Value>, order: seq<string>, l: string)
    requires SelfKeyed(serialized, data) && l !in order
    requires forall k :: k in order ==> k in serialized && (IsEmptyLocale(serialized[k], data) || serialized[k].VDict?)
    ensures var after := FirstLoop(cache, translations, readsDb, current, serialized, data, order);
            (l in after <==> l in cache) && (l in cache ==> after[l] == cache[l])
  {
    if order != [] {
      var n := |order| - 1;
      var k := order[n];
      assert order == order[..n] + [k];
      FirstLoopKeeps(cache, translations, readsDb, current, serialized, data, order[..n], l);
      if !IsEmptyLocale(serialized[k], data) {
        assert SetFieldsTarget(serialized[k].entries, current) == k;
      }
    }
  }

  /** With self-keyed data and distinct locales, an empty serialized locale is evicted. */
  lemma {:induction false} FirstLoopEvicts(cache: map<string, CacheEntry>, translations: map<string, map<string, Value>>,
                                           readsDb: bool, current: string, serialized: map<string, Value>,
                                           data: map<string, Value>, order: seq<string>, l: string)
    requires SelfKeyed(serialized, data) && Distinct(order)
    requires forall k :: k in order ==> k in serialized && (IsEmptyLocale(serialized[k], data) || serialized[k].VDict?)
    requires l in order && IsEmptyLocale(serialized[l], data)
    ensures l !in FirstLoop(cache, translations, readsDb, current, serialized, data, order)
  {
    var n := |order| - 1;
    var k := order[n];
    assert order == order[..n] + [k];
    DistinctLast(order);
    if l != k {
      FirstLoopEvicts(cache, translations, readsDb, current, serialized, data, order[..n], l);
    }
    if !IsEmptyLocale(serialized[k], data) {
      assert SetFieldsTarget(serialized[k].entries, current) == k;
    }
  }

  /** With self-keyed data and distinct locales, a non-empty serialized locale holds its
      translation, freshly read or created, with its serialized fields set. */
  lemma {:induction false} FirstLoopWrites(cache: map<string, CacheEntry>, translations: map<string, map<string, Value>>,
                                           readsDb: bool, current: string, serialized: map<string, Value>,
                                           data: map<string, Value>, order: seq<string>, l: string)
    requires SelfKeyed(serialized, data) && Distinct(order)
    requires forall k :: k in order ==> k in serialized && (IsEmptyLocale(serialized[k], data) || serialized[k].VDict?)
    requires l in order && !IsEmptyLocale(serialized[l], data)
    ensures var after := FirstLoop(cache, translations, readsDb, current, serialized, data, order);
            l in after && after[l] == WrittenEntry(translations, readsDb, l, serialized[l].entries)
  {
    var n := |order| - 1;
    var k := order[n];
    assert order == order[..n] + [k];
    DistinctLast(order);
    if l != k {
      FirstLoopWrites(cache, translations, readsDb, current, serialized, data, order[..n], l);
    }
    if !IsEmptyLocale(serialized[k], data) {
      assert SetFieldsTarget(serialized[k].entries, current) == k;
    }
  }

  /** An empty locale is exactly one whose own serialized data is falsy (given the lemma
      above), and every empty locale comes from the serialized translations. */
  lemma {:induction false} EmptyLocalesAreFalsyOnes(serialized: map<string, Value>, data: map<string, Value>, order: seq<string>, root: string)
    requires root in data && data[root] == VDict(serialized)
    requires forall l :: l in order ==> l in serialized
    ensures forall l :: l in EmptyLocales(serialized, data, order) <==> l in order && !Truthy(serialized[l])
  {
    if order != [] {
      var n := |order| - 1;
      EmptyLocalesAreFalsyOnes(serialized, data, order[..n], root);
      assert order[n] in serialized;
      OuterDataNeverAllFalsy(data, root);
      forall l ensures l in order <==> l in order[..n] || l == order[n] {
        assert order == order[..n] + [order[n]];
      }
    }
  }

  /** `_get_translated_model(locale, use_fallback=True)` while `adding` is forced true: parler
      does not read the database then, so the entry comes from the cache, the locale's own
      cached translation first, then the first of its fallback languages `fallbacks` that has
      one. `None` stands for the `TranslationDoesNotExist` raised when there is none. */
  function FallbackEntry(cache: map<string, CacheEntry>, locale: string, fallbacks: seq<string>): Option<CacheEntry>
  {
    if locale in cache && cache[locale].Cached? then Some(cache[locale]) else FirstCached(cache, fallbacks)
  }

  function FirstCached(cache: map<string, CacheEntry>, langs: seq<string>): Option<CacheEntry>
  {
    if langs == [] then None
    else if langs[0] in cache && cache[langs[0]].Cached? then Some(cache[langs[0]])
    else FirstCached(cache, langs[1..])
  }

  /** A locale has a translation to fall back on: its own or one of its fallback languages'. */
  predicate HasCachedSource(cache: map<string, CacheEntry>, locale: string, fallbacks: seq<string>)
  {
    (locale in cache && cache[locale].Cached?) || exists f :: f in fallbacks && f in cache && cache[f].Cached?
  }

  lemma {:induction false} FirstCachedFinds(cache: map<string, CacheEntry>, langs: seq<string>)
    ensures FirstCached(cache, langs).Some? <==> exists f :: f in langs && f in cache && cache[f].Cached?
    ensures FirstCached(cache, langs).Some? ==>
              exists f :: f in langs && f in cache && cache[f] == FirstCached(cache, langs).value && cache[f].Cached?
  {
    if langs != [] {
      FirstCachedFinds(cache, langs[1..]);
      assert langs == [langs[0]] + langs[1..];
    }
  }

  /** The refill finds an entry exactly when the locale has a cached source, and the entry it
      finds is a cached translation of the locale or of one of its fallback languages. */
  lemma FallbackEntrySource(cache: map<string, CacheEntry>, locale: string, fallbacks: seq<string>)
    ensures FallbackEntry(cache, locale, fallbacks).Some? <==> HasCachedSource(cache, locale, fallbacks)
    ensures FallbackEntry(cache, locale, fallbacks).Some? ==>
              exists f :: (f == locale || f in fallbacks) && f in cache && cache[f] == FallbackEntry(cache, locale, fallbacks).value
                          && cache[f].Cached?
  {
    FirstCachedFinds(cache, fallbacks);
  }

  /** The cache after the refill loop, and whether it ran to its end. */
  datatype RefillOutcome = RefillOutcome(cache: map<string, CacheEntry>, ok: bool)

  /** The refill loop: each empty locale, in order, is cached with its fallback entry; the
      first locale without one raises and ends the loop. `fallbacks` gives each locale's
      fallback languages. */
  function Refill(cache: map<string, CacheEntry>, empty: seq<string>, fallbacks: string -> seq<string>): RefillOutcome
  {
    if empty == [] then RefillOutcome(cache, true)
    else
      var prev := Refill(cache, empty[..|empty| - 1], fallbacks);
      var l := empty[|empty| - 1];
      if !prev.ok then prev
      else match FallbackEntry(prev.cache, l, fallbacks(l))
        case None => RefillOutcome(prev.cache, false)
        case Some(e) => RefillOutcome(prev.cache[l := e], true)
  }

  /** Once the refill fails on a prefix, the remaining locales change nothing. */
  lemma {:induction false} RefillFailedPrefix(cache: map<string, CacheEntry>, empty: seq<string>,
                                              fallbacks: string -> seq<string>, k: nat)
    requires k <= |empty| && !Refill(cache, empty[..k], fallbacks).ok
    ensures Refill(cache, empty, fallbacks) == Refill(cache, empty[..k], fallbacks)
  {
    if k < |empty| {
      var n := |empty| - 1;
      assert empty[..n][..k] == empty[..k];
      RefillFailedPrefix(cache, empty[..n], fallbacks, k);
    } else {
      assert empty[..k] == empty;
    }
  }

  /** The refill touches only the empty locales; a cached translation stays cached; and
      after a complete refill every empty locale holds a cached translation. */
  lemma {:induction false} RefillEntries(cache: map<string, CacheEntry>, empty: seq<string>,
                                         fallbacks: string -> seq<string>, l: string)
    ensures var r := Refill(cache, empty, fallbacks);
            && (l !in empty ==> (l in r.cache <==> l in cache) && (l in cache ==> r.cache[l] == cache[l]))
            && (l in r.cache ==> l in cache || l in empty)
            && (l in cache && cache[l].Cached? ==> l in r.cache && r.cache[l].Cached?)
            && (r.ok && l in empty ==> l in r.cache && r.cache[l].Cached?)
  {
    if empty != [] {
      var n := |empty| - 1;
      RefillEntries(cache, empty[..n], fallbacks, l);
      assert empty == empty[..n] + [empty[n]];
      var prev := Refill(cache, empty[..n], fallbacks);
      if prev.ok {
        FallbackEntrySource(prev.cache, empty[n], fallbacks(empty[n]));
      }
    }
  }

  /** The refill runs to its end whenever every empty locale has a cached translation of its
      own or of a fallback language before it starts. */
  lemma {:induction false} RefillSucceeds(cache: map<string, CacheEntry>, empty: seq<string>, fallbacks: string -> seq<string>)
    requires forall l :: l in empty ==> HasCachedSource(cache, l, fallbacks(l))
    ensures Refill(cache, empty, fallbacks).ok
  {
    if empty != [] {
      var n := |empty| - 1;
      var l := empty[n];
      RefillSucceeds(cache, empty[..n], fallbacks);
      var prev := Refill(cache, empty[..n], fallbacks);
      assert HasCachedSource(prev.cache, l, fallbacks(l)) by {
        if l in cache && cache[l].Cached? {
          RefillEntries(cache, empty[..n], fallbacks, l);
        } else {
          var f :| f in fallbacks(l) && f in cache && cache[f].Cached?;
          RefillEntries(cache, empty[..n], fallbacks, f);
        }
      }
      FallbackEntrySource(prev.cache, l, fallbacks(l));
    }
  }

  /** The whole of `_from_serializable_translated_data` on the cache: prefetch the saved
      locales, run the first loop, then refill the empty locales. */
  function Deserialized(cache: map<string, CacheEntry>, translations: map<string, map<string, Value>>, readsDb: bool,
                        current: string, data: map<string, Value>, root: string, order: seq<string>,
                        available: seq<string>, fallbacks: string -> seq<string>): RefillOutcome
    requires WellFormedData(data, root) && IsOrderOf(order, OldTranslations(data, root))
    requires forall l :: l in available ==> l in translations
  {
    var serialized := OldTranslations(data, root);
    Refill(FirstLoop(Prefetched(cache, translations, available), translations, readsDb, current, serialized, data, order),
           EmptyLocales(serialized, data, order), fallbacks)
  }

  class TranslatableModel {
    /** `instance.pk` is set (truthy). */
    var hasPk: bool
    /** `hasattr(instance, "_parler_meta")` */
    var hasParlerMeta: bool
    /** `_parler_meta.root_rel_name`, the name under which translations are serialized. */
    var rootRelName: string
    /** The translations saved for this instance, by locale: `get_available_languages()`
        and the field values of each `get_translation(locale)`. */
    var translations: map<string, map<string, Value>>
    /** `_translations_cache[i18n_model]` */
    var cache: map<string, CacheEntry>
    /** `_state.adding` */
    var adding: bool

    constructor (hasPk: bool, hasParlerMeta: bool, rootRelName: string,
                 translations: map<string, map<string, Value>>, cache: map<string, CacheEntry>, adding: bool)
      ensures this.hasPk == hasPk && this.hasParlerMeta == hasParlerMeta && this.rootRelName == rootRelName
      ensures this.translations == translations && this.cache == cache && this.adding == adding
    {
      this.hasPk := hasPk;
      this.hasParlerMeta := hasParlerMeta;
      this.rootRelName := rootRelName;
      this.translations := translations;
      this.cache := cache;
      this.adding := adding;
    }

    /** `has_translation(locale)` */
    predicate HasTranslation(locale: string)
      reads this
    {
      locale in translations
    }

    /** The serialized form of the saved translations: one dict per saved locale. */
    function SerializedTranslations(): map<string, Value>
      reads this
    {
      map l | l in translations :: VDict(translations[l])
    }

    /** `_serializable_translated_data()`: `{}` without parler meta, otherwise a single key,
        `root_rel_name`, holding one entry per saved locale with that translation's fields.
        `available` is `get_available_languages(include_unsaved=False)`. */
    method SerializableTranslatedData(available: seq<string>) returns (r: map<string, Value>)
      requires forall l :: l in available <==> l in translations
      ensures !hasParlerMeta ==> r == map[]
      ensures hasParlerMeta ==> r.Keys == {rootRelName} && r[rootRelName].VDict?
      ensures hasParlerMeta ==> forall l :: l in r[rootRelName].entries <==> l in translations
      ensures hasParlerMeta ==> forall l :: l in translations ==> r[rootRelName].entries[l] == VDict(translations[l])
    {
      if !hasParlerMeta {
        return map[];
      }
      var result: map<string, Value> := map[];
      var i := 0;
      while i < |available|
        invariant 0 <= i <= |available|
        invariant forall l :: l in result <==> l in available[..i]
        invariant forall l :: l in result ==> l in translations && result[l] == VDict(translations[l])
      {
        var locale := available[i];
        result := result[locale := VDict(translations[locale])];
        i := i + 1;
      }
      assert available[..i] == available;
      r := map[rootRelName := VDict(result)];
    }

    /** `_from_serializable_translated_data(instance, data)`. Without parler meta nothing
        happens. Otherwise the saved locales are prefetched into the cache, every serialized
        locale is evicted, non-empty ones have their fields set, and empty ones are refilled
        from the cache with fallbacks while `adding` is forced true. `ok` is false when a
        refill raises; `adding` then stays forced true, and is restored otherwise.
        `order` is the dict order of the serialized translations, `available` the saved
        locales, `current` the instance's current language and `fallbacks` each locale's
        fallback languages. */
    method FromSerializableTranslatedData(data: map<string, Value>, order: seq<string>, available: seq<string>,
                                          current: string, fallbacks: string -> seq<string>)
      returns (ok: bool)
      requires hasParlerMeta ==> WellFormedData(data, rootRelName)
      requires hasParlerMeta ==> IsOrderOf(order, OldTranslations(data, rootRelName))
      requires forall l :: l in available <==> l in translations
      modifies this`cache, this`adding
      ensures !hasParlerMeta ==> ok && cache == old(cache) && adding == old(adding)
      ensures hasParlerMeta ==>
                RefillOutcome(cache, ok) ==
                Deserialized(old(cache), translations, hasPk && !old(adding), current, data, rootRelName, order, available, fallbacks)
      ensures ok ==> adding == old(adding)
      ensures !ok ==> adding
    {
      if !hasParlerMeta {
        return true;
      }
      PrefetchTranslations(available);
      var empty := EvictAndSetFields(data, order, current);
      ok := RefillEmptyLocales(empty, fallbacks);
    }

    /** The loop filling `current_translations`: `get_translation(locale)` per saved locale. */
    method PrefetchTranslations(available: seq<string>)
      requires forall l :: l in available ==> l in translations
      modifies this`cache
      ensures cache == Prefetched(old(cache), translations, available)
    {
      var i := 0;
      while i < |available|
        invariant 0 <= i <= |available|
        invariant cache == Prefetched(old(cache), translations, available[..i])
      {
        var locale := available[i];
        assert available[..i + 1][..i] == available[..i];
        if locale !in cache {
          cache := cache[locale := Cached(translations[locale])];
        }
        i := i + 1;
      }
      assert available[..i] == available;
    }

    /** The first loop: pop each serialized locale from the cache, collect the empty ones,
        and set the fields of the others on the instance's translations. */
    method EvictAndSetFields(data: map<string, Value>, order: seq<string>, current: string) returns (empty: seq<string>)
      requires WellFormedData(data, rootRelName)
      requires IsOrderOf(order, OldTranslations(data, rootRelName))
      modifies this`cache
      ensures empty == EmptyLocales(OldTranslations(data, rootRelName), data, order)
      ensures cache == FirstLoop(old(cache), translations, hasPk && !adding, current,
                                 OldTranslations(data, rootRelName), data, order)
    {
      var old_ := OldTranslations(data, rootRelName);
      var readsDb := hasPk && !adding;
      empty := [];
      var i := 0;
      while i < |order|
        invariant 0 <= i <= |order|
        invariant empty == EmptyLocales(old_, data, order[..i])
        invariant cache == FirstLoop(old(cache), translations, readsDb, current, old_, data, order[..i])
      {
        var locale := order[i];
        assert order[..i + 1][..i] == order[..i];
        cache := cache - {locale};
        if IsEmptyLocale(old_[locale], data) {
          empty := empty + [locale];
        } else {
          var fields := old_[locale].entries;
          var target := SetFieldsTarget(fields, current);
          cache := cache[target := SetFieldsEntry(cache, translations, readsDb, target, fields)];
        }
        i := i + 1;
      }
      assert order[..i] == order;
    }

    /** The second loop, run with `adding` forced true: each empty locale's cache entry is
        fetched again with fallbacks. `adding` is restored only when no fetch raised. */
    method RefillEmptyLocales(empty: seq<string>, fallbacks: string -> seq<string>) returns (ok: bool)
      modifies this`cache, this`adding
      ensures RefillOutcome(cache, ok) == Refill(old(cache), empty, fallbacks)
      ensures ok ==> adding == old(adding)
      ensures !ok ==> adding
    {
      var originalState := adding;
      adding := true;
      var j := 0;
      while j < |empty|
        invariant 0 <= j <= |empty|
        invariant adding
        invariant RefillOutcome(cache, true) == Refill(old(cache), empty[..j], fallbacks)
      {
        var locale := empty[j];
        assert empty[..j + 1][..j] == empty[..j];
        var entry := FallbackEntry(cache, locale, fallbacks(locale));
        if entry.None? {
          RefillFailedPrefix(old(cache), empty, fallbacks, j + 1);
          return false;
        }
        cache := cache[locale := entry.value];
        j := j + 1;
      }
      assert empty[..j] == empty;
      adding := originalState;
      ok := true;
    }
  }

  /** After reading back self-keyed data: locales outside the serialized ones hold what the
      prefetch left (their earlier entry, else their saved translation); each non-empty
      serialized locale holds its translation with the serialized fields set; and, when no
      refill raised, each empty serialized locale (exactly those with falsy data) holds a
      cached translation taken from the cache with fallbacks. */
  lemma CacheAfterDeserialization(cache: map<string, CacheEntry>, translations: map<string, map<string, Value>>,
                                  readsDb: bool, current: string, data: map<string, Value>, root: string,
                                  order: seq<string>, available: seq<string>, fallbacks: string -> seq<string>, l: string)
    requires WellFormedData(data, root) && IsOrderOf(order, OldTranslations(data, root))
    requires root in data && SelfKeyed(OldTranslations(data, root), data)
    requires forall a :: a in available ==> a in translations
    ensures var serialized := OldTranslations(data, root);
            var r := Deserialized(cache, translations, readsDb, current, data, root, order, available, fallbacks);
            && (l !in serialized ==> (l in r.cache <==> l in cache || l in available)
                                     && (l in cache ==> r.cache[l] == cache[l])
                                     && (l !in cache && l in available ==> r.cache[l] == Cached(translations[l])))
            && (l in serialized && Truthy(serialized[l]) ==>
                  l in r.cache && r.cache[l] == WrittenEntry(translations, readsDb, l, serialized[l].entries))
            && (r.ok && l in serialized && !Truthy(serialized[l]) ==> l in r.cache && r.cache[l].Cached?)
  {
    var serialized := OldTranslations(data, root);
    var pre := Prefetched(cache, translations, available);
    var first := FirstLoop(pre, translations, readsDb, current, serialized, data, order);
    var empty := EmptyLocales(serialized, data, order);
    PrefetchedEntries(cache, translations, available, l);
    if l !in order {
      FirstLoopKeeps(pre, translations, readsDb, current, serialized, data, order, l);
    } else if IsEmptyLocale(serialized[l], data) {
      FirstLoopEvicts(pre, translations, readsDb, current, serialized, data, order, l);
    } else {
      FirstLoopWrites(pre, translations, readsDb, current, serialized, data, order, l);
    }
    RefillEntries(first, empty, fallbacks, l);
    EmptyLocalesAreFalsyOnes(serialized, data, order, root);
    if l in serialized {
      OuterDataNeverAllFalsy(data, root);
    }
    assert l in serialized <==> l in order;
  }

  /** Round trip: serializing an instance and reading the result back sets the fields of
      every saved translation that has fields, and marks for a fallback refill exactly the
      saved translations without fields. */
  lemma SerializedRoundTrip(translations: map<string, map<string, Value>>, root: string, order: seq<string>)
    requires forall l :: l in order <==> l in translations
    ensures var data := map[root := VDict(map l | l in translations :: VDict(translations[l]))];
            forall l :: l in EmptyLocales(OldTranslations(data, root), data, order) <==>
                          l in translations && translations[l] == map[]
  {
    var data := map[root := VDict(map l | l in translations :: VDict(translations[l]))];
    var old_ := OldTranslations(data, root);
    EmptyLocalesAreFalsyOnes(old_, data, order, root);
    forall l | l in translations ensures !Truthy(old_[l]) <==> translations[l] == map[] {
      if translations[l] != map[] {
        var k :| k in translations[l];
        assert |translations[l]| != 0;
      }
    }
  }
}
