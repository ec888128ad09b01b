/** The translations form: the class `build_translations_form` generates (one declared field
    per locale and translation field), and `AutoParlerModelForm`, which prepares initial
    values, relaxes the fields of secondary locales, groups cleaned data by locale and saves
    each locale's translation. */
module Forms {
  import opened Common
  import opened Locales
  import opened Translatable

  /** A form field, as far as this package touches it. */
  datatype FormField = FormField(required: bool, fieldLabel: string)

  /** The class `build_translations_form` returns: its `Meta` attributes, its
      `auto_parler_fields`, and its declared `translations_<code>_<field>` fields. */
  datatype FormClass = FormClass(meta: map<string, Value>, autoParlerFields: set<string>, declared: map<string, FormField>)

  // ---------------------------------------------------------------- building the class

  /** `fields_for_model(model, fields=only)`: the model's form fields, in model order, kept
      only when their name is in `only` (all of them when `only` is not given). */
  function FieldsForModel(modelFields: seq<(string, FormField)>, only: Option<set<string>>): (r: seq<(string, FormField)>)
    ensures forall p :: p in r <==> p in modelFields && (only.None? || p.0 in only.value)
  {
    if modelFields == [] then []
    else
      var rest := FieldsForModel(modelFields[1..], only);
      assert forall p :: p in modelFields <==> p == modelFields[0] || p in modelFields[1..];
      if only.None? || modelFields[0].0 in only.value then [modelFields[0]] + rest else rest
  }

  function Names(fs: seq<(string, FormField)>): set<string>
  {
    set p | p in fs :: p.0
  }

  /** The `Meta` attributes of the generated class: the given ones (none when falsy), the
      model, and `fields = "__all__"` unless `fields` or `exclude` was given. */
  function MetaOf(modelName: string, given: Option<map<string, Value>>): (r: map<string, Value>)
    ensures "model" in r && r["model"] == VStr(modelName)
    ensures "fields" in r || "exclude" in r
    ensures forall k :: k in r && k != "model" && k != "fields" ==> given.Some? && k in given.value && r[k] == given.value[k]
    ensures given.Some? ==> forall k :: k in given.value && k != "model" ==> k in r && r[k] == given.value[k]
    ensures "fields" in r && r["fields"] != VStr("__all__") ==> given.Some? && "fields" in given.value
  {
    var m := (if given.None? then map[] else given.value)["model" := VStr(modelName)];
    if "exclude" !in m && "fields" !in m then m["fields" := VStr("__all__")] else m
  }

  /** The attributes declared for one locale: `translations_<code>_<field>` for each field. */
  function LocaleAttrs(code: string, fs: seq<(string, FormField)>): map<string, FormField>
  {
    if fs == [] then map[]
    else LocaleAttrs(code, fs[..|fs| - 1])[TranslatedName(code, fs[|fs| - 1].0) := fs[|fs| - 1].1]
  }

  /** The attributes declared over all locales, later assignments winning. */
  function Declared(codes: seq<string>, fs: seq<(string, FormField)>): map<string, FormField>
  {
    if codes == [] then map[]
    else Declared(codes[..|codes| - 1], fs) + LocaleAttrs(codes[|codes| - 1], fs)
  }

  lemma {:induction false} LocaleAttrsKeys(code: string, fs: seq<(string, FormField)>, k: string)
    ensures k in LocaleAttrs(code, fs) <==> exists p :: p in fs && k == TranslatedName(code, p.0)
  {
    if fs != [] {
      var n := |fs| - 1;
      LocaleAttrsKeys(code, fs[..n], k);
      assert fs == fs[..n] + [fs[n]];
    }
  }

  /** The generated class declares exactly one attribute per (configured locale, field). */
  lemma {:induction false} DeclaredKeys(codes: seq<string>, fs: seq<(string, FormField)>, k: string)
    ensures k in Declared(codes, fs) <==> exists c, p :: c in codes && p in fs && k == TranslatedName(c, p.0)
  {
    if codes != [] {
      var n := |codes| - 1;
      var prev, last := Declared(codes[..n], fs), LocaleAttrs(codes[n], fs);
      assert k in Declared(codes, fs) <==> k in prev || k in last;
      DeclaredKeys(codes[..n], fs, k);
      LocaleAttrsKeys(codes[n], fs, k);
      assert codes == codes[..n] + [codes[n]];
      if exists c, p :: c in codes && p in fs && k == TranslatedName(c, p.0) {
        var c, p :| c in codes && p in fs && k == TranslatedName(c, p.0);
        if c == codes[n] {
          assert k in last;
        } else {
          assert c in codes[..n];
          assert k in prev;
        }
      }
      if k in last {
        var p :| p in fs && k == TranslatedName(codes[n], p.0);
        assert codes[n] in codes;
      } else if k in prev {
        var c, p :| c in codes[..n] && p in fs && k == TranslatedName(c, p.0);
        assert c in codes;
      }
    }
  }

  lemma {:induction false} LocaleAttrsValue(code: string, fs: seq<(string, FormField)>, j: nat)
    requires j < |fs| && '_' !in code
    requires forall j' :: j < j' < |fs| ==> fs[j'].0 != fs[j].0
    ensures TranslatedName(code, fs[j].0) in LocaleAttrs(code, fs)
    ensures LocaleAttrs(code, fs)[TranslatedName(code, fs[j].0)] == fs[j].1
  {
    var n := |fs| - 1;
    if j < n {
      assert fs[..n][j] == fs[j];
      forall j' | j < j' < n ensures fs[..n][j'].0 != fs[..n][j].0 {
        assert fs[..n][j'] == fs[j'];
      }
      LocaleAttrsValue(code, fs[..n], j);
      if TranslatedName(code, fs[n].0) == TranslatedName(code, fs[j].0) {
        TranslatedNameInjective(code, fs[n].0, code, fs[j].0);
      }
    }
  }

  /** With underscore-free codes, the attribute of (locale, field) holds that field's form
      field: no two (locale, field) pairs share a name. */
  lemma {:induction false} DeclaredValue(codes: seq<string>, fs: seq<(string, FormField)>, i: nat, j: nat)
    requires i < |codes| && j < |fs|
    requires forall c :: c in codes ==> '_' !in c
    requires forall j' :: j < j' < |fs| ==> fs[j'].0 != fs[j].0
    ensures TranslatedName(codes[i], fs[j].0) in Declared(codes, fs)
    ensures Declared(codes, fs)[TranslatedName(codes[i], fs[j].0)] == fs[j].1
  {
    var n := |codes| - 1;
    var k := TranslatedName(codes[i], fs[j].0);
    if i < n {
      assert codes[..n][i] == codes[i];
      DeclaredValue(codes[..n], fs, i, j);
      if k in LocaleAttrs(codes[n], fs) {
        LocaleAttrsKeys(codes[n], fs, k);
        var p :| p in fs && k == TranslatedName(codes[n], p.0);
        TranslatedNameInjective(codes[i], fs[j].0, codes[n], p.0);
        LocaleAttrsValue(codes[n], fs, j);
      }
    } else {
      LocaleAttrsValue(codes[n], fs, j);
    }
  }

  lemma DeclareSnoc(code: string, fields: seq<(string, FormField)>, j: nat)
    requires j < |fields|
    ensures LocaleAttrs(code, fields[..j + 1]) == LocaleAttrs(code, fields[..j])[TranslatedName(code, fields[j].0) := fields[j].1]
    ensures Names(fields[..j + 1]) == Names(fields[..j]) + {fields[j].0}
  {
    assert fields[..j + 1][..j] == fields[..j];
    assert fields[..j + 1] == fields[..j] + [fields[j]];
  }

  /** The inner loop of `build_translations_form` for one locale: each field is recorded in
      `auto_parler_fields` and declared under its locale-qualified name. */
  method DeclareLocale(code: string, fields: seq<(string, FormField)>, attrs: map<string, FormField>, auto: set<string>)
    returns (attrs': map<string, FormField>, auto': set<string>)
    ensures attrs' == attrs + LocaleAttrs(code, fields)
    ensures auto' == auto + Names(fields)
  {
    attrs', auto' := attrs, auto;
    var j := 0;
    while j < |fields|
      invariant 0 <= j <= |fields|
      invariant attrs' == attrs + LocaleAttrs(code, fields[..j])
      invariant auto' == auto + Names(fields[..j])
    {
      DeclareSnoc(code, fields, j);
      auto' := auto' + {fields[j].0};
      attrs' := attrs'[TranslatedName(code, fields[j].0) := fields[j].1];
      j := j + 1;
    }
    assert fields[..j] == fields;
  }

  /** `build_translations_form`: `fields` is what `fields_for_model(**fields_for_model_kwargs)`
      returns for the translation model. */
  method BuildTranslationsForm(modelName: string, metaAttrs: Option<map<string, Value>>,
                               fields: seq<(string, FormField)>, locales: seq<LocaleConf>)
    returns (fc: FormClass)
    ensures fc.meta == MetaOf(modelName, metaAttrs)
    ensures fc.autoParlerFields == if locales == [] then {} else Names(fields)
    ensures fc.declared == Declared(Codes(locales), fields)
  {
    var meta := MetaOf(modelName, metaAttrs);
    var auto: set<string> := {};
    var attrs: map<string, FormField> := map[];
    ghost var codes := Codes(locales);
    var i := 0;
    while i < |locales|
      invariant 0 <= i <= |locales|
      invariant auto == if i == 0 then {} else Names(fields)
      invariant attrs == Declared(codes[..i], fields)
    {
      attrs, auto := DeclareLocale(locales[i]["code"], fields, attrs, auto);
      assert codes[..i + 1][..i] == codes[..i];
      i := i + 1;
    }
    assert codes[..i] == codes;
    fc := FormClass(meta, auto, attrs);
  }

  /** A class `build_translations_form` generates fits `AutoParlerModelForm`: when the form
      iterates its `auto_parler_fields` and its fields include the declared ones, every
      (configured locale, auto field) name the form fills and relaxes is one of its fields. */
  lemma GeneratedClassFitsForm(fc: FormClass, codes: seq<string>, fs: seq<(string, FormField)>,
                               auto: seq<string>, baseFields: map<string, FormField>)
    requires fc.declared == Declared(codes, fs) && fc.autoParlerFields == (if codes == [] then {} else Names(fs))
    requires forall f :: f in auto <==> f in fc.autoParlerFields
    requires fc.declared.Keys <= baseFields.Keys
    ensures forall c, f :: c in codes && f in auto ==> TranslatedName(c, f) in baseFields
  {
    forall c, f | c in codes && f in auto ensures TranslatedName(c, f) in baseFields {
      var p :| p in fs && p.0 == f;
      DeclaredKeys(codes, fs, TranslatedName(c, f));
    }
  }

  // ---------------------------------------------------------------- the form

  /** `get_localized_fieldnames(locale)`: each auto field with its form-field name. */
  function LocalizedFieldNames(auto: seq<string>, locale: string): (r: seq<(string, string)>)
    ensures |r| == |auto|
    ensures forall i :: 0 <= i < |r| ==> r[i].0 == auto[i] && r[i].1 == TranslatedName(locale, auto[i])
  {
    seq(|auto|, i requires 0 <= i < |auto| => (auto[i], TranslatedName(locale, auto[i])))
  }

  /** Every generated name reads back as the locale and field it was generated from. */
  lemma LocalizedFieldNamesParse(auto: seq<string>, locale: string, i: nat)
    requires '_' !in locale && i < |auto|
    ensures ParseTranslatedName(LocalizedFieldNames(auto, locale)[i].1) == Some((locale, auto[i]))
  {
    ParseTranslatedNameRoundTrip(locale, auto[i]);
  }

  /** The initials one translation contributes: the value of each auto field it has. */
  function FillLocale(initials: map<string, Value>, locale: string, record: map<string, Value>, auto: seq<string>)
    : map<string, Value>
  {
    if auto == [] then initials
    else
      var f := auto[|auto| - 1];
      var m := FillLocale(initials, locale, record, auto[..|auto| - 1]);
      if f in record then m[TranslatedName(locale, f) := record[f]] else m
  }

  /** The initials after walking the instance's translations in `order`. */
  function FillInitials(initials: map<string, Value>, translations: map<string, map<string, Value>>,
                        order: seq<string>, auto: seq<string>): map<string, Value>
    requires forall l :: l in order ==> l in translations
  {
    if order == [] then initials
    else
      var l := order[|order| - 1];
      FillLocale(FillInitials(initials, translations, order[..|order| - 1], auto), l, translations[l], auto)
  }

  lemma {:induction false} FillLocaleAt(initials: map<string, Value>, locale: string, record: map<string, Value>,
                                        auto: seq<string>, k: string)
    requires '_' !in locale
    ensures k in FillLocale(initials, locale, record, auto) <==>
              k in initials || exists f :: f in auto && f in record && k == TranslatedName(locale, f)
    ensures forall f :: f in auto && f in record && k == TranslatedName(locale, f) ==>
              FillLocale(initials, locale, record, auto)[k] == record[f]
    ensures (forall f :: f in auto && f in record ==> k != TranslatedName(locale, f)) && k in initials ==>
              FillLocale(initials, locale, record, auto)[k] == initials[k]
  {
    if auto != [] {
      var n := |auto| - 1;
      FillLocaleAt(initials, locale, record, auto[..n], k);
      assert auto == auto[..n] + [auto[n]];
      forall f | f in auto && f in record && k == TranslatedName(locale, f)
        ensures FillLocale(initials, locale, record, auto)[k] == record[f]
      {
        if auto[n] in record && k == TranslatedName(locale, auto[n]) {
          TranslatedNameInjective(locale, f, locale, auto[n]);
        }
      }
    }
  }

  /** With underscore-free codes, the initial of `translations_<l>_<f>` is the saved value
      of `f` in the translation for `l`, for every saved translation and auto field it has;
      the other initials are kept. */
  lemma {:induction false} FillInitialsAt(initials: map<string, Value>, translations: map<string, map<string, Value>>,
                                          order: seq<string>, auto: seq<string>, l: string, f: string)
    requires forall l' :: l' in order ==> l' in translations && '_' !in l'
    requires l in order && f in auto && f in translations[l]
    ensures TranslatedName(l, f) in FillInitials(initials, translations, order, auto)
    ensures FillInitials(initials, translations, order, auto)[TranslatedName(l, f)] == translations[l][f]
  {
    var n := |order| - 1;
    var k := TranslatedName(l, f);
    var prev := FillInitials(initials, translations, order[..n], auto);
    if order[n] == l {
      FillLocaleAt(prev, l, translations[l], auto, k);
    } else {
      assert l in order[..n] by { assert order == order[..n] + [order[n]]; }
      FillInitialsAt(initials, translations, order[..n], auto, l, f);
      FillLocaleAt(prev, order[n], translations[order[n]], auto, k);
      forall f' | f' in auto && f' in translations[order[n]] ensures k != TranslatedName(order[n], f') {
        if k == TranslatedName(order[n], f') {
          TranslatedNameInjective(l, f, order[n], f');
        }
      }
    }
  }

  /** The inner loop of `_init_i18n_initials` for one translation. */
  method FillLocaleInitials(initials: map<string, Value>, language: string, translation: map<string, Value>,
                            auto: seq<string>) returns (r: map<string, Value>)
    ensures r == FillLocale(initials, language, translation, auto)
  {
    r := initials;
    var names := LocalizedFieldNames(auto, language);
    var j := 0;
    while j < |names|
      invariant 0 <= j <= |names|
      invariant r == FillLocale(initials, language, translation, auto[..j])
    {
      var (fieldName, i18nFieldName) := names[j];
      if fieldName in translation {
        r := r[i18nFieldName := translation[fieldName]];
      }
      assert auto[..j + 1][..j] == auto[..j];
      j := j + 1;
    }
    assert auto[..j] == auto;
  }

  /** `_init_i18n_initials(instance, initials)`: nothing without a saved instance; otherwise
      each translation of the instance, in `order` (`instance.translations.all()`), fills the
      initial of each auto field it has. */
  method InitI18nInitials(auto: seq<string>, instance: TranslatableModel?, order: seq<string>,
                          initials: map<string, Value>) returns (r: map<string, Value>)
    requires instance != null ==> forall l :: l in order ==> l in instance.translations
    ensures instance == null || !instance.hasPk ==> r == initials
    ensures instance != null && instance.hasPk ==> r == FillInitials(initials, instance.translations, order, auto)
  {
    r := initials;
    if instance == null || !instance.hasPk {
      return;
    }
    var i := 0;
    while i < |order|
      invariant 0 <= i <= |order|
      invariant r == FillInitials(initials, instance.translations, order[..i], auto)
    {
      var language := order[i];
      r := FillLocaleInitials(r, language, instance.translations[language], auto);
      assert order[..i + 1][..i] == order[..i];
      i := i + 1;
    }
    assert order[..i] == order;
  }

  /** The label of a secondary locale's field: the uppercased code in brackets. */
  function Suffixed(fieldLabel: string, code: string): string
  {
    fieldLabel + " (" + Upper(code) + ")"
  }

  /** One locale's fields made optional and suffixed. */
  function RelaxLocale(fields: map<string, FormField>, code: string, auto: seq<string>): (r: map<string, FormField>)
    requires forall f :: f in auto ==> TranslatedName(code, f) in fields
    ensures r.Keys == fields.Keys
  {
    if auto == [] then fields
    else
      var k := TranslatedName(code, auto[|auto| - 1]);
      var m := RelaxLocale(fields, code, auto[..|auto| - 1]);
      m[k := FormField(false, Suffixed(m[k].fieldLabel, code))]
  }

  /** The fields after relaxing every locale in `codes`, in order. */
  function RelaxAll(fields: map<string, FormField>, codes: seq<string>, auto: seq<string>): (r: map<string, FormField>)
    requires forall c, f :: c in codes && f in auto ==> TranslatedName(c, f) in fields
    ensures r.Keys == fields.Keys
  {
    if codes == [] then fields
    else RelaxLocale(RelaxAll(fields, codes[..|codes| - 1], auto), codes[|codes| - 1], auto)
  }

  /** Two names for the same locale are equal only for the same field. */
  lemma SameLocaleInjective(code: string, f: string, g: string)
    ensures TranslatedName(code, f) == TranslatedName(code, g) ==> f == g
  {
    var p := |TranslationsPrefix + code + "_"|;
    assert TranslatedName(code, f)[p..] == f;
    assert TranslatedName(code, g)[p..] == g;
  }

  lemma {:induction false} RelaxLocaleAt(fields: map<string, FormField>, code: string, auto: seq<string>, k: string)
    requires forall f :: f in auto ==> TranslatedName(code, f) in fields
    requires Distinct(auto) && k in fields
    ensures (exists f :: f in auto && k == TranslatedName(code, f)) ==>
              RelaxLocale(fields, code, auto)[k] == FormField(false, Suffixed(fields[k].fieldLabel, code))
    ensures (forall f :: f in auto ==> k != TranslatedName(code, f)) ==> RelaxLocale(fields, code, auto)[k] == fields[k]
  {
    if auto != [] {
      var n := |auto| - 1;
      assert Distinct(auto[..n]);
      RelaxLocaleAt(fields, code, auto[..n], k);
      assert auto == auto[..n] + [auto[n]];
      if k == TranslatedName(code, auto[n]) {
        forall f | f in auto[..n] ensures k != TranslatedName(code, f) {
          SameLocaleInjective(code, f, auto[n]);
        }
      }
    }
  }

  /** A name that belongs to none of the relaxed locales keeps its field. */
  lemma {:induction false} RelaxAllMiss(fields: map<string, FormField>, codes: seq<string>, auto: seq<string>, k: string)
    requires forall c, f :: c in codes && f in auto ==> TranslatedName(c, f) in fields
    requires Distinct(auto) && k in fields
    requires forall c, f :: c in codes && f in auto ==> k != TranslatedName(c, f)
    ensures RelaxAll(fields, codes, auto)[k] == fields[k]
  {
    if codes != [] {
      var n := |codes| - 1;
      assert codes == codes[..n] + [codes[n]];
      RelaxAllMiss(fields, codes[..n], auto, k);
      RelaxLocaleAt(RelaxAll(fields, codes[..n], auto), codes[n], auto, k);
    }
  }

  /** With distinct underscore-free codes, every field of a relaxed locale is optional and
      its label gets that locale's suffix exactly once. */
  lemma {:induction false} RelaxAllHit(fields: map<string, FormField>, codes: seq<string>, auto: seq<string>,
                                       c: string, f: string)
    requires forall c, f :: c in codes && f in auto ==> TranslatedName(c, f) in fields
    requires Distinct(auto) && Distinct(codes) && (forall c :: c in codes ==> '_' !in c)
    requires c in codes && f in auto
    ensures RelaxAll(fields, codes, auto)[TranslatedName(c, f)] ==
            FormField(false, Suffixed(fields[TranslatedName(c, f)].fieldLabel, c))
  {
    var n := |codes| - 1;
    var k := TranslatedName(c, f);
    var prev := RelaxAll(fields, codes[..n], auto);
    assert codes == codes[..n] + [codes[n]];
    assert Distinct(codes[..n]);
    if c == codes[n] {
      forall c', f' | c' in codes[..n] && f' in auto ensures k != TranslatedName(c', f') {
        if k == TranslatedName(c', f') {
          TranslatedNameInjective(c, f, c', f');
        }
      }
      RelaxAllMiss(fields, codes[..n], auto, k);
      RelaxLocaleAt(prev, codes[n], auto, k);
    } else {
      RelaxAllHit(fields, codes[..n], auto, c, f);
      forall f' | f' in auto ensures k != TranslatedName(codes[n], f') {
        if k == TranslatedName(codes[n], f') {
          TranslatedNameInjective(c, f, codes[n], f');
        }
      }
      RelaxLocaleAt(prev, codes[n], auto, k);
    }
  }

  /** The inner relaxing loop of `AutoParlerModelForm.__init__`, for one locale. */
  method RelaxLocaleFields(fields: map<string, FormField>, code: string, auto: seq<string>)
    returns (r: map<string, FormField>)
    requires forall f :: f in auto ==> TranslatedName(code, f) in fields
    ensures r == RelaxLocale(fields, code, auto)
  {
    r := fields;
    var names := LocalizedFieldNames(auto, code);
    var j := 0;
    while j < |names|
      invariant 0 <= j <= |names|
      invariant r == RelaxLocale(fields, code, auto[..j])
    {
      var i18nFieldName := names[j].1;
      r := r[i18nFieldName := FormField(false, Suffixed(r[i18nFieldName].fieldLabel, code))];
      assert auto[..j + 1][..j] == auto[..j];
      j := j + 1;
    }
    assert auto[..j] == auto;
  }

  /** The relaxing loop of `AutoParlerModelForm.__init__`, over every configured locale but
      the first. */
  method RelaxOtherLocales(fields: map<string, FormField>, codes: seq<string>, auto: seq<string>)
    returns (r: map<string, FormField>)
    requires forall c, f :: c in codes && f in auto ==> TranslatedName(c, f) in fields
    ensures codes == [] ==> r == fields
    ensures codes != [] ==> r == RelaxAll(fields, codes[1..], auto)
  {
    r := fields;
    if codes == [] {
      return;
    }
    var others := codes[1..];
    var i := 0;
    while i < |others|
      invariant 0 <= i <= |others|
      invariant r == RelaxAll(fields, others[..i], auto)
    {
      r := RelaxLocaleFields(r, others[i], auto);
      assert others[..i + 1][..i] == others[..i];
      i := i + 1;
    }
    assert others[..i] == others;
  }

  /** The first locale's fields keep their required flag and label, unless its code occurs
      again among the other locales (then that occurrence relaxes them, as in the source). */
  lemma RelaxFirstUntouched(fields: map<string, FormField>, codes: seq<string>, auto: seq<string>, f: string)
    requires forall c, g :: c in codes && g in auto ==> TranslatedName(c, g) in fields
    requires codes != [] && codes[0] !in codes[1..] && (forall c :: c in codes ==> '_' !in c)
    requires Distinct(auto) && f in auto
    ensures RelaxAll(fields, codes[1..], auto)[TranslatedName(codes[0], f)] == fields[TranslatedName(codes[0], f)]
  {
    var k := TranslatedName(codes[0], f);
    forall c, g | c in codes[1..] && g in auto ensures k != TranslatedName(c, g) {
      if k == TranslatedName(c, g) {
        TranslatedNameInjective(codes[0], f, c, g);
      }
    }
    RelaxAllMiss(fields, codes[1..], auto, k);
  }

  /** One locale's bucket of cleaned data: every auto field whose prefixed name was cleaned,
      with the cleaned value. */
  function Bucket(cleaned: map<string, Value>, code: string, auto: seq<string>): map<string, Value>
  {
    map f | f in auto && TranslatedName(code, f) in cleaned :: cleaned[TranslatedName(code, f)]
  }

  /** Adding a field to the auto fields adds its cleaned value, when there is one. */
  lemma BucketSnoc(cleaned: map<string, Value>, code: string, auto: seq<string>, j: nat)
    requires j < |auto|
    ensures var k := TranslatedName(code, auto[j]);
            Bucket(cleaned, code, auto[..j + 1]) ==
            if k in cleaned then Bucket(cleaned, code, auto[..j])[auto[j] := cleaned[k]] else Bucket(cleaned, code, auto[..j])
  {
    assert auto[..j + 1] == auto[..j] + [auto[j]];
  }

  /** The inner loop of `clean()`: the bucket of one locale. */
  method LocaleBucket(cleaned: map<string, Value>, code: string, auto: seq<string>) returns (data: map<string, Value>)
    ensures data == Bucket(cleaned, code, auto)
  {
    data := map[];
    var names := LocalizedFieldNames(auto, code);
    var j := 0;
    while j < |names|
      invariant 0 <= j <= |names|
      invariant data == Bucket(cleaned, code, auto[..j])
    {
      var (fieldName, i18nFieldName) := names[j];
      BucketSnoc(cleaned, code, auto, j);
      if i18nFieldName in cleaned {
        data := data[fieldName := cleaned[i18nFieldName]];
      }
      j := j + 1;
    }
    assert auto[..j] == auto;
  }

  /** The loops of `clean()`: exactly one bucket per configured locale. */
  method GroupByLocale(cleaned: map<string, Value>, codes: seq<string>, auto: seq<string>)
    returns (buckets: map<string, map<string, Value>>)
    ensures forall c :: c in buckets <==> c in codes
    ensures forall c :: c in buckets ==> buckets[c] == Bucket(cleaned, c, auto)
  {
    buckets := map[];
    var i := 0;
    while i < |codes|
      invariant 0 <= i <= |codes|
      invariant forall c :: c in buckets <==> c in codes[..i]
      invariant forall c :: c in buckets ==> buckets[c] == Bucket(cleaned, c, auto)
    {
      var code := codes[i];
      var data := LocaleBucket(cleaned, code, auto);
      buckets := buckets[code := data];
      assert codes[..i + 1] == codes[..i] + [code];
      i := i + 1;
    }
    assert codes[..i] == codes;
  }

  /** Round trip: what `_init_i18n_initials` writes for one translation, `clean()` groups
      back into that translation's values of the auto fields, whatever the data holds for
      other locales. */
  lemma BucketRoundTrip(other: map<string, Value>, code: string, record: map<string, Value>, auto: seq<string>)
    requires '_' !in code
    requires forall k :: k in other ==> ParseTranslatedName(k).None? || ParseTranslatedName(k).value.0 != code
    ensures Bucket(FillLocale(other, code, record, auto), code, auto) == map f | f in auto && f in record :: record[f]
  {
    var filled := FillLocale(other, code, record, auto);
    forall f | f in auto
      ensures TranslatedName(code, f) in filled <==> f in record
      ensures f in record ==> filled[TranslatedName(code, f)] == record[f]
    {
      var k := TranslatedName(code, f);
      ParseTranslatedNameRoundTrip(code, f);
      FillLocaleAt(other, code, record, auto, k);
      forall g | g in auto && g in record && k == TranslatedName(code, g) ensures g == f {
        SameLocaleInjective(code, f, g);
      }
    }
  }

  // ---------------------------------------------------------------- saving

  /** `not data or all(not d for d in data.values())`: nothing worth saving for the locale. */
  predicate NoData(data: Option<map<string, Value>>)
  {
    data.None? || AllFalsy(data.value)
  }

  /** The value `_save_locale` returns: `(None, deleted_count)` or `(created, saved)`. */
  datatype SaveResult = Deleted(count: nat) | Written(created: bool, saved: seq<map<string, Value>>)

  /** `_save_locale(locale)` over the instance's saved translations: the result and the
      translations afterwards. A deletion removes one translation; a write merges the data
      into the locale's translation (a new one when there was none). */
  function SaveLocaleOutcome(store: map<string, map<string, Value>>, locale: string, data: Option<map<string, Value>>)
    : (r: (SaveResult, map<string, map<string, Value>>))
    ensures r.0.Deleted? <==> NoData(data)
    ensures r.0.Deleted? ==> r.0.count == (if locale in store then 1 else 0) && r.1 == store - {locale}
    ensures r.0.Written? ==> r.0.created == (locale !in store)
    ensures r.0.Written? ==> locale in r.1 && r.0.saved == [r.1[locale]]
    ensures r.0.Written? ==> r.1[locale] == (if locale in store then store[locale] else map[]) + data.value
    ensures forall l :: l != locale ==> (l in r.1 <==> l in store) && (l in store ==> r.1[l] == store[l])
  {
    var exists_ := locale in store;
    if NoData(data) then
      (Deleted(if exists_ then 1 else 0), if exists_ then store - {locale} else store)
    else
      var saved := (if exists_ then store[locale] else map[]) + data.value;
      (Written(!exists_, [saved]), store[locale := saved])
  }

  /** `cleaned_data_for_locales.get(locale)` */
  function BucketData(buckets: map<string, map<string, Value>>, locale: string): Option<map<string, Value>>
  {
    if locale in buckets then Some(buckets[locale]) else None
  }

  /** The translations after saving every configured locale, in order. */
  function ApplySaves(store: map<string, map<string, Value>>, codes: seq<string>,
                      buckets: map<string, map<string, Value>>): map<string, map<string, Value>>
  {
    if codes == [] then store
    else
      var c := codes[|codes| - 1];
      SaveLocaleOutcome(ApplySaves(store, codes[..|codes| - 1], buckets), c, BucketData(buckets, c)).1
  }

  /** `save()` leaves the translation of a locale that is not configured as it was. */
  lemma {:induction false} ApplySavesOther(store: map<string, map<string, Value>>, codes: seq<string>,
                                           buckets: map<string, map<string, Value>>, l: string)
    requires l !in codes
    ensures var after := ApplySaves(store, codes, buckets);
            (l in after <==> l in store) && (l in store ==> after[l] == store[l])
  {
    if codes != [] {
      var n := |codes| - 1;
      assert codes == codes[..n] + [codes[n]];
      ApplySavesOther(store, codes[..n], buckets, l);
    }
  }

  /** After `save()`, a configured locale whose bucket is missing, empty or all-falsy has no
      translation any more. */
  lemma {:induction false} ApplySavesEmpty(store: map<string, map<string, Value>>, codes: seq<string>,
                                           buckets: map<string, map<string, Value>>, l: string)
    requires l in codes && NoData(BucketData(buckets, l))
    ensures l !in ApplySaves(store, codes, buckets)
  {
    var n := |codes| - 1;
    if codes[n] != l {
      assert l in codes[..n] by { assert codes == codes[..n] + [codes[n]]; }
      ApplySavesEmpty(store, codes[..n], buckets, l);
    }
  }

  /** Merging the same data twice merges it once. */
  lemma MergeTwice(m: map<string, Value>, d: map<string, Value>)
    ensures m + d + d == m + d
  {
  }

  /** After `save()`, a configured locale with data has a translation: the previous one (if
      any) updated with the bucket. Saving a locale listed twice changes nothing more. */
  lemma {:induction false} ApplySavesWritten(store: map<string, map<string, Value>>, codes: seq<string>,
                                             buckets: map<string, map<string, Value>>, l: string)
    requires l in codes && !NoData(BucketData(buckets, l))
    ensures var after := ApplySaves(store, codes, buckets);
            l in after && after[l] == (if l in store then store[l] else map[]) + buckets[l]
  {
    var n := |codes| - 1;
    var base := if l in store then store[l] else map[];
    var prev := ApplySaves(store, codes[..n], buckets);
    var step := SaveLocaleOutcome(prev, codes[n], BucketData(buckets, codes[n]));
    assert ApplySaves(store, codes, buckets) == step.1;
    if l in codes[..n] {
      ApplySavesWritten(store, codes[..n], buckets, l);
      if codes[n] == l {
        assert step.1[l] == prev[l] + buckets[l];
        MergeTwice(base, buckets[l]);
      }
    } else {
      assert codes == codes[..n] + [codes[n]];
      ApplySavesOther(store, codes[..n], buckets, l);
      assert step.1[l] == (if l in prev then prev[l] else map[]) + buckets[l];
    }
  }

  class AutoParlerModelForm {
    /** The configured locale codes (`PARLER_LANGUAGES[None]`). */
    const codes: seq<string>
    /** `auto_parler_fields`, in the order the set is iterated. */
    const auto: seq<string>
    var fields: map<string, FormField>
    var initial: map<string, Value>
    var cleanedData: map<string, Value>
    var cleanedDataForLocales: map<string, map<string, Value>>
    var instance: TranslatableModel

    /** `AutoParlerModelForm.__init__`: fills the initials from the instance's translations,
        copies the class's fields, then makes every field of every locale but the first
        optional with the locale's suffix. Without an instance the form gets a new, unsaved
        one (as a model form does). `order` is the order of `instance.translations.all()`. */
    constructor (codes: seq<string>, auto: seq<string>, baseFields: map<string, FormField>,
                 instance: TranslatableModel?, order: seq<string>, initial: Option<map<string, Value>>)
      requires forall c, f :: c in codes && f in auto ==> TranslatedName(c, f) in baseFields
      requires instance != null ==> forall l :: l in order ==> l in instance.translations
      ensures this.codes == codes && this.auto == auto
      ensures instance != null ==> this.instance == instance
      ensures instance == null ==> fresh(this.instance) && !this.instance.hasPk && this.instance.translations == map[]
      ensures var given := if initial.Some? then initial.value else map[];
              this.initial == if instance != null && instance.hasPk then FillInitials(given, instance.translations, order, auto)
                              else given
      ensures codes == [] ==> fields == baseFields
      ensures codes != [] ==> fields == RelaxAll(baseFields, codes[1..], auto)
      ensures cleanedData == map[] && cleanedDataForLocales == map[]
    {
      this.codes := codes;
      this.auto := auto;
      var given := if initial.Some? then initial.value else map[];
      var filled := InitI18nInitials(auto, instance, order, given);
      this.initial := filled;
      if instance == null {
        this.instance := new TranslatableModel(false, true, "translations", map[], map[], true);
      } else {
        this.instance := instance;
      }
      var relaxed := RelaxOtherLocales(baseFields, codes, auto);
      fields := relaxed;
      cleanedData := map[];
      cleanedDataForLocales := map[];
    }

    /** `clean()` */
    method Clean()
      modifies this`cleanedDataForLocales
      ensures forall c :: c in cleanedDataForLocales <==> c in codes
      ensures forall c :: c in cleanedDataForLocales ==> cleanedDataForLocales[c] == Bucket(cleanedData, c, auto)
    {
      cleanedDataForLocales := GroupByLocale(cleanedData, codes, auto);
    }

    /** `_save_locale(locale)` */
    method SaveLocale(locale: string) returns (r: SaveResult)
      modifies instance`translations
      ensures (r, instance.translations) ==
              SaveLocaleOutcome(old(instance.translations), locale, BucketData(cleanedDataForLocales, locale))
    {
      var transExists := instance.HasTranslation(locale);
      var data := BucketData(cleanedDataForLocales, locale);
      if data.None? || AllFalsy(data.value) {
        if transExists {
          instance.translations := instance.translations - {locale};
          return Deleted(1);
        }
        return Deleted(0);
      }
      var saved := (if transExists then instance.translations[locale] else map[]) + data.value;
      instance.translations := instance.translations[locale := saved];
      r := Written(!transExists, [saved]);
    }

    /** `save()`: the parent save gives the instance its primary key, then each configured
        locale is saved in order. */
    method Save()
      modifies instance`hasPk, instance`translations
      ensures instance.hasPk
      ensures instance.translations == ApplySaves(old(instance.translations), codes, cleanedDataForLocales)
    {
      instance.hasPk := true;
      var i := 0;
      while i < |codes|
        invariant 0 <= i <= |codes|
        invariant instance.hasPk
        invariant instance.translations == ApplySaves(old(instance.translations), codes[..i], cleanedDataForLocales)
      {
        var _ := SaveLocale(codes[i]);
        assert codes[..i + 1][..i] == codes[..i];
        i := i + 1;
      }
      assert codes[..i] == codes;
    }
  }
}
