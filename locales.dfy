/** The configured locales (`PARLER_LANGUAGES[None]`), the human-readable labels
    (`LANGUAGES`), and the naming convention that routes a form field to one locale. */
module Locales {
  import opened Common

  /** One entry of `PARLER_LANGUAGES[None]`: a dictionary that always has a "code". */
  type LocaleConf = m: map<string, string> | "code" in m witness map["code" := "fr"]

  function Code(c: LocaleConf): string
  {
    c["code"]
  }

  /** The configured codes, in configuration order. */
  function Codes(ls: seq<LocaleConf>): (r: seq<string>)
    ensures |r| == |ls|
    ensures forall i :: 0 <= i < |ls| ==> r[i] == Code(ls[i])
  {
    seq(|ls|, i requires 0 <= i < |ls| => Code(ls[i]))
  }

  /** `next(conf for conf in ls if conf["code"] == code)`; `None` is the StopIteration. */
  function FindConf(ls: seq<LocaleConf>, code: Option<string>): Option<LocaleConf>
  {
    if code.None? || ls == [] then None
    else if Code(ls[0]) == code.value then Some(ls[0])
    else FindConf(ls[1..], code)
  }

  /** The search yields the first configuration with the code, and fails exactly when no
      configuration has it. */
  lemma {:induction false} FindConfFinds(ls: seq<LocaleConf>, code: Option<string>)
    ensures var r := FindConf(ls, code);
            && (r.Some? ==> code.Some? && Code(r.value) == code.value)
            && (r.Some? ==> exists i :: 0 <= i < |ls| && ls[i] == r.value &&
                                        forall j :: 0 <= j < i ==> Code(ls[j]) != code.value)
            && (r.None? ==> code.None? || forall i :: 0 <= i < |ls| ==> Code(ls[i]) != code.value)
  {
    if code.Some? && ls != [] && Code(ls[0]) != code.value {
      FindConfFinds(ls[1..], code);
      var r := FindConf(ls[1..], code);
      if r.Some? {
        var i :| 0 <= i < |ls[1..]| && ls[1..][i] == r.value &&
                 forall j :: 0 <= j < i ==> Code(ls[1..][j]) != code.value;
        assert ls[i + 1] == r.value;
        forall j | 0 <= j < i + 1 ensures Code(ls[j]) != code.value {
          if j > 0 { assert ls[j] == ls[1..][j - 1]; }
        }
      } else {
        forall i | 0 <= i < |ls| ensures Code(ls[i]) != code.value {
          if i > 0 { assert ls[i] == ls[1..][i - 1]; }
        }
      }
    } else if code.Some? && ls != [] {
      assert ls[0] == ls[0];
    }
  }

  /** `dict(settings.LANGUAGES)`: a later pair for the same code replaces an earlier one. */
  function LanguageLabels(pairs: seq<(string, string)>): map<string, string>
  {
    if pairs == [] then map[]
    else LanguageLabels(pairs[..|pairs| - 1])[pairs[|pairs| - 1].0 := pairs[|pairs| - 1].1]
  }

  /** The label dictionary has exactly the codes of `LANGUAGES` as keys. */
  lemma {:induction false} LanguageLabelsKeys(pairs: seq<(string, string)>, code: string)
    ensures code in LanguageLabels(pairs) <==> exists i :: 0 <= i < |pairs| && pairs[i].0 == code
  {
    if pairs != [] {
      var n := |pairs| - 1;
      LanguageLabelsKeys(pairs[..n], code);
      if exists i :: 0 <= i < |pairs| && pairs[i].0 == code {
        var i :| 0 <= i < |pairs| && pairs[i].0 == code;
        if i < n { assert pairs[..n][i].0 == code; }
      }
      if exists i :: 0 <= i < n && pairs[..n][i].0 == code {
        var i :| 0 <= i < n && pairs[..n][i].0 == code;
        assert pairs[i].0 == code;
      }
    }
  }

  /** The label of a code is the one given by its last pair in `LANGUAGES`. */
  lemma {:induction false} LanguageLabelsLastWins(pairs: seq<(string, string)>, i: nat)
    requires i < |pairs|
    requires forall j :: i < j < |pairs| ==> pairs[j].0 != pairs[i].0
    ensures pairs[i].0 in LanguageLabels(pairs)
    ensures LanguageLabels(pairs)[pairs[i].0] == pairs[i].1
  {
    var n := |pairs| - 1;
    if i < n {
      assert pairs[..n][i] == pairs[i];
      forall j | i < j < n ensures pairs[..n][j].0 != pairs[..n][i].0 {
        assert pairs[..n][j] == pairs[j];
      }
      LanguageLabelsLastWins(pairs[..n], i);
    }
  }

  const TranslationsPrefix: string := "translations_"

  /** The form-field name of `field` for locale `locale`: `translations_<locale>_<field>`. */
  function TranslatedName(locale: string, field: string): string
  {
    TranslationsPrefix + locale + "_" + field
  }

  /** Reads a form-field name back as (locale, field), splitting at the first `_` after
      the prefix; `None` when the name does not follow the convention. */
  function ParseTranslatedName(name: string): (r: Option<(string, string)>)
  {
    if |name| < |TranslationsPrefix| || name[..|TranslationsPrefix|] != TranslationsPrefix then None
    else
      match IndexOf(name, '_', |TranslationsPrefix|)
      case None => None
      case Some(k) => Some((name[|TranslationsPrefix|..k], name[k + 1..]))
  }

  /** Round trip: a name built for an underscore-free locale code reads back as the
      locale and field it was built from. */
  lemma ParseTranslatedNameRoundTrip(locale: string, field: string)
    requires '_' !in locale
    ensures ParseTranslatedName(TranslatedName(locale, field)) == Some((locale, field))
  {
    var name := TranslatedName(locale, field);
    var p := |TranslationsPrefix|;
    assert name[..p] == TranslationsPrefix;
    var k := p + |locale|;
    assert name[k] == '_';
    forall j | p <= j < k ensures name[j] != '_' {
      assert name[j] == locale[j - p];
    }
    IndexOfFinds(name, '_', p, k);
    assert name[p..k] == locale;
    assert name[k + 1..] == field;
  }

  /** Conversely, every name that parses was built by the convention from an
      underscore-free locale code. */
  lemma ParsedNameIsTranslatedName(name: string, locale: string, field: string)
    requires ParseTranslatedName(name) == Some((locale, field))
    ensures '_' !in locale
    ensures name == TranslatedName(locale, field)
  {
    var p := |TranslationsPrefix|;
    var k := IndexOf(name, '_', p).value;
    assert locale == name[p..k];
    forall j | 0 <= j < |locale| ensures locale[j] != '_' {
      assert locale[j] == name[p + j];
    }
    assert name == name[..p] + name[p..k] + "_" + name[k + 1..];
  }

  /** Distinct (locale, field) pairs get distinct form-field names as long as locale codes
      hold no underscore. */
  lemma TranslatedNameInjective(l1: string, f1: string, l2: string, f2: string)
    requires '_' !in l1 && '_' !in l2
    requires TranslatedName(l1, f1) == TranslatedName(l2, f2)
    ensures l1 == l2 && f1 == f2
  {
    ParseTranslatedNameRoundTrip(l1, f1);
    ParseTranslatedNameRoundTrip(l2, f2);
  }
}
