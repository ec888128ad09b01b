/** The heading of one locale tab: the category of the edited instance for that locale,
    the template chosen for it, and the `%(key)s` interpolation of that template.
    Both handler variants are here, so that where they differ can be stated. */
module Headings {
  import opened Common
  import opened PercentFormat
  import opened Settings
  import opened Locales

  /** The edited model instance, as far as headings look at it: whether its primary key
      is set (truthy), and the locale codes it has a translation for (`has_translation`). */
  datatype InstanceInfo = InstanceInfo(hasPk: bool, translated: set<string>)

  /** Why a heading cannot be computed: the StopIteration of `next`, the KeyError of
      `locale_labels[code]`, or an error of the `%` operator. */
  datatype HeadingError =
    | UnknownLocale
    | MissingLanguageLabel(code: string)
    | FormatFailed(error: FormatError)

  /** Creating without a saved instance; otherwise translated or not by `has_translation`. */
  function CategoryOf(instance: Option<InstanceInfo>, code: string): (c: Category)
  {
    if instance.Some? && instance.value.hasPk then
      if code in instance.value.translated then Translated else Untranslated
    else Creating
  }

  /** The mapping the template is formatted with: `locale` and `status` first, then every
      key of the locale's configuration, which overrides them. */
  function Interpolation(localeLabel: string, status: string, conf: LocaleConf): map<string, string>
  {
    map["locale" := localeLabel, "status" := status] + conf
  }

  /** Formats `template` for one locale when it holds `%(`, and leaves it as it is otherwise. */
  function Interpolate(template: string, status: string, conf: LocaleConf, labels: map<string, string>)
    : Result<string, HeadingError>
  {
    if !HasMarker(template) then Ok(template)
    else if Code(conf) !in labels then Err(MissingLanguageLabel(Code(conf)))
    else
      match Format(template, Interpolation(labels[Code(conf)], status, conf))
      case Ok(s) => Ok(s)
      case Err(e) => Err(FormatFailed(e))
  }

  /** The template `_set_parler_heading` picks: the initial heading when it holds `%(`,
      the category's configured label otherwise. */
  function ParlerTemplate(initial: Option<string>, hc: HeadingConf): string
  {
    if initial.Some? && HasMarker(initial.value) then initial.value else hc.template
  }

  /** `TranslationsList._set_parler_heading(instance)` of the current package. */
  function ParlerHeading(initial: Option<string>, instance: Option<InstanceInfo>, current: Option<string>,
                         locales: seq<LocaleConf>, languages: seq<(string, string)>, hcs: HeadingsConf)
    : Result<string, HeadingError>
  {
    match FindConf(locales, current)
    case None => Err(UnknownLocale)
    case Some(conf) =>
      var hc := hcs.Get(CategoryOf(instance, Code(conf)));
      Interpolate(ParlerTemplate(initial, hc), hc.status, conf, LanguageLabels(languages))
  }

  /** The inline heading logic of the model-admin package's locale loop: an empty heading
      becomes the category's label, any other heading is kept. */
  function ModelAdminHeading(heading: string, instance: Option<InstanceInfo>, conf: LocaleConf,
                             languages: seq<(string, string)>, hcs: HeadingsConf)
    : Result<string, HeadingError>
  {
    var hc := hcs.Get(CategoryOf(instance, Code(conf)));
    Interpolate(if heading == "" then hc.template else heading, hc.status, conf, LanguageLabels(languages))
  }

  /** The category is creating exactly without a saved instance, translated exactly when a
      saved instance has a translation for the code. */
  lemma CategoryChoice(instance: Option<InstanceInfo>, code: string)
    ensures CategoryOf(instance, code) == Creating <==> instance.None? || !instance.value.hasPk
    ensures CategoryOf(instance, code) == Translated <==>
              instance.Some? && instance.value.hasPk && code in instance.value.translated
    ensures CategoryOf(instance, code) == Untranslated <==>
              instance.Some? && instance.value.hasPk && code !in instance.value.translated
  {
  }

  /** The heading fails with StopIteration exactly when no configured locale has the
      current code (or there is no current code). */
  lemma ParlerHeadingUnknownLocale(initial: Option<string>, instance: Option<InstanceInfo>, current: Option<string>,
                                   locales: seq<LocaleConf>, languages: seq<(string, string)>, hcs: HeadingsConf)
    ensures ParlerHeading(initial, instance, current, locales, languages, hcs) == Err(UnknownLocale) <==>
              current.None? || forall i :: 0 <= i < |locales| ==> Code(locales[i]) != current.value
  {
    FindConfFinds(locales, current);
    var r := FindConf(locales, current);
    if r.Some? {
      var conf := r.value;
      var hc := hcs.Get(CategoryOf(instance, Code(conf)));
      var res := Interpolate(ParlerTemplate(initial, hc), hc.status, conf, LanguageLabels(languages));
      assert res != Err(UnknownLocale);
    }
  }

  /** An initial heading without `%(` (or none at all) is ignored: the configured label of
      the category is used, as if no heading had been given. */
  lemma ParlerHeadingIgnoresPlainInitial(initial: string, instance: Option<InstanceInfo>, current: Option<string>,
                                         locales: seq<LocaleConf>, languages: seq<(string, string)>, hcs: HeadingsConf)
    requires !Contains(initial, "%(")
    ensures ParlerHeading(Some(initial), instance, current, locales, languages, hcs) ==
            ParlerHeading(None, instance, current, locales, languages, hcs)
  {
  }

  /** A template without `%(` is the heading itself; no label lookup, no formatting. */
  lemma PlainTemplateKept(template: string, status: string, conf: LocaleConf, labels: map<string, string>)
    requires !Contains(template, "%(")
    ensures Interpolate(template, status, conf, labels) == Ok(template)
  {
  }

  /** A template with `%(` needs the locale's label: a code missing from `LANGUAGES` is a
      KeyError whatever the rest of the template says. */
  lemma MarkedTemplateNeedsLabel(template: string, status: string, conf: LocaleConf, languages: seq<(string, string)>)
    requires Contains(template, "%(")
    requires forall i :: 0 <= i < |languages| ==> languages[i].0 != Code(conf)
    ensures Interpolate(template, status, conf, LanguageLabels(languages)) == Err(MissingLanguageLabel(Code(conf)))
  {
    LanguageLabelsKeys(languages, Code(conf));
  }

  /** The value a lone `%(key)s` slot gets: the locale's own configuration wins, then
      `locale` is the label from `LANGUAGES` and `status` the category's marker. */
  lemma SlotValue(key: string, status: string, conf: LocaleConf, labels: map<string, string>)
    requires ')' !in key && Code(conf) in labels
    requires key in conf || key == "locale" || key == "status"
    ensures Interpolate("%(" + key + ")s", status, conf, labels) ==
              Ok(if key in conf then conf[key] else if key == "locale" then labels[Code(conf)] else status)
  {
    var t := "%(" + key + ")s";
    assert ContainsAt(t, "%(", 0);
    var args := Interpolation(labels[Code(conf)], status, conf);
    FormatSlot(key, "", args);
    assert t + "" == t;
    FormatPlain("", args);
    assert args[key] + "" == args[key];
  }

  /** The two packages agree on empty headings and on headings with `%(`; on a non-empty
      heading without `%(` the model-admin package keeps the heading verbatim while the
      current package replaces it by the category's label. */
  lemma VariantsAgreeOnEmptyOrMarked(heading: string, instance: Option<InstanceInfo>, conf: LocaleConf,
                                     locales: seq<LocaleConf>, languages: seq<(string, string)>, hcs: HeadingsConf)
    requires FindConf(locales, Some(Code(conf))) == Some(conf)
    requires heading == "" || Contains(heading, "%(")
    ensures ModelAdminHeading(heading, instance, conf, languages, hcs) ==
            ParlerHeading(Some(heading), instance, Some(Code(conf)), locales, languages, hcs)
  {
    if heading == "" {
      assert !ContainsAt(heading, "%(", 0);
      assert !HasMarker(heading);
    }
  }

  lemma VariantsDifferOnPlainHeading(heading: string, instance: Option<InstanceInfo>, conf: LocaleConf,
                                     locales: seq<LocaleConf>, languages: seq<(string, string)>, hcs: HeadingsConf)
    requires FindConf(locales, Some(Code(conf))) == Some(conf)
    requires heading != "" && !Contains(heading, "%(")
    ensures ModelAdminHeading(heading, instance, conf, languages, hcs) == Ok(heading)
    ensures ParlerHeading(Some(heading), instance, Some(Code(conf)), locales, languages, hcs) ==
            Interpolate(hcs.Get(CategoryOf(instance, Code(conf))).template,
                        hcs.Get(CategoryOf(instance, Code(conf))).status, conf, LanguageLabels(languages))
  {
  }

  /** Interpolating the printed form of well-formed pieces renders them with the mapping. */
  lemma InterpolatePrinted(ps: seq<Piece>, status: string, conf: LocaleConf, labels: map<string, string>)
    requires forall i :: 0 <= i < |ps| ==> WellFormedPiece(ps[i])
    requires Contains(Print(ps), "%(") && Code(conf) in labels
    requires KeysPresent(ps, Interpolation(labels[Code(conf)], status, conf))
    ensures Interpolate(Print(ps), status, conf, labels) ==
              Ok(Render(ps, Interpolation(labels[Code(conf)], status, conf)))
  {
    FormatPrinted(ps, Interpolation(labels[Code(conf)], status, conf));
  }

  // The next three lemmas are the steps of WorkedTemplates, kept apart so that each
  // proof stays small: rendering the two templates' pieces, then interpolating their text.

  lemma RenderedTemplates(status: string, conf: LocaleConf, labels: map<string, string>)
    requires Code(conf) in labels && "locale" !in conf && "status" !in conf
    ensures Render(LocaleStatusPieces, Interpolation(labels[Code(conf)], status, conf)) ==
              labels[Code(conf)] + " " + status
    ensures Render(CodeLocaleStatusPieces, Interpolation(labels[Code(conf)], status, conf)) ==
              Code(conf) + ": " + labels[Code(conf)] + " " + status
  {
    var args := Interpolation(labels[Code(conf)], status, conf);
    assert args["code"] == Code(conf) && args["locale"] == labels[Code(conf)] && args["status"] == status;
    var ps := CodeLocaleStatusPieces;
    assert ps[2..] == LocaleStatusPieces;
    assert LocaleStatusPieces[1..] == [Text(" "), Slot("status")];
    assert LocaleStatusPieces[2..] == [Slot("status")];
    assert Render([Slot("status")], args) == status;
    assert ps[1..] == [Text(": ")] + ps[2..];
  }

  lemma InterpolatedLocaleStatus(status: string, conf: LocaleConf, labels: map<string, string>)
    requires Code(conf) in labels && "locale" !in conf && "status" !in conf
    ensures Interpolate(Print(LocaleStatusPieces), status, conf, labels) ==
              Ok(Render(LocaleStatusPieces, Interpolation(labels[Code(conf)], status, conf)))
  {
    assert ContainsAt(Print(LocaleStatusPieces), "%(", 0);
    InterpolatePrinted(LocaleStatusPieces, status, conf, labels);
  }

  lemma InterpolatedCodeLocaleStatus(status: string, conf: LocaleConf, labels: map<string, string>)
    requires Code(conf) in labels && "locale" !in conf && "status" !in conf
    ensures Interpolate(Print(CodeLocaleStatusPieces), status, conf, labels) ==
              Ok(Render(CodeLocaleStatusPieces, Interpolation(labels[Code(conf)], status, conf)))
  {
    assert ContainsAt(Print(CodeLocaleStatusPieces), "%(", 0);
    InterpolatePrinted(CodeLocaleStatusPieces, status, conf, labels);
  }

  /** The default translated/untranslated template gives the label, a space and the marker,
      and the template of the example edit handlers gives code, label and marker (when the
      locale's configuration does not override `locale` or `status`). */
  lemma WorkedTemplates(status: string, conf: LocaleConf, labels: map<string, string>)
    requires Code(conf) in labels && "locale" !in conf && "status" !in conf
    ensures Interpolate("%(locale)s %(status)s", status, conf, labels) == Ok(labels[Code(conf)] + " " + status)
    ensures Interpolate("%(code)s: %(locale)s %(status)s", status, conf, labels) ==
              Ok(Code(conf) + ": " + labels[Code(conf)] + " " + status)
  {
    PrintedLocaleStatus();
    PrintedCodeLocaleStatus();
    RenderedTemplates(status, conf, labels);
    InterpolatedLocaleStatus(status, conf, labels);
    InterpolatedCodeLocaleStatus(status, conf, labels);
  }

  /** Without heading settings, a tab is headed by the locale's label while creating, and
      by the label, a space and the category's status marker once the instance is saved. */
  lemma DefaultHeadingsShowLabelAndMarker(s: ParlerSettings, instance: Option<InstanceInfo>, conf: LocaleConf,
                                          locales: seq<LocaleConf>, languages: seq<(string, string)>)
    requires s.defaultTabHeading.None? && s.tabHeadingTranslated.None? && s.tabHeadingUntranslated.None?
    requires FindConf(locales, Some(Code(conf))) == Some(conf)
    requires "locale" !in conf && "status" !in conf
    requires Code(conf) in LanguageLabels(languages)
    ensures ParlerHeading(None, instance, Some(Code(conf)), locales, languages, HeadingsConfOf(s)) ==
              if CategoryOf(instance, Code(conf)) == Creating then Ok(LanguageLabels(languages)[Code(conf)])
              else Ok(LanguageLabels(languages)[Code(conf)] + " " + Status(StatusMap(s), CategoryOf(instance, Code(conf))))
  {
    if CategoryOf(instance, Code(conf)) == Creating {
      DefaultCreatingHeading(s, instance, conf, locales, languages);
    } else {
      DefaultSavedHeading(s, instance, conf, locales, languages);
    }
  }

  lemma DefaultCreatingHeading(s: ParlerSettings, instance: Option<InstanceInfo>, conf: LocaleConf,
                               locales: seq<LocaleConf>, languages: seq<(string, string)>)
    requires s.defaultTabHeading.None?
    requires FindConf(locales, Some(Code(conf))) == Some(conf)
    requires "locale" !in conf && Code(conf) in LanguageLabels(languages)
    requires CategoryOf(instance, Code(conf)) == Creating
    ensures ParlerHeading(None, instance, Some(Code(conf)), locales, languages, HeadingsConfOf(s)) ==
              Ok(LanguageLabels(languages)[Code(conf)])
  {
    var hc := HeadingsConfOf(s).Get(Creating);
    LabelsDeriveFromDefault(s);
    assert hc.template == "%(locale)s";
    SlotValue("locale", hc.status, conf, LanguageLabels(languages));
    assert "%(" + "locale" + ")s" == hc.template;
  }

  lemma DefaultSavedHeading(s: ParlerSettings, instance: Option<InstanceInfo>, conf: LocaleConf,
                            locales: seq<LocaleConf>, languages: seq<(string, string)>)
    requires s.defaultTabHeading.None? && s.tabHeadingTranslated.None? && s.tabHeadingUntranslated.None?
    requires FindConf(locales, Some(Code(conf))) == Some(conf)
    requires "locale" !in conf && "status" !in conf && Code(conf) in LanguageLabels(languages)
    requires CategoryOf(instance, Code(conf)) != Creating
    ensures ParlerHeading(None, instance, Some(Code(conf)), locales, languages, HeadingsConfOf(s)) ==
              Ok(LanguageLabels(languages)[Code(conf)] + " " + Status(StatusMap(s), CategoryOf(instance, Code(conf))))
  {
    var hc := HeadingsConfOf(s).Get(CategoryOf(instance, Code(conf)));
    LabelsDeriveFromDefault(s);
    assert hc.template == "%(locale)s %(status)s";
    WorkedTemplates(hc.status, conf, LanguageLabels(languages));
  }

  /** The heading `"%(code)s: %(locale)s %(status)s"` of the example edit handlers shows the
      code, the label and the category's marker, whatever the category's own label is. */
  lemma CodeLocaleStatusHeading(instance: Option<InstanceInfo>, conf: LocaleConf, locales: seq<LocaleConf>,
                                languages: seq<(string, string)>, hcs: HeadingsConf)
    requires FindConf(locales, Some(Code(conf))) == Some(conf)
    requires "locale" !in conf && "status" !in conf
    requires Code(conf) in LanguageLabels(languages)
    ensures ParlerHeading(Some("%(code)s: %(locale)s %(status)s"), instance, Some(Code(conf)), locales, languages, hcs) ==
              Ok(Code(conf) + ": " + LanguageLabels(languages)[Code(conf)] + " " +
                 hcs.Get(CategoryOf(instance, Code(conf))).status)
  {
    var t := "%(code)s: %(locale)s %(status)s";
    assert ContainsAt(t, "%(", 0);
    WorkedTemplates(hcs.Get(CategoryOf(instance, Code(conf))).status, conf, LanguageLabels(languages));
  }
}
