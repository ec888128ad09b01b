/** The tab-heading configuration (`HEADINGS_CONF`) derived from the Django settings:
    one label template and one status marker per heading category. */
module Settings {
  import opened Common

  /** The three mutually exclusive situations a locale tab can be in. */
  datatype Category = Creating | Translated | Untranslated

  /** One category's entry: `{"label": ..., "status": ...}` (the label is the heading template). */
  datatype HeadingConf = HeadingConf(template: string, status: string)

  /** The whole `HEADINGS_CONF` dictionary: exactly one entry per category. */
  datatype HeadingsConf = HeadingsConf(creating: HeadingConf, translated: HeadingConf, untranslated: HeadingConf)
  {
    function Get(c: Category): HeadingConf
    {
      match c
      case Creating => creating
      case Translated => translated
      case Untranslated => untranslated
    }
  }

  /** The settings `HEADINGS_CONF` reads; `None` stands for a setting that is not defined.
      `translationStatus` is `WAGTAIL_PARLER_TRANSLATION_STATUS`, where `None` also stands
      for any falsy value it may be given. */
  datatype ParlerSettings = ParlerSettings(
    translationStatus: Option<map<string, string>>,
    defaultTabHeading: Option<string>,
    tabHeadingTranslated: Option<string>,
    tabHeadingUntranslated: Option<string>)

  const DefaultTabHeading: string := "%(locale)s"
  const TranslatedMarker: string := "\U{1F7E2}"
  const UntranslatedMarker: string := "\U{1F534}"
  const StatusSuffix: string := " %(status)s"

  /** The key of a category in `HEADINGS_CONF` and in `WAGTAIL_PARLER_TRANSLATION_STATUS`. */
  function CategoryKey(c: Category): string
  {
    match c
    case Creating => "creating"
    case Translated => "translated"
    case Untranslated => "untranslated"
  }

  /** The status marker used when the status setting has no entry for the category. */
  function DefaultStatus(c: Category): string
  {
    match c
    case Creating => ""
    case Translated => TranslatedMarker
    case Untranslated => UntranslatedMarker
  }

  function OrElse(o: Option<string>, default: string): string
  {
    if o.Some? then o.value else default
  }

  /** `getattr(settings, "WAGTAIL_PARLER_TRANSLATION_STATUS", {}) or {}` */
  function StatusMap(s: ParlerSettings): map<string, string>
  {
    if s.translationStatus.Some? then s.translationStatus.value else map[]
  }

  function Status(st: map<string, string>, c: Category): string
  {
    if CategoryKey(c) in st then st[CategoryKey(c)] else DefaultStatus(c)
  }

  /** `AppSettings.HEADINGS_CONF` */
  function HeadingsConfOf(s: ParlerSettings): HeadingsConf
  {
    var st := StatusMap(s);
    var base := OrElse(s.defaultTabHeading, DefaultTabHeading);
    HeadingsConf(
      HeadingConf(base, Status(st, Creating)),
      HeadingConf(OrElse(s.tabHeadingTranslated, base + StatusSuffix), Status(st, Translated)),
      HeadingConf(OrElse(s.tabHeadingUntranslated, base + StatusSuffix), Status(st, Untranslated)))
  }

  const NoSettings: ParlerSettings := ParlerSettings(None, None, None, None)

  /** With nothing configured the creating tab shows the locale label alone, and the two
      other categories append their status marker to it. */
  lemma DefaultHeadings()
    ensures HeadingsConfOf(NoSettings).creating == HeadingConf("%(locale)s", "")
    ensures HeadingsConfOf(NoSettings).translated == HeadingConf("%(locale)s %(status)s", TranslatedMarker)
    ensures HeadingsConfOf(NoSettings).untranslated == HeadingConf("%(locale)s %(status)s", UntranslatedMarker)
  {
  }

  /** A falsy status setting behaves exactly like an empty mapping. */
  lemma FalsyStatusIsEmptyMapping(s: ParlerSettings)
    requires s.translationStatus.None?
    ensures HeadingsConfOf(s) == HeadingsConfOf(s.(translationStatus := Some(map[])))
  {
  }

  /** A category's status depends only on that category's own key of the status setting,
      and defaults to its marker when the key is absent. */
  lemma StatusOnlyFromOwnKey(s: ParlerSettings, s': ParlerSettings, c: Category)
    requires s.translationStatus.Some? && s'.translationStatus.Some?
    requires CategoryKey(c) in s.translationStatus.value <==> CategoryKey(c) in s'.translationStatus.value
    requires CategoryKey(c) in s.translationStatus.value ==>
               s.translationStatus.value[CategoryKey(c)] == s'.translationStatus.value[CategoryKey(c)]
    ensures HeadingsConfOf(s).Get(c).status == HeadingsConfOf(s').Get(c).status
    ensures CategoryKey(c) !in s.translationStatus.value ==> HeadingsConfOf(s).Get(c).status == DefaultStatus(c)
  {
  }

  /** The label templates: creating is the default heading; translated and untranslated are
      the default heading followed by `" %(status)s"` unless their own setting is given. */
  lemma LabelsDeriveFromDefault(s: ParlerSettings)
    ensures HeadingsConfOf(s).creating.template == OrElse(s.defaultTabHeading, DefaultTabHeading)
    ensures s.tabHeadingTranslated.None? ==>
              HeadingsConfOf(s).translated.template == HeadingsConfOf(s).creating.template + StatusSuffix
    ensures s.tabHeadingUntranslated.None? ==>
              HeadingsConfOf(s).untranslated.template == HeadingsConfOf(s).creating.template + StatusSuffix
    ensures s.tabHeadingTranslated.Some? ==> HeadingsConfOf(s).translated.template == s.tabHeadingTranslated.value
    ensures s.tabHeadingUntranslated.Some? ==> HeadingsConfOf(s).untranslated.template == s.tabHeadingUntranslated.value
  {
  }
}
