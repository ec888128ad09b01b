/** The edit handler of the current package: the `TranslationsList` panel, which computes its
    own heading, and the mixin that copies the translations template once per configured
    locale, renames the translation fields of each copy, assembles the tabs and builds the
    translations form. */
module ParlerHandlers {
  import opened Common
  import opened Settings
  import opened Locales
  import opened Panels
  import opened Headings
  import opened Forms

  const CleanNamePrefix: string := "parler_translations_"

  /** The heading of the wrapper tab when the base edit handler has none. */
  const UntranslatedDataHeading: string := "Untranslated data"

  /** The keyword arguments `clone_kwargs` hands to the constructor of a clone. */
  datatype Kwargs = Kwargs(heading: string, children: seq<Panel>, currentParlerLanguage: Option<string>,
                           initialParlerHeading: Option<string>)

  class TranslationsList {
    var heading: string
    var children: seq<Panel>
    var currentParlerLanguage: Option<string>
    var initialParlerHeading: Option<string>

    /** `TranslationsList(**kwargs)`. `heading` is always popped: it becomes the initial
        heading unless `initial_parler_heading` is given, and the panel itself starts with
        the empty heading of a panel built without one. */
    constructor (headingKw: Option<string>, initialKw: Option<Option<string>>, current: Option<string>, children: seq<Panel>)
      ensures heading == ""
      ensures this.children == children
      ensures currentParlerLanguage == current
      ensures initialParlerHeading == if initialKw.Some? then initialKw.value else headingKw
    {
      heading := "";
      this.children := children;
      currentParlerLanguage := current;
      initialParlerHeading := if initialKw.Some? then initialKw.value else headingKw;
    }

    /** `clean_name`: one name per locale, and a shared one for a list without a locale. */
    function CleanName(): (r: string)
      reads this
      ensures currentParlerLanguage.Some? && currentParlerLanguage.value != "" ==>
                r == CleanNamePrefix + currentParlerLanguage.value
      ensures currentParlerLanguage.None? || currentParlerLanguage.value == "" ==> r == CleanNamePrefix + "all"
    {
      CleanNamePrefix + (if currentParlerLanguage.Some? && currentParlerLanguage.value != "" then currentParlerLanguage.value else "all")
    }

    /** `_set_parler_heading(instance)`: the heading comes from the initial heading, never from
        the current one, so computing it again gives the same heading. On an error (the
        exception the source raises) the heading is left as it was. */
    method SetParlerHeading(instance: Option<InstanceInfo>, locales: seq<LocaleConf>, languages: seq<(string, string)>,
                            hcs: HeadingsConf) returns (err: Option<HeadingError>)
      modifies this`heading
      ensures var r := ParlerHeading(initialParlerHeading, instance, currentParlerLanguage, locales, languages, hcs);
              && (r.Ok? ==> err.None? && heading == r.value)
              && (r.Err? ==> err == Some(r.error) && heading == old(heading))
    {
      var r := ParlerHeading(initialParlerHeading, instance, currentParlerLanguage, locales, languages, hcs);
      if r.Err? {
        return Some(r.error);
      }
      heading := r.value;
      err := None;
    }

    /** `clone_kwargs()`: the panel's own arguments, with the locale and the initial heading
        carried forward. */
    function CloneKwargs(): (r: Kwargs)
      reads this
      ensures r.initialParlerHeading == initialParlerHeading && r.currentParlerLanguage == currentParlerLanguage
      ensures r.children == children && r.heading == heading
    {
      Kwargs(heading, children, currentParlerLanguage, initialParlerHeading)
    }

    /** `clone()`: a new list built from `clone_kwargs()`. It keeps the locale, the children
        and the initial heading, so it computes the same heading as the original. */
    method Clone() returns (c: TranslationsList)
      ensures fresh(c)
      ensures c.currentParlerLanguage == currentParlerLanguage && c.initialParlerHeading == initialParlerHeading
      ensures c.children == children && c.heading == ""
    {
      var kw := CloneKwargs();
      c := new TranslationsList(Some(kw.heading), Some(kw.initialParlerHeading), kw.currentParlerLanguage, kw.children);
    }

    /** `deepcopy(self)`: a new list with the same state. */
    method DeepCopy() returns (c: TranslationsList)
      ensures fresh(c)
      ensures c.currentParlerLanguage == currentParlerLanguage && c.initialParlerHeading == initialParlerHeading
      ensures c.children == children && c.heading == heading
    {
      c := new TranslationsList(None, Some(initialParlerHeading), currentParlerLanguage, children);
      c.heading := heading;
    }
  }

  /** Lists of distinct locales have distinct clean names. */
  lemma CleanNamesDistinct(a: TranslationsList, b: TranslationsList)
    requires a.currentParlerLanguage.Some? && a.currentParlerLanguage.value != ""
    requires b.currentParlerLanguage.Some? && b.currentParlerLanguage.value != ""
    ensures a.CleanName() == b.CleanName() <==> a.currentParlerLanguage == b.currentParlerLanguage
  {
    if a.CleanName() == b.CleanName() {
      assert a.currentParlerLanguage.value == a.CleanName()[|CleanNamePrefix|..];
      assert b.currentParlerLanguage.value == b.CleanName()[|CleanNamePrefix|..];
    }
  }

  /** A tab of the edit handler: a plain panel or a translations list. */
  datatype Tab = PanelTab(panel: Panel) | ListTab(list: TranslationsList)

  /** What the model looks at in a tab. */
  datatype TabView =
    | Fixed(panel: Panel)
    | LocaleView(code: Option<string>, initial: Option<string>, heading: string, children: seq<Panel>)

  /** What a translations list shows. */
  function ListView(l: TranslationsList): TabView
    reads l
  {
    LocaleView(l.currentParlerLanguage, l.initialParlerHeading, l.heading, l.children)
  }

  function TabViewOf(t: Tab): TabView
    reads if t.ListTab? then {t.list} else {}
  {
    match t
    case PanelTab(p) => Fixed(p)
    case ListTab(l) => ListView(l)
  }

  function ListsOf(tabs: seq<Tab>): set<TranslationsList>
  {
    set i | 0 <= i < |tabs| && tabs[i].ListTab? :: tabs[i].list
  }

  function View(tabs: seq<Tab>): (r: seq<TabView>)
    reads ListsOf(tabs)
    ensures |r| == |tabs| && forall i :: 0 <= i < |tabs| ==> r[i] == TabViewOf(tabs[i])
  {
    seq(|tabs|, i requires 0 <= i < |tabs| reads ListsOf(tabs) => TabViewOf(tabs[i]))
  }

  // ---------------------------------------------------------------- the expected tabs

  /** The children a template gets: auto-populated when it has none. */
  function EffectiveChildren(children: seq<Panel>, fields: seq<string>): seq<Panel>
  {
    if children == [] then Synthesized(fields) else children
  }

  /** The heading a locale copy computes in `_set_translations_handlers` (no instance yet). */
  function CopyHeading(initial: Option<string>, code: string, locales: seq<LocaleConf>, languages: seq<(string, string)>,
                       hcs: HeadingsConf): Result<string, HeadingError>
  {
    ParlerHeading(initial, None, Some(code), locales, languages, hcs)
  }

  /** The heading text of a copy whose heading computation succeeded. */
  function HeadingText(r: Result<string, HeadingError>): string
  {
    if r.Ok? then r.value else ""
  }

  /** The first `n` configured locales get their heading for the template. */
  predicate HeadingsOkUpTo(initial: Option<string>, locales: seq<LocaleConf>, n: nat, languages: seq<(string, string)>,
                           hcs: HeadingsConf)
    requires n <= |locales|
  {
    n == 0 || (HeadingsOkUpTo(initial, locales, n - 1, languages, hcs) &&
               CopyHeading(initial, Code(locales[n - 1]), locales, languages, hcs).Ok?)
  }

  lemma {:induction false} HeadingsOkUpToAll(initial: Option<string>, locales: seq<LocaleConf>, n: nat,
                                             languages: seq<(string, string)>, hcs: HeadingsConf)
    requires n <= |locales|
    ensures HeadingsOkUpTo(initial, locales, n, languages, hcs) <==>
            forall i :: 0 <= i < n ==> CopyHeading(initial, Code(locales[i]), locales, languages, hcs).Ok?
  {
    if n > 0 {
      HeadingsOkUpToAll(initial, locales, n - 1, languages, hcs);
    }
  }

  /** Every configured locale gets its heading for the template (see `HeadingsOkAll`). */
  predicate HeadingsOk(initial: Option<string>, locales: seq<LocaleConf>, languages: seq<(string, string)>, hcs: HeadingsConf)
  {
    HeadingsOkUpTo(initial, locales, |locales|, languages, hcs)
  }

  lemma HeadingsOkAll(initial: Option<string>, locales: seq<LocaleConf>, languages: seq<(string, string)>, hcs: HeadingsConf)
    ensures HeadingsOk(initial, locales, languages, hcs) <==>
            forall i :: 0 <= i < |locales| ==> CopyHeading(initial, Code(locales[i]), locales, languages, hcs).Ok?
  {
    HeadingsOkUpToAll(initial, locales, |locales|, languages, hcs);
  }

  /** The copy of one template for the locale `code`: it carries its locale, the template's
      initial heading, its computed heading, and the template's children renamed for it. */
  function CopyView(initial: Option<string>, children: seq<Panel>, fields: seq<string>, code: string,
                    locales: seq<LocaleConf>, languages: seq<(string, string)>, hcs: HeadingsConf): TabView
  {
    LocaleView(Some(code), initial, HeadingText(CopyHeading(initial, code, locales, languages, hcs)),
               RenameSeq(children, code, fields))
  }

  /** The copies of one template for the locales `codes` of the configuration `locales`:
      one per locale, in configuration order. */
  function CopyViews(initial: Option<string>, children: seq<Panel>, fields: seq<string>, codes: seq<LocaleConf>,
                     locales: seq<LocaleConf>, languages: seq<(string, string)>, hcs: HeadingsConf): seq<TabView>
  {
    if codes == [] then []
    else
      CopyViews(initial, children, fields, codes[..|codes| - 1], locales, languages, hcs) +
        [CopyView(initial, children, fields, Code(codes[|codes| - 1]), locales, languages, hcs)]
  }

  /** The copies of one template for every configured locale. */
  function LocaleViews(initial: Option<string>, children: seq<Panel>, fields: seq<string>, locales: seq<LocaleConf>,
                       languages: seq<(string, string)>, hcs: HeadingsConf): seq<TabView>
  {
    CopyViews(initial, children, fields, locales, locales, languages, hcs)
  }

  /** There is one copy per configured locale, in configuration order; each carries its
      locale, the template's initial heading, its computed heading, and the template's
      children renamed for its locale. */
  lemma {:induction false} CopyViewsAt(initial: Option<string>, children: seq<Panel>, fields: seq<string>,
                                       codes: seq<LocaleConf>, locales: seq<LocaleConf>, languages: seq<(string, string)>,
                                       hcs: HeadingsConf)
    ensures |CopyViews(initial, children, fields, codes, locales, languages, hcs)| == |codes|
    ensures forall i :: 0 <= i < |codes| ==>
              CopyViews(initial, children, fields, codes, locales, languages, hcs)[i] ==
              LocaleView(Some(Code(codes[i])), initial, HeadingText(CopyHeading(initial, Code(codes[i]), locales, languages, hcs)),
                         RenameSeq(children, Code(codes[i]), fields))
  {
    if codes != [] {
      var n := |codes| - 1;
      CopyViewsAt(initial, children, fields, codes[..n], locales, languages, hcs);
      forall i | 0 <= i < n ensures codes[..n][i] == codes[i] { }
    }
  }

  /** The tabs a list of base tabs becomes: plain tabs stay, each translations list is
      replaced by its locale copies. */
  function Expand(bv: seq<TabView>, fields: seq<string>, locales: seq<LocaleConf>, languages: seq<(string, string)>,
                  hcs: HeadingsConf): seq<TabView>
  {
    if bv == [] then []
    else
      var t := bv[|bv| - 1];
      Expand(bv[..|bv| - 1], fields, locales, languages, hcs) +
        (if t.Fixed? then [t] else LocaleViews(t.initial, EffectiveChildren(t.children, fields), fields, locales, languages, hcs))
  }

  /** Expansion works tab by tab: a translations list is replaced in place, and the plain
      tabs around it keep their order. */
  lemma {:induction false} ExpandAppend(a: seq<TabView>, b: seq<TabView>, fields: seq<string>, locales: seq<LocaleConf>,
                                        languages: seq<(string, string)>, hcs: HeadingsConf)
    ensures Expand(a + b, fields, locales, languages, hcs) ==
            Expand(a, fields, locales, languages, hcs) + Expand(b, fields, locales, languages, hcs)
  {
    if b == [] {
      assert a + b == a;
    } else {
      var n := |b| - 1;
      assert (a + b)[..|a + b| - 1] == a + b[..n];
      ExpandAppend(a, b[..n], fields, locales, languages, hcs);
    }
  }

  /** Without translations lists, expansion changes nothing. */
  lemma {:induction false} ExpandFixed(bv: seq<TabView>, fields: seq<string>, locales: seq<LocaleConf>,
                                       languages: seq<(string, string)>, hcs: HeadingsConf)
    requires forall k :: 0 <= k < |bv| ==> bv[k].Fixed?
    ensures Expand(bv, fields, locales, languages, hcs) == bv
  {
    if bv != [] {
      var n := |bv| - 1;
      ExpandFixed(bv[..n], fields, locales, languages, hcs);
      assert bv[..n] + [bv[n]] == bv;
    }
  }

  /** The last translations list among the base tabs. */
  function LastTemplate(bv: seq<TabView>): (r: Option<TabView>)
    ensures r.Some? <==> exists k :: 0 <= k < |bv| && bv[k].LocaleView?
    ensures r.Some? ==> r.value.LocaleView? && r.value in bv
  {
    if bv == [] then None
    else if bv[|bv| - 1].LocaleView? then Some(bv[|bv| - 1])
    else
      var r := LastTemplate(bv[..|bv| - 1]);
      assert forall k :: 0 <= k < |bv| - 1 ==> bv[..|bv| - 1][k] == bv[k];
      r
  }

  /** The displayed fields the form is built with: those renamed in the copies of the last
      translations list (or of the auto-populated template), none without locales. */
  function Displayed(bv: seq<TabView>, fields: seq<string>, locales: seq<LocaleConf>): set<string>
  {
    if locales == [] then {}
    else match LastTemplate(bv)
      case Some(t) => ConsumedSeq(EffectiveChildren(t.children, fields), fields)
      case None => ConsumedSeq(Synthesized(fields), fields)
  }

  function WrapperHeading(baseHeading: Option<string>): string
  {
    if baseHeading.Some? && baseHeading.value != "" then baseHeading.value else UntranslatedDataHeading
  }

  /** The tabs of `get_edit_handler`: the base tabs expanded when they hold a translations
      list; otherwise one leading tab wrapping all of them, followed by the copies of an
      auto-populated template. */
  function Assemble(bv: seq<TabView>, baseHeading: Option<string>, fields: seq<string>, locales: seq<LocaleConf>,
                    languages: seq<(string, string)>, hcs: HeadingsConf): seq<TabView>
  {
    if LastTemplate(bv).Some? then Expand(bv, fields, locales, languages, hcs)
    else
      [Fixed(Group(WrapperHeading(baseHeading), seq(|bv|, k requires 0 <= k < |bv| => bv[k].panel)))]
        + LocaleViews(Some(""), Synthesized(fields), fields, locales, languages, hcs)
  }

  /** Every heading `get_edit_handler` computes succeeds. */
  predicate AssembleOk(bv: seq<TabView>, locales: seq<LocaleConf>, languages: seq<(string, string)>, hcs: HeadingsConf)
  {
    if LastTemplate(bv).Some? then TemplatesOk(bv, locales, languages, hcs)
    else HeadingsOk(Some(""), locales, languages, hcs)
  }

  /** Every translations list among the tabs gets all its headings. */
  predicate TemplatesOk(bv: seq<TabView>, locales: seq<LocaleConf>, languages: seq<(string, string)>, hcs: HeadingsConf)
  {
    bv == [] ||
    (TemplatesOk(bv[..|bv| - 1], locales, languages, hcs) &&
     (bv[|bv| - 1].LocaleView? ==> HeadingsOk(bv[|bv| - 1].initial, locales, languages, hcs)))
  }

  lemma {:induction false} TemplatesOkAll(bv: seq<TabView>, locales: seq<LocaleConf>, languages: seq<(string, string)>,
                                          hcs: HeadingsConf)
    ensures TemplatesOk(bv, locales, languages, hcs) <==>
            forall k :: 0 <= k < |bv| && bv[k].LocaleView? ==> HeadingsOk(bv[k].initial, locales, languages, hcs)
  {
    if bv != [] {
      var n := |bv| - 1;
      TemplatesOkAll(bv[..n], locales, languages, hcs);
      assert forall k :: 0 <= k < n ==> bv[..n][k] == bv[k];
    }
  }

  /** Every field panel of a locale copy either is a panel of the template that names no
      translation field, or names a field the translations form declares for that locale. */
  lemma TemplateFieldsAreDeclared(children: seq<Panel>, i18nFields: seq<(string, FormField)>, locales: seq<LocaleConf>,
                                  i: nat, l: Panel)
    requires i < |locales|
    requires l in LeavesSeq(RenameSeq(children, Code(locales[i]), FieldNames(i18nFields))) && l.FieldPanel?
    ensures (l.fieldName !in FieldNames(i18nFields) && l in LeavesSeq(children)) ||
            l.fieldName in Declared(Codes(locales), FieldsForModel(i18nFields, Some(ConsumedSeq(children, FieldNames(i18nFields)))))
  {
    var fields := FieldNames(i18nFields);
    var consumed := ConsumedSeq(children, fields);
    RenamedFieldNames(children, Code(locales[i]), fields, l);
    if exists f :: f in consumed && l.fieldName == TranslatedName(Code(locales[i]), f) {
      var f :| f in consumed && l.fieldName == TranslatedName(Code(locales[i]), f);
      var k :| 0 <= k < |fields| && fields[k] == f;
      var ff := FieldsForModel(i18nFields, Some(consumed));
      assert i18nFields[k] in ff;
      assert Code(locales[i]) in Codes(locales) by { assert Codes(locales)[i] == Code(locales[i]); }
      assert l.fieldName == TranslatedName(Code(locales[i]), i18nFields[k].0);
      DeclaredKeys(Codes(locales), ff, l.fieldName);
    }
  }

  /** `[*fields_for_model(translation_model).keys()]` */
  function FieldNames(fs: seq<(string, FormField)>): (r: seq<string>)
    ensures |r| == |fs| && forall k :: 0 <= k < |fs| ==> r[k] == fs[k].0
  {
    seq(|fs|, k requires 0 <= k < |fs| => fs[k].0)
  }

  // ---------------------------------------------------------------- the mixin

  /** The template `_set_translations_handlers` copies: the given list, auto-populated when it
      has no children, or a new auto-populated list with an empty heading. */
  method PrepareTemplate(base: TranslationsList?, fields: seq<string>) returns (template: TranslationsList)
    modifies base
    ensures base != null ==> template == base
    ensures base == null ==> fresh(template)
    ensures template.initialParlerHeading == if base == null then Some("") else old(base.initialParlerHeading)
    ensures template.children == if base == null then Synthesized(fields) else EffectiveChildren(old(base.children), fields)
  {
    if base == null {
      var synthesized := SynthesizeChildren(fields);
      template := new TranslationsList(Some(""), None, None, synthesized);
    } else {
      if base.children == [] {
        var synthesized := SynthesizeChildren(fields);
        base.children := synthesized;
      }
      template := base;
    }
  }

  /** One pass of the locale loop: a deep copy of the template for `code`, with its heading
      computed without an instance and its translation fields renamed. */
  method LocaleCopy(template: TranslationsList, code: string, fields: seq<string>, displayed: set<string>,
                    locales: seq<LocaleConf>, languages: seq<(string, string)>, hcs: HeadingsConf)
    returns (handler: TranslationsList, displayed': set<string>, err: Option<HeadingError>)
    ensures fresh(handler)
    ensures err.None? <==> CopyHeading(template.initialParlerHeading, code, locales, languages, hcs).Ok?
    ensures err.None? ==>
              TabViewOf(ListTab(handler)) ==
              CopyView(template.initialParlerHeading, template.children, fields, code, locales, languages, hcs)
    ensures err.None? ==> displayed' == displayed + ConsumedSeq(template.children, fields)
  {
    handler := template.DeepCopy();
    handler.currentParlerLanguage := Some(code);
    err := handler.SetParlerHeading(None, locales, languages, hcs);
    displayed' := displayed;
    if err.None? {
      var renamed;
      renamed, displayed' := RecurseChildReplace(handler.children, code, fields, displayed);
      handler.children := renamed;
    }
  }

  /** One pass of the locale loop, with its effect on the copies made so far. */
  method AppendCopy(ghost views: seq<TabView>, template: TranslationsList, ghost initial: Option<string>,
                    ghost children: seq<Panel>, i: nat, fields: seq<string>, displayed: set<string>,
                    locales: seq<LocaleConf>, languages: seq<(string, string)>, hcs: HeadingsConf)
    returns (handler: TranslationsList, displayed': set<string>, err: Option<HeadingError>)
    requires template.initialParlerHeading == initial && template.children == children
    requires i < |locales|
    requires views == CopyViews(initial, children, fields, locales[..i], locales, languages, hcs)
    requires HeadingsOkUpTo(initial, locales, i, languages, hcs)
    ensures fresh(handler)
    ensures err.None? <==> HeadingsOkUpTo(initial, locales, i + 1, languages, hcs)
    ensures err.None? ==>
              && views + [TabViewOf(ListTab(handler))] ==
                 CopyViews(initial, children, fields, locales[..i + 1], locales, languages, hcs)
              && displayed' == displayed + ConsumedSeq(children, fields)
  {
    handler, displayed', err := LocaleCopy(template, locales[i]["code"], fields, displayed, locales, languages, hcs);
    assert locales[..i + 1][..i] == locales[..i];
  }

  /** A template whose headings fail for some of the first locales fails for all of them. */
  lemma {:induction false} HeadingsOkUpToPrefix(initial: Option<string>, locales: seq<LocaleConf>, n: nat, m: nat,
                                                languages: seq<(string, string)>, hcs: HeadingsConf)
    requires n <= m <= |locales|
    ensures HeadingsOkUpTo(initial, locales, m, languages, hcs) ==> HeadingsOkUpTo(initial, locales, n, languages, hcs)
  {
    if n < m {
      HeadingsOkUpToPrefix(initial, locales, n, m - 1, languages, hcs);
    }
  }

  /** The locale loop of `_set_translations_handlers`: one new copy of the template per
      configured locale, stopping at the first heading that cannot be computed. */
  method AppendCopies(template: TranslationsList, fields: seq<string>,
                      locales: seq<LocaleConf>, languages: seq<(string, string)>, hcs: HeadingsConf)
    returns (lists: seq<TranslationsList>, displayed: set<string>, err: Option<HeadingError>)
    ensures err.None? <==> HeadingsOk(template.initialParlerHeading, locales, languages, hcs)
    ensures err.None? ==>
              |lists| == |LocaleViews(template.initialParlerHeading, template.children, fields, locales, languages, hcs)|
    ensures err.None? ==>
              forall j :: 0 <= j < |lists| ==>
                && fresh(lists[j])
                && ListView(lists[j]) ==
                   LocaleViews(template.initialParlerHeading, template.children, fields, locales, languages, hcs)[j]
    ensures err.None? ==> displayed == if locales == [] then {} else ConsumedSeq(template.children, fields)
  {
    displayed := {};
    err := None;
    var initial, children := template.initialParlerHeading, template.children;
    lists := [];
    ghost var views: seq<TabView> := [];
    var i := 0;
    while i < |locales|
      invariant 0 <= i <= |locales|
      invariant |lists| == i && |views| == i
      invariant forall j :: 0 <= j < i ==> fresh(lists[j]) && ListView(lists[j]) == views[j]
      invariant views == CopyViews(initial, children, fields, locales[..i], locales, languages, hcs)
      invariant HeadingsOkUpTo(initial, locales, i, languages, hcs)
      invariant displayed == if i == 0 then {} else ConsumedSeq(children, fields)
    {
      var handler, d, e := AppendCopy(views, template, initial, children, i, fields, displayed, locales, languages, hcs);
      if e.Some? {
        HeadingsOkUpToPrefix(initial, locales, i + 1, |locales|, languages, hcs);
        err := e;
        return;
      }
      displayed := d;
      lists := lists + [handler];
      views := views + [ListView(handler)];
      i := i + 1;
    }
    assert locales[..i] == locales;
  }

  /** `_set_translations_handlers(handlers, base_handler)`: appends to `handlers` one copy of
      the template per configured locale and returns the displayed fields. A template
      without children (or a missing one) is auto-populated first. */
  method SetTranslationsHandlers(handlers: seq<Tab>, base: TranslationsList?, fields: seq<string>,
                                 locales: seq<LocaleConf>, languages: seq<(string, string)>, hcs: HeadingsConf)
    returns (out: seq<Tab>, displayed: set<string>, err: Option<HeadingError>)
    modifies base
    ensures base != null ==> base.children == EffectiveChildren(old(base.children), fields)
    ensures base != null ==> base.initialParlerHeading == old(base.initialParlerHeading)
    ensures base == null ==> (err.None? <==> HeadingsOk(Some(""), locales, languages, hcs))
    ensures base != null ==> (err.None? <==> HeadingsOk(old(base.initialParlerHeading), locales, languages, hcs))
    ensures err.None? ==> |out| >= |handlers| && out[..|handlers|] == handlers
    ensures err.None? && base == null ==>
              View(out[|handlers|..]) == LocaleViews(Some(""), Synthesized(fields), fields, locales, languages, hcs)
    ensures err.None? && base != null ==>
              View(out[|handlers|..]) ==
              LocaleViews(old(base.initialParlerHeading), EffectiveChildren(old(base.children), fields), fields, locales, languages, hcs)
    ensures err.None? ==> forall t :: t in ListsOf(out[|handlers|..]) ==> fresh(t)
    ensures err.None? && base == null ==>
              displayed == if locales == [] then {} else ConsumedSeq(Synthesized(fields), fields)
    ensures err.None? && base != null ==>
              displayed == if locales == [] then {} else ConsumedSeq(EffectiveChildren(old(base.children), fields), fields)
  {
    var template := PrepareTemplate(base, fields);
    var lists;
    lists, displayed, err := AppendCopies(template, fields, locales, languages, hcs);
    out := handlers;
    if err.None? {
      var copies := seq(|lists|, j requires 0 <= j < |lists| => ListTab(lists[j]));
      ghost var views := LocaleViews(template.initialParlerHeading, template.children, fields, locales, languages, hcs);
      forall j | 0 <= j < |copies| ensures View(copies)[j] == views[j] {
        assert TabViewOf(copies[j]) == ListView(lists[j]);
      }
      assert View(copies) == views;
      forall t | t in ListsOf(copies) ensures fresh(t) {
        var j :| 0 <= j < |copies| && copies[j].ListTab? && copies[j].list == t;
      }
      out := handlers + copies;
      assert out[|handlers|..] == copies;
    }
  }

  lemma ViewAppend(a: seq<Tab>, b: seq<Tab>)
    ensures View(a + b) == View(a) + View(b)
  {
    forall k | 0 <= k < |a + b| ensures View(a + b)[k] == (View(a) + View(b))[k] {
      if k >= |a| { assert (a + b)[k] == b[k - |a|]; }
    }
  }

  /** The class `build_translations_form(model, fields_for_model_kwargs={"fields": displayed})`
      returns. */
  function TranslationsForm(modelName: string, i18nFields: seq<(string, FormField)>, displayed: set<string>,
                            locales: seq<LocaleConf>): FormClass
  {
    var fs := FieldsForModel(i18nFields, Some(displayed));
    FormClass(MetaOf(modelName, None), if locales == [] then {} else Names(fs), Declared(Codes(locales), fs))
  }

  lemma ListsOfAppend(a: seq<Tab>, b: seq<Tab>)
    ensures ListsOf(a + b) == ListsOf(a) + ListsOf(b)
  {
    forall t | t in ListsOf(a + b) ensures t in ListsOf(a) + ListsOf(b) {
      var k :| 0 <= k < |a + b| && (a + b)[k].ListTab? && (a + b)[k].list == t;
      if k < |a| { assert a[k] == (a + b)[k]; } else { assert b[k - |a|] == (a + b)[k]; }
    }
    forall t | t in ListsOf(a) + ListsOf(b) ensures t in ListsOf(a + b) {
      if t in ListsOf(a) {
        var k :| 0 <= k < |a| && a[k].ListTab? && a[k].list == t;
        assert (a + b)[k] == a[k];
      } else {
        var k :| 0 <= k < |b| && b[k].ListTab? && b[k].list == t;
        assert (a + b)[|a| + k] == b[k];
      }
    }
  }

  /** How the expected tabs, the last template, the displayed set and the heading condition
      grow by one more base tab. */
  lemma ExpandStep(bv: seq<TabView>, i: nat, fields: seq<string>, locales: seq<LocaleConf>,
                   languages: seq<(string, string)>, hcs: HeadingsConf)
    requires i < |bv|
    ensures bv[i].Fixed? ==> Expand(bv[..i + 1], fields, locales, languages, hcs) == Expand(bv[..i], fields, locales, languages, hcs) + [bv[i]]
    ensures bv[i].LocaleView? ==>
              Expand(bv[..i + 1], fields, locales, languages, hcs) == Expand(bv[..i], fields, locales, languages, hcs) +
                LocaleViews(bv[i].initial, EffectiveChildren(bv[i].children, fields), fields, locales, languages, hcs)
    ensures bv[i].Fixed? ==> LastTemplate(bv[..i + 1]) == LastTemplate(bv[..i]) && Displayed(bv[..i + 1], fields, locales) == Displayed(bv[..i], fields, locales)
    ensures bv[i].LocaleView? ==> LastTemplate(bv[..i + 1]) == Some(bv[i])
    ensures bv[i].LocaleView? ==>
              Displayed(bv[..i + 1], fields, locales) == if locales == [] then {} else ConsumedSeq(EffectiveChildren(bv[i].children, fields), fields)
    ensures TemplatesOk(bv[..i + 1], locales, languages, hcs) <==>
              TemplatesOk(bv[..i], locales, languages, hcs) && (bv[i].LocaleView? ==> HeadingsOk(bv[i].initial, locales, languages, hcs))
  {
    assert bv[..i + 1][..i] == bv[..i];
  }

  /** The translations lists of the base tabs from position `i` on still hold the initial
      heading and (once auto-populated) the children they had when `bv` was taken, even when
      one list object appears at several positions. */
  predicate Aligned(baseTabs: seq<Tab>, bv: seq<TabView>, i: nat, fields: seq<string>)
    reads ListsOf(baseTabs)
  {
    |bv| == |baseTabs| &&
    (forall k :: i <= k < |baseTabs| && baseTabs[k].PanelTab? ==> bv[k] == Fixed(baseTabs[k].panel)) &&
    forall k :: i <= k < |baseTabs| && baseTabs[k].ListTab? ==>
      && bv[k].LocaleView?
      && baseTabs[k].list.initialParlerHeading == bv[k].initial
      && EffectiveChildren(baseTabs[k].list.children, fields) == EffectiveChildren(bv[k].children, fields)
  }

  /** One translations list of the base tabs replaced by its locale copies. */
  method ReplaceList(baseTabs: seq<Tab>, ghost bv: seq<TabView>, i: nat, handlers: seq<Tab>, fields: seq<string>,
                     locales: seq<LocaleConf>, languages: seq<(string, string)>, hcs: HeadingsConf)
    returns (out: seq<Tab>, displayed: set<string>, err: Option<HeadingError>)
    requires i < |baseTabs| && baseTabs[i].ListTab? && Aligned(baseTabs, bv, i, fields)
    requires forall t :: t in ListsOf(handlers) ==> t !in ListsOf(baseTabs)
    modifies baseTabs[i].list
    ensures err.None? <==> HeadingsOk(bv[i].initial, locales, languages, hcs)
    ensures err.None? ==> Aligned(baseTabs, bv, i + 1, fields)
    ensures err.None? ==>
              View(out) == old(View(handlers)) +
                LocaleViews(bv[i].initial, EffectiveChildren(bv[i].children, fields), fields, locales, languages, hcs)
    ensures err.None? ==> forall t :: t in ListsOf(out) ==> t in ListsOf(handlers) || fresh(t)
    ensures err.None? ==> displayed == if locales == [] then {} else ConsumedSeq(EffectiveChildren(bv[i].children, fields), fields)
  {
    var list := baseTabs[i].list;
    assert list in ListsOf(baseTabs);
    out, displayed, err := SetTranslationsHandlers(handlers, list, fields, locales, languages, hcs);
    if err.None? {
      assert out == handlers + out[|handlers|..];
      ViewAppend(handlers, out[|handlers|..]);
      ListsOfAppend(handlers, out[|handlers|..]);
    }
  }

  /** A failed template among the first tabs fails the whole list. */
  lemma {:induction false} TemplatesOkPrefix(bv: seq<TabView>, n: nat, locales: seq<LocaleConf>,
                                             languages: seq<(string, string)>, hcs: HeadingsConf)
    requires n <= |bv|
    ensures TemplatesOk(bv, locales, languages, hcs) ==> TemplatesOk(bv[..n], locales, languages, hcs)
  {
    if n < |bv| {
      var m := |bv| - 1;
      TemplatesOkPrefix(bv[..m], n, locales, languages, hcs);
      assert bv[..m][..n] == bv[..n];
    } else {
      assert bv[..n] == bv;
    }
  }

  /** One pass of the loop of `get_edit_handler()`: a plain tab is kept, a translations list
      is replaced by its locale copies. */
  method ReplaceTab(baseTabs: seq<Tab>, ghost bv: seq<TabView>, i: nat, handlers: seq<Tab>,
                    displayed: Option<set<string>>, fields: seq<string>, locales: seq<LocaleConf>,
                    languages: seq<(string, string)>, hcs: HeadingsConf)
    returns (handlers': seq<Tab>, displayed': Option<set<string>>, err: Option<HeadingError>)
    requires i < |baseTabs| && Aligned(baseTabs, bv, i, fields)
    requires forall t :: t in ListsOf(handlers) ==> t !in ListsOf(baseTabs)
    requires View(handlers) == Expand(bv[..i], fields, locales, languages, hcs)
    requires displayed.Some? <==> LastTemplate(bv[..i]).Some?
    requires displayed.Some? ==> displayed.value == Displayed(bv[..i], fields, locales)
    requires TemplatesOk(bv[..i], locales, languages, hcs)
    modifies if baseTabs[i].ListTab? then {baseTabs[i].list} else {}
    ensures err.None? <==> TemplatesOk(bv[..i + 1], locales, languages, hcs)
    ensures err.None? ==> Aligned(baseTabs, bv, i + 1, fields)
    ensures err.None? ==> View(handlers') == Expand(bv[..i + 1], fields, locales, languages, hcs)
    ensures err.None? ==> forall t :: t in ListsOf(handlers') ==> t in ListsOf(handlers) || fresh(t)
    ensures err.None? ==> (displayed'.Some? <==> LastTemplate(bv[..i + 1]).Some?)
    ensures err.None? && displayed'.Some? ==> displayed'.value == Displayed(bv[..i + 1], fields, locales)
  {
    var tab := baseTabs[i];
    ExpandStep(bv, i, fields, locales, languages, hcs);
    if tab.ListTab? {
      var out, d, e := ReplaceList(baseTabs, bv, i, handlers, fields, locales, languages, hcs);
      handlers', displayed', err := out, Some(d), e;
    } else {
      ViewAppend(handlers, [tab]);
      ListsOfAppend(handlers, [tab]);
      handlers', displayed', err := handlers + [tab], displayed, None;
    }
  }

  /** The loop of `get_edit_handler()` over the base tabs: plain tabs are kept and each
      translations list is replaced by its locale copies; `displayed` is the displayed set of
      the last list. */
  method ReplaceLists(baseTabs: seq<Tab>, fields: seq<string>, locales: seq<LocaleConf>,
                      languages: seq<(string, string)>, hcs: HeadingsConf)
    returns (handlers: seq<Tab>, displayed: Option<set<string>>, err: Option<HeadingError>)
    modifies ListsOf(baseTabs)
    ensures err.None? <==> TemplatesOk(old(View(baseTabs)), locales, languages, hcs)
    ensures err.None? ==> View(handlers) == Expand(old(View(baseTabs)), fields, locales, languages, hcs)
    ensures err.None? ==> forall t :: t in ListsOf(handlers) ==> fresh(t)
    ensures err.None? ==> (displayed.Some? <==> LastTemplate(old(View(baseTabs))).Some?)
    ensures err.None? && displayed.Some? ==> displayed.value == Displayed(old(View(baseTabs)), fields, locales)
  {
    ghost var bv := View(baseTabs);
    handlers, displayed, err := [], None, None;
    var i := 0;
    while i < |baseTabs|
      invariant 0 <= i <= |baseTabs|
      invariant View(handlers) == Expand(bv[..i], fields, locales, languages, hcs)
      invariant forall t :: t in ListsOf(handlers) ==> fresh(t)
      invariant displayed.Some? <==> LastTemplate(bv[..i]).Some?
      invariant displayed.Some? ==> displayed.value == Displayed(bv[..i], fields, locales)
      invariant TemplatesOk(bv[..i], locales, languages, hcs)
      invariant Aligned(baseTabs, bv, i, fields)
    {
      var e;
      handlers, displayed, e := ReplaceTab(baseTabs, bv, i, handlers, displayed, fields, locales, languages, hcs);
      if e.Some? {
        TemplatesOkPrefix(bv, i + 1, locales, languages, hcs);
        err := e;
        return;
      }
      i := i + 1;
    }
    assert bv[..i] == bv;
  }

  /** Without a translations list, the base tabs are wrapped in one tab headed by the base
      heading (or "Untranslated data"), followed by the copies of an auto-populated template. */
  method WrapUntranslated(panels: seq<Panel>, baseHeading: Option<string>, fields: seq<string>, locales: seq<LocaleConf>,
                          languages: seq<(string, string)>, hcs: HeadingsConf)
    returns (out: seq<Tab>, displayed: set<string>, err: Option<HeadingError>)
    ensures err.None? <==> HeadingsOk(Some(""), locales, languages, hcs)
    ensures err.None? ==> View(out) == [Fixed(Group(WrapperHeading(baseHeading), panels))] +
                                       LocaleViews(Some(""), Synthesized(fields), fields, locales, languages, hcs)
    ensures err.None? ==> forall t :: t in ListsOf(out) ==> fresh(t)
    ensures err.None? ==> displayed == if locales == [] then {} else ConsumedSeq(Synthesized(fields), fields)
  {
    var wrapper := PanelTab(Group(WrapperHeading(baseHeading), panels));
    out, displayed, err := SetTranslationsHandlers([wrapper], null, fields, locales, languages, hcs);
    if err.None? {
      ghost var rest := out[1..];
      assert View(rest) == LocaleViews(Some(""), Synthesized(fields), fields, locales, languages, hcs);
      assert out == [wrapper] + rest;
      ViewAppend([wrapper], rest);
      assert View([wrapper]) == [Fixed(Group(WrapperHeading(baseHeading), panels))];
      ListsOfAppend([wrapper], rest);
      assert ListsOf([wrapper]) == {};
    }
  }

  /** The tabs of `get_edit_handler()` when the base tabs hold no translations list. */
  method WrapPlainTabs(handlers: seq<Tab>, ghost bv: seq<TabView>, baseHeading: Option<string>, fields: seq<string>,
                       locales: seq<LocaleConf>, languages: seq<(string, string)>, hcs: HeadingsConf)
    returns (out: seq<Tab>, displayed: set<string>, err: Option<HeadingError>)
    requires View(handlers) == bv && LastTemplate(bv).None?
    ensures err.None? <==> AssembleOk(bv, locales, languages, hcs)
    ensures err.None? ==> View(out) == Assemble(bv, baseHeading, fields, locales, languages, hcs)
    ensures err.None? ==> forall t :: t in ListsOf(out) ==> fresh(t)
    ensures err.None? ==> displayed == Displayed(bv, fields, locales)
  {
    assert forall k :: 0 <= k < |handlers| ==> TabViewOf(handlers[k]) == bv[k];
    var panels := seq(|handlers|, k requires 0 <= k < |handlers| => handlers[k].panel);
    assert panels == seq(|bv|, k requires 0 <= k < |bv| => bv[k].panel);
    out, displayed, err := WrapUntranslated(panels, baseHeading, fields, locales, languages, hcs);
  }

  /** The tabs of `get_edit_handler()` and the displayed fields its form is built with. */
  method AssembleTabs(baseTabs: seq<Tab>, baseHeading: Option<string>, fields: seq<string>, locales: seq<LocaleConf>,
                      languages: seq<(string, string)>, hcs: HeadingsConf)
    returns (tabs: seq<Tab>, displayed: set<string>, err: Option<HeadingError>)
    modifies ListsOf(baseTabs)
    ensures err.None? <==> AssembleOk(old(View(baseTabs)), locales, languages, hcs)
    ensures err.None? ==> View(tabs) == Assemble(old(View(baseTabs)), baseHeading, fields, locales, languages, hcs)
    ensures err.None? ==> forall t :: t in ListsOf(tabs) ==> fresh(t)
    ensures err.None? ==> displayed == Displayed(old(View(baseTabs)), fields, locales)
  {
    ghost var bv := View(baseTabs);
    var found;
    tabs, found, err := ReplaceLists(baseTabs, fields, locales, languages, hcs);
    displayed := {};
    if err.Some? {
      TemplatesOkAll(bv, locales, languages, hcs);
      return;
    }
    if found.None? {
      ExpandFixed(bv, fields, locales, languages, hcs);
      tabs, displayed, err := WrapPlainTabs(tabs, bv, baseHeading, fields, locales, languages, hcs);
    } else {
      displayed := found.value;
    }
  }

  /** `get_edit_handler()`: `baseTabs` are the children of the base edit handler and
      `baseHeading` its heading, `i18nFields` the form fields of the translation model. The
      tabs are the base tabs with each translations list replaced by its locale copies, or,
      without one, a wrapper tab followed by the copies of an auto-populated template; the
      form declares the fields the copies display. */
  method GetEditHandler(baseTabs: seq<Tab>, baseHeading: Option<string>, modelName: string,
                        i18nFields: seq<(string, FormField)>, locales: seq<LocaleConf>,
                        languages: seq<(string, string)>, hcs: HeadingsConf)
    returns (tabs: seq<Tab>, form: FormClass, err: Option<HeadingError>)
    modifies ListsOf(baseTabs)
    ensures err.None? <==> AssembleOk(old(View(baseTabs)), locales, languages, hcs)
    ensures err.None? ==> View(tabs) == Assemble(old(View(baseTabs)), baseHeading, FieldNames(i18nFields), locales, languages, hcs)
    ensures err.None? ==> forall t :: t in ListsOf(tabs) ==> fresh(t)
    ensures err.None? ==> form == TranslationsForm(modelName, i18nFields, Displayed(old(View(baseTabs)), FieldNames(i18nFields), locales), locales)
  {
    var displayed;
    tabs, displayed, err := AssembleTabs(baseTabs, baseHeading, FieldNames(i18nFields), locales, languages, hcs);
    form := BuildTranslationsForm(modelName, None, FieldsForModel(i18nFields, Some(displayed)), locales);
  }
}
