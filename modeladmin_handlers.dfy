/** The edit handler of the model-admin package (`ParlerModelAdminMixin`): the same
    per-locale copies of a translations template as the current package, with its own
    inline heading logic, over panel values. */
module ModelAdminHandlers {
  import opened Common
  import opened Settings
  import opened Locales
  import opened Panels
  import opened Headings
  import ParlerHandlers

  /** A child of the model admin's base edit handler: a plain panel, or a `TranslationsList`
      with its heading and children. */
  datatype BaseTab = Plain(panel: Panel) | TranslationsListTab(heading: string, children: seq<Panel>)

  /** The template the copies are made from, as (heading, children): an absent template is an
      untitled list, and a template without children gets the auto-populated ones. */
  function Template(base: Option<(string, seq<Panel>)>, fields: seq<string>): (string, seq<Panel>)
  {
    if base.None? then ("", Synthesized(fields))
    else if base.value.1 == [] then (base.value.0, Synthesized(fields))
    else base.value
  }

  /** The heading of each locale's copy, computed inline from the template's heading. */
  function CopyHeadings(heading: string, instance: Option<InstanceInfo>, confs: seq<LocaleConf>,
                        languages: seq<(string, string)>, hcs: HeadingsConf): (r: seq<Result<string, HeadingError>>)
    ensures |r| == |confs|
    ensures forall i :: 0 <= i < |confs| ==> r[i] == ModelAdminHeading(heading, instance, confs[i], languages, hcs)
  {
    seq(|confs|, i requires 0 <= i < |confs| => ModelAdminHeading(heading, instance, confs[i], languages, hcs))
  }

  /** The copies of the template's `children` for the locales `confs`, whose headings are
      `hs`, in order; the first failing heading aborts. */
  function Copies(children: seq<Panel>, confs: seq<LocaleConf>, hs: seq<Result<string, HeadingError>>,
                  fields: seq<string>): Result<seq<Panel>, HeadingError>
    requires |hs| == |confs|
  {
    if confs == [] then Ok([])
    else
      var n := |confs| - 1;
      var prev := Copies(children, confs[..n], hs[..n], fields);
      if prev.Err? then prev
      else if hs[n].Err? then Err(hs[n].error)
      else Ok(prev.value + [Group(hs[n].value, RenameSeq(children, Code(confs[n]), fields))])
  }

  /** One more locale adds its copy, or fails with its heading's error. */
  lemma CopiesSnoc(children: seq<Panel>, confs: seq<LocaleConf>, hs: seq<Result<string, HeadingError>>, i: nat,
                   fields: seq<string>)
    requires |hs| == |confs| && i < |confs|
    requires Copies(children, confs[..i], hs[..i], fields).Ok?
    ensures hs[i].Err? ==> Copies(children, confs[..i + 1], hs[..i + 1], fields) == Err(hs[i].error)
    ensures hs[i].Ok? ==>
              Copies(children, confs[..i + 1], hs[..i + 1], fields) ==
              Ok(Copies(children, confs[..i], hs[..i], fields).value + [Group(hs[i].value, RenameSeq(children, Code(confs[i]), fields))])
  {
    assert confs[..i + 1][..i] == confs[..i] && hs[..i + 1][..i] == hs[..i];
  }

  /** The copies of a template for every configured locale. */
  function LocaleCopies(template: (string, seq<Panel>), instance: Option<InstanceInfo>, fields: seq<string>,
                        locales: seq<LocaleConf>, languages: seq<(string, string)>, hcs: HeadingsConf)
    : Result<seq<Panel>, HeadingError>
  {
    Copies(template.1, locales, CopyHeadings(template.0, instance, locales, languages, hcs), fields)
  }

  /** The copies exist exactly when every heading does. */
  lemma {:induction false} CopiesOk(children: seq<Panel>, confs: seq<LocaleConf>, hs: seq<Result<string, HeadingError>>,
                                    fields: seq<string>)
    requires |hs| == |confs|
    ensures Copies(children, confs, hs, fields).Ok? <==> forall i :: 0 <= i < |hs| ==> hs[i].Ok?
  {
    if confs != [] {
      var n := |confs| - 1;
      CopiesOk(children, confs[..n], hs[..n], fields);
      assert forall i :: 0 <= i < n ==> hs[..n][i] == hs[i];
    }
  }

  /** There is one copy per locale, in order, headed by its heading and holding the
      template's children renamed for its locale. */
  lemma {:induction false} CopiesValue(children: seq<Panel>, confs: seq<LocaleConf>, hs: seq<Result<string, HeadingError>>,
                                       fields: seq<string>)
    requires |hs| == |confs|
    requires Copies(children, confs, hs, fields).Ok?
    ensures var r := Copies(children, confs, hs, fields).value;
            && |r| == |confs|
            && forall i :: 0 <= i < |confs| ==>
                 hs[i].Ok? && r[i] == Group(hs[i].value, RenameSeq(children, Code(confs[i]), fields))
  {
    if confs != [] {
      var n := |confs| - 1;
      CopiesValue(children, confs[..n], hs[..n], fields);
      assert forall i :: 0 <= i < n ==> confs[..n][i] == confs[i] && hs[..n][i] == hs[i];
    }
  }

  /** A failure is the one of the first locale whose heading fails. */
  lemma {:induction false} CopiesErr(children: seq<Panel>, confs: seq<LocaleConf>, hs: seq<Result<string, HeadingError>>,
                                     fields: seq<string>)
    requires |hs| == |confs|
    requires Copies(children, confs, hs, fields).Err?
    ensures exists i :: 0 <= i < |hs| && hs[i] == Err(Copies(children, confs, hs, fields).error) &&
                        (forall j :: 0 <= j < i ==> hs[j].Ok?)
  {
    var n := |confs| - 1;
    assert forall i :: 0 <= i < n ==> hs[..n][i] == hs[i];
    if Copies(children, confs[..n], hs[..n], fields).Err? {
      CopiesErr(children, confs[..n], hs[..n], fields);
    } else {
      CopiesOk(children, confs[..n], hs[..n], fields);
    }
  }

  /** Once a prefix of the locales fails, the whole loop fails with its error. */
  lemma {:induction false} CopiesPrefixErr(children: seq<Panel>, confs: seq<LocaleConf>, hs: seq<Result<string, HeadingError>>,
                                           n: nat, fields: seq<string>)
    requires |hs| == |confs| && n <= |confs|
    requires Copies(children, confs[..n], hs[..n], fields).Err?
    ensures Copies(children, confs, hs, fields) == Copies(children, confs[..n], hs[..n], fields)
  {
    if n < |confs| {
      var m := |confs| - 1;
      assert confs[..m][..n] == confs[..n] && hs[..m][..n] == hs[..n];
      CopiesPrefixErr(children, confs[..m], hs[..m], n, fields);
    } else {
      assert confs[..n] == confs && hs[..n] == hs;
    }
  }

  /** The tabs `_set_translations_handlers` adds: one copy per configured locale, in
      configuration order, each headed by the heading the inline logic computes for its
      locale (the first failing one aborts), holding the template's children renamed for it. */
  lemma LocaleCopiesShape(template: (string, seq<Panel>), instance: Option<InstanceInfo>, fields: seq<string>,
                          locales: seq<LocaleConf>, languages: seq<(string, string)>, hcs: HeadingsConf)
    ensures var r := LocaleCopies(template, instance, fields, locales, languages, hcs);
            && (r.Ok? <==> forall i :: 0 <= i < |locales| ==> ModelAdminHeading(template.0, instance, locales[i], languages, hcs).Ok?)
            && (r.Ok? ==> |r.value| == |locales|)
            && (r.Ok? ==>
                  forall i :: 0 <= i < |locales| ==>
                    r.value[i] == Group(ModelAdminHeading(template.0, instance, locales[i], languages, hcs).value,
                                        RenameSeq(template.1, Code(locales[i]), fields)))
            && (r.Err? ==>
                  exists i :: 0 <= i < |locales| && ModelAdminHeading(template.0, instance, locales[i], languages, hcs) == Err(r.error) &&
                    (forall j :: 0 <= j < i ==> ModelAdminHeading(template.0, instance, locales[j], languages, hcs).Ok?))
  {
    var hs := CopyHeadings(template.0, instance, locales, languages, hcs);
    CopiesOk(template.1, locales, hs, fields);
    if Copies(template.1, locales, hs, fields).Ok? {
      CopiesValue(template.1, locales, hs, fields);
    } else {
      CopiesErr(template.1, locales, hs, fields);
    }
  }

  /** The inline heading logic of the locale loop for one copy. */
  method CopyHeading(heading: string, instance: Option<InstanceInfo>, conf: LocaleConf, labels: map<string, string>,
                     languages: seq<(string, string)>, hcs: HeadingsConf)
    returns (r: Result<string, HeadingError>)
    requires labels == LanguageLabels(languages)
    ensures r == ModelAdminHeading(heading, instance, conf, languages, hcs)
  {
    var hc := hcs.Get(CategoryOf(instance, conf["code"]));
    var template := heading;
    if template == "" {
      template := hc.template;
    }
    r := Interpolate(template, hc.status, conf, labels);
  }

  /** The locale loop of `_set_translations_handlers`: appends the copy of `template` for
      each configured locale and collects the displayed fields. */
  method AppendCopies(handlers: seq<Panel>, template: (string, seq<Panel>), instance: Option<InstanceInfo>,
                      fields: seq<string>, locales: seq<LocaleConf>, languages: seq<(string, string)>, hcs: HeadingsConf)
    returns (out: seq<Panel>, displayed: set<string>, err: Option<HeadingError>)
    ensures var c := LocaleCopies(template, instance, fields, locales, languages, hcs);
            && (err.None? <==> c.Ok?)
            && (err.Some? ==> c == Err(err.value))
            && (err.None? ==> out == handlers + c.value)
            && (err.None? ==> displayed == if locales == [] then {} else ConsumedSeq(template.1, fields))
  {
    var labels := LanguageLabels(languages);
    ghost var hs := CopyHeadings(template.0, instance, locales, languages, hcs);
    var copies: seq<Panel> := [];
    displayed, err := {}, None;
    var i := 0;
    while i < |locales|
      invariant 0 <= i <= |locales|
      invariant Copies(template.1, locales[..i], hs[..i], fields) == Ok(copies)
      invariant displayed == if i == 0 then {} else ConsumedSeq(template.1, fields)
    {
      var conf := locales[i];
      var r := CopyHeading(template.0, instance, conf, labels, languages, hcs);
      CopiesSnoc(template.1, locales, hs, i, fields);
      if r.Err? {
        CopiesPrefixErr(template.1, locales, hs, i + 1, fields);
        err := Some(r.error);
        out := handlers;
        return;
      }
      var children, d := RecurseChildReplace(template.1, conf["code"], fields, displayed);
      copies := copies + [Group(r.value, children)];
      displayed := d;
      i := i + 1;
    }
    assert locales[..i] == locales && hs[..i] == hs;
    out := handlers + copies;
  }

  /** `_set_translations_handlers(handlers, instance, base_handler)`: `base` is the template
      as (heading, children), `fields` the translation model's fields. Appends one copy per
      configured locale and returns the displayed fields. */
  method SetTranslationsHandlers(handlers: seq<Panel>, instance: Option<InstanceInfo>, base: Option<(string, seq<Panel>)>,
                                 fields: seq<string>, locales: seq<LocaleConf>, languages: seq<(string, string)>,
                                 hcs: HeadingsConf)
    returns (out: seq<Panel>, displayed: set<string>, err: Option<HeadingError>)
    ensures var c := LocaleCopies(Template(base, fields), instance, fields, locales, languages, hcs);
            && (err.None? <==> c.Ok?)
            && (err.Some? ==> c == Err(err.value))
            && (err.None? ==> out == handlers + c.value)
            && (err.None? ==> displayed == if locales == [] then {} else ConsumedSeq(Template(base, fields).1, fields))
  {
    var template;
    if base.None? || base.value.1 == [] {
      var children := SynthesizeChildren(fields);
      template := if base.None? then ("", children) else (base.value.0, children);
    } else {
      template := base.value;
    }
    out, displayed, err := AppendCopies(handlers, template, instance, fields, locales, languages, hcs);
  }

  /** The base tabs with each translations list replaced by its copies, in order. */
  function Expand(bts: seq<BaseTab>, instance: Option<InstanceInfo>, fields: seq<string>, locales: seq<LocaleConf>,
                  languages: seq<(string, string)>, hcs: HeadingsConf): Result<seq<Panel>, HeadingError>
  {
    if bts == [] then Ok([])
    else
      match Expand(bts[..|bts| - 1], instance, fields, locales, languages, hcs)
      case Err(e) => Err(e)
      case Ok(ps) =>
        var t := bts[|bts| - 1];
        if t.Plain? then Ok(ps + [t.panel])
        else
          match LocaleCopies(Template(Some((t.heading, t.children)), fields), instance, fields, locales, languages, hcs)
          case Err(e) => Err(e)
          case Ok(cs) => Ok(ps + cs)
  }

  /** Once a prefix of the base tabs fails, the whole expansion fails with its error. */
  lemma {:induction false} ExpandPrefixErr(bts: seq<BaseTab>, n: nat, instance: Option<InstanceInfo>, fields: seq<string>,
                                           locales: seq<LocaleConf>, languages: seq<(string, string)>, hcs: HeadingsConf)
    requires n <= |bts|
    requires Expand(bts[..n], instance, fields, locales, languages, hcs).Err?
    ensures Expand(bts, instance, fields, locales, languages, hcs) == Expand(bts[..n], instance, fields, locales, languages, hcs)
  {
    if n < |bts| {
      var m := |bts| - 1;
      assert bts[..m][..n] == bts[..n];
      ExpandPrefixErr(bts[..m], n, instance, fields, locales, languages, hcs);
    } else {
      assert bts[..n] == bts;
    }
  }

  /** The panels of base tabs that hold no translations list. */
  function PlainPanels(bts: seq<BaseTab>): (r: seq<Panel>)
    requires forall k :: 0 <= k < |bts| ==> bts[k].Plain?
    ensures |r| == |bts| && forall k :: 0 <= k < |bts| ==> r[k] == bts[k].panel
  {
    seq(|bts|, k requires 0 <= k < |bts| => bts[k].panel)
  }

  /** Without translations lists, expansion keeps the panels as they are. */
  lemma {:induction false} ExpandPlain(bts: seq<BaseTab>, instance: Option<InstanceInfo>, fields: seq<string>,
                                       locales: seq<LocaleConf>, languages: seq<(string, string)>, hcs: HeadingsConf)
    requires forall k :: 0 <= k < |bts| ==> bts[k].Plain?
    ensures Expand(bts, instance, fields, locales, languages, hcs) == Ok(PlainPanels(bts))
  {
    if bts != [] {
      var n := |bts| - 1;
      ExpandPlain(bts[..n], instance, fields, locales, languages, hcs);
      assert PlainPanels(bts) == PlainPanels(bts[..n]) + [bts[n].panel];
    }
  }

  /** The last translations list among the base tabs. */
  function LastList(bts: seq<BaseTab>): (r: Option<BaseTab>)
    ensures r.Some? <==> exists k :: 0 <= k < |bts| && bts[k].TranslationsListTab?
    ensures r.Some? ==> r.value.TranslationsListTab? && r.value in bts
  {
    if bts == [] then None
    else if bts[|bts| - 1].TranslationsListTab? then Some(bts[|bts| - 1])
    else
      var r := LastList(bts[..|bts| - 1]);
      assert forall k :: 0 <= k < |bts| - 1 ==> bts[..|bts| - 1][k] == bts[k];
      r
  }

  /** The displayed fields the form is built with: those of the last translations list, or of
      the auto-populated template without one. */
  function Displayed(bts: seq<BaseTab>, fields: seq<string>, locales: seq<LocaleConf>): set<string>
  {
    if locales == [] then {}
    else match LastList(bts)
      case Some(t) => ConsumedSeq(Template(Some((t.heading, t.children)), fields).1, fields)
      case None => ConsumedSeq(Synthesized(fields), fields)
  }

  /** The tabs of the tabbed interface: the expansion when there is a translations list;
      otherwise one wrapper tab holding every base tab, then the copies of an untitled,
      auto-populated template. */
  function Assemble(bts: seq<BaseTab>, baseHeading: Option<string>, instance: Option<InstanceInfo>, fields: seq<string>,
                    locales: seq<LocaleConf>, languages: seq<(string, string)>, hcs: HeadingsConf): Result<seq<Panel>, HeadingError>
  {
    if LastList(bts).Some? then Expand(bts, instance, fields, locales, languages, hcs)
    else
      match LocaleCopies(Template(None, fields), instance, fields, locales, languages, hcs)
      case Err(e) => Err(e)
      case Ok(cs) =>
        Ok([Group(ParlerHandlers.WrapperHeading(baseHeading), PlainPanels(bts))] + cs)
  }

  /** Without a translations list the wrapper comes first, holding every base panel, and
      is followed by exactly one copy per locale of the untitled, auto-populated template. */
  lemma WrapperFirst(bts: seq<BaseTab>, baseHeading: Option<string>, instance: Option<InstanceInfo>, fields: seq<string>,
                     locales: seq<LocaleConf>, languages: seq<(string, string)>, hcs: HeadingsConf)
    requires LastList(bts).None?
    requires Assemble(bts, baseHeading, instance, fields, locales, languages, hcs).Ok?
    ensures var tabs := Assemble(bts, baseHeading, instance, fields, locales, languages, hcs).value;
            var copies := LocaleCopies(("", Synthesized(fields)), instance, fields, locales, languages, hcs);
            && copies.Ok?
            && |tabs| == 1 + |locales|
            && tabs[0] == Group(ParlerHandlers.WrapperHeading(baseHeading), PlainPanels(bts))
            && tabs[1..] == copies.value
  {
    var t := Template(None, fields);
    assert t == ("", Synthesized(fields));
    var c := Copies(t.1, locales, CopyHeadings(t.0, instance, locales, languages, hcs), fields);
    CopiesValue(t.1, locales, CopyHeadings(t.0, instance, locales, languages, hcs), fields);
    var tabs := [Group(ParlerHandlers.WrapperHeading(baseHeading), PlainPanels(bts))] + c.value;
    assert Assemble(bts, baseHeading, instance, fields, locales, languages, hcs) == Ok(tabs);
    assert tabs[1..] == c.value;
  }

  /** `get_edit_handler(instance)`: `baseTabs` are the children of the base edit handler and
      `baseHeading` its heading. Returns the tabs and the displayed fields the form is built
      with. */
  method GetEditHandler(baseTabs: seq<BaseTab>, baseHeading: Option<string>, instance: Option<InstanceInfo>,
                        fields: seq<string>, locales: seq<LocaleConf>, languages: seq<(string, string)>, hcs: HeadingsConf)
    returns (tabs: seq<Panel>, displayed: set<string>, err: Option<HeadingError>)
    ensures var a := Assemble(baseTabs, baseHeading, instance, fields, locales, languages, hcs);
            && (err.None? <==> a.Ok?)
            && (err.Some? ==> a == Err(err.value))
            && (err.None? ==> tabs == a.value)
            && (err.None? ==> displayed == Displayed(baseTabs, fields, locales))
  {
    tabs, displayed, err := [], {}, None;
    var handlers: seq<Panel> := [];
    var found: Option<set<string>> := None;
    var i := 0;
    while i < |baseTabs|
      invariant 0 <= i <= |baseTabs|
      invariant Expand(baseTabs[..i], instance, fields, locales, languages, hcs) == Ok(handlers)
      invariant found.Some? <==> LastList(baseTabs[..i]).Some?
      invariant found.Some? ==> found.value == Displayed(baseTabs[..i], fields, locales)
    {
      var t := baseTabs[i];
      assert baseTabs[..i + 1][..i] == baseTabs[..i];
      if t.TranslationsListTab? {
        var out, d, e := SetTranslationsHandlers(handlers, instance, Some((t.heading, t.children)), fields, locales, languages, hcs);
        if e.Some? {
          ExpandPrefixErr(baseTabs, i + 1, instance, fields, locales, languages, hcs);
          err := e;
          return;
        }
        handlers, found := out, Some(d);
      } else {
        handlers := handlers + [t.panel];
      }
      i := i + 1;
    }
    assert baseTabs[..i] == baseTabs;
    if found.None? {
      ExpandPlain(baseTabs, instance, fields, locales, languages, hcs);
      var wrapper := Group(ParlerHandlers.WrapperHeading(baseHeading), handlers);
      var out, d, e := SetTranslationsHandlers([wrapper], instance, None, fields, locales, languages, hcs);
      if e.Some? {
        err := e;
        return;
      }
      handlers, found := out, Some(d);
    }
    tabs, displayed := handlers, found.value;
  }
}
