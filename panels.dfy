/** Edit-handler panel trees as values, and the per-locale field renaming that both handler
    variants apply to each copy of the translations template. */
module Panels {
  import opened Locales

  /** A Wagtail panel: a `FieldPanel` leaf, a container (`ObjectList` and its kin, which carry
      a heading and children), or any other panel without children. */
  datatype Panel =
    | FieldPanel(fieldName: string)
    | Group(heading: string, children: seq<Panel>)
    | OtherPanel(kind: string)

  /** The translation-model field that never gets a panel of its own. */
  const LanguageCodeField: string := "language_code"

  /** What the renaming does to one leaf: a field panel of a translation field takes the
      locale-qualified name; every other panel is left alone. */
  function RenameLeaf(p: Panel, locale: string, fields: seq<string>): Panel
  {
    if p.FieldPanel? && p.fieldName in fields then FieldPanel(TranslatedName(locale, p.fieldName)) else p
  }

  /** The panel after `recurse_child_replace` has walked it. */
  function Rename(p: Panel, locale: string, fields: seq<string>): Panel
    decreases p
  {
    match p
    case Group(h, cs) => Group(h, RenameSeq(cs, locale, fields))
    case _ => RenameLeaf(p, locale, fields)
  }

  function RenameSeq(ps: seq<Panel>, locale: string, fields: seq<string>): seq<Panel>
    decreases ps
  {
    if ps == [] then [] else [Rename(ps[0], locale, fields)] + RenameSeq(ps[1..], locale, fields)
  }

  /** The non-container panels of a tree, depth first, left to right. */
  function Leaves(p: Panel): seq<Panel>
    decreases p
  {
    match p
    case Group(_, cs) => LeavesSeq(cs)
    case _ => [p]
  }

  function LeavesSeq(ps: seq<Panel>): seq<Panel>
    decreases ps
  {
    if ps == [] then [] else Leaves(ps[0]) + LeavesSeq(ps[1..])
  }

  /** A tree with every field name blanked: what the renaming must not change. */
  function Skeleton(p: Panel): Panel
    decreases p
  {
    match p
    case FieldPanel(_) => FieldPanel("")
    case Group(h, cs) => Group(h, SkeletonSeq(cs))
    case OtherPanel(_) => p
  }

  function SkeletonSeq(ps: seq<Panel>): seq<Panel>
    decreases ps
  {
    if ps == [] then [] else [Skeleton(ps[0])] + SkeletonSeq(ps[1..])
  }

  /** Pointwise renaming of a list of leaves. */
  function RenameLeaves(ls: seq<Panel>, locale: string, fields: seq<string>): (r: seq<Panel>)
    ensures |r| == |ls|
    ensures forall i :: 0 <= i < |ls| ==> r[i] == RenameLeaf(ls[i], locale, fields)
  {
    seq(|ls|, i requires 0 <= i < |ls| => RenameLeaf(ls[i], locale, fields))
  }

  /** The original names of the translation-field panels of a list of leaves: the names
      `recurse_child_replace` adds to `displayed_fields`. */
  function ConsumedLeaves(ls: seq<Panel>, fields: seq<string>): set<string>
  {
    set l | l in ls && l.FieldPanel? && l.fieldName in fields :: l.fieldName
  }

  function ConsumedSeq(ps: seq<Panel>, fields: seq<string>): set<string>
  {
    ConsumedLeaves(LeavesSeq(ps), fields)
  }

  lemma RenameSeqAppend(a: seq<Panel>, b: seq<Panel>, locale: string, fields: seq<string>)
    ensures RenameSeq(a + b, locale, fields) == RenameSeq(a, locale, fields) + RenameSeq(b, locale, fields)
    decreases |a|
  {
    if a != [] {
      assert (a + b)[1..] == a[1..] + b;
      RenameSeqAppend(a[1..], b, locale, fields);
    } else {
      assert a + b == b;
    }
  }

  lemma LeavesSeqAppend(a: seq<Panel>, b: seq<Panel>)
    ensures LeavesSeq(a + b) == LeavesSeq(a) + LeavesSeq(b)
    decreases |a|
  {
    if a != [] {
      assert (a + b)[1..] == a[1..] + b;
      LeavesSeqAppend(a[1..], b);
    } else {
      assert a + b == b;
    }
  }

  lemma ConsumedLeavesAppend(a: seq<Panel>, b: seq<Panel>, fields: seq<string>)
    ensures ConsumedLeaves(a + b, fields) == ConsumedLeaves(a, fields) + ConsumedLeaves(b, fields)
  {
  }

  /** The leaves of a renamed tree are the renamed leaves of the tree, one for one. */
  lemma {:induction false} LeavesOfRename(p: Panel, locale: string, fields: seq<string>)
    ensures Leaves(Rename(p, locale, fields)) == RenameLeaves(Leaves(p), locale, fields)
    decreases p
  {
    match p
    case Group(h, cs) => LeavesOfRenameSeq(cs, locale, fields);
    case _ =>
  }

  lemma {:induction false} LeavesOfRenameSeq(ps: seq<Panel>, locale: string, fields: seq<string>)
    ensures LeavesSeq(RenameSeq(ps, locale, fields)) == RenameLeaves(LeavesSeq(ps), locale, fields)
    decreases ps
  {
    if ps != [] {
      LeavesOfRename(ps[0], locale, fields);
      LeavesOfRenameSeq(ps[1..], locale, fields);
      var r := RenameSeq(ps, locale, fields);
      assert r[0] == Rename(ps[0], locale, fields);
      assert r[1..] == RenameSeq(ps[1..], locale, fields);
      LeavesSeqAppend([r[0]], r[1..]);
      assert [r[0]] + r[1..] == r;
      assert LeavesSeq([r[0]]) == Leaves(r[0]) by {
        assert [r[0]][1..] == [];
      }
    }
  }

  /** Renaming changes field names only: headings, nesting and every other panel stay. */
  lemma {:induction false} RenameKeepsSkeleton(p: Panel, locale: string, fields: seq<string>)
    ensures Skeleton(Rename(p, locale, fields)) == Skeleton(p)
    decreases p
  {
    match p
    case Group(h, cs) => RenameKeepsSkeletonSeq(cs, locale, fields);
    case _ =>
  }

  lemma {:induction false} RenameKeepsSkeletonSeq(ps: seq<Panel>, locale: string, fields: seq<string>)
    ensures SkeletonSeq(RenameSeq(ps, locale, fields)) == SkeletonSeq(ps)
    decreases ps
  {
    if ps != [] {
      RenameKeepsSkeleton(ps[0], locale, fields);
      RenameKeepsSkeletonSeq(ps[1..], locale, fields);
      var r := RenameSeq(ps, locale, fields);
      assert r[0] == Rename(ps[0], locale, fields);
      assert r[1..] == RenameSeq(ps[1..], locale, fields);
    }
  }

  /** Every field panel of a renamed tree either kept a name that is not a translation
      field, or carries the locale-qualified name of a consumed translation field. */
  lemma RenamedFieldNames(ps: seq<Panel>, locale: string, fields: seq<string>, l: Panel)
    requires l in LeavesSeq(RenameSeq(ps, locale, fields)) && l.FieldPanel?
    ensures (l.fieldName !in fields && l in LeavesSeq(ps)) ||
            exists f :: f in ConsumedSeq(ps, fields) && l.fieldName == TranslatedName(locale, f)
  {
    LeavesOfRenameSeq(ps, locale, fields);
    var ls := LeavesSeq(ps);
    var i :| 0 <= i < |ls| && RenameLeaves(ls, locale, fields)[i] == l;
    if ls[i].FieldPanel? && ls[i].fieldName in fields {
      assert ls[i].fieldName in ConsumedSeq(ps, fields);
    }
  }

  /** Every consumed translation field appears, under its locale-qualified name, as a field
      panel of the renamed tree. */
  lemma ConsumedAreRenamed(ps: seq<Panel>, locale: string, fields: seq<string>, f: string)
    requires f in ConsumedSeq(ps, fields)
    ensures FieldPanel(TranslatedName(locale, f)) in LeavesSeq(RenameSeq(ps, locale, fields))
  {
    LeavesOfRenameSeq(ps, locale, fields);
    var ls := LeavesSeq(ps);
    var i :| 0 <= i < |ls| && ls[i] == FieldPanel(f);
    assert RenameLeaves(ls, locale, fields)[i] == FieldPanel(TranslatedName(locale, f));
  }

  /** What walking one child yields: its renaming, and the names it consumes. */
  lemma WalkOne(child: Panel, locale: string, fields: seq<string>)
    ensures child.Group? ==> Rename(child, locale, fields) == Group(child.heading, RenameSeq(child.children, locale, fields))
    ensures child.Group? ==> ConsumedLeaves(Leaves(child), fields) == ConsumedSeq(child.children, fields)
    ensures child.FieldPanel? && child.fieldName in fields ==>
              && Rename(child, locale, fields) == FieldPanel(TranslatedName(locale, child.fieldName))
              && ConsumedLeaves(Leaves(child), fields) == {child.fieldName}
    ensures !child.Group? && !(child.FieldPanel? && child.fieldName in fields) ==>
              Rename(child, locale, fields) == child && ConsumedLeaves(Leaves(child), fields) == {}
  {
  }

  /** Walking one more child extends the renaming and the consumed names by that child's. */
  lemma WalkSnoc(children: seq<Panel>, i: nat, locale: string, fields: seq<string>)
    requires i < |children|
    ensures RenameSeq(children[..i + 1], locale, fields) == RenameSeq(children[..i], locale, fields) + [Rename(children[i], locale, fields)]
    ensures ConsumedSeq(children[..i + 1], fields) == ConsumedSeq(children[..i], fields) + ConsumedLeaves(Leaves(children[i]), fields)
  {
    var child := children[i];
    assert children[..i + 1] == children[..i] + [child];
    RenameSeqAppend(children[..i], [child], locale, fields);
    LeavesSeqAppend(children[..i], [child]);
    assert LeavesSeq([child]) == Leaves(child) by {
      assert [child][1..] == [];
    }
    ConsumedLeavesAppend(LeavesSeq(children[..i]), Leaves(child), fields);
  }

  /** `recurse_child_replace(handler, locale)` over the handler's children: each field panel
      of a translation field is recorded in `displayed_fields` and renamed, and containers
      are walked recursively. Returns the new children and the grown `displayed_fields`. */
  method RecurseChildReplace(children: seq<Panel>, locale: string, fields: seq<string>, displayed: set<string>)
    returns (renamed: seq<Panel>, displayed': set<string>)
    ensures renamed == RenameSeq(children, locale, fields)
    ensures displayed' == displayed + ConsumedSeq(children, fields)
    decreases children
  {
    renamed := [];
    displayed' := displayed;
    var i := 0;
    while i < |children|
      invariant 0 <= i <= |children|
      invariant renamed == RenameSeq(children[..i], locale, fields)
      invariant displayed' == displayed + ConsumedSeq(children[..i], fields)
    {
      var child := children[i];
      var done := child;
      if child.FieldPanel? && child.fieldName in fields {
        displayed' := displayed' + {child.fieldName};
        done := FieldPanel(TranslatedName(locale, child.fieldName));
      }
      if child.Group? {
        var cs, d := RecurseChildReplace(child.children, locale, fields, displayed');
        done := Group(child.heading, cs);
        displayed' := d;
      }
      WalkOne(child, locale, fields);
      WalkSnoc(children, i, locale, fields);
      renamed := renamed + [done];
      i := i + 1;
    }
    assert children[..i] == children;
  }

  /** The auto-populated children of a template without children: one field panel per
      translation field except `language_code`, in field order. */
  function Synthesized(fields: seq<string>): seq<Panel>
  {
    if fields == [] then []
    else (if fields[0] != LanguageCodeField then [FieldPanel(fields[0])] else []) + Synthesized(fields[1..])
  }

  /** The synthesized children are field panels, exactly one per translation field other
      than `language_code`. */
  lemma {:induction false} SynthesizedPanels(fields: seq<string>)
    ensures forall p :: p in Synthesized(fields) ==> p.FieldPanel? && p.fieldName in fields && p.fieldName != LanguageCodeField
    ensures forall f :: f in fields && f != LanguageCodeField ==> FieldPanel(f) in Synthesized(fields)
  {
    if fields != [] {
      SynthesizedPanels(fields[1..]);
      assert fields == [fields[0]] + fields[1..];
    }
  }

  /** The synthesized children are leaves already. */
  lemma {:induction false} SynthesizedLeaves(fields: seq<string>)
    ensures LeavesSeq(Synthesized(fields)) == Synthesized(fields)
  {
    if fields != [] {
      SynthesizedLeaves(fields[1..]);
      var head: seq<Panel> := if fields[0] != LanguageCodeField then [FieldPanel(fields[0])] else [];
      LeavesSeqAppend(head, Synthesized(fields[1..]));
      assert LeavesSeq(head) == head by {
        if head != [] { assert head[1..] == []; }
      }
    }
  }

  /** Walking the synthesized children consumes exactly the translation fields other than
      `language_code`. */
  lemma SynthesizedConsumed(fields: seq<string>)
    ensures ConsumedSeq(Synthesized(fields), fields) == (set f | f in fields) - {LanguageCodeField}
  {
    SynthesizedPanels(fields);
    SynthesizedLeaves(fields);
    var syn := Synthesized(fields);
    forall f | f in fields && f != LanguageCodeField ensures f in ConsumedLeaves(syn, fields) {
      assert FieldPanel(f) in syn;
    }
  }

  /** The loop that builds the auto-populated children. */
  method SynthesizeChildren(fields: seq<string>) returns (children: seq<Panel>)
    ensures children == Synthesized(fields)
  {
    children := [];
    var i := 0;
    while i < |fields|
      invariant 0 <= i <= |fields|
      invariant children + Synthesized(fields[i..]) == Synthesized(fields)
    {
      if fields[i] != LanguageCodeField {
        children := children + [FieldPanel(fields[i])];
      }
      assert fields[i..][1..] == fields[i + 1..];
      i := i + 1;
    }
  }
}
