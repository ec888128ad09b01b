/** The languages column of the admin listing: one status entry per configured locale. */
module Columns {
  import opened Common
  import opened Locales

  /** A dictionary that remembers insertion order, as Python's `dict` does: a key keeps the
      position of its first insertion and takes the value of its last. */
  datatype OrderedDict<V> = OrderedDict(keys: seq<string>, values: map<string, V>)
  {
    predicate Valid()
    {
      Distinct(keys) && (forall k :: k in keys ==> k in values) && (forall k :: k in values ==> k in keys)
    }

    function Put(k: string, v: V): (r: OrderedDict<V>)
      requires Valid()
      ensures r.Valid()
      ensures r.values == values[k := v]
      ensures k in keys ==> r.keys == keys
      ensures k !in keys ==> r.keys == keys + [k]
    {
      if k in values then OrderedDict(keys, values[k := v]) else OrderedDict(keys + [k], values[k := v])
    }
  }

  /** The entry of one locale: its configuration, overridden by the computed `current`,
      `untranslated`, `label` and `code`. */
  function LanguageEntry(conf: LocaleConf, current: string, available: set<string>, labels: map<string, string>)
    : (r: map<string, Value>)
    ensures r.Keys == conf.Keys + {"current", "untranslated", "label"}
    ensures r["code"] == VStr(Code(conf))
    ensures r["current"] == VBool(Code(conf) == current)
    ensures r["untranslated"] == VBool(Code(conf) !in available)
    ensures Code(conf) in labels && labels[Code(conf)] != "" ==> r["label"] == VStr(labels[Code(conf)])
    ensures Code(conf) !in labels || labels[Code(conf)] == "" ==> r["label"] == VStr(Code(conf))
    ensures forall k :: k in conf && k !in {"current", "untranslated", "label", "code"} ==> r[k] == VStr(conf[k])
  {
    var code := Code(conf);
    var shown := if code in labels && labels[code] != "" then labels[code] else code;
    (map k | k in conf :: VStr(conf[k]))
      + map["current" := VBool(code == current), "untranslated" := VBool(code !in available),
            "label" := VStr(shown), "code" := VStr(code)]
  }

  /** A dictionary filled by assigning `d[k] = v` for each pair in turn. */
  function Assigned<V>(pairs: seq<(string, V)>): (r: OrderedDict<V>)
    ensures r.Valid()
  {
    if pairs == [] then OrderedDict([], map[])
    else Assigned(pairs[..|pairs| - 1]).Put(pairs[|pairs| - 1].0, pairs[|pairs| - 1].1)
  }

  function KeysOf<V>(pairs: seq<(string, V)>): (r: seq<string>)
    ensures |r| == |pairs| && forall i :: 0 <= i < |pairs| ==> r[i] == pairs[i].0
  {
    seq(|pairs|, i requires 0 <= i < |pairs| => pairs[i].0)
  }

  /** The keys are the assigned keys, each once, in order of first assignment; with distinct
      keys they are exactly the assigned keys in order. */
  lemma {:induction false} AssignedKeys<V>(pairs: seq<(string, V)>)
    ensures forall c :: c in Assigned(pairs).keys <==> c in KeysOf(pairs)
    ensures Distinct(KeysOf(pairs)) ==> Assigned(pairs).keys == KeysOf(pairs)
  {
    AssignedKeysIn(pairs);
    if Distinct(KeysOf(pairs)) {
      AssignedKeysInOrder(pairs);
    }
  }

  lemma {:induction false} AssignedKeysIn<V>(pairs: seq<(string, V)>)
    ensures forall c :: c in Assigned(pairs).keys <==> c in KeysOf(pairs)
  {
    if pairs != [] {
      var n := |pairs| - 1;
      AssignedKeysIn(pairs[..n]);
      assert KeysOf(pairs) == KeysOf(pairs[..n]) + [pairs[n].0];
    }
  }

  lemma {:induction false} AssignedKeysInOrder<V>(pairs: seq<(string, V)>)
    requires Distinct(KeysOf(pairs))
    ensures Assigned(pairs).keys == KeysOf(pairs)
  {
    if pairs != [] {
      var n := |pairs| - 1;
      var keys, prev := KeysOf(pairs), KeysOf(pairs[..n]);
      assert keys == prev + [pairs[n].0];
      forall i, j | 0 <= i < j < |prev| ensures prev[i] != prev[j] {
        assert prev[i] == keys[i] && prev[j] == keys[j];
      }
      AssignedKeysInOrder(pairs[..n]);
      AssignedKeysIn(pairs[..n]);
      assert pairs[n].0 !in prev by {
        forall i | 0 <= i < |prev| ensures prev[i] != pairs[n].0 {
          assert prev[i] == keys[i] && pairs[n].0 == keys[n];
        }
      }
    }
  }

  /** The value of a key is the one of its last assignment. */
  lemma AssignedSnoc<V>(pairs: seq<(string, V)>, i: nat)
    requires i < |pairs|
    ensures Assigned(pairs[..i + 1]) == Assigned(pairs[..i]).Put(pairs[i].0, pairs[i].1)
  {
    assert pairs[..i + 1][..i] == pairs[..i];
  }

  lemma {:induction false} AssignedValue<V>(pairs: seq<(string, V)>, i: nat)
    requires i < |pairs|
    requires forall j :: i < j < |pairs| ==> pairs[j].0 != pairs[i].0
    ensures pairs[i].0 in Assigned(pairs).values && Assigned(pairs).values[pairs[i].0] == pairs[i].1
  {
    var n := |pairs| - 1;
    if i < n {
      assert pairs[..n][i] == pairs[i];
      forall j | i < j < n ensures pairs[..n][j].0 != pairs[..n][i].0 {
        assert pairs[..n][j] == pairs[j];
      }
      AssignedValue(pairs[..n], i);
    }
  }

  /** The (code, entry) assignments of `get_value`, in configuration order. */
  function Entries(locales: seq<LocaleConf>, current: string, available: set<string>, labels: map<string, string>)
    : (r: seq<(string, map<string, Value>)>)
    ensures |r| == |locales|
    ensures forall i :: 0 <= i < |locales| ==> r[i] == (Code(locales[i]), LanguageEntry(locales[i], current, available, labels))
  {
    seq(|locales|, i requires 0 <= i < |locales| => (Code(locales[i]), LanguageEntry(locales[i], current, available, labels)))
  }

  /** The column value: its keys are the configured codes, each once, in configuration order
      (exactly the configured codes when they are distinct), and the entry of a code is built
      from the last configuration with that code. */
  lemma LanguagesShape(locales: seq<LocaleConf>, current: string, available: set<string>, labels: map<string, string>)
    ensures var d := Assigned(Entries(locales, current, available, labels));
            && (forall c :: c in d.keys <==> c in Codes(locales))
            && (Distinct(Codes(locales)) ==> d.keys == Codes(locales))
            && (forall i :: 0 <= i < |locales| && (forall j :: i < j < |locales| ==> Code(locales[j]) != Code(locales[i])) ==>
                  Code(locales[i]) in d.values && d.values[Code(locales[i])] == LanguageEntry(locales[i], current, available, labels))
  {
    var es := Entries(locales, current, available, labels);
    AssignedKeys(es);
    assert KeysOf(es) == Codes(locales);
    forall i | 0 <= i < |locales| && (forall j :: i < j < |locales| ==> Code(locales[j]) != Code(locales[i]))
      ensures Code(locales[i]) in Assigned(es).values && Assigned(es).values[Code(locales[i])] == LanguageEntry(locales[i], current, available, labels)
    {
      forall j | i < j < |es| ensures es[j].0 != es[i].0 {
        assert es[j].0 == Code(locales[j]);
      }
      AssignedValue(es, i);
    }
  }

  /** `LanguagesColumn.get_value(instance)`: `current` is the instance's current language,
      `available` its available languages, `languages` the `LANGUAGES` setting. */
  method GetValue(locales: seq<LocaleConf>, current: string, available: set<string>, languages: seq<(string, string)>)
    returns (r: OrderedDict<map<string, Value>>)
    ensures r == Assigned(Entries(locales, current, available, LanguageLabels(languages)))
  {
    var labels := LanguageLabels(languages);
    ghost var es := Entries(locales, current, available, labels);
    r := OrderedDict([], map[]);
    var i := 0;
    while i < |locales|
      invariant 0 <= i <= |locales|
      invariant r == Assigned(es[..i])
    {
      var code := locales[i]["code"];
      var entry := LanguageEntry(locales[i], current, available, labels);
      assert es[i] == (code, entry);
      AssignedSnoc(es, i);
      r := r.Put(code, entry);
      i := i + 1;
    }
    assert es[..i] == es;
  }
}
