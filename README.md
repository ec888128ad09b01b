# wagtail-parler, modelled in Dafny

This project models the core of wagtail-parler. The package turns one language-neutral
Wagtail admin form into one tab per configured locale, and sends the submitted data of each
tab to that locale's django-parler translation. The model covers five pieces:

- **Per-locale panel synthesis**, in both handler variants: the current package
  (`wagtail_parler/handlers.py`, module `ParlerHandlers`) and the older model-admin package
  (`wagtail_modeladmin_parler/handlers.py`, module `ModelAdminHandlers`).
  - A `TranslationsList` template is copied once per configured locale.
  - Every translation-field `FieldPanel` in a copy, at any depth, is renamed
    `translations_<code>_<field>` (module `Panels`).
  - The renamed field names are collected as the displayed fields.
  - The tabs are assembled. When the base tabs hold no translations list, an
    "Untranslated data" wrapper tab is added.
- **Tab headings**:
  - the heading category (creating, translated or untranslated);
  - the template precedence of each variant;
  - `%(key)s` interpolation (modules `Headings` and `PercentFormat`);
  - the `HEADINGS_CONF` defaults (module `Settings`).
- **The translations form** (module `Forms`):
  - the class `build_translations_form` generates;
  - the initial values;
  - the relaxing of fields of every locale but the first;
  - the grouping of cleaned data by locale;
  - the per-locale save decision (delete, create or update).
- **The languages column** (module `Columns`): one status entry per configured locale.
- **The serialization helpers of the model** (module `Translatable`):
  - the serialized translations;
  - parler's translation cache when they are read back: the saved locales are fetched, the
    serialized locales are evicted and rewritten, and the empty ones are refilled from
    fallbacks;
  - the save and restore of the `_state.adding` flag.

State the source mutates in place is modelled as classes:
- `ParlerHandlers.TranslationsList`;
- `Forms.AutoParlerModelForm`;
- `Translatable.TranslatableModel`.

Every loop of the modelled functions is a method with invariants, proved against a
specification function. The properties are then proved about those functions as lemmas. Panel trees,
headings, settings and locale configurations are values.

The configured locales (`PARLER_LANGUAGES[None]`) are a parameter. So are `LANGUAGES`, the
heading settings and the translation model's fields.

The model does not assume that locale codes are unique. The code does not check it, so the
lemmas state what happens with repeated codes, for example in `Columns.LanguagesShape`.

## Model

| member | source | states |
|---|---|---|
| ParlerHandlers.TranslationsList.constructor | wagtail_parler/handlers.py:38-43 | `initial_parler_heading` is the keyword of that name when given, otherwise the popped `heading`; the locale and children are as given |
| ParlerHandlers.TranslationsList.CleanName | wagtail_parler/handlers.py:45-47 | `parler_translations_` followed by the locale code, or `parler_translations_all` when the list has no (or an empty) locale |
| ParlerHandlers.CleanNamesDistinct | wagtail_parler/handlers.py:45-47 | two lists with locales have the same clean name exactly when they have the same locale |
| ParlerHandlers.TranslationsList.SetParlerHeading | wagtail_parler/handlers.py:49-74 | the new heading is `ParlerHeading` of the initial heading, the instance and the list's locale; it never reads the old heading, so a second call gives the same heading; on an error the heading is unchanged and the error is returned |
| ParlerHandlers.TranslationsList.CloneKwargs | wagtail_parler/handlers.py:76-80 | the keyword arguments carry the locale, the initial heading, the heading and the children forward |
| ParlerHandlers.TranslationsList.Clone | wagtail_parler/handlers.py:76-80 | a clone is a new list with the same locale, initial heading and children, so it computes the same heading |
| ParlerHandlers.TranslationsList.DeepCopy | wagtail_parler/handlers.py:131 | `deepcopy` gives a new list with the same state |
| Headings.CategoryChoice | wagtail_parler/handlers.py:58-64 | creating exactly without an instance or pk; translated exactly when a saved instance has the locale; untranslated otherwise |
| Headings.ParlerHeadingUnknownLocale | wagtail_parler/handlers.py:51-55 | the heading fails with StopIteration exactly when no configured locale has the current code |
| Headings.ParlerHeadingIgnoresPlainInitial | wagtail_parler/handlers.py:65-67 | an initial heading without `%(` gives the same heading as no initial heading |
| Headings.PlainTemplateKept | wagtail_parler/handlers.py:68-74 | a template without `%(` is the heading, with no label lookup or formatting |
| Headings.MarkedTemplateNeedsLabel | wagtail_parler/handlers.py:68-70 | a template with `%(` for a code missing from `LANGUAGES` fails with that code's KeyError |
| Headings.SlotValue | wagtail_parler/handlers.py:69-73 | a `%(key)s` slot gets the locale configuration's value first, then the `LANGUAGES` label for `locale` and the marker for `status` |
| Headings.VariantsAgreeOnEmptyOrMarked | wagtail_modeladmin_parler/handlers.py:135-142 | on an empty heading or one with `%(`, the model-admin heading equals the current package's heading |
| Headings.VariantsDifferOnPlainHeading | wagtail_modeladmin_parler/handlers.py:135-136 | a non-empty heading without `%(` is kept verbatim by the model-admin package but replaced by the category's label by the current package |
| Headings.InterpolatePrinted | wagtail_parler/handlers.py:68-73 | interpolating a well-formed template renders each slot with its mapped value |
| Headings.WorkedTemplates | wagtail_parler/handlers.py:68-73 | `%(locale)s %(status)s` gives the label, a space and the marker; `%(code)s: %(locale)s %(status)s` gives code, `: `, label, space and marker |
| Headings.DefaultHeadingsShowLabelAndMarker | wagtail_parler/settings.py:18-45 | without heading settings a tab shows the locale label while creating, and the label, a space and the category's marker once saved |
| Headings.DefaultCreatingHeading | wagtail_parler/settings.py:20-28 | the default creating heading is the locale's label |
| Headings.DefaultSavedHeading | wagtail_parler/settings.py:29-44 | the default translated or untranslated heading is the label, a space and the marker |
| Headings.CodeLocaleStatusHeading | wagtail_parler/handlers.py:65-73 | the example heading `%(code)s: %(locale)s %(status)s` shows code, label and the category's marker whatever the category's label |
| Common.HasMarker | wagtail_parler/handlers.py:66 | the test is true exactly when `%(` occurs in the string |
| PercentFormat.FormatText | wagtail_parler/handlers.py:69-73 | text without `%` passes through `%` formatting unchanged |
| PercentFormat.FormatPlain | wagtail_parler/handlers.py:69-73 | a template without `%` formats to itself |
| PercentFormat.FormatSlot | wagtail_parler/handlers.py:69-73 | a leading `%(key)s` is replaced by the key's value |
| PercentFormat.FormatPrinted | wagtail_parler/handlers.py:69-73 | formatting the text of well-formed pieces yields their rendering: the formatter and the printer agree |
| PercentFormat.FormatFirstMissing | wagtail_parler/handlers.py:69-73 | a first slot whose key is missing is reported as that key's KeyError |
| PercentFormat.PrintedLocaleStatus | wagtail_parler/settings.py:33 | the pieces of the default status template print as `%(locale)s %(status)s` |
| PercentFormat.PrintedCodeLocaleStatus | wagtail_parler/handlers.py:235 | the pieces of the example template print as `%(code)s: %(locale)s %(status)s` |
| Settings.DefaultHeadings | wagtail_parler/settings.py:18-45 | with nothing configured: creating `%(locale)s` and no marker; translated and untranslated `%(locale)s %(status)s` with the green and red markers |
| Settings.FalsyStatusIsEmptyMapping | wagtail_parler/settings.py:19 | a falsy status setting behaves as an empty mapping |
| Settings.StatusOnlyFromOwnKey | wagtail_parler/settings.py:27-43 | a category's marker depends only on its own key of the status setting, and is the default marker without it |
| Settings.LabelsDeriveFromDefault | wagtail_parler/settings.py:20-42 | creating uses the default heading; translated and untranslated use their own setting, or the default heading followed by ` %(status)s` |
| Locales.Codes | wagtail_parler/forms.py:127 | the configured codes, one per locale, in configuration order |
| Locales.FindConfFinds | wagtail_parler/handlers.py:51-55 | the search yields the first configuration with the code, and fails exactly when none has it |
| Locales.LanguageLabelsKeys | wagtail_parler/handlers.py:56 | `dict(LANGUAGES)` has exactly the codes of `LANGUAGES` as keys |
| Locales.LanguageLabelsLastWins | wagtail_parler/handlers.py:56 | a code's label is the one of its last pair |
| Locales.ParseTranslatedNameRoundTrip | wagtail_parler/forms.py:53 | a name built for an underscore-free code reads back as that code and field |
| Locales.ParsedNameIsTranslatedName | wagtail_parler/forms.py:53 | every name that parses was built from an underscore-free code and its field |
| Locales.TranslatedNameInjective | wagtail_parler/forms.py:130 | distinct (locale, field) pairs get distinct names when codes hold no underscore |
| Panels.LeavesOfRename | wagtail_parler/handlers.py:122-128 | the leaves of a renamed tree are its leaves renamed one for one |
| Panels.LeavesOfRenameSeq | wagtail_parler/handlers.py:122-128 | the same for a list of children |
| Panels.RenameKeepsSkeleton | wagtail_parler/handlers.py:122-128 | renaming changes field names only: headings, nesting and other panels stay |
| Panels.RenameKeepsSkeletonSeq | wagtail_parler/handlers.py:122-128 | the same for a list of children |
| Panels.RenamedFieldNames | wagtail_parler/handlers.py:124-126 | each field panel of a copy is an untouched non-translation panel of the template, or the qualified name of a consumed field |
| Panels.ConsumedAreRenamed | wagtail_parler/handlers.py:124-126 | each consumed field appears, under its qualified name, in the copy |
| Panels.RecurseChildReplace | wagtail_parler/handlers.py:122-128 | the walk returns the renamed children and adds exactly the consumed translation fields to the displayed set |
| Panels.SynthesizedPanels | wagtail_parler/handlers.py:109-113 | auto-populated children are one field panel per translation field other than `language_code`, and nothing else |
| Panels.SynthesizedConsumed | wagtail_parler/handlers.py:109-125 | walking the auto-populated children consumes exactly the translation fields other than `language_code` |
| Panels.SynthesizeChildren | wagtail_parler/handlers.py:110-113 | the loop builds the auto-populated children |
| ParlerHandlers.HeadingsOkUpToAll | wagtail_parler/handlers.py:130-135 | the loop's running heading condition holds exactly when every locale so far gets its heading |
| ParlerHandlers.HeadingsOkAll | wagtail_parler/handlers.py:130-135 | the heading condition holds exactly when every configured locale gets its heading |
| ParlerHandlers.CopyViewsAt | wagtail_parler/handlers.py:130-135 | one copy per locale, in order, each with its locale, the template's initial heading, its computed heading and the renamed children |
| ParlerHandlers.PrepareTemplate | wagtail_parler/handlers.py:109-120 | a missing template becomes a new auto-populated list with an empty heading; a childless one is auto-populated in place; any other is kept |
| ParlerHandlers.LocaleCopy | wagtail_parler/handlers.py:131-134 | a fresh deep copy with the locale set, its heading computed without an instance and its children renamed; it fails exactly when the heading does |
| ParlerHandlers.AppendCopy | wagtail_parler/handlers.py:130-135 | one pass of the locale loop extends the copies made so far by the next locale's copy |
| ParlerHandlers.HeadingsOkUpToPrefix | wagtail_parler/handlers.py:130-135 | a heading failure among the first locales is a failure of the whole loop |
| ParlerHandlers.AppendCopies | wagtail_parler/handlers.py:130-135 | exactly one fresh copy per configured locale, in order, each equal to its expected copy; the displayed set is the template's consumed fields; an error exactly when some heading fails |
| ParlerHandlers.SetTranslationsHandlers | wagtail_parler/handlers.py:96-136 | the handlers are kept as a prefix and followed by the copies of the (auto-populated) template; the template is not renamed; the displayed fields are its consumed fields |
| ParlerHandlers.FieldNames | wagtail_parler/handlers.py:107 | the translation model's field names, in order |
| ParlerHandlers.ExpandAppend | wagtail_parler/handlers.py:145-149 | expansion works tab by tab, so plain tabs keep their order around the replaced lists |
| ParlerHandlers.ExpandFixed | wagtail_parler/handlers.py:145-149 | without translations lists the tabs are kept as they are |
| ParlerHandlers.LastTemplate | wagtail_parler/handlers.py:145-147 | there is a last translations list exactly when some tab is one |
| ParlerHandlers.TemplatesOkAll | wagtail_parler/handlers.py:145-147 | the tab loop succeeds exactly when every translations list gets all its headings |
| ParlerHandlers.ExpandStep | wagtail_parler/handlers.py:145-149 | one more base tab adds itself, or its locale copies, and sets the last list and displayed set |
| ParlerHandlers.ReplaceList | wagtail_parler/handlers.py:146-147 | a translations list is replaced by its locale copies appended to the handlers |
| ParlerHandlers.TemplatesOkPrefix | wagtail_parler/handlers.py:145-147 | a failed list among the first tabs fails the whole loop |
| ParlerHandlers.ReplaceTab | wagtail_parler/handlers.py:145-149 | one pass of the tab loop keeps a plain tab or replaces a list, extending the expected expansion |
| ParlerHandlers.ReplaceLists | wagtail_parler/handlers.py:142-149 | the tabs are the base tabs with each list replaced in place by its copies; the displayed set is the last list's |
| ParlerHandlers.WrapUntranslated | wagtail_parler/handlers.py:150-157 | one wrapper tab headed by the base heading or "Untranslated data" holding the tabs, then the copies of an auto-populated template |
| ParlerHandlers.WrapPlainTabs | wagtail_parler/handlers.py:150-157 | without a list the tabs are the expected wrapper followed by the copies |
| ParlerHandlers.AssembleTabs | wagtail_parler/handlers.py:142-157 | the tabs and the displayed set of `get_edit_handler`, in both cases |
| ParlerHandlers.GetEditHandler | wagtail_parler/handlers.py:138-179 | the tabs are the assembled tabs and the form class is `build_translations_form` restricted to the displayed fields |
| ParlerHandlers.TemplateFieldsAreDeclared | wagtail_parler/handlers.py:174-178 | every renamed field panel of a copy names a field the generated form declares |
| ModelAdminHandlers.CopyHeadings | wagtail_modeladmin_parler/handlers.py:126-142 | one heading per configured locale, each computed by the inline heading logic |
| ModelAdminHandlers.CopiesOk | wagtail_modeladmin_parler/handlers.py:126-145 | the copies exist exactly when every heading does |
| ModelAdminHandlers.CopiesValue | wagtail_modeladmin_parler/handlers.py:126-145 | one copy per locale, in order, headed by its heading and holding the renamed children |
| ModelAdminHandlers.CopiesErr | wagtail_modeladmin_parler/handlers.py:126-145 | a failure is the error of the first locale whose heading fails |
| ModelAdminHandlers.LocaleCopiesShape | wagtail_modeladmin_parler/handlers.py:126-145 | the copies for every configured locale: success exactly when every heading succeeds, with count, order, headings and renamed children; otherwise the first failing heading's error |
| ModelAdminHandlers.CopyHeading | wagtail_modeladmin_parler/handlers.py:128-142 | the inline logic computes the model-admin heading of the copy |
| ModelAdminHandlers.AppendCopies | wagtail_modeladmin_parler/handlers.py:124-146 | the handlers followed by the copies, and the template's consumed fields; the first heading error otherwise |
| ModelAdminHandlers.SetTranslationsHandlers | wagtail_modeladmin_parler/handlers.py:89-146 | the same for the template, auto-populated when missing or childless |
| ModelAdminHandlers.ExpandPlain | wagtail_modeladmin_parler/handlers.py:155-159 | without translations lists the base panels are kept in order |
| ModelAdminHandlers.LastList | wagtail_modeladmin_parler/handlers.py:155-157 | there is a last translations list exactly when some base tab is one |
| ModelAdminHandlers.PlainPanels | wagtail_modeladmin_parler/handlers.py:161-165 | the base panels, in order |
| ModelAdminHandlers.WrapperFirst | wagtail_modeladmin_parler/handlers.py:160-167 | without a translations list the wrapper tab comes first, followed by exactly one copy per locale |
| ModelAdminHandlers.GetEditHandler | wagtail_modeladmin_parler/handlers.py:148-173 | the tabs and displayed fields are the expected assembly, or the first heading error |
| Forms.FieldsForModel | wagtail_parler/forms.py:128 | the model's fields kept exactly when their name is requested |
| Forms.MetaOf | wagtail_parler/forms.py:113-118 | the given attributes and the model; `fields = "__all__"` only when neither `fields` nor `exclude` was given |
| Forms.LocaleAttrsKeys | wagtail_parler/forms.py:128-130 | one locale declares exactly its qualified name for each field |
| Forms.DeclaredKeys | wagtail_parler/forms.py:127-130 | the class declares exactly one attribute per (configured locale, field) |
| Forms.LocaleAttrsValue | wagtail_parler/forms.py:128-130 | a locale's attribute holds the field's last form field |
| Forms.DeclaredValue | wagtail_parler/forms.py:127-130 | with underscore-free codes each (locale, field) attribute holds that field's form field |
| Forms.DeclareLocale | wagtail_parler/forms.py:128-130 | the inner loop adds the locale's attributes and the field names |
| Forms.BuildTranslationsForm | wagtail_parler/forms.py:104-131 | the generated class has the expected Meta, the fields as `auto_parler_fields` (none without locales) and the declared attributes |
| Forms.LocalizedFieldNames | wagtail_parler/forms.py:45-54 | one pair per auto field, in order: the field and its qualified name |
| Forms.LocalizedFieldNamesParse | wagtail_parler/forms.py:52-54 | each generated name reads back as its locale and field |
| Forms.FillLocaleAt | wagtail_parler/forms.py:40-42 | one translation sets exactly the initials of the auto fields it has, to its values, and keeps the others |
| Forms.FillInitialsAt | wagtail_parler/forms.py:38-42 | after the loop each saved value of each translation is the initial of its qualified name |
| Forms.FillLocaleInitials | wagtail_parler/forms.py:40-42 | the inner loop fills one translation's initials |
| Forms.InitI18nInitials | wagtail_parler/forms.py:32-43 | nothing changes without a saved instance; otherwise every translation fills its initials |
| Forms.RelaxLocale | wagtail_parler/forms.py:28-30 | relaxing a locale keeps the set of fields |
| Forms.RelaxAll | wagtail_parler/forms.py:27-30 | relaxing the locales keeps the set of fields |
| Forms.RelaxLocaleAt | wagtail_parler/forms.py:28-30 | a field of the locale becomes optional with the suffix; any other field is kept |
| Forms.RelaxAllMiss | wagtail_parler/forms.py:27-30 | a field of none of the relaxed locales is kept |
| Forms.RelaxAllHit | wagtail_parler/forms.py:27-30 | with distinct underscore-free codes, each field of a relaxed locale is optional and suffixed exactly once with its uppercased code |
| Forms.RelaxLocaleFields | wagtail_parler/forms.py:28-30 | the inner loop relaxes one locale |
| Forms.RelaxOtherLocales | wagtail_parler/forms.py:26-30 | every locale after the first position is relaxed, in order (a code repeated later is relaxed there too) |
| Forms.RelaxFirstUntouched | wagtail_parler/forms.py:26-30 | the first locale's fields keep their required flag and label, when its code does not occur again and codes hold no underscore |
| Forms.GeneratedClassFitsForm | wagtail_parler/forms.py:21-131 | when the form's `auto_parler_fields` are the generated class's and its fields include the declared ones, every name the constructor fills and relaxes is a field of the form |
| Forms.LocaleBucket | wagtail_parler/forms.py:87-90 | the bucket of a locale is each auto field whose qualified name was cleaned, with the value unchanged |
| Forms.GroupByLocale | wagtail_parler/forms.py:85-90 | exactly one bucket per configured locale |
| Forms.BucketRoundTrip | wagtail_parler/forms.py:86-90 | what the initials write for one translation, `clean()` groups back into that translation's values |
| Forms.SaveLocaleOutcome | wagtail_parler/forms.py:66-79 | missing or all-falsy data deletes the translation (count 1 or 0); otherwise the data is written and `created` is true exactly when no translation existed; other locales are untouched |
| Forms.ApplySavesOther | wagtail_parler/forms.py:98-101 | `save()` leaves unconfigured locales alone |
| Forms.ApplySavesEmpty | wagtail_parler/forms.py:99-100 | after `save()` a configured locale without data has no translation |
| Forms.ApplySavesWritten | wagtail_parler/forms.py:99-100 | after `save()` a configured locale with data has its previous record updated with the bucket |
| Forms.AutoParlerModelForm.constructor | wagtail_parler/forms.py:21-30 | the initials are filled, and every field of every locale but the first is optional and suffixed |
| Forms.AutoParlerModelForm.Clean | wagtail_parler/forms.py:81-91 | one bucket per configured locale, each the locale's cleaned auto fields |
| Forms.AutoParlerModelForm.SaveLocale | wagtail_parler/forms.py:56-79 | the result and the translations afterwards are the expected outcome |
| Forms.AutoParlerModelForm.Save | wagtail_parler/forms.py:93-101 | after the parent save, each configured locale is saved in order |
| Columns.LanguageEntry | wagtail_parler/admin/columns.py:25-31 | the entry has the configuration's keys plus `current`, `untranslated` and `label`; the computed values override the configured ones |
| Columns.AssignedKeys | wagtail_parler/admin/columns.py:24-33 | the keys are the assigned keys, each once, and exactly them in order when distinct |
| Columns.AssignedValue | wagtail_parler/admin/columns.py:33 | a key's value is the one of its last assignment |
| Columns.Entries | wagtail_parler/admin/columns.py:24-32 | one (code, entry) pair per configured locale, in order |
| Columns.LanguagesShape | wagtail_parler/admin/columns.py:19-34 | the keys are the configured codes, in configuration order, and each code's entry comes from its last configuration |
| Columns.GetValue | wagtail_parler/admin/columns.py:19-34 | the loop builds the dictionary of entries, assigned in configuration order |
| Translatable.OuterDataNeverAllFalsy | wagtail_parler/models.py:51 | the test on the outer `data` can never hold while the loop runs |
| Translatable.EmptyLocalesAreFalsyOnes | wagtail_parler/models.py:49-54 | the empty locales are exactly the serialized locales with falsy data |
| Translatable.TranslatableModel.SerializableTranslatedData | wagtail_parler/models.py:64-80 | `{}` without parler meta; otherwise the single key `root_rel_name` holding one entry per saved locale with its fields |
| Translatable.TranslatableModel.FromSerializableTranslatedData | wagtail_parler/models.py:34-62 | nothing without parler meta; otherwise the cache is the prefetch, first loop and refill applied in turn; `adding` is restored when the refill completes and stays forced true when it raises |
| Translatable.TranslatableModel.PrefetchTranslations | wagtail_parler/models.py:43-45 | the cache after `get_translation` for each saved locale |
| Translatable.PrefetchedEntries | wagtail_parler/models.py:43-45 | afterwards every saved locale is cached: earlier entries are kept, and the other saved locales hold their saved translation |
| Translatable.TranslatableModel.EvictAndSetFields | wagtail_parler/models.py:49-54 | the empty locales are collected in order; each serialized locale is popped, and each non-empty one's fields are set on the translation `_set_translated_fields` writes, which is left in the cache |
| Translatable.FirstLoopKeeps | wagtail_parler/models.py:49-54 | for self-keyed data, the first loop leaves every locale outside the serialized ones as it was |
| Translatable.FirstLoopEvicts | wagtail_parler/models.py:50-52 | for self-keyed data, an empty serialized locale is no longer cached |
| Translatable.FirstLoopWrites | wagtail_parler/models.py:50-54 | for self-keyed data, a non-empty serialized locale holds its translation, read from the database or created, with the serialized fields set |
| Translatable.TranslatableModel.RefillEmptyLocales | wagtail_parler/models.py:55-62 | each empty locale gets its fallback entry with `adding` forced true; the first locale without one raises, leaving `adding` true; otherwise `adding` ends as it began |
| Translatable.FallbackEntrySource | wagtail_parler/models.py:61 | the fallback lookup finds an entry exactly when the locale or one of its fallback languages is cached, and the entry is that cached translation |
| Translatable.RefillEntries | wagtail_parler/models.py:58-61 | the refill touches only the empty locales, keeps cached translations cached, and after a complete refill every empty locale holds a cached translation |
| Translatable.RefillSucceeds | wagtail_parler/models.py:58-61 | the refill does not raise when every empty locale has its own or a fallback language's cached translation |
| Translatable.CacheAfterDeserialization | wagtail_parler/models.py:43-62 | for self-keyed data: other locales hold what the prefetch left; non-empty serialized locales hold their rewritten translation; after a complete refill, the falsy ones hold a cached fallback translation |
| Translatable.SerializedRoundTrip | wagtail_parler/models.py:64-80 | serializing then reading back marks for refill exactly the saved translations without fields |

## Left out

- The Django settings are parameters: `PARLER_LANGUAGES[None]` is `locales`, `LANGUAGES` is `languages`, and `HEADINGS_CONF` is `hcs` or `ParlerSettings`. They are not read at call time.
- The model-admin package's own settings module (`wagtail_modeladmin_parler.settings`) is not part of this model. Its `HEADINGS_CONF` is taken to have the same shape and is passed in.
- `wagtail_modeladmin_parler/forms.py` is not part of this model. The model-admin `GetEditHandler` returns the displayed fields the form is built from, not the form class.
- ORM calls are abstract, and `transaction.atomic` is not modelled:
  - `has_translation` is a set of locale codes;
  - saved translations are a map from locale to field values;
  - `delete_translation` and `save_translation` are changes to that map.
- `fields_for_model` of the translation model is a list parameter of (name, form field) pairs.
- The generated form class is a value. The Python `type(...)` class construction and the Django form machinery behind `super().__init__`, `super().clean()` and `super().save()` are not modelled.
- The Python `set` iteration order of `auto_parler_fields` is a parameter.
- Wagtail panel objects are values:
  - `deepcopy` of a template is a copy of that value;
  - only `TranslationsList` of the current package is an object with identity.
- Model-admin copies and their in-place heading assignment are computed as values. The model-admin `TranslationsList` has no behaviour of its own. The model does not capture aliasing between its panels.
- `get_bound_panel` (wagtail_parler/handlers.py:82-86) is not modelled. It is Wagtail binding around `_set_parler_heading`, and `SetParlerHeading` covers that call with an instance.
- `ParlerSnippetAdminMixin.get_edit_handler` (wagtail_parler/handlers.py:246-247) is left out. It only adds Wagtail's `bind_to_model`.
- The `formfield_callback` computed at wagtail_parler/handlers.py:167-173 is left out, because it is never passed on.
- The view plumbing of the model-admin package (wagtail_modeladmin_parler/handlers.py:24-41,175-193) is left out. It builds view classes at run time.
- The `serializable_data` and `from_serializable_data` wrappers (wagtail_parler/models.py:10-31) are left out. They are try/except fallbacks into modelcluster.
- Exceptions become an error result:
  - a heading that cannot be computed (StopIteration, KeyError, a bad `%` template) is returned as `err`;
  - the operation stops there, where the source raises out of `get_edit_handler`.
- PercentFormat.Format: only `%(key)s` is substituted. `%%`, other conversions and format specs are reported as errors instead of being formatted as Python would. A key holding balanced parentheses, such as `%(a(b)c)s`, ends at its first `)` here, so the model looks up `a(b` and then rejects the `c` as a conversion. Python reads the key `a(b)c`.
- Common.Upper: upper-cases ASCII letters only. Locale codes are ASCII.
- Translatable.TranslatableModel.FromSerializableTranslatedData: django-parler's own code is not part of this model. Its cache behaviour is modelled as follows:
  - `get_translation` keeps a cached entry, including a missing-marker on which parler raises;
  - `_set_translated_fields` writes to the locale named by the data's `language_code`, else to the instance's current language (the `current` parameter). It does not model parler's field validation or the defaults of a newly created translation;
  - the fallback lookup with `adding` forced true reads the cache only: the locale's own entry, then its fallback languages (the `fallbacks` parameter). A failed lookup is the raised `TranslationDoesNotExist`;
  - the dict order of the serialized translations is the `order` parameter.
- CacheAfterDeserialization: states the final cache only for self-keyed data, where each non-empty serialized translation names its own locale. For other data the cache is given by the method's contract through `FirstLoop`, which depends on the order of the calls.
- Locale configuration values, headings and labels are strings. Lazy translation (`gettext_lazy`) of "Untranslated data" is not modelled.
