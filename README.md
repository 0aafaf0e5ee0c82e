# Preservica mass modification: the metadata reconciliation engine

A Dafny model of `PreservicaMassMod` in `preservica_modify/pres_modify.py`. The
tool reads a change set (a spreadsheet with one row per entity reference) and
reconciles a Preservica repository with it. For every reference it:

- sets the retention policy of an asset;
- sets the XIP fields (title, description, security tag);
- sets the identifiers;
- for every XML template in the metadata directory, fills a copy of the
  template from the row and merges it into the entity's descriptive metadata
  in the template's namespace;
- for a folder, propagates selected changes to its descendants under the
  `descendants` options.

The model has ten modules, one file each:

- `base.dfy` (module `Base`): `Option`/`Result`, and the Python string operations the engine uses (`in`, `endswith`, `lower`, `rsplit(':')[-1]`, `replace`)
- `cells.dfy` (module `Cells`): spreadsheet cells (`Missing` = NaN/NaT, strings, other scalars, timestamps), Python truthiness, the `nan`/`nat` sentinel, `.item()`, and the failures that abort a run
- `xml.dfy` (module `Xml`): element trees `Node(tag, text, children)`, addresses, document order (`findall('.//')`) and lxml's structural `getelementpath`
- `merge.dfy` (module `TreeMerge`): `xml_merge` as a function on trees, with its additivity, text and tag rules proved
- `templates.dfy` (module `Templates`): the template index: flat names, rewritten paths, column matching, the directory loop, and the exact-mode path round trip
- `fragments.dfy` (module `Fragments`): fragment generation from one row: lookups, skipped cells, and what is written where
- `catalog.dfy` (module `Remote`): the repository as records plus a log of mutating calls (`Catalog` class)
- `reconcile.dfy` (module `Reconcile`): `xip_update`, `ident_update`, `retention_update` and `xml_update` as plans of calls, with their properties
- `propagate.dfy` (module `Propagate`): one pass of `main` over a reference: templates, descendants, option masks, and the carried title/description/security
- `massmod.dfy` (module `Engine`): the `PreservicaMassMod` object as a class with the source's fields, and its methods as loops. Each method is proved to compute what the functions of the other modules describe

The engine's methods mutate the object and the API state step by step, so
they are imperative methods of the class `Engine.MassMod` with `modifies`
clauses. Each method's `ensures` ties its result and new state to a
specification function, for example:

- `XipUpdate` to `XipValues`/`XipCalls`;
- `IdentUpdate` to `IdentPlan`;
- `ProcessReference` to `ProcessRef`.

The properties are proved as lemmas about those functions. The repository
behind the API is `Remote.Catalog`. Every call changes one record
(`Remote.Perform`) and is appended to a log, so "which calls happen" is part
of every statement.

How the code differs from the documented behaviour. The model follows the code here; the one place where it does not is the `xml_add` abort under Findings:

- The documentation promises idempotence: a second run with the same row
  makes no mutating calls. The code does not do that:
  - `save` runs whenever a value is truthy (`Reconcile.XipCalls`), dry run or not;
  - a present identifier value is written again on every run;
  - a matching retention policy is removed and added again.
- The documentation says only changed attributes trigger a persist call. The
  code persists whenever any of the three values is truthy, changed or not.
- Blank-override deletes an identifier by writing the string `False` into it.
  The description's blank-override branch cannot be reached.

## Model

| member | source | states |
|---|---|---|
| `Cells.BlankCells` | preservica_modify/pres_modify.py:195-196 | a cell reads as blank exactly when its `str` spells `nan` or `nat` in any mix of letter case; a missing cell always does, the empty string never |
| `Templates.Entries` | preservica_modify/pres_modify.py:287-294 | one entry per element below the root, as many as `findall('.//')` yields |
| `Templates.Select` | preservica_modify/pres_modify.py:299-302 | an entry is kept iff it is in the input and its flat name or its rewritten path is a column header |
| `Templates.TemplatesOnly` | preservica_modify/pres_modify.py:274-304 | for a directory of parseable templates, the index is exactly the templates with at least one match, each scanned once, in directory order |
| `Templates.IndexEntriesMapped` | preservica_modify/pres_modify.py:299-304 | for any directory, every indexed template has an entry, every entry is mapped, and every entry comes from an element of that template |
| `Templates.FirstNotTemplate` | preservica_modify/pres_modify.py:303-304 | a directory whose first entry's name does not end in `xml` fails, because `list_xml` is read before any template was scanned |
| `Templates.StaleTemplateRepeated` | preservica_modify/pres_modify.py:276-304 | a non-XML entry after a matched template appends that template to the index a second time |
| `Templates.ExactRoundTrip` | preservica_modify/pres_modify.py:346-347 | the exact-mode lookup path rebuilt from an entry (the rewrite at line 293 reversed) is the element's own path, when the path stays in one namespace and the root's local name has no `:` |
| `Templates.FlatQueryIsTag` | preservica_modify/pres_modify.py:349-350 | for a namespaced element without `:` in its local name, the flat-mode query is the element's own `{ns}local` tag |
| `Fragments.Find` | preservica_modify/pres_modify.py:347-350 | a lookup returns the first element below the root, in document order, whose path (or tag) is the query, and returns nothing only when no element has it |
| `Fragments.FindSameShape` | preservica_modify/pres_modify.py:315-351 | writing texts never changes what later lookups find |
| `Fragments.FillShape` | preservica_modify/pres_modify.py:315-351 | generation only changes texts: the fragment has the template's shape |
| `Fragments.FillSucceeds` | preservica_modify/pres_modify.py:319-351 | generation succeeds iff every entry's column exists and every entry with a value to write finds its element |
| `Fragments.FillKeepsUnwritten` | preservica_modify/pres_modify.py:324-344 | an element that no entry writes keeps the template's text (unmapped elements, and null or `nan`/`nat` cells) |
| `Fragments.FillLastWriteWins` | preservica_modify/pres_modify.py:351 | the last entry that writes an element decides its text, `str` of that entry's cell |
| `Fragments.ExactLookupFinds` | preservica_modify/pres_modify.py:345-347 | in exact mode an entry whose path stays in one namespace finds an element with that element path |
| `Fragments.FlatLookupFinds` | preservica_modify/pres_modify.py:348-350 | in flat mode an entry of a namespaced element finds the first element in document order with its `{ns}local` tag |
| `Fragments.FindLocates` | preservica_modify/pres_modify.py:347-350 | an element whose key is the query is always found |
| `Fragments.GenerateResult` | preservica_modify/pres_modify.py:312-356 | a generation that runs leaves a fragment of the template's shape; one that does not run leaves `self.xml_new` as it was |
| `Fragments.FlatNoNamespaceFails` | preservica_modify/pres_modify.py:349-351 | a template element without a namespace is not found in flat mode: the query reads `{None}title` and generation fails |
| `TreeMerge.FindTag` | preservica_modify/pres_modify.py:98 | `find('./' + tag)`: the first child with that tag, or none |
| `TreeMerge.MergeChild` | preservica_modify/pres_modify.py:120-121 | recursion into a child happens only when the source child has children; tag and text are untouched by it |
| `TreeMerge.Updated` | preservica_modify/pres_modify.py:99-112 | a matched child keeps its tag and gets the merged text |
| `TreeMerge.Created` | preservica_modify/pres_modify.py:113-119 | an appended child has the source tag and the source text, or no text when that is empty |
| `TreeMerge.MergeEmbeds` | preservica_modify/pres_modify.py:96-122 | no target element is removed or moved at any depth, and the root keeps its text |
| `TreeMerge.MergeGrows` | preservica_modify/pres_modify.py:96-122 | the merged tree has at least as many elements as the target |
| `TreeMerge.MergeLeavesUnmatched` | preservica_modify/pres_modify.py:97-98 | a target child that no source child names, or that is not the first with its tag, comes out unchanged |
| `TreeMerge.MergeMatchedChild` | preservica_modify/pres_modify.py:99-112 | for a source child whose tag no other source sibling has: non-empty source text wins; otherwise the text is kept, except that blank-override clears it for a tag in `xnames`; an empty target with empty source text stays empty |
| `TreeMerge.MergeAppendsMissing` | preservica_modify/pres_modify.py:113-119 | a source child whose tag the target lacks, and no other source sibling has, is appended after all target children, with its text and merged subtree |
| `TreeMerge.MergeRepeatedMatched` | preservica_modify/pres_modify.py:97-112 | for any source, repeated tags included: the first target child with a tag stays first and ends as every same-tagged source child merged into it in source order (`Folded`), its text the `MergedText` steps in that order (`FoldText`) |
| `TreeMerge.MergeRepeatedMissing` | preservica_modify/pres_modify.py:97-119 | for any source, repeated tags included: a tag the target lacks gets exactly one child, after all target children, created from the first source child with it, every later one merged into it in order |
| `TreeMerge.FoldTextKept` | preservica_modify/pres_modify.py:101-112 | later same-tagged source children without text leave the text alone unless blank-override applies to the tag |
| `TreeMerge.FoldTextLastWins` | preservica_modify/pres_modify.py:101-112 | with repeated tags, the last same-tagged source child with text decides the text, unless a later one clears it under blank-override |
| `TreeMerge.FoldTextCleared` | preservica_modify/pres_modify.py:101-105 | under blank-override for a tag in `xnames`, a last same-tagged source child without text leaves the child with no text |
| `TreeMerge.TwoTitlesCollapse` | preservica_modify/pres_modify.py:97-119 | two `title` children merged into a `dc` root without one give a single appended `title` holding the second text |
| `TreeMerge.MergeTags` | preservica_modify/pres_modify.py:97-119 | after the merge the root's tags are the target's and the source's, with exactly one new child per new tag |
| `TreeMerge.MergeIntoEmpty` | preservica_modify/pres_modify.py:113-121 | merging a fragment with distinct sibling tags into an empty target reproduces the fragment |
| `Remote.SetIdentifier` | preservica_modify/pres_modify.py:158-165 | `update_identifiers` sets every identifier of the type and keeps the rest |
| `Remote.ExecOthers` | preservica_modify/pres_modify.py:229 | calls naming one entity leave every other record as it was |
| `Reconcile.Keep` | preservica_modify/pres_modify.py:181-186 | an override is used only when it is truthy |
| `Reconcile.ReadField` | preservica_modify/pres_modify.py:193-198 | a present column fails unless one row is selected; a value read is that row's cell and not blank |
| `Reconcile.ReadDescription` | preservica_modify/pres_modify.py:199-204 | the blank-override branch is dead: the description reads like any other field |
| `Reconcile.XipCalls` | preservica_modify/pres_modify.py:228-229 | one `save` iff any value is truthy, dry run or not, carrying the unchanged fields in a dry run |
| `Reconcile.XipOverridesWin` | preservica_modify/pres_modify.py:181-187 | a truthy override wins and the row is not consulted at all |
| `Reconcile.XipReadsRow` | preservica_modify/pres_modify.py:187-212 | without a truthy override a field is set only from a present column whose cell is not `nan`/`nat` |
| `Reconcile.XipWithoutOneRow` | preservica_modify/pres_modify.py:188-212 | with no row selected nothing is read or saved; with several rows the first present column fails |
| `Reconcile.XipEffect` | preservica_modify/pres_modify.py:213-230 | what the server holds after `xip_update`: each truthy value (or the old fields in a dry run), nothing else changed |
| `Reconcile.KeyNameQualified` | preservica_modify/pres_modify.py:133-134 | a column `…Identifier:key` writes type `key`, whatever the override |
| `Reconcile.KeyNameDefaults` | preservica_modify/pres_modify.py:135-143 | every column without `Identifier:` writes the override when one is given; otherwise `code` for an `Archive_Reference` column, else `accref` for an `Accession_Reference` column, else `code`, tested in that order |
| `Reconcile.Action` | preservica_modify/pres_modify.py:146-150 | a cell is a deletion iff blank under blank-override, and a new value iff not blank and truthy |
| `Reconcile.IdentPutLands` | preservica_modify/pres_modify.py:159-170 | a present value afterwards holds in every identifier of its type (update or add) and other types are unchanged; the empty type of a column ending in `Identifier:` is never found, so `("", v)` is added again on every run; nothing but the identifiers changes |
| `Reconcile.IdentDeleteMarks` | preservica_modify/pres_modify.py:152-158 | a blank cell under blank-override acts only on an existing type, and then writes `False` |
| `Reconcile.IdentFromCalls` | preservica_modify/pres_modify.py:130-170 | every call of the column loop is an identifier call on the entity; none in a dry run |
| `Reconcile.IdentPlanCalls` | preservica_modify/pres_modify.py:125-174 | no calls unless exactly one row is selected; with one row it never fails, with several iff some column is an identifier column |
| `Reconcile.Matching` | preservica_modify/pres_modify.py:255 | a policy matches iff the cell is a string equal to its name |
| `Reconcile.ExecRemovals` | preservica_modify/pres_modify.py:246-250 | the removals drop exactly those assignments and change nothing else |
| `Reconcile.RetentionReplaces` | preservica_modify/pres_modify.py:255-269 | a name matching one policy leaves that policy as the only assignment |
| `Reconcile.RetentionClears` | preservica_modify/pres_modify.py:243-250 | a blank cell under blank-override removes every assignment |
| `Reconcile.RetentionNoChange` | preservica_modify/pres_modify.py:235-272 | when it fails, and exactly when it makes no call: dry run, no column, blank without override, or no unique match |
| `Reconcile.MetadataPlan` | preservica_modify/pres_modify.py:358-377 | without a fragment it fails; otherwise at most one add or update call on the entity |
| `Reconcile.MetadataUploads` | preservica_modify/pres_modify.py:359-377 | the entity then holds the fragment or the merge of it, which keeps every existing element and has every top-level tag of the fragment |
| `Reconcile.MetadataDryRun` | preservica_modify/pres_modify.py:362-375 | a dry run uploads nothing |
| `Reconcile.MetadataPlanAsWritten` | preservica_modify/pres_modify.py:367-371 | `xml_update` as written fails whenever `xml_add` would create a top-level child with no parent |
| `Reconcile.AsWrittenAgrees` | preservica_modify/pres_modify.py:367-371 | the as-written update agrees with the corrected one except where `xml_add` raises |
| `Reconcile.NewTopLevelFieldAborts` | preservica_modify/pres_modify.py:84-92 | a concrete document without `title` and a fragment with one: the merge appends it, the update as written aborts |
| `Propagate.OpsFor` | preservica_modify/pres_modify.py:416-440 | which reconcilers run on a descendant: its kind's option is required, folders never get retention, `include-all` counts for assets only |
| `Propagate.Mask` | preservica_modify/pres_modify.py:426-446 | a carried value survives only under its option (`include-all` too for an asset's description and security), and is never changed |
| `Propagate.IdentifierOptionMismatch` | preservica_modify/pres_modify.py:421 | the option spelled `include-identifier` propagates no identifiers |
| `Propagate.IncludeAllDropsTitle` | preservica_modify/pres_modify.py:427-432 | `include-all` without `include-title` drops the title and keeps the description |
| `Propagate.UnqualifiedNeverCleared` | preservica_modify/pres_modify.py:104 | blank-override never clears a field without a namespace: its index name `{None}local` is never the element's tag, so the `in self.xnames` test fails for it |
| `Propagate.RetentionStep` | preservica_modify/pres_modify.py:403 | retention changes no entity but its own |
| `Propagate.XipStep` | preservica_modify/pres_modify.py:404 | the XIP update changes no entity but its own |
| `Propagate.IdentStep` | preservica_modify/pres_modify.py:405 | the identifier update changes no entity but its own |
| `Propagate.XmlStep` | preservica_modify/pres_modify.py:410 | the metadata upload, by the corrected `xml_update`, changes no entity but its own |
| `Propagate.DescendantStep` | preservica_modify/pres_modify.py:413-448 | a descendant's step changes only that descendant, keeps the fragment, and leaves the carried triple as it was or masked |
| `Propagate.DescendantsFrom` | preservica_modify/pres_modify.py:413-448 | the descendant loop keeps the set of entities and the fragment |
| `Propagate.TemplateStep` | preservica_modify/pres_modify.py:406-448 | one template keeps the set of entities |
| `Propagate.TemplatesFrom` | preservica_modify/pres_modify.py:406-448 | the template loop keeps the set of entities |
| `Propagate.ProcessRef` | preservica_modify/pres_modify.py:401-448 | one reference never adds or removes an entity |
| `Propagate.DescendantSkipped` | preservica_modify/pres_modify.py:416-435 | a descendant whose kind's option is absent is left alone |
| `Propagate.MaskedFallsBackToRow` | preservica_modify/pres_modify.py:434 | a masked triple with nothing truthy makes the descendant read the root's row |
| `Propagate.CarriedOnlyNarrows` | preservica_modify/pres_modify.py:427-446 | along the descendant loop each carried field ends as it started or as None |
| `Propagate.DroppedStaysDropped` | preservica_modify/pres_modify.py:404-448 | a dropped carried field stays dropped across later descendants and templates |
| `Propagate.DescendantCalls` | preservica_modify/pres_modify.py:413-448 | an entity that is not among the descendants is not changed by the descendant loop |
| `Propagate.NoTemplateNoPropagation` | preservica_modify/pres_modify.py:406-413 | with no template indexed, only the reference itself changes, whatever the options |
| `Propagate.StaleFragmentReused` | preservica_modify/pres_modify.py:407-410 | with no row selected the fragment left over from earlier is kept and, outside a dry run, uploaded again or merged in |
| `Engine.Entity.Fetch` | preservica_modify/pres_modify.py:393-400 | a fetched entity has the record's kind and fields |
| `Engine.MassMod.constructor` | preservica_modify/pres_modify.py:36-42 | the settings as given, no flags, no policies, no templates, no fragment |
| `Engine.MassMod.SetInputFlags` | preservica_modify/pres_modify.py:64-76 | each flag is set iff its fixed column is a header |
| `Engine.MassMod.GetRetentions` | preservica_modify/pres_modify.py:78-80 | the policy list is the repository's, and nothing else changes |
| `Engine.MassMod.ElementsList` | preservica_modify/pres_modify.py:287-294 | the loop builds exactly `Templates.Entries` of the template |
| `Engine.MassMod.ListXml` | preservica_modify/pres_modify.py:299-302 | the loop builds exactly the mapped entries, in order |
| `Engine.MassMod.ScanTemplate` | preservica_modify/pres_modify.py:283-302 | the descriptor of one template is `Templates.Scan` of it |
| `Engine.MassMod.InitGenerateDescriptiveMetadata` | preservica_modify/pres_modify.py:274-304 | `self.xml_files` is `Templates.TemplateIndex` of the directory, or the method reports why that fails |
| `Engine.MassMod.GenerateDescriptiveMetadata` | preservica_modify/pres_modify.py:306-356 | `self.xml_new` becomes the fragment `Fragments.Generate` describes, or stays as it was with the failure reported |
| `Engine.MassMod.XmlMerge` | preservica_modify/pres_modify.py:96-122 | the loop with recursion computes `TreeMerge.Merge` under the object's blank-override and `xnames` |
| `Engine.MassMod.XipRead` | preservica_modify/pres_modify.py:178-212 | the values read are `Reconcile.XipValues` |
| `Engine.MassMod.XipUpdate` | preservica_modify/pres_modify.py:176-233 | the values are `XipValues`, the entity's fields are `Assigned`, and the server made `XipCalls` |
| `Engine.MassMod.IdentColumnStep` | preservica_modify/pres_modify.py:130-170 | one column of the loop: a non-identifier column changes nothing; an identifier column fails unless one row is selected, and otherwise makes the calls after which the rest of `Reconcile.IdentFrom` continues |
| `Engine.MassMod.IdentColumnUpdate` | preservica_modify/pres_modify.py:150-170 | one identifier column makes `Reconcile.IdentCalls` for the identifiers it reads |
| `Engine.MassMod.IdentUpdate` | preservica_modify/pres_modify.py:125-174 | the column loop makes exactly the calls of `Reconcile.IdentPlan` and reports its failure |
| `Engine.MassMod.RemoveAssignments` | preservica_modify/pres_modify.py:245-250 | one removal per assignment, in order, none in a dry run |
| `Engine.MassMod.RetentionUpdate` | preservica_modify/pres_modify.py:235-272 | the calls made are `Reconcile.RetentionPlan`, or the failure it names |
| `Engine.MassMod.XmlUpdate` | preservica_modify/pres_modify.py:358-377 | the calls made are the corrected `Reconcile.MetadataPlan`, or the failure it names |
| `Engine.MassMod.DescendantHead` | preservica_modify/pres_modify.py:419-439 | a descendant's metadata upload, then its identifiers, as the options say |
| `Engine.MassMod.DescendantTail` | preservica_modify/pres_modify.py:424-448 | a descendant's retention, then its XIP fields with the carried triple masked |
| `Engine.MassMod.ProcessDescendant` | preservica_modify/pres_modify.py:413-448 | one descendant leaves the server and the carried triple as `Propagate.DescendantStep` says |
| `Engine.MassMod.ProcessDescendants` | preservica_modify/pres_modify.py:411-448 | the descendant loop is `Propagate.DescendantsFrom`, stopping at the first failure |
| `Engine.MassMod.ProcessTemplate` | preservica_modify/pres_modify.py:406-448 | one template is `Propagate.TemplateStep`: fragment, `xnames`, upload, descendants |
| `Engine.MassMod.ProcessTemplates` | preservica_modify/pres_modify.py:406-448 | the template loop is `Propagate.TemplatesFrom` over `self.xml_files` in index order, stopping at the first failure |
| `Engine.MassMod.ProcessReference` | preservica_modify/pres_modify.py:391-448 | the body of `main`'s loop is `Propagate.ProcessRef` for that reference |

## Left out

- Logging in and the API clients (`login_preservica`, `ContentAPI`, `EntityAPI`, `RetentionAPI`): network clients, replaced by `Remote.Catalog`, a map of records plus a call log.
- The effect of pyPreservica's own calls is an abstract meaning (`Remote.Perform`); that library is not part of this model.
- `Remote.SetIdentifier`: `update_identifiers` is modelled as setting every identifier of that type. The lemmas state that every identifier of that type holds the value. That does not hold if pyPreservica updates only the first one and the type occurs more than once.
- Reading the spreadsheet with pandas and turning `date` columns into timestamps (lines 30-36): file I/O and library date parsing. A cell is a `Cells.Cell`, and a timestamp's formatted string is a given field of the cell.
- `os.scandir`, `ET.parse`, `os.path.join`, `ET.tostring`/`ET.fromstring` and the UTF-8 decoding: filesystem and XML library. Templates arrive as parsed trees (`DirEntry.content`), and metadata are trees on both sides.
- The ElementPath language: an exact-mode `find` is modelled as "the first element in document order whose structural element path equals the query". Queries with wildcards or predicates other than lxml's own `[n]` sibling indices are not modelled.
- The `IndexError` break in generation (lines 336-342): rows are selected before `.values[0]`, and the selection is non-empty there, so the model has no such case.
- A `metadata_flag` other than `e`/`exact`/`f`/`flat` (which would leave `val` unbound): `Fragments.Mode` has only the two lookup modes.
- `merge_add` is fixed to `"merge"` (line 39): the `"add"` branch of `xml_update` is not modelled. `xml_add`'s printed result is not modelled either. Its exception is modelled only by `Reconcile.MetadataPlanAsWritten` (see Findings).
- `print`, `time.sleep`, and the wrapping of exceptions into `SystemError`/`SystemExit`: an aborting exception is a `Cells.Failure` result that ends the run.
- `main`'s reference list, the `Document type` column (`SO`/`IO`) and the `asset`-then-`folder` fetch (lines 384-400): `Engine.MassMod.ProcessReference` takes the reference, its selected rows and its descendant list as parameters, and the entity's kind comes from its record.
- `all_descendants` is a parameter; the descendants are listed once per reference, not once per template.
- Tree updates in place: merge and generation are modelled on values. The source changes only fresh parsed copies, so no aliasing is lost.
- `str.lower()` folds only ASCII letters in `Base.Lower`. That is enough for the `nan`/`nat` test.
- preservica_modify/cli.py (argument parsing, the interactive prompt), preservica_modify/gui.py (a tkinter form) and preservica_modify/_init_.py (imports): no engine logic. The `include-identifier` spelling offered by cli.py is covered by `Propagate.IdentifierOptionMismatch`.
- `Engine.MassMod.XmlUpdate`: follows the corrected plan `Reconcile.MetadataPlan`. Where `Reconcile.AddRaises` holds, the source aborts at line 369 and the method uploads the merge instead. `Reconcile.AsWrittenAgrees` states where the two agree.
- `Propagate.XmlStep`: runs the corrected `Reconcile.MetadataPlan`. It does not abort where `Reconcile.AddRaises` holds, as the source does at line 369. So `Propagate.TemplateStep`, `Propagate.TemplatesFrom`, `Propagate.ProcessRef`, `Engine.MassMod.ProcessTemplate` and `Engine.MassMod.ProcessReference` go on with the upload, the descendants and later templates where the source ends the run.
- `Propagate.DescendantStep`: its metadata step is `Propagate.XmlStep`, so it follows the corrected `Reconcile.MetadataPlan`. Where `Reconcile.AddRaises` holds for a descendant, the source aborts at line 369 (reached from lines 420 and 437). This step instead uploads the merge and goes on to identifiers, retention and the title/description/security update.
- `Propagate.DescendantsFrom`: built from `Propagate.DescendantStep`, so it goes on to later descendants where the source ends the run at line 369.
- `Engine.MassMod.DescendantHead`: calls `Engine.MassMod.XmlUpdate` on the descendant, which uploads the merge where `Reconcile.AddRaises` holds. The source aborts there at line 369, before the identifier update.
- `Engine.MassMod.ProcessDescendant`: equals `Propagate.DescendantStep`, so it does not abort where the source does at line 369.
- `Engine.MassMod.ProcessDescendants`: equals `Propagate.DescendantsFrom`, so it goes on to later descendants where the source ends the run at line 369.
- `Engine.MassMod.ProcessTemplates`: equals `Propagate.TemplatesFrom`, so it goes on to the descendants and later templates where the source ends the run at line 369.
- `Engine.MassMod.InitGenerateDescriptiveMetadata`: on failure, the partly built `xml_files` is not described, because in the source the exception ends the program.

## Findings

| source | as written | input that shows it | evidently intended | confidence | as-written member | corrected member |
|---|---|---|---|---|---|---|
| preservica_modify/pres_modify.py:369 | In merge mode, after merging, `xml_update` also calls `xml_add(ET.fromstring(emeta), self.xml_new)` with no parent (`x_child=None`). When the first top-level child of the fragment has a tag the existing document lacks, `ET.SubElement(None, tag)` raises. Nothing catches it, so the run aborts before `update_metadata`, in a dry run as well. | an entity whose existing `{dc}dc` has no children, and a fragment `<dc><title>Minutes</title></dc>` | `xml_add`'s result is only printed; it should not affect the update, which uploads the merge (`title` appended) | not executed | `Reconcile.MetadataPlanAsWritten`, `Reconcile.NewTopLevelFieldAborts` | `Reconcile.MetadataPlan`, `Reconcile.MetadataUploads`, `Reconcile.AsWrittenAgrees` |
