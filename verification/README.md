# Elementor content runner — a Dafny model

This project models the Elementor content runner of the Templately importer
(`ElementorContent`): the step of a template-package import that decides
whether it applies to a package, installs the package's global kit settings
(with the user's colour and logo choices applied) as a new active Elementor
kit, makes sure some active kit exists, and then imports every content entry
of every recognised post type, recording each as succeeded or failed and
broadcasting a progress percentage after each one.

Modules, one file each:

- `Basics` (basics.dfy): `Option` and `Result`.
- `OrderedMaps` (ordered_maps.dfy): PHP arrays used as dictionaries, as
  insertion-ordered sequences of string-keyed pairs; `Put` is PHP assignment
  `$m[$k] = $v` (an existing key keeps its place, a new key is appended) and
  `Get` is reading `$m[$k]`.
- `PhpValues` (php_values.dfy): PHP's loosely typed values, `empty()` and
  truthiness (`"0"`, `0`, `""`, `false`, `null` and `[]` are empty), and
  reading a possibly missing key (`null`).
- `KitSettings` (kit_settings.dfy): the kit settings template, the colour
  override by `_id` and the three-way site-logo rule.
- `Kits` (kits.dfy): the site state the runner touches — kit documents, the
  active-kit option, the write-once backup option — and the kits manager's
  operations on it.
- `EntryImport` (entry_import.dfy): importing one entry
  (`import_post_type_content`).
- `ImportLoop` (import_loop.dfy): the nested loop over post types and
  entries, its results and its progress values.
- `ElementorContent` (elementor_content.dfy): `should_run`, one whole
  `import` run, sequences of runs on one site, and a worked example.

Collaborators the runner cannot see are parameters: the settings file's
contents (`Env.settingsFile`, `None` when reading it throws), the logo
uploader (`Env.upload`), WordPress's post-type registry
(`Host.postTypeExists`) and, per post type and entry id, what the document
factory, the entry's payload file and the document's own import do
(`Host.entry`). Exceptions become values: an `Exception` inside one entry's
import yields `false` for that entry, and a settings file that cannot be read
makes the whole run end in `Failure(SettingsUnreadable)`.

Three behaviours of the code are worth knowing:

- A failed entry is recorded with the falsy value its import returned: `false`
  for an exception, but `0`, `null` or `""` when `get_main_id` returns one of
  those (line 182 returns it verbatim).
- `$total` counts the entries of every post type, recognised or not, while
  only entries of recognised post types advance the counter; so the last
  progress value is 100 exactly when every post type that has entries is
  recognised (`ImportLoop.ProcessedAll`, `ElementorContent.Import`).
- The backup option is written before the settings file is read, so a run
  whose settings file cannot be read still leaves the backup behind.

## Model

| member | source | states |
|---|---|---|
| ElementorContent.ShouldRun | plugins/templately/includes/Core/Importer/Runners/ElementorContent.php:18-20 | `!empty()` of the decoded `content` array is read as "holds at least one post type", so the runner applies exactly when `platform` is strictly the string `elementor` and `content` has a post type |
| ElementorContent.GateMatchesWork | plugins/templately/includes/Core/Importer/Runners/ElementorContent.php:18-20 | for an Elementor package whose post types are all recognised and non-empty, the gate admits it exactly when a successful run emits progress, i.e. imports something |
| KitSettings.OverrideColor | plugins/templately/includes/Core/Importer/Runners/ElementorContent.php:70 | a colour entry takes the override stored under its `_id` when that override is set, and keeps its own colour otherwise; its `_id` and other fields are unchanged |
| KitSettings.OverrideColors | plugins/templately/includes/Core/Importer/Runners/ElementorContent.php:68-77 | a colour list keeps its length, order, ids and other fields; each entry's colour is the override for its `_id` when set, else its own |
| KitSettings.DecideLogo | plugins/templately/includes/Core/Importer/Runners/ElementorContent.php:80-93 | an override with an id wins verbatim; an override without an id keeps an old logo that has an id, with no upload; otherwise the upload result is used if it has an id, else the old logo; no override leaves `site_logo` as it was; an upload happens exactly in the third case; with a non-empty logo selection, a truthy id in the selection, the old logo or the upload is never lost |
| KitSettings.BuildSettings | plugins/templately/includes/Core/Importer/Runners/ElementorContent.php:67-93 | the built settings differ from the template only in colours (only when colour selections are non-empty, only where an override is set) and in `site_logo` (by the logo rule); every other setting is untouched |
| Kits.BackupActiveKit | plugins/templately/includes/Core/Importer/Runners/ElementorContent.php:60-62 | an absent backup becomes the active kit id; an existing backup is kept; kits and the active option are untouched |
| Kits.CreateNewKit | plugins/templately/includes/Core/Importer/Runners/ElementorContent.php:96 | the new kit gets the next post id, holds the given title and settings and becomes active; the kits are exactly the old ones plus the new one, no other kit or the backup changes, and the next post id advances by one |
| Kits.InstallPackageKit | plugins/templately/includes/Core/Importer/Runners/ElementorContent.php:96-108 | afterwards the active kit is a new kit titled `name + " Kit"` holding the built settings; the kits are exactly the old ones plus that one; the backup is unchanged, and on a valid site so is every earlier kit |
| Kits.CreateDefaultKit | plugins/templately/includes/Core/Importer/Runners/ElementorContent.php:116 | a default kit is added under the next post id, the kits being exactly the old ones plus it, without changing the active option, the backup or any other kit |
| Kits.EnsureActiveKit | plugins/templately/includes/Core/Importer/Runners/ElementorContent.php:112-118 | afterwards an active kit exists; a site that had one is unchanged; otherwise the new active kit is a default kit and the kits are exactly the old ones plus it; on a valid site earlier kits are kept |
| Kits.KitId | plugins/templately/includes/Core/Importer/Runners/ElementorContent.php:113-115 | `get_id()` of the kit `get_kit` returns is either 0 (the placeholder) or the id itself, and then the id names a kit; on a valid site it is non-zero exactly when the id names a kit |
| Kits.HasActiveKit | plugins/templately/includes/Core/Importer/Runners/ElementorContent.php:112-115 | the active kit's id is truthy only when the active-kit option names an existing kit, and on a valid site exactly then |
| Kits.ActiveLogo | plugins/templately/includes/Core/Importer/Runners/ElementorContent.php:54-56 | the old logo is the active kit's `site_logo`; the placeholder kit and an active kit without `site_logo` yield the empty array; a logo with an id can only come from an existing active kit |
| EntryImport.PreparePayload | plugins/templately/includes/Core/Importer/Runners/ElementorContent.php:164-178 | the payload gains `import_settings` = the entry settings; `content` becomes `[]` exactly when the entry's `data` is non-empty and is otherwise as read; every other key is unchanged, existing keys keep their order and new keys are appended |
| EntryImport.ImportPostTypeContent | plugins/templately/includes/Core/Importer/Runners/ElementorContent.php:153-186 | the document is requested with the entry's `doc_type` and `title`, status `publish` and the post type; any exception yields `false`; when nothing throws the result is the main id verbatim, truthy or not; the result is truthy exactly when nothing threw and the main id is truthy |
| ImportLoop.Total | plugins/templately/includes/Core/Importer/Runners/ElementorContent.php:121-123 | `$total`, the number of entries under all post types; its contract is stated by `ImportLoop.TotalZero` |
| ImportLoop.TotalZero | plugins/templately/includes/Core/Importer/Runners/ElementorContent.php:121-123 | `$total` is 0 exactly when no post type has an entry |
| ImportLoop.ProcessedCount | plugins/templately/includes/Core/Importer/Runners/ElementorContent.php:121-130 | the entries the loop processes never outnumber `$total` |
| ImportLoop.ImportEntries | plugins/templately/includes/Core/Importer/Runners/ElementorContent.php:130-144 | the inner loop; its contract is stated by `ImportLoop.EntriesProgress` and `ImportLoop.EntriesPartition` |
| ImportLoop.ImportTypes | plugins/templately/includes/Core/Importer/Runners/ElementorContent.php:125-145 | the outer loop; its contract is stated by `ImportLoop.TypesProgress` and `ImportLoop.TypesPartition` |
| ImportLoop.Percent | plugins/templately/includes/Core/Importer/Runners/ElementorContent.php:142 | the progress value is the floor of `100 * processed / total`, characterised by `p * total <= 100 * processed < (p + 1) * total` |
| ImportLoop.EntriesProgress | plugins/templately/includes/Core/Importer/Runners/ElementorContent.php:130-144 | the inner loop emits one progress value per entry, each the percentage of entries processed so far |
| ImportLoop.TypesProgress | plugins/templately/includes/Core/Importer/Runners/ElementorContent.php:120-145 | the whole loop emits one value per entry of a recognised post type, the k-th being `floor(100 * k / total)` |
| ImportLoop.ProgressShape | plugins/templately/includes/Core/Importer/Runners/ElementorContent.php:141-143 | progress values stay within 0..100, never decrease, and the last is 100 exactly when all `total` entries were processed |
| ImportLoop.ProcessedAll | plugins/templately/includes/Core/Importer/Runners/ElementorContent.php:121-128 | every entry counted in `$total` is processed exactly when every post type that has entries is recognised |
| ImportLoop.EntriesPartition | plugins/templately/includes/Core/Importer/Runners/ElementorContent.php:130-138 | each entry of a post type is recorded exactly once with its import value: under `succeed` when truthy, under `failed` when falsy; nothing else is recorded |
| ImportLoop.TypesPartition | plugins/templately/includes/Core/Importer/Runners/ElementorContent.php:125-139 | every results entry is a post type of the manifest and none appears twice; a manifest post type has a results entry exactly when it is recognised and has entries, and that entry partitions its entries into succeeded and failed ones |
| ImportLoop.TypesResultMembership | plugins/templately/includes/Core/Importer/Runners/ElementorContent.php:125-139 | among the manifest's post types, those present in the results are exactly the recognised ones with at least one entry |
| ImportLoop.TypesResultWithin | plugins/templately/includes/Core/Importer/Runners/ElementorContent.php:125-139 | every post type in the loop's results is one of the manifest's, so together with `ImportLoop.TypesResultMembership` the results hold exactly the recognised post types with entries |
| ImportLoop.TypesResultUnique | plugins/templately/includes/Core/Importer/Runners/ElementorContent.php:125-139 | no post type appears twice in the results |
| ImportLoop.TypesResultValues | plugins/templately/includes/Core/Importer/Runners/ElementorContent.php:125-139 | the results entry of a post type is what its inner loop recorded for its entries |
| ImportLoop.EntriesResultIndependent | plugins/templately/includes/Core/Importer/Runners/ElementorContent.php:130-138 | what the inner loop records does not depend on the progress counters |
| ElementorContent.ImportContent | plugins/templately/includes/Core/Importer/Runners/ElementorContent.php:112-147 | after the active-kit check an active kit exists (when none was active, exactly one default kit is added and made active, and on a valid site no other kit changes) and the loop's progress has the stated shape; the run succeeds |
| ElementorContent.Import | plugins/templately/includes/Core/Importer/Runners/ElementorContent.php:52-147 | of the failures the model covers, the run fails exactly when settings are requested and the settings file cannot be read, and a failed run leaves the kits, the active kit and the next post id as they were; a successful run adds at most the one new active kit and, on a valid site, changes no existing kit; the backup is written exactly when settings are requested and it is absent; on success an active kit exists, and with settings it is a new kit `name + " Kit"` holding the built settings; the logo uploader is called exactly in the logo rule's upload case; progress values are one per processed entry, bounded, non-decreasing, absent when `$total` is 0, and end at 100 exactly when every post type with entries is recognised |
| ElementorContent.RunPartition | plugins/templately/includes/Core/Importer/Runners/ElementorContent.php:125-147 | the returned `content` holds only the manifest's post types, each at most once; a manifest post type is present exactly when it is recognised and has entries, and its entry partitions its entries into succeeded and failed |
| ElementorContent.BackupUntouched | plugins/templately/includes/Core/Importer/Runners/ElementorContent.php:58-62 | runs without `has_settings` never touch the backup option |
| ElementorContent.BackupStable | plugins/templately/includes/Core/Importer/Runners/ElementorContent.php:60-62 | once written, the backup option never changes, whatever runs follow |
| ElementorContent.BackupKeepsFirst | plugins/templately/includes/Core/Importer/Runners/ElementorContent.php:58-62 | starting with no backup, after any sequence of runs the backup holds the kit that was active when the first run with `has_settings` began |
| ElementorContent.ExampleSinglePage | plugins/templately/includes/Core/Importer/Runners/ElementorContent.php:125-147 | a one-page package whose page imports as document 42 returns that page under `succeed` and emits the single progress value 100 |
| ElementorContent.ExampleFailingPage | plugins/templately/includes/Core/Importer/Runners/ElementorContent.php:125-147 | a one-page package whose document cannot be created returns that page under `failed` with `false`, and the run still succeeds with the single progress value 100 |
| OrderedMaps.Get | plugins/templately/includes/Core/Importer/Runners/ElementorContent.php:70 | reading a PHP array finds a value exactly when the key is present, and the value is stored under that key |
| OrderedMaps.Put | plugins/templately/includes/Core/Importer/Runners/ElementorContent.php:134-137 | PHP assignment keeps every existing key in place and appends a new key at the end |
| OrderedMaps.PutGet | plugins/templately/includes/Core/Importer/Runners/ElementorContent.php:175-178 | after `$m[$k] = $v`, `k` reads `v` and every other key reads as before |

## Left out

- `get_name`, `get_label`, `should_log`, `get_action` and `log_message` return constants or translated strings and carry no logic.
- `Utils::import_page_settings` after a successful entry is a side effect on the created page outside this runner; it is not modelled.
- The log transport: each progress value is recorded in order in `RunOutcome.progress` instead of being broadcast.
- Reading JSON files and building file paths: the settings file and each entry's payload are given as already decoded values, or as a read failure.
- `Utils::upload_logo` is a parameter (`Env.upload`); its own behaviour is not part of this model.
- Elementor's document factory and the document's `import` and `get_main_id` are summarised per entry by `Host.entry`; their internals are not part of this model.
- The kits manager is assumed to give a new kit a fresh post id and to activate it, and `get_kit` of an unknown id is assumed to yield a placeholder kit with id 0 and no settings.
- `get_active_id()` (lines 54 and 112) is modelled as a plain read of the active-kit option (`Site.activeOption`, 0 when unset), with no repair of a missing or stale kit; the value `ElementorContent.BackupKeepsFirst` states rests on this.
- The `get_kit` call right after creating the kit (line 98) has no effect on the outcome and is not modelled.
- The commented-out lines (42-45, 100, 173) are not modelled.
- PHP's `floor` returns a float; the model uses the integer it denotes.
- PHP normalises numeric string keys such as `"1"` to integers; all array keys are modelled as strings.
- An absent or null `system_colors`/`custom_colors` or `$data['logo']` reads as the empty list or empty array, which the runner treats the same way.
- A null old logo is modelled as the empty array. Lines 88 and 91 store `$old_logo` verbatim, so where PHP would write `site_logo => null` the model writes `site_logo => []`.
- A post type's results always carry both `succeed` and `failed` (`TypeResult`). In PHP `$results[$post_type]` holds only the keys that were written, in the order first written; an absent key is modelled as an empty map and the order of the two keys is not kept.
- `$data['color']` is modelled as an array; a scalar colour selection (where PHP would index into a string) is not.
- ImportLoop.TypesPartition and ElementorContent.RunPartition require a manifest whose post types and entry ids are unique, as every decoded PHP array is.
- Exceptions thrown by the kits manager, the options table or `wp_update_post` are not modelled; only the settings file read and the per-entry exceptions are.
- Throwables that abort the run mid-loop are not modelled: line 183 catches only `Exception`, so a PHP `Error` (a `TypeError`, a call on a non-object returned by `create`) inside `import_post_type_content` escapes, as does anything thrown by `post_type_exists` (line 126), `Utils::import_page_settings` (line 136, outside the `try`) or the log call (line 143). Such a throw would end the run after part of the progress was emitted and lose the results; the model assumes none occurs, so `ElementorContent.ImportContent` always succeeds.
