# gpu-selector, modelled in Dafny

gpu-selector keeps a small SQLite registry of the desktop applications
installed on a Linux machine. It lets the user mark individual applications
so that they start on the discrete (NVIDIA) GPU. The tool never edits a
system launcher. Instead it writes an *override*: a copy of the
application's `.desktop` file in the user's `~/.local/share/applications`,
with `PrefersNonDefaultGPU=true` added to `[Desktop Entry]`. Removing the
mark deletes that copy.

This project models the three core files:

- `core.py`: discovery (`scan_apps`, `_parse_and_store`), identifier
  resolution (`_find_app_by_identifier`), and the two override operations
  (`set_nvidia`, `unset_nvidia`).
- `database.py`: the `apps` table, keyed uniquely by basename, with its
  upsert, its listing sorted by name without case, its first-match search
  and its flag update.
- `tui.py`: the live view. It holds the canonical list, the filtered table,
  the row keys that map each visible row back to the canonical index, the
  cursor, and the toggle action.

One module per concern, one file per module:

| file | module | contents |
|---|---|---|
| `options.dfy` | `Options` | `Option` |
| `text.dfy` | `Text` | ASCII case folding, the lexicographic order, `str.isdigit`, the subset of `int()` and `str()` the program uses |
| `files.dfy` | `Files` | paths, parsed file contents, the disk as files plus walk order, `class FileSystem` |
| `registry.dfy` | `Registry` | rows and the table as values (`Upsert`, `SetStatus`, `Listing`, `FirstMatch`) and `class Database` proved against them |
| `desktop.dfy` | `Desktop` | the keep/skip decision for one parsed launcher, `getboolean`, the override content |
| `discovery.dfy` | `Discovery` | the four system roots and the user root, the ordered basename → path resolution, `ScanTable`, and the scanning methods |
| `reconcile.dfy` | `Reconcile` | identifier resolution, `SetStep` / `UnsetStep` and the `SetNvidia` / `UnsetNvidia` methods proved against them, and their properties |
| `liveview.dfy` | `LiveView` | the filtering, keying and cursor functions, and `class Tui` |

Every stateful method is proved against a function of the old state. Three
examples:

- `Database.UpsertApp` ends with `Snapshot() == Upsert(old(Snapshot()), d)`.
- `ScanApps` ends with `db.Snapshot() == ScanTable(old(db.Snapshot()), fs.State(), cfg)`.
- `SetNvidia` ends in the state and outcome `SetStep` gives.

What the program promises is then proved about those functions.

The outside world enters as parameters:

- The disk is a `Disk` value held by a `FileSystem` object: parsed file
  contents plus the order in which `os.walk` meets the files.
- The home directory is a `Config`.
- The search regular expression is a predicate `string -> bool`.

## Model

| member | source | states |
|---|---|---|
| Text.Fold | database.py:44 | ASCII case folding keeps the length and maps each character by itself; this is the basis of `COLLATE NOCASE` and of `LIKE` |
| Text.LexLessIrreflexive | database.py:44 | the name order never puts a name before itself |
| Text.LexLessTransitive | database.py:44 | the name order is transitive |
| Text.LexLessTotal | database.py:44 | of two different strings, one comes first |
| Text.LexLessAsymmetric | database.py:44 | two strings are never each before the other |
| Text.NatToString | tui.py:159 | `str(n)` of a natural number is a non-empty string of ASCII digits |
| Text.DigitsValueOfNatToString | core.py:78-81 | reading the digits of `str(n)` gives back `n` |
| Text.ParseIntNatToString | tui.py:69-74 | `int(str(n)) == n`: a row key reads back as its canonical index |
| Text.NatToStringInjective | tui.py:159-161 | different indices get different keys |
| Files.Walk | core.py:29-32 | walking a root yields exactly the files on disk in that root or below it |
| Files.SubdirStart | core.py:36-39 | the place for a new file of a directory: every entry before it lies outside that directory's subdirectories, and the entry at it lies inside one |
| Files.WriteFile | core.py:115-116 | writing sets exactly that file's content. An existing file keeps its place in the walk order. A new file is inserted at `SubdirStart`, ahead of every file in a subdirectory of its directory, as the top-down `os.walk` lists a directory's files before descending |
| Files.WalkAroundNewFile | core.py:36-39 | after a new file is written, the walk of any root containing it is the walk of the entries before its place, then the file, then the walk of the rest |
| Files.SubdirFilesAfterStart | core.py:36-39 | every listed file in a subdirectory of a directory lies after the place of a new file of that directory |
| Files.NewFileWalkedFirst | core.py:36-39 | a new file is walked before every file in a subdirectory of its directory, and what is walked after it was already on disk |
| Files.RemoveFile | core.py:136-137 | `unlink` removes that file and leaves every other file's content as it was |
| Files.FileSystem.Exists | core.py:136 | `exists` is true exactly when the file is on disk |
| Files.FileSystem.Read | core.py:106 | reading returns the file's parsed content, or nothing for a missing file, and changes nothing |
| Files.FileSystem.Write | core.py:115-116 | the disk afterwards is `WriteFile` of the disk before: the content is set, and a new file is placed ahead of its directory's subdirectories in the walk order |
| Files.FileSystem.Unlink | core.py:137 | the disk afterwards is `RemoveFile` of the disk before |
| Registry.Upsert | database.py:25-39 | the upsert keeps the table well formed and adds `b` to the keys. An existing basename keeps its id and the id counter. A new one gets the next id. The row carries the new data, and every other row is unchanged |
| Registry.UpsertRowCount | database.py:14-15 | the row count grows by one exactly when the basename is new |
| Registry.WellFormedAfterPut | database.py:10-16 | putting a row under its own basename with a fresh or its own id keeps keys, ids and the counter consistent |
| Registry.SetStatus | database.py:54-58 | the flag update touches only the customized column of the named row, keeps well-formedness, and is a no-op for an unknown basename |
| Registry.RowOfValue | database.py:41-46 | every row of the listing is the table's row for its basename |
| Registry.RowLessTotal | database.py:44 | the listing order (case-insensitive name, then row id) orders any two different rows |
| Registry.Listing | database.py:41-46 | the listing is strictly sorted by the name order and holds exactly the table's rows, each once |
| Registry.SortedUnique | database.py:44 | two strictly sorted sequences of the same rows are equal, so the listing is determined by the table |
| Registry.FirstMatch | database.py:48-52 | `find_app` returns a row whose name contains the query without case, and no row with a smaller id matches; it returns nothing only when no row matches |
| Registry.FirstMatchUnique | database.py:48-52 | the first match is unique |
| Registry.Database.constructor | database.py:4-23 | a database opens on a stored well-formed table |
| Registry.Database.UpsertApp | database.py:25-39 | the table afterwards is `Upsert` of the table before |
| Registry.Database.GetApps | database.py:41-46 | returns `Listing` of the table and changes nothing |
| Registry.Database.FindApp | database.py:48-52 | returns `FirstMatch` of the table and changes nothing |
| Registry.Database.UpdateCustomizedStatus | database.py:54-58 | the table afterwards is `SetStatus` of the table before |
| Desktop.GetBoolean | core.py:55-68 | a missing key reads as false, `true` in any ASCII case reads as true, and an empty value raises the `ValueError` (`NotBoolean`) |
| Desktop.ParseEntry | core.py:47-74 | a launcher is stored only when it has `[Desktop Entry]`, a non-empty `Name` and `NoDisplay` false. It is stored as customized when it lies directly in the user root, else by its GPU flag. A non-boolean word on the path taken skips the file |
| Desktop.WithGpuFlag | core.py:111-112 | the override has the source's sections and keys with `PrefersNonDefaultGPU=true` added to `[Desktop Entry]` and nothing else changed |
| Desktop.GpuFlagReadsTrue | core.py:112 | in the written override the GPU flag reads back as true |
| Desktop.WithGpuFlagIdempotent | core.py:112 | setting the flag on an override that already carries it changes nothing |
| Desktop.OverrideEntry | core.py:59-68 | an override in the user root is stored exactly when its source passes the name and `NoDisplay` tests, with the source's name, comment and command, and always as customized |
| Discovery.AssignAll | core.py:29-32 | folding a walk into the dictionary keeps every key listed once in insertion order, each mapped to a `.desktop` file of that name, and drops no key |
| Discovery.AssignAllKeys | core.py:29-32 | after the walk, the keys are the old ones plus the `.desktop` names walked |
| Discovery.AssignAllUntouched | core.py:29-32 | a basename the walk does not meet keeps its old path |
| Discovery.AssignAllFromFiles | core.py:29-32 | every path assigned is a walked `.desktop` file with that basename |
| Discovery.LastStretchDecides | core.py:29-39 | a `.desktop` file in the last stretch of the files walked makes its basename resolve to a file of that stretch |
| Discovery.UserWalkTailDecides | core.py:34-39 | a `.desktop` file in the last stretch of the user root's walk makes its basename resolve to a file of that stretch, whatever the system roots hold |
| Discovery.UserRootWins | core.py:34-39 | any `.desktop` file under the user root decides the path of its basename |
| Discovery.LastSystemRootWins | core.py:26-32 | absent a user file, the basename maps to the file of the last walk that meets it |
| Discovery.DefinitiveKeys | core.py:24-39 | a basename is resolved exactly when some walked file with that name ends in `.desktop` |
| Discovery.OrderCountsKeys | core.py:45 | `len(definitive_apps)` counts each resolved basename once |
| Discovery.StoredOf | core.py:42-43 | the rows the scan would store are the parsed entries, in resolution order, each under its own basename |
| Discovery.Scanned | core.py:42-43 | storing the first `i` resolved entries keeps the table well formed |
| Discovery.ScanTable | core.py:15-45 | a full scan keeps the table well formed |
| Discovery.ScannedIsUpsertAll | core.py:42-43 | storing entries one by one equals upserting the parsed entries in order |
| Discovery.ScanTableIsUpsertAll | core.py:42-43 | the scan equals upserting the stored entries of the resolution |
| Discovery.UpsertAllKeys | core.py:42-43 | after the scan, the basenames are the old ones plus those stored |
| Discovery.UpsertAllKeepsIds | database.py:31-39 | the scan never changes the id of a row already present |
| Discovery.UpsertAllUntouched | core.py:42-43 | a basename not stored keeps its row |
| Discovery.UpsertAllCarries | core.py:42-43 | a stored basename's row carries the data stored for it |
| Discovery.UpsertAllNoChange | database.py:25-39 | upserting rows that already carry the data changes nothing |
| Discovery.ScanTableRow | core.py:42-71 | after a scan, a basename whose file parses holds exactly that entry's data, and any other basename keeps its row |
| Discovery.ScanIdempotent | core.py:15-45 | scanning an unchanged disk a second time changes nothing |
| Discovery.ScanKeepsRows | core.py:42-43 | a scan never removes a row |
| Discovery.AssignFiles | core.py:29-32 | the walk loop over one root computes `AssignAll` |
| Discovery.CollectDefinitive | core.py:17-39 | the two walk phases compute `Definitive` |
| Discovery.ParseAndStore | core.py:47-74 | one file's parse and store changes the table by `StoreStep` |
| Discovery.StoreOneMore | core.py:42-43 | storing entry `i` extends the scan of the first `i` entries by one step |
| Discovery.StoreAll | core.py:42-43 | the store loop yields the scan over the whole resolution |
| Discovery.ScanApps | core.py:15-45 | the table afterwards is `ScanTable` of the table before and the result is the number of resolved basenames |
| Reconcile.Classify | core.py:78-81 | an all-digit identifier is a position whose value `int()` reads, and anything else is a name |
| Reconcile.ClassifyNatToString | core.py:78-84 | the decimal key of an index is read as that position |
| Reconcile.ResolveInTable | core.py:76-89 | a resolved application is the table's row for its basename |
| Reconcile.ResolveMeaning | core.py:76-89 | a position picks from the 0-based sorted listing or nothing, and a name gives its first match |
| Reconcile.FindAppByIdentifier | core.py:76-89 | the resolver returns `Resolve` of the table, a row of the table |
| Reconcile.SetNvidia | core.py:91-124 | the table, disk and outcome afterwards are those of `SetStep` |
| Reconcile.UnsetNvidia | core.py:126-144 | the table, disk and outcome afterwards are those of `UnsetStep` |
| Reconcile.SetStepOutcomes | core.py:91-109 | set fails with nothing changed unless the identifier resolves and the file has `[Desktop Entry]`; an unknown identifier is reported as not found |
| Reconcile.SetStepWrites | core.py:97-116 | a successful set returns the resolved name and writes the source with the GPU flag true to the override path |
| Reconcile.SetKeepsRows | core.py:118-123 | a successful set keeps every row |
| Reconcile.OverrideResolves | core.py:34-39 | when no other file under the user root has the basename (`NoShadow`), the written override decides that basename's path in the next scan |
| Reconcile.ShadowResolves | core.py:34-39 | when the only other user-root file with the basename lies in a subdirectory and the override is new, the next scan resolves the basename to that file and not to the override |
| Reconcile.SetUnderShadowLeavesRowPlain | core.py:91-124 | under such a shadowing file that does not ask for the GPU, `set` reports success, but after its rescan the row points at the shadowing file and is not customized |
| Reconcile.ScanAfterOverride | core.py:119-123 | when no other user-root file has the basename (`NoShadow`) and the row is already marked customized, the rescan keeps it customized and either points it at the override or leaves it as it was |
| Reconcile.SetMarksCustomized | core.py:91-124 | after a set the row is customized, and it points at the override unless the override is not storable |
| Reconcile.SecondWriteSame | core.py:104-116 | a second set reads the override or the untouched source and writes back the same content |
| Reconcile.SecondSetChangesNothing | core.py:91-124 | on the state a set left, if the identifier still resolves to the same basename and the row is customized and points at the override or at the source that was read, then a second set succeeds and changes nothing |
| Reconcile.SetAtFixedPoint | core.py:91-124 | a set on a customized row whose write and rescan change nothing is a no-op that succeeds |
| Reconcile.SetTwiceSameState | core.py:91-124 | setting twice leaves the same table and disk as setting once |
| Reconcile.UnsetStepOutcomes | core.py:126-144 | unset fails with nothing changed unless the override exists. Then it deletes the override, clears the flag of that row only and keeps its path; an unknown identifier is reported as not found |
| Reconcile.ListingIgnoresStatus | database.py:41-46 | changing a flag does not reorder the listing, which changes only in that row's flag |
| Reconcile.FirstMatchIgnoresStatus | database.py:48-52 | changing a flag does not change which row a name finds |
| Reconcile.ResolveIgnoresStatus | core.py:76-89 | changing a flag does not change which basename an identifier resolves to |
| Reconcile.UnsetTwiceReportsNotCustomized | core.py:132-144 | a second unset reports "not customized" and changes nothing |
| Reconcile.SetThenUnset | core.py:91-144 | if the identifier still names the same basename after a successful set, an unset right after it succeeds, removes the override and clears the flag |
| Reconcile.SetAfterUnsetReadsRemovedOverride | core.py:97-109 | unset keeps the row's path. So if the path pointed at the override, a set right after reads the deleted file and fails with an invalid definition at that path |
| LiveView.MatchingUpTo | tui.py:152-155 | the matching indices below `n` are exactly the matches below `n`, in increasing order |
| LiveView.MatchingIndices | tui.py:152-155 | the matched indices are exactly the canonical indices whose name the pattern matches, in list order |
| LiveView.FirstIndex | tui.py:165 | `list.index` finds the first position holding the key |
| LiveView.CursorAfter | tui.py:163-168 | the cursor goes back to the previous key if shown, else to row 0 if any row is shown, else stays |
| LiveView.AppByOriginalIndex | tui.py:69-74 | the lookup succeeds exactly for an integer string within `-len .. len-1` and returns an application of the list |
| LiveView.MatchingIndicesAtLeast | tui.py:157-160 | the canonical index of row `j` is at least `j` |
| LiveView.AllMatchIdentity | tui.py:152-155 | when every name matches, the matched indices are `0 .. n-1` |
| LiveView.AllMatchShownIdsAndKeys | tui.py:157-160 | when every name matches, row `j` carries key `j` but shows ID `j + 1` |
| LiveView.KeyDisplayedIff | tui.py:152-161 | the key of index `i` is shown exactly when `i` is in the list and its name matches |
| LiveView.KeysDistinct | tui.py:157-161 | displayed keys are pairwise distinct |
| LiveView.AppByKey | tui.py:69-74 | the key of index `i` looks up `apps[i]`, and nothing past the end |
| LiveView.ToggleTargetsShownApp | tui.py:88-100 | the key of visible row `j` names the application that row shows, both in the live view's lookup and in the core's resolver |
| LiveView.SelectionAfterFilter | tui.py:82-91 | after refiltering, the cursor is on a row exactly when some application matches, and its key names a matching application, so the toggle's lookup always finds one |
| LiveView.CursorFollowsApp | tui.py:133-168 | refiltering keeps the cursor on the same application while it still matches |
| LiveView.MatchedApps | tui.py:152-155 | the first loop of `filter_apps` computes `MatchingIndices` |
| LiveView.AddRows | tui.py:157-161 | the second loop adds one row and one key per match, in match order |
| LiveView.Tui.constructor | tui.py:36-41 | a new interface has no applications, no keys and an empty table |
| LiveView.Tui.FilterApps | tui.py:133-168 | `filter_apps` keeps the list and shows exactly the matching rows keyed by canonical index. The cursor moves by `CursorAfter` |
| LiveView.Tui.RefreshTable | tui.py:113-117 | the list becomes the registry's sorted listing, then it is refiltered |
| LiveView.Tui.ToggleSetting | tui.py:82-111 | nothing happens unless the cursor's key names an application. Otherwise the key is passed to unset (customized) or set (not customized), and registry and disk follow that step. A failure leaves the view unchanged; a success refreshes and puts the cursor back on the same row number if it is still shown |
| LiveView.Tui.ApplyToggle | tui.py:97-111 | the branch of the toggle after the lookup: the step, then the refresh and cursor rule on success |

## Left out

- `main.py` (the command-line front end) and the Textual widgets, layout, key bindings, notifications and the double-press quit counter are not part of this model.
- `Database.close`, and database failures in general, are not modelled.
- Configuration and INI text:
  - The on-disk text of `.desktop` files, `configparser`'s reading and writing, and its `DEFAULT` section are not modelled. A file's content is already parsed into sections, or it is `Malformed`.
  - The scan's parser lower-cases keys; the model compares keys exactly. Value whitespace stripping is not modelled.
- Names and digits:
  - Case folding is ASCII only: Unicode case mapping in SQLite `NOCASE`/`LIKE` and in `str.lower` is not modelled.
  - `str.isdigit` and `int()` accept ASCII digits only: no Unicode digits, whitespace or underscores.
  - The `%` and `_` wildcards inside a search query are treated as ordinary characters.
- The search regular expression, including the fallback to an escaped pattern, is an opaque predicate on names.
- Paths: `FilePath` is a (directory, name) pair rather than a path string.
  - The walk order is a single list of files. A directory's own files are listed in no particular order, as `os.listdir` gives them. A new file is placed after the entries before its directory's first subdirectory entry. A removed file keeps its place, so a file written again at the same path returns to it.
  - A file lies "in the user root" when its directory is that root.
  - Paths are not normalised, and symlinks are not modelled.
- Failures outside the model's values are not modelled: `mkdir` errors, write errors, the race between `exists` and `unlink`, a directory that does not exist (a missing root walks as empty), and file permissions.
- RefreshDesktopDatabase: the external `update-desktop-database` command is a no-op, because its effect lies outside this program and every failure is ignored.
- Registry ids:
  - Ids are drawn from a counter that only grows, as `AUTOINCREMENT` does.
  - Ties in `ORDER BY app_name COLLATE NOCASE` are broken by row id, as SQLite's rowid scan does.
  - `find_app` with several matches returns the lowest id.
- The `DataTable` cursor: `clear()` resetting the cursor, and `move_cursor` clamping, are not modelled. With an empty table the cursor keeps its old row.
- An exception escaping `set_nvidia` inside the interface (a malformed source file) would end the program. The model reports it as the `Raised` outcome and leaves the view unchanged.
- Reconcile.SetMarksCustomized: needs the hypothesis that no other file under the user root has the same basename. Otherwise a file in a user subdirectory can shadow the override in the rescan, and the row is left as that file makes it (`SetUnderShadowLeavesRowPlain`).
- Reconcile.SetThenUnset: needs the identifier to name the same basename after the set. A positional identifier can name another row once the rescan has added rows.
- Reconcile.SetTwiceSameState: needs the same no-shadow hypothesis, and the identifier must still name the same basename after the first set. A positional identifier can name another row once the rescan has added rows.
- LiveView.Tui.ApplyToggle, LiveView.MatchedApps and LiveView.AddRows: these are parts of single source methods, split off so that each loop and each branch is proved on its own.

Where the code differs from a plain reading of the program's description, the model follows the code:

- `set_nvidia` does not catch a parse error in the source file, so the error propagates (`Raised`) instead of being returned as an error string.
- Positional identifiers are 0-based positions in the sorted listing.
- `unset_nvidia` does not rescan. The row keeps the path it had, which can be the deleted override (`SetAfterUnsetReadsRemovedOverride`).
