# tagfs metadata store and mount-option parser in Dafny

tagfs is a FUSE file system whose directories are tags. Its metadata lives in a
small SQLite database (`tagfs/db.py`) with five tables:

- `tags`: an id and a unique name;
- `tag_files`: associations between tags and files, with no key, so rows may
  repeat and either column may be NULL;
- `files`: an id, a name and a path;
- `options`: name/value pairs;
- `selections`: name/value pairs.

Per-table handles ("cursors") create, remove, rename and look up rows. Most
arguments can be given by name or by numeric id. The reserved tag `__ALL__`
stands for "every file". The `mount` entry point (`tagfs/__main__.py`) first
pulls every `-o OPTS` / `-oOPTS` argument out of `argv` and turns the
comma-separated items into a keyword map for FUSE.

The model has these modules:

- `Sql` (sql.dfy): values that may be NULL, and the WHERE-clause comparison
  `Eq`, under which NULL matches nothing. It also defines the name-or-id
  reference `Ref`.
- `Tables` (tables.dfy): rows in rowid order, with the integrity rules the
  schema enforces. It holds the resolvers `get_id`/`get_name`/`exists`/`resolve`
  for tags and files, and the DELETE and UPDATE statements as functions on
  sequences.
- `Queries` (queries.dfy): the joins `has_tag`, `get_by_tag` and `get_tags`.
- `TagAssignment` (set_tags.dfy): what `set_tags` computes, and its properties.
- `Store` (store.dfy): class `Database`. The five tables are its fields and
  every mutating cursor method is a method on it. Each call is one
  transition, and a UNIQUE violation (sqlite3's IntegrityError) leaves the
  table unchanged.
- `MountOptions` (mount_options.dfy): the `while True` loop of `mount()`,
  written as a method over a local `argv` sequence and a local keyword map.
  It is proved equal to a recursive specification `MountSpec`, and the
  properties are lemmas about that specification.
- `Text` (text.dfy): Python's `str.find`, `str.split(sep)` and `str.strip()`.
- `Sequences` (sequences.dfy): first-index search, filtering and
  subsequences, used by all of the above.

Rowids follow SQLite's rule for an `INTEGER PRIMARY KEY` inserted without a
value: one more than the largest id present, or 1 in an empty table. Ids
therefore ascend along each table's sequence. The model assumes that a
`SELECT ... fetchone` by file name returns the first row of that name in rowid
order, the one with the lowest id. That is what a scan of `files` gives, since
`files.name` has no index, but SQLite does not promise it.

## Model

| member | source | states |
|---|---|---|
| Tables.NextRowId | tagfs/db.py:13 | the id given to a new row is larger than every id present, and 1 in an empty table |
| Tables.TagsGetId | tagfs/db.py:204-213 | an id passes through unchecked; `__ALL__` gives -1; any other name gives the id of the row bearing it, and NULL exactly when no row bears it |
| Tables.TagsGetName | tagfs/db.py:216-223 | a name passes through unchanged; an id gives the name of the row with that id, and NULL exactly when there is none |
| Tables.TagsExists | tagfs/db.py:251-253 | true exactly for every id, the sentinel, and every name some row bears |
| Tables.FilesGetId | tagfs/db.py:278-285 | an id passes through; a name gives the id of the first row bearing it (none earlier has the name), and NULL exactly when no row bears it |
| Tables.FilesGetName | tagfs/db.py:288-295 | a name passes through; an id gives the name of a row with that id, and NULL exactly when there is none |
| Tables.FilesResolve | tagfs/db.py:371-379 | gives the path of a row selected by id or by name, and NULL exactly when no row is selected |
| Tables.FilesExists | tagfs/db.py:320-322 | true exactly for every id and every name some row bears |
| Tables.TagRefsAgree | tagfs/db.py:204-223 | in a valid tags table, a row's name resolves to its id and its id names it |
| Tables.NameDeterminesTag | tagfs/db.py:13 | tag names are unique: two rows with the same name are the same row |
| Tables.FileRefsAgree | tagfs/db.py:278-295 | a file reached by a name no earlier row bears: name and id resolve to each other and to the same path |
| Tables.NullMatchesNothing | tagfs/db.py:196-199 | deleting or selecting by a NULL id touches no row, which is why an unknown name is a silent no-op |
| Tables.DropTagKeepsValid | tagfs/db.py:199 | deleting tag rows keeps the table valid and keeps only rows that were there and do not carry the id |
| Tables.DropFileKeepsValid | tagfs/db.py:273 | the same for file rows |
| Tables.AppendTagKeepsValid | tagfs/db.py:186 | inserting a name that is new and not the sentinel under the next rowid keeps the tags table valid |
| Tables.NewTagResolves | tagfs/db.py:181-188 | after `tags.new`, `get_id` of the name gives the new id, and `get_name` of that id gives the name |
| Tables.AppendFileKeepsValid | tagfs/db.py:263 | inserting a file under the next rowid keeps the files table valid |
| Tables.NewFileNameResolves | tagfs/db.py:261-285 | after `files.new`, `get_id` of the name gives the new id, unless an older file already bears the name, in which case the older one still wins |
| Tables.NewFileIdResolves | tagfs/db.py:371-379 | after `files.new`, the new id resolves to the new path |
| Tables.RenameTagsKeepsValid | tagfs/db.py:242-245 | a rename that keeps names unique and avoids the sentinel keeps the tags table valid |
| Tables.RenameTagMovesName | tagfs/db.py:237-248 | after a successful rename, the new name resolves to the renamed row's unchanged id, that id names the new name, the ids are unchanged, and every other row is unchanged |
| Tables.RenameFilesKeepsValid | tagfs/db.py:311-314 | renaming files keeps the files table valid |
| Tables.TagNames | tagfs/db.py:225-228 | `tags.all_names`; what it lists is stated by Queries.InTagNames |
| Tables.FileNames | tagfs/db.py:297-300 | `files.all_names`; what it lists is stated by Queries.InFileNames |
| Tables.UnlinkTag | tagfs/db.py:198 | the cascade DELETE on tag_files by tag id; Tables.NullMatchesNothing and Store.Database.TagsRemove state its effect as a multiset |
| Tables.UnlinkFile | tagfs/db.py:272 | the cascade DELETE on tag_files by file id (also line 394); stated by Tables.NullMatchesNothing, Store.Database.FilesRemove and TagAssignment.SetTagsSpec |
| Tables.UnlinkPair | tagfs/db.py:354-355 | the DELETE of `remove_tag`; stated by Queries.RemoveTagThenNotHasTag, Queries.RemoveTagUndoesAddTag and Store.Database.FilesRemoveTag |
| Tables.DropTag | tagfs/db.py:199 | the DELETE on tags by id; stated by Tables.DropTagKeepsValid and Queries.RemovedTagIsGone |
| Tables.DropFile | tagfs/db.py:273 | the DELETE on files by id; stated by Tables.DropFileKeepsValid and Queries.RemovedFileIsGone |
| Tables.RenameTags | tagfs/db.py:242-245 | the UPDATE of `tags.rename`, by id or by name; stated by Tables.RenameTagsKeepsValid and Tables.RenameTagMovesName |
| Tables.RenameFiles | tagfs/db.py:311-314 | the UPDATE of `files.rename`, by id or by name; stated by Tables.RenameFilesKeepsValid and Tables.RenameFileMovesName |
| Tables.RenameFileMovesName | tagfs/db.py:309-317 | after a rename by id, that id names the new name, still resolves to the same path, and all ids are unchanged |
| Queries.FilesHasTag | tagfs/db.py:361-368 | the sentinel by name or as -1 is always present; otherwise true exactly when some association links the resolved tag id and the resolved file id, where a NULL on either side matches nothing |
| Queries.FilesGetTags | tagfs/db.py:381-387 | a file that does not resolve lists no tags; Queries.GetTagsAgreesWithHasTag states which names are listed otherwise, and Queries.GetTagsCount how often |
| Queries.FilesGetByTag | tagfs/db.py:325-333 | `get_by_tag("__ALL__")` is `all_names()`; Queries.GetByTagAgreesWithHasTag states which names are listed otherwise, and Queries.GetByTagCount how often |
| Queries.InFileNames | tagfs/db.py:297-300 | `all_names` of files lists exactly the names of the rows |
| Queries.InTagNames | tagfs/db.py:225-228 | `all_names` of tags lists exactly the names of the rows |
| Queries.JoinFileNamesMembership | tagfs/db.py:331-332 | a name is in the files/tag_files join exactly when some link points at a file row of that name |
| Queries.FileIdIsKey | tagfs/db.py:15 | `id` is the primary key of files: a valid table has at most one row per id |
| Queries.TagIdIsKey | tagfs/db.py:13 | `id` is the primary key of tags: a valid table has at most one row per id |
| Queries.FileNameOfLink | tagfs/db.py:331-332 | one association adds its file's name to the join once, or nothing when it reaches no file of that name |
| Queries.TagNameOfLink | tagfs/db.py:385-386 | one association adds its tag's name to the join once, or nothing when it reaches no tag of that name |
| Queries.JoinFileNamesCount | tagfs/db.py:331-332 | the files/tag_files join lists a name exactly as often as there are links reaching a file row of that name |
| Queries.JoinTagNamesCount | tagfs/db.py:385-386 | the tags/tag_files join lists a name exactly as often as there are links reaching the tag row of that name |
| Queries.GetByTagCount | tagfs/db.py:325-333 | apart from `__ALL__`, `get_by_tag` lists a file name once per link of the tag that reaches a file of that name, so duplicate links from `add_tag` repeat it |
| Queries.GetTagsCount | tagfs/db.py:382-387 | `get_tags` lists a tag name once per link of the file that reaches that tag, so duplicate links repeat it |
| Queries.JoinTagNamesMembership | tagfs/db.py:385-386 | a name is in the tags/tag_files join exactly when some link points at a tag row of that name |
| Queries.GetByTagAgreesWithHasTag | tagfs/db.py:325-368 | for every reference except the id -1, `get_by_tag` lists exactly the names of the files for which `has_tag` holds |
| Queries.SentinelIdOnlyInHasTag | tagfs/db.py:363 | the exception: a file with no associations "has" tag -1 but is not listed under it |
| Queries.GetTagsAgreesWithHasTag | tagfs/db.py:382-387 | `get_tags` lists a tag's name exactly when `has_tag` holds for its id |
| Queries.TagRefsInterchangeable | tagfs/db.py:204-213 | `has_tag` and `get_by_tag` give the same answers for a tag's name and for its id |
| Queries.FileRefsInterchangeable | tagfs/db.py:278-285 | `has_tag` and `get_tags` give the same answers for a file's id and for a name no earlier row bears |
| Queries.AddTagThenHasTag | tagfs/db.py:342-343 | after `add_tag` of a pair that resolves, `has_tag` holds for it |
| Queries.RemoveTagThenNotHasTag | tagfs/db.py:354-355 | after `remove_tag`, `has_tag` fails for the pair, unless the tag is the sentinel or -1 |
| Queries.RemoveTagUndoesAddTag | tagfs/db.py:342-355 | `remove_tag` after `add_tag` leaves the same associations as `remove_tag` alone, so it removes every duplicate |
| Queries.RemovedTagIsGone | tagfs/db.py:193-201 | after `tags.remove` of anything but the sentinel and -1: a removed name no longer resolves, no file has the tag, and nothing is listed under it |
| Queries.RemovedFileIsGone | tagfs/db.py:268-275 | after `files.remove`, the removed id resolves to no path and has no tags |
| TagAssignment.ResolveOrCreate | tagfs/db.py:398-401 | one turn of the `set_tags` loop; stated by TagAssignment.ResolveOrCreateSpec |
| TagAssignment.ResolveAll | tagfs/db.py:397-403 | the whole `set_tags` loop; stated by TagAssignment.ResolveAllSpec and the four lemmas it combines |
| TagAssignment.SetTags | tagfs/db.py:391-406 | `set_tags` as a function of the tables before the call; stated by TagAssignment.SetTagsSpec, SetTagsIdempotent, SetTagsOnMissingFileAppends, SetTagsThenHasTag and SetTagsEmptyClearsTags |
| TagAssignment.ResolveMissingName | tagfs/db.py:398-400 | a reference that does not resolve is a name that is neither the sentinel nor the name of any row, so the `tags.new` call is valid |
| TagAssignment.ResolveAllStep | tagfs/db.py:397-403 | proof step of the Store.Database.FilesSetTags loop: unfolding one turn keeps its invariant |
| TagAssignment.ResolveAllDone | tagfs/db.py:397-403 | proof step of the Store.Database.FilesSetTags loop: on the empty remainder the loop adds nothing, so the invariant gives the final tables |
| TagAssignment.GrowKeepsIds | tagfs/db.py:400-401 | adding rows to a valid tags table never changes what a resolving reference resolves to |
| TagAssignment.ResolveOrCreateSpec | tagfs/db.py:398-401 | one turn always yields an id, which is `get_id` in the new table; the table stays valid and gains at most one row, named after the tag; earlier answers of `get_id` are unchanged |
| TagAssignment.ResolveAllSpec | tagfs/db.py:397-403 | the whole loop keeps the table valid and only appends, only with names from the list; it inserts one association per element, in order, each with that element's final id, never NULL |
| TagAssignment.ResolveAllGrows | tagfs/db.py:397-401 | the loop keeps the tags table valid and only appends rows |
| TagAssignment.ResolveAllKeepsId | tagfs/db.py:397-401 | the loop never changes what an already resolving reference resolves to |
| TagAssignment.ResolveAllLinks | tagfs/db.py:397-403 | the loop inserts one association per element, each with that element's final id |
| TagAssignment.ResolveAllNames | tagfs/db.py:399-400 | every tag row the loop creates is named by an element of the list |
| TagAssignment.ResolveAllCreatesNothing | tagfs/db.py:397-401 | when every element already resolves, the loop creates no tag |
| TagAssignment.SetTagsSpec | tagfs/db.py:391-406 | for a file that resolves: its associations are exactly one per listed tag, in order, each with that tag's id; other files' associations are untouched; every listed tag exists afterwards; old tag rows are kept, and only listed names are added |
| TagAssignment.SetTagsIdempotent | tagfs/db.py:391-406 | for a file that resolves, calling `set_tags` twice with the same list gives the same tables as calling it once |
| TagAssignment.SetTagsOnMissingFileAppends | tagfs/db.py:393-403 | for a file that does not resolve, nothing is deleted and one association with a NULL file id is appended per listed tag |
| TagAssignment.SetTagsThenHasTag | tagfs/db.py:391-406 | after `set_tags`, `has_tag` holds for the file and every listed tag |
| TagAssignment.SetTagsEmptyClearsTags | tagfs/db.py:393-394 | `set_tags` with an empty list leaves the file with no tags |
| Store.Lookup | tagfs/db.py:121-125 | `selections.resolve` (and `options.get`, lines 164-168) gives the stored value, and NULL exactly when no row has that name |
| Store.SelectionsExists | tagfs/db.py:135-137 | a selection exists exactly when `resolve` gives a value |
| Store.AllNames | tagfs/db.py:104-107 | `selections.all_names` holds exactly the names `resolve` finds a value for |
| Store.UnsetAsWritten | tagfs/db.py:173 | `options.unset` as written; Store.UnsetMissesIntent states what it does to a stored option |
| Store.UnsetIntended | tagfs/db.py:173 | the intended `DELETE`: afterwards `options.get` of the name is NULL, and every other option keeps its value |
| Store.UnsetMissesIntent | tagfs/db.py:173 | on a stored option, `unset` as written raises and leaves the value readable, where the intended statement would remove it |
| Store.Database.constructor | tagfs/db.py:12-18 | a fresh store: the five tables of the schema, all empty, satisfying the integrity rules |
| Store.Database.TagsNew | tagfs/db.py:181-188 | the sentinel gives false with no change; a name already present violates UNIQUE with no change; otherwise exactly one row is appended, with an id larger than every old id; the table stays valid |
| Store.Database.TagsRemove | tagfs/db.py:191-201 | the sentinel name gives false with no change; otherwise true, and the rows and associations carrying `get_id(x)` are deleted while all others keep their multiplicity; an unknown name changes nothing |
| Store.Database.TagsRename | tagfs/db.py:237-248 | the sentinel on either side gives false with no change; otherwise the rows selected by id or by name take the new name, or, if that breaks UNIQUE, the statement fails with no change |
| Store.Database.FilesNew | tagfs/db.py:261-265 | exactly one row is appended under the next rowid; names may repeat; the table stays valid |
| Store.Database.FilesRemove | tagfs/db.py:268-275 | the row and the associations carrying `get_id(x)` are deleted, and all others keep their multiplicity |
| Store.Database.FilesRename | tagfs/db.py:309-317 | every row selected by id or by name takes the new name; the table stays valid |
| Store.Database.FilesAddTag | tagfs/db.py:337-345 | the sentinel name gives false with no change; otherwise exactly one association of the two resolved ids (NULL where unknown) is appended, so duplicates accumulate |
| Store.Database.FilesRemoveTag | tagfs/db.py:349-357 | the sentinel name gives false with no change; otherwise every association of the resolved pair is deleted and every other keeps its multiplicity |
| Store.Database.ResolveTag | tagfs/db.py:398-401 | the loop body: `get_id`, and when that is NULL, `tags.new` followed by `get_id` |
| Store.Database.FilesSetTags | tagfs/db.py:391-406 | the imperative loop ends in exactly the tables `SetTags` prescribes, and they stay valid |
| Store.Database.SelectionsNew | tagfs/db.py:91-95 | a taken name violates UNIQUE with no change; otherwise the value is stored and `resolve` gives it back |
| Store.Database.SelectionsRemove | tagfs/db.py:98-102 | the selection of that name is gone and nothing else changes |
| Store.Database.SelectionsRename | tagfs/db.py:111-118 | the sentinel on either side gives false with no change; a missing source changes nothing; a taken target violates UNIQUE; otherwise the value moves to the new name and the old name no longer resolves |
| Store.Database.OptionsSet | tagfs/db.py:158-161 | INSERT OR REPLACE: the value is stored, overwriting any earlier one, and `get` gives it back |
| Store.Database.OptionsUnset | tagfs/db.py:170-174 | as written, the call always raises a syntax error and leaves the table as it was |
| Text.Find | tagfs/__main__.py:84 | the position of the first `=` (no earlier character is one), or the length when there is none (Python's -1) |
| Text.Split | tagfs/__main__.py:82 | splitting yields at least one piece, and no piece contains the separator |
| Text.SplitJoin | tagfs/__main__.py:82 | joining the pieces with the separator gives the string back |
| Text.Strip | tagfs/__main__.py:83 | `str.strip()`; stated by Text.StripSpec, StripStartSpec and StripEndSpec |
| Text.StripSpec | tagfs/__main__.py:83 | `strip()` leaves a middle slice of the item whose ends are not whitespace; everything cut off on either side was whitespace |
| Text.StripStartSpec | tagfs/__main__.py:83 | the leading-whitespace half of `strip()` |
| Text.StripEndSpec | tagfs/__main__.py:83 | the trailing-whitespace half of `strip()` |
| MountOptions.FindOptionArg | tagfs/__main__.py:67-71 | the scan stops at the first argument equal to `-o` or starting with `-o`, or runs off the end when there is none |
| MountOptions.ApplyOptions | tagfs/__main__.py:82-88 | the inner loop stores the parsed items one after the other, ending with `ApplyGroup` |
| MountOptions.ParseMountArgs | tagfs/__main__.py:63-88 | the whole loop, deleting from `argv` in place and filling `kw`, ends in exactly `MountSpec(argv)`, or in the IndexError of a trailing `-o` |
| MountOptions.ParseItem | tagfs/__main__.py:83-88 | one comma-separated item; stated by MountOptions.ParseItemRoundTrip and CutAtFirst |
| MountOptions.ScanArgs | tagfs/__main__.py:66-80 | the scan of argv; stated by MountOptions.ScanLeavesNoOption, ScanKeepsOrder, ScanRemovalCount, MissingArgumentIsTrailing, StandaloneAtEndFails, StandaloneTakesNext, AttachedGivesSuffix and ScanAttachedOnly |
| MountOptions.MountSpec | tagfs/__main__.py:64-88 | what the loop leaves in argv and kw; stated by MountOptions.ParseMountArgs and LastOccurrenceWins |
| MountOptions.ParseItemRoundTrip | tagfs/__main__.py:83-88 | each item is stripped; without `=` the key is the whole stripped item, set to `True`; otherwise the key has no `=`, and key, `=` and value give the stripped item back |
| MountOptions.CutAtFirst | tagfs/__main__.py:84-88 | cutting at the first `=`: the part before holds no `=`, and the parts around it give the string back |
| MountOptions.BindStep | tagfs/__main__.py:86-88 | storing the items from position j on is storing item j, then the rest |
| MountOptions.BindAppend | tagfs/__main__.py:82-88 | storing two lists of items is storing the first, then the second |
| MountOptions.ParseAllAppend | tagfs/__main__.py:82 | parsing two lists of items is parsing each |
| MountOptions.ApplyGroupsFlatten | tagfs/__main__.py:66-88 | the option strings taken out of argv, one after another, act like one long list of items |
| MountOptions.LastBindingWins | tagfs/__main__.py:86-88 | the last item with a key decides that key's value |
| MountOptions.KeyUntouched | tagfs/__main__.py:86-88 | a key no item mentions keeps its value, or stays absent |
| MountOptions.LastOccurrenceWins | tagfs/__main__.py:66-88 | within one `-o` string and across several, the last occurrence of a key sets its value in the final map |
| MountOptions.ScanLeavesNoOption | tagfs/__main__.py:66-71 | no argument left at the end equals `-o` or starts with `-o` |
| MountOptions.ScanKeepsOrder | tagfs/__main__.py:73-80 | the arguments left keep their relative order: the result is a subsequence of argv |
| MountOptions.ScanRemovalCount | tagfs/__main__.py:73-80 | each pass removes one or two arguments, so the number removed lies between the number of option strings and twice it |
| MountOptions.MissingArgumentIsTrailing | tagfs/__main__.py:73-74 | an IndexError comes only from a `-o` that is the last argument |
| MountOptions.StandaloneAtEndFails | tagfs/__main__.py:73-74 | conversely, a standalone `-o` reached as the first option argument while it is the last element raises IndexError; a trailing `-o` after an earlier standalone `-o` is taken as that one's option string instead |
| MountOptions.StandaloneTakesNext | tagfs/__main__.py:73-76 | a standalone `-o`, as the first option argument, takes the next element, whatever it is, as its option string, and both leave argv |
| MountOptions.AttachedGivesSuffix | tagfs/__main__.py:78-80 | an attached `-oOPTS` gives the text after its first two characters, and only it leaves argv |
| MountOptions.ScanAttachedOnly | tagfs/__main__.py:66-80 | with no standalone `-o`, exactly the non-option arguments remain, and each option argument gives its text after `-o`, in order |

## Left out

- The SQLite connection and its setup (`executescript`, `commit`) are not modelled. Neither is the per-thread connection of `threading.local`. Each cursor method is one atomic state change.
- Opening an existing database file: `CREATE TABLE IF NOT EXISTS` then keeps the stored rows. The model stands for such a store by any state that satisfies `Valid()`; the constructor gives only the fresh, empty one.
- Store.Database.FilesSetTags: the `tags.new` call inside the loop (tagfs/db.py:400) commits at tagfs/db.py:187. That commits the DELETE and the associations inserted so far, so the call is not one transaction. The model treats the call as one sequential change and does not capture what another connection would see in between.
- The `__getattr__` dispatch, the `CURSOR_TYPES` registry, `__init_subclass__` and the click decorators are not modelled. They are reflection plumbing with no effect on the tables.
- `selections.select` and `selections.matches` are not modelled. They splice stored text into SQL, which would need a model of SQL itself.
- `tags.all_ids` and `files.all_ids` are the `TagIds` and `FileIds` projections and have no contract of their own.
- The order of SELECT results without ORDER BY is not modelled. Listings come out in association order, and only their contents matter: which names and how often. The removal methods state their effect on associations as multisets.
- Tables.FilesGetId and Tables.FilesResolve on a name several rows bear rely on the rowid-order scan assumed above. SQLite does not promise which matching row `fetchone` returns.
- The rowid never wraps. SQLite falls back to a random unused rowid once the largest id is 2^63-1, which the model does not cover.
- Ids passed in by the caller are unbounded integers. sqlite3 raises OverflowError when it binds an int outside [-2^63, 2^63), for example `files.has_tag("a.jpg", 2**63)` or `tags.remove(2**63)`. The model treats such ids as ordinary ids that match no row. This affects every operation that binds a passed-through id: `get_name`, `resolve`, `rename`, `remove`, `add_tag`, `remove_tag`, `has_tag`, `get_by_tag`, `get_tags` and `set_tags`.
- The `options.value` column is untyped in the schema; the model stores strings.
- In `mount()`, the `print`, `Database(sys.argv[1])`, `kw.pop('base_dir')` and the `fuse.FUSE` call are not modelled.
- `argv` is a local sequence passed in and returned, rather than the global `sys.argv`. So `ParseMountArgs` does not model other holders of the list seeing the deletions.
- The CLI classes `DatabaseElementCli` and `DatabaseCli` are not modelled.
- Text.Find: "not found" is the length of the string rather than Python's -1; `ParseItem` tests for it accordingly.
- Store.Lookup: `options.get` is the same lookup on the options table, so it has no member of its own.
- Queries.FilesGetByTag: its contract covers only the sentinel case. The other cases are stated by GetByTagAgreesWithHasTag and GetByTagCount (which names, how often), TagRefsInterchangeable and RemovedTagIsGone.
- has_tag treats the id -1 as the sentinel but get_by_tag does not. The model keeps this difference, and SentinelIdOnlyInHasTag exhibits it.

## Findings

| source | as written | input that shows it | evidently intended | confidence | as-written member | corrected member |
|---|---|---|---|---|---|---|
| tagfs/db.py:173 | `options.unset` issues `REMOVE FROM options WHERE name = ?`, which is not a SQL statement, so sqlite3 raises and the option stays | `options.set("base_dir", "/srv")` then `options.unset("base_dir")` | `DELETE FROM options WHERE name = ?`, after which `options.get` gives NULL | high, not executed | Store.UnsetMissesIntent | Store.UnsetIntended |
