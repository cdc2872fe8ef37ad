/** The metadata store of tagfs/db.py: the five tables as the fields of one
    object, and every mutating cursor method (`tags`, `files`, `selections`,
    `options`) as a method on it. Each call is one state transition: a
    statement that violates a UNIQUE constraint raises and leaves its table
    as it was. The read-only cursor methods are the functions of the Tables,
    Queries and TagAssignment modules, applied to the fields. */
module Store {
  import opened Sequences
  import opened Sql
  import opened Tables
  import opened TagAssignment

  /** What a mutating call ends with: its return value, or the exception
      sqlite3 raises (IntegrityError for a UNIQUE violation, OperationalError
      for a statement that does not parse). */
  datatype Status = Done(ok: bool) | ConstraintFailed | SyntaxError

  /** `SELECT value FROM <table> WHERE name = ?` on the `selections` or
      `options` table: the stored value, NULL when no row has that name
      (`selections.resolve`, `options.get`). */
  function Lookup(table: map<string, string>, name: string): (r: Option<string>)
    ensures r.Some? <==> name in table
    ensures r.Some? ==> r.value == table[name]
  {
    if name in table then Some(table[name]) else None
  }

  /** `selections.exists`: whether `resolve` gives a value. */
  function SelectionsExists(selections: map<string, string>, name: string): (r: bool)
    ensures r <==> Lookup(selections, name) != None
  {
    name in selections
  }

  /** `selections.all_names`: the names `resolve` finds a value for (UNIQUE,
      so each once). */
  function AllNames(table: map<string, string>): (r: set<string>)
    ensures forall n :: n in r <==> Lookup(table, n).Some?
  {
    table.Keys
  }

  /** `options.unset` as written: its statement begins with `REMOVE`, which
      is not SQL, so sqlite3 raises and the table stays as it was. */
  function UnsetAsWritten(options: map<string, string>, name: string): (Status, map<string, string>) {
    (SyntaxError, options)
  }

  /** What `options.unset` evidently means, `DELETE FROM options WHERE name = ?`:
      the option is gone and every other option keeps its value. */
  function UnsetIntended(options: map<string, string>, name: string): (r: map<string, string>)
    ensures Lookup(r, name) == None
    ensures forall n :: n != name ==> Lookup(r, n) == Lookup(options, n)
  {
    options - {name}
  }

  /** The discrepancy: on a stored option, the call as written leaves the
      value readable by `options.get` and reports an error, where the
      intended statement would have removed it. */
  lemma UnsetMissesIntent(options: map<string, string>, name: string)
    requires name in options
    ensures var (s, after) := UnsetAsWritten(options, name);
      && s == SyntaxError
      && Lookup(after, name) == Some(options[name])
      && Lookup(UnsetIntended(options, name), name) == None
  {
  }

  class Database {
    var tags: seq<TagRow>
    var links: seq<Link>
    var files: seq<FileRow>
    var options: map<string, string>
    var selections: map<string, string>

    /** The integrity rules the tags and files tables keep between calls. */
    ghost predicate Valid()
      reads this
    {
      ValidTags(tags) && ValidFiles(files)
    }

    /** A store whose schema script has just created the five tables. */
    constructor ()
      ensures Valid()
      ensures tags == [] && links == [] && files == []
      ensures options == map[] && selections == map[]
    {
      tags, links, files := [], [], [];
      options, selections := map[], map[];
    }

    // -------------------------------------------------------------------------
    // tags

    /** `tags.new`: refuses the sentinel; fails on a name already present;
        otherwise inserts one row under a fresh rowid. */
    method TagsNew(name: string) returns (s: Status)
      requires Valid()
      modifies this`tags
      ensures Valid()
      ensures name == Sentinel ==> s == Done(false) && tags == old(tags)
      ensures name != Sentinel && name in TagNames(old(tags)) ==> s == ConstraintFailed && tags == old(tags)
      ensures name != Sentinel && name !in TagNames(old(tags)) ==>
        && s == Done(true)
        && tags == old(tags) + [TagRow(NextRowId(TagIds(old(tags))), name)]
        && forall t :: t in old(tags) ==> t.id < tags[|tags| - 1].id
    {
      if name == Sentinel {
        return Done(false);
      }
      if name in TagNames(tags) {
        return ConstraintFailed;
      }
      forall k | 0 <= k < |tags|
        ensures tags[k].name != name
      {
        assert TagNames(tags)[k] == tags[k].name;
      }
      AppendTagKeepsValid(tags, name);
      tags := tags + [TagRow(NextRowId(TagIds(tags)), name)];
      forall t | t in old(tags)
        ensures t.id < tags[|tags| - 1].id
      {
        var k :| 0 <= k < |old(tags)| && old(tags)[k] == t;
        assert TagIds(old(tags))[k] == t.id;
      }
      s := Done(true);
    }

    /** `tags.remove`: refuses the sentinel name; otherwise deletes the
        associations and the row of the resolved id, which is a no-op (still
        reported as success) when the name is unknown. */
    method TagsRemove(ref: Ref) returns (ok: bool)
      requires Valid()
      modifies this`tags, this`links
      ensures Valid()
      ensures ref == Name(Sentinel) ==> !ok && tags == old(tags) && links == old(links)
      ensures ref != Name(Sentinel) ==>
        var id := TagsGetId(old(tags), ref);
        && ok
        && tags == DropTag(old(tags), id)
        && links == UnlinkTag(old(links), id)
        && (forall t :: t in old(tags) ==> (t in tags <==> !Eq(Some(t.id), id)))
        && (forall l :: multiset(links)[l] == if Eq(l.tagId, id) then 0 else multiset(old(links))[l])
      ensures ref != Name(Sentinel) && TagsGetId(old(tags), ref) == None ==>
        tags == old(tags) && links == old(links)
    {
      if ref == Name(Sentinel) {
        return false;
      }
      var id := TagsGetId(tags, ref);
      forall l
        ensures multiset(UnlinkTag(links, id))[l] == if Eq(l.tagId, id) then 0 else multiset(links)[l]
      {
        FilterCount(links, (l: Link) => !Eq(l.tagId, id), l);
      }
      NullMatchesNothing(tags, files, links, None);
      DropTagKeepsValid(tags, id);
      links := UnlinkTag(links, id);
      tags := DropTag(tags, id);
      ok := true;
    }

    /** `tags.rename`: refuses the sentinel on either side; otherwise renames
        the row selected by id or by name, failing when the new name is taken. */
    method TagsRename(src: Ref, dst: string) returns (s: Status)
      requires Valid()
      modifies this`tags
      ensures Valid()
      ensures src == Name(Sentinel) || dst == Sentinel ==> s == Done(false) && tags == old(tags)
      ensures src != Name(Sentinel) && dst != Sentinel ==>
        if UniqueNames(RenameTags(old(tags), src, dst))
        then s == Done(true) && tags == RenameTags(old(tags), src, dst)
        else s == ConstraintFailed && tags == old(tags)
    {
      if src == Name(Sentinel) || dst == Sentinel {
        return Done(false);
      }
      var renamed := RenameTags(tags, src, dst);
      if !UniqueNames(renamed) {
        return ConstraintFailed;
      }
      RenameTagsKeepsValid(tags, src, dst);
      tags := renamed;
      s := Done(true);
    }

    // -------------------------------------------------------------------------
    // files

    /** `files.new`: inserts one row under a fresh rowid; names may repeat. */
    method FilesNew(name: string, path: string) returns (ok: bool)
      requires Valid()
      modifies this`files
      ensures Valid() && ok
      ensures files == old(files) + [FileRow(NextRowId(FileIds(old(files))), name, path)]
    {
      AppendFileKeepsValid(files, name, path);
      files := files + [FileRow(NextRowId(FileIds(files)), name, path)];
      ok := true;
    }

    /** `files.remove`: deletes the associations and the row of the resolved
        id; an unknown name resolves to NULL and removes nothing. */
    method FilesRemove(ref: Ref) returns (ok: bool)
      requires Valid()
      modifies this`files, this`links
      ensures Valid() && ok
      ensures var id := FilesGetId(old(files), ref);
        && files == DropFile(old(files), id)
        && links == UnlinkFile(old(links), id)
        && (forall r :: r in old(files) ==> (r in files <==> !Eq(Some(r.id), id)))
        && (forall l :: multiset(links)[l] == if Eq(l.fileId, id) then 0 else multiset(old(links))[l])
    {
      var id := FilesGetId(files, ref);
      forall l
        ensures multiset(UnlinkFile(links, id))[l] == if Eq(l.fileId, id) then 0 else multiset(links)[l]
      {
        FilterCount(links, (l: Link) => !Eq(l.fileId, id), l);
      }
      DropFileKeepsValid(files, id);
      links := UnlinkFile(links, id);
      files := DropFile(files, id);
      ok := true;
    }

    /** `files.rename`: renames every row selected by id or by name. */
    method FilesRename(src: Ref, dst: string) returns (ok: bool)
      requires Valid()
      modifies this`files
      ensures Valid() && ok
      ensures files == RenameFiles(old(files), src, dst)
    {
      RenameFilesKeepsValid(files, src, dst);
      files := RenameFiles(files, src, dst);
      ok := true;
    }

    /** `files.add_tag`: refuses the sentinel name; otherwise appends one
        association of the two resolved ids (NULL where one is unknown), so
        repeated calls accumulate duplicates. */
    method FilesAddTag(file: Ref, tag: Ref) returns (ok: bool)
      modifies this`links
      ensures tag == Name(Sentinel) ==> !ok && links == old(links)
      ensures tag != Name(Sentinel) ==>
        ok && links == old(links) + [Link(TagsGetId(tags, tag), FilesGetId(files, file))]
    {
      if tag == Name(Sentinel) {
        return false;
      }
      links := links + [Link(TagsGetId(tags, tag), FilesGetId(files, file))];
      ok := true;
    }

    /** `files.remove_tag`: refuses the sentinel name; otherwise deletes every
        association of the resolved pair, and only those. */
    method FilesRemoveTag(file: Ref, tag: Ref) returns (ok: bool)
      modifies this`links
      ensures tag == Name(Sentinel) ==> !ok && links == old(links)
      ensures tag != Name(Sentinel) ==>
        var t, f := TagsGetId(tags, tag), FilesGetId(files, file);
        && ok
        && links == UnlinkPair(old(links), t, f)
        && forall l :: multiset(links)[l] == if Eq(l.tagId, t) && Eq(l.fileId, f) then 0 else multiset(old(links))[l]
    {
      if tag == Name(Sentinel) {
        return false;
      }
      var t, f := TagsGetId(tags, tag), FilesGetId(files, file);
      forall l
        ensures multiset(UnlinkPair(links, t, f))[l] == if Eq(l.tagId, t) && Eq(l.fileId, f) then 0 else multiset(links)[l]
      {
        FilterCount(links, (l: Link) => !(Eq(l.tagId, t) && Eq(l.fileId, f)), l);
      }
      links := UnlinkPair(links, t, f);
      ok := true;
    }

    /** The body of the `set_tags` loop for one tag: `get_id`, and when that
        is NULL, `tags.new` and `get_id` again. */
    method ResolveTag(tag: Ref) returns (i: Option<int>)
      requires Valid()
      modifies this`tags
      ensures Valid()
      ensures (tags, i) == ResolveOrCreate(old(tags), tag)
    {
      i := TagsGetId(tags, tag);
      if i.None? {
        ResolveMissingName(tags, tag);
        var _ := TagsNew(tag.name);
        i := TagsGetId(tags, tag);
      }
    }

    /** `files.set_tags`: deletes the file's associations, then for each tag
        in turn resolves it, calling `tags.new` when it is unknown, and
        appends one association. The result is `TagAssignment.SetTags`, whose
        lemmas state what it means. */
    method FilesSetTags(file: Ref, ts: seq<Ref>) returns (ok: bool)
      requires Valid()
      modifies this`tags, this`links
      ensures Valid() && ok
      ensures (tags, links) == SetTags(old(tags), old(links), FilesGetId(files, file), ts)
    {
      var f := FilesGetId(files, file);
      ghost var target := SetTags(tags, links, f, ts);
      links := UnlinkFile(links, f);
      var j := 0;
      while j < |ts|
        invariant 0 <= j <= |ts|
        invariant Valid()
        invariant target.0 == ResolveAll(tags, f, ts[j..]).0
        invariant target.1 == links + ResolveAll(tags, f, ts[j..]).1
      {
        ghost var before := tags;
        var i := ResolveTag(ts[j]);
        ResolveAllStep(target, before, links, f, ts, j);
        links := links + [Link(i, f)];
        j := j + 1;
      }
      ResolveAllDone(target, tags, links, f, ts);
      ok := true;
    }

    // -------------------------------------------------------------------------
    // selections

    /** `selections.new`: fails when the name is taken (UNIQUE), otherwise
        stores the value. */
    method SelectionsNew(name: string, value: string) returns (s: Status)
      modifies this`selections
      ensures name in old(selections) ==> s == ConstraintFailed && selections == old(selections)
      ensures name !in old(selections) ==> s == Done(true) && selections == old(selections)[name := value]
      ensures s == Done(true) ==> Lookup(selections, name) == Some(value)
    {
      if name in selections {
        return ConstraintFailed;
      }
      selections := selections[name := value];
      s := Done(true);
    }

    /** `selections.remove`: deletes the selection of that name, if any. */
    method SelectionsRemove(name: string) returns (ok: bool)
      modifies this`selections
      ensures ok && selections == old(selections) - {name}
      ensures Lookup(selections, name) == None
    {
      selections := selections - {name};
      ok := true;
    }

    /** `selections.rename`: refuses the sentinel on either side; renaming a
        missing selection changes nothing; renaming onto another taken name
        fails (UNIQUE); otherwise the value moves to the new name. */
    method SelectionsRename(src: string, dst: string) returns (s: Status)
      modifies this`selections
      ensures src == Sentinel || dst == Sentinel ==> s == Done(false) && selections == old(selections)
      ensures src != Sentinel && dst != Sentinel ==>
        if src !in old(selections) || src == dst then
          s == Done(true) && selections == old(selections)
        else if dst in old(selections) then
          s == ConstraintFailed && selections == old(selections)
        else
          && s == Done(true)
          && selections == (old(selections) - {src})[dst := old(selections)[src]]
          && Lookup(selections, dst) == Lookup(old(selections), src)
          && Lookup(selections, src) == None
    {
      if src == Sentinel || dst == Sentinel {
        return Done(false);
      }
      if src !in selections || src == dst {
        return Done(true);
      }
      if dst in selections {
        return ConstraintFailed;
      }
      selections := (selections - {src})[dst := selections[src]];
      s := Done(true);
    }

    // -------------------------------------------------------------------------
    // options

    /** `options.set`: INSERT OR REPLACE, so a later set overwrites an earlier one. */
    method OptionsSet(name: string, value: string)
      modifies this`options
      ensures options == old(options)[name := value]
      ensures Lookup(options, name) == Some(value)
    {
      options := options[name := value];
    }

    /** `options.unset`, as written: it always raises and never changes the
        table (see `UnsetMissesIntent`). */
    method OptionsUnset(name: string) returns (s: Status)
      ensures (s, options) == UnsetAsWritten(options, name)
      ensures s == SyntaxError
    {
      s := SyntaxError;
    }
  }
}
