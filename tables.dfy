/** The rows of the store's tables, their integrity rules, the name-or-id
    resolver shared by the tags and files handles, and the DELETE and UPDATE
    statements the handles issue (tagfs/db.py).

    Tables are sequences of rows in rowid order. A row inserted without an
    explicit id gets one more than the largest id present, so appending keeps
    the order, and the first row a scan meets is the one with the lowest id. */
module Tables {
  import opened Sequences
  import opened Sql

  /** The reserved tag that matches every file and never exists as a row. */
  const Sentinel: string := "__ALL__"
  /** The id `tags.get_id` gives the sentinel. */
  const SentinelId: int := -1

  /** A row of `tags(id INTEGER PRIMARY KEY, name TEXT UNIQUE)`. */
  datatype TagRow = TagRow(id: int, name: string)
  /** A row of `files(id INTEGER PRIMARY KEY, name TEXT, path TEXT)`; names may repeat. */
  datatype FileRow = FileRow(id: int, name: string, path: string)
  /** A row of `tag_files(tag_id INTEGER, file_id INTEGER)`: no key, no
      constraint, so rows may repeat and either column may be NULL. */
  datatype Link = Link(tagId: Option<int>, fileId: Option<int>)

  function TagIds(tags: seq<TagRow>): seq<int> {
    seq(|tags|, k requires 0 <= k < |tags| => tags[k].id)
  }

  function TagNames(tags: seq<TagRow>): seq<string> {
    seq(|tags|, k requires 0 <= k < |tags| => tags[k].name)
  }

  function FileIds(files: seq<FileRow>): seq<int> {
    seq(|files|, k requires 0 <= k < |files| => files[k].id)
  }

  function FileNames(files: seq<FileRow>): seq<string> {
    seq(|files|, k requires 0 <= k < |files| => files[k].name)
  }

  /** The rowid SQLite assigns to a row inserted without one: one more than
      the largest rowid of the table, and 1 for an empty table. */
  function NextRowId(ids: seq<int>): (r: int)
    ensures forall k :: 0 <= k < |ids| ==> ids[k] < r
    ensures ids == [] ==> r == 1
    ensures ids != [] ==> r - 1 in ids
  {
    if ids == [] then 1
    else if |ids| == 1 then ids[0] + 1
    else
      var m := NextRowId(ids[1..]);
      if ids[0] < m then m else ids[0] + 1
  }

  // ---------------------------------------------------------------------------
  // Integrity of the tables

  /** Ids ascend (rowid order, hence distinct ids) and names are distinct (UNIQUE). */
  predicate TagOrder(a: TagRow, b: TagRow) {
    a.id < b.id && a.name != b.name
  }

  /** The tags table: ascending positive ids, unique names, and the sentinel
      never stored as a row. */
  ghost predicate ValidTags(tags: seq<TagRow>) {
    && Pairwise(tags, TagOrder)
    && forall k :: 0 <= k < |tags| ==> tags[k].id >= 1 && tags[k].name != Sentinel
  }

  predicate FileOrder(a: FileRow, b: FileRow) {
    a.id < b.id
  }

  /** The files table: ascending positive ids; names may repeat. */
  ghost predicate ValidFiles(files: seq<FileRow>) {
    && Pairwise(files, FileOrder)
    && forall k :: 0 <= k < |files| ==> files[k].id >= 1
  }

  /** The UNIQUE constraint on `tags.name`, as the engine checks it after an UPDATE. */
  predicate UniqueNames(tags: seq<TagRow>) {
    forall i, j :: 0 <= i < j < |tags| ==> tags[i].name != tags[j].name
  }

  // ---------------------------------------------------------------------------
  // Name/id resolver

  function TagIndexByName(tags: seq<TagRow>, n: string): nat {
    FirstIndex(tags, (t: TagRow) => t.name == n)
  }

  function TagIndexById(tags: seq<TagRow>, i: int): nat {
    FirstIndex(tags, (t: TagRow) => t.id == i)
  }

  function FileIndexByName(files: seq<FileRow>, n: string): nat {
    FirstIndex(files, (f: FileRow) => f.name == n)
  }

  function FileIndexById(files: seq<FileRow>, i: int): nat {
    FirstIndex(files, (f: FileRow) => f.id == i)
  }

  /** `tags.get_id`: an id passes through with no existence check, the
      sentinel is -1, and any other name is looked up, NULL when missing. */
  function TagsGetId(tags: seq<TagRow>, ref: Ref): (r: Option<int>)
    ensures ref.Id? ==> r == Some(ref.id)
    ensures ref == Name(Sentinel) ==> r == Some(SentinelId)
    ensures ref.Name? && ref.name != Sentinel ==>
      && (r.Some? <==> exists k :: 0 <= k < |tags| && tags[k].name == ref.name)
      && (r.Some? ==> TagRow(r.value, ref.name) in tags)
  {
    match ref
    case Id(i) => Some(i)
    case Name(n) =>
      if n == Sentinel then Some(SentinelId)
      else
        var k := TagIndexByName(tags, n);
        if k < |tags| then Some(tags[k].id) else None
  }

  /** `tags.get_name`: a name passes through unchanged; an id is looked up,
      NULL when missing. */
  function TagsGetName(tags: seq<TagRow>, ref: Ref): (r: Option<string>)
    ensures ref.Name? ==> r == Some(ref.name)
    ensures ref.Id? ==>
      && (r.Some? <==> exists k :: 0 <= k < |tags| && tags[k].id == ref.id)
      && (r.Some? ==> TagRow(ref.id, r.value) in tags)
  {
    match ref
    case Name(n) => Some(n)
    case Id(i) =>
      var k := TagIndexById(tags, i);
      if k < |tags| then Some(tags[k].name) else None
  }

  /** `tags.exists`: whether `get_id` resolves, so every id and the sentinel "exist". */
  function TagsExists(tags: seq<TagRow>, ref: Ref): (r: bool)
    ensures r <==> ref.Id? || ref.name == Sentinel || exists k :: 0 <= k < |tags| && tags[k].name == ref.name
  {
    TagsGetId(tags, ref).Some?
  }

  /** `files.get_id`: an id passes through unchecked; a name resolves to the
      first matching row (the lowest id), NULL when there is none. */
  function FilesGetId(files: seq<FileRow>, ref: Ref): (r: Option<int>)
    ensures ref.Id? ==> r == Some(ref.id)
    ensures ref.Name? ==> (r.Some? <==> exists k :: 0 <= k < |files| && files[k].name == ref.name)
    ensures ref.Name? && r.Some? ==>
      exists k :: 0 <= k < |files| && files[k].name == ref.name && files[k].id == r.value
        && forall j :: 0 <= j < k ==> files[j].name != ref.name
  {
    match ref
    case Id(i) => Some(i)
    case Name(n) =>
      var k := FileIndexByName(files, n);
      if k < |files| then Some(files[k].id) else None
  }

  /** `files.get_name`: a name passes through unchanged; an id is looked up. */
  function FilesGetName(files: seq<FileRow>, ref: Ref): (r: Option<string>)
    ensures ref.Name? ==> r == Some(ref.name)
    ensures ref.Id? ==>
      && (r.Some? <==> exists k :: 0 <= k < |files| && files[k].id == ref.id)
      && (r.Some? ==> exists k :: 0 <= k < |files| && files[k].id == ref.id && files[k].name == r.value)
  {
    match ref
    case Name(n) => Some(n)
    case Id(i) =>
      var k := FileIndexById(files, i);
      if k < |files| then Some(files[k].name) else None
  }

  /** `files.resolve`: the path of the row with that id, or of the first row
      with that name. */
  function FilesResolve(files: seq<FileRow>, ref: Ref): (r: Option<string>)
    ensures ref.Id? ==> (r.Some? <==> exists k :: 0 <= k < |files| && files[k].id == ref.id)
    ensures ref.Name? ==> (r.Some? <==> exists k :: 0 <= k < |files| && files[k].name == ref.name)
    ensures r.Some? ==>
      exists k :: (0 <= k < |files| && files[k].path == r.value &&
        if ref.Id? then files[k].id == ref.id else files[k].name == ref.name)
  {
    var k := match ref
      case Id(i) => FileIndexById(files, i)
      case Name(n) => FileIndexByName(files, n);
    if k < |files| then Some(files[k].path) else None
  }

  /** `files.exists`: whether `get_id` resolves, so every id "exists". */
  function FilesExists(files: seq<FileRow>, ref: Ref): (r: bool)
    ensures r <==> ref.Id? || exists k :: 0 <= k < |files| && files[k].name == ref.name
  {
    FilesGetId(files, ref).Some?
  }

  /** A name and an id of the same tag are interchangeable references. */
  lemma TagRefsAgree(tags: seq<TagRow>, k: int)
    requires ValidTags(tags) && 0 <= k < |tags|
    ensures TagsGetId(tags, Name(tags[k].name)) == Some(tags[k].id)
    ensures TagsGetName(tags, Id(tags[k].id)) == Some(tags[k].name)
  {
    forall j | 0 <= j < k
      ensures tags[j].name != tags[k].name && tags[j].id != tags[k].id
    {
      assert TagOrder(tags[j], tags[k]);
    }
  }

  /** Tag names are unique: two rows with one name are one row. */
  lemma NameDeterminesTag(tags: seq<TagRow>, j: int, k: int)
    requires ValidTags(tags) && 0 <= j < |tags| && 0 <= k < |tags|
    ensures tags[j].name == tags[k].name ==> j == k
  {
    if j < k {
      assert TagOrder(tags[j], tags[k]);
    } else if k < j {
      assert TagOrder(tags[k], tags[j]);
    }
  }

  /** The same holds for a file reached by name, provided no earlier row
      (lower id) bears that name: `fetchone` returns that earlier row instead. */
  lemma FileRefsAgree(files: seq<FileRow>, k: int)
    requires ValidFiles(files) && 0 <= k < |files|
    requires forall j :: 0 <= j < k ==> files[j].name != files[k].name
    ensures FilesGetId(files, Name(files[k].name)) == Some(files[k].id)
    ensures FilesGetName(files, Id(files[k].id)) == Some(files[k].name)
    ensures FilesResolve(files, Name(files[k].name)) == FilesResolve(files, Id(files[k].id)) == Some(files[k].path)
  {
    forall j | 0 <= j < k
      ensures files[j].id != files[k].id
    {
      assert FileOrder(files[j], files[k]);
    }
    assert FileIndexByName(files, files[k].name) == k;
    assert FileIndexById(files, files[k].id) == k;
  }

  // ---------------------------------------------------------------------------
  // DELETE and SELECT on the tag_files, tags and files tables

  /** `DELETE FROM tag_files WHERE tag_id = t` */
  function UnlinkTag(links: seq<Link>, t: Option<int>): seq<Link> {
    Filter(links, (l: Link) => !Eq(l.tagId, t))
  }

  /** `DELETE FROM tag_files WHERE file_id = f` */
  function UnlinkFile(links: seq<Link>, f: Option<int>): seq<Link> {
    Filter(links, (l: Link) => !Eq(l.fileId, f))
  }

  /** `DELETE FROM tag_files WHERE tag_id = t AND file_id = f` */
  function UnlinkPair(links: seq<Link>, t: Option<int>, f: Option<int>): seq<Link> {
    Filter(links, (l: Link) => !(Eq(l.tagId, t) && Eq(l.fileId, f)))
  }

  /** `DELETE FROM tags WHERE id = t` */
  function DropTag(tags: seq<TagRow>, t: Option<int>): seq<TagRow> {
    Filter(tags, (r: TagRow) => !Eq(Some(r.id), t))
  }

  /** `DELETE FROM files WHERE id = f` */
  function DropFile(files: seq<FileRow>, f: Option<int>): seq<FileRow> {
    Filter(files, (r: FileRow) => !Eq(Some(r.id), f))
  }

  /** `SELECT ... FROM tag_files WHERE tag_id = t` */
  function LinksOfTag(links: seq<Link>, t: Option<int>): seq<Link> {
    Filter(links, (l: Link) => Eq(l.tagId, t))
  }

  /** `SELECT ... FROM tag_files WHERE file_id = f` */
  function LinksOfFile(links: seq<Link>, f: Option<int>): seq<Link> {
    Filter(links, (l: Link) => Eq(l.fileId, f))
  }

  /** `SELECT ... FROM tag_files WHERE tag_id = t AND file_id = f` */
  function LinksOfPair(links: seq<Link>, t: Option<int>, f: Option<int>): seq<Link> {
    Filter(links, (l: Link) => Eq(l.tagId, t) && Eq(l.fileId, f))
  }

  /** A NULL key matches no row: deleting by it removes nothing and selecting
      by it finds nothing. This is why an unknown name is a silent no-op. */
  lemma NullMatchesNothing(tags: seq<TagRow>, files: seq<FileRow>, links: seq<Link>, o: Option<int>)
    ensures UnlinkTag(links, None) == links && UnlinkFile(links, None) == links
    ensures UnlinkPair(links, None, o) == links && UnlinkPair(links, o, None) == links
    ensures DropTag(tags, None) == tags && DropFile(files, None) == files
    ensures LinksOfTag(links, None) == [] && LinksOfFile(links, None) == []
  {
    FilterKeepsAll(links, (l: Link) => !Eq(l.tagId, None));
    FilterKeepsAll(links, (l: Link) => !Eq(l.fileId, None));
    FilterKeepsAll(links, (l: Link) => !(Eq(l.tagId, None) && Eq(l.fileId, o)));
    FilterKeepsAll(links, (l: Link) => !(Eq(l.tagId, o) && Eq(l.fileId, None)));
    FilterKeepsAll(tags, (r: TagRow) => !Eq(Some(r.id), None));
    FilterKeepsAll(files, (r: FileRow) => !Eq(Some(r.id), None));
    FilterKeepsNone(links, (l: Link) => Eq(l.tagId, None));
    FilterKeepsNone(links, (l: Link) => Eq(l.fileId, None));
  }

  // ---------------------------------------------------------------------------
  // UPDATE on the tags and files tables

  /** Whether a row is selected by `WHERE id = ?` (an id) or `WHERE name = ?` (a name). */
  predicate TagSelected(row: TagRow, src: Ref) {
    match src
    case Id(i) => row.id == i
    case Name(n) => row.name == n
  }

  predicate FileSelected(row: FileRow, src: Ref) {
    match src
    case Id(i) => row.id == i
    case Name(n) => row.name == n
  }

  /** `UPDATE tags SET name = dst WHERE id = src` (or `WHERE name = src`). */
  function RenameTags(tags: seq<TagRow>, src: Ref, dst: string): seq<TagRow> {
    seq(|tags|, k requires 0 <= k < |tags| => if TagSelected(tags[k], src) then tags[k].(name := dst) else tags[k])
  }

  /** `UPDATE files SET name = dst WHERE id = src` (or `WHERE name = src`):
      every row of that name is renamed, since names may repeat. */
  function RenameFiles(files: seq<FileRow>, src: Ref, dst: string): seq<FileRow> {
    seq(|files|, k requires 0 <= k < |files| => if FileSelected(files[k], src) then files[k].(name := dst) else files[k])
  }

  // ---------------------------------------------------------------------------
  // Each statement keeps the tables valid

  lemma DropTagKeepsValid(tags: seq<TagRow>, t: Option<int>)
    requires ValidTags(tags)
    ensures ValidTags(DropTag(tags, t))
    ensures forall r :: r in DropTag(tags, t) ==> r in tags && !Eq(Some(r.id), t)
  {
    var kept := DropTag(tags, t);
    FilterKeepsPairwise(tags, (r: TagRow) => !Eq(Some(r.id), t), TagOrder);
    forall k | 0 <= k < |kept|
      ensures kept[k].id >= 1 && kept[k].name != Sentinel
    {
      assert kept[k] in tags;
    }
  }

  lemma DropFileKeepsValid(files: seq<FileRow>, f: Option<int>)
    requires ValidFiles(files)
    ensures ValidFiles(DropFile(files, f))
    ensures forall r :: r in DropFile(files, f) ==> r in files && !Eq(Some(r.id), f)
  {
    var kept := DropFile(files, f);
    FilterKeepsPairwise(files, (r: FileRow) => !Eq(Some(r.id), f), FileOrder);
    forall k | 0 <= k < |kept|
      ensures kept[k].id >= 1
    {
      assert kept[k] in files;
    }
  }

  /** Inserting a tag under the next rowid keeps the table valid when the name
      is neither taken nor the sentinel. */
  lemma AppendTagKeepsValid(tags: seq<TagRow>, name: string)
    requires ValidTags(tags)
    requires name != Sentinel && forall k :: 0 <= k < |tags| ==> tags[k].name != name
    ensures ValidTags(tags + [TagRow(NextRowId(TagIds(tags)), name)])
  {
    var id := NextRowId(TagIds(tags));
    var row := TagRow(id, name);
    var grown := tags + [row];
    TagIdsPositive(tags);
    forall i, j | 0 <= i < j < |grown|
      ensures TagOrder(grown[i], grown[j])
    {
      assert grown[i] == tags[i];
      if j < |tags| {
        assert grown[j] == tags[j];
      } else {
        assert grown[j] == row;
        assert TagIds(tags)[i] < id;
      }
    }
    forall k | 0 <= k < |grown|
      ensures grown[k].id >= 1 && grown[k].name != Sentinel
    {
      if k < |tags| {
        assert grown[k] == tags[k];
      }
    }
  }

  /** The next rowid of a valid tags table is positive. */
  lemma TagIdsPositive(tags: seq<TagRow>)
    requires ValidTags(tags)
    ensures NextRowId(TagIds(tags)) >= 1
  {
    if tags != [] {
      var m :| 0 <= m < |tags| && TagIds(tags)[m] == NextRowId(TagIds(tags)) - 1;
      assert tags[m].id >= 1;
    }
  }

  /** `tags.new` then `get_id` gives the new row's id, and `get_name` of that
      id gives the name back. */
  lemma NewTagResolves(tags: seq<TagRow>, name: string)
    requires ValidTags(tags)
    requires name != Sentinel && forall k :: 0 <= k < |tags| ==> tags[k].name != name
    ensures var id := NextRowId(TagIds(tags));
      var tags' := tags + [TagRow(id, name)];
      && TagsGetId(tags', Name(name)) == Some(id)
      && TagsGetName(tags', Id(id)) == Some(name)
  {
    AppendTagKeepsValid(tags, name);
    TagRefsAgree(tags + [TagRow(NextRowId(TagIds(tags)), name)], |tags|);
  }

  lemma AppendFileKeepsValid(files: seq<FileRow>, name: string, path: string)
    requires ValidFiles(files)
    ensures ValidFiles(files + [FileRow(NextRowId(FileIds(files)), name, path)])
  {
    var id := NextRowId(FileIds(files));
    var row := FileRow(id, name, path);
    var grown := files + [row];
    FileIdsPositive(files);
    forall i, j | 0 <= i < j < |grown|
      ensures FileOrder(grown[i], grown[j])
    {
      assert grown[i] == files[i];
      if j < |files| {
        assert grown[j] == files[j];
      } else {
        assert grown[j] == row;
        assert FileIds(files)[i] < id;
      }
    }
    forall k | 0 <= k < |grown|
      ensures grown[k].id >= 1
    {
      if k < |files| {
        assert grown[k] == files[k];
      }
    }
  }

  /** The next rowid of a valid files table is positive. */
  lemma FileIdsPositive(files: seq<FileRow>)
    requires ValidFiles(files)
    ensures NextRowId(FileIds(files)) >= 1
  {
    if files != [] {
      var m :| 0 <= m < |files| && FileIds(files)[m] == NextRowId(FileIds(files)) - 1;
      assert files[m].id >= 1;
    }
  }

  /** `files.new` then `get_id` of its name gives the new row's id unless an
      older file already bears the name, in which case the older one still wins. */
  lemma NewFileNameResolves(files: seq<FileRow>, name: string, path: string)
    requires ValidFiles(files)
    ensures var id := NextRowId(FileIds(files));
      var files' := files + [FileRow(id, name, path)];
      FilesGetId(files', Name(name)) == (if FilesGetId(files, Name(name)).Some? then FilesGetId(files, Name(name)) else Some(id))
  {
    var id := NextRowId(FileIds(files));
    var row := FileRow(id, name, path);
    var files' := files + [row];
    if FilesGetId(files, Name(name)).Some? {
      FirstIndexExtend(files, [row], (f: FileRow) => f.name == name);
    } else {
      assert files'[|files|] == row;
    }
  }

  /** After `files.new`, the new id resolves to the new path. */
  lemma NewFileIdResolves(files: seq<FileRow>, name: string, path: string)
    requires ValidFiles(files)
    ensures var id := NextRowId(FileIds(files));
      FilesResolve(files + [FileRow(id, name, path)], Id(id)) == Some(path)
  {
    var id := NextRowId(FileIds(files));
    var row := FileRow(id, name, path);
    var files' := files + [row];
    FreshFileId(files, files');
    assert files'[|files|] == row;
    assert FileIndexById(files', id) == |files|;
  }

  /** No old row carries the next rowid. */
  lemma FreshFileId(files: seq<FileRow>, files': seq<FileRow>)
    requires files <= files'
    ensures forall j :: 0 <= j < |files| ==> files'[j].id != NextRowId(FileIds(files))
  {
    forall j | 0 <= j < |files|
      ensures files'[j].id != NextRowId(FileIds(files))
    {
      assert files'[j] == files[j];
      assert FileIds(files)[j] == files[j].id;
    }
  }

  /** A rename keeps the tags table valid when the new names are unique and the
      new name is not the sentinel. */
  lemma RenameTagsKeepsValid(tags: seq<TagRow>, src: Ref, dst: string)
    requires ValidTags(tags) && dst != Sentinel && UniqueNames(RenameTags(tags, src, dst))
    ensures ValidTags(RenameTags(tags, src, dst))
  {
  }

  /** After a successful `tags.rename`, the renamed row keeps its id, the new
      name resolves to it, its id names the new name, and no other row changes. */
  lemma RenameTagMovesName(tags: seq<TagRow>, src: Ref, dst: string, k: int)
    requires ValidTags(tags) && 0 <= k < |tags| && TagSelected(tags[k], src)
    requires dst != Sentinel && UniqueNames(RenameTags(tags, src, dst))
    ensures var tags' := RenameTags(tags, src, dst);
      && TagsGetId(tags', Name(dst)) == Some(tags[k].id)
      && TagsGetName(tags', Id(tags[k].id)) == Some(dst)
      && TagIds(tags') == TagIds(tags)
      && forall j :: 0 <= j < |tags| && j != k ==> tags'[j] == tags[j]
  {
    var tags' := RenameTags(tags, src, dst);
    RenameTagsKeepsValid(tags, src, dst);
    TagRefsAgree(tags', k);
    forall j | 0 <= j < |tags| && j != k
      ensures !TagSelected(tags[j], src)
    {
      NameDeterminesTag(tags, j, k);
      if j < k {
        assert TagOrder(tags[j], tags[k]);
      } else {
        assert TagOrder(tags[k], tags[j]);
      }
    }
  }

  lemma RenameFilesKeepsValid(files: seq<FileRow>, src: Ref, dst: string)
    requires ValidFiles(files)
    ensures ValidFiles(RenameFiles(files, src, dst))
  {
  }

  /** After `files.rename` by id, that id names the new name and still
      resolves to the same path, and the ids are unchanged. */
  lemma RenameFileMovesName(files: seq<FileRow>, dst: string, k: int)
    requires ValidFiles(files) && 0 <= k < |files|
    ensures var id := files[k].id;
      var files' := RenameFiles(files, Id(id), dst);
      && FilesGetName(files', Id(id)) == Some(dst)
      && FilesResolve(files', Id(id)) == Some(files[k].path)
      && FileIds(files') == FileIds(files)
  {
    var id := files[k].id;
    var files' := RenameFiles(files, Id(id), dst);
    forall j | 0 <= j < k
      ensures files'[j].id != id
    {
      assert FileOrder(files[j], files[k]);
    }
    assert files'[k] == files[k].(name := dst);
  }
}
