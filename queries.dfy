/** The read-only queries of the files handle that join `tag_files` with the
    tags and files tables (`has_tag`, `get_by_tag`, `get_tags`), and what the
    removals and tagging operations do to them (tagfs/db.py). Listings are
    produced in link order; SQLite promises no order for them, so only their
    contents (as multisets) model the source. */
module Queries {
  import opened Sequences
  import opened Sql
  import opened Tables

  /** Whether a tag reference is one that `has_tag` treats as the sentinel. */
  predicate IsSentinelRef(tag: Ref) {
    tag == Name(Sentinel) || tag == Id(SentinelId)
  }

  /** `files.has_tag`: the sentinel, by name or as -1, is carried by every
      file without reading any table; otherwise some association row must
      link the resolved tag id and the resolved file id (a NULL on either
      side matches nothing). */
  function FilesHasTag(tags: seq<TagRow>, files: seq<FileRow>, links: seq<Link>, file: Ref, tag: Ref): (r: bool)
    ensures IsSentinelRef(tag) ==> r
    ensures !IsSentinelRef(tag) ==>
      (r <==> exists l :: l in links && Eq(l.tagId, TagsGetId(tags, tag)) && Eq(l.fileId, FilesGetId(files, file)))
  {
    if IsSentinelRef(tag) then true
    else
      var t, f := TagsGetId(tags, tag), FilesGetId(files, file);
      FilterNonEmpty(links, (l: Link) => Eq(l.tagId, t) && Eq(l.fileId, f));
      LinksOfPair(links, t, f) != []
  }

  /** The file rows whose id equals `f`. */
  function FilesWithId(files: seq<FileRow>, f: Option<int>): seq<FileRow> {
    Filter(files, (r: FileRow) => Eq(Some(r.id), f))
  }

  /** The tag rows whose id equals `t`. */
  function TagsWithId(tags: seq<TagRow>, t: Option<int>): seq<TagRow> {
    Filter(tags, (r: TagRow) => Eq(Some(r.id), t))
  }

  /** `SELECT files.name FROM files INNER JOIN tag_files ON tag_files.file_id = files.id`
      over the given links: one name per matching (link, file) pair. */
  function JoinFileNames(files: seq<FileRow>, links: seq<Link>): seq<string> {
    if links == [] then []
    else FileNames(FilesWithId(files, links[0].fileId)) + JoinFileNames(files, links[1..])
  }

  /** `SELECT tags.name FROM tag_files INNER JOIN tags ON tags.id = tag_files.tag_id`
      over the given links: one name per matching (link, tag) pair. */
  function JoinTagNames(tags: seq<TagRow>, links: seq<Link>): seq<string> {
    if links == [] then []
    else TagNames(TagsWithId(tags, links[0].tagId)) + JoinTagNames(tags, links[1..])
  }

  /** `files.get_by_tag`: the sentinel name lists every file without a join;
      any other reference, -1 included, lists the files joined through links
      carrying the resolved tag id. */
  function FilesGetByTag(tags: seq<TagRow>, files: seq<FileRow>, links: seq<Link>, tag: Ref): (r: seq<string>)
    ensures tag == Name(Sentinel) ==> r == FileNames(files)
  {
    if tag == Name(Sentinel) then FileNames(files)
    else JoinFileNames(files, LinksOfTag(links, TagsGetId(tags, tag)))
  }

  /** `files.get_tags`: the names of the tags linked to the resolved file id;
      an unknown file resolves to NULL, which no link matches. */
  function FilesGetTags(tags: seq<TagRow>, files: seq<FileRow>, links: seq<Link>, file: Ref): (r: seq<string>)
    ensures FilesGetId(files, file) == None ==> r == []
  {
    NullMatchesNothing(tags, files, links, None);
    JoinTagNames(tags, LinksOfFile(links, FilesGetId(files, file)))
  }

  lemma InFileNames(rows: seq<FileRow>, n: string)
    ensures n in FileNames(rows) <==> exists f :: f in rows && f.name == n
  {
    if f :| f in rows && f.name == n {
      var k :| 0 <= k < |rows| && rows[k] == f;
      assert FileNames(rows)[k] == n;
    }
  }

  lemma InTagNames(rows: seq<TagRow>, n: string)
    ensures n in TagNames(rows) <==> exists t :: t in rows && t.name == n
  {
    if t :| t in rows && t.name == n {
      var k :| 0 <= k < |rows| && rows[k] == t;
      assert TagNames(rows)[k] == n;
    }
  }

  /** A name is in the join exactly when some link points at a file row of that name. */
  lemma {:induction false} JoinFileNamesMembership(files: seq<FileRow>, links: seq<Link>, n: string)
    ensures n in JoinFileNames(files, links) <==>
      exists l, f :: l in links && f in files && Eq(l.fileId, Some(f.id)) && f.name == n
  {
    if links != [] {
      JoinFileNamesMembership(files, links[1..], n);
      InFileNames(FilesWithId(files, links[0].fileId), n);
      if n in JoinFileNames(files, links[1..]) {
        var l, f :| l in links[1..] && f in files && Eq(l.fileId, Some(f.id)) && f.name == n;
        assert l in links;
      }
    }
  }

  /** A name is in the join exactly when some link points at a tag row of that name. */
  lemma {:induction false} JoinTagNamesMembership(tags: seq<TagRow>, links: seq<Link>, n: string)
    ensures n in JoinTagNames(tags, links) <==>
      exists l, t :: l in links && t in tags && Eq(l.tagId, Some(t.id)) && t.name == n
  {
    if links != [] {
      JoinTagNamesMembership(tags, links[1..], n);
      InTagNames(TagsWithId(tags, links[0].tagId), n);
      if n in JoinTagNames(tags, links[1..]) {
        var l, t :| l in links[1..] && t in tags && Eq(l.tagId, Some(t.id)) && t.name == n;
        assert l in links;
      }
    }
  }

  /** Whether link `l` joins to a file row named `n`. */
  ghost predicate LinksToFileNamed(files: seq<FileRow>, l: Link, n: string) {
    exists f :: f in files && Eq(l.fileId, Some(f.id)) && f.name == n
  }

  /** Whether link `l` joins to a tag row named `n`. */
  ghost predicate LinksToTagNamed(tags: seq<TagRow>, l: Link, n: string) {
    exists t :: t in tags && Eq(l.tagId, Some(t.id)) && t.name == n
  }

  /** The links that join to a file row named `n`. */
  ghost function FileLinksNamed(files: seq<FileRow>, links: seq<Link>, n: string): seq<Link> {
    Filter(links, (l: Link) => LinksToFileNamed(files, l, n))
  }

  /** The links that join to a tag row named `n`. */
  ghost function TagLinksNamed(tags: seq<TagRow>, links: seq<Link>, n: string): seq<Link> {
    Filter(links, (l: Link) => LinksToTagNamed(tags, l, n))
  }

  /** `id` is the primary key: a valid files table has at most one row per id. */
  lemma {:induction false} FileIdIsKey(files: seq<FileRow>, o: Option<int>)
    requires ValidFiles(files)
    ensures |FilesWithId(files, o)| <= 1
  {
    if files != [] {
      var rest := files[1..];
      assert forall i, j :: 0 <= i < j < |rest| ==> rest[i] == files[i + 1] && rest[j] == files[j + 1];
      if Eq(Some(files[0].id), o) {
        forall x | x in rest
          ensures !Eq(Some(x.id), o)
        {
          var j :| 0 <= j < |rest| && rest[j] == x;
          assert FileOrder(files[0], files[j + 1]);
        }
        FilterKeepsNone(rest, (r: FileRow) => Eq(Some(r.id), o));
      } else {
        FileIdIsKey(rest, o);
      }
    }
  }

  /** The same for the tags table. */
  lemma {:induction false} TagIdIsKey(tags: seq<TagRow>, o: Option<int>)
    requires ValidTags(tags)
    ensures |TagsWithId(tags, o)| <= 1
  {
    if tags != [] {
      var rest := tags[1..];
      assert forall i, j :: 0 <= i < j < |rest| ==> rest[i] == tags[i + 1] && rest[j] == tags[j + 1];
      if Eq(Some(tags[0].id), o) {
        forall x | x in rest
          ensures !Eq(Some(x.id), o)
        {
          var j :| 0 <= j < |rest| && rest[j] == x;
          assert TagOrder(tags[0], tags[j + 1]);
        }
        FilterKeepsNone(rest, (r: TagRow) => Eq(Some(r.id), o));
      } else {
        TagIdIsKey(rest, o);
      }
    }
  }

  /** One link contributes its file's name once to the join, or nothing. */
  lemma FileNameOfLink(files: seq<FileRow>, l: Link, n: string)
    requires ValidFiles(files)
    ensures multiset(FileNames(FilesWithId(files, l.fileId)))[n] == if LinksToFileNamed(files, l, n) then 1 else 0
  {
    var r := FilesWithId(files, l.fileId);
    FileIdIsKey(files, l.fileId);
    if r != [] {
      assert r == [r[0]] && r[0] in r;
      assert FileNames(r) == [r[0].name];
    } else {
      assert FileNames(r) == [];
    }
  }

  /** One link contributes its tag's name once to the join, or nothing. */
  lemma TagNameOfLink(tags: seq<TagRow>, l: Link, n: string)
    requires ValidTags(tags)
    ensures multiset(TagNames(TagsWithId(tags, l.tagId)))[n] == if LinksToTagNamed(tags, l, n) then 1 else 0
  {
    var r := TagsWithId(tags, l.tagId);
    TagIdIsKey(tags, l.tagId);
    if r != [] {
      assert r == [r[0]] && r[0] in r;
      assert TagNames(r) == [r[0].name];
    } else {
      assert TagNames(r) == [];
    }
  }

  /** The join lists a file name once per link that reaches a row of that
      name, so duplicate links repeat it. */
  lemma {:induction false} JoinFileNamesCount(files: seq<FileRow>, links: seq<Link>, n: string)
    requires ValidFiles(files)
    ensures multiset(JoinFileNames(files, links))[n] == |FileLinksNamed(files, links, n)|
  {
    if links != [] {
      JoinFileNamesCount(files, links[1..], n);
      FileNameOfLink(files, links[0], n);
    }
  }

  /** The join lists a tag name once per link that reaches the row of that name. */
  lemma {:induction false} JoinTagNamesCount(tags: seq<TagRow>, links: seq<Link>, n: string)
    requires ValidTags(tags)
    ensures multiset(JoinTagNames(tags, links))[n] == |TagLinksNamed(tags, links, n)|
  {
    if links != [] {
      JoinTagNamesCount(tags, links[1..], n);
      TagNameOfLink(tags, links[0], n);
    }
  }

  /** `get_by_tag` lists a file name once per link of the tag that reaches a
      file of that name: one link gives one entry, two duplicate links two. */
  lemma GetByTagCount(tags: seq<TagRow>, files: seq<FileRow>, links: seq<Link>, tag: Ref, n: string)
    requires ValidFiles(files) && tag != Name(Sentinel)
    ensures multiset(FilesGetByTag(tags, files, links, tag))[n] ==
      |FileLinksNamed(files, LinksOfTag(links, TagsGetId(tags, tag)), n)|
  {
    JoinFileNamesCount(files, LinksOfTag(links, TagsGetId(tags, tag)), n);
  }

  /** `get_tags` lists a tag name once per link of the file that reaches the
      tag of that name. */
  lemma GetTagsCount(tags: seq<TagRow>, files: seq<FileRow>, links: seq<Link>, file: Ref, n: string)
    requires ValidTags(tags)
    ensures multiset(FilesGetTags(tags, files, links, file))[n] ==
      |TagLinksNamed(tags, LinksOfFile(links, FilesGetId(files, file)), n)|
  {
    JoinTagNamesCount(tags, LinksOfFile(links, FilesGetId(files, file)), n);
  }

  /** `get_by_tag` lists exactly the names of the files `has_tag` says carry
      the tag, for every reference except the id -1. */
  lemma GetByTagAgreesWithHasTag(tags: seq<TagRow>, files: seq<FileRow>, links: seq<Link>, tag: Ref, n: string)
    requires tag != Id(SentinelId)
    ensures n in FilesGetByTag(tags, files, links, tag) <==>
      exists f :: f in files && f.name == n && FilesHasTag(tags, files, links, Id(f.id), tag)
  {
    if tag == Name(Sentinel) {
      InFileNames(files, n);
    } else {
      var t := TagsGetId(tags, tag);
      JoinFileNamesMembership(files, LinksOfTag(links, t), n);
    }
  }

  /** The exception: `has_tag` treats -1 as the sentinel but `get_by_tag` does
      not, so a file with no links "has" tag -1 yet is not listed under it. */
  lemma SentinelIdOnlyInHasTag()
    ensures var files := [FileRow(1, "a.jpg", "/srv/a.jpg")];
      && FilesHasTag([], files, [], Id(1), Id(SentinelId))
      && FilesGetByTag([], files, [], Id(SentinelId)) == []
  {
  }

  /** `get_tags` lists a tag's name exactly when `has_tag` holds for its id. */
  lemma GetTagsAgreesWithHasTag(tags: seq<TagRow>, files: seq<FileRow>, links: seq<Link>, file: Ref, k: int)
    requires ValidTags(tags) && 0 <= k < |tags|
    ensures tags[k].name in FilesGetTags(tags, files, links, file) <==>
      FilesHasTag(tags, files, links, file, Id(tags[k].id))
  {
    var f := FilesGetId(files, file);
    JoinTagNamesMembership(tags, LinksOfFile(links, f), tags[k].name);
    if tags[k].name in FilesGetTags(tags, files, links, file) {
      var l, t :| l in LinksOfFile(links, f) && t in tags && Eq(l.tagId, Some(t.id)) && t.name == tags[k].name;
      var j :| 0 <= j < |tags| && tags[j] == t;
      NameDeterminesTag(tags, j, k);
    }
  }

  /** A tag's name and its id give the same answers (name-or-id interchangeability). */
  lemma TagRefsInterchangeable(tags: seq<TagRow>, files: seq<FileRow>, links: seq<Link>, k: int, file: Ref)
    requires ValidTags(tags) && 0 <= k < |tags|
    ensures FilesHasTag(tags, files, links, file, Name(tags[k].name)) == FilesHasTag(tags, files, links, file, Id(tags[k].id))
    ensures FilesGetByTag(tags, files, links, Name(tags[k].name)) == FilesGetByTag(tags, files, links, Id(tags[k].id))
  {
    TagRefsAgree(tags, k);
  }

  /** The same for a file reached by a name no earlier row bears. */
  lemma FileRefsInterchangeable(tags: seq<TagRow>, files: seq<FileRow>, links: seq<Link>, k: int, tag: Ref)
    requires ValidFiles(files) && 0 <= k < |files|
    requires forall j :: 0 <= j < k ==> files[j].name != files[k].name
    ensures FilesHasTag(tags, files, links, Name(files[k].name), tag) == FilesHasTag(tags, files, links, Id(files[k].id), tag)
    ensures FilesGetTags(tags, files, links, Name(files[k].name)) == FilesGetTags(tags, files, links, Id(files[k].id))
  {
    FileRefsAgree(files, k);
  }

  /** `add_tag` of a resolvable pair makes `has_tag` hold for it. */
  lemma AddTagThenHasTag(tags: seq<TagRow>, files: seq<FileRow>, links: seq<Link>, file: Ref, tag: Ref)
    requires TagsGetId(tags, tag).Some? && FilesGetId(files, file).Some?
    ensures FilesHasTag(tags, files, links + [Link(TagsGetId(tags, tag), FilesGetId(files, file))], file, tag)
  {
    var l := Link(TagsGetId(tags, tag), FilesGetId(files, file));
    assert l in links + [l];
  }

  /** After `remove_tag` no link of that pair is left, so `has_tag` fails
      (unless the reference is the sentinel or -1). */
  lemma RemoveTagThenNotHasTag(tags: seq<TagRow>, files: seq<FileRow>, links: seq<Link>, file: Ref, tag: Ref)
    requires !IsSentinelRef(tag)
    ensures !FilesHasTag(tags, files, UnlinkPair(links, TagsGetId(tags, tag), FilesGetId(files, file)), file, tag)
  {
  }

  /** `remove_tag` undoes `add_tag`, and also every earlier duplicate of that link. */
  lemma RemoveTagUndoesAddTag(tags: seq<TagRow>, files: seq<FileRow>, links: seq<Link>, file: Ref, tag: Ref)
    requires TagsGetId(tags, tag).Some? && FilesGetId(files, file).Some?
    ensures var t, f := TagsGetId(tags, tag), FilesGetId(files, file);
      UnlinkPair(links + [Link(t, f)], t, f) == UnlinkPair(links, t, f)
  {
    var t, f := TagsGetId(tags, tag), FilesGetId(files, file);
    var keep := (l: Link) => !(Eq(l.tagId, t) && Eq(l.fileId, f));
    FilterAppend(links, [Link(t, f)], keep);
    FilterKeepsNone([Link(t, f)], keep);
  }

  /** After `tags.remove` of anything but the sentinel and -1: no file has the
      tag, nothing is listed under it, and a removed name no longer resolves. */
  lemma RemovedTagIsGone(tags: seq<TagRow>, files: seq<FileRow>, links: seq<Link>, ref: Ref, file: Ref)
    requires ValidTags(tags) && !IsSentinelRef(ref)
    ensures var id := TagsGetId(tags, ref);
      var tags', links' := DropTag(tags, id), UnlinkTag(links, id);
      && (ref.Name? ==> TagsGetId(tags', ref) == None)
      && !FilesHasTag(tags', files, links', file, ref)
      && FilesGetByTag(tags', files, links', ref) == []
  {
    var id := TagsGetId(tags, ref);
    var tags', links' := DropTag(tags, id), UnlinkTag(links, id);
    if ref.Name? {
      forall r | r in tags'
        ensures r.name != ref.name
      {
        var k :| 0 <= k < |tags| && tags[k] == r;
        TagRefsAgree(tags, k);
      }
    }
    var t := TagsGetId(tags', ref);
    assert t == id || t == None;
    FilterKeepsNone(links', (l: Link) => Eq(l.tagId, id));
    NullMatchesNothing(tags', files, links', None);
  }

  /** After `files.remove`: no row and no link carries the removed id, so
      that id resolves to no path and has no tags. */
  lemma RemovedFileIsGone(tags: seq<TagRow>, files: seq<FileRow>, links: seq<Link>, ref: Ref)
    requires FilesGetId(files, ref).Some?
    ensures var id := FilesGetId(files, ref);
      var files', links' := DropFile(files, id), UnlinkFile(links, id);
      && FilesResolve(files', Id(id.value)) == None
      && FilesGetTags(tags, files', links', Id(id.value)) == []
  {
    var id := FilesGetId(files, ref);
    var files', links' := DropFile(files, id), UnlinkFile(links, id);
    forall k | 0 <= k < |files'|
      ensures files'[k].id != id.value
    {
      assert files'[k] in files';
    }
    FilterKeepsNone(links', (l: Link) => Eq(l.fileId, id));
  }
}
