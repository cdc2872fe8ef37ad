/** `files.set_tags` (tagfs/db.py): delete every association of the file,
    then, tag by tag, resolve the tag (creating it when the name is unknown)
    and insert one association row. This module states the loop's effect as
    a function of the tables before the call; the method that runs the loop
    on the store is `Store.Database.FilesSetTags`. */
module TagAssignment {
  import opened Sequences
  import opened Sql
  import opened Tables
  import opened Queries

  /** One pass of the loop body: `get_id`, and when that is NULL, `tags.new`
      followed by a second `get_id`. Yields the tags table after the pass and
      the id that goes into the association row. */
  function ResolveOrCreate(tags: seq<TagRow>, tag: Ref): (seq<TagRow>, Option<int>) {
    var i := TagsGetId(tags, tag);
    if i.Some? then (tags, i)
    else
      var grown := tags + [TagRow(NextRowId(TagIds(tags)), tag.name)];
      (grown, TagsGetId(grown, tag))
  }

  /** The whole loop over `ts` for file id `f`: the final tags table and the
      association rows inserted, in insertion order. */
  function ResolveAll(tags: seq<TagRow>, f: Option<int>, ts: seq<Ref>): (seq<TagRow>, seq<Link>)
    decreases |ts|
  {
    if ts == [] then (tags, [])
    else
      var step := ResolveOrCreate(tags, ts[0]);
      var rest := ResolveAll(step.0, f, ts[1..]);
      (rest.0, [Link(step.1, f)] + rest.1)
  }

  /** `set_tags` on file id `f`: the tags table and the association table afterwards. */
  function SetTags(tags: seq<TagRow>, links: seq<Link>, f: Option<int>, ts: seq<Ref>): (seq<TagRow>, seq<Link>) {
    var resolved := ResolveAll(tags, f, ts);
    (resolved.0, UnlinkFile(links, f) + resolved.1)
  }

  /** A reference that does not resolve is a name, not the sentinel, and
      no row carries it: the case in which the loop calls `tags.new`. */
  lemma ResolveMissingName(tags: seq<TagRow>, tag: Ref)
    requires TagsGetId(tags, tag).None?
    ensures tag.Name? && tag.name != Sentinel && tag.name !in TagNames(tags)
  {
    InTagNames(tags, tag.name);
  }

  /** The loop over `ts[j..]` is one pass on `ts[j]` followed by the loop over `ts[j + 1..]`. */
  lemma ResolveAllUnfold(tags: seq<TagRow>, f: Option<int>, ts: seq<Ref>, j: int)
    requires 0 <= j < |ts|
    ensures var step := ResolveOrCreate(tags, ts[j]);
      var rest := ResolveAll(step.0, f, ts[j + 1..]);
      ResolveAll(tags, f, ts[j..]) == (rest.0, [Link(step.1, f)] + rest.1)
  {
    assert ts[j..][0] == ts[j] && ts[j..][1..] == ts[j + 1..];
  }

  /** One turn of the loop that runs `set_tags` on the store keeps the
      remaining work equal to what `SetTags` prescribes. */
  lemma ResolveAllStep(target: (seq<TagRow>, seq<Link>), tags: seq<TagRow>, links: seq<Link>, f: Option<int>, ts: seq<Ref>, j: int)
    requires 0 <= j < |ts|
    requires target.0 == ResolveAll(tags, f, ts[j..]).0
    requires target.1 == links + ResolveAll(tags, f, ts[j..]).1
    ensures var step := ResolveOrCreate(tags, ts[j]);
      && target.0 == ResolveAll(step.0, f, ts[j + 1..]).0
      && target.1 == links + [Link(step.1, f)] + ResolveAll(step.0, f, ts[j + 1..]).1
  {
    ResolveAllUnfold(tags, f, ts, j);
    var step := ResolveOrCreate(tags, ts[j]);
    var rest := ResolveAll(step.0, f, ts[j + 1..]);
    assert links + [Link(step.1, f)] + rest.1 == links + ([Link(step.1, f)] + rest.1);
  }

  /** When the loop has run through `ts`, the tables are what `SetTags` prescribes. */
  lemma ResolveAllDone(target: (seq<TagRow>, seq<Link>), tags: seq<TagRow>, links: seq<Link>, f: Option<int>, ts: seq<Ref>)
    requires target.0 == ResolveAll(tags, f, ts[|ts|..]).0
    requires target.1 == links + ResolveAll(tags, f, ts[|ts|..]).1
    ensures target == (tags, links)
  {
    assert ts[|ts|..] == [];
    assert links + [] == links;
  }

  /** Adding rows to a valid tags table leaves every reference that already
      resolved resolving to the same id. */
  lemma GrowKeepsIds(tags: seq<TagRow>, tags': seq<TagRow>, r: Ref)
    requires ValidTags(tags') && tags <= tags'
    requires TagsGetId(tags, r).Some?
    ensures TagsGetId(tags', r) == TagsGetId(tags, r)
  {
    if r.Name? && r.name != Sentinel {
      var v := TagsGetId(tags, r).value;
      var j :| 0 <= j < |tags| && tags[j] == TagRow(v, r.name);
      assert tags'[j] == tags[j];
      var v' := TagsGetId(tags', r).value;
      var k :| 0 <= k < |tags'| && tags'[k] == TagRow(v', r.name);
      NameDeterminesTag(tags', j, k);
    }
  }

  /** One pass always yields an id, keeps the table valid, only ever appends
      one row, named after the tag, and leaves earlier answers of `get_id` alone. */
  lemma ResolveOrCreateSpec(tags: seq<TagRow>, tag: Ref)
    requires ValidTags(tags)
    ensures var step := ResolveOrCreate(tags, tag);
      && ValidTags(step.0)
      && step.1.Some? && step.1 == TagsGetId(step.0, tag)
      && tags <= step.0 && |step.0| <= |tags| + 1
      && (forall k :: |tags| <= k < |step.0| ==> Name(step.0[k].name) == tag)
      && (forall r :: TagsGetId(tags, r).Some? ==> TagsGetId(step.0, r) == TagsGetId(tags, r))
  {
    var step := ResolveOrCreate(tags, tag);
    if TagsGetId(tags, tag).None? {
      AppendTagKeepsValid(tags, tag.name);
      var k := |tags|;
      assert step.0[k].name == tag.name;
    }
    forall r | TagsGetId(tags, r).Some?
      ensures TagsGetId(step.0, r) == TagsGetId(tags, r)
    {
      GrowKeepsIds(tags, step.0, r);
    }
  }

  /** The loop yields one association row per element of `ts`, in order,
      each carrying that element's id in the final table (never NULL); it
      keeps the table valid, only appends rows, and every row it appends is
      named by an element of `ts`. */
  lemma ResolveAllSpec(tags: seq<TagRow>, f: Option<int>, ts: seq<Ref>)
    requires ValidTags(tags)
    ensures var res := ResolveAll(tags, f, ts);
      && ValidTags(res.0)
      && tags <= res.0
      && (forall r :: TagsGetId(tags, r).Some? ==> TagsGetId(res.0, r) == TagsGetId(tags, r))
      && |res.1| == |ts|
      && (forall k :: 0 <= k < |ts| ==> TagsGetId(res.0, ts[k]).Some? && res.1[k] == Link(TagsGetId(res.0, ts[k]), f))
      && (forall k :: |tags| <= k < |res.0| ==> Name(res.0[k].name) in ts)
  {
    ResolveAllGrows(tags, f, ts);
    forall r | TagsGetId(tags, r).Some?
      ensures TagsGetId(ResolveAll(tags, f, ts).0, r) == TagsGetId(tags, r)
    {
      ResolveAllKeepsId(tags, f, ts, r);
    }
    ResolveAllLinks(tags, f, ts);
    ResolveAllNames(tags, f, ts);
  }

  /** The loop keeps the table valid and only appends. */
  lemma {:induction false} ResolveAllGrows(tags: seq<TagRow>, f: Option<int>, ts: seq<Ref>)
    requires ValidTags(tags)
    ensures var res := ResolveAll(tags, f, ts);
      ValidTags(res.0) && tags <= res.0
    decreases |ts|
  {
    if ts != [] {
      var step := ResolveOrCreate(tags, ts[0]);
      ResolveOrCreateSpec(tags, ts[0]);
      ResolveAllGrows(step.0, f, ts[1..]);
    }
  }

  /** The loop never changes what an already resolving reference resolves to. */
  lemma ResolveAllKeepsId(tags: seq<TagRow>, f: Option<int>, ts: seq<Ref>, r: Ref)
    requires ValidTags(tags) && TagsGetId(tags, r).Some?
    ensures TagsGetId(ResolveAll(tags, f, ts).0, r) == TagsGetId(tags, r)
  {
    ResolveAllGrows(tags, f, ts);
    GrowKeepsIds(tags, ResolveAll(tags, f, ts).0, r);
  }

  /** One association row per element, each with the element's final id. */
  lemma {:induction false} ResolveAllLinks(tags: seq<TagRow>, f: Option<int>, ts: seq<Ref>)
    requires ValidTags(tags)
    ensures var res := ResolveAll(tags, f, ts);
      && |res.1| == |ts|
      && (forall k :: 0 <= k < |ts| ==> TagsGetId(res.0, ts[k]).Some? && res.1[k] == Link(TagsGetId(res.0, ts[k]), f))
    decreases |ts|
  {
    if ts != [] {
      var step := ResolveOrCreate(tags, ts[0]);
      ResolveOrCreateSpec(tags, ts[0]);
      ResolveAllKeepsId(step.0, f, ts[1..], ts[0]);
      ResolveAllLinks(step.0, f, ts[1..]);
      var res := ResolveAll(tags, f, ts);
      var rest := ResolveAll(step.0, f, ts[1..]);
      assert res.0 == rest.0;
      assert res.1 == [Link(step.1, f)] + rest.1;
      forall k | 0 < k < |ts|
        ensures TagsGetId(res.0, ts[k]).Some? && res.1[k] == Link(TagsGetId(res.0, ts[k]), f)
      {
        assert ts[k] == ts[1..][k - 1];
        assert res.1[k] == rest.1[k - 1];
      }
    }
  }

  /** Every row the loop appends is named by an element of `ts`. */
  lemma {:induction false} ResolveAllNames(tags: seq<TagRow>, f: Option<int>, ts: seq<Ref>)
    requires ValidTags(tags)
    ensures var res := ResolveAll(tags, f, ts);
      forall k :: |tags| <= k < |res.0| ==> Name(res.0[k].name) in ts
    decreases |ts|
  {
    if ts != [] {
      var step := ResolveOrCreate(tags, ts[0]);
      ResolveOrCreateSpec(tags, ts[0]);
      ResolveAllGrows(step.0, f, ts[1..]);
      ResolveAllNames(step.0, f, ts[1..]);
      var res := ResolveAll(tags, f, ts);
      forall k | |tags| <= k < |res.0|
        ensures Name(res.0[k].name) in ts
      {
        if k >= |step.0| {
          assert Name(res.0[k].name) in ts[1..];
        } else {
          assert res.0[k] == step.0[k];
        }
      }
    }
  }

  /** When every element already resolves, the loop creates no tag. */
  lemma {:induction false} ResolveAllCreatesNothing(tags: seq<TagRow>, f: Option<int>, ts: seq<Ref>)
    requires forall k :: 0 <= k < |ts| ==> TagsGetId(tags, ts[k]).Some?
    ensures ResolveAll(tags, f, ts).0 == tags
    decreases |ts|
  {
    if ts != [] {
      assert TagsGetId(tags, ts[0]).Some?;
      forall k | 0 <= k < |ts[1..]|
        ensures TagsGetId(tags, ts[1..][k]).Some?
      {
        assert ts[1..][k] == ts[k + 1];
      }
      ResolveAllCreatesNothing(tags, f, ts[1..]);
    }
  }

  /** After `set_tags` on a file that resolves: the file's associations are
      exactly one row per element of `ts`, in order, each with that element's
      id; the associations of every other file (and the NULL-file rows) are
      untouched; every element resolves, so every string tag exists; and the
      old tag rows are kept, with only tags named in `ts` added. */
  lemma SetTagsSpec(tags: seq<TagRow>, links: seq<Link>, f: Option<int>, ts: seq<Ref>)
    requires ValidTags(tags) && f.Some?
    ensures var res := SetTags(tags, links, f, ts);
      && ValidTags(res.0)
      && LinksOfFile(res.1, f) == seq(|ts|, k requires 0 <= k < |ts| => Link(TagsGetId(res.0, ts[k]), f))
      && UnlinkFile(res.1, f) == UnlinkFile(links, f)
      && (forall k :: 0 <= k < |ts| ==> TagsExists(res.0, ts[k]))
      && tags <= res.0
      && (forall k :: |tags| <= k < |res.0| ==> Name(res.0[k].name) in ts)
  {
    var resolved := ResolveAll(tags, f, ts);
    ResolveAllSpec(tags, f, ts);
    var kept := UnlinkFile(links, f);
    FilterAppend(kept, resolved.1, (l: Link) => Eq(l.fileId, f));
    FilterAppend(kept, resolved.1, (l: Link) => !Eq(l.fileId, f));
    FilterKeepsNone(kept, (l: Link) => Eq(l.fileId, f));
    FilterKeepsAll(resolved.1, (l: Link) => Eq(l.fileId, f));
    FilterKeepsAll(kept, (l: Link) => !Eq(l.fileId, f));
    FilterKeepsNone(resolved.1, (l: Link) => !Eq(l.fileId, f));
  }

  /** Calling `set_tags` twice with the same list on a file that resolves
      gives the same tables as calling it once. */
  lemma SetTagsIdempotent(tags: seq<TagRow>, links: seq<Link>, f: Option<int>, ts: seq<Ref>)
    requires ValidTags(tags) && f.Some?
    ensures var once := SetTags(tags, links, f, ts);
      SetTags(once.0, once.1, f, ts) == once
  {
    var once := SetTags(tags, links, f, ts);
    SetTagsSpec(tags, links, f, ts);
    ResolveAllSpec(tags, f, ts);
    ResolveAllCreatesNothing(once.0, f, ts);
    ResolveAllSpec(once.0, f, ts);
    var again := ResolveAll(once.0, f, ts);
    assert again.1 == ResolveAll(tags, f, ts).1;
  }

  /** With a file reference that does not resolve, the file id is NULL: the
      DELETE removes nothing and every call appends `|ts|` rows with a NULL
      file id, so a repeated call is not idempotent. */
  lemma SetTagsOnMissingFileAppends(tags: seq<TagRow>, links: seq<Link>, ts: seq<Ref>)
    requires ValidTags(tags)
    ensures var res := SetTags(tags, links, None, ts);
      && links <= res.1 && |res.1| == |links| + |ts|
      && forall k :: |links| <= k < |res.1| ==> res.1[k].fileId == None
  {
    NullMatchesNothing([], [], links, None);
    ResolveAllSpec(tags, None, ts);
  }

  /** After `set_tags`, `has_tag` holds for the file and every element of `ts`. */
  lemma SetTagsThenHasTag(tags: seq<TagRow>, files: seq<FileRow>, links: seq<Link>, file: Ref, ts: seq<Ref>, k: int)
    requires ValidTags(tags) && FilesGetId(files, file).Some? && 0 <= k < |ts|
    ensures var res := SetTags(tags, links, FilesGetId(files, file), ts);
      FilesHasTag(res.0, files, res.1, file, ts[k])
  {
    var f := FilesGetId(files, file);
    var res := SetTags(tags, links, f, ts);
    ResolveAllSpec(tags, f, ts);
    var added := ResolveAll(tags, f, ts).1;
    assert added[k] in res.1;
  }

  /** An empty list clears the file's tags: `get_tags` is empty afterwards. */
  lemma SetTagsEmptyClearsTags(tags: seq<TagRow>, files: seq<FileRow>, links: seq<Link>, file: Ref)
    requires ValidTags(tags) && FilesGetId(files, file).Some?
    ensures var res := SetTags(tags, links, FilesGetId(files, file), []);
      FilesGetTags(res.0, files, res.1, file) == []
  {
    SetTagsSpec(tags, links, FilesGetId(files, file), []);
  }
}
