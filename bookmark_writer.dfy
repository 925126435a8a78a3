/**
 * `write_bookmarks`: every bookmark record becomes one Trilium note under a
 * synthetic root. Attribute positions are 1-based, notes are expanded, and
 * each non-empty body is queued as a companion file named after the
 * bookmark's index among all bookmarks.
 */
module BookmarkWriter {
  import opened Wrappers
  import opened Text
  import opened Extract
  import opened Trilium

  /** The label record for one tag. */
  function TagLabel(tag: string, position: int): (r: Attr)
  {
    Attr("label", "tag", Some(tag), false, position)
  }

  /** The label record for the bookmark's creation date. */
  function DateLabel(date: Option<string>, position: int): (r: Attr)
  {
    Attr("label", "shaarli_date", date, false, position)
  }

  /** The attribute list of a bookmark's note. */
  function BookmarkAttrs(b: Bookmark): (r: seq<Attr>)
  {
    seq(|b.tags|, j requires 0 <= j < |b.tags| => TagLabel(b.tags[j], j + 1)) + [DateLabel(b.addDate, |b.tags| + 1)]
  }

  /** The note for bookmark `i`, whose generated id is `id`. */
  function BookmarkNode(b: Bookmark, i: nat, id: string): (r: Node)
  {
    Node(false, id, b.title, i, None, 1, "text", "text/html", BookmarkAttrs(b), [], "markdown",
         if b.body != "" then Some(DataFileName(i)) else None, None, NoChildren, None, None)
  }

  /** The synthetic root holding the bookmark notes. */
  function BookmarkRoot(id: string, children: seq<Node>): (r: Node)
  {
    Node(false, id, Some(RootTitle), 0, None, 1, "text", "text/html", [], [], "markdown",
         None, Some(RootDirName), Children(children), None, None)
  }

  /** The notes for the bookmarks, given one id per bookmark. */
  function BookmarkNodes(bs: seq<Bookmark>, ids: seq<string>): (r: seq<Node>)
    requires |bs| == |ids|
    ensures |r| == |bs| && forall i :: 0 <= i < |bs| ==> r[i] == BookmarkNode(bs[i], i, ids[i])
  {
    seq(|bs|, i requires 0 <= i < |bs| => BookmarkNode(bs[i], i, ids[i]))
  }

  lemma BookmarkNodesAppend(bs: seq<Bookmark>, i: nat, ids: seq<string>, id: string)
    requires i < |bs| && |ids| == i
    ensures BookmarkNodes(bs[..i + 1], ids + [id]) == BookmarkNodes(bs[..i], ids) + [BookmarkNode(bs[i], i, id)]
  {
    var a := BookmarkNodes(bs[..i + 1], ids + [id]);
    var b := BookmarkNodes(bs[..i], ids) + [BookmarkNode(bs[i], i, id)];
    forall k | 0 <= k < |a|
      ensures a[k] == b[k]
    {
      if k < i {
        assert bs[..i + 1][k] == bs[..i][k];
        assert (ids + [id])[k] == ids[k];
      }
    }
  }

  /** The bodies of the bookmarks, in order. */
  function Bodies(bs: seq<Bookmark>): (r: seq<string>)
    ensures |r| == |bs| && forall i :: 0 <= i < |bs| ==> r[i] == bs[i].body
  {
    seq(|bs|, i requires 0 <= i < |bs| => bs[i].body)
  }

  /**
   * Everything `write_bookmarks` produces, given the ids its generator
   * returned: one per bookmark, then the root's.
   */
  function Written(tarname: string, bs: seq<Bookmark>, ids: seq<string>): (r: Archive)
    requires |ids| == |bs| + 1
  {
    var children := BookmarkNodes(bs, ids[..|bs|]);
    var outputs := Queued(tarname, Bodies(bs), |bs|);
    Archive(RootManifest(BookmarkRoot(ids[|bs|], children)), outputs, EntryNames(outputs))
  }

  /** The attribute loop: one tag label per tag, then the date label after them. */
  method BookmarkAttributes(b: Bookmark) returns (attrs: seq<Attr>)
    ensures attrs == BookmarkAttrs(b)
  {
    attrs := [];
    for j := 0 to |b.tags|
      invariant |attrs| == j && forall k :: 0 <= k < j ==> attrs[k] == TagLabel(b.tags[k], k + 1)
    {
      attrs := attrs + [TagLabel(b.tags[j], j + 1)];
    }
    attrs := attrs + [DateLabel(b.addDate, |attrs| + 1)];
  }

  /** One pass of the loop: the note for bookmark `i`, and its companion file if the body is non-empty. */
  method BookmarkStep(tarname: string, i: nat, b: Bookmark) returns (node: Node, queued: seq<Output>, id: string)
    ensures IsNodeId(id) && node == BookmarkNode(b, i, id)
    ensures queued == if b.body != "" then [BodyOutput(tarname, i, b.body)] else []
  {
    var attrs := BookmarkAttributes(b);
    id := MakeNodeId();
    node := Node(false, id, b.title, i, None, 1, "text", "text/html", attrs, [], "markdown", None, None, NoChildren, None, None);
    queued := [];
    if b.body != "" {
      var datafile := DataFileName(i);
      node := node.(dataFileName := Some(datafile));
      queued := [Output(DataPath(tarname, datafile), datafile, b.body)];
    }
  }

  /** The source's loop over the bookmarks, then root, manifest and packaging. */
  method WriteBookmarks(tarname: string, bookmarks: seq<Bookmark>) returns (archive: Archive, ghost ids: seq<string>)
    ensures |ids| == |bookmarks| + 1 && forall k :: 0 <= k < |ids| ==> IsNodeId(ids[k])
    ensures archive == Written(tarname, bookmarks, ids)
  {
    var files: seq<Node> := [];
    var outputs: seq<Output> := [];
    ids := [];
    for i := 0 to |bookmarks|
      invariant |ids| == i && forall k :: 0 <= k < i ==> IsNodeId(ids[k])
      invariant files == BookmarkNodes(bookmarks[..i], ids)
      invariant outputs == Queued(tarname, Bodies(bookmarks), i)
    {
      var node, queued, id := BookmarkStep(tarname, i, bookmarks[i]);
      BookmarkNodesAppend(bookmarks, i, ids, id);
      files := files + [node];
      outputs := outputs + queued;
      ids := ids + [id];
    }
    var rootId := MakeNodeId();
    ghost var noteIds := ids;
    ids := ids + [rootId];
    assert ids[..|bookmarks|] == noteIds;
    assert bookmarks[..|bookmarks|] == bookmarks;
    var root := Node(false, rootId, Some(RootTitle), 0, None, 1, "text", "text/html", [], [], "markdown",
                     None, Some(RootDirName), Children(files), None, None);
    var data := Manifest(FormatVersion, AppVersion, [root]);
    var entries := ArchiveEntries(outputs);
    archive := Archive(data, outputs, entries);
  }

  // ---------------------------------------------------------------------------
  // What the written archive promises

  /**
   * A bookmark's attributes are numbered 1, 2, … densely; the tag labels
   * give back the bookmark's tags in order, and the last label carries its
   * date.
   */
  lemma BookmarkAttrsShape(b: Bookmark)
    ensures var attrs := BookmarkAttrs(b);
            |attrs| == |b.tags| + 1
            && (forall j :: 0 <= j < |attrs| ==> attrs[j].position == j + 1)
            && TagValues(attrs) == b.tags
            && attrs[|b.tags|].name == "shaarli_date" && attrs[|b.tags|].value == b.addDate
  {
    var labels := BookmarkAttrs(b)[..|b.tags|];
    var date := DateLabel(b.addDate, |b.tags| + 1);
    assert BookmarkAttrs(b) == labels + [date];
    TagLabelsValues(labels, b.tags);
    assert |date.name| != |"tag"|;
    TagValuesAppend(labels, [date]);
    TagValuesNone([date]);
  }

  /**
   * The manifest `write_bookmarks` writes: version 1 from app version 0.34.3,
   * holding one root ("Import root", position 0, no attributes, directory
   * "ImportRoot") whose children are the bookmark notes in order; note `i`
   * sits at position `i`, is expanded, carries the bookmark's title, its
   * numbered labels, and a companion file name exactly when its body is
   * non-empty.
   */
  lemma WrittenManifest(tarname: string, bs: seq<Bookmark>, ids: seq<string>)
    requires |ids| == |bs| + 1
    ensures var m := Written(tarname, bs, ids).manifest;
            m.formatVersion == 1 && m.appVersion == "0.34.3" && |m.files| == 1
            && m.files[0].title == Some("Import root") && m.files[0].notePosition == 0 && m.files[0].attributes == []
            && m.files[0].isExpanded == 1
            && m.files[0].dirFileName == Some("ImportRoot") && m.files[0].noteId == ids[|bs|]
            && m.files[0].children.Children? && |m.files[0].children.nodes| == |bs|
    ensures var nodes := Written(tarname, bs, ids).manifest.files[0].children.nodes;
            forall i :: 0 <= i < |bs| ==>
              nodes[i].notePosition == i && nodes[i].isExpanded == 1 && nodes[i].title == bs[i].title
              && nodes[i].noteId == ids[i] && nodes[i].attributes == BookmarkAttrs(bs[i])
              && (nodes[i].dataFileName.Some? <==> bs[i].body != "")
              && (nodes[i].dataFileName.Some? ==> nodes[i].dataFileName == Some(DataFileName(i)))
  {
  }

  /**
   * The fixed keys of every written note: the root and each bookmark note
   * are plain text/html markdown notes, not clones, with no prefix and no
   * links; a bookmark note has no `children` and no `dirFileName` key, and
   * no note carries the internal `_attrs` or `_ext` entries.
   */
  lemma WrittenNoteKeys(tarname: string, bs: seq<Bookmark>, ids: seq<string>)
    requires |ids| == |bs| + 1
    ensures var root := Written(tarname, bs, ids).manifest.files[0];
            !root.isClone && root.prefix == None && root.kind == "text" && root.mime == "text/html"
            && root.links == [] && root.format == "markdown" && root.dataFileName == None
            && root.attrs == None && root.ext == None
    ensures var nodes := Written(tarname, bs, ids).manifest.files[0].children.nodes;
            |nodes| == |bs|
            && forall i :: 0 <= i < |bs| ==>
                 !nodes[i].isClone && nodes[i].prefix == None && nodes[i].kind == "text"
                 && nodes[i].mime == "text/html" && nodes[i].links == [] && nodes[i].format == "markdown"
                 && nodes[i].children == NoChildren && nodes[i].dirFileName == None
                 && nodes[i].attrs == None && nodes[i].ext == None
  {
  }

  /**
   * The companion files `write_bookmarks` queues: `idx[k]` is the bookmark
   * behind the k-th file, whose note names that file and whose body it
   * holds, staged under the import directory; no other note names it, and
   * every bookmark with a body has its file.
   */
  lemma WrittenFiles(tarname: string, bs: seq<Bookmark>, ids: seq<string>) returns (idx: seq<nat>)
    requires |ids| == |bs| + 1
    ensures var a := Written(tarname, bs, ids);
            var nodes := a.manifest.files[0].children.nodes;
            |nodes| == |bs| && |idx| == |a.outputs|
            && (forall k :: 0 <= k < |a.outputs| ==>
                  0 <= idx[k] < |bs|
                  && nodes[idx[k]].dataFileName == Some(a.outputs[k].name)
                  && a.outputs[k].content == bs[idx[k]].body
                  && a.outputs[k].path == DataPath(tarname, a.outputs[k].name))
            && (forall k, i :: 0 <= k < |a.outputs| && 0 <= i < |bs| && nodes[i].dataFileName == Some(a.outputs[k].name) ==> i == idx[k])
            && (forall i :: 0 <= i < |bs| && bs[i].body != "" ==> i in idx)
  {
    idx := QueuedIndexed(tarname, Bodies(bs), |bs|);
    var a := Written(tarname, bs, ids);
    var nodes := a.manifest.files[0].children.nodes;
    forall k, i | 0 <= k < |a.outputs| && 0 <= i < |bs| && nodes[i].dataFileName == Some(a.outputs[k].name)
      ensures i == idx[k]
    {
      DataFileNameInjective(i, idx[k]);
    }
  }

  /**
   * The tar entries: the manifest, the import directory, which `tar.add`
   * adds recursively with every staged file in sorted order, then each
   * queued file again. Below ten million files the sorted order is the
   * queue order, so each file appears at the same place in both runs.
   */
  lemma WrittenEntries(tarname: string, bs: seq<Bookmark>, ids: seq<string>)
    requires |ids| == |bs| + 1
    ensures var a := Written(tarname, bs, ids);
            |a.entries| == 2 * |a.outputs| + 2 && a.entries[0] == "!!!meta.json" && a.entries[1] == "ImportRoot/"
            && (|bs| <= 10000000 ==>
                  a.entries == ["!!!meta.json", "ImportRoot/"] + UnderRoot(OutputNames(a.outputs)) + UnderRoot(OutputNames(a.outputs)))
  {
    var outputs := Queued(tarname, Bodies(bs), |bs|);
    EntryLayout(outputs);
    if |bs| <= 10000000 {
      QueuedListing(tarname, Bodies(bs), |bs|);
    }
  }
}
