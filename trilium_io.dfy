/**
 * `trilium_io`: the generic Trilium writer. Note and attribute templates are
 * defaults overridden by the caller's keys; `order_nodes_attrs` rewrites
 * positions in place, recursing into children from inside the attribute
 * loop; `write_tar` turns caller items, with their `_ext` side channel, into
 * notes under a synthetic root. Positions here are 0-based and notes are not
 * expanded, unlike the bookmark writer.
 */
module TriliumIO {
  import opened Wrappers
  import opened Text
  import opened Trilium

  // ---------------------------------------------------------------------------
  // attr_template

  /** The keys a caller may pass to `attr_template`; `None` means the key is absent. */
  datatype AttrInit = AttrInit(
    kind: Option<string>,
    name: Option<string>,
    value: Option<Option<string>>,
    isInheritable: Option<bool>,
    position: Option<int>)

  const NoAttrKeys: AttrInit := AttrInit(None, None, None, None, None)

  /** The attribute template before any override. */
  const DefaultAttr: Attr := Attr("label", "tag", Some("EXAMPLE TAG"), false, 0)

  /** Every key given in `init` is taken from it; every other field is the one of `base`. */
  predicate AttrOverrides(init: AttrInit, base: Attr, a: Attr)
  {
    a.kind == init.kind.GetOr(base.kind)
    && a.name == init.name.GetOr(base.name)
    && a.value == init.value.GetOr(base.value)
    && a.isInheritable == init.isInheritable.GetOr(base.isInheritable)
    && a.position == init.position.GetOr(base.position)
  }

  /** `template.update(init)` on an attribute. */
  function AttrUpdate(base: Attr, init: AttrInit): (a: Attr)
    ensures AttrOverrides(init, base, a)
  {
    Attr(init.kind.GetOr(base.kind), init.name.GetOr(base.name), init.value.GetOr(base.value),
         init.isInheritable.GetOr(base.isInheritable), init.position.GetOr(base.position))
  }

  /** `attr_template(init)`. */
  function AttrTemplate(init: Option<AttrInit>): (a: Attr)
    ensures init.None? ==> a == DefaultAttr
    ensures init.Some? ==> AttrOverrides(init.value, DefaultAttr, a)
  {
    if init.Some? then AttrUpdate(DefaultAttr, init.value) else DefaultAttr
  }

  /** The keys of a whole attribute record. */
  function AttrKeys(a: Attr): (r: AttrInit)
  {
    AttrInit(Some(a.kind), Some(a.name), Some(a.value), Some(a.isInheritable), Some(a.position))
  }

  /** Passing no keys is passing nothing; passing every key yields exactly the record passed. */
  lemma AttrTemplateExtremes(a: Attr)
    ensures AttrTemplate(Some(NoAttrKeys)) == AttrTemplate(None)
    ensures AttrTemplate(Some(AttrKeys(a))) == a
  {
  }

  // ---------------------------------------------------------------------------
  // node_template

  /** The keys a caller may pass to `node_template`; `None` (or `NoChildren`) means the key is absent. */
  datatype Init = Init(
    isClone: Option<bool>,
    noteId: Option<string>,
    title: Option<Option<string>>,
    notePosition: Option<int>,
    prefix: Option<Option<string>>,
    isExpanded: Option<int>,
    kind: Option<string>,
    mime: Option<string>,
    attributes: Option<seq<Attr>>,
    links: Option<seq<string>>,
    format: Option<string>,
    dataFileName: Option<string>,
    dirFileName: Option<string>,
    children: Children,
    attrs: Option<seq<Attr>>,
    ext: Option<Ext>)

  const NoKeys: Init := Init(None, None, None, None, None, None, None, None, None, None, None, None, None, NoChildren, None, None)

  /** The template's `_ext` value. */
  const DefaultExt: Ext := Ext(Some([]), None)

  /** The node template before any override, with the id the generator returned. */
  function DefaultNode(id: string): (r: Node)
  {
    Node(false, id, Some("NO TITLE"), 0, None, 0, "text", "text/html", [], [], "markdown",
         None, None, NoChildren, None, Some(DefaultExt))
  }

  /** Every key given in `init` is taken from it; every other field is the one of `base`. */
  predicate NodeOverrides(init: Init, base: Node, n: Node)
  {
    n.isClone == init.isClone.GetOr(base.isClone)
    && n.noteId == init.noteId.GetOr(base.noteId)
    && n.title == init.title.GetOr(base.title)
    && n.notePosition == init.notePosition.GetOr(base.notePosition)
    && n.prefix == init.prefix.GetOr(base.prefix)
    && n.isExpanded == init.isExpanded.GetOr(base.isExpanded)
    && n.kind == init.kind.GetOr(base.kind)
    && n.mime == init.mime.GetOr(base.mime)
    && n.attributes == init.attributes.GetOr(base.attributes)
    && n.links == init.links.GetOr(base.links)
    && n.format == init.format.GetOr(base.format)
    && n.dataFileName == (if init.dataFileName.Some? then init.dataFileName else base.dataFileName)
    && n.dirFileName == (if init.dirFileName.Some? then init.dirFileName else base.dirFileName)
    && n.children == (if init.children.Children? then init.children else base.children)
    && n.attrs == (if init.attrs.Some? then init.attrs else base.attrs)
    && n.ext == (if init.ext.Some? then init.ext else base.ext)
  }

  /** `template.update(init)` on a node. */
  function NodeUpdate(base: Node, init: Init): (n: Node)
    ensures NodeOverrides(init, base, n)
  {
    Node(init.isClone.GetOr(base.isClone), init.noteId.GetOr(base.noteId), init.title.GetOr(base.title),
         init.notePosition.GetOr(base.notePosition), init.prefix.GetOr(base.prefix),
         init.isExpanded.GetOr(base.isExpanded), init.kind.GetOr(base.kind), init.mime.GetOr(base.mime),
         init.attributes.GetOr(base.attributes), init.links.GetOr(base.links), init.format.GetOr(base.format),
         if init.dataFileName.Some? then init.dataFileName else base.dataFileName,
         if init.dirFileName.Some? then init.dirFileName else base.dirFileName,
         if init.children.Children? then init.children else base.children,
         if init.attrs.Some? then init.attrs else base.attrs,
         if init.ext.Some? then init.ext else base.ext)
  }

  /** `node_template(init)` once the generator has returned `id`. */
  function Templated(init: Option<Init>, id: string): (n: Node)
    ensures init.None? ==> n == DefaultNode(id)
    ensures init.Some? ==> NodeOverrides(init.value, DefaultNode(id), n)
  {
    if init.Some? then NodeUpdate(DefaultNode(id), init.value) else DefaultNode(id)
  }

  /** `node_template`: a fresh id is drawn whether or not the caller overrides it. */
  method NodeTemplate(init: Option<Init>) returns (node: Node, ghost id: string)
    ensures IsNodeId(id) && node == Templated(init, id)
  {
    var drawn := MakeNodeId();
    id := drawn;
    node := DefaultNode(drawn);
    if init.Some? {
      node := NodeUpdate(node, init.value);
    }
  }

  /** The keys of a whole node record. */
  function NodeKeys(n: Node): (r: Init)
  {
    Init(Some(n.isClone), Some(n.noteId), Some(n.title), Some(n.notePosition), Some(n.prefix), Some(n.isExpanded),
         Some(n.kind), Some(n.mime), Some(n.attributes), Some(n.links), Some(n.format),
         n.dataFileName, n.dirFileName, n.children, n.attrs, n.ext)
  }

  /**
   * Passing no keys is passing nothing; passing every key of a node yields
   * that node exactly, whatever id was drawn, provided it carries an `_ext`
   * (the template always has one) and every optional key it may lack is
   * absent from the template as well.
   */
  lemma NodeTemplateExtremes(n: Node, id: string)
    ensures Templated(Some(NoKeys), id) == Templated(None, id)
    ensures n.ext.Some? ==> Templated(Some(NodeKeys(n)), id) == n
    ensures n.ext.None? ==> Templated(Some(NodeKeys(n)), id) == n.(ext := Some(DefaultExt))
  {
  }

  // ---------------------------------------------------------------------------
  // order_nodes_attrs

  /** Attribute positions rewritten to 0, 1, 2, … */
  function OrderedAttrs(attrs: seq<Attr>): (r: seq<Attr>)
    ensures |r| == |attrs|
  {
    seq(|attrs|, j requires 0 <= j < |attrs| => attrs[j].(position := j))
  }

  /** The re-indexed node at position `i`: its own positions, and its children only if it has an attribute. */
  function OrderedAt(ns: seq<Node>, i: nat): (r: Node)
    requires i < |ns|
    decreases ns, 0
  {
    var n := ns[i];
    n.(notePosition := i,
       attributes := OrderedAttrs(n.attributes),
       children := if |n.attributes| > 0 && n.children.Children? then Children(Ordered(n.children.nodes)) else n.children)
  }

  /** What `order_nodes_attrs` leaves in a list of nodes. */
  function Ordered(ns: seq<Node>): (r: seq<Node>)
    ensures |r| == |ns|
    decreases ns, 1
  {
    seq(|ns|, i requires 0 <= i < |ns| => OrderedAt(ns, i))
  }

  /** Every position at every depth cleared: what re-indexing must not change. */
  function Shapes(ns: seq<Node>): (r: seq<Node>)
    ensures |r| == |ns|
    decreases ns, 1
  {
    seq(|ns|, i requires 0 <= i < |ns| => ShapeAt(ns, i))
  }

  function ShapeAt(ns: seq<Node>, i: nat): (r: Node)
    requires i < |ns|
    decreases ns, 0
  {
    var n := ns[i];
    n.(notePosition := 0,
       attributes := seq(|n.attributes|, j requires 0 <= j < |n.attributes| => n.attributes[j].(position := 0)),
       children := if n.children.Children? then Children(Shapes(n.children.nodes)) else NoChildren)
  }

  /**
   * Positions are dense and 0-based: each node's position is its index, each
   * attribute's its index in the node, and so on below every node that has
   * an attribute.
   */
  predicate Indexed(ns: seq<Node>)
    decreases ns
  {
    forall i :: 0 <= i < |ns| ==>
      ns[i].notePosition == i
      && (forall j :: 0 <= j < |ns[i].attributes| ==> ns[i].attributes[j].position == j)
      && (|ns[i].attributes| > 0 && ns[i].children.Children? ==> Indexed(ns[i].children.nodes))
  }

  /** Re-indexing changes nothing but positions: titles, ids, values and the tree shape stay. */
  lemma {:induction false} OrderedKeepsShape(ns: seq<Node>)
    ensures Shapes(Ordered(ns)) == Shapes(ns)
    decreases ns
  {
    forall i | 0 <= i < |ns|
      ensures ShapeAt(Ordered(ns), i) == ShapeAt(ns, i)
    {
      var n := ns[i];
      if |n.attributes| > 0 && n.children.Children? {
        OrderedKeepsShape(n.children.nodes);
      }
    }
  }

  /** After re-indexing, positions are dense and 0-based wherever the recursion reaches. */
  lemma {:induction false} OrderedIndexed(ns: seq<Node>)
    ensures Indexed(Ordered(ns))
    decreases ns
  {
    forall i | 0 <= i < |ns| && |ns[i].attributes| > 0 && ns[i].children.Children?
      ensures Indexed(OrderedAt(ns, i).children.nodes)
    {
      OrderedIndexed(ns[i].children.nodes);
    }
  }

  /** A list already indexed is left as it is. */
  lemma {:induction false} IndexedFixed(ns: seq<Node>)
    requires Indexed(ns)
    ensures Ordered(ns) == ns
    decreases ns
  {
    forall i | 0 <= i < |ns|
      ensures OrderedAt(ns, i) == ns[i]
    {
      var n := ns[i];
      assert OrderedAttrs(n.attributes) == n.attributes;
      if |n.attributes| > 0 && n.children.Children? {
        IndexedFixed(n.children.nodes);
      }
    }
  }

  /** Re-indexing twice gives what re-indexing once gives. */
  lemma OrderedIdempotent(ns: seq<Node>)
    ensures Ordered(Ordered(ns)) == Ordered(ns)
  {
    OrderedIndexed(ns);
    IndexedFixed(Ordered(ns));
  }

  /**
   * The recursion sits inside the attribute loop: the children of a node
   * without attributes keep whatever positions they had, however wrong.
   */
  lemma UnattributedChildrenKept(ns: seq<Node>, i: nat)
    requires i < |ns| && ns[i].attributes == []
    ensures Ordered(ns)[i].children == ns[i].children
    ensures ns[i].children.Children? && |ns[i].children.nodes| > 0 && ns[i].children.nodes[0].notePosition != 0 ==>
              !Indexed(Ordered(ns)[i].children.nodes)
  {
  }

  /** `order_nodes_attrs(items)`: positions rewritten in place, children once per attribute. */
  method OrderNodesAttrs(items: array<Node>)
    modifies items
    ensures items[..] == Ordered(old(items[..]))
    decreases Shapes(items[..])
  {
    ghost var orig := items[..];
    for pos := 0 to items.Length
      invariant forall k :: 0 <= k < pos ==> items[k] == OrderedAt(orig, k)
      invariant forall k :: pos <= k < items.Length ==> items[k] == orig[k]
    {
      ghost var n := orig[pos];
      var node := items[pos].(notePosition := pos);
      for apos := 0 to |node.attributes|
        modifies {}
        invariant |node.attributes| == |n.attributes|
        invariant forall j :: 0 <= j < apos ==> node.attributes[j] == n.attributes[j].(position := j)
        invariant forall j :: apos <= j < |n.attributes| ==> node.attributes[j] == n.attributes[j]
        invariant node.children == if apos > 0 && n.children.Children? then Children(Ordered(n.children.nodes)) else n.children
        invariant node == n.(notePosition := pos, attributes := node.attributes, children := node.children)
      {
        node := node.(attributes := node.attributes[apos := node.attributes[apos].(position := apos)]);
        if node.children.Children? {
          // `get('children', [])` on a node without children hands the
          // recursion a fresh empty list, which it leaves empty: nothing to do.
          var kids := node.children.nodes;
          ghost var origKids := n.children.nodes;
          if apos > 0 {
            OrderedKeepsShape(origKids);
          }
          var sub := new Node[|kids|](k requires 0 <= k < |kids| => kids[k]);
          assert sub[..] == kids;
          assert Shapes(orig)[pos] == ShapeAt(orig, pos);
          assert Shapes(orig)[pos].children.nodes == Shapes(sub[..]);
          OrderNodesAttrs(sub);
          if apos > 0 {
            OrderedIdempotent(origKids);
          }
          node := node.(children := Children(sub[..]));
        }
      }
      assert node.attributes == OrderedAttrs(n.attributes);
      items[pos] := node;
    }
    assert items[..] == Ordered(orig);
  }

  // ---------------------------------------------------------------------------
  // write_tar

  /** How `write_tar` can fail: an item without an `_ext` key raises a KeyError at the body check. */
  datatype TarError = MissingExt(index: nat)

  /** The tags of an item's `_ext`, `[]` when either key is absent. */
  function ExtTags(item: Init): (r: seq<string>)
  {
    if item.ext.Some? && item.ext.value.tags.Some? then item.ext.value.tags.value else []
  }

  /** The label the source builds for one `_ext` tag. */
  function ExtTagLabel(tag: string): (r: Attr)
  {
    AttrTemplate(Some(AttrInit(Some("label"), Some("tag"), Some(Some(tag)), None, None)))
  }

  /** The item after `setdefault('attrs', [])` and the appends: one label per `_ext` tag, in order. */
  function WithTagLabels(item: Init): (r: Init)
  {
    var tags := ExtTags(item);
    item.(attrs := Some(item.attrs.GetOr([]) + seq(|tags|, k requires 0 <= k < |tags| => ExtTagLabel(tags[k]))))
  }

  /** The caller's items once the loop has passed the first `n` of them. */
  function TaggedUpTo(items: seq<Init>, n: nat): (r: seq<Init>)
    ensures |r| == |items|
  {
    seq(|items|, k requires 0 <= k < |items| => if k < n then WithTagLabels(items[k]) else items[k])
  }

  /** The index of the first item without an `_ext` key, if any. */
  function FirstMissingExt(items: seq<Init>): (r: Option<nat>)
    ensures r.Some? ==> r.value < |items| && items[r.value].ext.None? && forall k :: 0 <= k < r.value ==> items[k].ext.Some?
    ensures r.None? ==> forall k :: 0 <= k < |items| ==> items[k].ext.Some?
  {
    if items == [] then None
    else if items[0].ext.None? then Some(0)
    else match FirstMissingExt(items[1..])
         case None => None
         case Some(k) => Some(k + 1)
  }

  /** The body an item's note gets a companion file for: its `_ext` body when truthy, `""` otherwise. */
  function ItemBody(item: Init): (r: string)
  {
    if item.ext.Some? && item.ext.value.body.Some? then item.ext.value.body.value else ""
  }

  function ItemBodies(items: seq<Init>): (r: seq<string>)
    ensures |r| == |items| && forall i :: 0 <= i < |items| ==> r[i] == ItemBody(items[i])
  {
    seq(|items|, i requires 0 <= i < |items| => ItemBody(items[i]))
  }

  /** The note built for item `i` before re-indexing: its keys over the template, `_ext` dropped, and the companion file. */
  function ItemNode(item: Init, i: nat, id: string): (r: Node)
  {
    var n := Templated(Some(WithTagLabels(item)), id).(ext := None);
    if ItemBody(item) != "" then n.(dataFileName := Some(DataFileName(i))) else n
  }

  /** The notes built for the items, before re-indexing, given one id per item. */
  function ItemNodes(items: seq<Init>, ids: seq<string>): (r: seq<Node>)
    requires |items| == |ids|
    ensures |r| == |items| && forall i :: 0 <= i < |items| ==> r[i] == ItemNode(items[i], i, ids[i])
  {
    seq(|items|, i requires 0 <= i < |items| => ItemNode(items[i], i, ids[i]))
  }

  /** The keys of the root note. */
  function RootInit(children: seq<Node>): (r: Init)
  {
    NoKeys.(title := Some(Some(RootTitle)), dirFileName := Some(RootDirName), children := Children(children))
  }

  /**
   * Everything `write_tar` produces when every item has an `_ext`, given the
   * ids its generator returned: one per item, then the root's.
   */
  function Tarred(tarname: string, items: seq<Init>, ids: seq<string>): (r: Archive)
    requires |ids| == |items| + 1
  {
    Packaged(ItemNodes(items, ids[..|items|]), Queued(tarname, ItemBodies(items), |items|), ids[|items|])
  }

  /** The archive around notes `files` and queued body files `outputs`, under a root with id `rootId`. */
  function Packaged(files: seq<Node>, outputs: seq<Output>, rootId: string): (r: Archive)
  {
    Archive(RootManifest(Templated(Some(RootInit(Ordered(files))), rootId)), outputs, EntryNames(outputs))
  }

  /** The per-item part of the loop: the tag labels appended to the item's own `attrs` list. */
  method AppendTagLabels(item: Init) returns (tagged: Init)
    ensures tagged == WithTagLabels(item)
  {
    var attrs := if item.attrs.Some? then item.attrs.value else [];
    var ext := if item.ext.Some? then item.ext.value else Ext(None, None);
    var tags := if ext.tags.Some? then ext.tags.value else [];
    ghost var before := attrs;
    for t := 0 to |tags|
      invariant |attrs| == |before| + t
      invariant attrs[..|before|] == before
      invariant forall k :: 0 <= k < t ==> attrs[|before| + k] == ExtTagLabel(tags[k])
    {
      attrs := attrs + [AttrTemplate(Some(AttrInit(Some("label"), Some("tag"), Some(Some(tags[t])), None, None)))];
    }
    assert attrs == before + seq(|tags|, k requires 0 <= k < |tags| => ExtTagLabel(tags[k]));
    tagged := item.(attrs := Some(attrs));
  }

  /**
   * One pass of the loop for item `i`: its tag labels appended, its note
   * built with `_ext` dropped, then, when the item has an `_ext`, its
   * companion file recorded on the note and queued.
   */
  method ItemStep(tarname: string, i: nat, item: Init) returns (tagged: Init, node: Node, queued: seq<Output>, ghost id: string)
    ensures tagged == WithTagLabels(item)
    ensures IsNodeId(id) && node == ItemNode(item, i, id)
    ensures queued == if ItemBody(item) != "" then [BodyOutput(tarname, i, ItemBody(item))] else []
  {
    tagged := AppendTagLabels(item);
    node, id := NodeTemplate(Some(tagged));
    if node.ext.Some? {
      node := node.(ext := None);
    }
    queued := [];
    if tagged.ext.None? {
      return;
    }
    var body := tagged.ext.value.body;
    if body.Some? && body.value != "" {
      var datafile := DataFileName(i);
      node := node.(dataFileName := Some(datafile));
      queued := [Output(DataPath(tarname, datafile), datafile, body.value)];
    }
  }

  /**
   * The loop of `write_tar` over the caller's items: each gains its tag
   * labels, then its note is built; an item without `_ext` stops the loop
   * after its own labels were added and its note built.
   */
  method ItemNotes(tarname: string, items: array<Init>) returns (files: seq<Node>, outputs: seq<Output>, missing: Option<nat>, ghost ids: seq<string>)
    modifies items
    ensures forall k :: 0 <= k < |ids| ==> IsNodeId(ids[k])
    ensures missing == FirstMissingExt(old(items[..]))
    ensures missing.Some? ==> |ids| == missing.value + 1 && items[..] == TaggedUpTo(old(items[..]), missing.value + 1)
    ensures missing.None? ==>
              |ids| == items.Length && items[..] == TaggedUpTo(old(items[..]), items.Length)
              && files == ItemNodes(old(items[..]), ids) && outputs == Queued(tarname, ItemBodies(old(items[..])), items.Length)
  {
    ghost var orig := items[..];
    files, outputs, missing := [], [], None;
    ids := [];
    for i := 0 to items.Length
      invariant |ids| == i && forall k :: 0 <= k < i ==> IsNodeId(ids[k])
      invariant forall k :: 0 <= k < i ==> orig[k].ext.Some?
      invariant items[..] == TaggedUpTo(orig, i)
      invariant files == ItemNodes(orig[..i], ids)
      invariant outputs == Queued(tarname, ItemBodies(orig), i)
    {
      var item, node, queued;
      ghost var id;
      item, node, queued, id := ItemStep(tarname, i, items[i]);
      ghost var before := items[..];
      items[i] := item;
      TaggedStep(orig, i, before, items[..]);
      ItemNodesAppend(orig, i, ids, id);
      ids := ids + [id];
      files := files + [node];
      if item.ext.None? {
        FirstMissingAt(orig, i);
        missing := Some(i);
        return;
      }
      QueuedNext(tarname, orig, i);
      outputs := outputs + queued;
    }
    FirstMissingNone(orig);
    assert orig[..items.Length] == orig;
  }

  /**
   * `write_tar(tarname, items)`: the run stops at the first item without
   * `_ext`; otherwise it yields the archive of every item's note under a
   * fresh root, given the ids the generator returned.
   */
  method WriteTar(tarname: string, items: array<Init>) returns (r: Result<Archive, TarError>, ghost ids: seq<string>)
    modifies items
    ensures forall k :: 0 <= k < |ids| ==> IsNodeId(ids[k])
    ensures FirstMissingExt(old(items[..])).Some? ==>
              var i := FirstMissingExt(old(items[..])).value;
              r == Failure(MissingExt(i)) && |ids| == i + 1 && items[..] == TaggedUpTo(old(items[..]), i + 1)
    ensures FirstMissingExt(old(items[..])).None? ==>
              |ids| == items.Length + 1 && r == Success(Tarred(tarname, old(items[..]), ids))
              && items[..] == TaggedUpTo(old(items[..]), items.Length)
  {
    ghost var orig := items[..];
    var files, outputs, missing;
    files, outputs, missing, ids := ItemNotes(tarname, items);
    if missing.Some? {
      r := Failure(MissingExt(missing.value));
      return;
    }
    var archive;
    ghost var rootId;
    archive, rootId := Package(files, outputs);
    assert (ids + [rootId])[..|orig|] == ids;
    ids := ids + [rootId];
    r := Success(archive);
  }

  /** After the loop: the notes re-indexed under a fresh root, the manifest, and the tar entries. */
  method Package(files: seq<Node>, outputs: seq<Output>) returns (archive: Archive, ghost rootId: string)
    ensures IsNodeId(rootId) && archive == Packaged(files, outputs, rootId)
  {
    var ordered := new Node[|files|](k requires 0 <= k < |files| => files[k]);
    assert ordered[..] == files;
    OrderNodesAttrs(ordered);
    var root;
    root, rootId := NodeTemplate(Some(RootInit(ordered[..])));
    var data := Manifest(FormatVersion, AppVersion, [root]);
    var entries := ArchiveEntries(outputs);
    archive := Archive(data, outputs, entries);
  }

  // ---------------------------------------------------------------------------
  // What write_tar promises

  /**
   * An item after its pass: only its `attrs` changed; they keep what the
   * caller had and gain one inheritable-false, position-0 label per `_ext`
   * tag, so their tag values are the caller's followed by the `_ext` tags.
   */
  lemma WithTagLabelsShape(item: Init)
    ensures var t := WithTagLabels(item);
            var before := item.attrs.GetOr([]);
            t == item.(attrs := t.attrs) && t.attrs.Some?
            && |t.attrs.value| == |before| + |ExtTags(item)| && t.attrs.value[..|before|] == before
            && (forall k :: |before| <= k < |t.attrs.value| ==>
                  t.attrs.value[k].kind == "label" && t.attrs.value[k].position == 0 && !t.attrs.value[k].isInheritable)
            && TagValues(t.attrs.value) == TagValues(before) + ExtTags(item)
  {
    var tags := ExtTags(item);
    var before := item.attrs.GetOr([]);
    var labels := seq(|tags|, k requires 0 <= k < |tags| => ExtTagLabel(tags[k]));
    assert WithTagLabels(item).attrs.value == before + labels;
    TagLabelsValues(labels, tags);
    TagValuesAppend(before, labels);
  }

  /**
   * The manifest `write_tar` writes: version 1 from app version 0.34.3,
   * holding one root titled "Import root" over directory "ImportRoot", at
   * position 0, not expanded, without attributes, keeping the template's
   * `_ext`, whose children are the items' notes in input order.
   */
  lemma TarredManifest(tarname: string, items: seq<Init>, ids: seq<string>)
    requires |ids| == |items| + 1
    ensures var m := Tarred(tarname, items, ids).manifest;
            m.formatVersion == 1 && m.appVersion == "0.34.3" && |m.files| == 1
            && m.files[0].title == Some("Import root") && m.files[0].dirFileName == Some("ImportRoot")
            && m.files[0].notePosition == 0 && m.files[0].isExpanded == 0 && m.files[0].attributes == []
            && m.files[0].noteId == ids[|items|] && m.files[0].ext == Some(Ext(Some([]), None))
            && m.files[0].children.Children? && |m.files[0].children.nodes| == |items|
            && m.files[0].children.nodes == Ordered(ItemNodes(items, ids[..|items|]))
  {
  }

  /**
   * Note `i` of the archive: at position `i`, without `_ext`; its `attrs` are
   * the item's after the tag labels were appended; its `attributes` are the
   * item's own, re-indexed, or the template's `[]`; every other key comes
   * from the item or the template; it names companion file `md%07d.md` of
   * its index exactly when its `_ext` body is non-empty.
   */
  lemma TarredNotes(tarname: string, items: seq<Init>, ids: seq<string>)
    requires |ids| == |items| + 1
    ensures var nodes := Tarred(tarname, items, ids).manifest.files[0].children.nodes;
            nodes == Ordered(ItemNodes(items, ids[..|items|]))
            && |nodes| == |items|
            && forall i :: 0 <= i < |items| ==>
                 nodes[i].notePosition == i && nodes[i].ext.None?
                 && nodes[i].attrs == WithTagLabels(items[i]).attrs
                 && nodes[i].attributes == OrderedAttrs(items[i].attributes.GetOr([]))
                 && nodes[i].noteId == items[i].noteId.GetOr(ids[i])
                 && nodes[i].title == items[i].title.GetOr(Some("NO TITLE"))
                 && nodes[i].isExpanded == items[i].isExpanded.GetOr(0)
                 && (ItemBody(items[i]) != "" ==> nodes[i].dataFileName == Some(DataFileName(i)))
                 && (ItemBody(items[i]) == "" ==> nodes[i].dataFileName == items[i].dataFileName)
  {
    var built := ItemNodes(items, ids[..|items|]);
    var nodes := Tarred(tarname, items, ids).manifest.files[0].children.nodes;
    assert nodes == Ordered(built);
    forall i | 0 <= i < |items|
      ensures nodes[i] == OrderedAt(built, i) && built[i] == ItemNode(items[i], i, ids[i])
    {
    }
  }

  /**
   * The remaining keys of note `i`: each is the item's own or the
   * template's; its children are kept as given, re-indexed only when the
   * item has attributes.
   */
  lemma TarredNoteKeys(tarname: string, items: seq<Init>, ids: seq<string>)
    requires |ids| == |items| + 1
    ensures var nodes := Tarred(tarname, items, ids).manifest.files[0].children.nodes;
            |nodes| == |items|
            && forall i :: 0 <= i < |items| ==>
                 nodes[i].isClone == items[i].isClone.GetOr(false)
                 && nodes[i].prefix == items[i].prefix.GetOr(None)
                 && nodes[i].kind == items[i].kind.GetOr("text")
                 && nodes[i].mime == items[i].mime.GetOr("text/html")
                 && nodes[i].links == items[i].links.GetOr([])
                 && nodes[i].format == items[i].format.GetOr("markdown")
                 && nodes[i].dirFileName == items[i].dirFileName
                 && nodes[i].children
                    == if |items[i].attributes.GetOr([])| > 0 && items[i].children.Children?
                       then Children(Ordered(items[i].children.nodes)) else items[i].children
  {
    var built := ItemNodes(items, ids[..|items|]);
    var nodes := Tarred(tarname, items, ids).manifest.files[0].children.nodes;
    assert nodes == Ordered(built);
    forall i | 0 <= i < |items|
      ensures nodes[i] == OrderedAt(built, i) && built[i] == ItemNode(items[i], i, ids[i])
    {
    }
  }

  /**
   * The companion files `write_tar` queues: `idx[k]` is the item behind the
   * k-th file, whose note names that file and whose `_ext` body it holds,
   * staged under the import directory; every item with a body has its
   * file.
   */
  lemma TarredFiles(tarname: string, items: seq<Init>, ids: seq<string>) returns (idx: seq<nat>)
    requires |ids| == |items| + 1
    ensures var a := Tarred(tarname, items, ids);
            var nodes := a.manifest.files[0].children.nodes;
            |nodes| == |items| && |idx| == |a.outputs|
            && (forall k :: 0 <= k < |a.outputs| ==>
                  0 <= idx[k] < |items|
                  && a.outputs[k].name == DataFileName(idx[k])
                  && nodes[idx[k]].dataFileName == Some(a.outputs[k].name)
                  && a.outputs[k].content == ItemBody(items[idx[k]])
                  && a.outputs[k].path == DataPath(tarname, a.outputs[k].name))
            && (forall k, m :: 0 <= k < m < |idx| ==> idx[k] < idx[m])
            && (forall i :: 0 <= i < |items| && ItemBody(items[i]) != "" ==> i in idx)
  {
    idx := QueuedIndexed(tarname, ItemBodies(items), |items|);
    TarredNotes(tarname, items, ids);
  }

  /**
   * The tar entries: the manifest, the import directory, which `tar.add`
   * adds recursively with every staged file in sorted order, then each
   * queued file again. Below ten million files the sorted order is the
   * queue order, so each file appears at the same place in both runs.
   */
  lemma TarredEntries(tarname: string, items: seq<Init>, ids: seq<string>)
    requires |ids| == |items| + 1
    ensures var a := Tarred(tarname, items, ids);
            |a.entries| == 2 * |a.outputs| + 2 && a.entries[0] == "!!!meta.json" && a.entries[1] == "ImportRoot/"
            && (|items| <= 10000000 ==>
                  a.entries == ["!!!meta.json", "ImportRoot/"] + UnderRoot(OutputNames(a.outputs)) + UnderRoot(OutputNames(a.outputs)))
  {
    var outputs := Queued(tarname, ItemBodies(items), |items|);
    EntryLayout(outputs);
    if |items| <= 10000000 {
      QueuedListing(tarname, ItemBodies(items), |items|);
    }
  }

  lemma ItemNodesAppend(items: seq<Init>, i: nat, ids: seq<string>, id: string)
    requires i < |items| && |ids| == i
    ensures ItemNodes(items[..i + 1], ids + [id]) == ItemNodes(items[..i], ids) + [ItemNode(items[i], i, id)]
  {
    var a := ItemNodes(items[..i + 1], ids + [id]);
    var b := ItemNodes(items[..i], ids) + [ItemNode(items[i], i, id)];
    forall k | 0 <= k < |a|
      ensures a[k] == b[k]
    {
      if k < i {
        assert items[..i + 1][k] == items[..i][k];
        assert (ids + [id])[k] == ids[k];
      }
    }
  }

  /** The queue after item `i` is the queue before it plus that item's file, if it has a body. */
  lemma QueuedNext(tarname: string, items: seq<Init>, i: nat)
    requires i < |items|
    ensures Queued(tarname, ItemBodies(items), i + 1)
            == Queued(tarname, ItemBodies(items), i)
               + if ItemBody(items[i]) != "" then [BodyOutput(tarname, i, ItemBody(items[i]))] else []
  {
    assert ItemBodies(items)[i] == ItemBody(items[i]);
  }

  lemma TaggedStep(items: seq<Init>, i: nat, before: seq<Init>, after: seq<Init>)
    requires i < |items| && before == TaggedUpTo(items, i) && after == before[i := WithTagLabels(items[i])]
    ensures after == TaggedUpTo(items, i + 1)
  {
  }

  lemma FirstMissingAt(items: seq<Init>, i: nat)
    requires i < |items| && items[i].ext.None?
    requires forall k :: 0 <= k < i ==> items[k].ext.Some?
    ensures FirstMissingExt(items) == Some(i)
  {
    var r := FirstMissingExt(items);
    assert r.Some?;
    assert r.value == i;
  }

  lemma FirstMissingNone(items: seq<Init>)
    requires forall k :: 0 <= k < |items| ==> items[k].ext.Some?
    ensures FirstMissingExt(items) == None
  {
  }
}
