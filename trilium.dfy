/**
 * The Trilium Notes import archive shared by both writers: the node and
 * attribute records of the manifest, the manifest itself, the random note
 * ids, the companion body file names and the ordered list of tar entries.
 */
module Trilium {
  import opened Wrappers
  import opened Text

  /** One attribute record of a note (`type` is a Dafny keyword, hence `kind`). */
  datatype Attr = Attr(kind: string, name: string, value: Option<string>, isInheritable: bool, position: int)

  /** The side-channel `_ext` record of the generic writer: tags to turn into labels, and a body. */
  datatype Ext = Ext(tags: Option<seq<string>>, body: Option<string>)

  /**
   * One note record of the manifest. The first eleven fields are always
   * present; the last five are keys a node may or may not carry (`_ext` is
   * the field `ext`).
   */
  datatype Node = Node(
    isClone: bool,
    noteId: string,
    title: Option<string>,
    notePosition: int,
    prefix: Option<string>,
    isExpanded: int,
    kind: string,
    mime: string,
    attributes: seq<Attr>,
    links: seq<string>,
    format: string,
    dataFileName: Option<string>,
    dirFileName: Option<string>,
    children: Children,
    attrs: Option<seq<Attr>>,
    ext: Option<Ext>)

  /** The `children` key of a node: absent, or a list of nodes. */
  datatype Children = NoChildren | Children(nodes: seq<Node>)

  /** The manifest written as `!!!meta.json`. */
  datatype Manifest = Manifest(formatVersion: int, appVersion: string, files: seq<Node>)

  /** A body file queued for the archive: where it is staged on disk, its name, what it holds. */
  datatype Output = Output(path: string, name: string, content: string)

  /** What a writer produces: the manifest, the staged body files, and the tar entry names in order. */
  datatype Archive = Archive(manifest: Manifest, outputs: seq<Output>, entries: seq<string>)

  const FormatVersion: int := 1
  const AppVersion: string := "0.34.3"
  const MetaName: string := "!!!meta.json"
  const RootDirName: string := "ImportRoot"
  const RootEntry: string := "ImportRoot/"
  const RootTitle: string := "Import root"

  // ---------------------------------------------------------------------------
  // Note ids

  /** `ID_CHARS`: digits, upper-case letters, lower-case letters. */
  const IdChars: string := "0123456789" + "ABCDEFGHIJKLMNOPQRSTUVWXYZ" + "abcdefghijklmnopqrstuvwxyz"
  const IdLength: nat := 12

  /** An ASCII letter or digit. */
  predicate IsIdChar(c: char)
  {
    '0' <= c <= '9' || 'A' <= c <= 'Z' || 'a' <= c <= 'z'
  }

  /** Twelve letters and digits, the shape of every generated note id. */
  predicate IsNodeId(id: string)
  {
    |id| == IdLength && forall i :: 0 <= i < |id| ==> IsIdChar(id[i])
  }

  /** The `k`-th letter of the alphabet: the digits, then upper case, then lower case. */
  function IdChar(k: nat): (r: char)
    requires k < 62
  {
    if k < 10 then ('0' as int + k) as char
    else if k < 36 then ('A' as int + k - 10) as char
    else ('a' as int + k - 36) as char
  }

  /** Each letter of the alphabet sits at its index. */
  lemma IdCharsIndexed()
    ensures |IdChars| == 62 && forall k :: 0 <= k < 62 ==> IdChars[k] == IdChar(k)
  {
    assert "0123456789" == seq(10, k requires 0 <= k < 10 => IdChar(k));
    assert "ABCDEFGHIJKLMNOPQRSTUVWXYZ" == seq(26, k requires 0 <= k < 26 => IdChar(k + 10));
    assert "abcdefghijklmnopqrstuvwxyz" == seq(26, k requires 0 <= k < 26 => IdChar(k + 36));
  }

  /** The id alphabet is exactly the 62 ASCII letters and digits. */
  lemma IdAlphabet(c: char)
    ensures |IdChars| == 62
    ensures c in IdChars <==> IsIdChar(c)
  {
    IdCharsIndexed();
    if c in IdChars {
      var k :| 0 <= k < 62 && IdChars[k] == c;
      IdCharRange(k);
    }
    if IsIdChar(c) {
      var k := IdCharIndex(c);
      assert IdChars[k] == c;
    }
  }

  lemma IdCharRange(k: nat)
    requires k < 62
    ensures IsIdChar(IdChar(k))
  {
  }

  /** Where a letter or digit sits in the alphabet. */
  lemma IdCharIndex(c: char) returns (k: nat)
    requires IsIdChar(c)
    ensures k < 62 && IdChar(k) == c
  {
    if '0' <= c <= '9' {
      k := c as int - '0' as int;
    } else if 'A' <= c <= 'Z' {
      k := 10 + c as int - 'A' as int;
    } else {
      k := 36 + c as int - 'a' as int;
    }
  }

  /**
   * `make_node_id`: twelve characters drawn from the alphabet. The random
   * source is an arbitrary choice here; nothing makes two ids differ.
   */
  method MakeNodeId() returns (id: string)
    ensures |id| == IdLength && forall i :: 0 <= i < |id| ==> id[i] in IdChars
    ensures IsNodeId(id)
  {
    assert IdChars[0] == '0';
    ghost var zeros := seq(IdLength, _ => '0');
    assert forall i :: 0 <= i < |zeros| ==> zeros[i] in IdChars;
    id :| |id| == IdLength && forall i :: 0 <= i < |id| ==> id[i] in IdChars;
    forall i | 0 <= i < |id|
      ensures IsIdChar(id[i])
    {
      IdAlphabet(id[i]);
    }
  }

  // ---------------------------------------------------------------------------
  // Companion body files

  /** `"md%07d.md" % i`. */
  function DataFileName(i: nat): (r: string)
  {
    "md" + ZeroPad(i, 7) + ".md"
  }

  /** The digits between the `md` and `.md` of a companion file name. */
  function DataFileIndex(name: string): (r: nat)
    requires |name| >= 5
    requires forall k :: 2 <= k < |name| - 3 ==> IsDigit(name[k])
  {
    DecimalValue(name[2..|name| - 3])
  }

  /**
   * The index can be read back from the name, so two bookmarks never share a
   * companion file; below ten million the name is always twelve characters.
   */
  lemma DataFileNameRoundTrip(i: nat)
    ensures |DataFileName(i)| >= 5
    ensures forall k :: 2 <= k < |DataFileName(i)| - 3 ==> IsDigit(DataFileName(i)[k])
    ensures DataFileIndex(DataFileName(i)) == i
    ensures i < 10000000 ==> |DataFileName(i)| == 12
  {
    var name := DataFileName(i);
    assert name[2..|name| - 3] == ZeroPad(i, 7);
    ZeroPadRoundTrip(i, 7);
    if i < 10000000 {
      assert Pow10(7) == 10000000;
      DecimalBelow(i, 7);
    }
  }

  lemma DataFileNameInjective(i: nat, j: nat)
    requires DataFileName(i) == DataFileName(j)
    ensures i == j
  {
    DataFileNameRoundTrip(i);
    DataFileNameRoundTrip(j);
  }

  /** A number below `10^w` has at most `w` decimal digits. */
  lemma {:induction false} DecimalBelow(n: nat, w: nat)
    requires 1 <= w && n < Pow10(w)
    ensures |Decimal(n)| <= w
    decreases w
  {
    if n >= 10 {
      assert w > 1;
      DecimalBelow(n / 10, w - 1);
    }
  }

  function Pow10(w: nat): nat
  {
    if w == 0 then 1 else 10 * Pow10(w - 1)
  }

  // ---------------------------------------------------------------------------
  // Tag labels

  /** The values of the `tag` labels in an attribute list, in order. */
  function TagValues(attrs: seq<Attr>): (r: seq<string>)
  {
    if attrs == [] then []
    else (if attrs[0].name == "tag" && attrs[0].value.Some? then [attrs[0].value.value] else []) + TagValues(attrs[1..])
  }

  lemma {:induction false} TagLabelsValues(labels: seq<Attr>, tags: seq<string>)
    requires |labels| == |tags|
    requires forall j :: 0 <= j < |labels| ==> labels[j].name == "tag" && labels[j].value == Some(tags[j])
    ensures TagValues(labels) == tags
    decreases |labels|
  {
    if labels != [] {
      TagLabelsValues(labels[1..], tags[1..]);
      assert tags == [tags[0]] + tags[1..];
    }
  }

  lemma {:induction false} TagValuesAppend(a: seq<Attr>, b: seq<Attr>)
    ensures TagValues(a + b) == TagValues(a) + TagValues(b)
    decreases |a|
  {
    if a == [] {
      assert a + b == b;
    } else {
      assert (a + b)[0] == a[0];
      assert (a + b)[1..] == a[1..] + b;
      TagValuesAppend(a[1..], b);
    }
  }

  lemma {:induction false} TagValuesNone(b: seq<Attr>)
    requires forall k :: 0 <= k < |b| ==> b[k].name != "tag"
    ensures TagValues(b) == []
    decreases |b|
  {
    if b != [] {
      TagValuesNone(b[1..]);
    }
  }

  // ---------------------------------------------------------------------------
  // Staging paths and the tar entry list

  /** `os.path.join(tarname + '.d', 'ImportRoot')`. */
  function RootDir(tarname: string): (r: string)
  {
    tarname + ".d/" + RootDirName
  }

  /** `os.path.join(rootdir, datafile)`. */
  function DataPath(tarname: string, name: string): (r: string)
  {
    RootDir(tarname) + "/" + name
  }

  /** The body file queued for the note at index `i`. */
  function BodyOutput(tarname: string, i: nat, body: string): (r: Output)
  {
    Output(DataPath(tarname, DataFileName(i)), DataFileName(i), body)
  }

  /**
   * The body files queued for the first `n` notes, in order: one for every
   * non-empty body, named after the note's index among all notes.
   */
  function Queued(tarname: string, bodies: seq<string>, n: nat): (r: seq<Output>)
    requires n <= |bodies|
  {
    if n == 0 then []
    else Queued(tarname, bodies, n - 1) + (if bodies[n - 1] != "" then [BodyOutput(tarname, n - 1, bodies[n - 1])] else [])
  }

  /**
   * The queued files are exactly the non-empty bodies, in order: `idx[k]` is
   * the note behind the k-th file, whose name carries that index, never a
   * count of bodies alone; no two files share a name.
   */
  lemma {:induction false} QueuedIndexed(tarname: string, bodies: seq<string>, n: nat) returns (idx: seq<nat>)
    requires n <= |bodies|
    ensures QueuedAt(tarname, bodies, n, idx)
    decreases n
  {
    if n == 0 {
      idx := [];
    } else {
      var prev := QueuedIndexed(tarname, bodies, n - 1);
      if bodies[n - 1] != "" {
        idx := QueuedGrows(tarname, bodies, n, prev);
      } else {
        QueuedSkips(tarname, bodies, n, prev);
        idx := prev;
      }
    }
  }

  /**
   * `idx` lists the notes behind the files queued for the first `n` notes:
   * `idx[k]` is the note behind the k-th file, whose name carries that index;
   * the notes are in increasing order, and every note with a body is listed.
   */
  predicate QueuedAt(tarname: string, bodies: seq<string>, n: nat, idx: seq<nat>)
    requires n <= |bodies|
  {
    |idx| == |Queued(tarname, bodies, n)|
    && (forall k :: 0 <= k < |idx| ==>
          idx[k] < n && bodies[idx[k]] != "" && Queued(tarname, bodies, n)[k] == BodyOutput(tarname, idx[k], bodies[idx[k]]))
    && (forall k, m :: 0 <= k < m < |idx| ==> idx[k] < idx[m])
    && (forall i :: 0 <= i < n && bodies[i] != "" ==> i in idx)
  }

  lemma QueuedGrows(tarname: string, bodies: seq<string>, n: nat, prev: seq<nat>) returns (idx: seq<nat>)
    requires 0 < n <= |bodies| && bodies[n - 1] != "" && QueuedAt(tarname, bodies, n - 1, prev)
    ensures QueuedAt(tarname, bodies, n, idx)
  {
    var before := Queued(tarname, bodies, n - 1);
    var out := BodyOutput(tarname, n - 1, bodies[n - 1]);
    assert Queued(tarname, bodies, n) == before + [out];
    idx := prev + [n - 1];
    forall k | 0 <= k < |prev|
      ensures Queued(tarname, bodies, n)[k] == before[k] && idx[k] == prev[k]
    {
    }
    assert idx[|prev|] == n - 1;
    forall i | 0 <= i < n && bodies[i] != ""
      ensures i in idx
    {
      if i < n - 1 {
        assert i in prev;
      }
    }
  }

  lemma QueuedSkips(tarname: string, bodies: seq<string>, n: nat, prev: seq<nat>)
    requires 0 < n <= |bodies| && bodies[n - 1] == "" && QueuedAt(tarname, bodies, n - 1, prev)
    ensures QueuedAt(tarname, bodies, n, prev)
  {
    assert Queued(tarname, bodies, n) == Queued(tarname, bodies, n - 1);
    forall i | 0 <= i < n && bodies[i] != ""
      ensures i in prev
    {
      assert i < n - 1;
    }
  }

  /** The manifest both writers produce around the root node. */
  function RootManifest(root: Node): (r: Manifest)
  {
    Manifest(FormatVersion, AppVersion, [root])
  }

  /** The names of the queued body files, in queue order. */
  function OutputNames(outputs: seq<Output>): (r: seq<string>)
    ensures |r| == |outputs| && forall k :: 0 <= k < |outputs| ==> r[k] == outputs[k].name
  {
    seq(|outputs|, k requires 0 <= k < |outputs| => outputs[k].name)
  }

  /** Archive names under the import directory: `os.path.join("ImportRoot/", name)`. */
  function UnderRoot(names: seq<string>): (r: seq<string>)
    ensures |r| == |names| && forall k :: 0 <= k < |names| ==> r[k] == RootEntry + names[k]
  {
    seq(|names|, k requires 0 <= k < |names| => RootEntry + names[k])
  }

  /**
   * The tar entry names: the manifest; the directory, which `tar.add` adds
   * recursively, so it is followed by every file staged in it, in sorted
   * order; then each queued body file again, in queue order. The staging
   * directory is created fresh, so it holds exactly the queued files.
   */
  function EntryNames(outputs: seq<Output>): (r: seq<string>)
  {
    [MetaName, RootEntry] + UnderRoot(SortNames(OutputNames(outputs))) + UnderRoot(OutputNames(outputs))
  }

  /** Adds each name under the import directory, in the order given. */
  method AddUnderRoot(entries: seq<string>, names: seq<string>) returns (r: seq<string>)
    ensures r == entries + UnderRoot(names)
  {
    r := entries;
    for k := 0 to |names|
      invariant r == entries + UnderRoot(names[..k])
    {
      assert names[..k + 1] == names[..k] + [names[k]];
      assert UnderRoot(names[..k + 1]) == UnderRoot(names[..k]) + [RootEntry + names[k]];
      r := r + [RootEntry + names[k]];
    }
    assert names[..|names|] == names;
  }

  /**
   * The packaging step: the manifest, the directory with its contents
   * listed in sorted order, then each queued body file under the directory,
   * in queue order.
   */
  method ArchiveEntries(outputs: seq<Output>) returns (entries: seq<string>)
    ensures |entries| == 2 * |outputs| + 2
    ensures entries[0] == MetaName && entries[1] == RootEntry
    ensures forall k :: 0 <= k < |outputs| ==> entries[k + 2] == RootEntry + SortNames(OutputNames(outputs))[k]
    ensures forall k :: 0 <= k < |outputs| ==> entries[|outputs| + k + 2] == RootEntry + outputs[k].name
    ensures entries == EntryNames(outputs)
  {
    var listing, queue := SortNames(OutputNames(outputs)), OutputNames(outputs);
    var head := [MetaName, RootEntry];
    var staged := AddUnderRoot(head, listing);
    entries := AddUnderRoot(staged, queue);
    var sorted, queued := UnderRoot(listing), UnderRoot(queue);
    assert |sorted| == |queued| == |outputs|;
    assert entries == head + sorted + queued;
    forall k | 0 <= k < |outputs|
      ensures entries[k + 2] == RootEntry + listing[k]
      ensures entries[|outputs| + k + 2] == RootEntry + outputs[k].name
    {
      assert entries[k + 2] == sorted[k];
      assert entries[|outputs| + k + 2] == queued[k];
    }
  }

  /**
   * With fewer than ten million notes the sorted listing of the staging
   * directory is the queue itself, so each body file is archived twice in a
   * row of blocks: every queued name appears right after the directory and
   * again after the listing.
   */
  lemma QueuedListing(tarname: string, bodies: seq<string>, n: nat)
    requires n <= |bodies| && n <= 10000000
    ensures SortNames(OutputNames(Queued(tarname, bodies, n))) == OutputNames(Queued(tarname, bodies, n))
  {
    var idx := QueuedIndexed(tarname, bodies, n);
    var names := OutputNames(Queued(tarname, bodies, n));
    forall k | 0 <= k < |names| - 1
      ensures LexLess(names[k], names[k + 1])
    {
      DataFileNameOrdered(idx[k], idx[k + 1]);
    }
    SortedUnchanged(names);
  }

  /** Where each name sits in the entry list. */
  lemma EntryLayout(outputs: seq<Output>)
    ensures var entries := EntryNames(outputs);
            |entries| == 2 * |outputs| + 2 && entries[0] == MetaName && entries[1] == RootEntry
            && (forall k :: 0 <= k < |outputs| ==>
                  entries[k + 2] == RootEntry + SortNames(OutputNames(outputs))[k]
                  && entries[|outputs| + k + 2] == RootEntry + outputs[k].name)
  {
    var listing, queue := UnderRoot(SortNames(OutputNames(outputs))), UnderRoot(OutputNames(outputs));
    var entries := EntryNames(outputs);
    forall k | 0 <= k < |outputs|
      ensures entries[k + 2] == listing[k] && entries[|outputs| + k + 2] == queue[k]
    {
    }
  }

  /** When the listing is already in queue order, both runs name the files alike. */
  lemma ListingInQueueOrder(outputs: seq<Output>)
    requires SortNames(OutputNames(outputs)) == OutputNames(outputs)
    ensures forall k :: 0 <= k < |outputs| ==>
              EntryNames(outputs)[k + 2] == RootEntry + outputs[k].name
              && EntryNames(outputs)[|outputs| + k + 2] == RootEntry + outputs[k].name
  {
    EntryLayout(outputs);
  }

  // ---------------------------------------------------------------------------
  // `sorted()` on names

  /** Python's `<` on strings: code-point lexicographic order, a proper prefix first. */
  predicate LexLess(a: string, b: string)
    decreases |a|
  {
    b != [] && (a == [] || a[0] < b[0] || (a[0] == b[0] && LexLess(a[1..], b[1..])))
  }

  predicate LexLe(a: string, b: string)
  {
    a == b || LexLess(a, b)
  }

  predicate Sorted(names: seq<string>)
  {
    forall k :: 0 <= k < |names| - 1 ==> LexLe(names[k], names[k + 1])
  }

  function InsertName(x: string, names: seq<string>): (r: seq<string>)
    ensures |r| == |names| + 1
    decreases |names|
  {
    if names == [] then [x]
    else if LexLe(x, names[0]) then [x] + names
    else [names[0]] + InsertName(x, names[1..])
  }

  /** `sorted(names)`: ascending order (SortNamesSorted), the same names (SortNamesPermutes). */
  function SortNames(names: seq<string>): (r: seq<string>)
    ensures |r| == |names|
    decreases |names|
  {
    if names == [] then [] else InsertName(names[0], SortNames(names[1..]))
  }

  lemma {:induction false} InsertNamePermutes(x: string, names: seq<string>)
    ensures multiset(InsertName(x, names)) == multiset(names) + multiset{x}
    decreases |names|
  {
    if names != [] && !LexLe(x, names[0]) {
      InsertNamePermutes(x, names[1..]);
      assert names == [names[0]] + names[1..];
    }
  }

  /** `sorted()` keeps every name, as often as it occurs. */
  lemma {:induction false} SortNamesPermutes(names: seq<string>)
    ensures multiset(SortNames(names)) == multiset(names)
    decreases |names|
  {
    if names != [] {
      SortNamesPermutes(names[1..]);
      InsertNamePermutes(names[0], SortNames(names[1..]));
      assert names == [names[0]] + names[1..];
    }
  }

  /** Two different strings are always ordered one way or the other. */
  lemma {:induction false} LexTotal(a: string, b: string)
    requires a != b
    ensures LexLess(a, b) || LexLess(b, a)
    decreases |a|
  {
    if a != [] && b != [] && a[0] == b[0] {
      LexTotal(a[1..], b[1..]);
    }
  }

  lemma {:induction false} InsertSorted(x: string, names: seq<string>)
    requires Sorted(names)
    ensures Sorted(InsertName(x, names))
    ensures names != [] ==> InsertName(x, names)[0] == x || InsertName(x, names)[0] == names[0]
    decreases |names|
  {
    if names != [] && !LexLe(x, names[0]) {
      LexTotal(x, names[0]);
      InsertSorted(x, names[1..]);
      var r := InsertName(x, names[1..]);
      assert InsertName(x, names) == [names[0]] + r;
    }
  }

  /** `sorted()` returns its names in ascending order. */
  lemma {:induction false} SortNamesSorted(names: seq<string>)
    ensures Sorted(SortNames(names))
    decreases |names|
  {
    if names != [] {
      SortNamesSorted(names[1..]);
      InsertSorted(names[0], SortNames(names[1..]));
    }
  }

  /** Names already strictly ascending come back as they are. */
  lemma {:induction false} SortedUnchanged(names: seq<string>)
    requires forall k :: 0 <= k < |names| - 1 ==> LexLess(names[k], names[k + 1])
    ensures SortNames(names) == names
    decreases |names|
  {
    if names != [] {
      SortedUnchanged(names[1..]);
      assert names == [names[0]] + names[1..];
    }
  }

  /** A common prefix does not change the order. */
  lemma {:induction false} LexPrefix(p: string, u: string, v: string)
    requires LexLess(u, v)
    ensures LexLess(p + u, p + v)
    decreases |p|
  {
    if p != [] {
      assert (p + u)[1..] == p[1..] + u && (p + v)[1..] == p[1..] + v;
      LexPrefix(p[1..], u, v);
    } else {
      assert p + u == u && p + v == v;
    }
  }

  /** Between strings of one length the order is settled before anything appended. */
  lemma {:induction false} LexAppend(a: string, b: string, u: string, v: string)
    requires |a| == |b| && LexLess(a, b)
    ensures LexLess(a + u, b + v)
    decreases |a|
  {
    if a[0] == b[0] {
      assert (a + u)[1..] == a[1..] + u && (b + v)[1..] == b[1..] + v;
      LexAppend(a[1..], b[1..], u, v);
    }
  }

  lemma {:induction false} DigitsInjective(a: string, b: string)
    requires |a| == |b|
    requires forall i :: 0 <= i < |a| ==> IsDigit(a[i])
    requires forall i :: 0 <= i < |b| ==> IsDigit(b[i])
    requires DecimalValue(a) == DecimalValue(b)
    ensures a == b
    decreases |a|
  {
    if a != [] {
      var a', b' := a[..|a| - 1], b[..|b| - 1];
      DigitsInjective(a', b');
      assert a == a' + [a[|a| - 1]] && b == b' + [b[|b| - 1]];
    }
  }

  /** Among digit strings of one length the order of the values is the order of the strings. */
  lemma {:induction false} DigitsOrdered(a: string, b: string)
    requires |a| == |b|
    requires forall i :: 0 <= i < |a| ==> IsDigit(a[i])
    requires forall i :: 0 <= i < |b| ==> IsDigit(b[i])
    requires DecimalValue(a) < DecimalValue(b)
    ensures LexLess(a, b)
    decreases |a|
  {
    var a', b' := a[..|a| - 1], b[..|b| - 1];
    var x, y := a[|a| - 1], b[|b| - 1];
    assert a == a' + [x] && b == b' + [y];
    if DecimalValue(a') < DecimalValue(b') {
      DigitsOrdered(a', b');
      LexAppend(a', b', [x], [y]);
    } else if DecimalValue(a') == DecimalValue(b') {
      DigitsInjective(a', b');
      LexPrefix(a', [x], [y]);
    }
  }

  /** Below ten million, companion file names sort in index order. */
  lemma DataFileNameOrdered(i: nat, j: nat)
    requires i < j < 10000000
    ensures LexLess(DataFileName(i), DataFileName(j))
  {
    DataFileNameRoundTrip(i);
    DataFileNameRoundTrip(j);
    var zi, zj := ZeroPad(i, 7), ZeroPad(j, 7);
    ZeroPadRoundTrip(i, 7);
    ZeroPadRoundTrip(j, 7);
    DigitsOrdered(zi, zj);
    LexAppend(zi, zj, ".md", ".md");
    LexPrefix("md", zi + ".md", zj + ".md");
    assert DataFileName(i) == "md" + (zi + ".md") && DataFileName(j) == "md" + (zj + ".md");
  }
}
