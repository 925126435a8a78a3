# shaa2tn in Dafny

shaa2tn converts a Shaarli bookmark export into a Trilium Notes import
archive. The export is an HTML file of definition lists. Each bookmark is a
title element `<dt>` holding an anchor `<a>`, optionally followed by a
description element `<dd>`. The converter does four things:

- It turns each title/description pair into a bookmark record: title, tags,
  body, date and href (`get_bookmarks`).
- It rewrites markdown strike-through `~~x~~` to `<s>x</s>` in every body
  (`strike_through`).
- It writes one Trilium note per bookmark under a synthetic "Import root"
  note. The manifest is `!!!meta.json`, and each non-empty body becomes a
  companion file `md%07d.md`, all packed into a tar (`write_bookmarks`).
- It appends `.tar` to the output name when it does not already end with it,
  in any case (`main`).

`trilium_io.py` holds a second, generic writer:
- note and attribute templates whose defaults the caller's keys override;
- `order_nodes_attrs`, which rewrites note and attribute positions in place;
- `write_tar`, which turns caller items into notes, taking tag labels and
  bodies from a side-channel `_ext` key.

Modules:

- `Wrappers`: `Option` and `Result`.
- `Text`: the Python `str` operations the code relies on, with Python's
  semantics. These are `in`, `startswith`, `split`, `join`, `strip` and
  `%07d`.
- `Strike`: `strike_through`, as a line-by-line loop.
- `Extract`: `get_bookmarks`, over the elements the XML parser found under
  `<dl>`. It has three steps: the filter, the repair of buried titles, and the
  queue walk.
- `Trilium`: what both writers share:
  - the note, attribute, manifest and archive records;
  - `ID_CHARS` and `make_node_id`;
  - companion file names and the queue of body files;
  - the ordered list of tar entries.
- `BookmarkWriter`: `write_bookmarks`.
- `TriliumIO`: `node_template`, `attr_template`, `order_nodes_attrs` and
  `write_tar`. `order_nodes_attrs` works in place on an array. `write_tar`
  mutates the caller's array of items.
- `Cli`: the `.tar` suffix rule of `main`.

Randomness is modelled as a choice. `MakeNodeId` returns some 12-character id
over the 62-letter alphabet. The writers return the ids they drew as ghost
outputs, and they are proved equal to specification functions (`Written`,
`Tarred`) parameterised by those ids.

Where this model follows the code rather than the documented intent:

- `order_nodes_attrs` recurses into a node's children only from inside its
  attribute loop. Children of a node without attributes keep their positions;
  children of a node with `n` attributes are re-indexed `n` times. Re-indexing
  is idempotent (`OrderedIdempotent`), so the repeats do no harm.
- The private tag is added when the `private` attribute is present and
  non-empty (Python truthiness), not merely when it is present.
- In `write_tar` the `_ext` tags become labels on the item's own `attrs` list,
  with position 0. The note's `attributes` list is a different key and gets no
  tag labels.
- An anchor without `href` is treated as a link. Its body starts with
  `[link](None)`.
- A linked bookmark's body starts with its `[link](href)` line if that line
  holds no `~~`. The strike-through rewrite runs after the line is built, so a
  `~~` in the href can change it.
- The `write_tar` root note keeps the template's `_ext` key. Only the item
  notes lose it.
- An item without `_ext` makes `write_tar` fail with a KeyError. Before the
  failure, `setdefault` has given that item an empty `attrs` list if it had
  none, and its note has been built. It gets no labels
  (`TarError.MissingExt`).
- Both writers add the staging directory with `tar.add(rootdir,
  "ImportRoot/")`. The comment beside it says "by itself", but `tar.add` is
  recursive by default. The call adds the directory and then every file in it,
  in sorted name order, and the loop that follows adds each file again. The
  staging directory is created fresh, so it holds exactly the queued files.
  Below ten million notes the sorted order is the queue order
  (`Trilium.QueuedListing`), so the tar holds every body file twice, in the
  same order both times (`BookmarkWriter.WrittenEntries`,
  `TriliumIO.TarredEntries`).
- A title element without an anchor, a description in title position, and a
  note whose description has no text each make `get_bookmarks` fail
  (`ExtractError`).

## Model

| member | source | states |
|---|---|---|
| `Text.Split` | shaa2tn.py:56 | `str.split` with a non-empty separator: always at least one part |
| `Text.SplitPrefix` | shaa2tn.py:60 | the first part is a prefix of the string, and the separator follows it when there is a second part |
| `Text.SplitJoin` | shaa2tn.py:56-68 | joining the parts of a split with the separator gives the string back |
| `Text.SplitPartsFree` | shaa2tn.py:60 | no part holds the separator, and every cut is at the leftmost occurrence |
| `Text.SplitPartsInherit` | shaa2tn.py:60 | a part cannot hold a pattern the whole string does not hold |
| `Text.SplitNone` | shaa2tn.py:60 | a string without the separator splits into itself alone |
| `Text.SplitAtFirst` | shaa2tn.py:60 | the string is cut at the first occurrence of the separator |
| `Text.JoinSplit` | shaa2tn.py:68 | splitting a join at a one-character separator that no part holds gives the parts back |
| `Text.SplitConcatChar` | shaa2tn.py:56 | splitting at one occurrence of a one-character separator splits each side on its own |
| `Text.JoinAppend` | shaa2tn.py:68 | joining two runs of parts puts one separator between their joins |
| `Text.ContainsChar` | shaa2tn.py:58 | `c in s` for a one-character pattern holds exactly when the character occurs |
| `Text.ContainsPairConcat` | shaa2tn.py:58 | a two-character pattern in `a + b` lies in `a`, in `b`, or across the seam |
| `Text.TrimStart` | shaa2tn.py:98 | `lstrip`: a suffix of the input that does not start with whitespace; everything removed is whitespace |
| `Text.TrimEnd` | shaa2tn.py:98 | `rstrip`: a prefix of the input that does not end with whitespace; everything removed is whitespace |
| `Text.StripKeepsPrefix` | shaa2tn.py:98 | stripping keeps a prefix that neither starts nor ends with whitespace, and yields a prefix of the input |
| `Text.Decimal` | shaa2tn.py:165 | `str(n)`: at least one character, all decimal digits |
| `Text.ZeroPad` | shaa2tn.py:165 | `%07d`: all digits, and exactly the width unless the number needs more digits |
| `Text.ZeroPadRoundTrip` | shaa2tn.py:165 | the zero-padded decimal reads back as the number |
| `Strike.MarkPieces` | shaa2tn.py:61-66 | the inner loop wraps exactly the odd-indexed pieces in `<s>`…`</s>` |
| `Strike.StrikeThrough` | shaa2tn.py:54-68 | the in-place loop over the lines yields the line-by-line rewrite of the text |
| `Strike.StruckUnchanged` | shaa2tn.py:58-59 | text without `~~` comes back unchanged |
| `Strike.StrikeLineNoNewline` | shaa2tn.py:60-67 | rewriting a line adds no newline |
| `Strike.StruckLines` | shaa2tn.py:56-68 | the rewrite keeps the number of lines and maps line `i` to the rewrite of line `i` |
| `Strike.StruckAppend` | shaa2tn.py:54-68 | the rewrite works line by line: around a newline, each side is rewritten on its own |
| `Strike.MarkedNoMarker` | shaa2tn.py:60-67 | once the pieces are rewrapped, no `~~` is left, not even across a seam |
| `Strike.StrikeLineNoMarker` | shaa2tn.py:60-67 | no `~~` survives in a rewritten line |
| `Strike.StruckNoMarker` | shaa2tn.py:54-68 | no `~~` survives anywhere in the rewritten text |
| `Strike.StruckIdempotent` | shaa2tn.py:54-68 | rewriting twice is rewriting once |
| `Strike.PairedMarkers` | shaa2tn.py:60-67 | `x~~y~~z` becomes `x<s>y</s>z` |
| `Strike.UnmatchedMarker` | shaa2tn.py:60-67 | an unmatched `~~` wraps the rest of its line: `x~~y` becomes `x<s>y</s>` |
| `Extract.FindChild` | shaa2tn.py:92 | `find('a')`: the first direct child with that tag, and `None` only when no child has it |
| `Extract.DtsIn` | shaa2tn.py:85 | `findall('.//dt')` yields only `dt` elements |
| `Extract.DtsInExactly` | shaa2tn.py:85 | `findall('.//dt')` finds exactly the `dt` elements at any depth |
| `Extract.TitlesAndBodies` | shaa2tn.py:75 | the filter keeps only `dt` and `dd` elements |
| `Extract.TitlesAndBodiesExactly` | shaa2tn.py:75 | the filter keeps exactly the `dt` and `dd` elements that were found |
| `Extract.TitlesAndBodiesSingle` | shaa2tn.py:75 | one element is kept exactly when it is a `dt` or a `dd` |
| `Extract.TitlesAndBodiesAppend` | shaa2tn.py:75 | filtering a concatenation concatenates the filtered parts, so the kept elements stay in their order, repeats included |
| `Extract.RepairBuried` | shaa2tn.py:82-86 | the repair loop appends each element, then the titles buried inside it |
| `Extract.RepairedPrefix` | shaa2tn.py:82-86 | the repair of a prefix of the list is a prefix of the repair |
| `Extract.RepairedLayout` | shaa2tn.py:82-86 | each element keeps its order and is directly followed by its buried titles; nothing is dropped |
| `Extract.LinkAndBody` | shaa2tn.py:93-99 | the href and body statements: a `?` href gives a note, anything else a link; the body is rewritten last; a note without text fails |
| `Extract.AppendBookmark` | shaa2tn.py:100-111 | the record is appended, then its tags are extended in place with the private and import tags |
| `Extract.GetBookmarks` | shaa2tn.py:71-113 | the filter, the repair and the queue walk together yield the specified records or the specified failure |
| `Extract.DtFrom` | shaa2tn.py:89-91 | the positions of all titles from `k` on, ascending, and no others |
| `Extract.WalkStep` | shaa2tn.py:89-111 | a title at `k` yields its record, and the walk resumes right after its description |
| `Extract.WalkSucceedsFrom` | shaa2tn.py:89-111 | when every description follows a title, the walk succeeds exactly when every title builds its record |
| `Extract.WalkFailsFrom` | shaa2tn.py:89-111 | when every description follows a title, a failing walk reports the error of the first title whose record fails |
| `Extract.WalkRecords` | shaa2tn.py:89-111 | when every description follows a title: the walk succeeds exactly when every title builds its record, and then yields one record per title in order, each built from that title and its description; otherwise it fails with the first failing title's error, never a misplaced-element error. When some element is out of place, the walk fails |
| `Extract.TagsShape` | shaa2tn.py:103-111 | tags are the attribute cut at every comma (no tag holds a comma, and they join back to the attribute; `[""]` when absent), then `shaarli_private` if flagged, then `shaarli_import` |
| `Extract.NoteRecord` | shaa2tn.py:94-95 | a note has no href, its body is the rewritten description, and a note whose description has no text fails |
| `Extract.LinkRecord` | shaa2tn.py:96-98 | a link keeps its href, and its body starts with the link line when that line holds no `~~` |
| `Extract.StruckKeepsFirstLine` | shaa2tn.py:54-68 | the rewrite keeps a first line without `~~`, whatever follows its newline |
| `Extract.MissingHref` | shaa2tn.py:97-98 | an anchor without href yields a link to `None` whose body starts with `[link](None)` |
| `Extract.NoAnchorFails` | shaa2tn.py:92-94 | a title without an anchor fails the extraction |
| `Trilium.IdAlphabet` | trilium_io.py:13 | `ID_CHARS` is exactly the 62 ASCII letters and digits |
| `Trilium.MakeNodeId` | trilium_io.py:16-17 | an id is 12 characters, all from `ID_CHARS` |
| `Trilium.DataFileNameRoundTrip` | shaa2tn.py:165 | the index can be read back from `md%07d.md`, and below ten million the name has 12 characters |
| `Trilium.DataFileNameInjective` | shaa2tn.py:165 | two indices never share a companion file name |
| `Trilium.QueuedIndexed` | shaa2tn.py:164-168 | the queued files are exactly the non-empty bodies, in order, each named after its note's index |
| `Trilium.ArchiveEntries` | shaa2tn.py:190-196 | the tar holds the manifest, then the directory with every staged file under it in sorted name order, then every queued file again in queue order |
| `Trilium.SortNamesSorted` | shaa2tn.py:192 | the directory listing the recursive add uses is in ascending name order |
| `Trilium.SortNamesPermutes` | shaa2tn.py:192 | the listing holds every staged name, as often as it occurs |
| `Trilium.LexTotal` | shaa2tn.py:192 | two different names are always ordered one way or the other |
| `Trilium.SortedUnchanged` | shaa2tn.py:192 | names already strictly ascending are listed as they are |
| `Trilium.DataFileNameOrdered` | shaa2tn.py:165 | below ten million, companion file names sort in index order |
| `Trilium.QueuedListing` | shaa2tn.py:164-192 | below ten million notes the sorted listing of the staged files is the queue order |
| `Trilium.EntryLayout` | shaa2tn.py:190-196 | entry `k + 2` is the `k`-th listed file and entry `n + k + 2` the `k`-th queued file |
| `Trilium.ListingInQueueOrder` | shaa2tn.py:190-196 | when the listing is in queue order, both runs of entries name the files alike |
| `BookmarkWriter.BookmarkAttributes` | shaa2tn.py:129-148 | the attribute loop yields one tag label per tag, then the date label |
| `BookmarkWriter.BookmarkStep` | shaa2tn.py:128-170 | one pass builds bookmark `i`'s note with a fresh id, and queues its body file exactly when the body is non-empty |
| `BookmarkWriter.WriteBookmarks` | shaa2tn.py:120-196 | the whole writer yields the specified archive, given the valid ids it drew |
| `BookmarkWriter.BookmarkAttrsShape` | shaa2tn.py:129-148 | attribute positions are 1, 2, … densely, the tag labels give the tags back in order, and the last label is the date |
| `BookmarkWriter.WrittenManifest` | shaa2tn.py:149-187 | manifest version 1 from app 0.34.3 with one expanded root; note `i` is at position `i`, expanded, titled, labelled, and names a file exactly when its body is non-empty |
| `BookmarkWriter.WrittenNoteKeys` | shaa2tn.py:149-187 | the root and every note are non-clone `text`, `text/html`, `markdown` notes with no prefix and no links; bookmark notes have no children and no directory name |
| `BookmarkWriter.WrittenFiles` | shaa2tn.py:164-170 | every queued file names its bookmark's note and holds its body; no other note names it; every body has its file |
| `BookmarkWriter.WrittenEntries` | shaa2tn.py:189-195 | the manifest, the directory, then the files twice; below ten million bookmarks both runs are in queue order |
| `TriliumIO.AttrTemplate` | trilium_io.py:40-50 | the default label `tag` = `EXAMPLE TAG` at position 0, overridden by the given keys |
| `TriliumIO.AttrTemplateExtremes` | trilium_io.py:40-50 | no keys yields the template; all keys yield exactly the record passed |
| `TriliumIO.Templated` | trilium_io.py:20-37 | the default note (not expanded, titled `NO TITLE`, empty `_ext` tags), overridden by the given keys |
| `TriliumIO.NodeTemplate` | trilium_io.py:20-37 | a fresh valid id is drawn even when the caller overrides it, and the result is the template with the keys applied |
| `TriliumIO.NodeTemplateExtremes` | trilium_io.py:20-37 | no keys yields the template; all keys of a note with `_ext` yield that note |
| `TriliumIO.OrderedKeepsShape` | trilium_io.py:53-59 | re-indexing changes positions only: ids, titles, values and the tree shape stay |
| `TriliumIO.OrderedIndexed` | trilium_io.py:53-59 | afterwards positions are dense and 0-based wherever the recursion reaches |
| `TriliumIO.IndexedFixed` | trilium_io.py:53-59 | a list already indexed is left as it is |
| `TriliumIO.OrderedIdempotent` | trilium_io.py:53-59 | re-indexing twice is re-indexing once |
| `TriliumIO.UnattributedChildrenKept` | trilium_io.py:57-59 | the children of a node without attributes are not re-indexed |
| `TriliumIO.OrderNodesAttrs` | trilium_io.py:53-59 | the in-place recursive loop leaves the array re-indexed |
| `TriliumIO.FirstMissingExt` | trilium_io.py:80 | the first item without `_ext`, or none when every item has one |
| `TriliumIO.AppendTagLabels` | trilium_io.py:71-76 | one label per `_ext` tag is appended to the item's `attrs`, which is created if absent |
| `TriliumIO.ItemStep` | trilium_io.py:70-86 | one pass tags the item, builds its note without `_ext` and with a fresh id, and queues its body file exactly when the body is non-empty |
| `TriliumIO.ItemNotes` | trilium_io.py:70-86 | the loop either stops at the first item without `_ext`, after tagging it, or yields every item's note and body file |
| `TriliumIO.Package` | trilium_io.py:88-108 | the notes are re-indexed under a fresh root, then the manifest and the tar entries follow |
| `TriliumIO.WriteTar` | trilium_io.py:62-108 | fails at the first item without `_ext`, or yields the specified archive given the valid ids it drew; the caller's items gain their labels |
| `TriliumIO.WithTagLabelsShape` | trilium_io.py:71-76 | only `attrs` changes; it keeps the caller's labels and appends label tags at position 0, so its tag values gain the `_ext` tags |
| `TriliumIO.TarredManifest` | trilium_io.py:92-99 | manifest version 1 from app 0.34.3 with one root: `Import root`, directory `ImportRoot`, not expanded, keeping `_ext`; its children are the item notes, re-indexed |
| `TriliumIO.TarredNotes` | trilium_io.py:70-99 | the notes are the item notes re-indexed; note `i` is at position `i` without `_ext`; it carries the tagged `attrs`, re-indexed `attributes`, and the item's id, title and expansion over the template; it names a file exactly when the body is non-empty |
| `TriliumIO.TarredNoteKeys` | trilium_io.py:70-99 | every other key of note `i` is the item's or the template's, and its children are re-indexed only when it has attributes |
| `TriliumIO.TarredFiles` | trilium_io.py:78-86 | every queued file names its item's note and holds its body; the files are in item order; every body has its file |
| `TriliumIO.TarredEntries` | trilium_io.py:100-107 | the manifest, the directory, then the files twice; below ten million items both runs are in queue order |
| `Cli.TarSuffix` | shaa2tn.py:208-209 | the output name ends with `.tar` in some case, is unchanged when it already did, and otherwise gains `.tar`; applying the rule twice is applying it once |
| `Cli.UpperCaseSuffixKept` | shaa2tn.py:208-209 | `x.TAR` is kept as it is, and `x.tgz` becomes `x.tgz.tar` |

## Left out

- The XML parse (`ET.parse`, `findall('.//dl/*')`) is not modelled. `get_bookmarks` starts from the sequence of elements the parser found under `<dl>` elements. Element `text` is the text before the first child.
- The filesystem is not modelled: `os.makedirs`, which fails if the staging directory exists, writing the body files, and writing `!!!meta.json`. The staged files appear as `Output` records (path, name, content).
- The JSON text of the manifest and the tar bytes are not modelled. The manifest is a record, and the tar is its ordered list of entry names.
- `os.path.join` is modelled with a `/` separator.
- The directory listing of the recursive `tar.add` follows `tarfile` from Python 3.7 on, which sorts the names. Names are compared by code point, as Python compares `str`.
- The random source is not modelled. An id is any 12-character string over `ID_CHARS`, so nothing proves two ids differ; the source does not ensure that either.
- `main`'s option parsing, the `.html` fallback for the input path, the "Can't find" exit and the two calls are not modelled. Only the `.tar` suffix rule is.
- `Cli.TarSuffix`: the suffix test lowers only ASCII letters, because full Unicode `lower()` is not modelled. No other character lowers into a character of `.tar`.
- Aliasing in `trilium_io.py` is not modelled. `node_template(item)` shares the item's `attributes` and `children` lists with the note, so `order_nodes_attrs` also rewrites positions seen through the caller's items. Here the note holds its own copy.
- The `write_tar` records hold only the keys the code reads or writes. Any other key a caller passes is not modelled.
- `TriliumIO.OrderNodesAttrs`: skips the recursive call on a node without children. The source passes a fresh empty list there, which the call leaves empty.
- Notes are typed records and not dictionaries. `_ext` holds `tags` and `body`, the only keys the code reads.
