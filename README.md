# Directory-tree report engine of Reports_Generic.py

This project models the part of `Reports_Generic.py` that turns the rows of
the directory-tree query into the nested tree of the HTML report:

- `bytes_to_kb`, `bytes_to_mb`, `bytes_to_gb` and the `size_groups` bucket
  (module `SizeUnits`);
- the path handling of `build_tree_dict`: the network-root test, the deletion
  of doubled backslashes and the split on single backslashes (module
  `PathSegments`);
- the tree itself, nested mappings from a name to a node holding a `type`,
  its `children` and four sizes (module `DirTree`); a mapping is a sequence of
  `(name, node)` entries in insertion order, which is the order Python's
  dictionaries keep;
- `build_tree_dict`: zipping the six input lists and inserting one record
  after another (module `TreeBuilder`);
- `propagate_sizes`: adding each folder's children's total to its own sizes,
  bottom-up, and returning the level's total (module `SizePropagation`);
- `build_html_tree`: the list of items the renderer emits, folder ids
  included (module `HtmlTree`);
- the pipeline of `generate_html_dirtree`, which builds, propagates once and
  renders, fed with the unit lists that `main` computes (module
  `DirTreeReport`).

The two loops that update state are methods proved against a
specification function:
- `BuildTreeDict`, the outer loop of `build_tree_dict`, is proved against
  `Built`, a left fold of `Insert` over the records.
- `PropagateSizes`, the loop of `propagate_sizes`, is proved against
  `PropagateLevel`.

`build_html_tree` only computes a value. Its loop and recursion are the
recursive function `BuildHtmlTree`. The properties are lemmas about these
functions.

What the code does, including behaviour a reader might not expect:

- **Doubled backslashes.** In a path that starts with `\\`, every `\\` is
  deleted, so each run of n backslashes becomes n % 2 of them
  (`RemoveAllIsCollapse`). For example, `\\a\\b` gives the single segment
  `ab` (`DoubledSepMerges`).
- **Empty segments.** Empty segments are kept as keys, for example after a
  trailing backslash (`TrailingSeparator`).
- **First write wins.** A node is created only when its key is absent, so
  the first record whose path reaches a node decides its type and sizes
  (`BuiltLookup`). A record whose whole path already exists leaves the tree
  unchanged (`RedundantRecord`).
- **"Folder" versus 'folder'.**
  - The query labels rows `"File"` and `"Folder"` (lines 25-27).
  - The propagator and the renderer test for the lowercase `'folder'`, which
    only the builder's intermediate nodes carry.
  - So a node created by a `"Folder"` row is treated as a file: its own size
    is kept, the sizes beneath it are not added, and it renders as one file
    item whose children are never shown (`ExplicitFolderRowActsAsFile`).
  - The query orders rows by type, so `"File"` rows come first. A later
    `"Folder"` row for a directory that holds files therefore changes nothing
    (`RedundantRecord`, `EndToEndExample`). Only a directory without files
    gets a `"Folder"` node, and it shows as a file item.
- **Negative sizes.** Sizes are added as they are; negative values are not
  clamped.
- **Propagation twice.** Propagating twice counts a folder's children a
  second time (`SecondPropagationDoubleCounts`), so the pipeline depends on
  calling it exactly once.

## Model

| member | source | states |
|---|---|---|
| SizeUnits.BytesToKb | Reports_Generic.py:16 | the result times 1024 is the byte count |
| SizeUnits.BytesToMb | Reports_Generic.py:17 | the result times 1024² is the byte count |
| SizeUnits.BytesToGb | Reports_Generic.py:18 | the result times 1024³ is the byte count |
| SizeUnits.UnitsChain | Reports_Generic.py:16-18 | KB is 1024 times MB, and MB is 1024 times GB, for the same byte count |
| SizeUnits.ConversionsAdditive | Reports_Generic.py:16-18 | converting a sum of bytes equals summing the conversions, in every unit |
| SizeUnits.ConversionsMonotone | Reports_Generic.py:16-18 | a <= b exactly when the converted a <= the converted b, in every unit |
| SizeUnits.OneMebibyte | Reports_Generic.py:16-17 | 1048576 bytes are exactly 1024 KB and 1 MB |
| SizeUnits.SizeGroup | Reports_Generic.py:72-78 | each of the three labels is returned exactly when the size in MB is in its range; no other value is returned |
| SizeUnits.SizeGroupOfBytes | Reports_Generic.py:49-78 | for a file of n bytes, the buckets change at 1048576 and 10485760 bytes, each label exactly on its range |
| PathSegments.RemoveAll | Reports_Generic.py:267 | deleting a pattern never lengthens the string |
| PathSegments.Split | Reports_Generic.py:268 | a split always yields at least one piece |
| PathSegments.SplitCount | Reports_Generic.py:268 | a split has one piece more than the string has separators |
| PathSegments.SplitPiecesHaveNoSep | Reports_Generic.py:268 | no piece contains a backslash |
| PathSegments.JoinSplit | Reports_Generic.py:268 | joining the pieces with the separator gives back the string |
| PathSegments.SplitJoin | Reports_Generic.py:268 | splitting joined separator-free pieces gives back the pieces, empty ones included |
| PathSegments.TrailingSeparator | Reports_Generic.py:268 | a trailing backslash adds one empty last segment |
| PathSegments.SegmentsNonEmpty | Reports_Generic.py:266-268 | the segment count is the number of backslashes left after normalisation plus one, so no record is skipped |
| PathSegments.RemoveAllLeavesNoDoubleSep | Reports_Generic.py:267 | after the deletion, no two backslashes are adjacent |
| PathSegments.RemoveAllKeepsOtherChars | Reports_Generic.py:267 | the deletion removes only backslashes: every other character survives, in order |
| PathSegments.Normalize | Reports_Generic.py:266-267 | the normalised path is never longer, and a path without the network-root marker is unchanged; NormalizeSpec gives the rest |
| PathSegments.Segments | Reports_Generic.py:266-268 | the segment names of one path: Split of Normalize, with at least one segment (SegmentsNonEmpty), exact for plain and network paths (PlainPathSegments, NetworkPathSegments) |
| PathSegments.RemoveAllIsCollapse | Reports_Generic.py:267 | deleting every doubled backslash equals Collapse, the reference that turns each run of n backslashes into n % 2 of them and keeps every other character |
| PathSegments.NormalizeSpec | Reports_Generic.py:266-267 | a path with the network-root marker normalises to its Collapse: each run of n backslashes becomes n % 2 of them, no two are left adjacent, and every other character survives in order. Any other path is unchanged |
| PathSegments.NetworkPathSegments | Reports_Generic.py:266-268 | the marker followed by non-empty names joined by single backslashes segments into exactly those names |
| PathSegments.PlainPathSegments | Reports_Generic.py:266-268 | non-empty names joined by single backslashes segment into exactly those names |
| PathSegments.NetworkRootExample | Reports_Generic.py:266-268 | the network path `\\Server\Share\file.txt` segments into Server, Share, file.txt, with no empty leading segment |
| PathSegments.DoubledSepMerges | Reports_Generic.py:266-268 | in a network path, a later doubled backslash is deleted too, joining the names on either side into one segment |
| DirTree.IsFolder | Reports_Generic.py:301 | only the exact type string 'folder' is a folder; see NoFoldersUnchanged, VisibleMembers and ExplicitFolderRowActsAsFile |
| DirTree.Names | Reports_Generic.py:271 | the keys of a mapping, one per entry, in order |
| DirTree.Find | Reports_Generic.py:271 | the position of the first entry with the key, or the mapping's length when the key is absent |
| TreeBuilder.Zip | Reports_Generic.py:265 | the records are zip's tuples: as many as the shortest list, with the i-th record built from the i-th element of each list |
| TreeBuilder.FirstOwner | Reports_Generic.py:265-281 | the index of the first record whose segments start with the given key path, or the record count when there is none |
| TreeBuilder.NewNode | Reports_Generic.py:273-280 | the node created for a segment; InsertLookup states it: the terminal gets the record's type and sizes, any other an empty, zero-sized 'folder' |
| TreeBuilder.Insert | Reports_Generic.py:269-281 | the walk of one record down the tree; InsertLookup, InsertExisting and InsertKeyOrder state its effect |
| TreeBuilder.Descend | Reports_Generic.py:281 | moving the cursor into a node's children keeps the node's type and sizes; part of InsertLookup |
| TreeBuilder.Place | Reports_Generic.py:271-273 | an absent key is appended and a present one is kept in its position; InsertKeyOrder states it |
| TreeBuilder.AddRecord | Reports_Generic.py:266-281 | one outer iteration; AddRecordKeyOrder: the keys before it stay a prefix of the keys after it |
| TreeBuilder.Built | Reports_Generic.py:263-282 | the tree after all records, in order; BuiltLookup, BuiltKeyOrder and BuiltWellFormed state it |
| TreeBuilder.BuildTreeDict | Reports_Generic.py:263-282 | the loop's result is the left fold of single-record insertions over the zipped records, and keys are unique in every mapping |
| TreeBuilder.InsertLookup | Reports_Generic.py:269-281 | after one record, a key path exists exactly when it existed before or is a prefix of the record's segments. An existing node keeps its type and sizes. A new node is a zero-sized 'folder', or the record's type and sizes when it is the terminal one |
| TreeBuilder.InsertWellFormed | Reports_Generic.py:271-281 | inserting a record keeps every mapping's keys unique |
| TreeBuilder.BuiltWellFormed | Reports_Generic.py:263-282 | the built tree has unique keys in every mapping |
| TreeBuilder.BuiltLookup | Reports_Generic.py:263-282 | a key path exists in the tree exactly when some record's segments start with it. Its type and sizes come from the first such record (first write wins): that record's own type and sizes when the path is all of its segments, otherwise a zero-sized 'folder' |
| TreeBuilder.BuiltMaterialises | Reports_Generic.py:270-281 | every prefix of every record's segments is a node of the tree |
| TreeBuilder.InsertExisting | Reports_Generic.py:269-281 | inserting a record whose whole path is already in the tree returns the tree unchanged |
| TreeBuilder.RedundantRecord | Reports_Generic.py:265-281 | first write wins as equality of trees: a record whose path is already built leaves the whole tree, order included, as it was |
| TreeBuilder.InsertKeyOrder | Reports_Generic.py:271-273 | one insertion leaves a mapping's keys in place and at most appends the path's first key |
| TreeBuilder.AddRecordKeyOrder | Reports_Generic.py:266-281 | after one record, the old top-level keys are a prefix of the new ones |
| TreeBuilder.BuiltKeyOrder | Reports_Generic.py:263-282 | the top-level keys built from the first i records are a prefix of the final keys: keys appear in the order records first reach them |
| TreeBuilder.InsertFoldersHaveNoOwnBytes | Reports_Generic.py:274-276 | when the record is not a 'folder' with bytes, every 'folder' node still owns zero bytes after inserting it |
| TreeBuilder.BuiltFoldersHaveNoOwnBytes | Reports_Generic.py:263-282 | when no record is a 'folder' with bytes, every 'folder' node of the built tree owns zero bytes |
| TreeBuilder.InsertUnitsConsistent | Reports_Generic.py:273-280 | when the record's KB, MB and GB are the conversions of its bytes, inserting it keeps this true of every node |
| TreeBuilder.BuiltUnitsConsistent | Reports_Generic.py:263-282 | when every record's KB, MB and GB are the conversions of its bytes, every node of the built tree has consistent units |
| SizePropagation.TotalBytes | Reports_Generic.py:321-331 | the sum of a mapping's direct entries' bytes; it is non-negative when every entry's bytes are, and Conservation says what it counts |
| SizePropagation.Grow | Reports_Generic.py:327-330 | a folder's update; FolderAccumulation states it: bytes grow by the total, and KB, MB and GB grow by its conversions |
| SizePropagation.PropagateNode | Reports_Generic.py:325-330 | one node after propagation; FolderAccumulation states it |
| SizePropagation.PropagateLevel | Reports_Generic.py:324-331 | a mapping after propagation has as many entries as before; FolderAccumulation, Conservation and PropagateKeepsNames state the rest |
| SizePropagation.PropagateSizes | Reports_Generic.py:320-333 | the recursive loop yields the propagated tree, and the returned total is both that tree's top-level byte sum and the bytes of the 'folder'-reachable nodes of the input |
| SizePropagation.FolderAccumulation | Reports_Generic.py:324-330 | entry by entry: name and type are kept. A 'folder' gets its children propagated and grows by their total in bytes and by its conversions in KB, MB and GB. Any other node is unchanged, subtree included |
| SizePropagation.Conservation | Reports_Generic.py:320-333 | the returned total counts each node reached through 'folder' nodes exactly once |
| SizePropagation.FreshTreeTotal | Reports_Generic.py:320-333 | when 'folder' nodes own no bytes, the total is the sum of the non-'folder' nodes reached through 'folder' nodes |
| SizePropagation.PropagateKeepsUnits | Reports_Generic.py:327-330 | if every node's units are consistent before propagation, they are consistent after it |
| SizePropagation.PropagateKeepsNames | Reports_Generic.py:324-330 | propagation keeps every mapping's keys, in order |
| SizePropagation.PropagateKeepsWellFormed | Reports_Generic.py:324-330 | unique keys at every level stay unique after propagation |
| SizePropagation.NoFoldersUnchanged | Reports_Generic.py:325 | a mapping with no 'folder' entry is left exactly as it was |
| SizePropagation.SecondPropagationDoubleCounts | Reports_Generic.py:326-327 | for a 'folder' whose children are all non-'folder' nodes, propagating twice adds the children's total twice |
| HtmlTree.FolderId | Reports_Generic.py:302 | the id is "folder_", then the path with '/' replaced, then "_", then the name; it ends with the name |
| HtmlTree.BuildHtmlTree | Reports_Generic.py:284-318 | never more items than entries; RenderedEntries gives the exact items |
| HtmlTree.ReplaceChar | Reports_Generic.py:302 | the result has the same length as the input, and every occurrence of one character is replaced by the other |
| HtmlTree.RenderedEntries | Reports_Generic.py:284-318 | there is one item per shown entry, in insertion order. Item j has the j-th shown entry's name and sizes, and is a folder item exactly when the entry is a 'folder'. Its id and nested items are computed from the path plus the name |
| HtmlTree.VisibleMembers | Reports_Generic.py:301-303 | an entry is shown exactly when it is in the mapping and is either a non-'folder' or a 'folder' with children |
| HtmlTree.RenderAppend | Reports_Generic.py:286 | rendering a concatenation of mappings concatenates their renderings |
| HtmlTree.EmptyFolderOmitted | Reports_Generic.py:303 | a 'folder' without children adds nothing to the rendering |
| HtmlTree.NonFolderRendersOnce | Reports_Generic.py:312-317 | a non-'folder' adds exactly one file item, with its name and sizes |
| HtmlTree.SiblingFolderIdsDistinct | Reports_Generic.py:302 | in a mapping with unique keys, two folder items at the same level have different ids |
| HtmlTree.FolderIdsCollideAcrossLevels | Reports_Generic.py:302 | ids can collide across levels: folder `b_c` under `/a` and folder `c` under `/a_b` get the same id |
| HtmlTree.RenderKeepsUnits | Reports_Generic.py:289-298 | every item at every depth shows units that are conversions of its bytes, when the tree's units are consistent |
| DirTreeReport.GenerateDirTree | Reports_Generic.py:470-473 | the items are the rendering of the tree built from the records and propagated once. When the KB, MB and GB lists are conversions of the byte list, every item's units are consistent |
| DirTreeReport.PipelineTotal | Reports_Generic.py:471-472 | on query rows (never of type 'folder'), the total propagated over the whole tree counts each file-reachable byte once |
| DirTreeReport.PipelineWellFormed | Reports_Generic.py:471-472 | after building and propagating, every mapping has unique keys |
| DirTreeReport.FolderRowTree | Reports_Generic.py:269-281 | a "Folder" row for D followed by a file in D gives D type "Folder" and its own sizes, with the file beneath |
| DirTreeReport.ExplicitFolderRowActsAsFile | Reports_Generic.py:301-330 | the "Folder" node D keeps its own sizes through propagation, and renders as a single file item |
| DirTreeReport.ExampleThirdRow | Reports_Generic.py:269-281 | in the X example, with file rows first, the later "Folder" row for the synthetic folder X leaves the tree unchanged |
| DirTreeReport.PropagateExampleTree | Reports_Generic.py:320-333 | in the example tree, Y gains f2's bytes, and X gains f1's bytes plus Y's new total |
| DirTreeReport.EndToEndExample | Reports_Generic.py:470-472 | X\f1.txt (500 bytes), X\Y\f2.txt (1500 bytes) and then a "Folder" row for X give X 2000 bytes and Y 1500 bytes |

## Left out

- Floating point: sizes in KB, MB and GB are exact reals. Python's float
  rounding and the `:.6f` formatting of the item sizes are not modelled.
- Markup: `build_html_tree` is modelled as the list of items it emits: the
  folder id, name, sizes and nested items, or the name and sizes of a file.
  The HTML text, CSS classes and `toggleFolder` script are not modelled.
- `generate_html_dirtree`'s page template (lines 475-640) and
  `generate_html_fcr` are not modelled; they are text around the rendered tree.
- `sql_query`, the SQLite reading, `main`'s argument parsing and file writing
  are I/O and are not modelled. The records are parameters.
- `generate_graphs` and its plots are outside the directory-tree engine.
  Only its `size_groups` bucket is modelled.
- `bytes_to_tb` is not used by the directory tree.
- SizeUnits.SizeGroup: the size is a real, so the NaN case, where the source
  falls through all three branches and returns None, is not modelled.
- TreeBuilder.BuildTreeDict: the inner walk, which moves a `current`
  reference into nested dictionaries and mutates them in place, is modelled
  by the recursive function `Insert` on values. Aliasing between the cursor
  and the tree is not captured.
- SizePropagation.PropagateSizes: the in-place `+=` updates of the nested
  dictionaries are modelled by returning the updated tree. The caller at
  line 472 ignores the total, and the model's pipeline ignores it too.
- DirTree: node types are arbitrary strings and sizes are arbitrary integers.
  Pandas' lists may hold NaN or None, which the model cannot express.
