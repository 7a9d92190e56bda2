# rustree document engine in Dafny

rustree is a desktop editor for hierarchical notes. A document is a tree of nodes. Each
node has a numeric id, a name, a text content and an ordered list of children. The
document also holds named binary resources (attachments). This project models the
engine under the editor's user interface:

- **Types** (`types.dfy`): the node, resource and document records, their constructors,
  and the theme name mapping. The randomness the editor draws is passed in as
  `Entropy`: the `u16` name suffix, the id of each node of a copied or loaded subtree
  (keyed by its child-index path), and the id of each loaded resource.
- **Tree lookups and the modification algebra** (`utils.dfy`, with pre-order listing and
  reference predicates in `tree.dfy`):
  - `get_node_by_id`, `get_node_parent`, the path listing `node_to_tree_vec` and the
    sibling-name check `find_node_with_same_name_in_same_parent_node`;
  - `modify_node` / `modify_document` for the five edits Edit, Delete, Create, Move and
    Paste, and `randomize_node`.
- **History** (`history.dfy`): `create_undo_modification`, and the `HistoryManager`
  class whose undo and redo stacks are sequence fields pushed and popped by its methods.
- **The `.rtd` format** (`rtd.dfy`, with UTF-8 in `utf8.dfy`):
  - the wire structures and their big-endian byte layout, with null-terminated strings
    and counts stored as "count + 1";
  - the per-resource compression pass of `serealize` / `deserealize`;
  - the conversions between documents and wire structures.
- **Node references** (`text_processor.dfy`): `process_node_path`, which resolves
  `path:<p>` and `sibling:<name>` to a node id, or 0.

`seqs.dfy` holds small sequence facts used by the proofs.

Where the code and what it evidently intends part ways, the model follows the code:

- Paste appends the numeric suffix when the sibling check returns `Some`, that is, when
  it finds **no** conflict. The check is introduced as "Checks if there is a node with the
  same name" (src/utils.rs:104), so the suffix evidently should mark a name clash.
- Paste randomizes the ids of the pasted copy itself (src/utils.rs:237), although the
  editor's cut and copy commands already store a randomized copy
  (src/app/document.rs:271 and 285).
- Undo is not an inverse for Move and Paste (see Findings): the log records both as
  their own inverse (src/history_manager.rs:33).

## Model

| member | source | states |
|---|---|---|
| Types.Themes | src/types.rs:39-50 | exactly eight themes, pairwise distinct, with pairwise distinct labels |
| Types.ThemesComplete | src/types.rs:39-50 | every theme appears in the list |
| Types.FindTheme | src/types.rs:51-57 | the result is a listed theme with label `s`; None exactly when no listed theme has that label |
| Types.ThemeFromString | src/types.rs:51-57 | a known label gives the theme with that label; an unknown label gives Light |
| Types.ThemeRoundTrip | src/types.rs:22-57 | reading back the label of any theme gives that theme |
| Types.NewResource | src/types.rs:66-73 | the payload is kept unchanged; only the id is chosen |
| Types.NewNode | src/types.rs:128-136 | name, content and children are kept as given; only the id is chosen |
| Utils.GetNodeById | src/utils.rs:49-61 | the result is the first node in pre-order carrying the id (so the root first), and None iff no node carries it |
| Utils.GetNode | src/types.rs:112-116 | `Document::get_node` finds a node of the tree with the id, and None iff no node carries it |
| Utils.GetNodeParent | src/utils.rs:263-276 | Some(p) only for the id of a node that has a child with `id`; None iff the root carries `id` or no node has such a child |
| Utils.Escape | src/utils.rs:19 | a name without '/' is unchanged |
| Utils.EscapeAppend | src/utils.rs:19 | escaping distributes over concatenation, so it acts character by character |
| Utils.EscapeChar | src/utils.rs:19 | a '/' becomes `\/` and every other character is kept |
| Utils.EscapeLength | src/utils.rs:19 | the escaped name is longer by exactly one character per '/' |
| Utils.EscapeMarksSlashes | src/utils.rs:19 | in an escaped name every '/' follows a backslash |
| Utils.BackslashPathsCollide | src/utils.rs:19-31 | a child `b` of a node named `a\` and a node named `a/b` get the same listing path, since backslashes are not escaped |
| Utils.NodeToTreeVec | src/utils.rs:8-34 | the loop appends to the accumulator exactly the node's entry followed by each child's entries in order |
| Utils.TreeVecEntries | src/utils.rs:8-34 | one entry per node, in pre-order with the same ids; the first entry is the root's, with the parent prefix and the escaped name |
| Utils.TreeVecChildEntry | src/utils.rs:19-31 | the entry of the j-th child has the parent's path, '/', and the child's escaped name |
| Utils.FindNodeWithSameName | src/utils.rs:105-120 | None iff some node has a child with `id` and a different-id child named `name`; otherwise Some(root) |
| Utils.DecimalString | src/utils.rs:164 | decimal digits without leading zeros whose value is the number |
| Utils.Randomize | src/utils.rs:279-285 | a copy with the drawn id, the same name and content, and the same number of children |
| Utils.RandomizeSameUpToIds | src/utils.rs:279-285 | the copy differs from the original in its ids only, at every depth |
| Utils.RandomizeAt | src/utils.rs:279-285 | the copy has the same paths, and the node at path q carries the id drawn for q |
| Utils.IndexOfId | src/utils.rs:185 | the first index of a child with the id; None iff no child carries it |
| Utils.Relocate | src/utils.rs:186-203 | the moved child list has the same length |
| Utils.MoveChildren | src/utils.rs:184-207 | the remove/insert/push steps produce the Relocate arrangement |
| Utils.RelocatePermutes | src/utils.rs:186-203 | moving gives a permutation of the children |
| Utils.RelocateUp | src/utils.rs:189-195 | Up swaps with the previous sibling, and the first child goes to the end |
| Utils.RelocateDown | src/utils.rs:196-202 | Down swaps with the next sibling, and the last child goes to the front |
| Utils.MoveWrapsAround | src/utils.rs:184-218 | with [A, B, C], moving A up gives [B, C, A] and moving C down gives [C, A, B] |
| Utils.AtTarget | src/utils.rs:124-250 | the rewritten target keeps its id |
| Utils.ModifyNode | src/utils.rs:122-252 | every rewrite keeps the root's id |
| Utils.ModifyForest | src/utils.rs:132-155 | no child is added, and only Delete drops children |
| Utils.ModifyDocument | src/utils.rs:255-260 | resources are untouched and the root keeps its id |
| Utils.ModifyUntargeted | src/utils.rs:122-252 | a modification whose target id is absent from the tree leaves it unchanged |
| Utils.ModifyFindsTarget | src/utils.rs:122-252 | after Edit, Create or Paste, the lookup of the target finds the node found before, with the change applied; an absent target stays absent |
| Utils.EditLabels | src/utils.rs:124-141 | with unique ids, Edit changes name and content of the node with the id, and nothing else (ids, arity and order everywhere) |
| Utils.EditTwice | src/utils.rs:124-141 | two Edits at the same id equal the second alone |
| Utils.EditSameChangesNothing | src/utils.rs:124-141 | an Edit with the name and content the node already has changes nothing |
| Utils.DeleteEffect | src/utils.rs:142-156 | the root keeps its id, name and content; its children are the surviving children in their order, each with the Delete applied inside it; a surviving subtree holding no node with the id comes through unchanged; no node below the root carries the id |
| Utils.Survivors | src/utils.rs:142-146 | the children kept by the Delete filter: exactly those without the id, with their ids in the original order minus the id |
| Utils.AddThenDelete | src/utils.rs:157-250 | Create, or Paste, with a fresh new id, followed by Delete of that id gives the tree back |
| Utils.MoveThenOpposite | src/utils.rs:184-218 | with distinct sibling ids, a move followed by the opposite move gives the tree back |
| Utils.MoveEffect | src/utils.rs:184-218 | the node keeps its id, name and content; if a child carries the id, the children are the Relocate arrangement; otherwise each child is rewritten in its place, and a child whose subtree holds no node with the id is unchanged |
| Utils.MoveKeepsNodes | src/utils.rs:184-218 | a move keeps the multiset of node labels (id, name, content, arity) of the whole tree |
| Utils.PastedCopy | src/utils.rs:219-238 | the pasted child keeps content and shape, has fresh ids at every level, and gets the suffix exactly when the sibling check returns Some |
| History.CreateUndoModification | src/history_manager.rs:18-35 | Edit's inverse edits back to the pre-edit node; Delete's inverse pastes the deleted subtree under the parent `get_node_parent` finds (a node holding it) whenever one exists, and under the root otherwise; Create's inverse deletes the new id; Move and Paste are their own inverse |
| History.UndoEditRestores | src/history_manager.rs:23-25 | with unique ids, applying an Edit and then its inverse gives the document back |
| History.UndoCreateRestores | src/history_manager.rs:32 | with a fresh new id, applying a Create and then its inverse gives the document back |
| History.MoveUndoMovesFurther | src/history_manager.rs:33 | the recorded inverse of "move B up" in [A, B, C] yields [A, C, B], not the original |
| History.PasteUndoPastesAgain | src/history_manager.rs:33 | the recorded inverse of a Paste pastes a second copy |
| History.DeleteUndoMovesAndRenames | src/history_manager.rs:26-31 | undoing "delete b" under [a, b, c] gives [a, c, b'], where b' has the id drawn for the copy and b's name plus the drawn suffix |
| History.RenamedCopy | src/utils.rs:219-238 | the copy a conflict-free Paste appends has the drawn id, the name plus the drawn suffix, the same content and as many children |
| History.PasteWithoutConflict | src/utils.rs:219-238 | when the sibling check finds no conflict, a Paste at a node appends the renamed copy to its children |
| History.IntendedUndoModification | src/history_manager.rs:18-35 | the opposite move for Move, deleting the pasted copy for Paste, and the recorded inverse otherwise |
| History.IntendedUndoRestores | src/history_manager.rs:18-35 | with the intended inverses, undo gives the document back for Edit, Create, Move and Paste |
| History.HistoryManager.constructor | src/history_manager.rs:37-42 | both stacks start empty |
| History.HistoryManager.RegisterDocumentModification | src/history_manager.rs:43-53 | pushes one entry (inverse, modification) on the undo stack, leaves the redo stack unchanged, and returns the modified document |
| History.HistoryManager.UndoAction | src/history_manager.rs:54-60 | an empty undo stack gives None and no change; otherwise the top entry moves to the redo stack and its inverse is applied; the total stack size is constant |
| History.HistoryManager.RedoAction | src/history_manager.rs:61-67 | the mirror of UndoAction with the recorded modification |
| History.RegisterUndoRedo | src/history_manager.rs:43-67 | registering an Edit or Create and undoing it gives the document back, and redoing re-applies the modification |
| Utf8.EncodeChar | src/formats/rtd.rs:108 | one to four bytes, one exactly for ASCII, and no zero byte for a non-NUL character |
| Utf8.Encode | src/formats/rtd.rs:108 | a string without NUL encodes without a zero byte |
| Utf8.DecodeEncode | src/formats/rtd.rs:128-129 | lossy decoding of an encoded string gives the string back |
| Rtd.ToI32 | src/formats/rtd.rs:46 | `as i32` keeps values below 2^31 and otherwise wraps modulo 2^32 |
| Rtd.ReadI32 | src/formats/rtd.rs:6-34 | succeeds iff four bytes remain, and consumes exactly four |
| Rtd.ReadWriteI32 | src/formats/rtd.rs:6-34 | reading a written big-endian i32 gives it back and leaves what follows |
| Rtd.ReadNullString | src/formats/rtd.rs:20 | succeeds iff a zero byte follows; returns the bytes before it, which contain no zero |
| Rtd.ReadWriteNullString | src/formats/rtd.rs:20 | reading a written zero-free string gives it back and leaves what follows |
| Rtd.Count | src/formats/rtd.rs:14 | the reader takes stored − 1 elements; a stored count below 1 is an error |
| Rtd.ReadNode | src/formats/rtd.rs:25-33 | a node read has stored count − 1 children and consumes input |
| Rtd.ReadNodes | src/formats/rtd.rs:31-32 | reads exactly k nodes |
| Rtd.ReadWriteNode | src/formats/rtd.rs:25-33 | reading a written well-formed node gives it back and leaves what follows |
| Rtd.ReadWriteNodes | src/formats/rtd.rs:31-32 | reading k written well-formed nodes gives them back |
| Rtd.ReadResource | src/formats/rtd.rs:17-24 | a resource read has stored length − 1 bytes |
| Rtd.ReadResources | src/formats/rtd.rs:14-15 | reads exactly k resources |
| Rtd.ReadWriteResource | src/formats/rtd.rs:17-24 | reading a written well-formed resource gives it back |
| Rtd.ReadWriteResources | src/formats/rtd.rs:14-15 | reading written well-formed resources gives them back |
| Rtd.ReadDocument | src/formats/rtd.rs:8-16 | a document read has stored count − 1 resources |
| Rtd.ReadWriteDocument | src/formats/rtd.rs:6-34 | reading a written well-formed document gives it back |
| Rtd.Recode | src/formats/rtd.rs:41-56 | on codec success the bytes are the codec's output with length + 1 stored; on failure the resource is unchanged; the name is kept |
| Rtd.Recoded | src/formats/rtd.rs:41-56 | every resource is recoded in place, in order |
| Rtd.RecodeResources | src/formats/rtd.rs:40-57 | the push loop produces the recoded resources |
| Rtd.Serialize | src/formats/rtd.rs:39-61 | writes the document with recoded resources; the node tree is written first, unchanged |
| Rtd.Deserialize | src/formats/rtd.rs:63-88 | a read error is returned unchanged; otherwise the read document with decompressed resources |
| Rtd.SerializeRoundTrip | src/formats/rtd.rs:39-88 | deserializing a serialized well-formed document gives it back when decompression undoes compression |
| Rtd.NodeToRtdNode | src/formats/rtd.rs:106-113 | one wire child per child, in order |
| Rtd.NodeToRtdWellFormed | src/formats/rtd.rs:106-113 | every level stores count = children + 1 and zero-free strings |
| Rtd.RtdNodeToNode | src/formats/rtd.rs:126-132 | every node gets a drawn id and one child per wire child |
| Rtd.NodeConversionRoundTrip | src/formats/rtd.rs:106-132 | converting to the wire tree and back keeps names, contents and child order at every depth |
| Rtd.SortedKeys | src/formats/rtd.rs:94-96 | the map's names in strictly ascending order, each once |
| Rtd.RtdEntriesMatch | src/formats/rtd.rs:94-102 | each wire resource is the converted resource of the name it carries |
| Rtd.RtdEntriesCover | src/formats/rtd.rs:94-102 | every name of the map has a wire resource |
| Rtd.RtdEntriesAscend | src/formats/rtd.rs:94-102 | the wire resources come in ascending name order |
| Rtd.DocumentToRtdDocument | src/formats/rtd.rs:90-104 | the converted root, stored resource count = resources + 1, and the wire resources |
| Rtd.CollectResources | src/formats/rtd.rs:118-122 | the map has exactly the decoded names of the wire resources |
| Rtd.CollectedBytes | src/formats/rtd.rs:118-122 | when all pairs with a name carry the same bytes, the map gives that name those bytes |
| Rtd.ResourcesRoundTrip | src/formats/rtd.rs:90-124 | converting resources to the wire form and back keeps the names and the bytes |
| Rtd.DocumentConversionRoundTrip | src/formats/rtd.rs:90-124 | converting a document to the wire form and back keeps the tree up to ids and the resources' names and bytes |
| Rtd.StorableWellFormed | src/formats/rtd.rs:90-113 | the wire form of a storable document is well formed |
| Rtd.SaveLoadRoundTrip | src/formats/rtd.rs:39-132 | saving and loading a storable document gives the same tree up to ids and the same resources when decompression undoes compression |
| TextProcessor.Split | src/app/text_processor.rs:8 | pieces without the separator; a single piece iff there is no separator |
| TextProcessor.JoinSplit | src/app/text_processor.rs:8 | joining the pieces with ':' gives the string back |
| TextProcessor.SplitJoin | src/app/text_processor.rs:8 | splitting a join of separator-free pieces gives the pieces back |
| TextProcessor.Trim | src/app/text_processor.rs:11 | a slice with only whitespace cut from both ends, and no whitespace at either end of the result |
| TextProcessor.TrimIdempotent | src/app/text_processor.rs:11-12 | trimming twice is trimming once |
| TextProcessor.ToLowercase | src/app/text_processor.rs:12 | each character is lowercased in place |
| TextProcessor.PathTarget | src/app/text_processor.rs:36-38 | the id of the first entry whose path is `p`, else 0 |
| TextProcessor.ChildNamed | src/app/text_processor.rs:24-32 | the id of the first child named `name`, else 0 |
| TextProcessor.ListedNodes | src/app/text_processor.rs:14-18 | the node each listing entry resolves to by `get_node` |
| TextProcessor.ParentEntry | src/app/text_processor.rs:14-23 | the first listed node with the current node as a direct child |
| TextProcessor.ListingIdsExist | src/app/text_processor.rs:9-18 | every id of the tree listing names a node, so the unwrap cannot fail |
| TextProcessor.SiblingTarget | src/app/text_processor.rs:13-34 | a non-zero result is a child named `name` of a node holding the current node; 0 when no node holds it |
| TextProcessor.SiblingInDocument | src/app/text_processor.rs:13-34 | a sibling reference resolves to 0 or to a node of the document |
| TextProcessor.PathInDocument | src/app/text_processor.rs:35-39 | a path reference resolves to 0 or to a node of the document |
| TextProcessor.ProcessNodePath | src/app/text_processor.rs:7-44 | a reference without ':' resolves to 0; any non-zero result is a node of the document |
| TextProcessor.PathResolves | src/app/text_processor.rs:35-39 | `path:p` resolves to the id of the first listing entry with path `p` |
| TextProcessor.PathReference | src/app/text_processor.rs:35-39 | `path:p` is looked up by `p` |
| TextProcessor.PathKeywordLooksUp | src/app/text_processor.rs:8-39 | with keyword "path", the trimmed second piece is looked up; later pieces are ignored |
| TextProcessor.SplitKeyword | src/app/text_processor.rs:8 | a keyword and a ':'-free argument split into exactly those two pieces |
| TextProcessor.KeywordPath | src/app/text_processor.rs:12 | "path" is its own trimmed lowercase form |
| TextProcessor.KeywordSibling | src/app/text_processor.rs:12 | "sibling" is its own trimmed lowercase form |
| TextProcessor.KeywordIgnoresCase | src/app/text_processor.rs:12 | keywords with the same lowercase form resolve alike |
| TextProcessor.SiblingKeywordLooksUp | src/app/text_processor.rs:13-34 | with keyword "sibling", the trimmed second piece is looked up among the siblings |
| TextProcessor.SiblingReference | src/app/text_processor.rs:13-34 | `sibling:name` resolves by that name |
| TextProcessor.SiblingOfTopLevel | src/app/text_processor.rs:13-34 | from a child of the root, `sibling:name` gives the root's first child named `name` |
| TextProcessor.RootIsFirstParent | src/app/text_processor.rs:14-23 | the root, listed first, is the parent found for its children |
| TextProcessor.GetNodeFindsRoot | src/types.rs:112-116 | looking up the root's id finds the root |
| TextProcessor.RootHasNoSibling | src/app/text_processor.rs:13-34 | with unique ids, `sibling:` from the root resolves to 0 |
| TextProcessor.OtherKeywordIsZero | src/app/text_processor.rs:40-43 | any other keyword resolves to 0 |
| TextProcessor.ColonInPathUnreachable | src/app/text_processor.rs:8-11 | for a `path:` reference the argument looked up is free of ':', so it differs from any name containing ':', and the result is the lookup of that argument |

## Left out

- The user interface, the event loop, dialogs, settings and file I/O are outside this model. The
  `fs::read`/`fs::write` calls around saving and loading are also outside it.
- `ResourcesManager` (src/types.rs:75-104) stages files in a temporary directory, which is
  filesystem I/O.
- Resource add, rename and delete, the HTML/Markdown export renderers, `process_text` and
  the settings file are not part of this model.
- Randomness is not modelled as a generator. The values drawn (`u16` suffixes, node and
  resource ids) are the fields of an `Entropy` parameter. A node's id is drawn by its
  child-index path. When a modification hits several nodes carrying the same id, their
  copies therefore draw the same ids, where the editor would draw afresh each time.
- DEFLATE is two function parameters, `compress` and `decompress`, that return None on
  failure. Their round trip is an assumption of the round-trip lemmas, not proved.
- binrw's reader and writer are modelled by their byte layout only. A write error is not
  modelled; writing to memory does not fail. Bytes after the last resource are ignored, as
  the reader does.
- Rtd.Count: a stored count below 1 is modelled as a read error (`NegativeCount`). In the
  code, `count - 1` on `i32::MIN` overflows (a panic in debug builds, `i32::MAX` in release
  builds), and other negative results are left to binrw; neither is modelled.
- `modify_node`'s third parameter (`root`) is never read and is dropped.
- TextProcessor.ToLowercase: only ASCII capitals and KELVIN SIGN (U+212A) are lowered. These are the only
  characters whose lowercase form is an ASCII letter, which is all the keyword comparison
  can observe. Other characters stay unchanged.
- Utf8.Decode follows `from_utf8_lossy`: one U+FFFD per maximal invalid subpart.
- The round-trip lemmas cover storable documents only. A storable document has no NUL
  character in a name or content, and counts and lengths below 2^31 − 1. Other documents
  write wrapped counts or truncated strings.
- The Delete inverse re-pastes the deleted subtree with fresh ids at the end of its
  parent's children, so undoing a Delete does not give the document back. The copy is
  also renamed: after the Delete no sibling carries the deleted id, so the sibling check
  (src/utils.rs:228-236) returns `Some` and the drawn suffix is appended to the name
  (`History.DeleteUndoMovesAndRenames`). No restore lemma is stated for Delete.
- RegisterDocumentModification never clears the redo stack, as in the code.
- History.RegisterUndoRedo: stated for Edit and Create only, the kinds whose recorded
  inverse restores the document.

## Findings

| source | as written | input that shows it | evidently intended | confidence | as-written member | corrected member |
|---|---|---|---|---|---|---|
| src/history_manager.rs:33 | a Move is recorded as its own inverse, so undo repeats the move | siblings [A, B, C], "move B up" gives [B, A, C]; undo gives [A, C, B] | undo applies the opposite move and restores [A, B, C] | high, not executed | History.MoveUndoMovesFurther | History.IntendedUndoRestores |
| src/history_manager.rs:33 | a Paste is recorded as its own inverse, so undo pastes a second copy | an empty root, Paste any node: undo leaves two children | undo deletes the pasted copy by its drawn id | high, not executed | History.PasteUndoPastesAgain | History.IntendedUndoRestores |
