# gdtree / pytree in Dafny

A model of the core of a `tree`-style directory printer. The printer exists in two
generations: the current `gdtree` package and the earlier `pytree` one. Each one
walks a directory depth first. At every level it records whether each entry was
the last of its visible, sorted siblings, and it turns that per-ancestor record
into a prefix of four-character box-drawing glyphs in front of the entry's name,
which may be coloured.

The project has these modules:

- `Bits` (`bits.dfy`): Python's operations on unbounded integers. These are
  `1 << k`, `&`, `|`, `&= ~mask` and the packing of a boolean sequence into
  an integer with bit `i` for position `i`. They are defined by halving
  recursion. Floor division by two gives Python's two's-complement reading
  of negative integers, so pytree's `-1` sentinel is modelled exactly.
- `EndStateHistories` (`end_state_history.py`): the class `EndStateHistory`, with
  its packed `history` field, its `depth` field and a ghost `Contents` that the
  two fields encode, and the class `StateHistoryIterator`. `Valid()` is the
  representation invariant. It says the integer is exactly the packed
  `Contents`, so no bit at or above `depth` is set. Every method keeps it.
- `GdTraverse` (`gdtree/traverse.py`): the filesystem becomes an in-memory
  `Node` tree.
  - `Walk`, `WalkFrom` and `Below` are the sequence of `(name, type, end states)`
    triples the generator yields. `Below` is what follows one entry: the walk
    below a directory whose history is still shorter than `MAX_DEPTH`. Lemmas
    state the properties of that sequence.
  - `Traverse`, `VisitSiblings`, `VisitNext`, `VisitEntry` and `VisitBelow` are
    the imperative loop. It builds the same triples with a fresh
    `EndStateHistory` object for every entry.
- `GdFilestring` (`gdtree/filestring.py`): the prefix maps, `Prefix` as the join of
  one glyph per end state, the loop of `_build_prefix` over the history's
  iterator, the colour map and `build_filestring`.
- `GdUtils` and `EntryTypes` (`gdtree/utils.py`): `MAX_DEPTH`, the settings flags,
  the entry-type enumeration with its integer values, and `get_type`.
- `PyTraversalHistory` (`pytree/traversal_history.py`): the class
  `TraversalHistory` with `add_history` and `update_history`.
- `PyFilestring` (`pytree/filestring.py`): `generate_prefix` as a loop over the
  integer's bits, `get_name` and `generate_filestring`. Glyph and colour values
  come from `pytree/constants.py`.
- `PyUtils` (`pytree/utils.py`) and `Classify`, which compares the two
  generations' classifiers.
- `Strings`, `Colors` and `Wrappers` are shared helpers. `Colors` holds the ANSI
  escapes for the colorama colours.

Behaviour of the code worth spelling out, since a reader might expect otherwise:

- Ascending code-point order puts `file.txt` before `sub`. So in a directory
  holding an empty `sub/` and `file.txt`, `sub` is the entry marked last
  (`GdTraverse.ForwardExample`).
- In reverse order over `a`, `b` and `c`, the final entry, `a`, is the one
  marked last (`GdTraverse.ReverseExample`).
- `EndStateHistory`'s constructor raises `ValueError` for a list longer than
  `MAX_DEPTH`. `append` and `extend` raise `DepthError`.
- `__getitem__` and `__setitem__` raise `IndexError` for a key outside the
  held range.
- pytree's `get_type` tests the directory probe first, and gdtree's tests the
  symlink probe first. The model keeps each generation's own order.
  `Classify.GenerationsDifferOnlyOnSymlinkToDir` states exactly where the two
  disagree.

## Model

| member | source | states |
|---|---|---|
| EntryTypes.FromCode | gdtree/utils.py:13-21 | Only the values 1 to 4 name an entry type. The type named by a value maps back to that value. |
| GdUtils.GetType | gdtree/utils.py:34-67 | Symlink iff the symlink probe answers true. Directory iff it does not and the directory probe answers true. Then executable iff `X_OK` passes, else file. |
| GdUtils.SymlinkIgnoresDirProbe | gdtree/utils.py:47-54 | A symlink is classified as a symlink whatever the directory probe and the access check say. |
| GdUtils.ProbeErrorIsFalse | gdtree/utils.py:47-61 | A probe that raised OSError classifies exactly like one that answered false, for both probes. |
| PyUtils.TestEntryType | pytree/utils.py:9-26 | The result is true iff the probe returned true. A raised OSError gives false. |
| PyUtils.GetType | pytree/utils.py:29-50 | Directory iff the directory test holds. Symlink iff it does not and the symlink test holds. Then executable iff the access check passes, else file. |
| Classify.GenerationsDifferOnlyOnSymlinkToDir | pytree/utils.py:42-47 | gdtree and pytree classify an entry differently iff both probes answer true. gdtree then says symlink and pytree says directory. |
| EndStateHistories.EndStateHistory.Empty | src/gdtree/end_state_history.py:13-25 | The history with no input is valid and holds no end states. |
| EndStateHistories.EndStateHistory.FromStates | src/gdtree/end_state_history.py:24-33 | ORing `state << index` for each state of a list of at most `MAX_DEPTH` states gives a valid history holding exactly that list. |
| EndStateHistories.EndStateHistory.Create | src/gdtree/end_state_history.py:13-33 | ValueError iff a list longer than `MAX_DEPTH` is given. Otherwise a fresh valid history holds the list, or nothing for `None`. |
| EndStateHistories.EndStateHistory.Length | src/gdtree/end_state_history.py:35-42 | The length is the number of end states held, at most `MAX_DEPTH`. |
| EndStateHistories.EndStateHistory.Get | src/gdtree/end_state_history.py:44-60 | IndexError iff the key is outside `[0, len)`. Otherwise the bit test returns the end state at that index. |
| EndStateHistories.EndStateHistory.Set | src/gdtree/end_state_history.py:62-79 | IndexError iff the key is outside `[0, len)`, with nothing changed. Otherwise exactly that index becomes `value`. The invariant is kept. |
| EndStateHistories.EndStateHistory.Append | src/gdtree/end_state_history.py:81-97 | DepthError iff the length is `MAX_DEPTH`, with nothing changed. Otherwise the states become the old ones followed by `value`. |
| EndStateHistories.EndStateHistory.Extend | src/gdtree/end_state_history.py:108-127 | DepthError iff the two lengths add up past `MAX_DEPTH`. Otherwise the states become this history's states then the other's, even for `h.extend(h)`. A distinct `other` is unchanged. |
| EndStateHistories.EndStateHistory.Iter | src/gdtree/end_state_history.py:99-106 | Returns a fresh iterator over exactly the held states, at position 0. |
| EndStateHistories.StateHistoryIterator.constructor | src/gdtree/end_state_history.py:135-138 | The limit is `1 << len`, the mask is 1, and the iterator stands at the first state. |
| EndStateHistories.StateHistoryIterator.Next | src/gdtree/end_state_history.py:143-149 | The mask test returns the state at the current position and advances by one. StopIteration (`None`) comes exactly after the last state. |
| EndStateHistories.NoBitAtOrAboveDepth | src/gdtree/end_state_history.py:124-127 | A valid history has no bit set at any index at or above its length. This is why `extend`'s OR concatenates. |
| Bits.OrDisjoint | src/gdtree/end_state_history.py:124-126 | ORing a value below `2^k` with another value shifted left by `k` is their sum. |
| Bits.UnpackPack | src/gdtree/end_state_history.py:24-33 | Reading back the low n bits of the integer the constructor packs from n states gives those states. |
| GdTraverse.FilterPrefixMembers | gdtree/traverse.py:12-24 | An entry survives `filter_prefix` iff it was in the input and its name lacks the prefix. |
| GdTraverse.FilterPrefixConcat | gdtree/traverse.py:12-24 | Filtering a concatenation filters each part and keeps their order. |
| GdTraverse.SortByName | gdtree/traverse.py:77 | The result is sorted by name, descending when `reverse`, and is a permutation of the input. |
| GdTraverse.Children | gdtree/traverse.py:71-77 | The children visited are sorted, are a permutation of the filtered listing, and are exactly the listing's entries whose names do not start with `.`. |
| GdTraverse.FilterPrefix | gdtree/traverse.py:12-24 | The result is no longer than the input. Which entries survive is stated by `GdTraverse.FilterPrefixMembers`. |
| GdTraverse.Insert | gdtree/traverse.py:77 | Inserting into a sorted list keeps it sorted and adds exactly the one entry. This is the step of the `list.sort` stand-in. |
| GdTraverse.ChildrenUnique | gdtree/traverse.py:71-77 | When the listing's names are unique, the visible entries have only one arrangement sorted in the chosen direction, namely `Children`. So the choice of sorting algorithm does not matter. |
| GdTraverse.WalkBounds | gdtree/traverse.py:78-84 | Every yielded history extends the history walked from and has length at most `MAX_DEPTH`. So `construct_from_history` never fails during a walk. |
| GdTraverse.WalkHidesDotNames | gdtree/traverse.py:71 | No yielded name, at any depth, starts with `.`. |
| GdTraverse.WalkFromLevel | gdtree/traverse.py:78-84 | The entries one level below are the remaining siblings, each exactly once and in order. Only the final sibling has end state true, whatever the subtrees hold. |
| GdTraverse.DirectChildren | gdtree/traverse.py:71-82 | A directory's direct children in the walk are its sorted visible entries. The k-th has end state true iff it is the final one. |
| GdTraverse.HiddenEntryIrrelevant | gdtree/traverse.py:71-81 | Inserting a hidden entry anywhere in a listing leaves the whole walk unchanged, including which entry is marked last. |
| GdTraverse.EntriesBelowStart | gdtree/traverse.py:87-116 | Walking from the empty history never yields the start directory. Every history has length 1 to `MAX_DEPTH`. |
| GdTraverse.WalkPreOrder | gdtree/traverse.py:79-84 | Consecutive histories have pre-order shape. A deeper entry follows only a directory, exactly one level down and under it. Any other next entry has the history shape of a sibling of the entry or of an ancestor. The first entry is one level below the directory walked. Only history shapes are compared here, and `GdTraverse.SubtreeRun` ties each subtree to its own entry. |
| GdTraverse.SubtreeRun | gdtree/traverse.py:79-84 | Right after a sibling's triple comes exactly the walk of that sibling's own listing when it is a directory below `MAX_DEPTH`, and nothing otherwise. Every entry of that run lies below the sibling. The next entry is the next sibling, or nothing if it was the final one. |
| GdTraverse.ForwardExample | gdtree/traverse.py:77-84 | An empty `sub/` and `file.txt` walk as `file.txt` (not last) then `sub` (last). |
| GdTraverse.ReverseExample | gdtree/traverse.py:77-84 | Reverse order over `a`, `b` and `c` yields `c`, `b`, `a`, with only `a` marked last. |
| GdTraverse.ConstructFromHistory | gdtree/traverse.py:27-41 | A fresh valid history holding the given states then `isEnd`. DepthError iff the given history is already full. The given history is untouched. |
| GdTraverse.Traverse | gdtree/traverse.py:44-84 | The triples for one directory match `Walk` one for one, each with a fresh history object that no other triple shares. |
| GdTraverse.VisitSiblings | gdtree/traverse.py:77-84 | The loop over the sorted siblings yields exactly `WalkFrom(sorted, 0, ...)`, with fresh, pairwise distinct history objects. |
| GdTraverse.VisitNext | gdtree/traverse.py:79-84 | One round of the sibling loop appends the next stretch of the walk. Earlier triples are kept, and the new ones get fresh, pairwise distinct history objects. |
| GdTraverse.VisitEntry | gdtree/traverse.py:80-84 | One round yields one sibling's triple, then its subtree when it is a directory below `MAX_DEPTH`. That is the next stretch of `WalkFrom`. |
| GdTraverse.VisitBelow | gdtree/traverse.py:83-84 | The descent after a triple matches `Below` one for one: the walk of the directory's listing when the entry is a directory and its new history is shorter than `MAX_DEPTH`, else nothing. Every descendant triple gets a fresh, pairwise distinct history object. |
| GdTraverse.TraverseDirectory | gdtree/traverse.py:103-116 | Walks from an empty history in ascending order and matches `Walk(start, [], false)`. |
| GdTraverse.ReverseTraverseDirectory | gdtree/traverse.py:87-100 | Walks from an empty history in descending order and matches `Walk(start, [], true)`. |
| GdFilestring.StylesAreUniform | gdtree/filestring.py:13-20 | Every glyph of the regular and fancy prefix sets is four characters wide. |
| GdFilestring.GetPrefix | gdtree/filestring.py:62-80 | The glyph is one of the subset's two glyphs. When the two differ, it is the end glyph iff the end state is true. |
| GdFilestring.Prefix | gdtree/filestring.py:83-92 | The empty history gives "". With four-character glyphs, the prefix is four characters per end state. |
| GdFilestring.PrefixPieces | gdtree/filestring.py:83-92 | A history of n states renders as 4n characters, so the empty history renders as "". Piece i is the glyph for state i. |
| GdFilestring.RegularGlyphs | gdtree/filestring.py:26-48 | Before the final position, true gives four blanks and false the limb. At the final position, true gives the end branch and false the tee. |
| GdFilestring.FancyGlyphs | gdtree/filestring.py:31-48 | The same choice over the fancy glyphs ║, ╚══ and ╠══, with the same blank spacer. |
| GdFilestring.FlipLastOnlyChangesLastGlyph | gdtree/filestring.py:86-91 | Flipping the final end state leaves all but the last four characters unchanged. |
| GdFilestring.StylesNeverMix | gdtree/filestring.py:17-48 | A fancy prefix holds no plain line character, and a regular prefix holds no fancy one. |
| GdFilestring.BuildPrefixWith | gdtree/filestring.py:83-92 | The loop over the history's iterator, filling the preallocated list, returns `Prefix` of the history's states. |
| GdFilestring.BuildPrefix | gdtree/filestring.py:95-105 | The regular prefix of the history's states. |
| GdFilestring.BuildFancyPrefix | gdtree/filestring.py:108-118 | The fancy prefix of the history's states. |
| GdFilestring.ColorMap | gdtree/filestring.py:50-59 | A type maps to the default white iff it is file. |
| GdFilestring.ColorMapDistinct | gdtree/filestring.py:51-59 | Distinct types get distinct colours, and only files get the default white. |
| GdFilestring.GetFilestringColor | gdtree/filestring.py:121-141 | ValueError with the value iff it is outside 1 to 4. Otherwise the result is the mapped colour of that type. |
| GdFilestring.TypeColorize | gdtree/filestring.py:144-162 | File names come back unchanged. Any other valid type gives colour, text, then white. A value outside the enumeration gives ValueError carrying that value. |
| GdFilestring.BuildFilestring | gdtree/filestring.py:165-202 | The prefix in the chosen style, then the name, passed through `type_colorize` exactly when colouring is on. |
| PyTraversalHistory.TraversalHistory.Default | pytree/traversal_history.py:10-12 | The default history is `-1` at depth 0, records no end states and is well formed. |
| PyTraversalHistory.TraversalHistory.constructor | pytree/traversal_history.py:10-12 | Stores the given integer and depth. |
| PyTraversalHistory.TraversalHistory.UpdateHistory | pytree/traversal_history.py:14-36 | DepthError iff `d` is outside `[0, depth)`, with nothing changed. Otherwise only bit `d` becomes `value`, and the depth and every other bit are unchanged. |
| PyTraversalHistory.TraversalHistory.AddHistory | pytree/traversal_history.py:38-62 | DepthError iff the depth is 30. Otherwise the sentinel is reset at depth 0, bit `depth` is set iff `isEnd`, and the depth grows by one. The new pair is returned. On a well-formed history the recorded states gain `isEnd` at the end. |
| PyTraversalHistory.BitsBelowKept | pytree/traversal_history.py:56-61 | Setting bit `d` on a value with bit `d` clear appends one state to the low `d` bits and keeps them. |
| PyFilestring.GeneratePrefix | pytree/filestring.py:57-84 | The mask loop gives "" at depth 0 whatever the integer, including `-1`. Otherwise it gives one glyph per bit, least significant first, and the final one comes from `_get_prefix_file`. |
| PyFilestring.GetPrefix | pytree/filestring.py:27-39 | The glyph is four characters wide, and it is the blank spacer iff the ancestor's state is true. |
| PyFilestring.GetPrefixFile | pytree/filestring.py:42-54 | The glyph is four characters wide, and it is the end branch iff the entry is the last one. |
| PyFilestring.PyPrefix | pytree/filestring.py:69-84 | The prefix is four characters per level of depth, so depth 0 gives "". |
| PyFilestring.PrefixMatchesGdtree | pytree/filestring.py:72-84 | pytree's prefix is gdtree's regular prefix of the low `depth` bits. |
| PyFilestring.PyPrefixGlyphs | pytree/filestring.py:27-54 | Bit i picks glyph i: blank or limb before the final position, end or tee branch at it. |
| PyFilestring.GetFilestringColor | pytree/filestring.py:87-107 | ValueError with the value iff it is outside 1 to 4. Otherwise the result is the `COLORMAP` colour. |
| PyFilestring.OnlyFilesAreWhite | pytree/constants.py:8-13 | A type's colour is the default white iff the type is file. |
| PyFilestring.ColorMap | pytree/constants.py:8-13 | A type maps to white iff it is file. |
| PyFilestring.Colorize | pytree/filestring.py:110-122 | The result is the colour, then the text, then the default colour, each in its place. |
| PyFilestring.Basename | pytree/filestring.py:137 | The base name has no `/`. It is a suffix of the path, and a `/` precedes it when it is shorter than the path. |
| PyFilestring.BasenameAfterSlash | pytree/filestring.py:137 | The base name of `dir/name` is `name` whenever `name` holds no `/`. |
| PyFilestring.GetName | pytree/filestring.py:125-141 | ValueError iff the type is outside 1 to 4, even with colouring off. The plain base name when colouring is off or for a file. Otherwise the coloured base name. |
| PyFilestring.ColorizeAsWritten | pytree/filestring.py:122 | As written, `colorize` always fails, because the constants module has no `DEFAULT_COLOR`. |
| PyFilestring.GetNameAsWritten | pytree/filestring.py:136-141 | As written, `get_name` succeeds iff the type is valid and colouring is off. With colouring on it raises AttributeError. |
| PyFilestring.GetNameAsWrittenVsCorrected | pytree/filestring.py:136-141 | The code as written and the corrected name agree when colouring is off. With colouring on, every valid entry fails as written and succeeds corrected. |
| PyFilestring.MissingDefaultColorExample | pytree/filestring.py:136-141 | `exec/activate` as an executable with colouring on: AttributeError as written, red `activate` then white when corrected. |
| PyFilestring.GenerateFilestring | pytree/filestring.py:11-24 | The code with the corrected `get_name` (`DEFAULT_COLOR` white): the prefix, then the name. It fails exactly when the type is invalid. |
| PyFilestring.GenerateFilestringAsWritten | pytree/filestring.py:11-24 | As written, it succeeds iff the type is valid and colouring is off, giving the prefix then the base name. With colouring on, a valid type raises AttributeError. An invalid type raises ValueError. |
| PyFilestring.ColorsAcrossGenerations | pytree/constants.py:8-13 | The two colour maps agree on every type except directories. |

## Findings

| source | as written | input that shows it | evidently intended | confidence | as-written member | corrected member |
|---|---|---|---|---|---|---|
| pytree/filestring.py:122 | `colorize` and `get_name` read `constants.DEFAULT_COLOR`, which `pytree/constants.py` never assigns, so both raise AttributeError | `get_name` of entry `exec/activate` of type EXECUTABLE with `do_colorize` true | `DEFAULT_COLOR` is `Fore.WHITE`, as in gdtree and as `test/test_filestring.py` expects | high, not executed | PyFilestring.GetNameAsWritten | PyFilestring.GetName |
| pytree/filestring.py:22 | `generate_filestring` calls `get_name`, so it raises AttributeError for every valid entry when `do_colorize` is true | `generate_filestring` of any entry of a valid type with `do_colorize` true | the prefix followed by the coloured name, with `DEFAULT_COLOR` white | high, not executed | PyFilestring.GenerateFilestringAsWritten | PyFilestring.GenerateFilestring |

## Left out

- `gdtree/app.py` and `pytree/app.py` are not part of this model. They hold the command line, printing and entry counting, and an early driver that prints directly.
- `pytree/traverse.py` is not part of this model. It calls `update_history` at an index equal to the history's depth, which `update_history` rejects, so no stable behaviour follows from it. It also counts hidden entries when picking the last index.
- The OS calls `scandir`, `is_symlink`, `is_dir` and `access` become fields of `Node`. A probe that raised OSError is `None`. A listing that raised NotADirectoryError or OSError, before or during iteration, is a `None` listing. Nodes carry names only, with no paths.
- The `print(err)` diagnostics and the release of the `scandir` context manager are dropped.
- Generator laziness and early termination are not modelled. Each walk is a returned sequence.
- `list.sort` is a library call. It is modelled as a stable insertion sort by name under code-point order, and only sortedness and permutation are proved about it. Python's string order is the same code-point order.
- The `create_filestring_builder` closure is flattened into `BuildFilestring(settings, ...)`. The `Settings` flag is a record of three booleans.
- Colorama's `Fore` values are the ANSI escape strings they stand for. `init` on Windows is not modelled.
- The ValueError re-raised from a KeyError in gdtree's `_get_prefix` cannot occur, because end states are booleans. It is not modelled.
- Entry types reach both `get_filestring_color` functions as the enum's integer values, so the ValueError branch for a type outside `COLORMAP` is reachable. `build_filestring` takes a real `EntryType` and so cannot fail.
- pytree's `TraversalHistory` depth is a `nat`. A negative depth would make `1 << depth` raise, and no caller builds one.
- The record classes in `pytree/directory_tree_entry.py` are modelled only as the `DirectoryTreeEntry` datatype. Their default-history constructor is not part of this model.
- `os.path.basename` is modelled for POSIX paths only.
- PyTraversalHistory.TraversalHistory.AddHistory: the statement that the recorded states gain `isEnd` at the end is proved only for well-formed histories (depth 0, or no bit set at or above the depth). A history built by the two-argument constructor with stray high bits does not keep it. The bit-level effect is stated for every history.
- EndStateHistories.EndStateHistory.FromStates: requires a list of at most `MAX_DEPTH` states. The too-long case is the ValueError path of `Create`, which models the whole constructor.
