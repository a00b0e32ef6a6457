/**
 * pytree's filestring rendering: the box-drawing prefix read bit by bit from a
 * traversal history, the entry's base name, and its optional colouring.
 */
module PyFilestring {
  import opened Wrappers
  import opened Bits
  import opened Strings
  import opened EntryTypes
  import opened Colors
  import opened PyTraversalHistory
  import GdFilestring

  // ----- constants (`pytree/constants.py`) -----

  const BRANCH_PREFIX: string := "\U{251C}\U{2500}\U{2500} "
  const BRANCH_END_PREFIX: string := "\U{2514}\U{2500}\U{2500} "
  const SPACER_WITH_LIMB: string := "\U{2502}   "
  const SPACER: string := "    "

  /** `COLORMAP`: directories are blue in this generation. */
  function ColorMap(t: EntryType): (r: string)
    ensures r == WHITE <==> t == File
  {
    match t
    case Executable => RED
    case File => WHITE
    case Symlink => GREEN
    case Directory => BLUE
  }

  /** `DEFAULT_COLOR`, the colour that ends a coloured name. */
  const DEFAULT_COLOR: string := WHITE

  /**
   * A traversal entry: its path, its type as the enum's integer value, and its
   * history object.
   */
  datatype DirectoryTreeEntry = DirectoryTreeEntry(path: string, entryType: int, history: TraversalHistory)

  /** The ValueError raised for a type outside `COLORMAP`, carrying the value. */
  datatype InvalidEntryType = InvalidEntryType(code: int)

  // ----- the prefix -----

  /** `_get_prefix`: the glyph for an ancestor depth. */
  function GetPrefix(isEnd: bool): (r: string)
    ensures |r| == 4
    ensures r == SPACER <==> isEnd
  {
    if isEnd then SPACER else SPACER_WITH_LIMB
  }

  /** `_get_prefix_file`: the glyph directly before the name. */
  function GetPrefixFile(isEnd: bool): (r: string)
    ensures |r| == 4
    ensures r == BRANCH_END_PREFIX <==> isEnd
  {
    if isEnd then BRANCH_END_PREFIX else BRANCH_PREFIX
  }

  /** The glyph chosen for bit `i` of `history` at depth `depth`. */
  function PrefixGlyph(history: int, depth: nat, i: nat): string
    requires i < depth
  {
    if i == depth - 1 then GetPrefixFile(Bit(history, i)) else GetPrefix(Bit(history, i))
  }

  /** The prefix of an entry whose history is `history` at depth `depth`. */
  function PyPrefix(history: int, depth: nat): (r: string)
    ensures |r| == 4 * depth
  {
    var glyphs := seq(depth, i requires 0 <= i < depth => PrefixGlyph(history, depth, i));
    assert forall k :: 0 <= k < |glyphs| ==> |glyphs[k]| == 4 by {
      forall k | 0 <= k < |glyphs| ensures |glyphs[k]| == 4 {
        assert glyphs[k] == PrefixGlyph(history, depth, k);
      }
    }
    JoinWidth4(glyphs);
    Join(glyphs)
  }

  /**
   * `generate_prefix`: nothing at depth 0, else one glyph per bit from the least
   * significant up, the last one from `_get_prefix_file`.
   */
  method GeneratePrefix(entry: DirectoryTreeEntry) returns (s: string)
    ensures s == PyPrefix(entry.history.history, entry.history.depth)
  {
    var depth := entry.history.depth;
    if depth == 0 {
      return "";
    }
    var history := entry.history.history;
    var mask := 1;
    var prefixes: seq<string> := [];
    for i := 0 to depth
      invariant mask == Pow2(i)
      invariant |prefixes| == i
      invariant forall k :: 0 <= k < i ==> prefixes[k] == PrefixGlyph(history, depth, k)
    {
      var currentState := AndNonZero(history, mask);
      AndNonZeroPow2(history, i);
      var prefix := if i == depth - 1 then GetPrefixFile(currentState) else GetPrefix(currentState);
      prefixes := prefixes + [prefix];
      mask := mask * 2;
    }
    assert prefixes == seq(depth, i requires 0 <= i < depth => PrefixGlyph(history, depth, i));
    s := Join(prefixes);
  }

  /**
   * pytree's prefix is gdtree's regular prefix of the same end states, read from
   * the low `depth` bits; in particular it is empty at depth 0 whatever the
   * integer (the `-1` sentinel included).
   */
  lemma PrefixMatchesGdtree(history: int, depth: nat)
    ensures PyPrefix(history, depth) == GdFilestring.Prefix(Unpack(history, depth), GdFilestring.PREFIX_REGULAR)
  {
    var states := Unpack(history, depth);
    var ours := seq(depth, i requires 0 <= i < depth => PrefixGlyph(history, depth, i));
    var theirs := GdFilestring.Glyphs(states, GdFilestring.PREFIX_REGULAR);
    forall i | 0 <= i < depth
      ensures ours[i] == theirs[i]
    {
      assert theirs[i] == GdFilestring.Glyph(states, i, GdFilestring.PREFIX_REGULAR);
    }
    assert ours == theirs;
  }

  /**
   * Bit `i` (least significant first) chooses glyph `i`: the blank or the limb
   * before the final position, the end or the tee branch at it.
   */
  lemma PyPrefixGlyphs(history: int, depth: nat, i: nat)
    requires i < depth
    ensures |PyPrefix(history, depth)| == 4 * depth
    ensures PyPrefix(history, depth)[4 * i .. 4 * i + 4] ==
      if i == depth - 1 then (if Bit(history, i) then BRANCH_END_PREFIX else BRANCH_PREFIX)
      else (if Bit(history, i) then SPACER else SPACER_WITH_LIMB)
  {
    PrefixMatchesGdtree(history, depth);
    GdFilestring.RegularGlyphs(Unpack(history, depth), i);
  }

  // ----- the name -----

  /** `get_filestring_color`: ValueError for a type outside `COLORMAP`. */
  function GetFilestringColor(entry: DirectoryTreeEntry): (r: Result<string, InvalidEntryType>)
    ensures r.Success? <==> 1 <= entry.entryType <= 4
    ensures r.Success? ==> r.value == ColorMap(FromCode(entry.entryType).value)
    ensures r.Failure? ==> r.error == InvalidEntryType(entry.entryType)
  {
    match FromCode(entry.entryType)
    case None => Failure(InvalidEntryType(entry.entryType))
    case Some(t) => Success(ColorMap(t))
  }

  /** Only files get the default colour, so only they are never coloured. */
  lemma OnlyFilesAreWhite(t: EntryType)
    ensures ColorMap(t) == DEFAULT_COLOR <==> t == File
  {
  }

  /** `colorize`: the colour, the text, then the default colour. */
  function Colorize(color: string, text: string): (r: string)
    ensures |r| == |color| + |text| + |DEFAULT_COLOR|
    ensures r[..|color|] == color && r[|color|..|color| + |text|] == text
    ensures r[|color| + |text|..] == DEFAULT_COLOR
  {
    color + text + DEFAULT_COLOR
  }

  /** `os.path.basename` on a POSIX path: everything after the final `/`. */
  function Basename(path: string): (r: string)
    ensures '/' !in r
    ensures |r| <= |path| && path[|path| - |r|..] == r
    ensures |r| < |path| ==> path[|path| - |r| - 1] == '/'
  {
    if path == [] then []
    else if path[|path| - 1] == '/' then []
    else Basename(path[..|path| - 1]) + [path[|path| - 1]]
  }

  /**
   * `get_name`: the base name, coloured only when asked and the type is not a
   * file. The colour is looked up first, so an invalid type raises ValueError
   * even when colouring is off.
   */
  function GetName(entry: DirectoryTreeEntry, doColorize: bool): (r: Result<string, InvalidEntryType>)
    ensures r.Success? <==> 1 <= entry.entryType <= 4
    ensures r.Success? && (!doColorize || entry.entryType == Code(File)) ==> r.value == Basename(entry.path)
    ensures r.Success? && doColorize && entry.entryType != Code(File) ==>
      r.value == Colorize(ColorMap(FromCode(entry.entryType).value), Basename(entry.path))
  {
    match GetFilestringColor(entry)
    case Failure(e) => Failure(e)
    case Success(color) =>
      var name := Basename(entry.path);
      if !doColorize || color == DEFAULT_COLOR then Success(name)
      else Success(Colorize(color, name))
  }

  // ----- the name as written: `pytree/constants.py` assigns no `DEFAULT_COLOR` -----

  /**
   * The `DEFAULT_COLOR` attribute of pytree's constants module, which that module
   * never assigns; reading it raises AttributeError.
   */
  const CONSTANTS_DEFAULT_COLOR: Option<string> := None

  /** The errors `get_name` raises as written: ValueError, or AttributeError for a missing constant. */
  datatype NameError = BadType(code: int) | MissingConstant(name: string)

  /** `colorize` as written: reading the missing constant fails on every call. */
  function ColorizeAsWritten(color: string, text: string): (r: Result<string, NameError>)
    ensures r.Success? <==> CONSTANTS_DEFAULT_COLOR.Some?
  {
    match CONSTANTS_DEFAULT_COLOR
    case None => Failure(MissingConstant("DEFAULT_COLOR"))
    case Some(d) => Success(color + text + d)
  }

  /**
   * `get_name` as written: the comparison with the missing constant is only
   * reached when colouring is asked for, and then it fails.
   */
  function GetNameAsWritten(entry: DirectoryTreeEntry, doColorize: bool): (r: Result<string, NameError>)
    ensures r.Success? <==> 1 <= entry.entryType <= 4 && !doColorize
    ensures r.Success? ==> r.value == Basename(entry.path)
    ensures r.Failure? && 1 <= entry.entryType <= 4 ==> r.error == MissingConstant("DEFAULT_COLOR")
    ensures r.Failure? && !(1 <= entry.entryType <= 4) ==> r.error == BadType(entry.entryType)
  {
    match GetFilestringColor(entry)
    case Failure(e) => Failure(BadType(e.code))
    case Success(color) =>
      var name := Basename(entry.path);
      if !doColorize then Success(name)
      else match CONSTANTS_DEFAULT_COLOR
        case None => Failure(MissingConstant("DEFAULT_COLOR"))
        case Some(d) => if color == d then Success(name) else ColorizeAsWritten(color, name)
  }

  /**
   * The code as written and the corrected `GetName` agree when colouring is off;
   * when it is on, every valid entry fails as written and succeeds corrected.
   */
  lemma GetNameAsWrittenVsCorrected(entry: DirectoryTreeEntry, doColorize: bool)
    ensures !doColorize ==>
      (GetNameAsWritten(entry, doColorize).Success? <==> GetName(entry, doColorize).Success?)
    ensures GetNameAsWritten(entry, doColorize).Success? ==>
      GetNameAsWritten(entry, doColorize).value == GetName(entry, doColorize).value
    ensures doColorize && 1 <= entry.entryType <= 4 ==>
      GetNameAsWritten(entry, doColorize).Failure? && GetName(entry, doColorize).Success?
  {
  }

  /**
   * The executable `exec/activate` with colouring on: the corrected name is red
   * text reset to white, as written the call raises AttributeError.
   */
  lemma MissingDefaultColorExample(h: TraversalHistory)
    ensures GetNameAsWritten(DirectoryTreeEntry("exec/activate", Code(Executable), h), true) == Failure(MissingConstant("DEFAULT_COLOR"))
    ensures GetName(DirectoryTreeEntry("exec/activate", Code(Executable), h), true) == Success(RED + "activate" + WHITE)
  {
    BasenameExample();
  }

  lemma BasenameExample()
    ensures Basename("exec/activate") == "activate"
  {
    assert "exec/activate" == "exec" + "/" + "activate";
    assert forall k :: 0 <= k < |"activate"| ==> "activate"[k] != '/';
    BasenameAfterSlash("exec", "activate");
  }

  /** The base name of `dir/name` is `name` when `name` holds no `/`. */
  lemma {:induction false} BasenameAfterSlash(dir: string, name: string)
    requires forall k :: 0 <= k < |name| ==> name[k] != '/'
    ensures Basename(dir + "/" + name) == name
    decreases |name|
  {
    var p := dir + "/" + name;
    if name == [] {
      assert p[|p| - 1] == '/';
    } else {
      var n := |name|;
      assert p[|p| - 1] == name[n - 1];
      assert p[..|p| - 1] == dir + "/" + name[..n - 1];
      BasenameAfterSlash(dir, name[..n - 1]);
      assert name == name[..n - 1] + [name[n - 1]];
    }
  }

  /**
   * `generate_filestring` with the corrected `get_name` (`DEFAULT_COLOR` white):
   * the prefix, then the name.
   */
  method GenerateFilestring(entry: DirectoryTreeEntry, doColorize: bool) returns (r: Result<string, InvalidEntryType>)
    ensures r.Success? <==> 1 <= entry.entryType <= 4
    ensures r.Success? ==>
      r.value == PyPrefix(entry.history.history, entry.history.depth) + GetName(entry, doColorize).value
  {
    var prefix := GeneratePrefix(entry);
    var name := GetName(entry, doColorize);
    if name.Failure? {
      return Failure(name.error);
    }
    return Success(prefix + name.value);
  }

  /**
   * `generate_filestring` as written: it fails whenever `get_name` does, so with
   * colouring on every entry raises, AttributeError for a valid type.
   */
  method GenerateFilestringAsWritten(entry: DirectoryTreeEntry, doColorize: bool) returns (r: Result<string, NameError>)
    ensures r.Success? <==> 1 <= entry.entryType <= 4 && !doColorize
    ensures r.Success? ==> r.value == PyPrefix(entry.history.history, entry.history.depth) + Basename(entry.path)
    ensures r.Failure? && 1 <= entry.entryType <= 4 ==> r.error == MissingConstant("DEFAULT_COLOR")
    ensures r.Failure? && !(1 <= entry.entryType <= 4) ==> r.error == BadType(entry.entryType)
  {
    var prefix := GeneratePrefix(entry);
    var name := GetNameAsWritten(entry, doColorize);
    if name.Failure? {
      return Failure(name.error);
    }
    return Success(prefix + name.value);
  }

  /** The two generations colour every type alike except directories (blue here, cyan in gdtree). */
  lemma ColorsAcrossGenerations(t: EntryType)
    ensures ColorMap(t) == GdFilestring.ColorMap(t) <==> t != Directory
  {
  }
}
