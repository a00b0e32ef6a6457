/**
 * gdtree's filestring rendering: the box-drawing prefix built from an end-state
 * history, in the regular or the fancy style, and the optional colouring of the
 * entry's name.
 */
module GdFilestring {
  import opened Wrappers
  import opened Strings
  import opened EntryTypes
  import opened Colors
  import opened GdUtils
  import opened EndStateHistories

  // ----- glyphs -----

  const BRANCH_PREFIX: string := "\U{251C}\U{2500}\U{2500} "
  const BRANCH_END_PREFIX: string := "\U{2514}\U{2500}\U{2500} "
  const SPACER_WITH_LIMB: string := "\U{2502}   "
  const SPACER: string := "    "
  const SPACER_WITH_LIMB_FANCY: string := "\U{2551}   "
  const BRANCH_END_PREFIX_FANCY: string := "\U{255A}\U{2550}\U{2550} "
  const BRANCH_PREFIX_FANCY: string := "\U{2560}\U{2550}\U{2550} "

  /** The line-drawing characters of each style. */
  const PLAIN_LINES: set<char> := {'\U{251C}', '\U{2500}', '\U{2514}', '\U{2502}'}
  const FANCY_LINES: set<char> := {'\U{2551}', '\U{255A}', '\U{2550}', '\U{2560}'}

  /** A map from end state to glyph (`EXT`, `FANCY`, `FILE_EXT`, `FILE_FANCY`). */
  datatype Subset = Subset(onEnd: string, onNotEnd: string)

  /**
   * `PREFIX_REGULAR` / `PREFIX_FANCY`: the subset used at the final position of a
   * history and the one used at every earlier position.
   */
  datatype PrefixSet = PrefixSet(last: Subset, inner: Subset)

  const EXT: Subset := Subset(SPACER, SPACER_WITH_LIMB)
  const FANCY: Subset := Subset(SPACER, SPACER_WITH_LIMB_FANCY)
  const FILE_EXT: Subset := Subset(BRANCH_END_PREFIX, BRANCH_PREFIX)
  const FILE_FANCY: Subset := Subset(BRANCH_END_PREFIX_FANCY, BRANCH_PREFIX_FANCY)
  const PREFIX_REGULAR: PrefixSet := PrefixSet(FILE_EXT, EXT)
  const PREFIX_FANCY: PrefixSet := PrefixSet(FILE_FANCY, FANCY)

  /** Every glyph of the set is four characters wide. */
  predicate Uniform(prefixSet: PrefixSet)
  {
    |prefixSet.last.onEnd| == 4 && |prefixSet.last.onNotEnd| == 4
    && |prefixSet.inner.onEnd| == 4 && |prefixSet.inner.onNotEnd| == 4
  }

  lemma StylesAreUniform()
    ensures Uniform(PREFIX_REGULAR) && Uniform(PREFIX_FANCY)
  {
  }

  /** `_get_prefix`: the glyph of a subset for one end state. */
  function GetPrefix(endState: bool, subset: Subset): (r: string)
    ensures r == subset.onEnd || r == subset.onNotEnd
    ensures subset.onEnd != subset.onNotEnd ==> (r == subset.onEnd <==> endState)
  {
    if endState then subset.onEnd else subset.onNotEnd
  }

  // ----- the prefix as a function of the end states -----

  /** The glyph at position `k` of a history: the final position uses the `last` subset. */
  function Glyph(states: seq<bool>, k: nat, prefixSet: PrefixSet): string
    requires k < |states|
  {
    GetPrefix(states[k], if k == |states| - 1 then prefixSet.last else prefixSet.inner)
  }

  function Glyphs(states: seq<bool>, prefixSet: PrefixSet): (g: seq<string>)
    ensures |g| == |states|
  {
    seq(|states|, k requires 0 <= k < |states| => Glyph(states, k, prefixSet))
  }

  /** The prefix printed before an entry whose ancestors' end states are `states`. */
  function Prefix(states: seq<bool>, prefixSet: PrefixSet): (r: string)
    ensures states == [] ==> r == ""
    ensures Uniform(prefixSet) ==> |r| == 4 * |states|
  {
    var g := Glyphs(states, prefixSet);
    if Uniform(prefixSet) then
      assert forall k :: 0 <= k < |g| ==> |g[k]| == 4 by {
        forall k | 0 <= k < |g| ensures |g[k]| == 4 {
          assert g[k] == Glyph(states, k, prefixSet);
        }
      }
      JoinWidth4(g);
      Join(g)
    else
      Join(g)
  }

  /**
   * One glyph per end state: the prefix is `4 * |states|` characters (empty for the
   * empty history), glyph `i` at offset `4 * i`.
   */
  lemma PrefixPieces(states: seq<bool>, prefixSet: PrefixSet)
    requires Uniform(prefixSet)
    ensures |Prefix(states, prefixSet)| == 4 * |states|
    ensures forall i :: 0 <= i < |states| ==>
      Prefix(states, prefixSet)[4 * i .. 4 * i + 4] == Glyph(states, i, prefixSet)
  {
    var g := Glyphs(states, prefixSet);
    assert forall k :: 0 <= k < |g| ==> |g[k]| == 4 by {
      forall k | 0 <= k < |g| ensures |g[k]| == 4 {
        assert g[k] == Glyph(states, k, prefixSet);
      }
    }
    JoinWidth4(g);
    forall i | 0 <= i < |states|
      ensures Prefix(states, prefixSet)[4 * i .. 4 * i + 4] == Glyph(states, i, prefixSet)
    {
      assert g[i] == Glyph(states, i, prefixSet);
    }
  }

  /**
   * The regular glyphs: before the final position a finished ancestor leaves a
   * blank and an unfinished one a limb; at the final position the last sibling
   * gets the end branch and every other sibling the tee branch.
   */
  lemma RegularGlyphs(states: seq<bool>, i: nat)
    requires i < |states|
    ensures |Prefix(states, PREFIX_REGULAR)| == 4 * |states|
    ensures Prefix(states, PREFIX_REGULAR)[4 * i .. 4 * i + 4] ==
      if i == |states| - 1 then (if states[i] then BRANCH_END_PREFIX else BRANCH_PREFIX)
      else (if states[i] then SPACER else SPACER_WITH_LIMB)
  {
    StylesAreUniform();
    PrefixPieces(states, PREFIX_REGULAR);
    assert Prefix(states, PREFIX_REGULAR)[4 * i .. 4 * i + 4] == Glyph(states, i, PREFIX_REGULAR);
  }

  /** The fancy glyphs, with the same blank. */
  lemma FancyGlyphs(states: seq<bool>, i: nat)
    requires i < |states|
    ensures |Prefix(states, PREFIX_FANCY)| == 4 * |states|
    ensures Prefix(states, PREFIX_FANCY)[4 * i .. 4 * i + 4] ==
      if i == |states| - 1 then (if states[i] then BRANCH_END_PREFIX_FANCY else BRANCH_PREFIX_FANCY)
      else (if states[i] then SPACER else SPACER_WITH_LIMB_FANCY)
  {
    StylesAreUniform();
    PrefixPieces(states, PREFIX_FANCY);
    assert Prefix(states, PREFIX_FANCY)[4 * i .. 4 * i + 4] == Glyph(states, i, PREFIX_FANCY);
  }

  /** Flipping the final end state changes only the final four characters. */
  lemma FlipLastOnlyChangesLastGlyph(states: seq<bool>, b: bool, prefixSet: PrefixSet)
    requires Uniform(prefixSet) && |states| >= 1
    ensures |Prefix(states[|states| - 1 := b], prefixSet)| == |Prefix(states, prefixSet)| == 4 * |states|
    ensures Prefix(states[|states| - 1 := b], prefixSet)[..4 * (|states| - 1)]
      == Prefix(states, prefixSet)[..4 * (|states| - 1)]
  {
    var flipped := states[|states| - 1 := b];
    var g, f := Glyphs(states, prefixSet), Glyphs(flipped, prefixSet);
    var n := |states| - 1;
    assert g[..n] == f[..n];
    JoinWidth4(g[..n]);
    PrefixPieces(states, prefixSet);
    PrefixPieces(flipped, prefixSet);
    assert Join(g) == Join(g[..n]) + g[n];
    assert Join(f) == Join(f[..n]) + f[n];
  }

  /** A prefix in one style holds no line-drawing character of the other style. */
  lemma StylesNeverMix(states: seq<bool>)
    ensures forall c :: c in Prefix(states, PREFIX_FANCY) ==> c !in PLAIN_LINES
    ensures forall c :: c in Prefix(states, PREFIX_REGULAR) ==> c !in FANCY_LINES
  {
    FancyHasNoPlainLine(states);
    RegularHasNoFancyLine(states);
  }

  lemma FancyHasNoPlainLine(states: seq<bool>)
    ensures forall c :: c in Prefix(states, PREFIX_FANCY) ==> c !in PLAIN_LINES
  {
    assert Prefix(states, PREFIX_FANCY) == Join(Glyphs(states, PREFIX_FANCY));
    forall c | c in Prefix(states, PREFIX_FANCY)
      ensures c !in PLAIN_LINES
    {
      JoinChars(Glyphs(states, PREFIX_FANCY), c);
    }
  }

  lemma RegularHasNoFancyLine(states: seq<bool>)
    ensures forall c :: c in Prefix(states, PREFIX_REGULAR) ==> c !in FANCY_LINES
  {
    assert Prefix(states, PREFIX_REGULAR) == Join(Glyphs(states, PREFIX_REGULAR));
    forall c | c in Prefix(states, PREFIX_REGULAR)
      ensures c !in FANCY_LINES
    {
      JoinChars(Glyphs(states, PREFIX_REGULAR), c);
    }
  }

  // ----- building the prefix from a history object -----

  /**
   * `_build_prefix`: fills a preallocated list with one glyph per state yielded by
   * the history's iterator and joins it.
   */
  method BuildPrefixWith(history: EndStateHistory, prefixSet: PrefixSet) returns (s: string)
    requires history.Valid()
    ensures s == Prefix(history.Contents, prefixSet)
  {
    var lastIndex := history.Length() - 1;
    var prefixes := new string[lastIndex + 1];
    var it := history.Iter();
    var index := 0;
    while true
      invariant it.Valid() && it.Elements == history.Contents && index == it.Index
      invariant prefixes.Length == |history.Contents|
      invariant forall k :: 0 <= k < index ==> prefixes[k] == Glyph(history.Contents, k, prefixSet)
      decreases |it.Elements| - it.Index
    {
      var state := it.Next();
      if state.None? {
        break;
      }
      var subset := if index == lastIndex then prefixSet.last else prefixSet.inner;
      prefixes[index] := GetPrefix(state.value, subset);
      index := index + 1;
    }
    assert prefixes[..] == Glyphs(history.Contents, prefixSet);
    s := Join(prefixes[..]);
  }

  /** `build_prefix` */
  method BuildPrefix(history: EndStateHistory) returns (s: string)
    requires history.Valid()
    ensures s == Prefix(history.Contents, PREFIX_REGULAR)
  {
    s := BuildPrefixWith(history, PREFIX_REGULAR);
  }

  /** `build_fancy_prefix` */
  method BuildFancyPrefix(history: EndStateHistory) returns (s: string)
    requires history.Valid()
    ensures s == Prefix(history.Contents, PREFIX_FANCY)
  {
    s := BuildPrefixWith(history, PREFIX_FANCY);
  }

  // ----- colours -----

  /** `COLORMAP`, over the closed enumeration. */
  function ColorMap(t: EntryType): (r: string)
    ensures r == WHITE <==> t == File
  {
    match t
    case Executable => RED
    case File => WHITE
    case Symlink => GREEN
    case Directory => CYAN
  }

  /** Distinct types get distinct colours, and only files get the default colour. */
  lemma ColorMapDistinct(s: EntryType, t: EntryType)
    ensures ColorMap(s) == ColorMap(t) <==> s == t
    ensures ColorMap(t) == WHITE <==> t == File
  {
  }

  /**
   * `get_filestring_color` for an entry type given by its enum value: ValueError
   * for a value outside `COLORMAP`.
   */
  function GetFilestringColor(code: int): (r: Result<string, InvalidEntryType>)
    ensures r.Success? <==> 1 <= code <= 4
    ensures r.Success? ==> r.value == ColorMap(FromCode(code).value)
    ensures r.Failure? ==> r.error == InvalidEntryType(code)
  {
    match FromCode(code)
    case None => Failure(InvalidEntryType(code))
    case Some(t) => Success(ColorMap(t))
  }

  /** The ValueError raised for an entry type outside `COLORMAP`, carrying the value. */
  datatype InvalidEntryType = InvalidEntryType(code: int)

  /**
   * `type_colorize`: files unchanged; any other type wrapped in its colour and the
   * default colour; ValueError for a value outside `COLORMAP`.
   */
  function TypeColorize(text: string, code: int): (r: Result<string, InvalidEntryType>)
    ensures r.Success? <==> 1 <= code <= 4
    ensures r.Failure? ==> r.error == InvalidEntryType(code)
    ensures code == Code(File) ==> r == Success(text)
    ensures r.Success? && code != Code(File) ==>
      r.value == ColorMap(FromCode(code).value) + text + WHITE
  {
    if code == Code(File) then Success(text)
    else
      match GetFilestringColor(code)
      case Failure(e) => Failure(e)
      case Success(color) => Success(color + text + WHITE)
  }

  // ----- the filestring -----

  /**
   * The `build_filestring` closure made by `create_filestring_builder(settings)`:
   * the prefix in the chosen style, then the name, coloured when asked.
   */
  method BuildFilestring(settings: Settings, name: string, t: EntryType, history: EndStateHistory)
    returns (s: string)
    requires history.Valid()
    ensures s == Prefix(history.Contents, if settings.fancy then PREFIX_FANCY else PREFIX_REGULAR)
      + (if settings.colorize then TypeColorize(name, Code(t)).value else name)
  {
    var prefix;
    if settings.fancy {
      prefix := BuildFancyPrefix(history);
    } else {
      prefix := BuildPrefix(history);
    }
    var shown := name;
    if settings.colorize {
      shown := TypeColorize(name, Code(t)).value;
    }
    s := prefix + shown;
  }
}
