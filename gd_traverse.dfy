/**
 * gdtree's directory walk over an in-memory directory tree. `Walk` is the
 * sequence of `(name, type, history)` triples the generator yields; `Traverse`
 * is the recursive loop that builds those triples with fresh history objects.
 */
module GdTraverse {
  import opened Wrappers
  import opened Strings
  import opened EntryTypes
  import opened GdUtils
  import opened EndStateHistories

  /**
   * A directory entry as `os.scandir` reports it: its name, the answers of the
   * symlink and directory probes (`None` when the probe raised OSError), the
   * `X_OK` access check and, for a directory, its listing (`None` when listing it
   * raised NotADirectoryError or OSError, before or during the iteration).
   */
  datatype Node = Node(
    name: string,
    isSymlink: Option<bool>,
    isDir: Option<bool>,
    executable: bool,
    listing: Option<seq<Node>>)

  /** A yielded triple, with the history object read as its sequence of end states. */
  datatype Listed = Listed(name: string, entryType: EntryType, history: seq<bool>)

  /** A yielded triple as the generator produces it, holding its own history object. */
  datatype Entry = Entry(name: string, entryType: EntryType, history: EndStateHistory)

  function TypeOf(n: Node): EntryType
  {
    GetType(n.isSymlink, n.isDir, n.executable)
  }

  /** `filter_prefix`: drops the entries whose name starts with `prefix`, keeping order. */
  function FilterPrefix(entries: seq<Node>, prefix: string): (r: seq<Node>)
    ensures |r| <= |entries|
  {
    if entries == [] then []
    else (if StartsWith(entries[0].name, prefix) then [] else [entries[0]])
         + FilterPrefix(entries[1..], prefix)
  }

  /** The survivors of `filter_prefix` are exactly the entries without the prefix. */
  lemma {:induction false} FilterPrefixMembers(entries: seq<Node>, prefix: string)
    ensures forall x :: x in FilterPrefix(entries, prefix) <==> x in entries && !StartsWith(x.name, prefix)
  {
    if entries != [] {
      FilterPrefixMembers(entries[1..], prefix);
      assert entries == [entries[0]] + entries[1..];
    }
  }

  /** Filtering distributes over concatenation, so the survivors keep their order. */
  lemma {:induction false} FilterPrefixConcat(a: seq<Node>, b: seq<Node>, prefix: string)
    ensures FilterPrefix(a + b, prefix) == FilterPrefix(a, prefix) + FilterPrefix(b, prefix)
  {
    if a == [] {
      assert a + b == b;
    } else {
      assert (a + b)[0] == a[0] && (a + b)[1..] == a[1..] + b;
      FilterPrefixConcat(a[1..], b, prefix);
    }
  }

  // ----- sorting by name (`list.sort(key=name, reverse=reverse)`) -----

  /** `a` sorts strictly before `b` in the chosen direction. */
  predicate Before(a: Node, b: Node, reverse: bool)
  {
    if reverse then LexLess(b.name, a.name) else LexLess(a.name, b.name)
  }

  predicate SortedByName(s: seq<Node>, reverse: bool)
  {
    forall i, j :: 0 <= i < j < |s| ==> !Before(s[j], s[i], reverse)
  }

  lemma BeforeTransitive(a: Node, b: Node, c: Node, reverse: bool)
    requires Before(a, b, reverse) && Before(b, c, reverse)
    ensures Before(a, c, reverse)
  {
    if reverse {
      LexLessTransitive(c.name, b.name, a.name);
    } else {
      LexLessTransitive(a.name, b.name, c.name);
    }
  }

  lemma BeforeIrreflexive(a: Node, reverse: bool)
    ensures !Before(a, a, reverse)
  {
    LexLessIrreflexive(a.name);
  }

  /** Inserts `x` after every element it does not sort before (stable insertion). */
  function Insert(x: Node, s: seq<Node>, reverse: bool): (r: seq<Node>)
    requires SortedByName(s, reverse)
    ensures SortedByName(r, reverse)
    ensures multiset(r) == multiset(s) + multiset{x}
  {
    if s == [] then [x]
    else if Before(x, s[0], reverse) then
      NothingBeforeSmaller(x, s, reverse);
      ConsSorted(x, s, reverse);
      [x] + s
    else
      var rest := Insert(x, s[1..], reverse);
      RestAfterFirst(x, s, rest, reverse);
      ConsSorted(s[0], rest, reverse);
      assert s == [s[0]] + s[1..];
      [s[0]] + rest
  }

  /** Putting in front an element nothing sorts before keeps a sequence sorted. */
  lemma ConsSorted(y: Node, s: seq<Node>, reverse: bool)
    requires SortedByName(s, reverse)
    requires forall j :: 0 <= j < |s| ==> !Before(s[j], y, reverse)
    ensures SortedByName([y] + s, reverse)
  {
    var t := [y] + s;
    forall i, j | 0 <= i < j < |t|
      ensures !Before(t[j], t[i], reverse)
    {
      assert t[j] == s[j - 1];
      if i > 0 {
        assert t[i] == s[i - 1];
      }
    }
  }

  /** Nothing in a sorted sequence sorts before an element that sorts before its head. */
  lemma NothingBeforeSmaller(x: Node, s: seq<Node>, reverse: bool)
    requires SortedByName(s, reverse) && s != [] && Before(x, s[0], reverse)
    ensures forall j :: 0 <= j < |s| ==> !Before(s[j], x, reverse)
  {
    forall j | 0 <= j < |s| ensures !Before(s[j], x, reverse) {
      if Before(s[j], x, reverse) {
        BeforeTransitive(s[j], x, s[0], reverse);
        BeforeIrreflexive(s[0], reverse);
      }
    }
  }

  /** When `x` does not sort before the head, nothing of the rest with `x` inserted does. */
  lemma RestAfterFirst(x: Node, s: seq<Node>, rest: seq<Node>, reverse: bool)
    requires SortedByName(s, reverse) && s != [] && !Before(x, s[0], reverse)
    requires multiset(rest) == multiset(s[1..]) + multiset{x}
    ensures forall j :: 0 <= j < |rest| ==> !Before(rest[j], s[0], reverse)
  {
    forall j | 0 <= j < |rest| ensures !Before(rest[j], s[0], reverse) {
      assert rest[j] in multiset(rest);
      if rest[j] != x {
        assert rest[j] in multiset(s[1..]);
        var k :| 0 <= k < |s[1..]| && s[1..][k] == rest[j];
        assert s[k + 1] == rest[j];
      }
    }
  }

  /** The model of `list.sort(key=lambda x: x.name, reverse=reverse)`. */
  function SortByName(s: seq<Node>, reverse: bool): (r: seq<Node>)
    ensures SortedByName(r, reverse)
    ensures multiset(r) == multiset(s)
  {
    if s == [] then []
    else
      assert s == s[..|s| - 1] + [s[|s| - 1]];
      Insert(s[|s| - 1], SortByName(s[..|s| - 1], reverse), reverse)
  }

  /**
   * The visible children of a listing, in traversal order: the entries that do not
   * start with `.`, sorted by name (descending when `reverse`).
   */
  function Children(listing: seq<Node>, reverse: bool): (r: seq<Node>)
    ensures SortedByName(r, reverse)
    ensures multiset(r) == multiset(FilterPrefix(listing, "."))
    ensures forall x :: x in r <==> x in listing && !StartsWith(x.name, ".")
  {
    var filtered := FilterPrefix(listing, ".");
    var sorted := SortByName(filtered, reverse);
    FilterPrefixMembers(listing, ".");
    assert forall x :: x in sorted <==> x in filtered by {
      forall x
        ensures x in sorted <==> x in filtered
      {
        assert x in sorted <==> x in multiset(sorted);
        assert x in filtered <==> x in multiset(filtered);
      }
    }
    sorted
  }

  /** The names in a listing identify its entries, as they do in a real directory. */
  predicate UniqueNames(s: seq<Node>)
  {
    forall x, y :: x in s && y in s && x.name == y.name ==> x == y
  }

  /**
   * With unique names, sortedness and the multiset fix the order: any two sorted
   * arrangements of the same entries are equal.
   */
  lemma {:induction false} SortedUnique(s: seq<Node>, t: seq<Node>, reverse: bool)
    requires SortedByName(s, reverse) && SortedByName(t, reverse)
    requires multiset(s) == multiset(t) && UniqueNames(s)
    ensures s == t
  {
    if s != [] {
      SameHead(s, t, reverse);
      assert s == [s[0]] + s[1..] && t == [t[0]] + t[1..];
      assert multiset(s) == multiset{s[0]} + multiset(s[1..]);
      assert multiset(t) == multiset{t[0]} + multiset(t[1..]);
      assert multiset(s[1..]) == multiset(s) - multiset{s[0]};
      assert multiset(t[1..]) == multiset(t) - multiset{t[0]};
      SortedTail(s, reverse);
      SortedTail(t, reverse);
      assert forall x :: x in s[1..] ==> x in s;
      assert UniqueNames(s[1..]);
      SortedUnique(s[1..], t[1..], reverse);
    }
  }

  /** Two sorted arrangements of the same entries with unique names start alike. */
  lemma SameHead(s: seq<Node>, t: seq<Node>, reverse: bool)
    requires SortedByName(s, reverse) && SortedByName(t, reverse)
    requires multiset(s) == multiset(t) && UniqueNames(s) && s != []
    ensures t != [] && s[0] == t[0]
  {
    assert s[0] in multiset(s);
    assert t[0] in multiset(t);
    if s[0] != t[0] {
      var k :| 0 <= k < |s| && s[k] == t[0];
      var m :| 0 <= m < |t| && t[m] == s[0];
      LexLessTotal(s[0].name, t[0].name);
      assert false;
    }
  }

  lemma SortedTail(s: seq<Node>, reverse: bool)
    requires SortedByName(s, reverse) && s != []
    ensures SortedByName(s[1..], reverse)
  {
    forall i, j | 0 <= i < j < |s| - 1
      ensures !Before(s[1..][j], s[1..][i], reverse)
    {
      assert s[1..][j] == s[j + 1] && s[1..][i] == s[i + 1];
    }
  }

  /**
   * `list.sort` leaves no choice: for a listing whose names are unique, `Children`
   * is the only arrangement of the visible entries sorted in the chosen direction,
   * whatever sorting algorithm produced it.
   */
  lemma ChildrenUnique(listing: seq<Node>, reverse: bool, order: seq<Node>)
    requires UniqueNames(listing)
    requires SortedByName(order, reverse) && multiset(order) == multiset(FilterPrefix(listing, "."))
    ensures order == Children(listing, reverse)
  {
    var filtered := FilterPrefix(listing, ".");
    FilterPrefixMembers(listing, ".");
    forall x | x in order ensures x in listing {
      assert x in multiset(order);
      assert x in filtered;
    }
    SortedUnique(order, Children(listing, reverse), reverse);
  }

  // ----- the walk -----

  /**
   * `_traverse(path, history, reverse)` for the directory whose listing is
   * `listing`: nothing when listing failed, else the walk of its visible children.
   */
  function Walk(listing: Option<seq<Node>>, history: seq<bool>, reverse: bool): (r: seq<Listed>)
    requires |history| < MAX_DEPTH
    decreases MAX_DEPTH - |history|, 1, 0
  {
    match listing
    case None => []
    case Some(entries) => WalkFrom(Children(entries, reverse), 0, history, reverse)
  }

  /**
   * The loop of `_traverse` from position `index` of the sorted siblings: each
   * sibling's triple, its history one end state longer (true only for the final
   * sibling), then its subtree when it is a directory and the history is still
   * shorter than `MAX_DEPTH`, then the later siblings.
   */
  function WalkFrom(siblings: seq<Node>, index: nat, history: seq<bool>, reverse: bool): (r: seq<Listed>)
    requires |history| < MAX_DEPTH && index <= |siblings|
    decreases MAX_DEPTH - |history|, 0, |siblings| - index
  {
    if index == |siblings| then []
    else
      var node := siblings[index];
      var t := TypeOf(node);
      var h := history + [index == |siblings| - 1];
      [Listed(node.name, t, h)] + Below(node, h, reverse) + WalkFrom(siblings, index + 1, history, reverse)
  }

  /**
   * What `_traverse` yields right after an entry whose history is `h`: the walk
   * below it when it is a directory and `h` is still shorter than `MAX_DEPTH`,
   * else nothing.
   */
  function Below(node: Node, h: seq<bool>, reverse: bool): (r: seq<Listed>)
    requires |h| <= MAX_DEPTH
    decreases MAX_DEPTH - |h|, 2, 0
  {
    if TypeOf(node) == Directory && |h| < MAX_DEPTH then Walk(node.listing, h, reverse) else []
  }

  // ----- properties of the walk -----

  /**
   * Every yielded history extends the one it was walked from by at least one end
   * state and never exceeds `MAX_DEPTH`, so `construct_from_history` never fails.
   */
  lemma {:induction false} WalkBounds(listing: Option<seq<Node>>, history: seq<bool>, reverse: bool)
    requires |history| < MAX_DEPTH
    ensures forall e :: e in Walk(listing, history, reverse) ==>
      |history| < |e.history| <= MAX_DEPTH && e.history[..|history|] == history
    decreases MAX_DEPTH - |history|, 1, 0
  {
    if listing.Some? {
      WalkFromBounds(Children(listing.value, reverse), 0, history, reverse);
    }
  }

  lemma {:induction false} WalkFromBounds(siblings: seq<Node>, index: nat, history: seq<bool>, reverse: bool)
    requires |history| < MAX_DEPTH && index <= |siblings|
    ensures forall e :: e in WalkFrom(siblings, index, history, reverse) ==>
      |history| < |e.history| <= MAX_DEPTH && e.history[..|history|] == history
    decreases MAX_DEPTH - |history|, 0, |siblings| - index
  {
    if index < |siblings| {
      var node := siblings[index];
      var h := history + [index == |siblings| - 1];
      assert h[..|history|] == history;
      if TypeOf(node) == Directory && |h| < MAX_DEPTH {
        WalkBounds(node.listing, h, reverse);
        forall e | e in Walk(node.listing, h, reverse)
          ensures e.history[..|history|] == history
        {
          assert e.history[..|history|] == e.history[..|h|][..|history|];
        }
      }
      WalkFromBounds(siblings, index + 1, history, reverse);
    }
  }

  /** No yielded name starts with `.`, at any depth. */
  lemma {:induction false} WalkHidesDotNames(listing: Option<seq<Node>>, history: seq<bool>, reverse: bool)
    requires |history| < MAX_DEPTH
    ensures forall e :: e in Walk(listing, history, reverse) ==> !StartsWith(e.name, ".")
    decreases MAX_DEPTH - |history|, 1, 0
  {
    if listing.Some? {
      WalkFromHidesDotNames(Children(listing.value, reverse), 0, history, reverse);
    }
  }

  lemma {:induction false} WalkFromHidesDotNames(siblings: seq<Node>, index: nat, history: seq<bool>, reverse: bool)
    requires |history| < MAX_DEPTH && index <= |siblings|
    requires forall x :: x in siblings ==> !StartsWith(x.name, ".")
    ensures forall e :: e in WalkFrom(siblings, index, history, reverse) ==> !StartsWith(e.name, ".")
    decreases MAX_DEPTH - |history|, 0, |siblings| - index
  {
    if index < |siblings| {
      var node := siblings[index];
      var h := history + [index == |siblings| - 1];
      if TypeOf(node) == Directory && |h| < MAX_DEPTH {
        WalkHidesDotNames(node.listing, h, reverse);
      }
      WalkFromHidesDotNames(siblings, index + 1, history, reverse);
    }
  }

  /** The entries of a walk whose history has exactly `depth` end states, in order. */
  function AtDepth(s: seq<Listed>, depth: nat): (r: seq<Listed>)
    ensures forall e :: e in r <==> e in s && |e.history| == depth
  {
    if s == [] then []
    else (if |s[0].history| == depth then [s[0]] else []) + AtDepth(s[1..], depth)
  }

  lemma {:induction false} AtDepthConcat(a: seq<Listed>, b: seq<Listed>, depth: nat)
    ensures AtDepth(a + b, depth) == AtDepth(a, depth) + AtDepth(b, depth)
  {
    if a == [] {
      assert a + b == b;
    } else {
      assert (a + b)[1..] == a[1..] + b;
      AtDepthConcat(a[1..], b, depth);
    }
  }

  lemma {:induction false} AtDepthNone(s: seq<Listed>, depth: nat)
    requires forall e :: e in s ==> |e.history| != depth
    ensures AtDepth(s, depth) == []
  {
    if s != [] {
      assert s[0] in s;
      assert forall e :: e in s[1..] ==> e in s;
      AtDepthNone(s[1..], depth);
    }
  }

  /**
   * `level` lists the siblings from `index` on, one triple each, in order, with end
   * state true for the final sibling and false for every other.
   */
  ghost predicate IsLevel(level: seq<Listed>, siblings: seq<Node>, index: nat, history: seq<bool>)
    requires index <= |siblings|
  {
    |level| == |siblings| - index
    && forall k :: 0 <= k < |level| ==>
      level[k] == Listed(siblings[index + k].name, TypeOf(siblings[index + k]),
                         history + [index + k == |siblings| - 1])
  }

  lemma LevelCons(rest: seq<Listed>, siblings: seq<Node>, index: nat, history: seq<bool>)
    requires index < |siblings| && IsLevel(rest, siblings, index + 1, history)
    ensures IsLevel([Listed(siblings[index].name, TypeOf(siblings[index]), history + [index == |siblings| - 1])] + rest,
                    siblings, index, history)
  {
    var level := [Listed(siblings[index].name, TypeOf(siblings[index]), history + [index == |siblings| - 1])] + rest;
    forall k | 0 <= k < |level|
      ensures level[k] == Listed(siblings[index + k].name, TypeOf(siblings[index + k]),
                                 history + [index + k == |siblings| - 1])
    {
      if k > 0 {
        assert level[k] == rest[k - 1];
        assert index + 1 + (k - 1) == index + k;
      }
    }
  }

  /**
   * The siblings from `index` on appear one level below `history`, each exactly
   * once, in order, with end state true for the final sibling and false for
   * every other, whatever their subtrees hold.
   */
  lemma {:induction false} WalkFromLevel(siblings: seq<Node>, index: nat, history: seq<bool>, reverse: bool)
    requires |history| < MAX_DEPTH && index <= |siblings|
    ensures IsLevel(AtDepth(WalkFrom(siblings, index, history, reverse), |history| + 1), siblings, index, history)
    decreases |siblings| - index
  {
    if index < |siblings| {
      var node := siblings[index];
      var t := TypeOf(node);
      var h := history + [index == |siblings| - 1];
      var head := [Listed(node.name, t, h)];
      var below := if t == Directory && |h| < MAX_DEPTH then Walk(node.listing, h, reverse) else [];
      var rest := WalkFrom(siblings, index + 1, history, reverse);
      assert WalkFrom(siblings, index, history, reverse) == head + below + rest;
      if t == Directory && |h| < MAX_DEPTH {
        WalkBounds(node.listing, h, reverse);
      }
      AtDepthNone(below, |history| + 1);
      AtDepthConcat(head + below, rest, |history| + 1);
      AtDepthConcat(head, below, |history| + 1);
      assert AtDepth(head, |history| + 1) == head;
      var restLevel := AtDepth(rest, |history| + 1);
      WalkFromLevel(siblings, index + 1, history, reverse);
      assert AtDepth(WalkFrom(siblings, index, history, reverse), |history| + 1) == head + restLevel;
      LevelCons(restLevel, siblings, index, history);
    }
  }

  /**
   * The direct children of a listed directory: exactly its visible entries, sorted
   * by name, each once; the final one alone is marked last.
   */
  lemma {:induction false} DirectChildren(listing: seq<Node>, history: seq<bool>, reverse: bool)
    requires |history| < MAX_DEPTH
    ensures var children := Children(listing, reverse);
      var level := AtDepth(Walk(Some(listing), history, reverse), |history| + 1);
      |level| == |children|
      && forall k :: 0 <= k < |level| ==>
        level[k] == Listed(children[k].name, TypeOf(children[k]), history + [k == |children| - 1])
  {
    WalkFromLevel(Children(listing, reverse), 0, history, reverse);
  }

  /**
   * Adding a hidden entry anywhere in a listing changes nothing in the walk, so in
   * particular it never changes which child is marked last.
   */
  lemma HiddenEntryIrrelevant(listing: seq<Node>, i: nat, x: Node, history: seq<bool>, reverse: bool)
    requires i <= |listing| && StartsWith(x.name, ".") && |history| < MAX_DEPTH
    ensures Walk(Some(listing[..i] + [x] + listing[i..]), history, reverse)
      == Walk(Some(listing), history, reverse)
  {
    FilterHidden(listing[..i], x, listing[i..]);
    assert listing[..i] + listing[i..] == listing;
    assert Children(listing[..i] + [x] + listing[i..], reverse) == Children(listing, reverse);
  }

  lemma FilterHidden(front: seq<Node>, x: Node, back: seq<Node>)
    requires StartsWith(x.name, ".")
    ensures FilterPrefix(front + [x] + back, ".") == FilterPrefix(front + back, ".")
  {
    assert FilterPrefix([x], ".") == [] by {
      assert [x][1..] == [];
    }
    FilterPrefixConcat(front + [x], back, ".");
    FilterPrefixConcat(front, [x], ".");
    FilterPrefixConcat(front, back, ".");
  }

  /** Both entry points walk from an empty history and never yield the start directory. */
  lemma EntriesBelowStart(start: Option<seq<Node>>, reverse: bool)
    ensures forall e :: e in Walk(start, [], reverse) ==> 1 <= |e.history| <= MAX_DEPTH
  {
    WalkBounds(start, [], reverse);
  }

  /**
   * `b` may follow `a` in a depth-first, pre-order walk: either `a` is a directory
   * and `b` one of its children, or `b` is a later sibling of `a` or of one of its
   * ancestors.
   */
  predicate Step(a: Listed, b: Listed)
  {
    (a.entryType == Directory && |b.history| == |a.history| + 1 && b.history[..|a.history|] == a.history)
    || (1 <= |b.history| <= |a.history|
        && b.history[..|b.history| - 1] == a.history[..|b.history| - 1])
  }

  predicate PreOrder(s: seq<Listed>)
  {
    forall i :: 0 <= i < |s| - 1 ==> Step(s[i], s[i + 1])
  }

  lemma PreOrderConcat(a: seq<Listed>, b: seq<Listed>)
    requires PreOrder(a) && PreOrder(b)
    requires a != [] && b != [] ==> Step(a[|a| - 1], b[0])
    ensures PreOrder(a + b)
  {
    var s := a + b;
    forall i | 0 <= i < |s| - 1
      ensures Step(s[i], s[i + 1])
    {
      if i + 1 < |a| {
        assert s[i] == a[i] && s[i + 1] == a[i + 1];
      } else if i + 1 == |a| {
        assert s[i] == a[|a| - 1] && s[i + 1] == b[0];
      } else {
        assert s[i] == b[i - |a|] && s[i + 1] == b[i - |a| + 1];
      }
    }
  }

  /**
   * The walk is pre-order: it opens with a child of the directory walked, and each
   * entry is followed by its own first child or, once its subtree is done, by
   * the next sibling of it or of an ancestor.
   */
  lemma {:induction false} WalkPreOrder(listing: Option<seq<Node>>, history: seq<bool>, reverse: bool)
    requires |history| < MAX_DEPTH
    ensures PreOrder(Walk(listing, history, reverse))
    ensures Walk(listing, history, reverse) != [] ==>
      var first := Walk(listing, history, reverse)[0];
      |first.history| == |history| + 1 && first.history[..|history|] == history
    decreases MAX_DEPTH - |history|, 1, 0
  {
    if listing.Some? {
      WalkFromPreOrder(Children(listing.value, reverse), 0, history, reverse);
    }
  }

  lemma {:induction false} WalkFromPreOrder(siblings: seq<Node>, index: nat, history: seq<bool>, reverse: bool)
    requires |history| < MAX_DEPTH && index <= |siblings|
    ensures PreOrder(WalkFrom(siblings, index, history, reverse))
    ensures WalkFrom(siblings, index, history, reverse) != [] ==>
      var first := WalkFrom(siblings, index, history, reverse)[0];
      |first.history| == |history| + 1 && first.history[..|history|] == history
    decreases MAX_DEPTH - |history|, 0, |siblings| - index
  {
    if index < |siblings| {
      var node := siblings[index];
      var h := history + [index == |siblings| - 1];
      var head := [Listed(node.name, TypeOf(node), h)];
      var below := if TypeOf(node) == Directory && |h| < MAX_DEPTH then Walk(node.listing, h, reverse) else [];
      var rest := WalkFrom(siblings, index + 1, history, reverse);
      WalkFromStep(siblings, index, history, reverse);
      assert h[..|history|] == history;
      if below != [] {
        WalkPreOrder(node.listing, h, reverse);
        WalkBounds(node.listing, h, reverse);
      }
      WalkFromPreOrder(siblings, index + 1, history, reverse);
      PreOrderPiece(head, below, rest, history, h);
    }
  }

  /**
   * A sibling's triple, its pre-order subtree below it, then the pre-order walk of
   * the later siblings form a pre-order walk that opens with the triple.
   */
  lemma PreOrderPiece(head: seq<Listed>, below: seq<Listed>, rest: seq<Listed>, history: seq<bool>, h: seq<bool>)
    requires |head| == 1 && head[0].history == h && |h| == |history| + 1 && h[..|history|] == history
    requires PreOrder(below) && PreOrder(rest)
    requires below != [] ==>
      (head[0].entryType == Directory && |below[0].history| == |h| + 1 && below[0].history[..|h|] == h)
    requires forall e :: e in below ==> |h| < |e.history| && e.history[..|h|] == h
    requires rest != [] ==> |rest[0].history| == |history| + 1 && rest[0].history[..|history|] == history
    ensures PreOrder(head + below + rest) && (head + below + rest)[0] == head[0]
  {
    if below != [] {
      ChildStep(head[0], below[0]);
    }
    PreOrderConcat(head, below);
    if rest != [] {
      FrontExtends(head, below, history, h);
      SiblingStep((head + below)[|head + below| - 1], rest[0], history);
    }
    PreOrderConcat(head + below, rest);
  }

  /** One step of a `WalkFrom`: the sibling's triple, its subtree, then the later siblings. */
  lemma WalkFromStep(siblings: seq<Node>, index: nat, history: seq<bool>, reverse: bool)
    requires |history| < MAX_DEPTH && index < |siblings|
    ensures var node := siblings[index];
      var h := history + [index == |siblings| - 1];
      WalkFrom(siblings, index, history, reverse)
        == [Listed(node.name, TypeOf(node), h)]
           + (if TypeOf(node) == Directory && |h| < MAX_DEPTH then Walk(node.listing, h, reverse) else [])
           + WalkFrom(siblings, index + 1, history, reverse)
  {
  }

  /** The stretch of the walk one round of `_traverse` yields, and what is left after it. */
  lemma RoundSplit(siblings: seq<Node>, index: nat, history: seq<bool>, reverse: bool, walked: seq<Listed>)
    requires |history| < MAX_DEPTH && index < |siblings|
    requires walked == Below(siblings[index], history + [index == |siblings| - 1], reverse)
    ensures ([Listed(siblings[index].name, TypeOf(siblings[index]), history + [index == |siblings| - 1])] + walked)
              + WalkFrom(siblings, index + 1, history, reverse)
            == WalkFrom(siblings, index, history, reverse)
  {
    WalkFromStep(siblings, index, history, reverse);
  }

  lemma ChildStep(a: Listed, b: Listed)
    requires a.entryType == Directory
    requires |b.history| == |a.history| + 1 && b.history[..|a.history|] == a.history
    ensures Step(a, b)
  {
  }

  lemma SiblingStep(a: Listed, b: Listed, history: seq<bool>)
    requires |a.history| > |history| && a.history[..|history|] == history
    requires |b.history| == |history| + 1 && b.history[..|history|] == history
    ensures Step(a, b)
  {
  }

  /** The last triple of a sibling and its subtree still extends the parent's history. */
  lemma FrontExtends(head: seq<Listed>, below: seq<Listed>, history: seq<bool>, h: seq<bool>)
    requires |head| == 1 && head[0].history == h && |h| == |history| + 1 && h[..|history|] == history
    requires forall e :: e in below ==> |h| < |e.history| && e.history[..|h|] == h
    ensures var last := (head + below)[|head + below| - 1];
      |last.history| > |history| && last.history[..|history|] == history
  {
    if below != [] {
      assert below[|below| - 1] in below;
      var last := below[|below| - 1].history;
      assert last[..|history|] == last[..|h|][..|history|];
      assert (head + below)[|head + below| - 1] == below[|below| - 1];
    }
  }

  /**
   * Each sibling owns the run of entries right after its triple: that run is
   * exactly the walk of the sibling's own listing when it is a directory below
   * `MAX_DEPTH`, and empty otherwise; every entry of it lies strictly below the
   * sibling; and the entry right after it is the next sibling, one level below
   * `history`, or the walk of the siblings ends there.
   */
  lemma SubtreeRun(siblings: seq<Node>, index: nat, history: seq<bool>, reverse: bool)
    requires |history| < MAX_DEPTH && index < |siblings|
    ensures var node := siblings[index];
      var h := history + [index == |siblings| - 1];
      var s := WalkFrom(siblings, index, history, reverse);
      var sub := if TypeOf(node) == Directory && |h| < MAX_DEPTH then Walk(node.listing, h, reverse) else [];
      1 + |sub| <= |s|
      && s[0] == Listed(node.name, TypeOf(node), h)
      && s[1..1 + |sub|] == sub
      && (forall e :: e in sub ==> |h| < |e.history| && e.history[..|h|] == h)
      && (index + 1 < |siblings| ==>
            1 + |sub| < |s|
            && s[1 + |sub|] == Listed(siblings[index + 1].name, TypeOf(siblings[index + 1]),
                                      history + [index + 1 == |siblings| - 1]))
      && (index + 1 == |siblings| ==> |s| == 1 + |sub|)
  {
    var node := siblings[index];
    var h := history + [index == |siblings| - 1];
    var sub := if TypeOf(node) == Directory && |h| < MAX_DEPTH then Walk(node.listing, h, reverse) else [];
    var head := [Listed(node.name, TypeOf(node), h)];
    var rest := WalkFrom(siblings, index + 1, history, reverse);
    WalkFromStep(siblings, index, history, reverse);
    var s := head + sub + rest;
    assert s[1..1 + |sub|] == sub;
    if TypeOf(node) == Directory && |h| < MAX_DEPTH {
      WalkBounds(node.listing, h, reverse);
    }
    if index + 1 < |siblings| {
      WalkFromStep(siblings, index + 1, history, reverse);
      assert s[1 + |sub|] == rest[0];
    }
  }

  // ----- worked examples -----

  /** A regular, non-executable file whose probes all succeed. */
  function PlainFile(name: string): Node
  {
    Node(name, Some(false), Some(false), false, None)
  }

  /** A directory whose listing succeeds with `children`. */
  function Dir(name: string, children: seq<Node>): Node
  {
    Node(name, Some(false), Some(true), false, Some(children))
  }

  /** A listing with no hidden entry survives `filter_prefix` whole. */
  lemma {:induction false} FilterPrefixKeepsVisible(entries: seq<Node>)
    requires forall x :: x in entries ==> !StartsWith(x.name, ".")
    ensures FilterPrefix(entries, ".") == entries
  {
    if entries != [] {
      assert entries[0] in entries;
      assert forall x :: x in entries[1..] ==> x in entries;
      FilterPrefixKeepsVisible(entries[1..]);
      assert entries == [entries[0]] + entries[1..];
    }
  }

  /**
   * A start directory holding an empty `sub/` and `file.txt`: ascending name order
   * puts `file.txt` first, so `sub` is the last sibling and the empty listing
   * adds nothing below it.
   */
  lemma ForwardExample()
    ensures Walk(Some([Dir("sub", []), PlainFile("file.txt")]), [], false)
      == [Listed("file.txt", File, [false]), Listed("sub", Directory, [true])]
  {
    ForwardChildren();
    ForwardSiblings();
  }

  lemma ForwardChildren()
    ensures Children([Dir("sub", []), PlainFile("file.txt")], false) == [PlainFile("file.txt"), Dir("sub", [])]
  {
    var listing := [Dir("sub", []), PlainFile("file.txt")];
    assert forall x :: x in listing ==> !StartsWith(x.name, ".") by {
      assert "sub"[..1] == "s" && "file.txt"[..1] == "f";
    }
    FilterPrefixKeepsVisible(listing);
    ForwardSortTwo();
  }

  lemma ForwardSortTwo()
    ensures SortByName([Dir("sub", []), PlainFile("file.txt")], false) == [PlainFile("file.txt"), Dir("sub", [])]
  {
    var sub, file := Dir("sub", []), PlainFile("file.txt");
    SortSingle(sub, false);
    assert [sub, file][..1] == [sub];
    assert LexLess(file.name, sub.name);
    InsertFront(file, [sub], false);
  }

  lemma ForwardSiblings()
    ensures WalkFrom([PlainFile("file.txt"), Dir("sub", [])], 0, [], false)
      == [Listed("file.txt", File, [false]), Listed("sub", Directory, [true])]
  {
    var sorted := [PlainFile("file.txt"), Dir("sub", [])];
    assert Walk(Some([]), [true], false) == [];
    assert WalkFrom(sorted, 2, [], false) == [];
    assert WalkFrom(sorted, 1, [], false) == [Listed("sub", Directory, [true])] by {
      assert [] + [true] == [true];
    }
    assert [] + [false] == [false];
  }

  /**
   * Reverse order over `a`, `b`, `c` yields `c`, `b`, `a`; the end state marks the
   * final entry of that order, `a`.
   */
  lemma ReverseExample()
    ensures Walk(Some([PlainFile("a"), PlainFile("b"), PlainFile("c")]), [], true)
      == [Listed("c", File, [false]), Listed("b", File, [false]), Listed("a", File, [true])]
  {
    ReverseChildren();
    ReverseSiblings();
  }

  lemma ReverseChildren()
    ensures Children([PlainFile("a"), PlainFile("b"), PlainFile("c")], true)
      == [PlainFile("c"), PlainFile("b"), PlainFile("a")]
  {
    var listing := [PlainFile("a"), PlainFile("b"), PlainFile("c")];
    assert forall x :: x in listing ==> !StartsWith(x.name, ".") by {
      assert "a"[..1] == "a" && "b"[..1] == "b" && "c"[..1] == "c";
    }
    FilterPrefixKeepsVisible(listing);
    ReverseSortThree();
  }

  lemma ReverseSortThree()
    ensures SortByName([PlainFile("a"), PlainFile("b"), PlainFile("c")], true)
      == [PlainFile("c"), PlainFile("b"), PlainFile("a")]
  {
    var a, b, c := PlainFile("a"), PlainFile("b"), PlainFile("c");
    ReverseSortTwo();
    assert [a, b, c][..2] == [a, b];
    assert LexLess("b", "c");
    InsertFront(c, [b, a], true);
  }

  lemma ReverseSortTwo()
    ensures SortByName([PlainFile("a"), PlainFile("b")], true) == [PlainFile("b"), PlainFile("a")]
  {
    var a, b := PlainFile("a"), PlainFile("b");
    SortSingle(a, true);
    assert [a, b][..1] == [a];
    assert LexLess("a", "b");
    InsertFront(b, [a], true);
  }

  lemma SortSingle(x: Node, reverse: bool)
    ensures SortByName([x], reverse) == [x]
  {
    assert [x][..0] == [];
  }

  lemma ReverseSiblings()
    ensures WalkFrom([PlainFile("c"), PlainFile("b"), PlainFile("a")], 0, [], true)
      == [Listed("c", File, [false]), Listed("b", File, [false]), Listed("a", File, [true])]
  {
    var sorted := [PlainFile("c"), PlainFile("b"), PlainFile("a")];
    assert WalkFrom(sorted, 3, [], true) == [];
    assert WalkFrom(sorted, 2, [], true) == [Listed("a", File, [true])] by {
      assert [] + [true] == [true];
    }
    assert WalkFrom(sorted, 1, [], true) == [Listed("b", File, [false]), Listed("a", File, [true])] by {
      assert [] + [false] == [false];
    }
    assert [] + [false] == [false];
  }

  lemma InsertFront(x: Node, s: seq<Node>, reverse: bool)
    requires SortedByName(s, reverse) && s != [] && Before(x, s[0], reverse)
    ensures Insert(x, s, reverse) == [x] + s
  {
  }

  // ----- the generator with history objects -----

  /** Triple `e` is `l` once its history object is read as its end states. */
  ghost predicate Holds(e: Entry, l: Listed)
    reads e.history
  {
    e.name == l.name && e.entryType == l.entryType
    && e.history.Valid() && e.history.Contents == l.history
  }

  /** Pairing two runs of triples with two stretches of the walk pairs their concatenations. */
  lemma HoldsConcat(a: seq<Entry>, b: seq<Entry>, da: seq<Listed>, db: seq<Listed>)
    requires |a| == |da| && |b| == |db|
    requires forall i :: 0 <= i < |a| ==> Holds(a[i], da[i])
    requires forall i :: 0 <= i < |b| ==> Holds(b[i], db[i])
    ensures forall i :: 0 <= i < |a + b| ==> Holds((a + b)[i], (da + db)[i])
  {
    forall i | 0 <= i < |a + b|
      ensures Holds((a + b)[i], (da + db)[i])
    {
      if i < |a| {
        assert (a + b)[i] == a[i] && (da + db)[i] == da[i];
      } else {
        assert (a + b)[i] == b[i - |a|] && (da + db)[i] == db[i - |a|];
      }
    }
  }

  /** No two triples share a history object. */
  ghost predicate DistinctHistories(s: seq<Entry>)
  {
    forall i, j :: 0 <= i < j < |s| ==> s[i].history != s[j].history
  }

  /** A triple whose history object is not among those of a run, put in front of it. */
  lemma HoldsCons(e: Entry, b: seq<Entry>, l: Listed, db: seq<Listed>)
    requires Holds(e, l) && |b| == |db|
    requires forall i :: 0 <= i < |b| ==> Holds(b[i], db[i])
    requires DistinctHistories(b)
    requires forall i :: 0 <= i < |b| ==> b[i].history != e.history
    ensures forall i :: 0 <= i < |b| + 1 ==> Holds(([e] + b)[i], ([l] + db)[i])
    ensures DistinctHistories([e] + b)
  {
    HoldsConcat([e], b, [l], db);
    DistinctConcat([e], b);
  }

  /** Two runs with no history object in common concatenate to a run with distinct ones. */
  lemma DistinctConcat(a: seq<Entry>, b: seq<Entry>)
    requires DistinctHistories(a) && DistinctHistories(b)
    requires forall i, j :: 0 <= i < |a| && 0 <= j < |b| ==> a[i].history != b[j].history
    ensures DistinctHistories(a + b)
  {
    forall i, j | 0 <= i < j < |a + b|
      ensures (a + b)[i].history != (a + b)[j].history
    {
      if j < |a| {
        assert (a + b)[i] == a[i] && (a + b)[j] == a[j];
      } else if i < |a| {
        assert (a + b)[i] == a[i] && (a + b)[j] == b[j - |a|];
      } else {
        assert (a + b)[i] == b[i - |a|] && (a + b)[j] == b[j - |a|];
      }
    }
  }

  /**
   * `construct_from_history`: a new history holding `history`'s end states and then
   * `isEnd`; DepthError (from `append`) exactly when `history` is already full.
   */
  method ConstructFromHistory(history: EndStateHistory, isEnd: bool) returns (r: Result<EndStateHistory, HistoryError>)
    requires history.Valid()
    ensures r.Success? <==> |history.Contents| < MAX_DEPTH
    ensures r.Failure? ==> r.error == DepthError
    ensures r.Success? ==> fresh(r.value) && r.value.Valid()
    ensures r.Success? ==> r.value.Contents == history.Contents + [isEnd]
  {
    var newHistory := new EndStateHistory.Empty();
    var extended := newHistory.Extend(history);
    assert extended.Pass?;
    var appended := newHistory.Append(isEnd);
    if appended.Fail? {
      return Failure(appended.error);
    }
    return Success(newHistory);
  }

  /**
   * `_traverse`: the triples for one directory and, depth first, its
   * subdirectories, each holding a history object of its own.
   */
  method Traverse(listing: Option<seq<Node>>, history: EndStateHistory, reverse: bool) returns (out: seq<Entry>)
    requires history.Valid() && |history.Contents| < MAX_DEPTH
    ensures |out| == |Walk(listing, history.Contents, reverse)|
    ensures forall i :: 0 <= i < |out| ==> Holds(out[i], Walk(listing, history.Contents, reverse)[i])
    ensures forall i :: 0 <= i < |out| ==> fresh(out[i].history)
    ensures DistinctHistories(out)
    decreases MAX_DEPTH - |history.Contents|, 4
  {
    out := [];
    if listing.None? {
      return;
    }
    var filtered := FilterPrefix(listing.value, ".");
    var sorted := SortByName(filtered, reverse);
    out := VisitSiblings(sorted, history, reverse);
  }

  /** The loop of `_traverse` over the sorted, filtered siblings. */
  method VisitSiblings(sorted: seq<Node>, history: EndStateHistory, reverse: bool) returns (out: seq<Entry>)
    requires history.Valid() && |history.Contents| < MAX_DEPTH
    ensures |out| == |WalkFrom(sorted, 0, history.Contents, reverse)|
    ensures forall i :: 0 <= i < |out| ==> Holds(out[i], WalkFrom(sorted, 0, history.Contents, reverse)[i])
    ensures forall i :: 0 <= i < |out| ==> fresh(out[i].history)
    ensures DistinctHistories(out)
    decreases MAX_DEPTH - |history.Contents|, 3
  {
    out := [];
    ghost var done: seq<Listed> := [];
    ghost var contents := history.Contents;
    ghost var whole := WalkFrom(sorted, 0, contents, reverse);
    ghost var rest := whole;
    for index := 0 to |sorted|
      invariant history.Valid() && history.Contents == contents
      invariant rest == WalkFrom(sorted, index, contents, reverse)
      invariant done + rest == whole
      invariant |out| == |done| && (forall i :: 0 <= i < |out| ==> Holds(out[i], done[i]))
      invariant forall i :: 0 <= i < |out| ==> fresh(out[i].history)
      invariant DistinctHistories(out)
    {
      ghost var before := out;
      var part;
      out, part, done, rest := VisitNext(sorted, index, history, contents, reverse, out, done, rest);
      forall i | 0 <= i < |out|
        ensures fresh(out[i].history)
      {
        if i < |before| {
          assert out[i] == before[i];
        } else {
          assert out[i] == part[i - |before|];
        }
      }
    }
    assert rest == [];
    assert done + [] == done;
  }

  /**
   * One round of the loop in `VisitSiblings`: the triples of sibling `index` and its
   * subtree are appended to `out`, each with a new history object of its own.
   */
  method VisitNext(sorted: seq<Node>, index: nat, history: EndStateHistory, ghost contents: seq<bool>, reverse: bool,
                   out: seq<Entry>, ghost done: seq<Listed>, ghost rest: seq<Listed>)
    returns (next: seq<Entry>, part: seq<Entry>, ghost nextDone: seq<Listed>, ghost nextRest: seq<Listed>)
    requires history.Valid() && history.Contents == contents && |contents| < MAX_DEPTH && index < |sorted|
    requires rest == WalkFrom(sorted, index, contents, reverse)
    requires |out| == |done| && (forall i :: 0 <= i < |out| ==> Holds(out[i], done[i]))
    requires DistinctHistories(out)
    ensures nextRest == WalkFrom(sorted, index + 1, contents, reverse)
    ensures nextDone + nextRest == done + rest
    ensures |next| == |nextDone| && (forall i :: 0 <= i < |next| ==> Holds(next[i], nextDone[i]))
    ensures DistinctHistories(next)
    ensures next == out + part
    ensures forall i :: 0 <= i < |part| ==> fresh(part[i].history)
    decreases MAX_DEPTH - |contents|, 2
  {
    ghost var expected;
    part, expected, nextRest := VisitEntry(sorted, index, history, contents, reverse, rest);
    HoldsConcat(out, part, done, expected);
    assert forall i, j :: 0 <= i < |out| && 0 <= j < |part| ==> out[i].history != part[j].history;
    DistinctConcat(out, part);
    next, nextDone := out + part, done + expected;
    assert nextDone + nextRest == done + (expected + nextRest);
  }

  /**
   * One round of the loop in `_traverse`: classify the entry, give it its own
   * history, yield it, and descend when it is a directory below `MAX_DEPTH`.
   * `expected` is the stretch of the walk that this round yields.
   */
  method VisitEntry(sorted: seq<Node>, index: nat, history: EndStateHistory, ghost contents: seq<bool>, reverse: bool,
                    ghost rest: seq<Listed>)
    returns (part: seq<Entry>, ghost expected: seq<Listed>, ghost nextRest: seq<Listed>)
    requires history.Valid() && history.Contents == contents && |contents| < MAX_DEPTH && index < |sorted|
    requires rest == WalkFrom(sorted, index, contents, reverse)
    ensures nextRest == WalkFrom(sorted, index + 1, contents, reverse)
    ensures expected + nextRest == rest
    ensures |part| == |expected|
    ensures forall i :: 0 <= i < |part| ==> Holds(part[i], expected[i])
    ensures forall i :: 0 <= i < |part| ==> fresh(part[i].history)
    ensures DistinctHistories(part)
    decreases MAX_DEPTH - |contents|, 1
  {
    var node := sorted[index];
    var entryType := GetType(node.isSymlink, node.isDir, node.executable);
    var constructed := ConstructFromHistory(history, index == |sorted| - 1);
    var subentryHistory := constructed.value;
    ghost var h := contents + [index == |sorted| - 1];
    var below;
    ghost var walked;
    below, walked := VisitBelow(node, entryType, subentryHistory, h, reverse);
    var entry := Entry(node.name, entryType, subentryHistory);
    ghost var listed := Listed(node.name, entryType, h);
    HoldsCons(entry, below, listed, walked);
    part, expected := [entry] + below, [listed] + walked;
    forall i | 0 <= i < |part|
      ensures fresh(part[i].history)
    {
      if 0 < i {
        assert part[i] == below[i - 1];
      }
    }
    nextRest := WalkFrom(sorted, index + 1, contents, reverse);
    RoundSplit(sorted, index, contents, reverse, walked);
  }

  /**
   * The descent at the end of one round: the walk below the entry when it is a
   * directory and its history is still shorter than `MAX_DEPTH`, else nothing.
   */
  method VisitBelow(node: Node, entryType: EntryType, subentryHistory: EndStateHistory, ghost h: seq<bool>, reverse: bool)
    returns (below: seq<Entry>, ghost walked: seq<Listed>)
    requires subentryHistory.Valid() && subentryHistory.Contents == h && 0 < |h| <= MAX_DEPTH
    requires entryType == TypeOf(node)
    ensures walked == Below(node, h, reverse)
    ensures |below| == |walked|
    ensures forall i :: 0 <= i < |below| ==> Holds(below[i], walked[i])
    ensures forall i :: 0 <= i < |below| ==> fresh(below[i].history)
    ensures DistinctHistories(below)
    decreases MAX_DEPTH - |h| + 1, 0
  {
    below, walked := [], [];
    if entryType == Directory && subentryHistory.Length() < MAX_DEPTH {
      below := Traverse(node.listing, subentryHistory, reverse);
      walked := Walk(node.listing, h, reverse);
    }
  }

  /** `traverse_directory`: the walk below `start`, in ascending name order. */
  method TraverseDirectory(start: Option<seq<Node>>) returns (out: seq<Entry>)
    ensures |out| == |Walk(start, [], false)|
    ensures forall i :: 0 <= i < |out| ==> Holds(out[i], Walk(start, [], false)[i])
    ensures forall i :: 0 <= i < |out| ==> fresh(out[i].history)
    ensures DistinctHistories(out)
  {
    var history := new EndStateHistory.Empty();
    out := Traverse(start, history, false);
  }

  /** `reverse_traverse_directory`: the same walk in descending name order. */
  method ReverseTraverseDirectory(start: Option<seq<Node>>) returns (out: seq<Entry>)
    ensures |out| == |Walk(start, [], true)|
    ensures forall i :: 0 <= i < |out| ==> Holds(out[i], Walk(start, [], true)[i])
    ensures forall i :: 0 <= i < |out| ==> fresh(out[i].history)
    ensures DistinctHistories(out)
  {
    var history := new EndStateHistory.Empty();
    out := Traverse(start, history, true);
  }
}
