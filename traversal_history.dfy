/**
 * pytree's traversal history: an unbounded integer whose bit `i` records whether
 * the ancestor at depth `i` was the last of its siblings, a depth, and the `-1`
 * sentinel of a history that has recorded nothing yet.
 */
module PyTraversalHistory {
  import opened Wrappers
  import opened Bits

  /** The maximum traversal depth (`constants.MAX_DEPTH`). */
  const MAX_DEPTH: nat := 30

  /** Raised when an update falls outside the recorded depths or the maximum depth. */
  datatype DepthError = DepthError

  class TraversalHistory {
    var history: int
    var depth: nat

    /** The end states recorded, outermost first: the low `depth` bits of `history`. */
    ghost function Ends(): seq<bool>
      reads this
    {
      Unpack(history, depth)
    }

    /**
     * The shape `add_history` builds from the default: either nothing recorded yet,
     * or no bit set at or above `depth`.
     */
    ghost predicate WellFormed()
      reads this
    {
      depth == 0 || 0 <= history < Pow2(depth)
    }

    /** `TraversalHistory()`: the `-1` sentinel at depth 0, recording nothing. */
    constructor Default()
      ensures history == -1 && depth == 0
      ensures Ends() == [] && WellFormed()
    {
      history := -1;
      depth := 0;
    }

    /** `TraversalHistory(history, depth)` */
    constructor (history: int, depth: nat)
      ensures this.history == history && this.depth == depth
    {
      this.history := history;
      this.depth := depth;
    }

    /**
     * `update_history(depth, value)`: DepthError unless `0 <= d < depth`; otherwise
     * bit `d` becomes `value` and nothing else changes.
     */
    method UpdateHistory(d: int, value: bool) returns (r: Outcome<DepthError>)
      modifies this
      ensures r.Pass? <==> 0 <= d < old(depth)
      ensures depth == old(depth)
      ensures r.Fail? ==> history == old(history)
      ensures r.Pass? ==> history == if value then SetBit(old(history), d) else ClearBit(old(history), d)
      ensures r.Pass? ==> Ends() == old(Ends())[d := value]
      ensures r.Pass? ==> forall i: nat :: i != d ==> Bit(history, i) == Bit(old(history), i)
      ensures old(WellFormed()) ==> WellFormed()
    {
      if d < 0 || d >= depth {
        return Fail(DepthError);
      }
      ghost var before := history;
      if value {
        history := SetBit(history, d);
      } else {
        history := ClearBit(history, d);
      }
      UnpackUpdate(before, depth, d, value);
      forall i: nat | i != d
        ensures Bit(history, i) == Bit(before, i)
      {
        if value {
          BitOfSetBit(before, d, i);
        } else {
          BitOfClearBit(before, d, i);
        }
      }
      if 0 <= before < Pow2(depth) {
        PackUnpack(before, depth);
        PackUpdate(Unpack(before, depth), d, value);
        PackBound(Unpack(before, depth)[d := value]);
      }
      return Pass;
    }

    /**
     * `add_history(is_end)`: DepthError at `MAX_DEPTH`; otherwise the sentinel is
     * reset to 0 at depth 0, bit `depth` is set when `isEnd`, the depth grows by
     * one, and the new `(history, depth)` is returned.
     */
    method AddHistory(isEnd: bool) returns (r: Result<(int, nat), DepthError>)
      modifies this
      ensures r.Failure? <==> old(depth) == MAX_DEPTH
      ensures r.Failure? ==> history == old(history) && depth == old(depth)
      ensures r.Success? ==> depth == old(depth) + 1 && r.value == (history, depth)
      ensures r.Success? ==> var base := if old(depth) == 0 then 0 else old(history);
        history == if isEnd then SetBit(base, old(depth)) else base
      ensures r.Success? && old(WellFormed()) ==> Ends() == old(Ends()) + [isEnd]
      ensures r.Success? && old(WellFormed()) ==> WellFormed()
    {
      if depth == MAX_DEPTH {
        return Failure(DepthError);
      }
      if depth == 0 {
        history := 0;
      }
      ghost var base := history;
      if isEnd {
        history := SetBit(history, depth);
      }
      ghost var d := depth;
      depth := depth + 1;
      if 0 <= base < Pow2(d) {
        NoBitAbove(base, d, d);
        BitsBelowKept(base, d, isEnd);
        if isEnd {
          SetBitValue(base, d);
        }
      }
      return Success((history, depth));
    }
  }

  /**
   * Recording one more end state on a history with no bit at or above `d` appends
   * that state to the low `d` bits.
   */
  lemma BitsBelowKept(base: int, d: nat, isEnd: bool)
    requires !Bit(base, d)
    ensures Unpack(if isEnd then SetBit(base, d) else base, d + 1) == Unpack(base, d) + [isEnd]
  {
    var h := if isEnd then SetBit(base, d) else base;
    UnpackExtend(h, d);
    if isEnd {
      assert Unpack(h, d) == Unpack(base, d) by {
        forall i | 0 <= i < d ensures Unpack(h, d)[i] == Unpack(base, d)[i] {
          BitOfSetBit(base, d, i);
        }
      }
      BitOfSetBit(base, d, d);
    }
  }
}
