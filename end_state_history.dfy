/**
 * gdtree's `EndStateHistory`: a bounded sequence of end states (was the entry at
 * this depth the last of its siblings?) packed into one integer, bit `i` for
 * depth `i`, plus its length. `Contents` is the sequence the two fields encode.
 */
module EndStateHistories {
  import opened Wrappers
  import opened Bits
  import opened GdUtils

  /** `ValueError`, `IndexError` and `DepthError` as raised by the class. */
  datatype HistoryError = ValueError | IndexError | DepthError

  class EndStateHistory {
    var history: nat
    var depth: nat
    ghost var Contents: seq<bool>

    /**
     * The representation invariant: the packed integer is exactly `Contents`, so in
     * particular no bit at or above `depth` is set (see `NoBitAtOrAboveDepth`).
     */
    ghost predicate Valid()
      reads this
    {
      depth == |Contents| <= MAX_DEPTH && history == Pack(Contents)
    }

    /** `EndStateHistory()` */
    constructor Empty()
      ensures Valid() && Contents == []
    {
      history := 0;
      depth := 0;
      Contents := [];
    }

    /** `EndStateHistory(input)` once the length check has passed: ORs `state << index` in. */
    constructor FromStates(input: seq<bool>)
      requires |input| <= MAX_DEPTH
      ensures Valid() && Contents == input
    {
      history := 0;
      depth := 0;
      Contents := [];
      new;
      depth := |input|;
      var index := 0;
      while index < |input|
        invariant 0 <= index <= |input| && depth == |input|
        invariant history == Pack(input[..index])
      {
        var state := if input[index] then 1 else 0;
        PackBound(input[..index]);
        OrDisjoint(history, state, index);
        assert input[..index + 1] == input[..index] + [input[index]];
        PackAppend(input[..index], [input[index]]);
        history := Or(history, Shl(state, index));
        index := index + 1;
      }
      assert input[..index] == input;
      Contents := input;
    }

    /** `EndStateHistory(input_history)`: `None` and `[]` give the empty history; too long a list raises. */
    static method Create(input: Option<seq<bool>>) returns (r: Result<EndStateHistory, HistoryError>)
      ensures r.Success? <==> input.None? || |input.value| <= MAX_DEPTH
      ensures r.Failure? ==> r.error == ValueError
      ensures r.Success? ==> fresh(r.value) && r.value.Valid()
      ensures r.Success? ==> r.value.Contents == if input.None? then [] else input.value
    {
      if input.Some? && |input.value| > 0 {
        if |input.value| > MAX_DEPTH {
          return Failure(ValueError);
        }
        var h := new EndStateHistory.FromStates(input.value);
        return Success(h);
      }
      var h := new EndStateHistory.Empty();
      return Success(h);
    }

    /** `__len__` */
    function Length(): (n: nat)
      reads this
      requires Valid()
      ensures n == |Contents| && n <= MAX_DEPTH
    {
      depth
    }

    /** `__getitem__`: `bool(history & (1 << key))`, or IndexError outside `[0, depth)`. */
    function Get(key: int): (r: Result<bool, HistoryError>)
      reads this
      requires Valid()
      ensures r.Success? <==> 0 <= key < |Contents|
      ensures r.Failure? ==> r.error == IndexError
      ensures r.Success? ==> r.value == Contents[key]
    {
      if key >= depth || key < 0 then Failure(IndexError)
      else
        PackBit(Contents, key);
        AndNonZeroPow2(history, key);
        Success(AndNonZero(history, Pow2(key)))
    }

    /** `__setitem__`: sets or clears bit `key`, or IndexError outside `[0, depth)`. */
    method Set(key: int, value: bool) returns (r: Outcome<HistoryError>)
      requires Valid()
      modifies this
      ensures Valid()
      ensures r.Pass? <==> 0 <= key < old(|Contents|)
      ensures r.Fail? ==> r.error == IndexError
      ensures Contents == if r.Pass? then old(Contents)[key := value] else old(Contents)
    {
      if key >= depth || key < 0 {
        return Fail(IndexError);
      }
      PackUpdate(Contents, key, value);
      if value {
        history := SetBit(history, key);
      } else {
        ClearBitValue(history, key);
        history := ClearBit(history, key);
      }
      Contents := Contents[key := value];
      return Pass;
    }

    /**
     * `append`: DepthError at `MAX_DEPTH`; otherwise grows `depth` and stores the
     * value through `Set`. The new top bit is already clear because of `Valid`.
     */
    method Append(value: bool) returns (r: Outcome<HistoryError>)
      requires Valid()
      modifies this
      ensures Valid()
      ensures r.Fail? <==> old(|Contents|) == MAX_DEPTH
      ensures r.Fail? ==> r.error == DepthError
      ensures Contents == if r.Pass? then old(Contents) + [value] else old(Contents)
    {
      if depth == MAX_DEPTH {
        return Fail(DepthError);
      }
      var prevDepth := depth;
      PackAppend(Contents, [false]);
      depth := depth + 1;
      Contents := Contents + [false];
      r := Set(prevDepth, value);
      assert r.Pass?;
      assert Contents == old(Contents) + [value];
    }

    /**
     * `extend`: DepthError if the lengths add up past `MAX_DEPTH`; otherwise ORs in
     * `other.history << depth`, which is concatenation because `history < 2^depth`.
     * `other` may be this very object; when it is another one it is not changed.
     */
    method Extend(other: EndStateHistory) returns (r: Outcome<HistoryError>)
      requires Valid() && other.Valid()
      modifies this
      ensures Valid()
      ensures r.Fail? <==> old(|Contents|) + old(|other.Contents|) > MAX_DEPTH
      ensures r.Fail? ==> r.error == DepthError
      ensures Contents == if r.Pass? then old(Contents) + old(other.Contents) else old(Contents)
      ensures other != this ==> other.Contents == old(other.Contents) && other.Valid()
    {
      if depth + other.depth > MAX_DEPTH {
        return Fail(DepthError);
      }
      ghost var mine, theirs := Contents, other.Contents;
      var otherHistory := other.history;
      var otherDepth := other.depth;
      otherHistory := Shl(otherHistory, depth);
      PackConcat(mine, theirs);
      history := Or(history, otherHistory);
      depth := depth + otherDepth;
      Contents := mine + theirs;
      return Pass;
    }

    /** `__iter__`: a fresh iterator positioned at depth 0. */
    method Iter() returns (it: StateHistoryIterator)
      requires Valid()
      ensures fresh(it) && it.Valid()
      ensures it.Elements == Contents && it.Index == 0
    {
      it := new StateHistoryIterator(this);
    }
  }

  /** `_StateHistoryIterator`: walks a one-bit mask from `1` up to `1 << len`. */
  class StateHistoryIterator {
    var lim: nat
    var mask: nat
    var history: nat
    /** The states being iterated and how many have been produced. */
    ghost var Elements: seq<bool>
    ghost var Index: nat

    ghost predicate Valid()
      reads this
    {
      Index <= |Elements| && lim == Pow2(|Elements|) && mask == Pow2(Index)
      && history == Pack(Elements)
    }

    constructor (h: EndStateHistory)
      requires h.Valid()
      ensures Valid() && Elements == h.Contents && Index == 0
    {
      lim := Pow2(h.Length());
      mask := 1;
      history := h.history;
      Elements := h.Contents;
      Index := 0;
    }

    /** `__next__`: the state at the next depth, or `None` for StopIteration. */
    method Next() returns (r: Option<bool>)
      requires Valid()
      modifies this
      ensures Valid() && Elements == old(Elements)
      ensures r.Some? <==> old(Index) < |Elements|
      ensures r.Some? ==> r.value == Elements[old(Index)] && Index == old(Index) + 1
      ensures r.None? ==> Index == old(Index)
    {
      Pow2Strict(Index, |Elements|);
      if mask < lim {
        var temp := mask;
        mask := mask * 2;
        PackBit(Elements, Index);
        AndNonZeroPow2(history, Index);
        r := Some(AndNonZero(history, temp));
        Index := Index + 1;
      } else {
        r := None;
      }
    }
  }

  /** ORing the second packed sequence in above the first packs their concatenation. */
  lemma PackConcat(a: seq<bool>, b: seq<bool>)
    ensures Or(Pack(a), Shl(Pack(b), |a|)) == Pack(a + b)
  {
    PackBound(a);
    OrDisjoint(Pack(a), Pack(b), |a|);
    PackAppend(a, b);
  }

  /** The packed integer of a valid history has no bit set at or above its length. */
  lemma NoBitAtOrAboveDepth(h: EndStateHistory, k: nat)
    requires h.Valid() && k >= h.depth
    ensures !Bit(h.history, k)
  {
    PackBound(h.Contents);
    NoBitAbove(h.history, h.depth, k);
  }
}
