/**
 * Python's unbounded integers read as bit strings. Every operation is defined by
 * halving, so for a negative integer it gives Python's infinite two's-complement
 * answer (Dafny's `/ 2` and `% 2` floor, as Python's `>>` does).
 */
module Bits {

  /** `1 << n` */
  function Pow2(n: nat): (r: nat)
    ensures r >= 1
  {
    if n == 0 then 1 else 2 * Pow2(n - 1)
  }

  /** `x << n` */
  function Shl(x: int, n: nat): int
  {
    x * Pow2(n)
  }

  /** Bit `k` of `h`, that is `(h >> k) & 1 == 1`. */
  function Bit(h: int, k: nat): bool
    decreases k
  {
    if k == 0 then h % 2 == 1 else Bit(h / 2, k - 1)
  }

  /** `h & m != 0` for a non-negative mask `m`. */
  function AndNonZero(h: int, m: nat): bool
    decreases m
  {
    if m == 0 then false
    else (h % 2 == 1 && m % 2 == 1) || AndNonZero(h / 2, m / 2)
  }

  /** `h | (1 << k)` */
  function SetBit(h: int, k: nat): int
    decreases k
  {
    if k == 0 then (if h % 2 == 1 then h else h + 1)
    else 2 * SetBit(h / 2, k - 1) + h % 2
  }

  /** `h & ~(1 << k)` */
  function ClearBit(h: int, k: nat): int
    decreases k
  {
    if k == 0 then h - h % 2
    else 2 * ClearBit(h / 2, k - 1) + h % 2
  }

  /** `a | b` on non-negative integers. */
  function Or(a: nat, b: nat): nat
    decreases a + b
  {
    if a == 0 then b
    else if b == 0 then a
    else 2 * Or(a / 2, b / 2) + (if a % 2 == 1 || b % 2 == 1 then 1 else 0)
  }

  /** The integer whose bit `i` is `s[i]` and whose higher bits are clear. */
  function Pack(s: seq<bool>): nat
  {
    if s == [] then 0 else (if s[0] then 1 else 0) + 2 * Pack(s[1..])
  }

  /** The low `n` bits of `h`, least significant first. */
  function Unpack(h: int, n: nat): (s: seq<bool>)
    ensures |s| == n
  {
    seq(n, i requires 0 <= i < n => Bit(h, i))
  }

  lemma {:induction false} Pow2Strict(i: nat, j: nat)
    ensures Pow2(i) < Pow2(j) <==> i < j
  {
    if i > 0 && j > 0 {
      Pow2Strict(i - 1, j - 1);
    } else if i == 0 && j > 0 {
      Pow2Strict(0, j - 1);
    } else if i > 0 && j == 0 {
      Pow2Strict(i - 1, 0);
    }
  }

  /** Testing against the one-bit mask `1 << k` reads bit `k`. */
  lemma {:induction false} AndNonZeroPow2(h: int, k: nat)
    decreases k
    ensures AndNonZero(h, Pow2(k)) == Bit(h, k)
  {
    if k > 0 {
      AndNonZeroPow2(h / 2, k - 1);
    }
  }

  /** Shifting by one more place doubles. */
  lemma ShlStep(x: int, n: nat)
    requires n > 0
    ensures Shl(x, n) == 2 * Shl(x, n - 1)
  {
    assert Pow2(n) == 2 * Pow2(n - 1);
  }

  /** Halving `2 * x + b` for a bit `b` gives back `x` and `b`. */
  lemma Halve(x: int, b: int)
    requires 0 <= b < 2
    ensures (2 * x + b) / 2 == x && (2 * x + b) % 2 == b
  {
  }

  /** `h | (1 << k)` sets bit `k` and no other. */
  lemma {:induction false} BitOfSetBit(h: int, k: nat, i: nat)
    decreases k
    ensures Bit(SetBit(h, k), i) == (i == k || Bit(h, i))
  {
    Halve(h / 2, h % 2);
    if k == 0 {
      if h % 2 == 0 {
        Halve(h / 2, 1);
        assert SetBit(h, k) == 2 * (h / 2) + 1;
      }
    } else {
      Halve(SetBit(h / 2, k - 1), h % 2);
      if i > 0 {
        BitOfSetBit(h / 2, k - 1, i - 1);
      }
    }
  }

  /** `h & ~(1 << k)` clears bit `k` and no other. */
  lemma {:induction false} BitOfClearBit(h: int, k: nat, i: nat)
    decreases k
    ensures Bit(ClearBit(h, k), i) == (i != k && Bit(h, i))
  {
    Halve(h / 2, h % 2);
    if k == 0 {
      Halve(h / 2, 0);
      assert ClearBit(h, k) == 2 * (h / 2);
    } else {
      Halve(ClearBit(h / 2, k - 1), h % 2);
      if i > 0 {
        BitOfClearBit(h / 2, k - 1, i - 1);
      }
    }
  }

  /** `h | (1 << k)` as arithmetic: adds `2^k` exactly when bit `k` was clear. */
  lemma {:induction false} SetBitValue(h: int, k: nat)
    decreases k
    ensures SetBit(h, k) == if Bit(h, k) then h else h + Pow2(k)
  {
    if k > 0 {
      SetBitValue(h / 2, k - 1);
    }
  }

  /** `h & ~(1 << k)` as arithmetic: subtracts `2^k` exactly when bit `k` was set. */
  lemma {:induction false} ClearBitValue(h: int, k: nat)
    decreases k
    ensures ClearBit(h, k) == if Bit(h, k) then h - Pow2(k) else h
  {
    if k > 0 {
      ClearBitValue(h / 2, k - 1);
    }
  }

  /** A non-negative integer below `2^n` has no bit set at or above `n`. */
  lemma {:induction false} NoBitAbove(h: int, n: nat, k: nat)
    requires 0 <= h < Pow2(n) && n <= k
    ensures !Bit(h, k)
  {
    if k > 0 {
      NoBitAbove(h / 2, if n == 0 then 0 else n - 1, k - 1);
    }
  }

  /** OR with a value shifted past every set bit of `a` is addition: the bits cannot collide. */
  lemma {:induction false} OrDisjoint(a: nat, b: nat, n: nat)
    requires a < Pow2(n)
    ensures Or(a, Shl(b, n)) == a + Shl(b, n)
  {
    if n > 0 && a != 0 && b != 0 {
      var x := Shl(b, n - 1);
      ShlStep(b, n);
      OrDisjoint(a / 2, b, n - 1);
    }
  }

  lemma {:induction false} PackBound(s: seq<bool>)
    ensures Pack(s) < Pow2(|s|)
  {
    if s != [] {
      PackBound(s[1..]);
    }
  }

  /** Bit `k` of the packed integer is element `k`. */
  lemma {:induction false} PackBit(s: seq<bool>, k: nat)
    requires k < |s|
    ensures Bit(Pack(s), k) == s[k]
  {
    if k > 0 {
      PackBit(s[1..], k - 1);
    }
  }

  /** Unpacking the low `|s|` bits of `Pack(s)` gives `s` back. */
  lemma UnpackPack(s: seq<bool>)
    ensures Unpack(Pack(s), |s|) == s
  {
    forall i | 0 <= i < |s| ensures Unpack(Pack(s), |s|)[i] == s[i] {
      PackBit(s, i);
    }
  }

  /** Packing a concatenation: the second part sits above the first. */
  lemma {:induction false} PackAppend(s: seq<bool>, t: seq<bool>)
    ensures Pack(s + t) == Pack(s) + Shl(Pack(t), |s|)
  {
    if s == [] {
      assert s + t == t;
    } else {
      assert (s + t)[1..] == s[1..] + t;
      PackAppend(s[1..], t);
      ShlStep(Pack(t), |s|);
    }
  }

  /** Updating element `k` is setting or clearing bit `k` of the packed integer. */
  lemma {:induction false} PackUpdate(s: seq<bool>, k: nat, v: bool)
    requires k < |s|
    ensures Pack(s[k := v]) == if v then SetBit(Pack(s), k) else ClearBit(Pack(s), k)
  {
    var b := if s[0] then 1 else 0;
    Halve(Pack(s[1..]), b);
    assert Pack(s) % 2 == b && Pack(s) / 2 == Pack(s[1..]);
    if k > 0 {
      assert s[k := v][1..] == s[1..][k - 1 := v];
      PackUpdate(s[1..], k - 1, v);
    }
  }

  /** A non-negative integer below `2^n` is the packing of its low `n` bits. */
  lemma {:induction false} PackUnpack(h: int, n: nat)
    requires 0 <= h < Pow2(n)
    ensures Pack(Unpack(h, n)) == h
  {
    if n > 0 {
      var u := Unpack(h, n);
      assert u[1..] == Unpack(h / 2, n - 1) by {
        forall i | 0 <= i < n - 1 ensures u[1..][i] == Unpack(h / 2, n - 1)[i] {
          assert u[1..][i] == Bit(h, i + 1);
        }
      }
      PackUnpack(h / 2, n - 1);
      assert u[0] == Bit(h, 0);
    }
  }

  /** Reading one more bit appends it. */
  lemma UnpackExtend(h: int, n: nat)
    ensures Unpack(h, n + 1) == Unpack(h, n) + [Bit(h, n)]
  {
    assert Unpack(h, n + 1)[..n] == Unpack(h, n);
  }

  /** Setting or clearing bit `k < n` updates element `k` of the low `n` bits. */
  lemma UnpackUpdate(h: int, n: nat, k: nat, v: bool)
    requires k < n
    ensures Unpack(if v then SetBit(h, k) else ClearBit(h, k), n) == Unpack(h, n)[k := v]
  {
    var u := Unpack(if v then SetBit(h, k) else ClearBit(h, k), n);
    forall i | 0 <= i < n ensures u[i] == Unpack(h, n)[k := v][i] {
      if v {
        BitOfSetBit(h, k, i);
      } else {
        BitOfClearBit(h, k, i);
      }
    }
  }
}
