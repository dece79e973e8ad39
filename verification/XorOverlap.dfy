/**
 The loop of xor_buf on spans that may overlap in any way: exactly which overlaps are harmless.

 Memory is one sequence and a span is a position in it, so that all three spans may share storage.
 A turn of the loop handles a 32-byte block, read before it is written, or one byte. What the loop
 does with a pair of bytes is a parameter `f` until the end.
 */
module XorOverlap {
  import opened Bits
  import opened ByteTypes
  import opened XorLanes

  function TurnLength(n: nat): (k: nat)
    ensures k <= n && (n > 0 ==> k > 0)
  {
    if n >= BLOCK_BYTES then BLOCK_BYTES else if n > 0 then 1 else 0
  }

  predicate InMemory(size: nat, o: nat, i: nat, j: nat, n: nat) {
    o + n <= size && i + n <= size && j + n <= size
  }

  /** `k` elements are read at `i` and `j`, combined, and written at `o`. */
  function Turn<T>(f: (T, T) -> T, m: seq<T>, o: nat, i: nat, j: nat, k: nat): (r: seq<T>)
    requires InMemory(|m|, o, i, j, k)
    ensures |r| == |m|
  {
    seq(|m|, x requires 0 <= x < |m| => if o <= x < o + k then f(m[i + (x - o)], m[j + (x - o)]) else m[x])
  }

  /** The memory after the loop: out at `o`, the inputs at `i` and `j`, `n` elements left. */
  function Loop<T>(f: (T, T) -> T, m: seq<T>, o: nat, i: nat, j: nat, n: nat): (r: seq<T>)
    requires InMemory(|m|, o, i, j, n)
    ensures |r| == |m|
    decreases n
  {
    if n == 0 then m
    else
      var k := TurnLength(n);
      Loop(f, Turn(f, m, o, i, j, k), o + k, i + k, j + k, n - k)
  }

  /** Writing front to back never overwrites an element of the input that is still to be read. */
  predicate Ahead(o: nat, i: nat, n: nat) {
    o <= i || i + n <= o
  }

  /** Nothing outside the output is changed. */
  lemma {:induction false} LoopFrame<T>(f: (T, T) -> T, m: seq<T>, o: nat, i: nat, j: nat, n: nat, x: nat)
    requires InMemory(|m|, o, i, j, n) && x < |m| && !(o <= x < o + n)
    ensures Loop(f, m, o, i, j, n)[x] == m[x]
    decreases n
  {
    if n > 0 {
      var k := TurnLength(n);
      LoopFrame(f, Turn(f, m, o, i, j, k), o + k, i + k, j + k, n - k, x);
    }
  }

  lemma TurnAt<T>(f: (T, T) -> T, m: seq<T>, o: nat, i: nat, j: nat, k: nat, p: nat)
    requires InMemory(|m|, o, i, j, k) && p < k
    ensures Turn(f, m, o, i, j, k)[o + p] == f(m[i + p], m[j + p])
  {
    var x := o + p;
    assert x - o == p;
  }

  lemma LoopStep<T>(f: (T, T) -> T, m: seq<T>, o: nat, i: nat, j: nat, n: nat)
    requires InMemory(|m|, o, i, j, n) && n > 0
    ensures var k := TurnLength(n);
      Loop(f, m, o, i, j, n) == Loop(f, Turn(f, m, o, i, j, k), o + k, i + k, j + k, n - k)
  {
  }

  /** What the first turn writes stays. */
  lemma FirstTurn<T>(f: (T, T) -> T, m: seq<T>, o: nat, i: nat, j: nat, n: nat, p: nat)
    requires InMemory(|m|, o, i, j, n) && p < TurnLength(n)
    ensures Loop(f, m, o, i, j, n)[o + p] == f(m[i + p], m[j + p])
  {
    hide Loop;
    var k := TurnLength(n);
    var m' := Turn(f, m, o, i, j, k);
    TurnAt(f, m, o, i, j, k, p);
    LoopStep(f, m, o, i, j, n);
    LoopFrame(f, m', o + k, i + k, j + k, n - k, o + p);
  }

  // ---------- Safe overlaps ----------

  lemma {:induction false} AheadAt<T>(f: (T, T) -> T, m: seq<T>, o: nat, i: nat, j: nat, n: nat, p: nat)
    requires InMemory(|m|, o, i, j, n) && p < n && Ahead(o, i, n) && Ahead(o, j, n)
    ensures Loop(f, m, o, i, j, n)[o + p] == f(m[i + p], m[j + p])
    decreases n
  {
    var k := TurnLength(n);
    if p < k {
      FirstTurn(f, m, o, i, j, n, p);
    } else {
      AheadAt(f, Turn(f, m, o, i, j, k), o + k, i + k, j + k, n - k, p - k);
    }
  }

  lemma {:induction false} SameInputAt<T>(f: (T, T) -> T, zero: T, m: seq<T>, o: nat, i: nat, n: nat, p: nat)
    requires InMemory(|m|, o, i, i, n) && p < n && forall x :: f(x, x) == zero
    ensures Loop(f, m, o, i, i, n)[o + p] == zero
    decreases n
  {
    var k := TurnLength(n);
    if p < k {
      FirstTurn(f, m, o, i, i, n, p);
    } else {
      SameInputAt(f, zero, Turn(f, m, o, i, i, k), o + k, i + k, n - k, p - k);
    }
  }

  // ---------- The loop in the middle ----------

  /** Do `t` elements make up whole turns? */
  predicate TurnStart(n: nat, t: nat) {
    t <= n && (t % BLOCK_BYTES == 0 || n - n % BLOCK_BYTES <= t)
  }

  lemma TurnStartNext(n: nat, t: nat)
    requires TurnStart(n, t) && t > 0
    ensures TurnLength(t) == TurnLength(n) <= t && TurnStart(n - TurnLength(n), t - TurnLength(n))
  {
  }

  lemma {:induction false} LoopSplit<T>(f: (T, T) -> T, m: seq<T>, o: nat, i: nat, j: nat, n: nat, t: nat)
    requires InMemory(|m|, o, i, j, n) && TurnStart(n, t)
    ensures Loop(f, m, o, i, j, n) == Loop(f, Loop(f, m, o, i, j, t), o + t, i + t, j + t, n - t)
    decreases n
  {
    if t > 0 {
      TurnStartNext(n, t);
      var k := TurnLength(n);
      LoopSplit(f, Turn(f, m, o, i, j, k), o + k, i + k, j + k, n - k, t - k);
    }
  }

  /** The element written at position `p` is made from the memory at the start of its turn. */
  lemma WrittenAt<T>(f: (T, T) -> T, m: seq<T>, o: nat, i: nat, j: nat, n: nat, t: nat, p: nat)
    requires InMemory(|m|, o, i, j, n) && TurnStart(n, t) && t <= p < t + TurnLength(n - t)
    ensures p < n
    ensures var m' := Loop(f, m, o, i, j, t); Loop(f, m, o, i, j, n)[o + p] == f(m'[i + p], m'[j + p])
  {
    hide Loop;
    LoopSplit(f, m, o, i, j, n, t);
    FirstTurn(f, Loop(f, m, o, i, j, t), o + t, i + t, j + t, n - t, p - t);
  }

  lemma {:induction false} LoopSymmetric<T>(f: (T, T) -> T, m: seq<T>, o: nat, i: nat, j: nat, n: nat)
    requires InMemory(|m|, o, i, j, n) && forall x, y :: f(x, y) == f(y, x)
    ensures Loop(f, m, o, i, j, n) == Loop(f, m, o, j, i, n)
    decreases n
  {
    if n > 0 {
      var k := TurnLength(n);
      assert Turn(f, m, o, i, j, k) == Turn(f, m, o, j, i, k);
      LoopSymmetric(f, Turn(f, m, o, i, j, k), o + k, i + k, j + k, n - k);
    }
  }

  // ---------- Overlaps that fail ----------

  /** The input at `i` lags behind the output by `d`, less than what is to be written. */
  predicate Lags(o: nat, i: nat, n: nat, d: nat) {
    0 < d < n && o == i + d
  }

  /** The other input does not lag, or by more. */
  predicate LagsMore(o: nat, j: nat, n: nat, d: nat) {
    Ahead(o, j, n) || j + d < o
  }

  /** Element 0 is written in an earlier turn than the one that reads it as input for element `d`. */
  lemma LateRead<T>(f: (T, T) -> T, m: seq<T>, o: nat, i: nat, j: nat, n: nat, d: nat)
    requires InMemory(|m|, o, i, j, n) && Lags(o, i, n, d) && LagsMore(o, j, n, d)
    requires n < BLOCK_BYTES || BLOCK_BYTES <= d
    ensures Loop(f, m, o, i, j, n)[o + d] == f(f(m[i], m[j]), m[j + d])
  {
    hide Loop;
    var t := if d < n - n % BLOCK_BYTES then d - d % BLOCK_BYTES else d;
    WrittenAt(f, m, o, i, j, n, t, d);
    AheadAt(f, m, o, i, j, t, 0);
    LoopFrame(f, m, o, i, j, t, j + d);
  }

  /** The first block is written before element 32 is read; the other input is not touched yet. */
  lemma SecondBlock<T>(f: (T, T) -> T, m: seq<T>, o: nat, i: nat, j: nat, n: nat, d: nat)
    requires InMemory(|m|, o, i, j, n) && Lags(o, i, n, d) && d <= BLOCK_BYTES < n
    requires Ahead(o, j, n) || j + BLOCK_BYTES < o
    ensures var q := BLOCK_BYTES - d;
      Loop(f, m, o, i, j, n)[o + BLOCK_BYTES] == f(f(m[i + q], m[j + q]), m[j + BLOCK_BYTES])
  {
    hide Loop;
    WrittenAt(f, m, o, i, j, n, BLOCK_BYTES, BLOCK_BYTES);
    FirstTurn(f, m, o, i, j, BLOCK_BYTES, BLOCK_BYTES - d);
    LoopFrame(f, m, o, i, j, BLOCK_BYTES, j + BLOCK_BYTES);
  }

  /** The first block is written before element 32 is read, and both inputs read what it wrote. */
  lemma SecondBlockBoth<T>(f: (T, T) -> T, m: seq<T>, o: nat, i: nat, j: nat, n: nat, d: nat, e: nat)
    requires InMemory(|m|, o, i, j, n) && Lags(o, i, n, d) && Lags(o, j, n, e)
    requires d <= BLOCK_BYTES < n && e <= BLOCK_BYTES
    ensures var q, r := BLOCK_BYTES - d, BLOCK_BYTES - e;
      Loop(f, m, o, i, j, n)[o + BLOCK_BYTES] == f(f(m[i + q], m[j + q]), f(m[i + r], m[j + r]))
  {
    hide Loop;
    WrittenAt(f, m, o, i, j, n, BLOCK_BYTES, BLOCK_BYTES);
    FirstTurn(f, m, o, i, j, BLOCK_BYTES, BLOCK_BYTES - d);
    FirstTurn(f, m, o, i, j, BLOCK_BYTES, BLOCK_BYTES - e);
  }

  // ---------- Exclusive or ----------

  /** Zero everywhere but for a one at `at`. */
  function Unit(size: nat, at: nat): (m: Bytes)
    ensures |m| == size
  {
    seq(size, x => if x == at then 1 else 0)
  }

  /** Is byte `p` of the output the XOR of bytes `p` of the inputs as they were? */
  predicate RightAt(m: Bytes, o: nat, i: nat, j: nat, n: nat, p: nat)
    requires InMemory(|m|, o, i, j, n) && p < n
  {
    Loop(ByteXor, m, o, i, j, n)[o + p] == ByteXor(m[i + p], m[j + p])
  }

  ghost predicate ComputesXor(m: Bytes, o: nat, i: nat, j: nat, n: nat)
    requires InMemory(|m|, o, i, j, n)
  {
    forall p: nat | p < n :: RightAt(m, o, i, j, n, p)
  }

  /** The loop computes XOR whatever the memory holds. */
  ghost predicate AlwaysXor(size: nat, o: nat, i: nat, j: nat, n: nat)
    requires InMemory(size, o, i, j, n)
  {
    forall m: Bytes | |m| == size :: ComputesXor(m, o, i, j, n)
  }

  predicate SafeAt(o: nat, i: nat, j: nat, n: nat) {
    i == j || n == BLOCK_BYTES || (Ahead(o, i, n) && Ahead(o, j, n))
  }

  lemma SafeComputesXor(m: Bytes, o: nat, i: nat, j: nat, n: nat)
    requires InMemory(|m|, o, i, j, n) && SafeAt(o, i, j, n)
    ensures ComputesXor(m, o, i, j, n)
  {
    forall p: nat | p < n
      ensures RightAt(m, o, i, j, n, p)
    {
      if i == j {
        forall x: Byte
          ensures ByteXor(x, x) == 0
        {
          BitXorZeroIff(x, x);
        }
        SameInputAt(ByteXor, 0, m, o, i, n, p);
      } else if n == BLOCK_BYTES {
        FirstTurn(ByteXor, m, o, i, j, n, p);
      } else {
        AheadAt(ByteXor, m, o, i, j, n, p);
      }
    }
  }

  lemma XorFacts(z: Byte)
    ensures ByteXor(0, 0) == 0 && ByteXor(1, 0) == 1 && ByteXor(0, 1) == 1
    ensures ByteXor(1, z) != ByteXor(0, z)
  {
    BitXorZero(0);
    BitXorZero(1);
    BitXorTwice(1, z);
    BitXorTwice(0, z);
  }

  /** If the input at `i` lags, and the other one does not or by more, some memory gives a wrong byte. */
  lemma LaggingFails(size: nat, o: nat, i: nat, j: nat, n: nat, d: nat) returns (m: Bytes)
    requires InMemory(size, o, i, j, n) && Lags(o, i, n, d) && LagsMore(o, j, n, d)
    requires i != j && n != BLOCK_BYTES
    ensures |m| == size && !ComputesXor(m, o, i, j, n)
  {
    hide Loop;
    if n < BLOCK_BYTES || BLOCK_BYTES <= d {
      m := Unit(size, i);
      LateRead(ByteXor, m, o, i, j, n, d);
      XorFacts(m[j + d]);
      assert !RightAt(m, o, i, j, n, d);
    } else if Ahead(o, j, n) || j + BLOCK_BYTES < o {
      var q := BLOCK_BYTES - d;
      m := Unit(size, i + q);
      SecondBlock(ByteXor, m, o, i, j, n, d);
      XorFacts(m[j + BLOCK_BYTES]);
      assert !RightAt(m, o, i, j, n, BLOCK_BYTES);
    } else {
      var e := o - j;
      m := Unit(size, j + (BLOCK_BYTES - e));
      SecondBlockBoth(ByteXor, m, o, i, j, n, d, e);
      XorFacts(0);
      assert !RightAt(m, o, i, j, n, BLOCK_BYTES);
    }
  }

  lemma RightSymmetric(m: Bytes, o: nat, i: nat, j: nat, n: nat)
    requires InMemory(|m|, o, i, j, n)
    ensures ComputesXor(m, o, i, j, n) ==> ComputesXor(m, o, j, i, n)
  {
    forall x: Byte, y: Byte
      ensures ByteXor(x, y) == ByteXor(y, x)
    {
      BitXorComm(x, y);
    }
    LoopSymmetric(ByteXor, m, o, i, j, n);
    if ComputesXor(m, o, i, j, n) {
      forall p: nat | p < n
        ensures RightAt(m, o, j, i, n, p)
      {
        assert RightAt(m, o, i, j, n, p);
      }
    }
  }

  lemma UnsafeFails(size: nat, o: nat, i: nat, j: nat, n: nat) returns (m: Bytes)
    requires InMemory(size, o, i, j, n) && !SafeAt(o, i, j, n)
    ensures |m| == size && !ComputesXor(m, o, i, j, n)
  {
    if !Ahead(o, i, n) && (Ahead(o, j, n) || j < i) {
      m := LaggingFails(size, o, i, j, n, o - i);
    } else {
      m := LaggingFails(size, o, j, i, n, o - j);
      RightSymmetric(m, o, i, j, n);
    }
  }

  /**
   Exactly the safe overlaps: the loop computes XOR for all contents if and only if both inputs are
   read ahead of the output, or there is exactly one block, or the two inputs are the same span.
   */
  lemma AlwaysXorIff(size: nat, o: nat, i: nat, j: nat, n: nat)
    requires InMemory(size, o, i, j, n)
    ensures AlwaysXor(size, o, i, j, n) <==> SafeAt(o, i, j, n)
    ensures AlwaysXor(size, o, i, j, n) <==>
      i == j || n == 32 || ((o <= i || i + n <= o) && (o <= j || j + n <= o))
  {
    if SafeAt(o, i, j, n) {
      forall m: Bytes | |m| == size
        ensures ComputesXor(m, o, i, j, n)
      {
        SafeComputesXor(m, o, i, j, n);
      }
    } else {
      var m := UnsafeFails(size, o, i, j, n);
    }
  }
}
