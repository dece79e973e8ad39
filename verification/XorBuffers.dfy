/** xor_buf on spans, operator^= on vectors, and same_mem. */
module XorBuffers {
  import opened Bits
  import opened ByteTypes
  import opened XorLanes
  import opened XorOverlap

  // ---------- xor_buf on spans ----------

  /** std::span over bytes: `len` bytes of `buf` from `off`. */
  datatype Span = Span(buf: array<Byte>, off: nat, len: nat) {
    predicate Valid() {
      off + len <= buf.Length
    }

    function Contents(): Bytes
      requires Valid()
      reads buf
    {
      buf[off..off + len]
    }
  }

  /**
   Writing `out` front to back never overwrites a byte of `input` still to be read: other storage,
   the very same bytes, a range further on, or a range that ends before `out` starts.
   */
  predicate ReadsAhead(out: Span, input: Span) {
    out.buf != input.buf || out.off <= input.off || input.off + input.len <= out.off
  }

  /**
   The overlaps under which the loops compute XOR whatever the buffers hold: both inputs are read
   ahead, or the one block is read before it is written, or the inputs are the same span, so that
   the outcome is zero.
   */
  predicate Safe(out: Span, in1: Span, in2: Span) {
    in1 == in2 || out.len == BLOCK_BYTES || (ReadsAhead(out, in1) && ReadsAhead(out, in2))
  }

  /**
   The storage of all three spans laid end to end makes up the memory of module XorOverlap: the
   output's buffer, then those of the inputs. An input is read inside the output's buffer if it
   shares it, else in its own, which starts at `base`.
   */
  function Position(out: Span, input: Span, base: nat): nat {
    if input.buf == out.buf then input.off else base + input.off
  }

  function First(out: Span, in1: Span): nat {
    Position(out, in1, out.buf.Length)
  }

  function Second(out: Span, in1: Span, in2: Span): nat {
    Position(out, in2, out.buf.Length + in1.buf.Length)
  }

  predicate SameLength(out: Span, in1: Span, in2: Span) {
    out.Valid() && in1.Valid() && in2.Valid() && out.len == in1.len == in2.len
  }

  /** The storage of an input that does not share the output's is still as in `copy`. */
  ghost predicate Backed(out: Span, input: Span, copy: Bytes)
    reads input.buf
  {
    |copy| == input.buf.Length && (input.buf == out.buf || input.buf[..] == copy)
  }

  lemma PartsOfMemory<T>(c: seq<T>, a: seq<T>, b: seq<T>, i: nat, k: nat)
    ensures i + k <= |c| ==> (c + a + b)[i..i + k] == c[i..i + k]
    ensures i + k <= |a| ==> (c + a + b)[|c| + i..|c| + i + k] == a[i..i + k]
    ensures i + k <= |b| ==> (c + a + b)[|c| + |a| + i..|c| + |a| + i + k] == b[i..i + k]
  {
  }

  /** What an input holds is found in the memory at its position. */
  lemma FirstInMemory(out: Span, in1: Span, c: Bytes, a: Bytes, b: Bytes, p: nat, k: nat)
    requires c == out.buf[..] && Backed(out, in1, a) && in1.off + p + k <= in1.buf.Length
    ensures var m, i := c + a + b, First(out, in1) + p;
      i + k <= |m| && m[i..i + k] == in1.buf[in1.off + p..in1.off + p + k]
  {
    PartsOfMemory(c, a, b, in1.off + p, k);
    var s := in1.buf[..];
    assert in1.buf[in1.off + p..in1.off + p + k] == s[in1.off + p..in1.off + p + k];
  }

  lemma SecondInMemory(out: Span, in1: Span, in2: Span, c: Bytes, a: Bytes, b: Bytes, p: nat, k: nat)
    requires c == out.buf[..] && |a| == in1.buf.Length && Backed(out, in2, b) && in2.off + p + k <= in2.buf.Length
    ensures var m, j := c + a + b, Second(out, in1, in2) + p;
      j + k <= |m| && m[j..j + k] == in2.buf[in2.off + p..in2.off + p + k]
  {
    PartsOfMemory(c, a, b, in2.off + p, k);
    var s := in2.buf[..];
    assert in2.buf[in2.off + p..in2.off + p + k] == s[in2.off + p..in2.off + p + k];
  }

  /** A turn of the loop writes the XOR of two ranges of the memory over a third. */
  lemma TurnIsOverwrite(m: Bytes, o: nat, i: nat, j: nat, k: nat)
    requires InMemory(|m|, o, i, j, k)
    ensures Turn(ByteXor, m, o, i, j, k) == Overwrite(m, o, Xor(m[i..i + k], m[j..j + k]))
  {
  }

  lemma OverwriteFirstPart<T>(c: seq<T>, a: seq<T>, b: seq<T>, o: nat, z: seq<T>)
    requires o + |z| <= |c|
    ensures Overwrite(c, o, z) + a + b == Overwrite(c + a + b, o, z)
  {
  }

  /** Bytes `p` to `p + k` of the output become the XOR of those of the inputs: one turn of the loop. */
  lemma XorWritten(c: Bytes, d: Bytes, a: Bytes, b: Bytes, o: nat, i: nat, j: nat, n: nat, x: Bytes, y: Bytes)
    requires InMemory(|c + a + b|, o, i, j, n) && o + n <= |c| && n > 0
    requires |x| == |y| == TurnLength(n)
    requires (c + a + b)[i..i + |x|] == x && (c + a + b)[j..j + |y|] == y
    requires d == Overwrite(c, o, Xor(x, y))
    ensures var k := TurnLength(n);
      Loop(ByteXor, d + a + b, o + k, i + k, j + k, n - k) == Loop(ByteXor, c + a + b, o, i, j, n)
  {
    LoopStep(ByteXor, c + a + b, o, i, j, n);
    TurnIsOverwrite(c + a + b, o, i, j, |x|);
    OverwriteFirstPart(c, a, b, o, Xor(x, y));
  }

  /** With `p` bytes done, what is left of the loop takes the memory to `r`. */
  ghost predicate LeadsTo(out: Span, in1: Span, in2: Span, a: Bytes, b: Bytes, r: Bytes, p: nat)
    reads out.buf
  {
    var i, j := First(out, in1), Second(out, in1, in2);
    && p <= out.len && InMemory(out.buf.Length + |a| + |b|, out.off, i, j, out.len)
    && Loop(ByteXor, out.buf[..] + a + b, out.off + p, i + p, j + p, out.len - p) == r
  }

  /** One turn of the fast loop: four lanes are read from both inputs before any is written. */
  method XorBlock(order: ByteOrder, out: Span, in1: Span, in2: Span, p: nat, ghost x: Bytes, ghost y: Bytes)
    requires SameLength(out, in1, in2) && p + BLOCK_BYTES <= out.len
    requires x == in1.buf[in1.off + p..in1.off + p + BLOCK_BYTES] && y == in2.buf[in2.off + p..in2.off + p + BLOCK_BYTES]
    modifies out.buf
    ensures out.buf[..] == Overwrite(old(out.buf[..]), out.off + p, Xor(x, y))
  {
    var z := XorFourLanes(order, in1.buf[in1.off + p..in1.off + p + BLOCK_BYTES],
                          in2.buf[in2.off + p..in2.off + p + BLOCK_BYTES]);
    WriteBytes(out.buf, out.off + p, z);
  }

  /** One turn of the byte loop. */
  method XorByte(out: Span, in1: Span, in2: Span, p: nat, ghost x: Bytes, ghost y: Bytes)
    requires SameLength(out, in1, in2) && p < out.len
    requires x == in1.buf[in1.off + p..in1.off + p + 1] && y == in2.buf[in2.off + p..in2.off + p + 1]
    modifies out.buf
    ensures out.buf[..] == Overwrite(old(out.buf[..]), out.off + p, Xor(x, y))
  {
    out.buf[out.off + p] := ByteXor(in1.buf[in1.off + p], in2.buf[in2.off + p]);
  }

  lemma TurnDone(out: Span, in1: Span, in2: Span, c: Bytes, a: Bytes, b: Bytes, r: Bytes, p: nat, x: Bytes, y: Bytes)
    requires out.Valid() && |c| == out.buf.Length && p < out.len && |x| == |y| == TurnLength(out.len - p)
    requires var i, j := First(out, in1), Second(out, in1, in2);
      && InMemory(|c + a + b|, out.off, i, j, out.len)
      && Loop(ByteXor, c + a + b, out.off + p, i + p, j + p, out.len - p) == r
      && (c + a + b)[i + p..i + p + |x|] == x && (c + a + b)[j + p..j + p + |y|] == y
    requires out.buf[..] == Overwrite(c, out.off + p, Xor(x, y))
    ensures LeadsTo(out, in1, in2, a, b, r, p + |x|)
  {
    hide Loop;
    XorWritten(c, out.buf[..], a, b, out.off + p, First(out, in1) + p, Second(out, in1, in2) + p, out.len - p, x, y);
  }

  /** One turn of the fast loop brings the memory nearer to the outcome. */
  method BlockTurn(order: ByteOrder, out: Span, in1: Span, in2: Span, p: nat, ghost a: Bytes, ghost b: Bytes, ghost r: Bytes)
    requires SameLength(out, in1, in2) && Backed(out, in1, a) && Backed(out, in2, b)
    requires LeadsTo(out, in1, in2, a, b, r, p) && p + BLOCK_BYTES <= out.len
    modifies out.buf
    ensures Backed(out, in1, a) && Backed(out, in2, b) && LeadsTo(out, in1, in2, a, b, r, p + BLOCK_BYTES)
  {
    hide Loop;
    ghost var c := out.buf[..];
    ghost var x, y := in1.buf[in1.off + p..in1.off + p + BLOCK_BYTES], in2.buf[in2.off + p..in2.off + p + BLOCK_BYTES];
    FirstInMemory(out, in1, c, a, b, p, BLOCK_BYTES);
    SecondInMemory(out, in1, in2, c, a, b, p, BLOCK_BYTES);
    XorBlock(order, out, in1, in2, p, x, y);
    TurnDone(out, in1, in2, c, a, b, r, p, x, y);
  }

  /** One turn of the byte loop does. */
  method ByteTurn(out: Span, in1: Span, in2: Span, p: nat, ghost a: Bytes, ghost b: Bytes, ghost r: Bytes)
    requires SameLength(out, in1, in2) && Backed(out, in1, a) && Backed(out, in2, b)
    requires LeadsTo(out, in1, in2, a, b, r, p) && out.len - BLOCK_BYTES < p < out.len
    modifies out.buf
    ensures Backed(out, in1, a) && Backed(out, in2, b) && LeadsTo(out, in1, in2, a, b, r, p + 1)
  {
    hide Loop;
    ghost var c := out.buf[..];
    ghost var x, y := in1.buf[in1.off + p..in1.off + p + 1], in2.buf[in2.off + p..in2.off + p + 1];
    FirstInMemory(out, in1, c, a, b, p, 1);
    SecondInMemory(out, in1, in2, c, a, b, p, 1);
    XorByte(out, in1, in2, p, x, y);
    TurnDone(out, in1, in2, c, a, b, r, p, x, y);
  }

  /** The loop over blocks and the loop over the bytes left. */
  method XorLoops(order: ByteOrder, out: Span, in1: Span, in2: Span, ghost a: Bytes, ghost b: Bytes, ghost r: Bytes)
    requires SameLength(out, in1, in2) && Backed(out, in1, a) && Backed(out, in2, b)
    requires LeadsTo(out, in1, in2, a, b, r, 0)
    modifies out.buf
    ensures LeadsTo(out, in1, in2, a, b, r, out.len)
  {
    hide Loop;
    var p := 0;
    while out.len - p >= BLOCK_BYTES
      invariant p <= out.len && Backed(out, in1, a) && Backed(out, in2, b)
      invariant LeadsTo(out, in1, in2, a, b, r, p)
    {
      BlockTurn(order, out, in1, in2, p, a, b, r);
      p := p + BLOCK_BYTES;
    }
    while p != out.len
      invariant out.len - BLOCK_BYTES < p <= out.len && Backed(out, in1, a) && Backed(out, in2, b)
      invariant LeadsTo(out, in1, in2, a, b, r, p)
      decreases out.len - p
    {
      ByteTurn(out, in1, in2, p, a, b, r);
      p := p + 1;
    }
  }

  lemma Arrived(out: Span, in1: Span, in2: Span, a: Bytes, b: Bytes, r: Bytes)
    requires LeadsTo(out, in1, in2, a, b, r, out.len)
    ensures out.buf[..] + a + b == r
  {
  }

  /** From buffers that held `c`, `a` and `b`, the output's buffer is as the loop on the memory leaves it. */
  ghost predicate Ran(out: Span, in1: Span, in2: Span, c: Bytes, a: Bytes, b: Bytes)
    reads out.buf
  {
    var i, j := First(out, in1), Second(out, in1, in2);
    && InMemory(|c + a + b|, out.off, i, j, out.len)
    && out.buf[..] + a + b == Loop(ByteXor, c + a + b, out.off, i, j, out.len)
  }

  /** The overlaps named safe are exactly those under which the loop computes XOR for all contents of the buffers. */
  lemma SafeSpansIff(out: Span, in1: Span, in2: Span)
    requires SameLength(out, in1, in2)
    ensures Safe(out, in1, in2) <==> SafeAt(out.off, First(out, in1), Second(out, in1, in2), out.len)
    ensures var size := out.buf.Length + in1.buf.Length + in2.buf.Length;
      && InMemory(size, out.off, First(out, in1), Second(out, in1, in2), out.len)
      && (Safe(out, in1, in2) <==> AlwaysXor(size, out.off, First(out, in1), Second(out, in1, in2), out.len))
  {
    var size := out.buf.Length + in1.buf.Length + in2.buf.Length;
    AlwaysXorIff(size, out.off, First(out, in1), Second(out, in1, in2), out.len);
  }

  /** What the loop leaves in the output's buffer: nothing new outside the span. */
  lemma OutsideSpan<T>(f: (T, T) -> T, c: seq<T>, d: seq<T>, a: seq<T>, b: seq<T>, o: nat, i: nat, j: nat, n: nat, x: nat)
    requires |c| == |d| && InMemory(|c + a + b|, o, i, j, n) && x < |c| && !(o <= x < o + n)
    requires d + a + b == Loop(f, c + a + b, o, i, j, n)
    ensures d[x] == c[x]
  {
    hide Loop;
    LoopFrame(f, c + a + b, o, i, j, n, x);
    assert (d + a + b)[x] == d[x] && (c + a + b)[x] == c[x];
  }

  /** Inside the span, for safe overlaps: the XOR of the inputs. */
  lemma InsideSpan(c: Bytes, d: Bytes, a: Bytes, b: Bytes, o: nat, i: nat, j: nat, n: nat)
    requires |c| == |d| && InMemory(|c + a + b|, o, i, j, n) && o + n <= |c| && SafeAt(o, i, j, n)
    requires d + a + b == Loop(ByteXor, c + a + b, o, i, j, n)
    ensures d[o..o + n] == Xor((c + a + b)[i..i + n], (c + a + b)[j..j + n])
  {
    hide Loop;
    var m := c + a + b;
    SafeComputesXor(m, o, i, j, n);
    var l, r := d[o..o + n], Xor(m[i..i + n], m[j..j + n]);
    forall p | 0 <= p < n
      ensures l[p] == r[p]
    {
      assert RightAt(m, o, i, j, n, p);
      assert (d + a + b)[o + p] == d[o + p];
    }
  }

  lemma Outcome(out: Span, in1: Span, in2: Span, c: Bytes, a: Bytes, b: Bytes, x: Bytes, y: Bytes)
    requires SameLength(out, in1, in2) && |c| == out.buf.Length && |a| == in1.buf.Length && |b| == in2.buf.Length
    requires Ran(out, in1, in2, c, a, b)
    requires (c + a + b)[First(out, in1)..First(out, in1) + out.len] == x
    requires (c + a + b)[Second(out, in1, in2)..Second(out, in1, in2) + out.len] == y
    ensures forall k {:trigger out.buf[k]} :: 0 <= k < |c| && !(out.off <= k < out.off + out.len) ==> out.buf[k] == c[k]
    ensures Safe(out, in1, in2) ==> out.Contents() == Xor(x, y)
  {
    var d, o, i, j, n := out.buf[..], out.off, First(out, in1), Second(out, in1, in2), out.len;
    forall k {:trigger d[k]} | 0 <= k < |c| && !(o <= k < o + n)
      ensures d[k] == c[k]
    {
      OutsideSpan(ByteXor, c, d, a, b, o, i, j, n, k);
    }
    if Safe(out, in1, in2) {
      InsideSpan(c, d, a, b, o, i, j, n);
    }
  }

  /** Only `out` may have changed, and of it only the bytes of the span. */
  twostate predicate OnlySpanChanged(out: Span)
    requires out.Valid()
    reads out.buf
  {
    forall k :: 0 <= k < out.buf.Length && !(out.off <= k < out.off + out.len) ==> out.buf[k] == old(out.buf[k])
  }

  /**
   Three operands: out = in1 ^ in2. Spans of different lengths are refused and nothing is written.
   The spans may overlap in any way; the outcome is that of the loop on the memory they share, and
   it is the XOR of the inputs for the overlaps named safe.
   */
  method XorBuf3(order: ByteOrder, out: Span, in1: Span, in2: Span) returns (ok: bool)
    requires out.Valid() && in1.Valid() && in2.Valid()
    modifies out.buf
    ensures ok <==> out.len == in1.len == in2.len
    ensures !ok ==> out.buf[..] == old(out.buf[..])
    ensures ok && Safe(out, in1, in2) ==> out.Contents() == Xor(old(in1.Contents()), old(in2.Contents()))
    ensures ok ==> Ran(out, in1, in2, old(out.buf[..]), old(in1.buf[..]), old(in2.buf[..]))
    ensures OnlySpanChanged(out)
  {
    hide Loop, Xor;
    if out.len != in1.len || out.len != in2.len {
      return false;
    }
    ghost var a, b, c := in1.buf[..], in2.buf[..], out.buf[..];
    ghost var x, y := in1.Contents(), in2.Contents();
    FirstInMemory(out, in1, c, a, b, 0, out.len);
    SecondInMemory(out, in1, in2, c, a, b, 0, out.len);
    ghost var r := Loop(ByteXor, c + a + b, out.off, First(out, in1), Second(out, in1, in2), out.len);
    XorLoops(order, out, in1, in2, a, b, r);
    Arrived(out, in1, in2, a, b, r);
    Outcome(out, in1, in2, c, a, b, x, y);
    return true;
  }

  /** Two operands: out ^= input, the loops above with `out` as their first source. */
  method XorBuf2(order: ByteOrder, out: Span, input: Span) returns (ok: bool)
    requires out.Valid() && input.Valid()
    modifies out.buf
    ensures ok <==> out.len == input.len
    ensures !ok ==> out.buf[..] == old(out.buf[..])
    ensures ok && Safe(out, out, input) ==> out.Contents() == Xor(old(out.Contents()), old(input.Contents()))
    ensures ok ==> Ran(out, out, input, old(out.buf[..]), old(out.buf[..]), old(input.buf[..]))
    ensures OnlySpanChanged(out)
  {
    ok := XorBuf3(order, out, out, input);
  }

  // ---------- Vectors ----------

  function Extended(a: Bytes, n: nat): (r: Bytes)
    requires |a| <= n
    ensures |r| == n
  {
    a + seq(n - |a|, _ => 0)
  }

  function Max(m: nat, n: nat): nat {
    if m < n then n else m
  }

  /** XOR of byte strings of any lengths, the shorter one extended with zeros. */
  function XorExtended(a: Bytes, b: Bytes): (r: Bytes)
    ensures |r| == Max(|a|, |b|)
  {
    var n := Max(|a|, |b|);
    Xor(Extended(a, n), Extended(b, n))
  }

  lemma XorExtendedAt(a: Bytes, b: Bytes, i: nat)
    requires i < Max(|a|, |b|)
    ensures XorExtended(a, b)[i] == ByteXor(if i < |a| then a[i] else 0, if i < |b| then b[i] else 0)
  {
  }

  lemma XorExtendedAssoc(a: Bytes, b: Bytes, c: Bytes)
    ensures XorExtended(XorExtended(a, b), c) == XorExtended(a, XorExtended(b, c))
  {
    var l, r := XorExtended(XorExtended(a, b), c), XorExtended(a, XorExtended(b, c));
    forall i | 0 <= i < |l|
      ensures l[i] == r[i]
    {
      var x, y := if i < |a| then a[i] else 0, if i < |b| then b[i] else 0;
      var z := if i < |c| then c[i] else 0;
      XorExtendedAt(XorExtended(a, b), c, i);
      XorExtendedAt(a, XorExtended(b, c), i);
      if i < Max(|a|, |b|) { XorExtendedAt(a, b, i); }
      if i < Max(|b|, |c|) { XorExtendedAt(b, c, i); }
      BitXorZero(0);
      BitXorAssoc(x, y, z);
    }
  }

  /** Applying the same operand twice gives back the original, extended to the longer length. */
  lemma XorExtendedTwice(a: Bytes, b: Bytes)
    ensures XorExtended(XorExtended(a, b), b) == Extended(a, Max(|a|, |b|))
  {
    var n := Max(|a|, |b|);
    assert Extended(XorExtended(a, b), n) == XorExtended(a, b);
    XorTwice(Extended(a, n), Extended(b, n));
  }

  class ByteVector {
    var data: array<Byte>

    function Contents(): Bytes
      reads this, data
    {
      data[..]
    }

    constructor (bytes: Bytes)
      ensures fresh(data) && Contents() == bytes
    {
      data := new Byte[|bytes|](i requires 0 <= i < |bytes| => bytes[i]);
    }

    method Grow(n: nat)
      requires data.Length <= n
      modifies this
      ensures fresh(data) && Contents() == Extended(old(Contents()), n)
    {
      var bytes := data[..];
      data := new Byte[n](i => if 0 <= i < |bytes| then bytes[i] else 0);
      assert data[..] == Extended(bytes, n);
    }
  }

  /** operator^= on vectors; `input` may be `out` itself. */
  method XorAssign(order: ByteOrder, out: ByteVector, input: ByteVector)
    requires out == input || out.data != input.data
    modifies out, out.data
    ensures out.Contents() == XorExtended(old(out.Contents()), old(input.Contents()))
    ensures out != input ==> input.Contents() == old(input.Contents())
    ensures out.data == old(out.data) || fresh(out.data)
  {
    ghost var a, b := out.Contents(), input.Contents();
    var n := input.data.Length;
    if out.data.Length < n {
      out.Grow(n);
    }
    var ok := XorBuf2(order, Span(out.data, 0, n), Span(input.data, 0, n));
    assert out.data[..n] == Xor(Extended(a, Max(|a|, n))[..n], b);
    forall i | 0 <= i < out.data.Length
      ensures out.data[i] == XorExtended(a, b)[i]
    {
      XorExtendedAt(a, b, i);
      if i < n {
        assert out.data[i] == out.data[..n][i];
      } else {
        BitXorZero(a[i]);
      }
    }
  }

  /** same_mem: accumulates every difference, then tests once. The elements are unsigned words. */
  method SameMem(p1: array<nat>, p2: array<nat>, n: nat) returns (same: bool)
    requires n <= p1.Length && n <= p2.Length
    ensures same <==> p1[..n] == p2[..n]
  {
    var difference := 0;
    for i := 0 to n
      invariant difference == 0 <==> p1[..i] == p2[..i]
    {
      BitXorZeroIff(p1[i], p2[i]);
      BitOrZeroIff(difference, BitXor(p1[i], p2[i]));
      difference := BitOr(difference, BitXor(p1[i], p2[i]));
      assert p1[..i + 1] == p1[..i] + [p1[i]] && p2[..i + 1] == p2[..i] + [p2[i]];
    }
    same := difference == 0;
  }
}
