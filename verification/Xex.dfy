/** The xor-encrypt-xor wrappers of a block cipher, in place over a buffer. */
module Xex {
  import Bits
  import opened ByteTypes
  import opened XorLanes

  /** A keyed block cipher: its block size and its two directions on a single block. */
  datatype BlockCipher = BlockCipher(blockSize: nat, enc: Bytes -> Bytes, dec: Bytes -> Bytes) {
    ghost predicate Lawful() {
      blockSize > 0 && Undoes(dec, enc, blockSize) && Undoes(enc, dec, blockSize)
    }
  }

  ghost predicate KeepsLength(f: Bytes -> Bytes, size: nat) {
    forall b: Bytes {:trigger f(b)} | |b| == size :: |f(b)| == size
  }

  ghost predicate Undoes(g: Bytes -> Bytes, f: Bytes -> Bytes, size: nat) {
    KeepsLength(f, size) && forall b: Bytes {:trigger f(b)} | |b| == size :: g(f(b)) == b
  }

  /** Does a buffer of `n` bytes consist of whole blocks? */
  predicate Whole(size: nat, n: nat)
    decreases n
  {
    n == 0 || (0 < size <= n && Whole(size, n - size))
  }

  lemma {:induction false} BlocksAreWhole(size: nat, blocks: nat)
    requires size > 0
    ensures Whole(size, blocks * size)
  {
    if blocks > 0 {
      BlocksAreWhole(size, blocks - 1);
      assert blocks * size == size + (blocks - 1) * size;
    }
  }

  lemma {:induction false} WholeSum(size: nat, m: nat, n: nat)
    requires Whole(size, m) && Whole(size, n)
    ensures Whole(size, m + n)
    decreases m
  {
    if m > 0 {
      WholeSum(size, m - size, n);
    }
  }

  /** `f` applied to each of the consecutive blocks. */
  function Blockwise(f: Bytes -> Bytes, size: nat, data: Bytes): Bytes
    requires Whole(size, |data|)
    decreases |data|
  {
    if data == [] then [] else f(data[..size]) + Blockwise(f, size, data[size..])
  }

  /** Block `k` of a buffer. */
  function Block(size: nat, data: Bytes, k: nat): (b: Bytes)
    requires Whole(size, |data|) && k * size < |data|
    ensures |b| == size
    decreases k
  {
    if k == 0 then data[..size]
    else
      assert k * size == size + (k - 1) * size;
      Block(size, data[size..], k - 1)
  }

  /** It is the `size` bytes from position k * size on. */
  lemma {:induction false} BlockIs(size: nat, data: Bytes, k: nat)
    requires Whole(size, |data|) && k * size < |data|
    ensures k * size + size <= |data| && Block(size, data, k) == data[k * size..k * size + size]
    decreases k
  {
    if k > 0 {
      assert k * size == size + (k - 1) * size;
      BlockIs(size, data[size..], k - 1);
    }
  }

  lemma {:induction false} BlockwiseLength(f: Bytes -> Bytes, size: nat, data: Bytes)
    requires Whole(size, |data|) && KeepsLength(f, size)
    ensures |Blockwise(f, size, data)| == |data|
    decreases |data|
  {
    if data != [] {
      BlockwiseLength(f, size, data[size..]);
    }
  }

  lemma BlockwiseCons(f: Bytes -> Bytes, size: nat, first: Bytes, rest: Bytes)
    requires |first| == size > 0 && Whole(size, |rest|)
    ensures Whole(size, |first + rest|)
    ensures Blockwise(f, size, first + rest) == f(first) + Blockwise(f, size, rest)
  {
  }

  lemma {:induction false} BlockwiseInverse(f: Bytes -> Bytes, g: Bytes -> Bytes, size: nat, data: Bytes)
    requires Whole(size, |data|) && Undoes(g, f, size)
    ensures |Blockwise(f, size, data)| == |data|
    ensures Blockwise(g, size, Blockwise(f, size, data)) == data
    decreases |data|
  {
    if data != [] {
      var first, rest := data[..size], data[size..];
      BlockwiseInverse(f, g, size, rest);
      BlockwiseCons(g, size, f(first), Blockwise(f, size, rest));
      assert g(f(first)) + rest == data;
    }
  }

  /** Processing two runs of whole blocks at once is processing one and then the other. */
  lemma {:induction false} BlockwiseAppend(f: Bytes -> Bytes, size: nat, a: Bytes, b: Bytes)
    requires Whole(size, |a|) && Whole(size, |b|)
    ensures Whole(size, |a + b|)
    ensures Blockwise(f, size, a + b) == Blockwise(f, size, a) + Blockwise(f, size, b)
    decreases |a|
  {
    WholeSum(size, |a|, |b|);
    if a == [] {
      assert a + b == b;
    } else {
      BlockwiseAppend(f, size, a[size..], b);
      assert (a + b)[..size] == a[..size];
      assert (a + b)[size..] == a[size..] + b;
    }
  }

  // ---------- The wrappers on values ----------

  /** xor, apply blockwise, xor: with `enc` this is encrypt_n_xex, with `dec` decrypt_n_xex. */
  ghost function XexOf(f: Bytes -> Bytes, size: nat, data: Bytes, mask: Bytes): (r: Bytes)
    requires |data| == |mask| && Whole(size, |data|) && KeepsLength(f, size)
    ensures |r| == |data|
  {
    BlockwiseLength(f, size, Xor(data, mask));
    Xor(Blockwise(f, size, Xor(data, mask)), mask)
  }

  lemma XexInverse(f: Bytes -> Bytes, g: Bytes -> Bytes, size: nat, data: Bytes, mask: Bytes)
    requires |data| == |mask| && Whole(size, |data|) && KeepsLength(g, size) && Undoes(g, f, size)
    ensures XexOf(g, size, XexOf(f, size, data, mask), mask) == data
  {
    var x := Xor(data, mask);
    BlockwiseInverse(f, g, size, x);
    XorTwice(Blockwise(f, size, x), mask);
    XorTwice(data, mask);
  }

  /** Decrypting under the same mask restores the buffer, and the other way round, for any number of blocks. */
  lemma XexRoundTrip(c: BlockCipher, data: Bytes, mask: Bytes)
    requires c.Lawful() && |data| == |mask| && Whole(c.blockSize, |data|)
    ensures XexOf(c.dec, c.blockSize, XexOf(c.enc, c.blockSize, data, mask), mask) == data
    ensures XexOf(c.enc, c.blockSize, XexOf(c.dec, c.blockSize, data, mask), mask) == data
  {
    XexInverse(c.enc, c.dec, c.blockSize, data, mask);
    XexInverse(c.dec, c.enc, c.blockSize, data, mask);
  }

  /** Processing n1 + n2 blocks at once equals processing n1 blocks and then n2. */
  lemma XexAppend(f: Bytes -> Bytes, size: nat, a: Bytes, ma: Bytes, b: Bytes, mb: Bytes)
    requires |a| == |ma| && |b| == |mb| && Whole(size, |a|) && Whole(size, |b|) && KeepsLength(f, size)
    ensures Whole(size, |a + b|)
    ensures XexOf(f, size, a + b, ma + mb) == XexOf(f, size, a, ma) + XexOf(f, size, b, mb)
  {
    var x, y := Xor(a, ma), Xor(b, mb);
    XorAppend(a, ma, b, mb);
    BlockwiseAppend(f, size, x, y);
    BlockwiseLength(f, size, x);
    BlockwiseLength(f, size, y);
    XorAppend(Blockwise(f, size, x), ma, Blockwise(f, size, y), mb);
  }

  /** Block k of the result is f(p ^ m) ^ m for block k of the data and of the mask. */
  lemma {:induction false} XexBlock(f: Bytes -> Bytes, size: nat, data: Bytes, mask: Bytes, k: nat)
    requires |data| == |mask| && Whole(size, |data|) && KeepsLength(f, size) && k * size < |data|
    ensures var p, m := Block(size, data, k), Block(size, mask, k);
      Block(size, XexOf(f, size, data, mask), k) == Xor(f(Xor(p, m)), m)
    ensures var from, to := k * size, k * size + size;
      && to <= |data|
      && XexOf(f, size, data, mask)[from..to] == Xor(f(Xor(data[from..to], mask[from..to])), mask[from..to])
    decreases k
  {
    BlockIs(size, data, k);
    BlockIs(size, mask, k);
    BlockIs(size, XexOf(f, size, data, mask), k);
    XexPeel(f, size, data, mask);
    if k > 0 {
      assert k * size == size + (k - 1) * size;
      XexBlock(f, size, data[size..], mask[size..], k - 1);
    }
  }

  lemma XexPeel(f: Bytes -> Bytes, size: nat, data: Bytes, mask: Bytes)
    requires |data| == |mask| > 0 && Whole(size, |data|) && KeepsLength(f, size)
    ensures XexOf(f, size, data, mask)[..size] == Xor(f(Xor(data[..size], mask[..size])), mask[..size])
    ensures XexOf(f, size, data, mask)[size..] == XexOf(f, size, data[size..], mask[size..])
  {
    var x := Xor(data, mask);
    assert x[..size] == Xor(data[..size], mask[..size]);
    assert x[size..] == Xor(data[size..], mask[size..]);
    BlockwiseLength(f, size, x);
    var y := Blockwise(f, size, x);
    assert y == f(x[..size]) + Blockwise(f, size, x[size..]);
    assert y[..size] == f(x[..size]) && y[size..] == Blockwise(f, size, x[size..]);
  }

  function Zeros(n: nat): (r: Bytes)
    ensures |r| == n
  {
    seq(n, _ => 0)
  }

  lemma XorSelf(a: Bytes)
    ensures Xor(a, a) == Zeros(|a|)
  {
    forall i | 0 <= i < |a|
      ensures Xor(a, a)[i] == 0
    {
      Bits.BitXorZeroIff(a[i], a[i]);
    }
  }

  // ---------- The loops, in place ----------

  /** data[i] ^= mask[i] for i below n; the mask may be the data itself. */
  method XorMask(data: array<Byte>, mask: array<Byte>, n: nat)
    requires n <= data.Length && n <= mask.Length
    modifies data
    ensures data[..n] == Xor(old(data[..n]), old(mask[..n]))
    ensures data[n..] == old(data[n..])
  {
    var i := 0;
    while i != n
      invariant 0 <= i <= n
      invariant forall k :: 0 <= k < i ==> data[k] == ByteXor(old(data[k]), old(mask[k]))
      invariant forall k :: i <= k < data.Length ==> data[k] == old(data[k])
      decreases n - i
    {
      data[i] := ByteXor(data[i], mask[i]);
      i := i + 1;
    }
  }

  method ProcessBlock(f: Bytes -> Bytes, size: nat, data: array<Byte>, at: nat)
    requires KeepsLength(f, size) && at + size <= data.Length
    modifies data
    ensures data[..at + size] == old(data[..at]) + f(old(data[at..at + size]))
    ensures data[at + size..] == old(data[at..])[size..]
  {
    WriteBytes(data, at, f(data[at..at + size]));
  }

  /** The contract of encrypt_n and decrypt_n, which are virtual: each block on its own, nothing else. */
  method ProcessBlocks(f: Bytes -> Bytes, size: nat, data: array<Byte>, blocks: nat)
    requires size > 0 && KeepsLength(f, size) && blocks * size <= data.Length
    modifies data
    ensures Whole(size, blocks * size)
    ensures data[..blocks * size] == Blockwise(f, size, old(data[..blocks * size]))
    ensures data[blocks * size..] == old(data[blocks * size..])
  {
    ghost var before := data[..];
    var done, i := 0, 0;
    assert before[..done] == [];
    while i != blocks
      invariant 0 <= i <= blocks && done == i * size <= blocks * size && Whole(size, done)
      invariant data[..done] == Blockwise(f, size, before[..done])
      invariant data[done..] == before[done..]
      decreases blocks - i
    {
      NextBlock(i, blocks, size);
      AppendBlock(f, size, before, done);
      assert data[done..done + size] == data[done..][..size] == before[done..done + size];
      ProcessBlock(f, size, data, done);
      done, i := done + size, i + 1;
    }
  }

  lemma NextBlock(i: nat, blocks: nat, size: nat)
    requires i < blocks
    ensures (i + 1) * size == i * size + size <= blocks * size
  {
  }

  lemma AppendBlock(f: Bytes -> Bytes, size: nat, data: Bytes, done: nat)
    requires size > 0 && Whole(size, done) && done + size <= |data|
    ensures Whole(size, done + size)
    ensures Blockwise(f, size, data[..done + size]) == Blockwise(f, size, data[..done]) + f(data[done..done + size])
  {
    var b := data[done..done + size];
    BlockwiseAppend(f, size, data[..done], b);
    assert data[..done] + b == data[..done + size];
    assert b[..size] == b && b[size..] == [];
  }

  /** With a mask of its own this is the wrapper on values; a buffer that is its own mask ends up all zero. */
  method EncryptNXex(c: BlockCipher, data: array<Byte>, mask: array<Byte>, blocks: nat)
    requires c.Lawful()
    requires blocks * c.blockSize <= data.Length && blocks * c.blockSize <= mask.Length
    modifies data
    ensures var n := blocks * c.blockSize;
      && Whole(c.blockSize, n)
      && data[..n] == (if data == mask then Zeros(n) else XexOf(c.enc, c.blockSize, old(data[..n]), mask[..n]))
      && data[n..] == old(data[n..])
  {
    var n := blocks * c.blockSize;
    BlocksAreWhole(c.blockSize, blocks);
    XorMask(data, mask, n);
    ProcessBlocks(c.enc, c.blockSize, data, blocks);
    label before:
    XorMask(data, mask, n);
    if data == mask { XorSelf(old@before(data[..n])); }
  }

  method DecryptNXex(c: BlockCipher, data: array<Byte>, mask: array<Byte>, blocks: nat)
    requires c.Lawful()
    requires blocks * c.blockSize <= data.Length && blocks * c.blockSize <= mask.Length
    modifies data
    ensures var n := blocks * c.blockSize;
      && Whole(c.blockSize, n)
      && data[..n] == (if data == mask then Zeros(n) else XexOf(c.dec, c.blockSize, old(data[..n]), mask[..n]))
      && data[n..] == old(data[n..])
  {
    var n := blocks * c.blockSize;
    BlocksAreWhole(c.blockSize, blocks);
    XorMask(data, mask, n);
    ProcessBlocks(c.dec, c.blockSize, data, blocks);
    label before:
    XorMask(data, mask, n);
    if data == mask { XorSelf(old@before(data[..n])); }
  }

  /** encrypt on a span: the whole blocks of the buffer. Bytes beyond the last whole block stay as they are. */
  method EncryptSpan(c: BlockCipher, data: array<Byte>)
    requires c.Lawful()
    modifies data
    ensures var n := data.Length / c.blockSize * c.blockSize;
      && n <= data.Length < n + c.blockSize && Whole(c.blockSize, n)
      && data[..n] == Blockwise(c.enc, c.blockSize, old(data[..n]))
      && data[n..] == old(data[n..])
  {
    var blocks := data.Length / c.blockSize;
    assert data.Length == blocks * c.blockSize + data.Length % c.blockSize;
    ProcessBlocks(c.enc, c.blockSize, data, blocks);
  }
}
