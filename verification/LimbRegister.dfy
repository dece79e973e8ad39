/** BigInt's register: a limb vector with a lazily computed count of significant limbs. */
module LimbRegister {
  import opened Bits
  import opened Words

  /** One past the largest size_t, which takes four bytes or eight; sizes are computed modulo this. */
  type SizeRange = r: nat | r == 0x1_0000_0000 || r == 0x1_0000_0000_0000_0000 witness 0x1_0000_0000

  const SIZE_RANGE: SizeRange

  /** The cache value that means "not computed". */
  const NPOS: nat := SIZE_RANGE - 1

  /** std::vector as the register uses it: contents, and how much fits without reallocation. */
  class WordVector {
    var words: seq<Word>
    var capacity: nat

    ghost predicate Valid()
      reads this
    {
      |words| <= capacity
    }

    constructor (ws: seq<Word>)
      ensures Valid() && words == ws
    {
      words, capacity := ws, |ws|;
    }

    method Resize(n: nat)
      requires Valid()
      modifies this
      ensures Valid() && words == Resized(old(words), n)
      ensures capacity >= old(capacity)
      ensures n <= old(capacity) ==> capacity == old(capacity)
    {
      if n > capacity {
        var room :| room >= n;
        capacity := room;
      }
      words := Resized(words, n);
    }

    method Assign(ws: seq<Word>)
      requires Valid()
      modifies this
      ensures Valid() && words == ws
    {
      if |ws| > capacity {
        var room :| room >= |ws|;
        capacity := room;
      }
      words := ws;
    }

    method Swap(other: WordVector)
      requires Valid() && other.Valid()
      modifies this, other
      ensures Valid() && other.Valid()
      ensures words == old(other.words) && other.words == old(words)
      ensures capacity == old(other.capacity) && other.capacity == old(capacity)
    {
      words, other.words := other.words, words;
      capacity, other.capacity := other.capacity, capacity;
    }
  }

  /** The size grow_to asks the vector for. The rounding is size_t arithmetic. */
  function GrowTarget(n: nat, size: nat, capacity: nat): nat {
    if n <= size then size
    else if n <= capacity then n
    else (n + (8 - n % 8)) % SIZE_RANGE
  }

  /**
   grow_to delivers at least `n` limbs and drops none exactly when the rounding does not wrap; in
   the last eight sizes of size_t it rounds to zero and empties the register instead.
   */
  lemma GrowTargetIsEnoughIff(n: nat, size: nat, capacity: nat)
    requires size <= capacity && n < SIZE_RANGE
    ensures n <= GrowTarget(n, size, capacity) && size <= GrowTarget(n, size, capacity)
            <==> n <= capacity || n < SIZE_RANGE - 8
    ensures n > capacity && n >= SIZE_RANGE - 8 ==> GrowTarget(n, size, capacity) == 0
  {
    if n > capacity && n >= SIZE_RANGE - 8 {
      assert n % 8 == n - (SIZE_RANGE - 8);
    }
  }

  /** A register that has to be reallocated gets the least multiple of eight above what was asked for. */
  lemma GrowTargetIsRounded(n: nat, size: nat, capacity: nat)
    requires size <= capacity < n < SIZE_RANGE - 8
    ensures GrowTarget(n, size, capacity) % 8 == 0 && n < GrowTarget(n, size, capacity) <= n + 8
  {
    assert (n + (8 - n % 8)) % 8 == 0;
  }

  predicate GrowthFits(n: nat, capacity: nat) {
    n <= capacity || n < SIZE_RANGE - 8
  }

  /** Is a cached count right for these limbs? */
  predicate CacheAgrees(cached: nat, words: seq<Word>) {
    cached == NPOS || cached == SigWords(words)
  }

  /**
   resize does not touch the cache. A computed count survives it exactly when no significant limb
   is cut off.
   */
  lemma ResizeKeepsCacheIff(cached: nat, words: seq<Word>, n: nat)
    requires CacheAgrees(cached, words)
    ensures CacheAgrees(cached, Resized(words, n)) <==> cached == NPOS || SigWords(words) <= n
  {
    ResizedMeaning(words, n);
  }

  // ---------- Runs of register operations ----------

  /** The register as a value: its limbs and its cached count. */
  datatype Register = Register(words: seq<Word>, cached: nat) {
    predicate Agrees() {
      CacheAgrees(cached, words)
    }

    /** The cached count is computed if necessary. */
    function Counted(): Register {
      if cached == NPOS then this.(cached := SigWords(words)) else this
    }
  }

  /** `target` is the size the vector is asked for when it has to grow. */
  datatype Operation =
    | SetWordOp(i: nat, w: Word, target: nat)
    | SetWordsOp(ws: seq<Word>)
    | GrowOp(target: nat)
    | ShrinkOp(minSize: nat)
    | ResizeOp(n: nat)
    | SwapVectorOp(other: seq<Word>)
    | SwapOp(other: seq<Word>, otherCached: nat)
    | CountOp

  /** Operations that the header's callers can issue: growth reaches the index, partners are sound. */
  predicate Applicable(r: Register, op: Operation) {
    match op
    case SetWordOp(i, w, target) => i < |r.words| || w == 0 || i < target
    case SwapOp(other, cached) => CacheAgrees(cached, other)
    case _ => true
  }

  function Apply(r: Register, op: Operation): Register
    requires Applicable(r, op)
  {
    match op
    case SetWordOp(i, w, target) =>
      if i < |r.words| then Register(r.words[i := w], NPOS)
      else if w == 0 then Register(r.words, NPOS)
      else Register(Resized(r.words, target)[i := w], NPOS)
    case SetWordsOp(ws) => Register(ws, NPOS)
    case GrowOp(target) => r.(words := Resized(r.words, target))
    case ShrinkOp(minSize) =>
      var counted := r.Counted();
      counted.(words := Resized(r.words, if minSize < counted.cached then counted.cached else minSize))
    case ResizeOp(n) => r.(words := Resized(r.words, n))
    case SwapVectorOp(other) => Register(other, NPOS)
    case SwapOp(other, cached) => Register(other, cached)
    case CountOp => r.Counted()
  }

  /** The operation cuts off no limb that a computed count still refers to. */
  predicate CutsNothingCounted(r: Register, op: Operation) {
    match op
    case GrowOp(target) => r.cached == NPOS || SigWords(r.words) <= target
    case ResizeOp(n) => r.cached == NPOS || SigWords(r.words) <= n
    case _ => true
  }

  lemma StepKeepsCacheIff(r: Register, op: Operation)
    requires r.Agrees() && Applicable(r, op)
    ensures Apply(r, op).Agrees() <==> CutsNothingCounted(r, op)
  {
    match op
    case GrowOp(target) => ResizeKeepsCacheIff(r.cached, r.words, target);
    case ResizeOp(n) => ResizeKeepsCacheIff(r.cached, r.words, n);
    case ShrinkOp(minSize) =>
      var counted := r.Counted();
      ResizeKeepsCacheIff(counted.cached, r.words, if minSize < counted.cached then counted.cached else minSize);
    case _ =>
  }

  lemma GrownValue(words: seq<Word>, i: nat, w: Word, target: nat)
    requires |words| <= i < target
    ensures Value(Resized(words, target)[i := w]) == Value(words) + (w - 0) * Pow2(WORD_BITS * i)
  {
    hide Pow2, Value;
    ResizedMeaning(words, target);
    ValueUpdate(Resized(words, target), i, w);
  }

  /**
   set_word_at is a point update of the zero-extended limb sequence, whether it writes in place,
   grows first, or returns early because a zero beyond the end is already there.
   */
  lemma SetWordIsPointUpdate(r: Register, i: nat, w: Word, target: nat)
    requires Applicable(r, SetWordOp(i, w, target))
    ensures var r' := Apply(r, SetWordOp(i, w, target));
      && (forall k: nat :: WordAt(r'.words, k) == if k == i then w else WordAt(r.words, k))
      && Value(r'.words) == Value(r.words) + (w - WordAt(r.words, i)) * Pow2(WORD_BITS * i)
  {
    hide Pow2, Value;
    if i < |r.words| {
      ValueUpdate(r.words, i, w);
    } else if w == 0 {
      assert 0 * Pow2(WORD_BITS * i) == 0;
    } else {
      GrownValue(r.words, i, w, target);
    }
  }

  predicate AllApplicable(r: Register, ops: seq<Operation>)
    decreases |ops|
  {
    ops == [] || (Applicable(r, ops[0]) && AllApplicable(Apply(r, ops[0]), ops[1..]))
  }

  /** The cached count is right in every state of the run. */
  predicate AlwaysAgrees(r: Register, ops: seq<Operation>)
    requires AllApplicable(r, ops)
    decreases |ops|
  {
    r.Agrees() && (ops == [] || AlwaysAgrees(Apply(r, ops[0]), ops[1..]))
  }

  predicate NeverCutsCounted(r: Register, ops: seq<Operation>)
    requires AllApplicable(r, ops)
    decreases |ops|
  {
    ops == [] || (CutsNothingCounted(r, ops[0]) && NeverCutsCounted(Apply(r, ops[0]), ops[1..]))
  }

  /**
   Over any sequence of operations the cached count is right in every state, if and only if no
   resize (and no wrapped growth) cuts off limbs while the count is computed.
   */
  lemma {:induction false} RunKeepsCacheIff(r: Register, ops: seq<Operation>)
    requires r.Agrees() && AllApplicable(r, ops)
    ensures AlwaysAgrees(r, ops) <==> NeverCutsCounted(r, ops)
    decreases |ops|
  {
    if ops != [] {
      StepKeepsCacheIff(r, ops[0]);
      if CutsNothingCounted(r, ops[0]) {
        RunKeepsCacheIff(Apply(r, ops[0]), ops[1..]);
      }
    }
  }

  class Data {
    const reg: WordVector
    var sigWords: nat

    /** The structure is sound; the cache may or may not be right. */
    ghost predicate Sound()
      reads this, reg
    {
      reg.Valid()
    }

    /** A computed count is the count of the current limbs. */
    ghost predicate Valid()
      reads this, reg
    {
      Sound() && CacheAgrees(sigWords, reg.words)
    }

    constructor (ws: seq<Word>)
      ensures Valid() && fresh(reg) && reg.words == ws
    {
      reg := new WordVector(ws);
      sigWords := NPOS;
    }

    function Snapshot(): Register
      reads this, reg
    {
      Register(reg.words, sigWords)
    }

    function GetWordAt(n: nat): (w: Word)
      reads this, reg
      ensures w == WordAt(reg.words, n)
    {
      if n < |reg.words| then reg.words[n] else 0
    }

    method InvalidateSigWords()
      modifies this
      ensures sigWords == NPOS
    {
      sigWords := NPOS;
    }

    /** Computes the count if necessary, and hands out a cached one unchecked; never changes the limbs. */
    method GetSigWords() returns (r: nat)
      requires Sound()
      modifies this
      ensures Sound() && (old(Valid()) ==> Valid() && r == SigWords(reg.words))
      ensures r == if old(sigWords) == NPOS then SigWords(reg.words) else old(sigWords)
      ensures Applicable(old(Snapshot()), CountOp) && Snapshot() == Apply(old(Snapshot()), CountOp)
      ensures reg.words == old(reg.words) && sigWords == r
    {
      if sigWords == NPOS {
        sigWords := SigWords(reg.words);
      }
      r := sigWords;
    }

    method GrowTo(n: nat)
      requires Sound() && n < SIZE_RANGE
      modifies reg
      ensures Sound()
      ensures var op := GrowOp(GrowTarget(n, |old(reg.words)|, old(reg.capacity)));
        Applicable(old(Snapshot()), op) && Snapshot() == Apply(old(Snapshot()), op)
      ensures GrowthFits(n, old(reg.capacity)) ==>
        && |reg.words| >= n
        && Value(reg.words) == Value(old(reg.words)) && SigWords(reg.words) == SigWords(old(reg.words))
        && (old(Valid()) ==> Valid())
        && forall k: nat :: WordAt(reg.words, k) == WordAt(old(reg.words), k)
      ensures n <= |old(reg.words)| ==> reg.words == old(reg.words)
      ensures |old(reg.words)| < n <= old(reg.capacity) ==> |reg.words| == n
      ensures old(reg.capacity) < n < SIZE_RANGE - 8 ==> |reg.words| % 8 == 0 && n < |reg.words| <= n + 8
    {
      hide Value, SigWords;
      ghost var target := GrowTarget(n, |reg.words|, reg.capacity);
      GrowTargetIsEnoughIff(n, |reg.words|, reg.capacity);
      if reg.capacity < n < SIZE_RANGE - 8 { GrowTargetIsRounded(n, |reg.words|, reg.capacity); }
      ResizedMeaning(reg.words, target);
      if n > |reg.words| {
        if n <= reg.capacity {
          reg.Resize(n);
        } else {
          reg.Resize((n + (8 - n % 8)) % SIZE_RANGE);
        }
      } else {
        assert Resized(reg.words, target) == reg.words;
      }
    }

    method SetWordAt(i: nat, w: Word)
      requires Sound()
      requires i < |reg.words| || w == 0 || (i + 1 < SIZE_RANGE && GrowthFits(i + 1, reg.capacity))
      modifies this, reg
      ensures Valid()
      ensures var op := SetWordOp(i, w, GrowTarget(i + 1, |old(reg.words)|, old(reg.capacity)));
        Applicable(old(Snapshot()), op) && Snapshot() == Apply(old(Snapshot()), op)
      ensures forall k: nat :: WordAt(reg.words, k) == if k == i then w else WordAt(old(reg.words), k)
      ensures Value(reg.words) == Value(old(reg.words)) + (w - WordAt(old(reg.words), i)) * Pow2(WORD_BITS * i)
      ensures |old(reg.words)| <= i && w == 0 ==> reg.words == old(reg.words)
      ensures i < |old(reg.words)| ==> |reg.words| == |old(reg.words)|
      ensures |old(reg.words)| <= i < old(reg.capacity) && w != 0 ==> |reg.words| == i + 1
      ensures old(reg.capacity) <= i && w != 0 ==> |reg.words| % 8 == 0 && i + 1 < |reg.words| <= i + 9
    {
      hide Pow2, Value, SigWords;
      ghost var target := GrowTarget(i + 1, |reg.words|, reg.capacity);
      if i >= |reg.words| && w != 0 {
        GrowTargetIsEnoughIff(i + 1, |reg.words|, reg.capacity);
      }
      SetWordIsPointUpdate(Snapshot(), i, w, target);
      InvalidateSigWords();
      if i >= |reg.words| {
        if w == 0 {
          return;
        }
        GrowTo(i + 1);
      }
      reg.words := reg.words[i := w];
    }

    method SetWords(ws: seq<Word>)
      requires Sound()
      modifies this, reg
      ensures Valid() && Applicable(old(Snapshot()), SetWordsOp(ws))
      ensures Snapshot() == Apply(old(Snapshot()), SetWordsOp(ws))
      ensures reg.words == ws && sigWords == NPOS
    {
      InvalidateSigWords();
      reg.Assign(ws);
    }

    method ShrinkToFit(minSize: nat)
      requires Valid()
      modifies this, reg
      ensures Valid() && Applicable(old(Snapshot()), ShrinkOp(minSize))
      ensures Snapshot() == Apply(old(Snapshot()), ShrinkOp(minSize))
      ensures |reg.words| == if minSize < SigWords(old(reg.words)) then SigWords(old(reg.words)) else minSize
      ensures forall k: nat :: WordAt(reg.words, k) == WordAt(old(reg.words), k)
      ensures Value(reg.words) == Value(old(reg.words)) && SigWords(reg.words) == SigWords(old(reg.words))
    {
      hide Pow2, Value, SigWords;
      var s := GetSigWords();
      var n := if minSize < s then s else minSize;
      ResizedMeaning(reg.words, n);
      reg.Resize(n);
    }

    /** Leaves the cache alone, so the cache stays right exactly when the resize keeps the value's limbs. */
    method Resize(n: nat)
      requires Valid()
      modifies reg
      ensures Sound() && Applicable(old(Snapshot()), ResizeOp(n))
      ensures Snapshot() == Apply(old(Snapshot()), ResizeOp(n))
      ensures |reg.words| == n && forall k | 0 <= k < n :: reg.words[k] == WordAt(old(reg.words), k)
      ensures Valid() <==> sigWords == NPOS || SigWords(old(reg.words)) <= n
    {
      ResizeKeepsCacheIff(sigWords, reg.words, n);
      reg.Resize(n);
    }

    /** Exchanges limbs and cached counts. */
    method Swap(other: Data)
      requires Valid() && other.Valid()
      requires this == other || reg != other.reg
      modifies this, reg, other, other.reg
      ensures Valid() && other.Valid()
      ensures Snapshot() == old(other.Snapshot()) && other.Snapshot() == old(Snapshot())
      ensures var op := SwapOp(old(other.reg.words), old(other.sigWords));
        Applicable(old(Snapshot()), op) && Snapshot() == Apply(old(Snapshot()), op)
    {
      reg.Swap(other.reg);
      sigWords, other.sigWords := other.sigWords, sigWords;
    }

    /** Exchanges limbs with a bare vector; the count of the new limbs is unknown. */
    method SwapVector(vector: WordVector)
      requires Sound() && vector.Valid()
      modifies this, reg, vector
      ensures Valid() && vector.Valid()
      ensures reg.words == old(vector.words) && sigWords == NPOS && vector.words == old(reg.words)
      ensures Applicable(old(Snapshot()), SwapVectorOp(old(vector.words)))
      ensures Snapshot() == Apply(old(Snapshot()), SwapVectorOp(old(vector.words)))
    {
      reg.Swap(vector);
      InvalidateSigWords();
    }
  }
}
