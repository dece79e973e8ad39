/** Little-endian limb sequences and the integers they stand for. */
module Words {
  import opened Bits

  /** The width of a limb, 32 or 64 bits depending on the platform. */
  type Width = w: nat | w == 32 || w == 64 witness 64

  const WORD_BITS: Width
  const BASE: nat := Pow2(WORD_BITS)

  type Word = w: nat | w < BASE

  // ---------- Positions ----------

  /** The limb that holds bit `n`, and the bit's place in it, counted down limb by limb. */
  function Limb(n: nat): nat {
    if n < WORD_BITS then 0 else 1 + Limb(n - WORD_BITS)
  }

  function Offset(n: nat): nat {
    if n < WORD_BITS then n else Offset(n - WORD_BITS)
  }

  lemma DivStep(n: nat, w: Width)
    requires n >= w
    ensures (n - w) / w == n / w - 1 && (n - w) % w == n % w
  {
    if w == 32 {
      assert (n - 32) / 32 == n / 32 - 1 && (n - 32) % 32 == n % 32;
    } else {
      assert (n - 64) / 64 == n / 64 - 1 && (n - 64) % 64 == n % 64;
    }
  }

  lemma DivSmall(n: nat, w: Width)
    requires n < w
    ensures n / w == 0 && n % w == n
  {
    if w == 32 {
      assert n / 32 == 0 && n % 32 == n;
    } else {
      assert n / 64 == 0 && n % 64 == n;
    }
  }

  lemma {:induction false} SplitIndex(n: nat)
    ensures Limb(n) == n / WORD_BITS && Offset(n) == n % WORD_BITS
    ensures Offset(n) < WORD_BITS && WORD_BITS * Limb(n) + Offset(n) == n
  {
    if n < WORD_BITS {
      DivSmall(n, WORD_BITS);
    } else {
      SplitIndex(n - WORD_BITS);
      DivStep(n, WORD_BITS);
      MulNext(WORD_BITS, Limb(n - WORD_BITS));
    }
  }

  lemma MulNext(b: int, i: int)
    ensures b * (i + 1) == b + b * i
  {
  }

  lemma MulMonotone(b: nat, x: int, y: int)
    requires x <= y
    ensures b * x <= b * y
  {
  }

  /** `b << s` on an unsigned word: bits shifted past the top are lost. */
  function ShiftLeft(b: Word, s: nat): Word {
    (b * Pow2(s)) % BASE
  }

  /** `(w >> s) & 1`. */
  function BitOfWord(w: Word, s: nat): nat {
    (w / Pow2(s)) % 2
  }

  // ---------- Limb sequences ----------

  function Value(ws: seq<Word>): nat {
    if ws == [] then 0 else ws[0] + BASE * Value(ws[1..])
  }

  /** The limb at position `n` of the zero-extended sequence. */
  function WordAt(ws: seq<Word>, n: nat): Word {
    if n < |ws| then ws[n] else 0
  }

  function Zeros(n: nat): (r: seq<Word>)
    ensures |r| == n
  {
    seq(n, _ => 0)
  }

  /** The number of limbs up to the last nonzero one. */
  function SigWords(ws: seq<Word>): (r: nat)
    ensures r <= |ws|
    ensures r > 0 ==> ws[r - 1] != 0
    ensures forall k | r <= k < |ws| :: ws[k] == 0
  {
    if ws == [] then 0
    else if ws[|ws| - 1] != 0 then |ws|
    else SigWords(ws[..|ws| - 1])
  }

  /** std::vector::resize: cut, or pad with zeros. */
  function Resized(ws: seq<Word>, n: nat): (r: seq<Word>)
    ensures |r| == n && forall k | 0 <= k < n :: r[k] == WordAt(ws, k)
  {
    if n <= |ws| then ws[..n] else ws + Zeros(n - |ws|)
  }

  /** Zero limbs above the top do not matter: two sequences with the same limbs mean the same. */
  lemma {:induction false} SameLimbsSameMeaning(a: seq<Word>, b: seq<Word>)
    requires forall k: nat :: WordAt(a, k) == WordAt(b, k)
    ensures Value(a) == Value(b) && SigWords(a) == SigWords(b)
    decreases |a| + |b|
  {
    if a != [] || b != [] {
      var a', b' := if a == [] then [] else a[1..], if b == [] then [] else b[1..];
      forall k: nat
        ensures WordAt(a', k) == WordAt(b', k)
      {
        assert WordAt(a', k) == WordAt(a, k + 1);
        assert WordAt(b', k) == WordAt(b, k + 1);
      }
      SameLimbsSameMeaning(a', b');
      assert WordAt(a, 0) == WordAt(b, 0);
      assert Value(a) == WordAt(a, 0) + BASE * Value(a');
      assert Value(b) == WordAt(b, 0) + BASE * Value(b');
    }
    SameTop(a, b);
  }

  lemma SameTop(a: seq<Word>, b: seq<Word>)
    requires forall k: nat :: WordAt(a, k) == WordAt(b, k)
    ensures SigWords(a) == SigWords(b)
  {
    var m, n := SigWords(a), SigWords(b);
    assert m > 0 ==> WordAt(a, m - 1) == WordAt(b, m - 1);
    assert n > 0 ==> WordAt(a, n - 1) == WordAt(b, n - 1);
  }

  /** Resizing keeps the meaning exactly when it keeps every significant limb. */
  lemma ResizedMeaning(ws: seq<Word>, n: nat)
    ensures SigWords(ws) <= n <==> SigWords(Resized(ws, n)) == SigWords(ws)
    ensures SigWords(ws) <= n ==> Value(Resized(ws, n)) == Value(ws)
  {
    if SigWords(ws) <= n {
      forall k: nat
        ensures WordAt(Resized(ws, n), k) == WordAt(ws, k)
      {
      }
      SameLimbsSameMeaning(Resized(ws, n), ws);
    }
  }

  /** One limb up, the weight of a limb is BASE times as large. */
  lemma WeightNext(i: nat)
    ensures Pow2(WORD_BITS * (i + 1)) == BASE * Pow2(WORD_BITS * i)
  {
    MulNext(WORD_BITS, i);
    Pow2Add(WORD_BITS, WORD_BITS * i);
  }

  lemma {:induction false} ValueUpdate(ws: seq<Word>, i: nat, w: Word)
    requires i < |ws|
    ensures Value(ws[i := w]) == Value(ws) + (w - ws[i]) * Pow2(WORD_BITS * i)
  {
    hide SigWords;
    var ws' := ws[i := w];
    if i == 0 {
      assert ws'[1..] == ws[1..];
    } else {
      hide Pow2;
      assert ws'[1..] == ws[1..][i - 1 := w];
      ValueUpdate(ws[1..], i - 1, w);
      WeightNext(i - 1);
      Rearrange(BASE, Value(ws[1..]), Value(ws'[1..]), w - ws[i], Pow2(WORD_BITS * (i - 1)));
    }
  }

  lemma Rearrange(b: int, v: int, v': int, d: int, p: int)
    requires v' == v + d * p
    ensures b * v' == b * v + d * (b * p)
  {
    assert b * (d * p) == d * (b * p);
  }

  lemma {:induction false} ValueBitAt(ws: seq<Word>, n: nat)
    ensures TestBit(Value(ws), n) == TestBit(WordAt(ws, Limb(n)), Offset(n))
    decreases |ws|
  {
    if ws == [] {
      TestBitZero(n);
      TestBitZero(Offset(n));
    } else if n < WORD_BITS {
      LowBits(ws[0], Value(ws[1..]), WORD_BITS, n);
    } else {
      HighBits(ws[0], Value(ws[1..]), WORD_BITS, n);
      ValueBitAt(ws[1..], n - WORD_BITS);
      assert WordAt(ws[1..], Limb(n) - 1) == WordAt(ws, Limb(n));
    }
  }

  lemma ValueBit(ws: seq<Word>, n: nat)
    ensures TestBit(Value(ws), n) == TestBit(WordAt(ws, n / WORD_BITS), n % WORD_BITS)
  {
    SplitIndex(n);
    ValueBitAt(ws, n);
  }

  lemma {:induction false} ValueZero(ws: seq<Word>)
    ensures Value(ws) == 0 <==> SigWords(ws) == 0
    ensures Value(ws) == 0 <==> forall k | 0 <= k < |ws| :: ws[k] == 0
  {
    if ws != [] {
      ValueZero(ws[1..]);
      assert forall k | 0 <= k < |ws[1..]| :: ws[1..][k] == ws[k + 1];
      if Value(ws) == 0 {
        assert Value(ws[1..]) == 0;
        assert forall k | 1 <= k < |ws| :: ws[k] == ws[1..][k - 1];
      } else if ws[0] == 0 {
        assert Value(ws[1..]) != 0;
      }
    }
  }

  lemma SigWordsCons(ws: seq<Word>)
    requires ws != []
    ensures SigWords(ws) ==
      if SigWords(ws[1..]) > 0 then SigWords(ws[1..]) + 1 else if ws[0] != 0 then 1 else 0
  {
  }

  /** A positive value lies in the range its number of significant limbs promises. */
  lemma {:induction false} ValueRange(ws: seq<Word>)
    ensures Value(ws) < Pow2(WORD_BITS * SigWords(ws))
    ensures SigWords(ws) > 0 ==> Pow2(WORD_BITS * (SigWords(ws) - 1)) <= Value(ws)
  {
    if ws != [] {
      var rest := ws[1..];
      ValueRange(rest);
      SigWordsCons(ws);
      var s := SigWords(rest);
      if s > 0 {
        NextLimbRange(s, Value(rest), ws[0]);
      } else {
        ValueZero(rest);
        assert WORD_BITS * 1 == WORD_BITS;
      }
    }
  }

  lemma NextLimbRange(s: nat, v: nat, w: Word)
    requires s > 0 && Pow2(WORD_BITS * (s - 1)) <= v < Pow2(WORD_BITS * s)
    ensures Pow2(WORD_BITS * s) <= w + BASE * v < Pow2(WORD_BITS * (s + 1))
  {
    hide Pow2;
    WeightNext(s - 1);
    WeightNext(s);
    Scaled(BASE, Pow2(WORD_BITS * (s - 1)), v, Pow2(WORD_BITS * s), w);
  }

  lemma Scaled(b: nat, low: nat, v: nat, high: nat, w: nat)
    requires low <= v < high && w < b
    ensures b * low <= w + b * v < b * high
  {
    MulMonotone(b, low, v);
    MulMonotone(b, v + 1, high);
    MulNext(b, v);
  }

  lemma BaseIsLarge()
    ensures BASE >= 2
  {
    Pow2Monotone(1, WORD_BITS);
  }

  /** The lowest limb of an integer, and the rest. */
  function Low(n: nat): Word {
    BaseIsLarge();
    n % BASE
  }

  function High(n: nat): nat {
    BaseIsLarge();
    n / BASE
  }

  lemma SplitLimb(n: nat)
    ensures Low(n) + BASE * High(n) == n
    ensures n > 0 ==> High(n) < n
  {
    hide Pow2;
    BaseIsLarge();
    if n > 0 && High(n) >= n {
      MulMonotone(High(n), 2, BASE);
    }
  }

  lemma OneMoreLimb(w: Word, rest: seq<Word>)
    requires SigWords(rest) == |rest| && (rest == [] ==> w != 0)
    ensures Value([w] + rest) == w + BASE * Value(rest) && SigWords([w] + rest) == |[w] + rest|
  {
    var r := [w] + rest;
    assert r[1..] == rest;
    assert r[|r| - 1] != 0;
  }

  /** The limbs of an integer, without leading zeros. */
  function ToWords(n: nat): (r: seq<Word>)
    ensures Value(r) == n
    ensures SigWords(r) == |r|
  {
    if n == 0 then []
    else
      SplitLimb(n);
      var rest := ToWords(High(n));
      OneMoreLimb(Low(n), rest);
      [Low(n)] + rest
  }
}
