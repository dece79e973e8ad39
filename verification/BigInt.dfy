/** Sign-magnitude integers over the limb register. */
module BigInt {
  import opened Bits
  import opened Words
  import opened LimbRegister

  datatype Sign = Negative | Positive

  function Reverse(sign: Sign): (r: Sign)
    ensures r != sign
  {
    if sign == Positive then Negative else Positive
  }

  function Signed(sign: Sign, magnitude: nat): int {
    var m: int := magnitude;
    if sign == Negative then -m else m
  }

  /** Setting bit `n` when asked to and not already set. */
  function BitIncrease(value: nat, n: nat, setIt: bool): nat {
    if setIt && !TestBit(value, n) then Pow2(n) else 0
  }

  /** The mask built by shifting a flag is a power of two inside the word, or zero. */
  lemma MaskIs(setIt: bool, s: nat)
    requires s < WORD_BITS
    ensures ShiftLeft(if setIt then 1 else 0, s) == if setIt then Pow2(s) else 0
    ensures Pow2(s) < BASE
  {
    Pow2Monotone(s + 1, WORD_BITS);
    assert 1 * Pow2(s) == Pow2(s) && 0 * Pow2(s) == 0;
    SmallRemainder(Pow2(s), BASE);
    SmallRemainder(0, BASE);
  }

  /** The limb of a size_t bit position is far below the sizes at which growth wraps. */
  lemma LimbInRange(n: nat)
    requires n < SIZE_RANGE
    ensures n / WORD_BITS < SIZE_RANGE - 9 && n % WORD_BITS < WORD_BITS
  {
    SplitIndex(n);
    if WORD_BITS == 32 {
      assert n / 32 < SIZE_RANGE - 9;
    } else {
      assert n / 64 < SIZE_RANGE - 9;
    }
  }

  lemma SmallRemainder(x: nat, b: nat)
    requires x < b
    ensures x % b == x
  {
  }

  /** `|` on unsigned words. */
  function OrWord(a: Word, b: Word): Word {
    BitOrBound(a, b, WORD_BITS);
    BitOr(a, b)
  }

  /** Or-ing the mask into the limb that holds bit `n` changes the value by that bit's weight. */
  lemma OrIntoLimb(ws: seq<Word>, n: nat, setIt: bool)
    ensures var which, s := n / WORD_BITS, n % WORD_BITS;
      var w := WordAt(ws, which);
      var w' := OrWord(w, ShiftLeft(if setIt then 1 else 0, s));
      && (w' - w) * Pow2(WORD_BITS * which) == BitIncrease(Value(ws), n, setIt)
      && (setIt ==> w' != 0)
  {
    SplitIndex(n);
    var which, s := n / WORD_BITS, n % WORD_BITS;
    var w := WordAt(ws, which);
    MaskIs(setIt, s);
    ValueBit(ws, n);
    var p := Pow2(WORD_BITS * which);
    if setIt {
      BitOrPow2(w, s);
      Pow2Add(s, WORD_BITS * which);
      SameProduct(BitOr(w, Pow2(s)) - w, if TestBit(w, s) then 0 else Pow2(s), p);
    } else {
      assert BitOr(w, 0) == w;
      SameProduct(BitOr(w, 0) - w, 0, p);
    }
  }

  lemma SameProduct(x: int, y: int, p: int)
    requires x == y
    ensures x * p == y * p && 0 * p == 0
  {
  }

  /** A single bit at position `n` needs one limb more than lie below it. */
  lemma PowerOfTwoLimbs(ws: seq<Word>, n: nat)
    requires Value(ws) == Pow2(n)
    ensures SigWords(ws) == n / WORD_BITS + 1
  {
    hide Pow2, SigWords, Value, Limb, Offset;
    ValueRange(ws);
    ValueZero(ws);
    SplitIndex(n);
    Pow2Order(WORD_BITS * (SigWords(ws) - 1), n);
    Pow2Order(WORD_BITS * SigWords(ws), n);
    BetweenMultiples(WORD_BITS, Limb(n), Offset(n), SigWords(ws) - 1, n);
  }

  lemma BetweenMultiples(w: nat, q: nat, r: nat, s: nat, n: nat)
    requires w * q + r == n && r < w && w * s <= n < w * (s + 1)
    ensures s == q
  {
    MulNext(w, s);
    if s < q {
      MulMonotone(w, s + 1, q);
    } else if q < s {
      MulMonotone(w, q + 1, s);
      MulNext(w, q);
    }
  }

  class BigInt {
    const data: Data
    var sign: Sign

    ghost predicate Valid()
      reads this, data, data.reg
    {
      data.Valid()
    }

    function Magnitude(): nat
      reads this, data, data.reg
    {
      Value(data.reg.words)
    }

    function IntValue(): int
      reads this, data, data.reg
    {
      Signed(sign, Magnitude())
    }

    /** No negative zero. */
    ghost predicate Canonical()
      reads this, data, data.reg
    {
      sign == Negative ==> Magnitude() != 0
    }

    /** The two objects share no storage. */
    ghost predicate Apart(other: BigInt) {
      this != other && data != other.data && data.reg != other.data.reg
    }

    constructor ()
      ensures Valid() && Canonical() && IntValue() == 0 && data.reg.words == []
      ensures fresh(data) && fresh(data.reg)
    {
      data := new Data([]);
      sign := Positive;
    }

    constructor Copy(other: BigInt)
      requires other.Valid()
      ensures Valid() && sign == other.sign && data.reg.words == other.data.reg.words
      ensures fresh(data) && fresh(data.reg)
    {
      data := new Data(other.data.reg.words);
      sign := other.sign;
    }

    function GetBit(n: nat): (r: bool)
      reads this, data, data.reg
    {
      BitOfWord(data.GetWordAt(n / WORD_BITS), n % WORD_BITS) == 1
    }

    /** get_bit is the binary digit of the magnitude, for every position. */
    lemma GetBitIsDigit(n: nat)
      ensures GetBit(n) <==> (Magnitude() / Pow2(n)) % 2 == 1
      ensures GetBit(n) <==> TestBit(Magnitude(), n)
    {
      ValueBit(data.reg.words, n);
      TestBitIsDivMod(Magnitude(), n);
      TestBitIsDivMod(WordAt(data.reg.words, n / WORD_BITS), n % WORD_BITS);
    }

    method ConditionallySetBit(n: nat, setIt: bool)
      requires Valid() && n < SIZE_RANGE
      modifies data, data.reg
      ensures Valid()
      ensures Magnitude() == old(Magnitude()) + BitIncrease(old(Magnitude()), n, setIt)
      ensures forall m: nat :: TestBit(Magnitude(), m) <==> old(TestBit(Magnitude(), m)) || (m == n && setIt)
    {
      hide SigWords, Value, TestBit, OrWord, ShiftLeft;
      LimbInRange(n);
      var which := n / WORD_BITS;
      var mask := ShiftLeft(if setIt then 1 else 0, n % WORD_BITS);
      OrIntoLimb(data.reg.words, n, setIt);
      ghost var before := data.reg.words;
      data.SetWordAt(which, OrWord(data.GetWordAt(which), mask));
      forall m: nat
        ensures TestBit(Value(data.reg.words), m) <==> TestBit(Value(before), m) || (m == n && setIt)
      {
        OnlyThatBit(before, data.reg.words, n, setIt, m);
      }
    }

    method SetBit(n: nat)
      requires Valid() && n < SIZE_RANGE
      modifies data, data.reg
      ensures Valid()
      ensures Magnitude() == old(Magnitude()) + BitIncrease(old(Magnitude()), n, true)
    {
      ConditionallySetBit(n, true);
    }

    static method PowerOf2(n: nat) returns (b: BigInt)
      requires n < SIZE_RANGE
      ensures fresh(b) && b.Valid() && b.Canonical()
      ensures b.IntValue() == Pow2(n) && SigWords(b.data.reg.words) == n / WORD_BITS + 1
    {
      b := new BigInt();
      TestBitZero(n);
      b.SetBit(n);
      PowerOfTwoLimbs(b.data.reg.words, n);
    }

    method IsZero() returns (r: bool)
      requires Valid()
      modifies data
      ensures Valid() && r == (IntValue() == 0)
    {
      var s := data.GetSigWords();
      ValueZero(data.reg.words);
      r := s == 0;
    }

    method SetSign(newSign: Sign)
      requires Valid()
      modifies this, data
      ensures Valid() && Canonical() && IntValue() == Signed(newSign, old(Magnitude()))
    {
      var s := newSign;
      var zero := IsZero();
      if s == Negative && zero {
        s := Positive;
      }
      sign := s;
    }

    method FlipSign()
      requires Valid()
      modifies this, data
      ensures Valid() && Canonical() && IntValue() == -old(IntValue())
    {
      SetSign(Reverse(sign));
    }

    /** set_words keeps the sign, so it can leave a negative zero; exactly when is stated. */
    method SetWords(ws: seq<Word>)
      requires Valid()
      modifies data, data.reg
      ensures Valid() && IntValue() == Signed(sign, Value(ws))
      ensures Canonical() <==> sign == Positive || exists k :: 0 <= k < |ws| && ws[k] != 0
    {
      ValueZero(ws);
      data.SetWords(ws);
    }

    method Swap(other: BigInt)
      requires Valid() && other.Valid() && (this == other || Apart(other))
      modifies this, data, data.reg, other, other.data, other.data.reg
      ensures Valid() && other.Valid()
      ensures sign == old(other.sign) && other.sign == old(sign)
      ensures data.Snapshot() == old(other.data.Snapshot()) && other.data.Snapshot() == old(data.Snapshot())
      ensures IntValue() == old(other.IntValue()) && other.IntValue() == old(IntValue())
      ensures Canonical() == old(other.Canonical()) && other.Canonical() == old(Canonical())
    {
      data.Swap(other.data);
      sign, other.sign := other.sign, sign;
    }

    /**
     Move assignment: takes everything the other holds, sign of a zero included, and leaves its own
     there. Assigning to itself changes nothing.
     */
    method MoveAssign(other: BigInt)
      requires Valid() && other.Valid() && (this == other || Apart(other))
      modifies this, data, data.reg, other, other.data, other.data.reg
      ensures Valid() && other.Valid()
      ensures sign == old(other.sign) && other.sign == old(sign)
      ensures data.Snapshot() == old(other.data.Snapshot()) && other.data.Snapshot() == old(data.Snapshot())
      ensures IntValue() == old(other.IntValue()) && other.IntValue() == old(IntValue())
      ensures Canonical() == old(other.Canonical()) && other.Canonical() == old(Canonical())
      ensures this == other ==> sign == old(sign) && data.Snapshot() == old(data.Snapshot())
    {
      if this != other {
        Swap(other);
      }
    }

    /**
     The contract of `add`, whose limb arithmetic is not in the header: exact signed addition, and
     no negative zero where there was none.
     */
    method Add(y: seq<Word>, ySign: Sign)
      requires Valid()
      modifies this, data, data.reg
      ensures Valid() && (old(Canonical()) ==> Canonical())
      ensures IntValue() == old(IntValue()) + Signed(ySign, Value(y))
    {
      var sum := Signed(sign, Value(data.reg.words)) + Signed(ySign, Value(y));
      data.SetWords(ToWords(if sum < 0 then -sum else sum));
      sign := if sum < 0 then Negative else Positive;
    }

    /**
     Subtraction through the flipped sign. Flipping the sign of a zero operand gives a negative zero,
     which does no harm: a canonical integer keeps its sign.
     */
    method Sub(y: seq<Word>, ySign: Sign)
      requires Valid()
      modifies this, data, data.reg
      ensures Valid() && (old(Canonical()) ==> Canonical())
      ensures IntValue() == old(IntValue()) - Signed(ySign, Value(y))
      ensures old(Canonical()) && Value(y) == 0 ==> sign == old(sign)
    {
      Add(y, if ySign == Positive then Negative else Positive);
    }

    /** The significant limbs of an operand, as the operators pass them: all of its magnitude. */
    method Operand() returns (ws: seq<Word>)
      requires Valid()
      modifies data
      ensures Valid() && Value(ws) == Magnitude()
    {
      var n := data.GetSigWords();
      ResizedMeaning(data.reg.words, n);
      ws := data.reg.words[..n];
    }

    method AddAssign(y: BigInt)
      requires Valid() && y.Valid() && (this == y || Apart(y))
      modifies this, data, data.reg, y.data
      ensures Valid() && (old(Canonical()) ==> Canonical()) && y.Valid()
      ensures IntValue() == old(IntValue()) + old(y.IntValue())
      ensures this != y ==> y.IntValue() == old(y.IntValue())
    {
      var limbs := y.Operand();
      Add(limbs, y.sign);
    }

    method SubAssign(y: BigInt)
      requires Valid() && y.Valid() && (this == y || Apart(y))
      modifies this, data, data.reg, y.data
      ensures Valid() && (old(Canonical()) ==> Canonical()) && y.Valid()
      ensures old(Canonical()) && old(y.IntValue()) == 0 ==> sign == old(sign)
      ensures IntValue() == old(IntValue()) - old(y.IntValue())
      ensures this != y ==> y.IntValue() == old(y.IntValue())
    {
      var limbs := y.Operand();
      Sub(limbs, y.sign);
    }

    method AddWord(w: Word)
      requires Valid()
      modifies this, data, data.reg
      ensures Valid() && (old(Canonical()) ==> Canonical()) && IntValue() == old(IntValue()) + w
    {
      assert Value([w]) == w + BASE * Value([]);
      Add([w], Positive);
    }

    method SubWord(w: Word)
      requires Valid()
      modifies this, data, data.reg
      ensures Valid() && (old(Canonical()) ==> Canonical()) && IntValue() == old(IntValue()) - w
    {
      assert Value([w]) == w + BASE * Value([]);
      Sub([w], Positive);
    }

    /** Postfix decrement: the old value is returned, in storage of its own. */
    method PostDecrement() returns (before: BigInt)
      requires Valid()
      modifies this, data, data.reg
      ensures Valid() && (old(Canonical()) ==> Canonical()) && IntValue() == old(IntValue()) - 1
      ensures fresh(before) && before.Valid() && before.IntValue() == old(IntValue())
      ensures before.sign == old(sign) && before.data.reg.words == old(data.reg.words)
    {
      before := new BigInt.Copy(this);
      SubWord(1);
    }

    method PostIncrement() returns (before: BigInt)
      requires Valid()
      modifies this, data, data.reg
      ensures Valid() && (old(Canonical()) ==> Canonical()) && IntValue() == old(IntValue()) + 1
      ensures fresh(before) && before.Valid() && before.IntValue() == old(IntValue())
      ensures before.sign == old(sign) && before.data.reg.words == old(data.reg.words)
    {
      before := new BigInt.Copy(this);
      AddWord(1);
    }

    /** The contract of `add2`: a new integer holding the exact signed sum. */
    static method Add2(x: BigInt, y: seq<Word>, ySign: Sign) returns (z: BigInt)
      requires x.Valid()
      ensures fresh(z) && z.Valid() && (x.Canonical() ==> z.Canonical())
      ensures z.IntValue() == x.IntValue() + Signed(ySign, Value(y))
    {
      z := new BigInt.Copy(x);
      z.Add(y, ySign);
    }

    /** Binary plus: neither operand changes value. */
    static method Plus(x: BigInt, y: BigInt) returns (z: BigInt)
      requires x.Valid() && y.Valid() && (x == y || x.Apart(y))
      modifies y.data
      ensures x.Valid() && y.Valid() && x.IntValue() == old(x.IntValue()) && y.IntValue() == old(y.IntValue())
      ensures fresh(z) && z.Valid() && (x.Canonical() ==> z.Canonical())
      ensures z.IntValue() == x.IntValue() + y.IntValue()
    {
      var limbs := y.Operand();
      z := Add2(x, limbs, y.sign);
    }

    /**
     Binary minus through the reversed sign. For a zero y the reversed sign makes a negative zero of it,
     or y was one itself; either way a canonical x gives a canonical result with x's sign.
     */
    static method Minus(x: BigInt, y: BigInt) returns (z: BigInt)
      requires x.Valid() && y.Valid() && (x == y || x.Apart(y))
      modifies y.data
      ensures x.Valid() && y.Valid() && x.IntValue() == old(x.IntValue()) && y.IntValue() == old(y.IntValue())
      ensures fresh(z) && z.Valid() && (x.Canonical() ==> z.Canonical())
      ensures z.IntValue() == x.IntValue() - y.IntValue()
      ensures x.Canonical() && y.IntValue() == 0 ==> z.sign == x.sign
    {
      var limbs := y.Operand();
      z := Add2(x, limbs, Reverse(y.sign));
    }
  }

  /** Setting one bit leaves every other bit of the number as it was. */
  lemma OnlyThatBit(before: seq<Word>, after: seq<Word>, n: nat, setIt: bool, m: nat)
    requires forall k: nat | k != n / WORD_BITS :: WordAt(after, k) == WordAt(before, k)
    requires WordAt(after, n / WORD_BITS)
          == OrWord(WordAt(before, n / WORD_BITS), ShiftLeft(if setIt then 1 else 0, n % WORD_BITS))
    ensures TestBit(Value(after), m) <==> TestBit(Value(before), m) || (m == n && setIt)
  {
    SplitIndex(n);
    SplitIndex(m);
    var which, s := n / WORD_BITS, n % WORD_BITS;
    ValueBit(before, m);
    ValueBit(after, m);
    if m / WORD_BITS == which {
      MaskIs(setIt, s);
      BitOrBits(WordAt(before, which), ShiftLeft(if setIt then 1 else 0, s), m % WORD_BITS);
      SingleBit(s, m % WORD_BITS);
      TestBitZero(m % WORD_BITS);
      assert m == n <==> m % WORD_BITS == s;
    }
  }

  lemma {:induction false} SingleBit(s: nat, k: nat)
    ensures TestBit(Pow2(s), k) <==> s == k
  {
    if s == 0 {
      if k > 0 { TestBitZero(k - 1); }
    } else if k > 0 {
      assert Pow2(s) / 2 == Pow2(s - 1);
      SingleBit(s - 1, k - 1);
    }
  }
}
