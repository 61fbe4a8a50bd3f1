// Small numbers as 64-bit words: the table indices that alloc_vm computes.
module Words {
  import opened PageEntry

  const TABLE := 512

  function Word(n: nat): bv64
  {
    if n == 0 then 0 else 2 * Word(n / 2) + (if n % 2 == 1 then 1 else 0)
  }

  /** w doubled, plus one if `one`. */
  function Twice(w: bv64, one: bool): bv64
  {
    2 * w + (if one then 1 else 0)
  }

  lemma TwiceNext(w: bv64)
    ensures Twice(w, true) == Twice(w, false) + 1 && Twice(w + 1, false) == Twice(w, true) + 1
  {
  }

  lemma WordEven(h: nat)
    ensures Word(2 * h) == Twice(Word(h), false)
  {
    if h == 0 {
      assert Word(0) == 0;
    } else {
      assert 2 * h / 2 == h && 2 * h % 2 == 0;
    }
  }

  lemma WordOdd(h: nat)
    ensures Word(2 * h + 1) == Twice(Word(h), true)
  {
    assert (2 * h + 1) / 2 == h;
  }

  lemma NextOfEven(h: nat)
    ensures Word(2 * h + 1) == Word(2 * h) + 1
  {
    hide Word, Twice;
    WordEven(h);
    WordOdd(h);
    TwiceNext(Word(h));
  }

  lemma NextOfOdd(h: nat)
    requires Word(h + 1) == Word(h) + 1
    ensures Word(2 * (h + 1)) == Word(2 * h + 1) + 1
  {
    hide Word, Twice;
    WordEven(h + 1);
    WordOdd(h);
    TwiceNext(Word(h));
  }

  lemma Halves(n: nat) returns (h: nat, odd: bool)
    ensures n == if odd then 2 * h + 1 else 2 * h
  {
    h, odd := n / 2, n % 2 == 1;
  }

  lemma {:induction false} WordNext(n: nat)
    ensures Word(n + 1) == Word(n) + 1
  {
    hide Word, Twice;
    var h, odd := Halves(n);
    if odd {
      WordNext(h);
      NextOfOdd(h);
      assert n + 1 == 2 * (h + 1);
    } else {
      NextOfEven(h);
    }
  }

  lemma WordZero()
    ensures Word(0) == 0 && Word(1) == 1
  {
  }

  /** 2 to the k, as a number and as a word. */
  function Limit(k: nat): (nat, bv64)
    requires k <= 9
  {
    match k
    case 0 => (1, 1)
    case 1 => (2, 2)
    case 2 => (4, 4)
    case 3 => (8, 8)
    case 4 => (16, 16)
    case 5 => (32, 32)
    case 6 => (64, 64)
    case 7 => (128, 128)
    case 8 => (256, 256)
    case 9 => (512, 512)
  }

  lemma LimitOne()
    ensures Limit(0) == (1, 1)
  {
  }

  lemma LimitTwice(k: nat)
    requires 0 < k <= 9
    ensures Limit(k).0 == 2 * Limit(k - 1).0 && Limit(k).1 == 2 * Limit(k - 1).1 && Limit(k - 1).1 <= 256
  {
  }

  lemma TwiceFits(w: bv64, one: bool, limit: bv64)
    requires w < limit <= 256
    ensures Twice(w, one) < 2 * limit
  {
  }

  lemma {:induction false} WordFits(n: nat, k: nat)
    requires k <= 9 && n < Limit(k).0
    ensures Word(n) < Limit(k).1
    decreases k
  {
    hide Word, Twice, Limit;
    if k == 0 {
      LimitOne();
      WordZero();
    } else {
      LimitTwice(k);
      var h, odd := Halves(n);
      WordFits(h, k - 1);
      TwiceFits(Word(h), odd, Limit(k - 1).1);
      if odd { WordOdd(h); } else { WordEven(h); }
    }
  }

  lemma {:induction false} WordIsIndex(n: nat)
    requires n < TABLE
    ensures IsIndex(Word(n))
  {
    hide Word;
    WordFits(n, 9);
  }

  lemma {:induction false} Word512()
    ensures Word(511) == 511 && Word(512) == 512
  {
    assert Word(7) == 7 && Word(63) == 63;
    WordNext(511);
  }

  lemma TwiceInjective(v: bv64, a: bool, w: bv64, b: bool)
    requires v < 256 && w < 256 && Twice(v, a) == Twice(w, b)
    ensures v == w && a == b
  {
  }

  lemma {:induction false} WordsDiffer(m: nat, n: nat)
    requires m < TABLE && n < TABLE && Word(m) == Word(n)
    ensures m == n
  {
    hide Word, Twice;
    var h, a := Halves(m);
    var k, b := Halves(n);
    if m != 0 || n != 0 {
      WordFits(h, 8);
      WordFits(k, 8);
      if a { WordOdd(h); } else { WordEven(h); }
      if b { WordOdd(k); } else { WordEven(k); }
      TwiceInjective(Word(h), a, Word(k), b);
      WordsDiffer(h, k);
    }
  }
}
