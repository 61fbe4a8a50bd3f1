// The segregated size classes of the heap: lib/kernel/memory/liballoc/liballoc.c:46-70.
module SizeClass {

  const MAX_EXP := 32
  const MIN_EXP := 4

  function Pow2(n: nat): (p: int)
    ensures p > 0
  {
    if n == 0 then 1 else 2 * Pow2(n - 1)
  }

  function Log2(n: int): nat
    requires n > 0
  {
    if n == 1 then 0 else 1 + Log2(n / 2)
  }

  /** What getexp returns: -1 below the 16-byte quantum, else the binary exponent of size. */
  function Exp(size: int): int
    requires 0 <= size
  {
    if size < 16 then -1 else Log2(size)
  }

  /** The free list that holds blocks with `payload` bytes of room; also the list a request looks in. */
  function ClassOf(payload: int): int
    requires 0 <= payload
  {
    if Exp(payload) < MIN_EXP then MIN_EXP else Exp(payload)
  }

  lemma {:induction false} Log2Bounds(n: int)
    requires n > 0
    ensures Pow2(Log2(n)) <= n < Pow2(Log2(n) + 1)
  {
    if n > 1 {
      Log2Bounds(n / 2);
    }
  }

  lemma {:induction false} Pow2Monotonic(a: nat, b: nat)
    requires a <= b
    ensures Pow2(a) <= Pow2(b)
    decreases b
  {
    if a < b {
      Pow2Monotonic(a, b - 1);
    }
  }

  lemma Log2Unique(n: int, e: nat)
    requires Pow2(e) <= n < Pow2(e + 1)
    ensures Log2(n) == e
  {
    Log2Bounds(n);
    if Log2(n) < e {
      Pow2Monotonic(Log2(n) + 1, e);
    } else if e < Log2(n) {
      Pow2Monotonic(e + 1, Log2(n));
    }
  }

  /** Bounds of the class: a list index always names one of the 32 lists, and class 4 and 5 hold
      less than 64 bytes of payload. */
  lemma ClassBounds(payload: int)
    requires 0 <= payload < 0x1_0000_0000
    ensures MIN_EXP <= ClassOf(payload) < MAX_EXP
    ensures payload < Pow2(ClassOf(payload) + 1)
    ensures ClassOf(payload) > MIN_EXP ==> Pow2(ClassOf(payload)) <= payload
  {
    assert Pow2(4) == 16 && Pow2(5) == 32;
    if payload >= 16 {
      Log2Bounds(payload);
      if Log2(payload) >= 32 {
        Pow2Monotonic(32, Log2(payload));
        Pow2At32();
      }
      if Log2(payload) < 4 {
        Pow2Monotonic(Log2(payload) + 1, 4);
      }
    }
  }

  lemma Pow2At32()
    ensures Pow2(32) == 0x1_0000_0000
  {
    assert Pow2(8) == 256;
    assert Pow2(16) == 0x1_0000 by { assert Pow2(12) == 4096; }
    assert Pow2(24) == 0x100_0000 by { assert Pow2(20) == 0x10_0000; }
    assert Pow2(28) == 0x1000_0000;
  }

  /** getexp, with its loop over the shift amount. */
  method GetExp(size: int) returns (e: int)
    requires 0 <= size < 0x1_0000_0000
    ensures e == Exp(size)
    ensures size >= 16 ==> MIN_EXP <= e < MAX_EXP && Pow2(e) <= size < Pow2(e + 1)
  {
    if size < 16 {
      return -1;
    }
    ClassBounds(size);
    Pow2At32();
    assert Pow2(4) == 16;
    var shift := MIN_EXP;
    while shift < MAX_EXP
      invariant MIN_EXP <= shift <= MAX_EXP
      invariant Pow2(shift - 1) <= size
    {
      if Pow2(shift) > size {
        break;
      }
      shift := shift + 1;
    }
    Log2Unique(size, shift - 1);
    return shift - 1;
  }
}
