// liballoc_memcpy: lib/kernel/memory/liballoc/liballoc.c:82-105.
module Copy {

  const WORD := 8

  /** `len` bytes read at once from src and then written at dst. */
  function Move(m: seq<bv8>, dst: int, src: int, len: nat): (r: seq<bv8>)
    requires 0 <= dst && 0 <= src && dst + len <= |m| && src + len <= |m|
    ensures |r| == |m|
  {
    m[..dst] + m[src..src + len] + m[dst + len..]
  }

  /** One byte after the other, lowest first: the plain copy. */
  function ByteCopy(m: seq<bv8>, dst: int, src: int, n: nat): (r: seq<bv8>)
    requires 0 <= dst && 0 <= src && dst + n <= |m| && src + n <= |m|
    ensures |r| == |m|
    decreases n
  {
    if n == 0 then m else ByteCopy(Move(m, dst, src, 1), dst + 1, src + 1, n - 1)
  }

  /** What the two loops compute: whole words while eight bytes are left, then bytes. */
  function WordCopy(m: seq<bv8>, dst: int, src: int, n: nat): (r: seq<bv8>)
    requires 0 <= dst && 0 <= src && dst + n <= |m| && src + n <= |m|
    ensures |r| == |m|
    decreases n
  {
    if n >= WORD then WordCopy(Move(m, dst, src, WORD), dst + WORD, src + WORD, n - WORD)
    else ByteCopy(m, dst, src, n)
  }

  /** The copy does not run into bytes it has yet to read. */
  predicate Clear(dst: int, src: int, n: nat)
  {
    dst <= src || src + n <= dst
  }

  lemma MoveMove(m: seq<bv8>, dst: int, src: int, k: nat, n: nat)
    requires 0 <= dst && 0 <= src && dst + n <= |m| && src + n <= |m| && Clear(dst, src, n) && k <= n
    ensures Clear(dst + k, src + k, n - k)
    ensures Move(Move(m, dst, src, k), dst + k, src + k, n - k) == Move(m, dst, src, n)
  {
    var f, g := Move(m, dst, src, k), Move(m, dst, src, n);
    var h := Move(f, dst + k, src + k, n - k);
    forall i | 0 <= i < |m| ensures h[i] == g[i] {
      if dst + k <= i < dst + n {
        assert h[i] == f[src + (i - dst)];
        assert f[src + (i - dst)] == m[src + (i - dst)];
      }
    }
  }

  lemma {:induction false} ByteCopyMoves(m: seq<bv8>, dst: int, src: int, n: nat)
    requires 0 <= dst && 0 <= src && dst + n <= |m| && src + n <= |m| && Clear(dst, src, n)
    ensures ByteCopy(m, dst, src, n) == Move(m, dst, src, n)
    decreases n
  {
    if n > 0 {
      MoveMove(m, dst, src, 1, n);
      hide Move;
      ByteCopyMoves(Move(m, dst, src, 1), dst + 1, src + 1, n - 1);
    } else {
      assert Move(m, dst, src, 0) == m;
    }
  }

  /** On ranges that do not run into each other the word loop moves the bytes and changes nothing else. */
  lemma {:induction false} WordCopyMoves(m: seq<bv8>, dst: int, src: int, n: nat)
    requires 0 <= dst && 0 <= src && dst + n <= |m| && src + n <= |m| && Clear(dst, src, n)
    ensures WordCopy(m, dst, src, n) == Move(m, dst, src, n)
    decreases n
  {
    hide Move;
    if n >= WORD {
      MoveMove(m, dst, src, WORD, n);
      WordCopyMoves(Move(m, dst, src, WORD), dst + WORD, src + WORD, n - WORD);
    } else {
      ByteCopyMoves(m, dst, src, n);
    }
  }

  lemma {:induction false} ByteCopySplit(m: seq<bv8>, dst: int, src: int, n: nat, k: nat)
    requires 0 <= dst && 0 <= src && dst + n <= |m| && src + n <= |m| && k <= n
    ensures ByteCopy(m, dst, src, n) == ByteCopy(ByteCopy(m, dst, src, k), dst + k, src + k, n - k)
    decreases k
  {
    if k > 0 {
      ByteCopySplit(Move(m, dst, src, 1), dst + 1, src + 1, n - 1, k - 1);
    }
  }

  /** The word loop is a plain byte copy on every memory exactly when no word overlaps its own target
      from below. */
  lemma WordCopyIsByteCopy(size: nat, dst: int, src: int, n: nat)
    requires 0 <= dst && 0 <= src && dst + n <= size && src + n <= size
    ensures (n < WORD || Clear(dst, src, WORD)) <==>
      forall m: seq<bv8> :: |m| == size ==> WordCopy(m, dst, src, n) == ByteCopy(m, dst, src, n)
  {
    hide WordCopy, ByteCopy;
    if n < WORD || Clear(dst, src, WORD) {
      forall m: seq<bv8> | |m| == size ensures WordCopy(m, dst, src, n) == ByteCopy(m, dst, src, n) {
        WordIsByte(m, dst, src, n);
      }
    } else {
      var m: seq<bv8> := seq(size, i => if i == src then 1 else 0);
      WordDiffers(m, dst, src, n);
    }
  }

  lemma {:induction false} WordIsByte(m: seq<bv8>, dst: int, src: int, n: nat)
    requires 0 <= dst && 0 <= src && dst + n <= |m| && src + n <= |m|
    requires n < WORD || Clear(dst, src, WORD)
    ensures WordCopy(m, dst, src, n) == ByteCopy(m, dst, src, n)
    decreases n
  {
    hide ByteCopy, Move;
    if n >= WORD {
      ByteCopySplit(m, dst, src, n, WORD);
      ByteCopyMoves(m, dst, src, WORD);
      WordIsByte(Move(m, dst, src, WORD), dst + WORD, src + WORD, n - WORD);
    }
  }

  lemma {:induction false} ByteCopyKeeps(m: seq<bv8>, dst: int, src: int, n: nat, i: nat)
    requires 0 <= dst && 0 <= src && dst + n <= |m| && src + n <= |m| && i < |m| && i < dst
    ensures ByteCopy(m, dst, src, n)[i] == m[i]
    decreases n
  {
    if n > 0 {
      ByteCopyKeeps(Move(m, dst, src, 1), dst + 1, src + 1, n - 1, i);
    }
  }

  lemma {:induction false} WordCopyKeeps(m: seq<bv8>, dst: int, src: int, n: nat, i: nat)
    requires 0 <= dst && 0 <= src && dst + n <= |m| && src + n <= |m| && i < |m| && i < dst
    ensures WordCopy(m, dst, src, n)[i] == m[i]
    decreases n
  {
    if n >= WORD {
      WordCopyKeeps(Move(m, dst, src, WORD), dst + WORD, src + WORD, n - WORD, i);
    } else {
      ByteCopyKeeps(m, dst, src, n, i);
    }
  }

  lemma {:induction false} ByteCopyAt(m: seq<bv8>, dst: int, src: int, n: nat, k: nat)
    requires 0 <= src < dst && dst + n <= |m| && k < n
    ensures ByteCopy(m, dst, src, n)[dst + k] == ByteCopy(m, dst, src, k)[src + k]
  {
    ByteCopySplit(m, dst, src, n, k);
    var c := ByteCopy(m, dst, src, k);
    ByteCopyKeeps(Move(c, dst + k, src + k, 1), dst + k + 1, src + k + 1, n - k - 1, dst + k);
  }

  /** A one at src reaches dst + (dst - src) through the byte copy but not through the first word. */
  lemma WordDiffers(m: seq<bv8>, dst: int, src: int, n: nat)
    requires 0 <= src < dst < src + WORD && n >= WORD && dst + n <= |m|
    requires m[src] == 1 && m[dst] == 0
    ensures WordCopy(m, dst, src, n) != ByteCopy(m, dst, src, n)
  {
    hide ByteCopy, WordCopy, Move;
    var d := dst - src;
    assert src + d == dst;
    ByteCopyCarries(m, dst, src, n);
    WordStep(m, dst, src, n);
    WordCopyKeeps(Move(m, dst, src, WORD), dst + WORD, src + WORD, n - WORD, dst + d);
    MoveAt(m, dst, src, WORD, d);
  }

  lemma MoveAt(m: seq<bv8>, dst: int, src: int, len: nat, k: nat)
    requires 0 <= dst && 0 <= src && dst + len <= |m| && src + len <= |m| && k < len
    ensures Move(m, dst, src, len)[dst + k] == m[src + k]
  {
  }

  lemma ByteCopyCarries(m: seq<bv8>, dst: int, src: int, n: nat)
    requires 0 <= src < dst < src + WORD && n >= WORD && dst + n <= |m|
    ensures ByteCopy(m, dst, src, n)[dst + (dst - src)] == m[src]
  {
    hide ByteCopy;
    var d := dst - src;
    ByteCopyAt(m, dst, src, n, d);
    ByteCopyAt(m, dst, src, d, 0);
    WordStep(m, dst, src, 0);
  }

  lemma WordStep(m: seq<bv8>, dst: int, src: int, n: nat)
    requires 0 <= dst && 0 <= src && dst + n <= |m| && src + n <= |m|
    ensures n >= WORD ==>
      WordCopy(m, dst, src, n) == WordCopy(Move(m, dst, src, WORD), dst + WORD, src + WORD, n - WORD)
    ensures n < WORD ==> WordCopy(m, dst, src, n) == ByteCopy(m, dst, src, n)
    ensures n > 0 ==> ByteCopy(m, dst, src, n) == ByteCopy(Move(m, dst, src, 1), dst + 1, src + 1, n - 1)
    ensures ByteCopy(m, dst, src, 0) == m
  {
  }

  /** `len` bytes, read together and written together: one load and one store. */
  method Store(a: array<bv8>, dst: int, src: int, len: nat)
    requires 0 <= dst && 0 <= src && dst + len <= a.Length && src + len <= a.Length
    modifies a
    ensures a[..] == Move(old(a[..]), dst, src, len)
  {
    forall k | 0 <= k < len {
      a[dst + k] := a[src + k];
    }
  }

  method Memcpy(a: array<bv8>, dst: int, src: int, n: nat)
    requires 0 <= dst && 0 <= src && dst + n <= a.Length && src + n <= a.Length
    modifies a
    ensures a[..] == WordCopy(old(a[..]), dst, src, n)
  {
    hide WordCopy, ByteCopy, Move;
    ghost var m := a[..];
    var d, s, left := dst, src, n;
    while left >= WORD
      invariant d - dst == s - src == n - left && 0 <= left <= n
      invariant WordCopy(a[..], d, s, left) == WordCopy(m, dst, src, n)
    {
      WordStep(a[..], d, s, left);
      Store(a, d, s, WORD);
      d, s, left := d + WORD, s + WORD, left - WORD;
    }
    WordStep(a[..], d, s, left);
    while left > 0
      invariant d - dst == s - src == n - left && 0 <= left <= n
      invariant ByteCopy(a[..], d, s, left) == WordCopy(m, dst, src, n)
    {
      WordStep(a[..], d, s, left);
      Store(a, d, s, 1);
      d, s, left := d + 1, s + 1, left - 1;
    }
    WordStep(a[..], d, s, 0);
  }
}
