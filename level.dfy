/**
 * The level calculator of buddy.c: the smallest block level whose block
 * holds a payload plus its header, clamped up to MinLevel, or -1 when even
 * a whole page is too small.
 */
module LevelCalc {
  import opened Bits
  import opened Buddy

  datatype Option<T> = None | Some(value: T)

  /**
   * Number of significant bits of n; for 0 < n < 2^64 this is
   * `8 * sizeof(long) - __builtin_clzl(n)`.
   */
  function BitWidth(n: nat): (w: nat)
  {
    if n == 0 then 0 else 1 + BitWidth(n / 2)
  }

  /** l is ceil(log2(t)): the least level whose block of 2^l bytes holds t bytes. */
  ghost predicate IsCeilLog2(t: nat, l: nat)
  {
    t <= Pow2(l) && (l == 0 || Pow2(l - 1) < t)
  }

  /** n needs BitWidth(n) bits: 2^(BitWidth(n) - 1) <= n < 2^BitWidth(n). */
  lemma {:induction false} BitWidthBounds(n: nat)
    ensures n < Pow2(BitWidth(n))
    ensures n > 0 ==> Pow2(BitWidth(n) - 1) <= n
  {
    if n > 0 {
      BitWidthBounds(n / 2);
    }
  }

  /** The bit width of t - 1 is ceil(log2(t)), for every t >= 1. */
  lemma CeilLog2ByBitWidth(t: nat)
    requires t >= 1
    ensures IsCeilLog2(t, BitWidth(t - 1))
  {
    BitWidthBounds(t - 1);
  }

  /** ceil(log2(t)) is unique. */
  lemma CeilLog2Unique(t: nat, l1: nat, l2: nat)
    requires IsCeilLog2(t, l1) && IsCeilLog2(t, l2)
    ensures l1 == l2
  {
    if l1 < l2 {
      Pow2Monotone(l1, l2 - 1);
    } else if l2 < l1 {
      Pow2Monotone(l2, l1 - 1);
    }
  }

  /** The final step of level(): -1 above the page level, at least MinLevel otherwise. */
  function ClampLevel(width: nat): (r: int)
    ensures r == -1 <==> width > PageLevel
    ensures r != -1 ==> MinLevel <= r <= PageLevel && width <= r
    ensures r > MinLevel ==> r == width
  {
    if width > PageLevel then -1 else if width < MinLevel then MinLevel else width
  }

  /**
   * level: the least level in MinLevel .. PageLevel whose block holds
   * allocLen payload bytes plus the header, or -1 if there is none.
   */
  function Level(allocLen: nat): (r: int)
    ensures r == -1 <==> Pow2(PageLevel) < allocLen + HeadSize
    ensures r != -1 ==> MinLevel <= r <= PageLevel && allocLen + HeadSize <= Pow2(r)
    ensures r > MinLevel ==> Pow2(r - 1) < allocLen + HeadSize
  {
    ClampedCeilLog2(allocLen + HeadSize);
    ClampLevel(BitWidth(allocLen + HeadSize - 1))
  }

  /** Clamping ceil(log2(total)) gives the least admissible level that holds total bytes. */
  lemma ClampedCeilLog2(total: nat)
    requires total >= 1
    ensures var r := ClampLevel(BitWidth(total - 1));
      (r == -1 <==> Pow2(PageLevel) < total) &&
      (r != -1 ==> total <= Pow2(r)) &&
      (r > MinLevel ==> Pow2(r - 1) < total)
  {
    CeilLog2ByBitWidth(total);
    ClampedLevelBounds(total, BitWidth(total - 1));
  }

  /** The clamp of any l = ceil(log2(total)) bounds total as level() promises. */
  lemma ClampedLevelBounds(total: nat, l: nat)
    requires IsCeilLog2(total, l)
    ensures var r := ClampLevel(l);
      (r == -1 <==> Pow2(PageLevel) < total) &&
      (r != -1 ==> total <= Pow2(r)) &&
      (r > MinLevel ==> Pow2(r - 1) < total)
  {
    assert Pow2(PageLevel) == 4096 && Pow2(MinLevel) == 8;
    if l > PageLevel {
      Pow2Monotone(PageLevel, l - 1);
      assert ClampLevel(l) == -1 && Pow2(PageLevel) < total;
    } else if l < MinLevel {
      Pow2Monotone(l, MinLevel);
      assert ClampLevel(l) == MinLevel && total <= Pow2(MinLevel);
    } else {
      Pow2Monotone(l, PageLevel);
      assert ClampLevel(l) == l && total <= Pow2(PageLevel);
    }
  }

  /**
   * Level is max(MinLevel, ceil(log2(allocLen + HeadSize))) when that is at
   * most PageLevel, and -1 otherwise.
   */
  lemma LevelIsClampedCeilLog2(allocLen: nat, l: nat)
    requires IsCeilLog2(allocLen + HeadSize, l)
    ensures Level(allocLen) == if l > PageLevel then -1 else if l < MinLevel then MinLevel else l
  {
    CeilLog2ByBitWidth(allocLen + HeadSize);
    CeilLog2Unique(allocLen + HeadSize, l, BitWidth(allocLen + HeadSize - 1));
  }

  /** A larger payload never gets a smaller level, and fits whenever a larger one fits. */
  lemma LevelMonotone(m: nat, n: nat)
    requires m <= n && Level(n) != -1
    ensures Level(m) != -1 && Level(m) <= Level(n)
  {
    var r, r' := Level(n), Level(m);
    Pow2Monotone(r, PageLevel);
    if r' > r {
      Pow2Monotone(r, r' - 1);
    }
  }

  /**
   * level() as compiled for a 64-bit target: `alloc_len + sizeof(head_t)`
   * wraps around modulo 2^64 (WordRange, the range Merge's mask is built
   * on), and `(long) total_len - 1` is taken on a 64-bit word. That
   * subtraction is signed, and at total_len == 2^63 it overflows, which C
   * leaves undefined; it is modelled as the wrap-around a two's-complement
   * target performs. The bit scan of zero is undefined (None).
   */
  function LevelAsWritten(allocLen: nat): (r: Option<int>)
    requires allocLen < WordRange
    ensures r == None <==> allocLen + HeadSize == WordRange + 1
    ensures r != None ==> r.value == -1 || MinLevel <= r.value <= PageLevel
  {
    var total := (allocLen + HeadSize) % WordRange;
    var bits := (total + WordRange - 1) % WordRange;
    if bits == 0 then None else Some(ClampLevel(BitWidth(bits)))
  }

  /** Without wrap-around, the compiled level() agrees with Level. */
  lemma LevelAsWrittenAgrees(allocLen: nat)
    requires allocLen + HeadSize < WordRange
    ensures LevelAsWritten(allocLen) == Some(Level(allocLen))
  {
    var total := allocLen + HeadSize;
    DivModUnique(total, WordRange, 0, total);
    DivModUnique(total + WordRange - 1, WordRange, 1, total - 1);
    var width := BitWidth(total - 1);
    CeilLog2ByBitWidth(total);
    if width <= PageLevel {
      Pow2Monotone(width, PageLevel);
    } else {
      Pow2Monotone(PageLevel, width - 1);
    }
  }

  /**
   * A request of 2^64 - 2 bytes wraps the total to 2 and the compiled
   * level() answers MinLevel, a block of 8 bytes, where Level refuses it.
   */
  lemma LevelWrapsAround()
    ensures LevelAsWritten(WordRange - 2) == Some(MinLevel as int)
    ensures Pow2(MinLevel) < WordRange - 2 + HeadSize
    ensures Level(WordRange - 2) == -1
  {
    assert BitWidth(1) == 1;
    assert Pow2(PageLevel) == 4096;
  }
}
