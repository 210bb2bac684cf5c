/**
 * The buddy-system block allocator over one 4 KiB page (buddy.c).
 *
 * The page is page-aligned, so a block's address and its offset within the
 * page agree in every bit below PageLevel; every address computation is done
 * here on offsets 0 .. PageLen. The page memory is modelled by one header
 * entry per offset. Every header write happens at a block start, a multiple
 * of 2^MinLevel, and a header fits in 2^MinLevel bytes, so headers written
 * at distinct block starts never overlap, and the entry at a block start is
 * exactly the header a read there sees. The code reads headers only at block
 * starts; the entries at other offsets stand for no header and carry no
 * meaning.
 */
module Buddy {
  import opened Bits

  const MinLevel: nat := 3
  const PageLevel: nat := 12
  const PageLen: nat := 4096
  /** sizeof(head_t): a one-byte bool, one byte of padding, a two-byte short. */
  const HeadSize: nat := 4
  /** Width of size_t and of the mask built from ONES. */
  const WordBits: nat := 64
  /** 2^64, the number of values of a 64-bit word. */
  const WordRange: nat := 0x1_0000_0000_0000_0000

  lemma WordRangeIsPow2()
    ensures WordRange == Pow2(WordBits)
  {
    Pow2Of64();
  }

  /** PAGE_LEN is 1 << PAGE_LEVEL. */
  lemma PageLenIsPow2()
    ensures PageLen == Pow2(PageLevel)
  {
  }

  /** The compile-time check that the smallest block can hold its own header. */
  lemma HeadFitsMinBlock()
    ensures HeadSize <= Pow2(MinLevel)
  {
  }

  /** The header at the start of every block. */
  datatype Header = Header(taken: bool, level: int)

  /**
   * get_next: the offset just past the block at `a` of the given level. The
   * next block of an aligned block is aligned too (see NextIsNextAligned).
   */
  function GetNext(a: nat, level: nat): (r: nat)
    ensures a < r
    ensures Aligned(a, level) ==> Aligned(r, level)
  {
    NextAligned(a, level);
    a + Pow2(level)
  }

  /** Adding 2^level to an aligned offset gives an aligned offset. */
  lemma NextAligned(a: nat, level: nat)
    ensures Aligned(a, level) ==> Aligned(a + Pow2(level), level)
  {
    if Aligned(a, level) {
      AlignedStep(a, level);
    }
  }

  /**
   * The next block of an aligned block is the next aligned offset of that
   * level: no aligned offset lies in between.
   */
  lemma NextIsNextAligned(a: nat, level: nat)
    requires Aligned(a, level)
    ensures Aligned(GetNext(a, level), level)
    ensures forall x :: a < x < GetNext(a, level) ==> !Aligned(x, level)
  {
    forall x | a < x < GetNext(a, level) {
      AlignedGap(a, x, level);
    }
  }

  /**
   * get_buddy: `a XOR 2^level`, the offset with bit `level` flipped. The
   * buddy of an aligned block is aligned too.
   */
  function GetBuddy(a: nat, level: nat): (r: nat)
    ensures r == if Bit(a, level) then a - Pow2(level) else a + Pow2(level)
    ensures Aligned(a, level) ==> Aligned(r, level)
  {
    XorPow2(a, level);
    BuddyAligned(a, level);
    Xor(a, Pow2(level))
  }

  /** Flipping bit `level` of an aligned offset gives an aligned offset. */
  lemma BuddyAligned(a: nat, level: nat)
    ensures Aligned(a, level) ==> Aligned(Xor(a, Pow2(level)), level)
  {
    if Aligned(a, level) {
      XorPow2(a, level);
      if Bit(a, level) {
        AlignedStepDown(a, level);
        AlignedWeaken(a - Pow2(level), level);
      } else {
        AlignedStep(a, level);
      }
    }
  }

  /**
   * The offset merge computes from the block at `a` of the given level:
   * `a & (ONES << (level + 1))` on a 64-bit word. It is the start of the
   * aligned block of the next level up that holds `a`.
   */
  function Primary(a: nat, level: nat): (r: nat)
    requires a < PageLen && level < PageLevel
    ensures Aligned(r, level + 1) && r <= a < r + Pow2(level + 1)
  {
    PageLenIsPow2();
    WordRangeIsPow2();
    Pow2Monotone(PageLevel, WordBits);
    Pow2Monotone(level + 1, WordBits);
    var mask := WordRange - Pow2(level + 1);
    AndHighMask(a, level + 1, WordBits, mask);
    RoundDownBounds(a, level + 1);
    And(a, mask)
  }

  /** The buddy of the buddy is the block itself. */
  lemma BuddyInvolution(a: nat, level: nat)
    ensures GetBuddy(GetBuddy(a, level), level) == a
  {
    XorInvolution(a, Pow2(level));
  }

  /** Primary is the only aligned block of the next level up that holds `a`. */
  lemma PrimaryUnique(a: nat, level: nat, s: nat)
    requires a < PageLen && level < PageLevel
    requires Aligned(s, level + 1) && s <= a < s + Pow2(level + 1)
    ensures Primary(a, level) == s
  {
    var r := Primary(a, level);
    if r <= s {
      AlignedUnique(r, s, level + 1);
    } else {
      AlignedUnique(s, r, level + 1);
    }
  }

  /**
   * The two halves of an aligned block at `a` of level `level`: both are
   * aligned at the lower level, each is the other's buddy there, the upper
   * half is the next block after the lower one, and the block after the
   * upper half is the block after the whole.
   */
  lemma Halves(a: nat, level: nat)
    requires 0 < level && Aligned(a, level)
    ensures Aligned(a, level - 1) && Aligned(a + Pow2(level - 1), level - 1)
    ensures GetBuddy(a, level - 1) == a + Pow2(level - 1)
    ensures GetBuddy(a + Pow2(level - 1), level - 1) == a
    ensures GetNext(a, level - 1) == a + Pow2(level - 1)
    ensures GetNext(a + Pow2(level - 1), level - 1) == GetNext(a, level)
  {
    AlignedWeaken(a, level - 1);
    AlignedBit(a, level - 1);
    AlignedStep(a, level - 1);
  }

  /** The upper buddy of a pair (bit `level` set) merges into its lower buddy. */
  lemma PrimaryOfUpper(a: nat, level: nat)
    requires a < PageLen && level < PageLevel && Aligned(a, level) && Bit(a, level)
    ensures GetBuddy(a, level) == a - Pow2(level)
    ensures Primary(a, level) == GetBuddy(a, level)
    ensures Primary(GetBuddy(a, level), level) == GetBuddy(a, level)
  {
    AlignedStepDown(a, level);
    PrimaryUnique(a, level, a - Pow2(level));
    PrimaryUnique(a - Pow2(level), level, a - Pow2(level));
  }

  /** The lower buddy of a pair (bit `level` clear) is its own merge target. */
  lemma PrimaryOfLower(a: nat, level: nat)
    requires a < PageLen && level < PageLevel && Aligned(a, level) && !Bit(a, level)
    ensures GetBuddy(a, level) == a + Pow2(level) < PageLen
    ensures Primary(a, level) == a && Primary(GetBuddy(a, level), level) == a
  {
    AlignedBit(a, level);
    PageLenIsPow2();
    AlignedFits(a, level + 1, PageLevel);
    assert Pow2(level + 1) == 2 * Pow2(level);
    var b := a + Pow2(level);
    assert GetBuddy(a, level) == b < PageLen;
    PrimaryUnique(a, level, a);
    PrimaryUnique(b, level, a);
  }

  /**
   * Merge finds the same block from either buddy of an aligned pair: the
   * lower-addressed one, whose bit `level` is clear.
   */
  lemma PrimaryOfPair(a: nat, level: nat)
    requires a < PageLen && level < PageLevel && Aligned(a, level)
    ensures GetBuddy(a, level) < PageLen
    ensures Primary(a, level) == if Bit(a, level) then GetBuddy(a, level) else a
    ensures Primary(GetBuddy(a, level), level) == Primary(a, level)
  {
    if Bit(a, level) {
      PrimaryOfUpper(a, level);
    } else {
      PrimaryOfLower(a, level);
    }
  }

  /** One 4 KiB page, as the headers stored in it. */
  class Page {
    /**
     * One header entry per offset. At a block start it is the header stored
     * there; at any other offset it stands for no header.
     */
    const heads: array<Header>

    ghost predicate Valid()
      reads this
    {
      heads.Length == PageLen
    }

    /**
     * new_block, once the OS has supplied a zero-filled page: the page-level
     * header is stamped at offset 0, and every other entry holds the
     * zero header, so a block start that no split has written yet reads as a
     * free level-0 header.
     */
    constructor ()
      ensures Valid() && fresh(heads)
      ensures heads[0] == Header(false, PageLevel)
      ensures forall i :: 0 < i < PageLen ==> heads[i] == Header(false, 0)
    {
      heads := new Header[PageLen](_ => Header(false, 0));
      new;
      heads[0] := heads[0].(level := PageLevel);
    }

    /**
     * split: halves the block at `block`, rewriting its header as free at
     * the lower level and copying it to the upper half, whose offset it
     * returns. The code checks neither the level nor the taken flag; the
     * level bound is the allocator's invariant that keeps every block, and
     * so every header, inside the page and at least 2^MinLevel bytes long.
     */
    method Split(block: nat) returns (other: nat)
      requires Valid() && block < PageLen
      requires MinLevel < heads[block].level <= PageLevel
      requires Aligned(block, heads[block].level)
      modifies heads
      ensures Valid()
      ensures other == block + Pow2(old(heads[block].level) - 1) && other < PageLen
      ensures heads[block] == heads[other] == Header(false, old(heads[block].level) - 1)
      ensures forall i :: 0 <= i < PageLen && i != block && i != other ==> heads[i] == old(heads[i])
      ensures Aligned(block, heads[block].level) && Aligned(other, heads[other].level)
      ensures GetBuddy(block, heads[block].level) == other
      ensures GetBuddy(other, heads[other].level) == block
      ensures GetNext(block, heads[block].level) == other
      ensures GetNext(other, heads[other].level) == GetNext(block, old(heads[block].level))
    {
      ghost var level: nat := heads[block].level;
      var newLevel := heads[block].level - 1;
      heads[block] := Header(false, newLevel);
      Halves(block, level);
      AlignedBit(block, newLevel);
      OrPow2(block, newLevel);
      other := Or(block, Pow2(newLevel));
      PageLenIsPow2();
      AlignedFits(block, level, PageLevel);
      heads[other] := heads[block];
    }

    /**
     * merge: joins the block at `block` with its buddy by raising the level
     * in the lower-addressed buddy's header, whose offset it returns. The
     * code checks neither the buddy's level nor its taken flag: it adds one
     * to whatever level the lower buddy's header holds, and leaves the header
     * of the upper buddy as it was. When the lower buddy is at the block's
     * level, as the allocator keeps buddies, the new level is at most
     * PageLevel.
     */
    method Merge(block: nat) returns (primary: nat)
      requires Valid() && block < PageLen
      requires MinLevel <= heads[block].level < PageLevel
      requires Aligned(block, heads[block].level)
      modifies heads
      ensures Valid()
      ensures primary == if Bit(block, old(heads[block].level))
                         then GetBuddy(block, old(heads[block].level)) else block
      ensures primary < PageLen
      ensures heads[primary] == old(heads[primary]).(level := old(heads[primary].level) + 1)
      ensures forall i :: 0 <= i < PageLen && i != primary ==> heads[i] == old(heads[i])
      ensures Aligned(primary, old(heads[block].level) + 1)
      ensures old(heads[primary].level) == old(heads[block].level) ==>
        heads[primary].level == old(heads[block].level) + 1 <= PageLevel
    {
      ghost var level: nat := heads[block].level;
      primary := Primary(block, heads[block].level);
      PrimaryOfPair(block, level);
      heads[primary] := heads[primary].(level := heads[primary].level + 1);
    }
  }
}
