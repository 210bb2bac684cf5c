/**
 * buddy_test of buddy.c as a verified scenario, and the split/merge round
 * trips it exercises, stated for every block.
 */
module BuddyTest {
  import opened Bits
  import opened Buddy
  import opened LevelCalc

  /** The level() boundary cases buddy_test checks. */
  lemma LevelBoundaries()
    ensures Level(0) == MinLevel && Level(HeadSize) == MinLevel
    ensures Level(200 - HeadSize) == 8 && Level(256 - HeadSize) == 8
    ensures Level(257 - HeadSize) == 9
  {
  }

  /**
   * Splitting a free block and then merging either half gives back the
   * block: the same offset and the same header. Only the header left in the
   * upper half differs from before.
   */
  method SplitMergeRoundTrip(page: Page, block: nat, mergeUpper: bool) returns (merged: nat)
    requires page.Valid() && block < PageLen && !page.heads[block].taken
    requires MinLevel < page.heads[block].level <= PageLevel
    requires Aligned(block, page.heads[block].level)
    modifies page.heads
    ensures merged == block && page.heads[block] == old(page.heads[block])
    ensures var upper := block + Pow2(old(page.heads[block].level) - 1);
      upper < PageLen &&
      page.heads[upper] == Header(false, old(page.heads[block].level) - 1) &&
      forall i :: 0 <= i < PageLen && i != block && i != upper ==> page.heads[i] == old(page.heads[i])
  {
    var upper := page.Split(block);
    merged := page.Merge(if mergeUpper then upper else block);
  }

  /**
   * Splitting the lower half of a free block again and again down to
   * MinLevel and merging back up rebuilds the block. Headers outside the
   * block are never touched.
   */
  method SplitDownMergeUp(page: Page, block: nat)
    requires page.Valid() && block < PageLen && !page.heads[block].taken
    requires MinLevel <= page.heads[block].level <= PageLevel
    requires Aligned(block, page.heads[block].level)
    modifies page.heads
    ensures page.heads[block] == old(page.heads[block])
    ensures forall i :: 0 <= i < PageLen && !(block < i < block + Pow2(old(page.heads[block].level))) ==>
      page.heads[i] == old(page.heads[i])
    decreases page.heads[block].level
  {
    if page.heads[block].level > MinLevel {
      var upper := page.Split(block);
      SplitDownMergeUp(page, block);
      var merged := page.Merge(upper);
      assert merged == block;
    }
  }

  /**
   * The offsets of the self-test's blocks: the page at 0, its halves at 0
   * and 2048, and the quarters of the lower half at 0 and 1024.
   */
  lemma ScenarioOffsets()
    ensures Pow2(11) == PageLen / 2 && Pow2(10) == PageLen / 4
    ensures Aligned(0, 12) && Aligned(0, 11) && Aligned(2048, 11) && Aligned(1024, 10)
    ensures Bit(2048, 11) && Bit(1024, 10)
    ensures GetBuddy(0, 11) == 2048 && GetBuddy(2048, 11) == 0 && GetNext(0, 11) == 2048
    ensures GetBuddy(0, 10) == 1024 && GetNext(0, 10) == 1024 && GetNext(1024, 10) == 2048
  {
  }

  /** buddy_test's first split: the fresh page's block into two halves. */
  method ScenarioFirstSplit(page: Page) returns (buddy1: nat)
    requires page.Valid() && page.heads[0] == Header(false, PageLevel)
    modifies page.heads
    ensures page.Valid() && buddy1 == PageLen / 2
    ensures page.heads[0] == Header(false, PageLevel - 1)
    ensures page.heads[buddy1] == Header(false, PageLevel - 1)
  {
    var block := 0;
    ScenarioOffsets();
    assert page.heads[block].level == PageLevel;

    buddy1 := page.Split(block);
    assert page.heads[block].level == PageLevel - 1;
    assert page.heads[buddy1].level == PageLevel - 1;
    assert buddy1 == block + PageLen / 2;
    assert GetBuddy(block, page.heads[block].level) == buddy1;
    assert GetBuddy(buddy1, page.heads[buddy1].level) == block;
    assert GetNext(block, page.heads[block].level) == buddy1;
  }

  /** buddy_test's second split: the lower half into two quarters. */
  method ScenarioSecondSplit(page: Page, buddy1: nat) returns (buddy2: nat)
    requires page.Valid() && buddy1 == PageLen / 2
    requires page.heads[0] == Header(false, PageLevel - 1)
    requires page.heads[buddy1] == Header(false, PageLevel - 1)
    modifies page.heads
    ensures page.Valid() && buddy2 == PageLen / 4
    ensures page.heads[0] == Header(false, PageLevel - 2)
    ensures page.heads[buddy1] == Header(false, PageLevel - 1)
    ensures page.heads[buddy2] == Header(false, PageLevel - 2)
  {
    var block := 0;
    ScenarioOffsets();
    assert GetBuddy(buddy1, page.heads[buddy1].level) == block;

    buddy2 := page.Split(block);
    assert page.heads[block].level == PageLevel - 2;
    assert page.heads[buddy1].level == PageLevel - 1;
    assert page.heads[buddy2].level == PageLevel - 2;
    assert buddy2 == block + PageLen / 4;
    assert GetBuddy(block, page.heads[block].level) == buddy2;
    assert GetBuddy(buddy1, page.heads[buddy1].level) == block;
    assert GetNext(block, page.heads[block].level) == buddy2;
    assert GetNext(buddy2, page.heads[buddy2].level) == buddy1;
  }

  /** The second half of buddy_test: merging the two upper halves back. */
  method ScenarioMerges(page: Page, buddy1: nat, buddy2: nat)
    requires page.Valid() && buddy1 == PageLen / 2 && buddy2 == PageLen / 4
    requires page.heads[0] == Header(false, PageLevel - 2)
    requires page.heads[buddy1] == Header(false, PageLevel - 1)
    requires page.heads[buddy2] == Header(false, PageLevel - 2)
    modifies page.heads
    ensures page.Valid() && page.heads[0] == Header(false, PageLevel)
  {
    var block := 0;
    ScenarioOffsets();

    var block1 := page.Merge(buddy2);
    assert page.heads[block].level == PageLevel - 1;
    assert page.heads[buddy1].level == PageLevel - 1;
    assert block == block1;

    var block2 := page.Merge(buddy1);
    assert page.heads[block].level == PageLevel;
    assert block == block2;
  }

  /** buddy_test: two splits of a fresh page, two merges back, then the level() cases. */
  method Scenario() returns (page: Page)
    ensures page.Valid() && page.heads[0] == Header(false, PageLevel)
  {
    page := new Page();
    var buddy1 := ScenarioFirstSplit(page);
    var buddy2 := ScenarioSecondSplit(page, buddy1);
    ScenarioMerges(page, buddy1, buddy2);
    LevelBoundaries();
  }

  /** The full round trip on a fresh page leaves one free page-level block at offset 0. */
  method FreshPageRoundTrip() returns (page: Page)
    ensures page.Valid() && page.heads[0] == Header(false, PageLevel)
  {
    page := new Page();
    SplitDownMergeUp(page, 0);
  }
}
