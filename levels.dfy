/** The level table: a fixed, ascending list of (threshold, name) tiers, and the
    lookup that maps an XP total to the name of the last tier it has reached. */
module Levels {

  datatype Tier = Tier(threshold: int, name: string)

  /** The level every student starts at, and the answer when no tier qualifies. */
  const DEFAULT_LEVEL: string := "Explorer"

  const XP_LEVELS: seq<Tier> := [
    Tier(0, "Explorer"), Tier(500, "Builder"), Tier(1500, "Engineer"),
    Tier(3000, "Scientist"), Tier(5000, "Legend")
  ]

  predicate Ascending(table: seq<Tier>) {
    forall i, j :: 0 <= i < j < |table| ==> table[i].threshold < table[j].threshold
  }

  /** Index of the last tier whose threshold is at most `xp`, or -1 when there is none. */
  function LastAtMost(table: seq<Tier>, xp: int): (k: int)
    ensures -1 <= k < |table|
    ensures k >= 0 ==> table[k].threshold <= xp
    ensures forall j :: k < j < |table| ==> table[j].threshold > xp
  {
    if table == [] then -1
    else if table[|table| - 1].threshold <= xp then |table| - 1
    else LastAtMost(table[..|table| - 1], xp)
  }

  /** The level name a table gives an XP total. */
  function LevelName(table: seq<Tier>, xp: int): string {
    var k := LastAtMost(table, xp);
    if k < 0 then DEFAULT_LEVEL else table[k].name
  }

  /** The level of an XP total under `XP_LEVELS`. */
  function LevelFor(xp: int): string {
    LevelName(XP_LEVELS, xp)
  }

  /** The position of the level of `xp` in `XP_LEVELS` (-1 below the first tier). */
  function LevelRank(xp: int): int {
    LastAtMost(XP_LEVELS, xp)
  }

  /** The loop of the level lookup: every tier reached overwrites the answer. */
  method GetLevel(xp: int) returns (level: string)
    ensures level == LevelFor(xp)
  {
    level := DEFAULT_LEVEL;
    for i := 0 to |XP_LEVELS|
      invariant level == LevelName(XP_LEVELS[..i], xp)
    {
      assert XP_LEVELS[..i + 1][..i] == XP_LEVELS[..i];
      if xp >= XP_LEVELS[i].threshold {
        level := XP_LEVELS[i].name;
      }
    }
    assert XP_LEVELS[..|XP_LEVELS|] == XP_LEVELS;
  }

  lemma LevelTableAscending()
    ensures Ascending(XP_LEVELS) && XP_LEVELS[0].threshold == 0
  {
  }

  /** In an ascending table the chosen tier is the one with the largest threshold not above `xp`:
      every tier up to it qualifies, none after it does, and none qualifies only when `xp` is
      below the first threshold. */
  lemma LargestThresholdAtMost(table: seq<Tier>, xp: int)
    requires Ascending(table)
    ensures var k := LastAtMost(table, xp);
      && (k == -1 <==> (table == [] || xp < table[0].threshold))
      && (forall j :: 0 <= j <= k ==> table[j].threshold <= xp)
  {
  }

  /** A larger XP total never selects an earlier tier. */
  lemma {:induction false} LastAtMostMonotone(table: seq<Tier>, x: int, y: int)
    requires x <= y
    ensures LastAtMost(table, x) <= LastAtMost(table, y)
  {
    if table != [] && table[|table| - 1].threshold > y {
      LastAtMostMonotone(table[..|table| - 1], x, y);
    }
  }

  /** The level never goes down while XP goes up. */
  lemma LevelRankMonotone(x: int, y: int)
    requires x <= y
    ensures LevelRank(x) <= LevelRank(y)
  {
    LastAtMostMonotone(XP_LEVELS, x, y);
  }

  /** The tier bands of `XP_LEVELS`, spelled out. */
  lemma LevelBands(xp: int)
    ensures xp < 500 ==> LevelFor(xp) == "Explorer"
    ensures 500 <= xp < 1500 ==> LevelFor(xp) == "Builder"
    ensures 1500 <= xp < 3000 ==> LevelFor(xp) == "Engineer"
    ensures 3000 <= xp < 5000 ==> LevelFor(xp) == "Scientist"
    ensures 5000 <= xp ==> LevelFor(xp) == "Legend"
  {
    var k := LevelRank(xp);
    LevelTableAscending();
    if 500 <= xp < 1500 {
      assert XP_LEVELS[1].threshold <= xp < XP_LEVELS[2].threshold;
      assert k == 1;
    } else if 1500 <= xp < 3000 {
      assert XP_LEVELS[2].threshold <= xp < XP_LEVELS[3].threshold;
      assert k == 2;
    } else if 3000 <= xp < 5000 {
      assert XP_LEVELS[3].threshold <= xp < XP_LEVELS[4].threshold;
      assert k == 3;
    }
  }

  /** A negative total (only reachable through a penalty) still reads as the default level. */
  lemma NegativeXpIsDefault(xp: int)
    requires xp < 0
    ensures LevelRank(xp) == -1 && LevelFor(xp) == DEFAULT_LEVEL
  {
    LargestThresholdAtMost(XP_LEVELS, xp);
  }
}
