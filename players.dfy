/**
 * The player table of ttt.c (getPlayerInfo): player 1 plays 'X', player 2
 * plays 'O', and the table is searched in either direction.
 */
module Players {
  import opened Board

  /** Rows of (player number, grid character), as in the C table. */
  const PlayerCharTable: seq<seq<int>> := [[1, 'X' as int], [2, 'O' as int]]

  /** toupper for the ASCII letters; every other character is left alone. */
  function ToUpper(c: char): (u: char)
  {
    if 'a' <= c <= 'z' then (c as int - 32) as char else c
  }

  /** A goal getPlayerInfo accepts: 'c'/'C' (wants the character) or 'n'/'N' (wants the number). */
  predicate IsGoal(goal: char)
  {
    ToUpper(goal) == 'C' || ToUpper(goal) == 'N'
  }

  /** The grid character of a player number (the C `PLAYER_n_CHAR` constants). */
  function Mark(player: int): (c: char)
  {
    if player == 1 then Player1Char else Player2Char
  }

  /**
   * The table scan from row i on: the first row whose column `from` equals
   * key gives its column `to`; no matching row gives 0.
   */
  function Lookup(key: int, from: int, to: int, i: nat): (r: int)
    requires 0 <= from < 2 && 0 <= to < 2 && i <= |PlayerCharTable|
    ensures r == 0 <==> forall k :: i <= k < |PlayerCharTable| ==> PlayerCharTable[k][from] != key
    ensures r != 0 ==>
      exists k :: i <= k < |PlayerCharTable| && PlayerCharTable[k][from] == key && r == PlayerCharTable[k][to]
    decreases |PlayerCharTable| - i
  {
    if i == |PlayerCharTable| then 0
    else if PlayerCharTable[i][from] == key then PlayerCharTable[i][to]
    else Lookup(key, from, to, i + 1)
  }

  /**
   * getPlayerInfo: under goal 'c' maps a player number to its character,
   * under goal 'n' a character to its player number; a key with no match
   * gives 0. Any other goal is the source's fatal exit, so it is excluded.
   */
  function GetPlayerInfo(key: int, goal: char): (r: int)
    requires IsGoal(goal)
    ensures ToUpper(goal) == 'C' ==>
      r == (if key == 1 then 'X' as int else if key == 2 then 'O' as int else 0)
    ensures ToUpper(goal) == 'N' ==>
      r == (if key == 'X' as int then 1 else if key == 'O' as int then 2 else 0)
  {
    if ToUpper(goal) == 'C' then Lookup(key, 0, 1, 0) else Lookup(key, 1, 0, 0)
  }

  /** The player number a grid character stands for (0 for any other character). */
  function PlayerNumber(c: char): (p: int)
  {
    GetPlayerInfo(c as int, 'n')
  }

  /**
   * The table agrees with the `PLAYER_n_CHAR` constants and is a two-way
   * mapping: number to character and back gives the number again, and
   * character to number and back gives the character again.
   */
  lemma PlayerInfoRoundTrip(p: int)
    requires p == 1 || p == 2
    ensures GetPlayerInfo(p, 'c') == Mark(p) as int
    ensures GetPlayerInfo(GetPlayerInfo(p, 'c'), 'n') == p
    ensures PlayerNumber(Mark(p)) == p
    ensures GetPlayerInfo(GetPlayerInfo(Mark(p) as int, 'n'), 'C') == Mark(p) as int
  {
  }

  /** Only 'X' and 'O' name a player; the blank character names none. */
  lemma PlayerNumberRange(c: char)
    ensures PlayerNumber(c) == 0 || PlayerNumber(c) == 1 || PlayerNumber(c) == 2
    ensures PlayerNumber(c) != 0 <==> c == Player1Char || c == Player2Char
    ensures PlayerNumber(Blank) == 0
  {
  }
}
