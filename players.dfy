/** The players of players.hh that have bodies in the header: the random
 * engine, and the constants of the searching engine.
 *
 * A move is represented here by its key in the total order of moves that
 * orders the legal-move set (the order of PieceMove, defined in utils.hh,
 * which is not part of this model). The legal-move set is then the
 * strictly increasing sequence of its keys, which is the order in which
 * the set is iterated.
 */
module Players {

  type MoveKey = int

  /** Keys in ascending order with no repetition: the iteration order of an
   * ordered set. */
  predicate StrictlyIncreasing(s: seq<MoveKey>)
  {
    forall i, j :: 0 <= i < j < |s| ==> s[i] < s[j]
  }

  /** The elements of the set smaller than a given key. */
  function Below(s: seq<MoveKey>, key: MoveKey): set<MoveKey>
  {
    set m | m in s && m < key
  }

  /** An ordered set of n keys has n distinct elements. */
  lemma {:induction false} DistinctCount(s: seq<MoveKey>)
    requires StrictlyIncreasing(s)
    ensures |set m | m in s| == |s|
  {
    if s != [] {
      var init := s[..|s| - 1];
      DistinctCount(init);
      assert (set m | m in s) == (set m | m in init) + {s[|s| - 1]};
    }
  }

  /** In an ordered set, the element at position k has exactly k smaller
   * elements. */
  lemma RankOfPosition(s: seq<MoveKey>, k: nat)
    requires StrictlyIncreasing(s) && k < |s|
    ensures |Below(s, s[k])| == k
  {
    var prefix := s[..k];
    assert Below(s, s[k]) == set m | m in prefix;
    DistinctCount(prefix);
  }

  /** Conversely, the number of smaller elements fixes the element: the
   * only member with k smaller elements is the one at position k. */
  lemma PositionOfRank(s: seq<MoveKey>, m: MoveKey)
    requires StrictlyIncreasing(s) && m in s
    ensures |Below(s, m)| < |s| && s[|Below(s, m)|] == m
  {
    var j :| 0 <= j < |s| && s[j] == m;
    RankOfPosition(s, j);
  }

  /** EngineRandom::canMove: the random engine always has a move to make. */
  function CanMove(): (can: bool)
    ensures can
  {
    true
  }

  /** EngineRandom::getMove, with the value of rand() passed in as
   * `random`: advances random % n steps from the smallest of the n legal
   * moves. The set must not be empty (the remainder would divide by zero).
   * The move returned is legal, and exactly random % n legal moves are
   * smaller than it. */
  function GetMove(legalMoves: seq<MoveKey>, random: nat): (move: MoveKey)
    requires |legalMoves| > 0 && StrictlyIncreasing(legalMoves)
    ensures move in legalMoves
    ensures |Below(legalMoves, move)| == random % |legalMoves|
  {
    var steps := random % |legalMoves|;
    RankOfPosition(legalMoves, steps);
    legalMoves[steps]
  }

  /** Every legal move can be chosen: for each there is a value of rand()
   * that selects it. */
  lemma EveryMoveReachable(legalMoves: seq<MoveKey>, move: MoveKey)
    requires |legalMoves| > 0 && StrictlyIncreasing(legalMoves)
    requires move in legalMoves
    ensures exists random: nat :: GetMove(legalMoves, random) == move
  {
    PositionOfRank(legalMoves, move);
    var k := |Below(legalMoves, move)|;
    assert GetMove(legalMoves, k) == move;
  }

  // Settings and piece values of the searching engine EngineV1
  // (players.hh:108-116). Its search and evaluation are not part of this
  // model.
  const MAX_DEPTH: nat := 4
  const INF: int := 0x7fff_ffff  // INT_MAX for a 32-bit int

  const PAWN_VALUE: int := 100
  const KNIGHT_VALUE: int := 320
  const BISHOP_VALUE: int := 330
  const ROOK_VALUE: int := 500
  const QUEEN_VALUE: int := 900
  const KING_VALUE: int := 20000
}
