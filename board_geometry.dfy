/** The square geometry of the bitboards in board.hh.
 *
 * Every bitboard is a 64-bit mask with one bit per square. Seen from
 * White's side, the most significant bit is a1 and the least significant
 * bit is h8. The file masks (A_FILE .. H_FILE) and rank masks
 * (RANK_1 .. RANK_8) are the constants the move generator scans with.
 *
 * A square is named by a file index (0 = file a .. 7 = file h) and a rank
 * index (0 = rank 1 .. 7 = rank 8). Its bit is number
 * 63 - 8 * rank - file, counted from the least significant bit.
 */
module BoardGeometry {

  datatype Option<T> = None | Some(value: T)

  // Board information bitmaps (board.hh:166-182).
  const A_FILE: bv64 := 0x8080808080808080
  const B_FILE: bv64 := 0x4040404040404040
  const C_FILE: bv64 := 0x2020202020202020
  const D_FILE: bv64 := 0x1010101010101010
  const E_FILE: bv64 := 0x0808080808080808
  const F_FILE: bv64 := 0x0404040404040404
  const G_FILE: bv64 := 0x0202020202020202
  const H_FILE: bv64 := 0x0101010101010101

  const RANK_1: bv64 := 0xff00000000000000
  const RANK_2: bv64 := 0x00ff000000000000
  const RANK_3: bv64 := 0x0000ff0000000000
  const RANK_4: bv64 := 0x000000ff00000000
  const RANK_5: bv64 := 0x00000000ff000000
  const RANK_6: bv64 := 0x0000000000ff0000
  const RANK_7: bv64 := 0x000000000000ff00
  const RANK_8: bv64 := 0x00000000000000ff

  /** The mask with every square set. */
  const FULL_BOARD: bv64 := 0xffff_ffff_ffff_ffff

  /** 0 is file a, 7 is file h. Coordinates are small machine integers. */
  type FileIndex = f: bv8 | f < 8

  /** 0 is rank 1, 7 is rank 8. */
  type RankIndex = r: bv8 | r < 8

  /** A bit position in a bitboard: 0 is the least significant bit. */
  type BitNumber = k: bv8 | k < 64

  /** The eight coordinate values. */
  const COORDINATES: set<bv8> := {0, 1, 2, 3, 4, 5, 6, 7}

  datatype Square = Square(file: FileIndex, rank: RankIndex)

  /** The file masks, indexed from file a. */
  function FileMask(f: FileIndex): bv64
  {
    if f == 0 then A_FILE
    else if f == 1 then B_FILE
    else if f == 2 then C_FILE
    else if f == 3 then D_FILE
    else if f == 4 then E_FILE
    else if f == 5 then F_FILE
    else if f == 6 then G_FILE
    else H_FILE
  }

  /** The rank masks, indexed from rank 1. */
  function RankMask(r: RankIndex): bv64
  {
    if r == 0 then RANK_1
    else if r == 1 then RANK_2
    else if r == 2 then RANK_3
    else if r == 3 then RANK_4
    else if r == 4 then RANK_5
    else if r == 5 then RANK_6
    else if r == 6 then RANK_7
    else RANK_8
  }

  /** True of a mask with exactly one bit set. */
  predicate IsSingleBit(b: bv64)
  {
    b != 0 && b & (b - 1) == 0
  }

  /** The mask whose only set bit is bit k. */
  function Bit(k: BitNumber): (b: bv64)
    ensures IsSingleBit(b)
  {
    (1 as bv64) << k
  }

  /** Position of a square's bit: a1 is 63 and h8 is 0. The byte the bit
   * falls in gives the rank (rank 1 in the top byte) and its place in the
   * byte gives the file (file a at the top). */
  function BitIndex(sq: Square): (k: BitNumber)
    ensures k >> 3 == 7 - sq.rank && k & 7 == 7 - sq.file
  {
    63 - 8 * sq.rank - sq.file
  }

  /** The single-bit mask of a square (the coordinate-to-bit direction,
   * ijToBit in board.hh). */
  function SquareToBit(sq: Square): (b: bv64)
    ensures IsSingleBit(b)
  {
    Bit(BitIndex(sq))
  }

  lemma BitInjective(i: BitNumber, j: BitNumber)
    requires Bit(i) == Bit(j)
    ensures i == j
  {
  }

  /** Distinct squares have distinct bits. */
  lemma SquareToBitInjective(s: Square, t: Square)
    requires SquareToBit(s) == SquareToBit(t)
    ensures s == t
  {
    BitInjective(BitIndex(s), BitIndex(t));
  }

  /** The position of the set bit of a single-bit mask, assembled one
   * binary digit at a time: digit d is set when the bit lies in the half
   * of the positions whose digit d is 1. */
  function BitPosition(b: bv64): (k: BitNumber)
    requires IsSingleBit(b)
    ensures Bit(k) == b
  {
    (if b & 0xAAAA_AAAA_AAAA_AAAA != 0 then 1 else 0)
    | (if b & 0xCCCC_CCCC_CCCC_CCCC != 0 then 2 else 0)
    | (if b & 0xF0F0_F0F0_F0F0_F0F0 != 0 then 4 else 0)
    | (if b & 0xFF00_FF00_FF00_FF00 != 0 then 8 else 0)
    | (if b & 0xFFFF_0000_FFFF_0000 != 0 then 16 else 0)
    | (if b & 0xFFFF_FFFF_0000_0000 != 0 then 32 else 0)
  }

  /** The square whose bit is at position k. */
  function SquareAt(k: BitNumber): (sq: Square)
    ensures BitIndex(sq) == k
  {
    Square(7 - (k & 7), 7 - (k >> 3))
  }

  /** The square of a single-bit mask (the bit-to-coordinate direction,
   * bitToij in board.hh). Exactly the single-bit masks have a square; any
   * other mask gives None. */
  function BitToSquare(b: bv64): (r: Option<Square>)
    ensures r.Some? <==> IsSingleBit(b)
    ensures r.Some? ==> SquareToBit(r.value) == b
  {
    if IsSingleBit(b) then Some(SquareAt(BitPosition(b))) else None
  }

  /** Converting a square to its bit and back gives the square again. */
  lemma SquareBitRoundTrip(sq: Square)
    ensures BitToSquare(SquareToBit(sq)) == Some(sq)
  {
    SquareToBitInjective(BitToSquare(SquareToBit(sq)).value, sq);
  }

  /** The corners named by the bit convention: a1 is the most significant
   * bit, on file a and rank 1; h8 is the least significant bit, on file h
   * and rank 8. */
  lemma CornerSquares()
    ensures SquareToBit(Square(0, 0)) == 0x8000_0000_0000_0000
    ensures SquareToBit(Square(0, 0)) & A_FILE != 0 && SquareToBit(Square(0, 0)) & RANK_1 != 0
    ensures SquareToBit(Square(7, 7)) == 1
    ensures SquareToBit(Square(7, 7)) & H_FILE != 0 && SquareToBit(Square(7, 7)) & RANK_8 != 0
  {
  }

  /** A square lies in a file mask exactly when it is on that file. */
  lemma SquareInFile(sq: Square, f: FileIndex)
    ensures InMask(sq, FileMask(f)) <==> sq.file == f
  {
  }

  /** A square lies in a rank mask exactly when it is on that rank. */
  lemma SquareInRank(sq: Square, r: RankIndex)
    ensures InMask(sq, RankMask(r)) <==> sq.rank == r
  {
  }

  /** The 64 file and rank intersections of the constants are single bits. */
  lemma FileRankIntersectionIsSingleBit(f: FileIndex, r: RankIndex)
    ensures IsSingleBit(FileMask(f) & RankMask(r))
  {
  }

  /** Every file mask meets every rank mask in exactly one square: the one
   * on that file and rank. This ties the mask constants to the bit
   * convention. */
  lemma FileMeetsRank(f: FileIndex, r: RankIndex)
    ensures FileMask(f) & RankMask(r) == SquareToBit(Square(f, r))
  {
  }

  /** Two different files share no square. */
  lemma FilesDisjoint(f: FileIndex, g: FileIndex)
    requires f != g
    ensures FileMask(f) & FileMask(g) == 0
  {
  }

  /** Two different ranks share no square. */
  lemma RanksDisjoint(r: RankIndex, s: RankIndex)
    requires r != s
    ensures RankMask(r) & RankMask(s) == 0
  {
  }

  /** The eight files together, and the eight ranks together, cover the
   * board. */
  lemma FilesAndRanksCoverBoard()
    ensures A_FILE | B_FILE | C_FILE | D_FILE | E_FILE | F_FILE | G_FILE | H_FILE == FULL_BOARD
    ensures RANK_1 | RANK_2 | RANK_3 | RANK_4 | RANK_5 | RANK_6 | RANK_7 | RANK_8 == FULL_BOARD
  {
  }

  /** Each file is file a shifted right by its index: one file towards h
   * is one bit to the right. */
  lemma FileIsShiftedFileA(f: FileIndex)
    ensures FileMask(f) == A_FILE >> f
    ensures f < 7 ==> FileMask(f + 1) == FileMask(f) >> 1
  {
  }

  /** Each rank is rank 1 shifted right by eight bits per rank: one rank
   * towards 8 is eight bits to the right. */
  lemma RankIsShiftedRank1(r: RankIndex)
    ensures RankMask(r) == RANK_1 >> (8 * r)
    ensures r < 7 ==> RankMask(r + 1) == RankMask(r) >> 8
  {
  }

  /** All 64 squares. */
  function AllSquares(): (squares: set<Square>)
    ensures forall sq: Square :: sq in squares
  {
    var squares := set f: FileIndex, r: RankIndex | f in COORDINATES && r in COORDINATES :: Square(f, r);
    assert forall sq: Square :: sq in squares by {
      forall sq: Square ensures sq in squares {
        var f, r := sq.file, sq.rank;
        assert f in COORDINATES && r in COORDINATES;
        assert sq == Square(f, r);
      }
    }
    squares
  }

  /** True when the square's bit is set in the mask. */
  predicate InMask(sq: Square, m: bv64)
  {
    SquareToBit(sq) & m != 0
  }

  /** The squares whose bits are set in a mask. */
  function SquaresOf(m: bv64): (squares: set<Square>)
    ensures forall sq: Square :: sq in squares <==> InMask(sq, m)
  {
    set sq | sq in AllSquares() && InMask(sq, m)
  }

  /** The squares of one file. */
  function FileSquares(f: FileIndex): (squares: set<Square>)
    ensures forall sq: Square :: sq in squares <==> sq.file == f
  {
    var squares := set r: RankIndex | r in COORDINATES :: Square(f, r);
    assert forall sq: Square :: sq.file == f ==> sq in squares by {
      forall sq: Square | sq.file == f ensures sq in squares {
        var r := sq.rank;
        assert r in COORDINATES;
        assert sq == Square(f, r);
      }
    }
    squares
  }

  /** The squares of one rank. */
  function RankSquares(r: RankIndex): (squares: set<Square>)
    ensures forall sq: Square :: sq in squares <==> sq.rank == r
  {
    var squares := set f: FileIndex | f in COORDINATES :: Square(f, r);
    assert forall sq: Square :: sq.rank == r ==> sq in squares by {
      forall sq: Square | sq.rank == r ensures sq in squares {
        var f := sq.file;
        assert f in COORDINATES;
        assert sq == Square(f, r);
      }
    }
    squares
  }

  /** A file has eight squares. */
  lemma FileSquaresCount(f: FileIndex)
    ensures |FileSquares(f)| == 8
  {
    assert FileSquares(f) == {Square(f, 0), Square(f, 1), Square(f, 2), Square(f, 3),
                              Square(f, 4), Square(f, 5), Square(f, 6), Square(f, 7)};
  }

  /** A rank has eight squares. */
  lemma RankSquaresCount(r: RankIndex)
    ensures |RankSquares(r)| == 8
  {
    assert RankSquares(r) == {Square(0, r), Square(1, r), Square(2, r), Square(3, r),
                              Square(4, r), Square(5, r), Square(6, r), Square(7, r)};
  }

  /** Two sets of squares with the same members are equal. */
  lemma SameSquares(a: set<Square>, b: set<Square>)
    requires forall sq: Square :: sq in a <==> sq in b
    ensures a == b
  {
  }

  /** The squares a file mask holds are those on the file. */
  lemma FileMaskMembers(f: FileIndex)
    ensures forall sq: Square :: sq in SquaresOf(FileMask(f)) <==> sq.file == f
  {
    forall sq: Square
      ensures InMask(sq, FileMask(f)) <==> sq.file == f
    {
      SquareInFile(sq, f);
    }
  }

  /** The squares a rank mask holds are those on the rank. */
  lemma RankMaskMembers(r: RankIndex)
    ensures forall sq: Square :: sq in SquaresOf(RankMask(r)) <==> sq.rank == r
  {
    forall sq: Square
      ensures InMask(sq, RankMask(r)) <==> sq.rank == r
    {
      SquareInRank(sq, r);
    }
  }

  /** Any set holding exactly the squares of a file is that file, of size 8. */
  lemma OnlyFileSquares(f: FileIndex, squares: set<Square>)
    requires forall sq: Square :: sq in squares <==> sq.file == f
    ensures squares == FileSquares(f) && |squares| == 8
  {
    SameSquares(squares, FileSquares(f));
    FileSquaresCount(f);
  }

  /** Any set holding exactly the squares of a rank is that rank, of size 8. */
  lemma OnlyRankSquares(r: RankIndex, squares: set<Square>)
    requires forall sq: Square :: sq in squares <==> sq.rank == r
    ensures squares == RankSquares(r) && |squares| == 8
  {
    SameSquares(squares, RankSquares(r));
    RankSquaresCount(r);
  }

  /** A file mask has exactly eight bits set: those of the eight squares of
   * its file. */
  lemma FileHasEightSquares(f: FileIndex)
    ensures SquaresOf(FileMask(f)) == FileSquares(f)
    ensures |SquaresOf(FileMask(f))| == 8
  {
    FileMaskMembers(f);
    OnlyFileSquares(f, SquaresOf(FileMask(f)));
  }

  /** A rank mask has exactly eight bits set: those of the eight squares of
   * its rank. */
  lemma RankHasEightSquares(r: RankIndex)
    ensures SquaresOf(RankMask(r)) == RankSquares(r)
    ensures |SquaresOf(RankMask(r))| == 8
  {
    RankMaskMembers(r);
    OnlyRankSquares(r, SquaresOf(RankMask(r)));
  }
}
