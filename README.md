# Chess engine core: transposition table, random player, board geometry

A Dafny model of three self-contained parts of a bitboard chess engine
written in C++ (`players.hh`, `board.hh`):

- **The transposition table** (`TranspositionTable` in `players.hh`), a
  direct-mapped cache of search results held in a buffer of 2^20 entries
  and keyed by a position's Zobrist hash. Module `TranspositionTables`
  (`transposition_table.dfy`) specifies the table as a sequence of entries
  (`ContainsHash`, `EntryFor`, `InsertEntry`, `InsertAll`). The class
  `TranspositionTable` keeps the buffer as an `array` that `Insert`
  overwrites in place. Its methods are proved against those functions.
  The slot of a hash is `hash % TRANSPOSITION_TABLE_MASK`, with the mask
  equal to 2^20 − 1, exactly as the code computes it. This is a remainder,
  not a bitwise and, so slots run from 0 to 2^20 − 2 and the buffer's last
  slot is never read or written. A plain description of the table would say
  "hash mod capacity"; the model follows the code. The buffer's initial
  contents are never set, so a new table may hold anything.
- **The random player** (`EngineRandom` in `players.hh`), module `Players`
  (`players.dfy`). `GetMove` returns the element reached by advancing
  `rand() % n` steps from the start of the ordered legal-move set. The value
  of `rand()` is a parameter. The set is the strictly increasing sequence of
  its move keys. The search engine's constants are recorded there as well.
- **The square geometry of the bitboards** (`board.hh`), module
  `BoardGeometry` (`board_geometry.dfy`). It holds the eight file masks and
  eight rank masks as `bv64` constants. It also defines the square-to-bit
  mapping fixed by the comment at `board.hh:54`: seen from White, the most
  significant bit is a1 and the least significant bit is h8. A square is
  (file, rank), with file 0 = a and rank 0 = rank 1, each coordinate an
  8-bit value below 8. Its bit is number 63 − 8·rank − file. `FileMeetsRank` proves that this mapping agrees with
  the mask constants.

`Ints` (`ints.dfy`) gives the unsigned widths the table stores (`uint8_t`,
`uint32_t`, `uint64_t`) as bounded naturals.

## Model

| member | source | states |
|---|---|---|
| `TranspositionTables.NodeTypesDistinct` | players.hh:59-62 | the four node types are the distinct values 0, 1, 2, 3 |
| `TranspositionTables.SlotOf` | players.hh:65-79 | the slot of every hash is below 2^20 − 1, so every access is inside the buffer and never at its last slot |
| `TranspositionTables.InsertThenLookup` | players.hh:65-75 | after inserting an entry, `contains` holds for its hash and `getEntry` returns exactly that entry |
| `TranspositionTables.InsertOnlyChangesItsSlot` | players.hh:69-71 | an insert leaves every other slot unchanged |
| `TranspositionTables.InsertKeepsLastSlot` | players.hh:69-79 | an insert never writes the buffer's last slot |
| `TranspositionTables.CollisionEvicts` | players.hh:65-75 | if two different hashes share a slot, inserting one makes `contains` false for the other, and `getEntry` for the other returns the new entry |
| `TranspositionTables.CollisionExample` | players.hh:78-79 | such collisions exist: hashes 0 and 2^20 − 1 share slot 0 |
| `TranspositionTables.ContainsIgnoresPayload` | players.hh:65-67 | `contains` depends only on the hash stored in the slot; score, depth and node type do not matter |
| `TranspositionTables.InsertIdempotent` | players.hh:69-71 | inserting the same entry twice gives the same table as inserting it once |
| `TranspositionTables.LastWriteTo` | players.hh:69-71 | the last entry of a series of inserts that lands in a slot is an entry of the series with that slot; if there is none, no entry of the series has that slot |
| `TranspositionTables.InsertAllLastWriteWins` | players.hh:69-71 | after any series of inserts, each slot holds the last entry written to it, or its initial contents if none was |
| `TranspositionTables.InsertAllKeepsLastSlot` | players.hh:69-79 | however many inserts are made, the last slot keeps its initial contents |
| `TranspositionTables.TranspositionTable.constructor` | players.hh:77-80 | a new table has a buffer of 2^20 entries with unspecified contents |
| `TranspositionTables.TranspositionTable.Contains` | players.hh:65-67 | the answer is true exactly when the hash's slot stores that hash |
| `TranspositionTables.TranspositionTable.Insert` | players.hh:69-71 | the buffer afterwards is the old buffer with the hash's slot overwritten by the new entry |
| `TranspositionTables.TranspositionTable.GetEntry` | players.hh:73-75 | returns the entry in the hash's slot, whether or not it stores that hash |
| `Players.DistinctCount` | players.hh:42 | an ordered set listed in ascending order has as many elements as the listing has positions |
| `Players.RankOfPosition` | players.hh:41-47 | in ascending order, the element at position k has exactly k smaller elements |
| `Players.PositionOfRank` | players.hh:41-47 | a member with k smaller elements is the element at position k |
| `Players.CanMove` | players.hh:38-40 | the random player always has a move |
| `Players.GetMove` | players.hh:41-47 | for a non-empty legal-move set, the move returned is in the set and exactly `rand() % n` legal moves are smaller than it |
| `Players.EveryMoveReachable` | players.hh:41-47 | each legal move is returned for some value of `rand()` |
| `BoardGeometry.BitIndex` | board.hh:54 | a square's bit position is below 64; the byte it falls in gives the rank and its place in the byte gives the file |
| `BoardGeometry.Bit` | board.hh:54 | the mask of one bit position has exactly one bit set |
| `BoardGeometry.SquareToBit` | board.hh:146-147 | the mask of a square has exactly one bit set |
| `BoardGeometry.SquareToBitInjective` | board.hh:146-147 | different squares have different masks |
| `BoardGeometry.BitInjective` | board.hh:54 | different bit positions give different masks |
| `BoardGeometry.BitPosition` | board.hh:143-144 | for a mask with exactly one bit set, gives the position of that bit |
| `BoardGeometry.SquareAt` | board.hh:143-144 | gives the square whose bit is at a given position |
| `BoardGeometry.BitToSquare` | board.hh:143-147 | a mask has a square exactly when it has a single bit set, and converting such a mask to its square and back gives the same mask |
| `BoardGeometry.SquareBitRoundTrip` | board.hh:143-147 | converting a square to its mask and back gives the same square |
| `BoardGeometry.CornerSquares` | board.hh:54 | a1 is the most significant bit, in A_FILE and RANK_1; h8 is the least significant bit, in H_FILE and RANK_8 |
| `BoardGeometry.SquareInFile` | board.hh:166-173 | a square's mask meets a file mask exactly when the square is on that file |
| `BoardGeometry.SquareInRank` | board.hh:175-182 | a square's mask meets a rank mask exactly when the square is on that rank |
| `BoardGeometry.FileRankIntersectionIsSingleBit` | board.hh:166-182 | each file mask meets each rank mask in exactly one bit |
| `BoardGeometry.FileMeetsRank` | board.hh:166-182 | that bit is the mask of the square on that file and rank |
| `BoardGeometry.FilesDisjoint` | board.hh:166-173 | two different file masks share no bit |
| `BoardGeometry.RanksDisjoint` | board.hh:175-182 | two different rank masks share no bit |
| `BoardGeometry.FilesAndRanksCoverBoard` | board.hh:166-182 | the union of the file masks, and the union of the rank masks, is all 64 bits |
| `BoardGeometry.FileIsShiftedFileA` | board.hh:166-173 | each file mask is A_FILE shifted right by the file's index, and each file is the previous one shifted right by 1 |
| `BoardGeometry.RankIsShiftedRank1` | board.hh:175-182 | each rank mask is RANK_1 shifted right by 8 per rank, and each rank is the previous one shifted right by 8 |
| `BoardGeometry.FileMaskMembers` | board.hh:166-173 | the squares whose bits a file mask holds are exactly the squares on that file |
| `BoardGeometry.RankMaskMembers` | board.hh:175-182 | the squares whose bits a rank mask holds are exactly the squares on that rank |
| `BoardGeometry.FileHasEightSquares` | board.hh:166-173 | the bits set in a file mask are exactly those of the 8 squares of that file |
| `BoardGeometry.RankHasEightSquares` | board.hh:175-182 | the bits set in a rank mask are exactly those of the 8 squares of that rank |

## Left out

- The rest of `Board` (move generation, check and pin handling, making a move, castling and en-passant updates, the repetition log, the game result): only declarations exist for these, with no bodies to model.
- `EngineV1`'s `search`, `quiescenceSearch`, `orderMoves`, `evaluate` and `countMaterial`: declarations only. Its depth, infinity and piece values are recorded as constants in `Players`.
- `HumanPlayer` (input capture), the SDL rendering (`printBoardApp`, `printResult`, `bitBoardToMatrix`) and `moveDelay`: presentation and wall-clock concerns.
- `rand()` is a C library call; its value is the parameter `random` of `Players.GetMove`.
- `Players.GetMove`: a move is represented by its key in the order of `PieceMove`. That type is defined in utils.hh, which is not part of this model. The legal-move set is given as the ascending sequence of its keys rather than as a set.
- `BoardGeometry.BitToSquare`, `BoardGeometry.SquareToBit`: the bodies of `bitToij` and `ijToBit` are not shown, so these give the mapping fixed by the comment at `board.hh:54` and the mask constants. They use (file, rank) and do not fix which of `(i, j)` is which. They also do not model `ijToBit` writing through a reference parameter. What `bitToij` returns for a mask without exactly one bit set is not shown; `BitToSquare` gives None there.
- `TranspositionTables.TranspositionTable.GetEntry`: returns a copy of the slot, not a pointer into the buffer. A pointer would see later inserts into that slot; the copy does not.
- The `std::shared_ptr` ownership of the board by the players.
