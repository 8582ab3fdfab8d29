/** The transposition table of players.hh: a fixed-size, direct-mapped
 * cache of search results keyed by a position's Zobrist hash.
 *
 * The table is a buffer of TRANSPOSITION_TABLE_SIZE entries. A hash is
 * mapped to its slot by `hash % TRANSPOSITION_TABLE_MASK`, where the mask
 * is TRANSPOSITION_TABLE_SIZE - 1. That is a remainder, not a bitwise and,
 * so slots run from 0 to TRANSPOSITION_TABLE_SIZE - 2 and the last slot of
 * the buffer is never used. An insert overwrites its slot whatever it held
 * (last write wins); `contains` only compares the hash stored in the slot.
 *
 * The functions below specify the table as a sequence of entries; the
 * class TranspositionTable holds the buffer as an array and its methods
 * are proved against those functions.
 */
module TranspositionTables {
  import opened Ints

  // Node types recorded with an entry (players.hh:59-62).
  const NODE_TYPE_EXACT: U8 := 0
  const NODE_TYPE_LOWERBOUND: U8 := 1
  const NODE_TYPE_UPPERBOUND: U8 := 2
  const NODE_TYPE_QUIESCENCE: U8 := 3

  // Capacity and slot modulus (players.hh:78-79).
  const TRANSPOSITION_TABLE_SIZE: nat := 0x10_0000  // 1 << 20
  const TRANSPOSITION_TABLE_MASK: nat := TRANSPOSITION_TABLE_SIZE - 1

  datatype TransTableEntry = TransTableEntry(zobristHash: U64, score: U32, depth: U8, nodeType: U8)

  /** The contents of a whole table. */
  type Table = t: seq<TransTableEntry> | |t| == TRANSPOSITION_TABLE_SIZE
    witness seq(TRANSPOSITION_TABLE_SIZE, _ => TransTableEntry(0, 0, 0, 0))

  /** The four node types are distinct and are the values 0 to 3. */
  lemma NodeTypesDistinct()
    ensures [NODE_TYPE_EXACT, NODE_TYPE_LOWERBOUND, NODE_TYPE_UPPERBOUND, NODE_TYPE_QUIESCENCE] == [0, 1, 2, 3]
  {
  }

  /** The slot a hash is stored in. It is always inside the buffer and
   * never the buffer's last slot. */
  function SlotOf(zobristHash: U64): (slot: nat)
    ensures slot < TRANSPOSITION_TABLE_MASK
    ensures slot < TRANSPOSITION_TABLE_SIZE && slot != TRANSPOSITION_TABLE_SIZE - 1
  {
    zobristHash % TRANSPOSITION_TABLE_MASK
  }

  /** `contains`: the slot of the hash stores that same hash. */
  predicate ContainsHash(t: Table, zobristHash: U64)
  {
    t[SlotOf(zobristHash)].zobristHash == zobristHash
  }

  /** `getEntry`: the entry in the slot of the hash, whatever hash it stores. */
  function EntryFor(t: Table, zobristHash: U64): TransTableEntry
  {
    t[SlotOf(zobristHash)]
  }

  /** `insert`: the table with the slot of the entry's hash overwritten. */
  function InsertEntry(t: Table, e: TransTableEntry): (t': Table)
  {
    t[SlotOf(e.zobristHash) := e]
  }

  /** After an insert, the table contains the hash and returns exactly the
   * inserted entry for it. */
  lemma InsertThenLookup(t: Table, e: TransTableEntry)
    ensures ContainsHash(InsertEntry(t, e), e.zobristHash)
    ensures EntryFor(InsertEntry(t, e), e.zobristHash) == e
  {
  }

  /** An insert changes its own slot only. */
  lemma InsertOnlyChangesItsSlot(t: Table, e: TransTableEntry, i: nat)
    requires i < TRANSPOSITION_TABLE_SIZE && i != SlotOf(e.zobristHash)
    ensures InsertEntry(t, e)[i] == t[i]
  {
  }

  /** The last slot of the buffer is never written. */
  lemma InsertKeepsLastSlot(t: Table, e: TransTableEntry)
    ensures InsertEntry(t, e)[TRANSPOSITION_TABLE_SIZE - 1] == t[TRANSPOSITION_TABLE_SIZE - 1]
  {
  }

  /** Two hashes that share a slot evict each other: after inserting one,
   * the table no longer contains the other. */
  lemma CollisionEvicts(t: Table, e: TransTableEntry, other: U64)
    requires other != e.zobristHash && SlotOf(other) == SlotOf(e.zobristHash)
    ensures !ContainsHash(InsertEntry(t, e), other)
    ensures EntryFor(InsertEntry(t, e), other) == e
  {
  }

  /** Such collisions exist: hashes 0 and TRANSPOSITION_TABLE_MASK share
   * slot 0. */
  lemma CollisionExample()
    ensures SlotOf(0) == SlotOf(TRANSPOSITION_TABLE_MASK as U64) == 0
  {
  }

  /** Whether a hash is contained depends on the stored hash of its slot
   * only; score, depth and node type play no part. */
  lemma ContainsIgnoresPayload(t: Table, u: Table, zobristHash: U64)
    requires t[SlotOf(zobristHash)].zobristHash == u[SlotOf(zobristHash)].zobristHash
    ensures ContainsHash(t, zobristHash) == ContainsHash(u, zobristHash)
  {
  }

  /** Inserting the same entry twice leaves the table as one insert does. */
  lemma InsertIdempotent(t: Table, e: TransTableEntry)
    ensures InsertEntry(InsertEntry(t, e), e) == InsertEntry(t, e)
  {
  }

  /** The table after a series of inserts, in order. */
  function InsertAll(t: Table, es: seq<TransTableEntry>): (t': Table)
    decreases |es|
  {
    if es == [] then t else InsertEntry(InsertAll(t, es[..|es| - 1]), es[|es| - 1])
  }

  /** The last entry of the series whose hash falls in the given slot. */
  function LastWriteTo(es: seq<TransTableEntry>, slot: nat): (last: Option<TransTableEntry>)
    ensures last.Some? ==> last.value in es && SlotOf(last.value.zobristHash) == slot
    ensures last.None? ==> forall e :: e in es ==> SlotOf(e.zobristHash) != slot
    decreases |es|
  {
    if es == [] then None
    else if SlotOf(es[|es| - 1].zobristHash) == slot then Some(es[|es| - 1])
    else LastWriteTo(es[..|es| - 1], slot)
  }

  /** Last write wins: after a series of inserts, each slot holds the last
   * entry written to it, or its old contents if none was. */
  lemma {:induction false} InsertAllLastWriteWins(t: Table, es: seq<TransTableEntry>, slot: nat)
    requires slot < TRANSPOSITION_TABLE_SIZE
    ensures InsertAll(t, es)[slot] == match LastWriteTo(es, slot)
                                      case Some(e) => e
                                      case None => t[slot]
    decreases |es|
  {
    if es != [] {
      InsertAllLastWriteWins(t, es[..|es| - 1], slot);
    }
  }

  /** However many inserts are made, the last slot keeps its initial
   * contents. */
  lemma {:induction false} InsertAllKeepsLastSlot(t: Table, es: seq<TransTableEntry>)
    ensures InsertAll(t, es)[TRANSPOSITION_TABLE_SIZE - 1] == t[TRANSPOSITION_TABLE_SIZE - 1]
  {
    InsertAllLastWriteWins(t, es, TRANSPOSITION_TABLE_SIZE - 1);
  }

  datatype Option<T> = None | Some(value: T)

  /** The table object: the buffer is updated in place. Its initial
   * contents are not set, so a new table may hold anything. */
  class TranspositionTable {
    var transpositionTableBuffer: array<TransTableEntry>

    ghost predicate Valid()
      reads this
    {
      transpositionTableBuffer.Length == TRANSPOSITION_TABLE_SIZE
    }

    /** The buffer's contents as a table value. */
    ghost function Entries(): Table
      reads this, transpositionTableBuffer
      requires Valid()
    {
      transpositionTableBuffer[..]
    }

    constructor ()
      ensures Valid() && fresh(transpositionTableBuffer)
    {
      transpositionTableBuffer := new TransTableEntry[TRANSPOSITION_TABLE_SIZE];
    }

    method Contains(zobristHash: U64) returns (present: bool)
      requires Valid()
      ensures present == ContainsHash(Entries(), zobristHash)
    {
      present := transpositionTableBuffer[SlotOf(zobristHash)].zobristHash == zobristHash;
    }

    method Insert(zobristHash: U64, score: U32, depth: U8, node: U8)
      requires Valid()
      modifies transpositionTableBuffer
      ensures Valid()
      ensures Entries() == InsertEntry(old(Entries()), TransTableEntry(zobristHash, score, depth, node))
    {
      transpositionTableBuffer[SlotOf(zobristHash)] := TransTableEntry(zobristHash, score, depth, node);
    }

    method GetEntry(zobristHash: U64) returns (entry: TransTableEntry)
      requires Valid()
      ensures entry == EntryFor(Entries(), zobristHash)
    {
      entry := transpositionTableBuffer[SlotOf(zobristHash)];
    }
  }
}
