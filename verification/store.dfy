/**
 A model of the memory-mapped append-only store: a fixed-capacity region whose
 first two 64-bit words hold a header (a magic number and the capacity), and
 into which records are appended at a monotonically advancing write cursor.
 Each record occupies one 64-bit length word plus its payload.
 */
module MmapStore {

  /** Exclusive upper bound of an unsigned 64-bit word. */
  const UINT64_LIMIT: int := 0x1_0000_0000_0000_0000

  /** The `uint64_t` of the store's fields and header words. */
  type uint64 = x: int | 0 <= x < UINT64_LIMIT

  /** `sizeof(uint64_t)` */
  const WORD_SIZE: uint64 := 8

  /** Identifies a store file; header word 0. */
  const MAGIC: uint64 := 0xDEADBEEF

  /** The header is two 64-bit words: the magic number and the capacity. */
  const HEADER_WORDS: uint64 := 2
  const HEADER_SIZE: uint64 := HEADER_WORDS * WORD_SIZE

  /** Every record is preceded by one 64-bit length word. */
  const RECORD_OVERHEAD: uint64 := WORD_SIZE

  /** The header as seen through the `uint64_t *` view of the mapping. */
  datatype Header = Header(magic: uint64, capacity: uint64)

  /**
   The fields of `struct mmap_store` that carry state the store's users can
   observe. The file descriptor, the open flags and the mapping pointer are
   operating-system handles and are not part of the model; the mapping is
   represented only by its header words.
   */
  datatype Store = Store(capacity: uint64, syncCursor: uint64, writeCursor: uint64, header: Header)

  /** The result of one `write`: the store after the call and the offset returned. */
  datatype Written = Written(store: Store, offset: uint64)

  /**
   What every store reachable from `Create` satisfies: a well-formed header
   that agrees with the capacity, and cursors ordered
   sync <= write, with the write cursor past the header and within capacity.
   */
  predicate Valid(s: Store) {
    && s.header == Header(MAGIC, s.capacity)
    && s.syncCursor <= s.writeCursor
    && HEADER_SIZE <= s.writeCursor <= s.capacity
  }

  /** Word `i` of the mapping's header, read as `((uint64_t *) mapping)[i]`. */
  function HeaderWord(s: Store, i: nat): uint64
    requires i < HEADER_WORDS
  {
    if i == 0 then s.header.magic else s.header.capacity
  }

  /** Only the write cursor differs between `s` and `t`. */
  predicate Unmoved(s: Store, t: Store) {
    && t.capacity == s.capacity
    && t.header == s.header
    && t.syncCursor == s.syncCursor
  }

  /** A record of `size` payload bytes fits between the write cursor and the end of the region. */
  predicate Fits(s: Store, size: uint64) {
    s.writeCursor + RECORD_OVERHEAD + size <= s.capacity
  }

  /**
   `create_mmap_store(capacity, dir, name, flags)` on a fresh file: writes the
   header and places the write cursor just past it.
   The requirement that the header fit in the region is a modelling assumption.
   */
  function Create(capacity: uint64): (s: Store)
    requires HEADER_SIZE <= capacity
    ensures Valid(s)
    ensures s.capacity == capacity
    ensures HeaderWord(s, 0) == MAGIC
    ensures HeaderWord(s, 1) == capacity
    ensures Cursor(s) == HEADER_SIZE
  {
    Store(capacity, 0, HEADER_SIZE, Header(MAGIC, capacity))
  }

  /**
   `cursor()`: the offset at which the next record will be written. It is a
   query and returns no new store, so calling it cannot move the cursor.
   */
  function Cursor(s: Store): (c: uint64)
    ensures Valid(s) ==> HEADER_SIZE <= c <= s.capacity
  {
    s.writeCursor
  }

  /**
   `write(data, size)`: reserves a record of one length word plus `size` payload
   bytes at the write cursor and returns where the record starts. The payload
   bytes themselves are not modelled. The requirement that the record fit is a
   modelling assumption; the capacity-exceeded branch is not modelled.
   */
  function Write(s: Store, size: uint64): (w: Written)
    requires Fits(s, size)
    ensures w.offset == Cursor(s)
    ensures Cursor(w.store) == w.offset + RECORD_OVERHEAD + size
    ensures Cursor(s) < Cursor(w.store)
    ensures Unmoved(s, w.store)
    ensures Valid(s) ==> Valid(w.store) && w.offset > 0
  {
    Written(s.(writeCursor := s.writeCursor + RECORD_OVERHEAD + size), s.writeCursor)
  }
}
