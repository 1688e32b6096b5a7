# mmap store — a Dafny model

This project models softheap's memory-mapped append-only store. The store is a region of
`capacity` bytes. Its first two 64-bit words hold a header: the magic number
`0xDEADBEEF` in word 0 and the capacity in word 1. Records are appended after the
header at a write cursor. Each record takes one 64-bit length word plus its payload.
`write` returns the offset where the record starts and moves the cursor past it.

This model specifies what the store's unit test (test/store/test_mmap_store.c)
asserts about `create_mmap_store`, `cursor()` and `write()`, and the layout of
`struct mmap_store` that the test declares. It is not a transcription of
`mmap_store.c`; that file and `store.h` are not part of this model.

- `store.dfy`, module `MmapStore`: the `Store` record, the header, and `Create`, `Cursor` and `Write` as pure functions.
- `layout.dfy`, module `RecordLayout`: runs of writes, and the offsets and record layout they produce.

## Model

| member | source | states |
|---|---|---|
| MmapStore.Create | test/store/test_mmap_store.c:16-22 | a fresh store is valid, has the requested capacity, header word 0 is the magic 0xDEADBEEF, header word 1 is the capacity, and the cursor sits at the 16-byte header size |
| MmapStore.Cursor | test/store/test_mmap_store.c:31-32 | on any valid store the cursor lies between the end of the header and the capacity |
| MmapStore.Write | test/store/test_mmap_store.c:34-42 | returns the cursor observed before the call; the cursor then equals that offset plus one length word plus the payload size, so it strictly increases; capacity, header and sync cursor are unchanged; a valid store stays valid and the returned offset is positive |
| RecordLayout.WriteAll | test/store/test_mmap_store.c:34-42 | a run of writes returns exactly one offset per write |
| RecordLayout.WriteAllOffsets | test/store/test_mmap_store.c:31-42 | the k-th write of a run returns the starting cursor plus 8 + s_i summed over the earlier writes; the final cursor is the starting cursor plus the run's total footprint; only the write cursor moves; validity is preserved |
| RecordLayout.WriteAllRecordsDisjoint | test/store/test_mmap_store.c:37-42 | records of a run lie back to back between the starting and final cursors; each starts where the previous one ends, and no two records overlap |
| RecordLayout.FreshStoreOffsets | test/store/test_mmap_store.c:20-42 | on a fresh store the k-th write returns 16 + the sum of (8 + s_i) over the earlier writes, which is positive; the header still holds the magic and the capacity afterwards |
| RecordLayout.BasicStoreScenario | test/store/test_mmap_store.c:16-42 | with 64 MiB capacity the header holds 0xDEADBEEF and the capacity, the cursor is 16, and a 250-byte write returns 16 and moves the cursor to 274 |

## Left out

- MmapStore.Create: requires the capacity to be at least the 16-byte header size. This is a modelling assumption: the unit test only creates a 64 MiB store, and how the store handles smaller capacities is outside this model.
- MmapStore.Create: sets the sync cursor to 0. The unit test never observes its initial value, so this choice is outside what the model promises.
- MmapStore.Write: requires `write_cursor + 8 + size <= capacity`. This is a modelling assumption that keeps the arithmetic within the region. The capacity-exceeded branch is not modelled because the test never exercises it.
- The file descriptor, the `flags` argument, joining the directory and file name, sizing the file, and `mmap` itself are operating-system I/O. They are not modelled.
- `sync`, `close` and the durability behaviour of the sync cursor are outside this model; the unit test does not exercise them.
- Reopening an existing store, validating its header and recovering its cursor are outside this model; the unit test does not exercise them.
- MmapStore.Write: accepts a zero-byte payload and treats it as a success that reserves one length word (8 bytes). The unit test never writes zero bytes, and how `mmap_store.c` handles it (an invalid-argument error that leaves the cursor unchanged, or an empty record) is outside this model.
- Error results (a NULL store from `create_mmap_store`, invalid-argument errors from `write`) are outside this model; the unit test does not exercise them.
- Payload bytes and the byte encoding of the length word are not modelled. The test checks offsets only.
- Concurrent writers are not modelled. The test uses a single writer.
- Header byte order is not modelled. The header is modelled as two 64-bit words, matching the test's `uint64_t *` view of the mapping.
- The unit-test framework, the shared global store fixture and `main` are test scaffolding and are not modelled.
