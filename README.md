# gp-nvm: a general purpose attribute store over a verified-write NVM backend

This project models the core of the nvm-exercise C library. The library stores small binary attributes. Each attribute is identified by a one-byte id and written to a flat non-volatile medium, the file `nvm.bin`. The model has two layers.

- **The storage backend** (`src/nvm-arch.c`, module `NvmArch`). It offers offset-based read, update in place and append against the medium. The medium is a `Medium` object: a flag saying whether the file exists, plus its bytes.
  - Every write is checked afterwards by `CheckWrite`, a byte-by-byte loop.
  - Each write takes a `landing` parameter: the bytes the device actually kept. There may be fewer of them, or different ones. A healthy device keeps exactly the bytes it was given.
- **The attribute store** (`src/gp-nvm.c`, modules `Directory` and `GpNvm`). The directory `attrs` is the `Store` class. It has the fields `numEntries` and `totalSize` and the array `entries` of `MAX_ATTRS` = 10 slots, all updated in place.
  - The store offers `Init`, `Lookup`, `Get` and `Set`. `AddNew` is the new-id branch of `Set`.
  - The directory as a value (`AttrList`, `Entry`) carries these pieces:
    - the lookup function `Find`;
    - the invariants the store keeps: distinct ids; payloads packed back to back after the directory record; non-zero lengths; `total_size` equal to the sum of the lengths; at most 10 entries;
    - the provisional append `Added`;
    - the 88-byte record `Encode`/`Decode` that sits at offset 0 of the medium.
- **Shared types** (`Base`):
  - `byte`, `u32`, and `Wrap32`, which models uint32_t wrap-around;
  - the little-endian layout of a uint32_t.

`StoredValue(d, m, id)` is what `get_attribute` delivers from directory `d` over medium bytes `m`. `Consistent(d, present, m)` says four things:
- the directory keeps its invariants;
- the file exists;
- the file ends right after the last payload;
- the file begins with the record of `d`.

`Set` is proved to do the following.
- **Concrete behaviour:** its whole effect on the directory and on the medium, for every path and every device outcome.
- **From a consistent store**, seen from outside:
  - no other id's value changes;
  - a success leaves the store consistent, with `id` reading back as the value written;
  - a failed add leaves `id` absent.

The flat `nvm.c` layer narrows offsets to `uint32_t` and lengths to `uint8_t`. So the store passes `NewOffset`, which applies the same truncation, as the append offset.

## Behaviour of the code worth knowing

- **Appends and the file's physical end.** `nvm_arch_append` writes at the file's physical end but checks at the offset the caller gives.
  - An add can leave payload bytes behind it in two ways. A failed directory persist rolls back the counters but keeps the appended payload. A payload append whose check fails returns an error, but the bytes that reached the device stay in the file. From then on, the file no longer ends where `total_size` says.
  - The next new id's append check therefore compares the new value with the orphaned bytes, not with what it appended (`GpNvm.OrphanShadowsNextAppend`). The lemma covers both ways: after the payload append, at most 88 bytes are rewritten at offset 0, either the record of a failed persist or nothing at all for a failed payload append. For a value no longer than the orphan, the check passes exactly when the value repeats the orphan's first bytes.
  - The source comments at gp-nvm.c:52-53 say every change to the attribute list is synced on the NVM. Neither way of leaving an orphan keeps that promise in full.
    - After a failed payload append, the record on the file is untouched and agrees with the list in RAM, but the file no longer ends where the list says, and that decides whether later adds succeed.
    - After a failed persist, the rollback restores only the counters in RAM. The bytes the device kept of the new record stay at offset 0 (`NvmArch.Medium.Update` writes what landed even when it fails). The record on the file can be partly or wholly the new one and differ from the list in RAM, and a later `gp_nvm_init` loads that record.
- **What init persists.** When the read at offset 0 fails, `gp_nvm_init` appends whatever the failed read left in `attrs`, and ignores the result of that append.
  - For a missing or empty file, that is the all-zero record of the empty directory (`Directory.EncodeEmpty`), and it lands at offset 0.
  - On a file shorter than 88 bytes, the C appends the bytes which could be read, over zeros (`GpNvm.BootRecord`). The append lands after those bytes, not at offset 0. The model appends the record of the decoded directory instead, which is the same except that the padding bytes are zero (see "## Left out").
- **Rollback.** A rollback restores `num_entries` and `total_size`, but the slot it wrote stays written in RAM (`Directory.WithSlot`). Lookup never sees that slot (`Directory.WithSlotInvisible`).
- **Zero-length operations.** A zero-length read, update or append always fails, because `fread`/`fwrite` with a zero size report zero items. So `set_attribute` with length 0 on a new id returns `GP_NVM_MEM_ERROR` and never adds an entry.

## Model

| member | source | states |
|---|---|---|
| Base.Wrap32 | src/gp-nvm.c:173-175 | the value a uint32_t takes when assigned an integer: the integer itself in range, reduced by 2^32 one modulus above, raised by 2^32 one modulus below zero |
| Base.AddThenSubtract | src/gp-nvm.c:175-181 | `total_size += length` followed by `total_size -= length` restores `total_size` even if the addition wraps |
| Base.U32RoundTrip | src/gp-nvm.c:43-47 | reading back the four little-endian bytes of a uint32_t field gives the field |
| NvmArch.Overwrite | src/nvm-arch.c:128-136 | a write at an offset puts the bytes there, keeps every other byte, extends the file when needed and leaves a zero gap past the old end |
| NvmArch.Available | src/nvm-arch.c:92 | a read obtains at most `len` bytes, all from the file at the offset, and all `len` exactly when the file reaches `offset + len`; nothing from at or past the end; a read that starts inside the file and runs past its end obtains the `|m| - offset` bytes up to the end |
| NvmArch.Completed | src/nvm-arch.c:136-137 | no contract of its own: fwrite's `nmemb == 1` test, as in the append at lines 179-180, holds when at least one byte was asked for and every byte reached the device; `NvmArch.Medium.Update` and `NvmArch.Medium.Append` use it in their results |
| NvmArch.OverwriteReadsBack | src/nvm-arch.c:136-148 | after a complete in-place write the read-back check passes exactly when the device kept the bytes it was given |
| NvmArch.AppendReadsBack | src/nvm-arch.c:179-191 | the append check at the physical end passes exactly when the device kept the bytes; past the end it fails; when the whole range lies before it, it compares old bytes of the file instead of the bytes appended |
| NvmArch.Medium.CheckWrite | src/nvm-arch.c:30-57 | returns 0 exactly when every one of the `len` bytes at `offset` can be read and equals the input, 1 otherwise |
| NvmArch.Medium.Read | src/nvm-arch.c:69-101 | returns 0 exactly when the file exists, `len > 0` and the file reaches `offset + len`; on success delivers those bytes; on failure delivers the bytes read before the end, or none without a file; never changes the file |
| NvmArch.Medium.Update | src/nvm-arch.c:113-152 | never creates the file; with a file, the bytes that reached the device are written at `offset` and every other byte is kept, even when the call fails; returns 0 exactly when the file exists, `len > 0` and the device kept all the bytes |
| NvmArch.Medium.Append | src/nvm-arch.c:164-195 | creates the file if needed and always adds the bytes at the old end, whatever `offset` says; returns 0 exactly when the write was complete and the file holds the data at `offset`; at `offset == old size` that is exactly when the device kept the bytes |
| Directory.Find | src/gp-nvm.c:86-98 | a found entry is in use and holds the id |
| Directory.NewOffset | src/gp-nvm.c:167-173 | no contract of its own: `sizeof(attr_list_t) + total_size` as a `uint32_t`, the offset passed to the append and stored in the new entry, also narrowed by `nvm_append`'s `uint32_t` parameter at src/nvm.c:60; `GpNvm.NewOffsetIsEnd` proves it is the file's end in a consistent store |
| Directory.WithSlot | src/gp-nvm.c:172-174 | no contract of its own: the directory with slot `num_entries` set to the new id, length and `NewOffset`, counters unchanged; also the state the rollback at lines 181-182 leaves; `Directory.WithSlotInvisible` proves the slot is unseen |
| Directory.Added | src/gp-nvm.c:172-176 | no contract of its own: `WithSlot` followed by `total_size += length` (wrapping as a `uint32_t`) and `num_entries++`; `Directory.AddedKeepsInvariant` states its properties |
| Directory.FindFrom | src/gp-nvm.c:89-96 | a found index is in the scanned range and holds the id |
| Directory.FindIsFirst | src/gp-nvm.c:86-98 | lookup returns the first entry in use with the id, and none exactly when no entry in use has it |
| Directory.FindIgnoresTail | src/gp-nvm.c:91 | lookup does not depend on the slots from `num_entries` on |
| Directory.EmptyInvariant | src/gp-nvm.c:64-65 | the cleared directory satisfies the invariants |
| Directory.FindUnique | src/gp-nvm.c:91-96 | with distinct ids, an entry in use is the one lookup finds for its id |
| Directory.EntryInPayload | src/gp-nvm.c:167-175 | the payload of each entry in use lies after the directory record and within `total_size` bytes of it |
| Directory.EntriesOrdered | src/gp-nvm.c:167-175 | the payload of an entry ends before the payload of every later entry starts |
| Directory.PayloadLayout | src/gp-nvm.c:167-175 | every payload is inside the payload region and the payloads are laid out in entry order without overlap |
| Directory.AddedKeepsInvariant | src/gp-nvm.c:172-176 | adding an absent id with a non-zero length to a directory with room keeps distinct ids, packing, the length sum and the capacity bound; the entry sits at index `num_entries` at offset `sizeof(attr_list_t) + total_size`; lookup finds it there and finds every other id where it was |
| Directory.InvariantIgnoresTail | src/gp-nvm.c:91-96 | the invariants depend only on the counters and the entries in use, not on the slots after them |
| Directory.WithSlotInvisible | src/gp-nvm.c:179-183 | the slot the rollback leaves written changes neither lookup nor the invariants |
| Directory.FoundStaysFound | src/gp-nvm.c:151-202 | entries are never removed, so an id once found stays found at the same index in every extension of the directory |
| Directory.Encode | src/gp-nvm.c:43-47 | the directory record is `sizeof(attr_list_t)` = 88 bytes |
| Directory.Decode | src/gp-nvm.c:67 | the 88 bytes read into `attrs` seen as a directory with exactly ten slots: `num_entries` from byte 0, `total_size` from bytes 4-7, then the ten 8-byte entries; `Directory.DecodeEncode` and `Directory.DecodeZeros` state what it loads |
| Directory.DecodeEncode | src/gp-nvm.c:67-69 | loading the record that was persisted gives back the directory that was persisted |
| Directory.EncodeEmpty | src/gp-nvm.c:65-70 | the record init persists for a missing or empty file, the memset directory, is 88 zero bytes |
| Directory.DecodeZeros | src/gp-nvm.c:64-67 | an all-zero record loads as the empty directory |
| GpNvm.Status.Code | src/gp-nvm.h:11-19 | every code is below 6, and the code is 0 exactly for `GP_NVM_SUCCESS`; the value of each name is in the body, in the order of the enumeration, and `GpNvm.CodeInjective` gives their distinctness |
| GpNvm.CodeInjective | src/gp-nvm.h:11-19 | two results have the same code exactly when they are the same result |
| GpNvm.ConsistentValues | src/gp-nvm.c:120-132 | in a consistent store every id in the directory has all of its `len` bytes on the medium, and only those ids have values |
| GpNvm.NewOffsetIsEnd | src/gp-nvm.c:167 | in a consistent store the new payload offset is the physical end of the file |
| GpNvm.StoredIsWritten | src/gp-nvm.c:125-132 | an id that reads back as a value has an entry of that length whose payload bytes are that value |
| GpNvm.SameSliceSameValue | src/gp-nvm.c:125-128 | what get delivers for an id depends only on the bytes of the entry lookup finds |
| GpNvm.SamePayloadSameValues | src/gp-nvm.c:125-128 | what get delivers depends only on the payload region of the file |
| GpNvm.SameEntriesSameValues | src/gp-nvm.c:120-128 | what get delivers for an id depends only on the entries lookup sees |
| GpNvm.TailAndHeaderKeepPayload | src/gp-nvm.c:166-179 | appending payload bytes and rewriting the record at offset 0 leave the payload region untouched |
| GpNvm.AddedConsistent | src/gp-nvm.c:166-185 | after a successful add from a consistent store, the store is consistent again |
| GpNvm.HeaderKeepsTail | src/gp-nvm.c:166-179 | persisting the record at offset 0 after an append keeps the file's length and the appended bytes |
| GpNvm.AddedEntry | src/gp-nvm.c:172-176 | the entry added for an id is what lookup finds for it, and its payload starts at the old end of a consistent file |
| GpNvm.AddedSelf | src/gp-nvm.c:166-176 | after a successful add, the new id reads back as the appended value |
| GpNvm.AddedOthers | src/gp-nvm.c:166-185 | after a successful add, every other id reads as before |
| GpNvm.AddedValues | src/gp-nvm.c:166-185 | after a successful add from a consistent store, the store is consistent, the new id reads back as its value and every other id reads as before |
| GpNvm.FailedAddValues | src/gp-nvm.c:166-184 | after a failed append or a failed persist, every id reads as before and the new id is still absent |
| GpNvm.OrphanShadowsNextAppend | src/gp-nvm.c:167-184 | from a consistent store, after a non-empty payload append followed by a rewrite of at most 88 bytes at offset 0 (a failed persist) or by none (a failed payload append), the file no longer ends after the last payload, and for a non-empty value no longer than the orphan, the next append check passes exactly when the value repeats the orphan's first bytes, whatever bytes of the new value the device kept |
| GpNvm.OverwriteElsewhere | src/nvm-arch.c:128-136 | bytes outside an in-place write read as before |
| GpNvm.PayloadsDisjoint | src/gp-nvm.c:173-175 | the payloads of two different entries in use do not overlap |
| GpNvm.PayloadWriteConsistent | src/gp-nvm.c:196-199 | writing at most `len` bytes into an entry's payload keeps the store consistent |
| GpNvm.PayloadWriteOther | src/gp-nvm.c:196-199 | writing into one entry's payload leaves every other id's value unchanged |
| GpNvm.PayloadWriteSelf | src/gp-nvm.c:196-201 | a complete write into an entry's payload makes the id read back as the bytes written |
| GpNvm.PayloadWriteValues | src/gp-nvm.c:196-201 | an in-place update keeps consistency and other ids' values, and a complete one makes the id read back as the new bytes |
| GpNvm.BootRecord | src/gp-nvm.c:64-67 | what init leaves in `attrs` before decoding is always 88 bytes |
| GpNvm.BootRecordRead | src/gp-nvm.c:67 | when the whole record can be read, init loads exactly the first 88 bytes of the file |
| GpNvm.BootRecordFresh | src/gp-nvm.c:64-70 | without a file, or with an empty one, init starts from the empty directory |
| GpNvm.Store.constructor | src/gp-nvm.c:56 | the zero-initialised global `attrs` is the empty directory |
| GpNvm.FreshBootAppend | src/gp-nvm.c:65-70 | on a missing or empty file the bootstrap append of the all-zero record succeeds exactly when the device keeps those 88 zero bytes, and the file it leaves is a consistent empty store |
| GpNvm.Store.Load | src/gp-nvm.c:65-67 | the whole of `attrs` (counters and all ten slots) becomes the given directory |
| GpNvm.Store.Init | src/gp-nvm.c:61-76 | `attrs` becomes the decoded boot record; a file holding a whole record is left as it is and nothing is appended; otherwise the record of the loaded directory is appended after the file's bytes, and the discarded result of that append is 0 exactly when the device kept the whole record and it reads back at offset 0; a missing or empty file boots the empty directory, whose record is 88 zero bytes, the append succeeds exactly when the device keeps those bytes, and then the store is consistent; a consistent store reloads its own directory unchanged |
| GpNvm.Store.Lookup | src/gp-nvm.c:86-98 | returns the index of the first entry in use with the id, none exactly when no entry in use has it, and agrees with `Find` |
| GpNvm.Store.Get | src/gp-nvm.c:114-133 | AttrNotFound, writing neither output, exactly when lookup misses; Success exactly when the file exists and the entry's bytes can all be read, giving `len` and those bytes; otherwise MemError, leaving the length output unwritten; never changes the directory |
| GpNvm.Store.AddNew | src/gp-nvm.c:159-185 | follows `AddOutcome`: a failed payload append gives MemError with the directory untouched; after a successful append, the record is rewritten; a failed persist gives MemError with the counters restored, and a successful persist gives Success with the entry added |
| GpNvm.Store.Set | src/gp-nvm.c:151-202 | MemFull, changing nothing, for a new id when the directory is full; the new-id path as in AddNew; for an existing id, `OverwriteOutcome`: AttrLenDiff, changing nothing, on a differing length, otherwise an in-place write with the directory unchanged, Success exactly when the device kept the bytes; the directory invariants are kept; entries in use never change; from a consistent store, other ids keep their values, and a success leaves the store consistent with `id` reading back as `value` |
| GpNvm.Store.GetStored | src/gp-nvm.c:114-133 | on a consistent store, get of an id that holds a value returns Success, the value's length and exactly the value |
| GpNvm.Store.SetThenGet | tests/test-gp-nvm.c:99-124 | on a healthy device, a successful set followed by a get of the same id returns Success, the length and exactly the bytes written |

## Left out

- Logging with `printf`/`fprintf`, including the boot-time listing of the directory in `gp_nvm_init`: it is output only.
- The `fopen`/`fclose` mechanics and the file name `nvm.bin`: the medium is a `Medium` object.
  - A failing `fopen` in `nvm_arch_append` is not modelled: "a+b" is taken always to succeed.
  - A failing `fseek` is not modelled: it does not happen for the non-negative offsets the callers pass.
- Device and OS faults: each write's outcome is the `landing` parameter, and reads are exact.
  - A short `fread` is taken to copy the bytes available before the end of the file, as common C libraries do.
- The C layout of `attr_list_t`: its padding bytes are modelled as zeros in `Directory.Encode`. This shows only where the C writes `attrs` back after loading padding bytes that were not zero: the persist at src/gp-nvm.c:179 after booting from such a record, and the bootstrap append after a file shorter than 88 bytes, where the C appends the padding bytes it read and the model appends zeros.
- `src/nvm.c`: a pass-through to the backend. Only its narrowing of the offset to `uint32_t` is kept, through `NewOffset`.
- `tests/test-gp-nvm.c`: a random driver. `SetThenGet` models the round trip it exercises; `rand`, `time` and the printing are not modelled.
- Crash atomicity between the payload append and the directory persist, and concurrent callers: the model is sequential.
- GpNvm.Store.Get: `value` is what lands at the start of the caller's buffer. The bytes of the buffer beyond it are not modelled.
- GpNvm.Store.Lookup: requires `num_entries <= MAX_ATTRS`. The code does not guarantee this after booting from a corrupt record, and its loop would then read past `entries[]`. That behaviour is undefined in C and is not modelled.
- GpNvm.Store.Get: requires `num_entries <= MAX_ATTRS`, for the lookup it performs (see `GpNvm.Store.Lookup`).
- GpNvm.Store.Set: requires `num_entries <= MAX_ATTRS`, for the lookup it performs (see `GpNvm.Store.Lookup`).
- GpNvm.Store.Init: it states nothing about the invariants of a directory loaded from a record that is there but corrupt. The code does not check such a record either.
