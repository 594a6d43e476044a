# RetroArch savestate manager, modelled in Dafny

This project models the savestate manager of RetroArch's
`tasks/task_save_state.c`. The manager saves the emulated core's state to a
file or to a memory buffer, and loads a state from a file. It keeps a
single-level undo in two process-wide slots:

- `old_save_file` holds the bytes of a file that a save overwrote, so that
  `content_undo_save_state` can write them back;
- `old_state_buf` holds a serialized state, so that `content_undo_load_state`
  can unserialize it.

Around every unserialize, an optional *SRAM guard* copies the battery-backed
memory regions named by the host's savefile list out of the core, and then
copies them back. Only some listed regions are protected: those whose size is
non-zero, whose pointer is live, and whose buffer was allocated, and only
when the block array itself was allocated. A failed calloc (line 100) or a
failed malloc (lines 118-120) is skipped silently, and the region it concerns
is then overwritten by the loaded state (`SramGuard.ProtectedRegions`).

The project has four modules:

- `Environment` (`environment.dfy`) holds the collaborators the manager only
  calls:
  - the filesystem (whole-file read and write, existence);
  - the core adapter (serialize size, serialize, unserialize, memory regions);
  - the host settings (`block_sram_overwrite` and the savefile list);
  - the allocator.

  Each collaborator is an explicit value. An allocation succeeds as
  `env.grants(request)` says. `core_unserialize` answers as
  `env.unserialize(core, bytes)` says. A read or write fails on the paths the
  filesystem lists as unreadable or unwritable, and always fails on a NULL or
  empty path. The core is assumed to satisfy one contract, `EnvValid`:
  unserialize leaves a well-formed core and does not resize, map or unmap any
  memory region.
- `SramGuard` (`sram_guard.dfy`) holds the guard as functions:
  - the four capture passes over the block array;
  - the flush-back pass;
  - the set of regions one guarded unserialize protects;
  - the lemma that flush-back restores exactly those regions and leaves every
    other region as unserialize left it.
- `SaveStateModel` (`savestate_model.dfy`) gives each entry point as a
  function from the state before the call to the result and the state after
  it, with contracts for each case of the code. It also holds the lemmas that
  relate calls to one another, and both halves of the two findings.
- `SaveState` (`savestate.dfy`) is the same manager in the source's own
  imperative form. It is a class whose fields are the two slots, the
  filesystem, the core and the settings. Each entry point updates those
  fields step by step, as the C code does. The SRAM guard is written once, as
  methods with loops over a heap array of blocks, and both call sites use it.
  Each method's `ensures` proves that it ends in the state the matching
  `SaveStateModel` function gives.

## Model

| member | source | states |
|---|---|---|
| Environment.ToUnsigned | tasks/task_save_state.c:104 | the `int` attribute of a savefile entry becomes an `unsigned` region id: below 2^32, congruent to the input modulo 2^32, and unchanged when the input is already in range |
| SramGuard.NumBlocks | tasks/task_save_state.c:92-106 | the block count is either 0 or the length of the savefile list, and it is non-zero exactly when the guard is on and the calloc of the block array succeeds |
| SramGuard.Enumerated | tasks/task_save_state.c:97-105 | a block straight after the calloc and the first pass carries entry k's `attr.i` converted to `unsigned`, no buffer and size 0 |
| SramGuard.Sized | tasks/task_save_state.c:108-116 | the second pass sets a block's size to its region's current size and keeps its id and buffer |
| SramGuard.Allocated | tasks/task_save_state.c:118-120 | the third pass gives a block without a buffer one of its recorded size exactly when the size is non-zero and the malloc succeeds; id and size are kept |
| SramGuard.Captured | tasks/task_save_state.c:122-138 | the fourth pass fills an allocated block with its region's bytes when the region's pointer is live, and leaves the block alone when it is NULL; whether a buffer is held does not change |
| SramGuard.FlushBack | tasks/task_save_state.c:144-160 | the flush-back pass keeps the set of regions, every region's size and pointer presence, and leaves a region with a NULL pointer untouched |
| SramGuard.CaptureSram | tasks/task_save_state.c:92-138 | one block per savefile entry when the guard is on and the block array is allocated, otherwise none; block k carries entry k's region id and that region's current size; it holds a buffer exactly when the size is non-zero and the malloc succeeds; a buffer whose region pointer is live holds that region's bytes |
| SramGuard.FlushBackRestores | tasks/task_save_state.c:144-160 | flushing blocks captured before unserialize back over the memory unserialize left restores every captured region to its earlier bytes and leaves every other region as unserialize left it; no region changes size, appears or disappears |
| SramGuard.ProtectedRegions | tasks/task_save_state.c:92-138 | a region is protected exactly when the guard is on, the block array is allocated, some savefile entry names the region, the region has non-zero size, its buffer is allocated and its pointer is live (both directions) |
| SramGuard.GuardedUnserialize | tasks/task_save_state.c:92-164 | the guarded call returns the unserialize result; the new core is the one unserialize left, except that each protected region holds its bytes from before the call |
| SramGuard.InactiveGuardIsPlainUnserialize | tasks/task_save_state.c:92-106 | with the guard off, or with its block array unallocated, the guarded call is exactly `core_unserialize` |
| SaveStateModel.SaveStateWithBackup | tasks/task_save_state.c:211-276 | a serialize size of 0, a failed working malloc or a failed `core_serialize` returns false and changes nothing; disk mode first backs up an existing file into `old_save_file`, then writes the state bytes and returns the write result; a missing file leaves `old_save_file` alone; buffer mode sets `old_state_buf` to empty path, the state bytes and the serialize size, returns true and writes nothing; the core and the other slot are untouched |
| SaveStateModel.LoadStateWithBackup | tasks/task_save_state.c:287-422 | a failed read returns false and changes nothing; backup mode puts the path, all of the file's bytes and its length into `old_save_file`, returns true and does not unserialize; load mode is a guarded unserialize of the file's bytes that returns its result and leaves both slots and the filesystem unchanged |
| SaveStateModel.UndoLoadState | tasks/task_save_state.c:65-181 | a size of 0 returns true and changes nothing; otherwise it runs a guarded unserialize of exactly the held bytes and returns its result, then empties the path and releases the buffer whatever the result; the size is kept |
| SaveStateModel.UndoSaveState | tasks/task_save_state.c:183-197 | writes the held bytes to the held path and returns whether the write succeeded; on success only that file's contents change, and on failure the filesystem is unchanged; it then empties the path and releases the buffer, keeping the size |
| SaveStateModel.ResetSavestateBackups | tasks/task_save_state.c:443-464 | returns true and leaves both slots with no buffer, an empty path and size 0; nothing else changes |
| SaveStateModel.SaveThenUndoSaveRestoresFile | tasks/task_save_state.c:242-247 | a disk save over a readable, writable file followed by an undo-save gives back the filesystem as it was before the save |
| SaveStateModel.UndoSaveWithoutBackupWritesNothing | tasks/task_save_state.c:185-196 | an undo-save with no file held writes nothing and returns false |
| SaveStateModel.UndoSaveTwice | tasks/task_save_state.c:185-196 | a second undo-save straight after the first changes nothing and returns false |
| SaveStateModel.SaveThenLoadRoundTrip | tasks/task_save_state.c:241-247 | for a core that, after accepting a state, serializes back to exactly it, a disk save followed by a successful load of the same path leaves the core serialize-equal to the saved one |
| SaveStateModel.BufferedStateIsWhatUndoLoadRestores | tasks/task_save_state.c:249-264 | after a buffer-mode save, an undo-load unserializes exactly the saved bytes under the guard |
| SaveStateModel.LoadKeepsOldStateBuf | tasks/task_save_state.c:383-384 | as written, a load leaves `old_state_buf` as it was; when it was empty, an undo-load afterwards returns true and changes nothing |
| SaveStateModel.LoadStateIntended | tasks/task_save_state.c:383-384 | with the backup call in buffer mode, a load that serializes puts the replaced state into `old_state_buf`; in every other respect (result, core, `old_save_file`, filesystem, backup mode, read failure) it is the load as written |
| SaveStateModel.IntendedLoadThenUndoLoad | tasks/task_save_state.c:383-385 | with the intended backup call, an undo-load after a load unserializes the replaced state; for a core that, after accepting a state, serializes back to exactly it, a successful undo gives back a core serialize-equal to the one before the load |
| SaveStateModel.UndoLoadLeavesSizeBehind | tasks/task_save_state.c:171-178 | as written, undo-load releases the buffer but keeps a non-zero size |
| SaveStateModel.UndoLoadOneShot | tasks/task_save_state.c:171-178 | with the size cleared as well, an undo-load that runs leaves `old_state_buf` empty (NULL data, empty path, size 0) and otherwise has exactly the result and state of the undo-load as written; with size 0 it returns true and changes nothing |
| SaveStateModel.UndoLoadOneShotTwice | tasks/task_save_state.c:81-82 | with the corrected wipe, a second undo-load returns true and changes nothing |
| SaveState.SaveStates.constructor | tasks/task_save_state.c:50-56 | both slots start zero-initialised |
| SaveState.SaveStates.SnapshotSram | tasks/task_save_state.c:92-138 | the block array it returns is exactly `CaptureSram` of the settings and the live memory |
| SaveState.SaveStates.EnumerateBlocks | tasks/task_save_state.c:92-106 | callocs `NumBlocks` blocks, and block k carries savefile entry k's region id |
| SaveState.SaveStates.SizeBlocks | tasks/task_save_state.c:108-116 | each block records its region's current size |
| SaveState.SaveStates.AllocateBlocks | tasks/task_save_state.c:118-120 | each block of non-zero size gets a buffer when the malloc succeeds |
| SaveState.SaveStates.CaptureBlocks | tasks/task_save_state.c:122-138 | each allocated block whose region pointer is live gets that region's bytes |
| SaveState.SaveStates.RestoreSram | tasks/task_save_state.c:144-160 | the core's memory becomes `FlushBack` of it over the blocks; nothing else changes |
| SaveState.SaveStates.CoreUnserialize | tasks/task_save_state.c:140-142 | returns the unserialize result and puts the core unserialize leaves in place; nothing else changes |
| SaveState.SaveStates.SaveStateWithBackup | tasks/task_save_state.c:211-276 | keeps the slot invariants and ends in exactly the result and state of `SaveStateModel.SaveStateWithBackup` |
| SaveState.SaveStates.LoadStateWithBackup | tasks/task_save_state.c:287-422 | keeps the slot invariants and ends in exactly the result and state of `SaveStateModel.LoadStateWithBackup` |
| SaveState.SaveStates.UndoLoadState | tasks/task_save_state.c:65-181 | keeps the slot invariants and ends in exactly the result and state of `SaveStateModel.UndoLoadState` |
| SaveState.SaveStates.UndoSaveState | tasks/task_save_state.c:183-197 | keeps the slot invariants and ends in exactly the result and state of `SaveStateModel.UndoSaveState` |
| SaveState.SaveStates.ResetSavestateBackups | tasks/task_save_state.c:443-464 | keeps the slot invariants and ends in exactly the result and state of `SaveStateModel.ResetSavestateBackups` |

## Left out

- Logging and message lookup (`RARCH_LOG`, `RARCH_ERR`, `msg_hash_to_str`) have no effect on the state, so they are not modelled.
- `content_rename_state` (lines 424-436) only calls the operating system's `unlink` and `rename`; it has no logic of its own.
- The wrappers `content_save_state` and `content_load_state` (lines 210 and 286) end without a `return`, which is undefined behaviour in C, so they are given no result.
- The unchecked `malloc` and `memcpy` into a slot (lines 261-262 and 322-323) are assumed to succeed. The fixed-size `strcpy` into `path` (line 314) is not modelled: paths are unbounded strings.
- The foreign calls are deterministic values, not implementations. These are the filesystem calls, `core_serialize_size`, `core_serialize`, `core_unserialize`, `core_get_memory`, `config_get_ptr`, `global_get_ptr` and the allocator. A core's state is what it reports through the adapter: its serialize size, its serialized bytes and its memory regions.
- A region resized across unserialize, or one whose pointer appears or disappears across it, is excluded by `EnvValid`. For a resize, the code as written would copy back the size recorded before unserialize. For a pointer that appears, it would copy an uninitialised buffer. A pointer that disappears is harmless in the source, because lines 157 and 400 skip the copy. It is excluded only so that the set of restored regions is fixed at capture time. With it allowed, that region would just go unrestored, and `FlushBackRestores` would have to name the live pointers after unserialize as well.
- The serialization a core reports (`CoreState.serialized`) is a field of its own, independent of its memory regions. The flush-back therefore never changes what a later `core_serialize` writes. For a core whose savestate includes its SRAM, the source would serialize the restored SRAM, which the model does not capture. GuardedUnserialize's clause that the serialization is the one unserialize left holds only under this assumption.
- `filestream_write_file` is all-or-nothing: a write fails exactly on an unwritable path and then leaves the file as it was. A write that truncates the file and then fails part-way, on a short write or a full disk, is not captured. SaveStateModel.UndoSaveState's clause that a failed write leaves the filesystem unchanged, and the same clause for a failed disk-mode save, rest on this.
- `num_blocks` is an `unsigned`, assigned from the list's `size_t` length (lines 102 and 341). `NumBlocks` is unbounded, so a list of 2^32 or more entries, whose count the source truncates, is not modelled.
- A `memcpy` between a block and its region replaces the whole region. Under `EnvValid` the lengths agree.
- The `free` calls for the blocks, the working buffer and the read buffer are not modelled. They only release memory.
- A NULL savefile list and an empty one are both an empty sequence. The guard treats them alike.
- A fresh `malloc` buffer holds zeros until its capture copy. Its real contents are undefined, and when the pointer is live they are always overwritten.
- SaveStateModel.UndoLoadState: requires that a non-zero size comes with a held buffer. With a size and no buffer, which a previous undo-load leaves, the source hands `core_unserialize` a NULL pointer with a non-zero size, and that call's behaviour is outside the model. See the findings.
- SaveState.SaveStates.UndoLoadState: the same precondition as above.
- The TODO about turning the manager into an asynchronous task (line 200) describes no behaviour; the code is sequential.
- The comment at line 383 and the description of `old_state_buf` at lines 52-55 promise an undo after a load. The code as written cannot perform one, because line 384 calls the save in disk mode with a NULL path. That round trip is proved only for the corrected `LoadStateIntended`.

## Findings

| source | as written | input that shows it | evidently intended | confidence | as-written member | corrected member |
|---|---|---|---|---|---|---|
| tasks/task_save_state.c:383-384 | the backup before a load is `content_save_state_with_backup(NULL, true)`, a disk-mode save to a NULL path, which writes nothing and leaves `old_state_buf` untouched | a load of a readable state file while `old_state_buf` is empty, followed by `content_undo_load_state`: the undo returns true and restores nothing | `content_save_state_with_backup(NULL, false)`, which puts the current state into `old_state_buf` as the comment at line 383 says | not executed | SaveStateModel.LoadKeepsOldStateBuf | SaveStateModel.IntendedLoadThenUndoLoad |
| tasks/task_save_state.c:171-178 | undo-load empties the path and releases the buffer but leaves `old_state_buf.size` as it was, although the comment calls the buffer one use only | two `content_undo_load_state` calls in a row after a buffer-mode save: the second one hands `core_unserialize` a NULL buffer with a non-zero size instead of being a no-op | also clear `size`, as `content_reset_savestate_backups` does (line 461), so that a second undo returns true and does nothing | not executed | SaveStateModel.UndoLoadLeavesSizeBehind | SaveStateModel.UndoLoadOneShotTwice |
