/** The savestate manager of tasks/task_save_state.c as the source runs it:
    one object whose fields are the two process-wide backup slots
    (old_save_file, old_state_buf) and the environment the entry points read
    and change (filesystem, core, host settings).  Each entry point updates
    the fields step by step as the C code does and is proved to end in the
    state that SaveStateModel gives for it. */
module SaveState {
  import opened Environment
  import opened SramGuard
  import Model = SaveStateModel

  class SaveStates {
    var oldSaveFile: Model.Slot
    var oldStateBuf: Model.Slot
    var fs: FileSystem
    var core: CoreState
    var settings: Config
    /** How the foreign calls behave (allocation, core_unserialize). */
    const env: Env

    function World(): Model.World
      reads this
    {
      Model.World(oldSaveFile, oldStateBuf, fs, core, settings)
    }

    ghost predicate Valid()
      reads this
    {
      Model.Valid(World()) && EnvValid(env)
    }

    /** Process start: both static slots are zero-initialised. */
    constructor (fs0: FileSystem, core0: CoreState, settings0: Config, env0: Env)
      requires CoreValid(core0) && EnvValid(env0)
      ensures Valid()
      ensures World() == Model.World(Model.EmptySlot, Model.EmptySlot, fs0, core0, settings0)
      ensures env == env0
    {
      oldSaveFile, oldStateBuf := Model.EmptySlot, Model.EmptySlot;
      fs, core, settings := fs0, core0, settings0;
      env := env0;
    }

    /** The capture half of the SRAM guard: calloc the block array, then the
        four passes over it (region ids, sizes, buffers, copies of the live
        bytes). */
    method SnapshotSram() returns (blocks: array<SramBlock>)
      ensures fresh(blocks)
      ensures blocks[..] == CaptureSram(settings, env, core.memory)
    {
      blocks := EnumerateBlocks();
      SizeBlocks(blocks);
      AllocateBlocks(blocks);
      CaptureBlocks(blocks);
      assert forall k | 0 <= k < blocks.Length :: blocks[k] == CaptureSram(settings, env, core.memory)[k];
    }

    /** calloc of the block array and the pass that records each region id. */
    method EnumerateBlocks() returns (blocks: array<SramBlock>)
      ensures fresh(blocks) && blocks.Length == NumBlocks(settings, env)
      ensures forall k | 0 <= k < blocks.Length :: blocks[k] == Enumerated(settings, k)
    {
      blocks := new SramBlock[0];
      if settings.blockSramOverwrite && |settings.savefiles| > 0 {
        if env.grants(Calloc(|settings.savefiles|)) {
          blocks := new SramBlock[|settings.savefiles|](_ => SramBlock(0, None, 0));
          for i := 0 to blocks.Length
            invariant forall k | 0 <= k < i :: blocks[k] == Enumerated(settings, k)
            invariant forall k | i <= k < blocks.Length :: blocks[k] == SramBlock(0, None, 0)
          {
            blocks[i] := blocks[i].(id := ToUnsigned(settings.savefiles[i]));
          }
        }
      }
    }

    /** The pass that records each region's current size. */
    method SizeBlocks(blocks: array<SramBlock>)
      modifies blocks
      ensures forall k | 0 <= k < blocks.Length :: blocks[k] == Sized(core.memory, old(blocks[k]))
    {
      for i := 0 to blocks.Length
        invariant forall k | 0 <= k < i :: blocks[k] == Sized(core.memory, old(blocks[k]))
        invariant forall k | i <= k < blocks.Length :: blocks[k] == old(blocks[k])
      {
        var info := GetMemory(core.memory, blocks[i].id);
        blocks[i] := blocks[i].(size := info.size);
      }
    }

    /** The pass that allocates a buffer for every block of non-zero size. */
    method AllocateBlocks(blocks: array<SramBlock>)
      modifies blocks
      ensures forall k | 0 <= k < blocks.Length :: blocks[k] == Allocated(env, old(blocks[k]))
    {
      for i := 0 to blocks.Length
        invariant forall k | 0 <= k < i :: blocks[k] == Allocated(env, old(blocks[k]))
        invariant forall k | i <= k < blocks.Length :: blocks[k] == old(blocks[k])
      {
        if blocks[i].size != 0 && env.grants(Malloc(blocks[i].size)) {
          blocks[i] := blocks[i].(data := Some(Zeros(blocks[i].size)));
        }
      }
    }

    /** The pass that copies each live region into its block's buffer. */
    method CaptureBlocks(blocks: array<SramBlock>)
      modifies blocks
      ensures forall k | 0 <= k < blocks.Length :: blocks[k] == Captured(core.memory, old(blocks[k]))
    {
      for i := 0 to blocks.Length
        invariant forall k | 0 <= k < i :: blocks[k] == Captured(core.memory, old(blocks[k]))
        invariant forall k | i <= k < blocks.Length :: blocks[k] == old(blocks[k])
      {
        if blocks[i].data.Some? {
          var info := GetMemory(core.memory, blocks[i].id);
          if info.data.Some? {
            blocks[i] := blocks[i].(data := info.data);
          }
        }
      }
    }

    /** The flush-back half of the SRAM guard: copy every allocated block
        over its live region, skipping a NULL pointer. */
    method RestoreSram(blocks: array<SramBlock>)
      modifies this
      ensures World() == old(World()).(core := old(core).(memory := FlushBack(old(core.memory), blocks[..])))
    {
      for i := 0 to blocks.Length
        invariant World() == old(World()).(core := old(core).(memory := FlushBack(old(core.memory), blocks[..i])))
      {
        assert blocks[..i + 1][..i] == blocks[..i];
        if blocks[i].data.Some? {
          var info := GetMemory(core.memory, blocks[i].id);
          if info.data.Some? {
            core := core.(memory := core.memory[blocks[i].id := Region(info.size, blocks[i].data)]);
          }
        }
      }
      assert blocks[..blocks.Length] == blocks[..];
    }

    /** core_unserialize */
    method CoreUnserialize(data: seq<byte>) returns (ok: bool)
      modifies this
      ensures ok == old(env.unserialize(core, data)).ok
      ensures World() == old(World()).(core := old(env.unserialize(core, data)).core)
    {
      var u := env.unserialize(core, data);
      ok, core := u.ok, u.core;
    }

    /** content_save_state_with_backup; Valid() includes EnvValid only for the
        load it may call back into. */
    method SaveStateWithBackup(path: Path, saveToDisk: bool) returns (ret: bool)
      requires Valid()
      modifies this
      ensures Valid()
      ensures Model.Outcome(ret, World()) == Model.SaveStateWithBackup(old(World()), env, path, saveToDisk)
      decreases if path.Null? then 0 else 2
    {
      var size := core.sizeReport;
      if size == 0 {
        return false;
      }
      if !env.grants(Malloc(size)) {
        return false;
      }
      ret := core.serialized.Some?;
      if ret {
        var data := core.serialized.value;
        if saveToDisk {
          if FileExists(fs, path) {
            var backedUp := LoadStateWithBackup(path, true);
          }
          ret := Writable(fs, path);
          fs := WriteFile(fs, path, data);
        } else {
          oldStateBuf := oldStateBuf.(path := "");
          if oldStateBuf.data.Some? {
            oldStateBuf := oldStateBuf.(data := None);
          }
          oldStateBuf := oldStateBuf.(data := Some(data));
          oldStateBuf := oldStateBuf.(size := size);
        }
      }
    }

    /** content_load_state_with_backup, with the backup call of line 384 as
        written (disk mode, NULL path). */
    method LoadStateWithBackup(path: Path, saveToBackupBuffer: bool) returns (ret: bool)
      requires Valid()
      modifies this
      ensures Valid()
      ensures Model.Outcome(ret, World()) == Model.LoadStateWithBackup(old(World()), env, path, saveToBackupBuffer)
      decreases if saveToBackupBuffer then 1 else 3
    {
      ghost var w0 := World();
      var rd := ReadFile(fs, path);
      if !rd.ok || rd.size < 0 {
        return false;
      }
      if saveToBackupBuffer {
        oldSaveFile := oldSaveFile.(path := path.chars);
        if oldSaveFile.data.Some? {
          oldSaveFile := oldSaveFile.(data := None);
        }
        oldSaveFile := oldSaveFile.(data := Some(rd.buf));
        oldSaveFile := oldSaveFile.(size := rd.size as nat);
        return true;
      }
      var blocks := SnapshotSram();
      var backedUp := SaveStateWithBackup(Null, true);
      ret := CoreUnserialize(rd.buf);
      RestoreSram(blocks);
      assert Model.Valid(Model.LoadStateWithBackup(w0, env, path, false).world);
    }

    /** content_undo_load_state */
    method UndoLoadState() returns (ret: bool)
      requires Valid()
      requires oldStateBuf.size == 0 || oldStateBuf.data.Some?
      modifies this
      ensures Valid()
      ensures Model.Outcome(ret, World()) == Model.UndoLoadState(old(World()), env)
    {
      ghost var w0 := World();
      if oldStateBuf.size == 0 {
        return true;
      }
      var blocks := SnapshotSram();
      ret := CoreUnserialize(oldStateBuf.data.value);
      RestoreSram(blocks);
      oldStateBuf := oldStateBuf.(path := "");
      if oldStateBuf.data.Some? {
        oldStateBuf := oldStateBuf.(data := None);
      }
      assert Model.Valid(Model.UndoLoadState(w0, env).world);
    }

    /** content_undo_save_state */
    method UndoSaveState() returns (ret: bool)
      requires Valid()
      modifies this
      ensures Valid()
      ensures Model.Outcome(ret, World()) == Model.UndoSaveState(old(World()))
    {
      var p := Str(oldSaveFile.path);
      ret := Writable(fs, p);
      fs := WriteFile(fs, p, Model.SlotBytes(oldSaveFile));
      oldSaveFile := oldSaveFile.(path := "");
      if oldSaveFile.data.Some? {
        oldSaveFile := oldSaveFile.(data := None);
      }
    }

    /** content_reset_savestate_backups */
    method ResetSavestateBackups() returns (ret: bool)
      requires Valid()
      modifies this
      ensures Valid()
      ensures Model.Outcome(ret, World()) == Model.ResetSavestateBackups(old(World()))
    {
      if oldSaveFile.data.Some? {
        oldSaveFile := oldSaveFile.(data := None);
      }
      oldSaveFile := oldSaveFile.(path := "", size := 0);
      if oldStateBuf.data.Some? {
        oldStateBuf := oldStateBuf.(data := None);
      }
      oldStateBuf := oldStateBuf.(path := "", size := 0);
      ret := true;
    }
  }
}
