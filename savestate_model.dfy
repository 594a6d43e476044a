/** The savestate manager of tasks/task_save_state.c as functions: each entry
    point maps the state before the call (the two process-wide backup slots,
    the filesystem, the core and the host settings) to its boolean result and
    the state after it.  The contracts state what each call does; the lemmas
    below relate calls to one another. */
module SaveStateModel {
  import opened Environment
  import opened SramGuard

  /** struct save_state_buf: the path it came from, the owned buffer (None
      for NULL) and its byte count. */
  datatype Slot = Slot(path: string, data: Option<seq<byte>>, size: nat)

  /** A slot as the process starts and as content_reset_savestate_backups leaves it. */
  const EmptySlot := Slot("", None, 0)

  /** What every entry point keeps true of a slot: a held buffer has the
      recorded size, and a slot without a buffer has an empty path.  (A slot
      without a buffer may still record a non-zero size: see UndoLoadState.) */
  predicate SlotValid(s: Slot) {
    && (s.data.Some? ==> |s.data.value| == s.size)
    && (s.data.None? ==> s.path == "")
  }

  /** The bytes a slot hands on: its buffer, or nothing for NULL. */
  function SlotBytes(s: Slot): seq<byte> {
    if s.data.Some? then s.data.value else []
  }

  /** Everything the manager reads or writes. */
  datatype World = World(
    oldSaveFile: Slot,
    oldStateBuf: Slot,
    fs: FileSystem,
    core: CoreState,
    config: Config)

  predicate Valid(w: World) {
    SlotValid(w.oldSaveFile) && SlotValid(w.oldStateBuf) && CoreValid(w.core)
  }

  /** The call's boolean result and the state it leaves. */
  datatype Outcome = Outcome(ok: bool, world: World)

  /** The first three steps of a save succeed: the core reports a non-zero
      state size, the working buffer is allocated and core_serialize works. */
  predicate Serializes(w: World, env: Env) {
    w.core.sizeReport != 0 && env.grants(Malloc(w.core.sizeReport)) && w.core.serialized.Some?
  }

  /** The bytes core_serialize writes. */
  function StateBytes(w: World): seq<byte>
    requires w.core.serialized.Some?
  {
    w.core.serialized.value
  }

  /** old_save_file after a successful backup read of the file at `p`. */
  function FileBackup(w: World, p: Path): Slot
    requires Readable(w.fs, p)
  {
    Slot(p.chars, Some(w.fs.files[p.chars]), |w.fs.files[p.chars]|)
  }

  // -----------------------------------------------------------------------
  // Entry points
  // -----------------------------------------------------------------------

  /** content_save_state_with_backup(path, save_to_disk).  A save never calls
      core_unserialize; EnvValid is required only because a disk-mode save
      calls into LoadStateWithBackup, whose load mode does. */
  function SaveStateWithBackup(w: World, env: Env, path: Path, saveToDisk: bool): (r: Outcome)
    requires Valid(w) && EnvValid(env)
    ensures Valid(r.world)
    ensures r.world.core == w.core && r.world.config == w.config
    // a size of 0, a failed allocation or a failed core_serialize: nothing happens
    ensures !Serializes(w, env) ==> r == Outcome(false, w)
    ensures saveToDisk ==> r.world.oldStateBuf == w.oldStateBuf
    // disk mode: back up an existing file, then write and report the write
    ensures saveToDisk && Serializes(w, env) ==>
      && r.ok == Writable(w.fs, path)
      && r.world.fs == WriteFile(w.fs, path, StateBytes(w))
      && r.world.oldSaveFile == (if Readable(w.fs, path) then FileBackup(w, path) else w.oldSaveFile)
    ensures !FileExists(w.fs, path) ==> r.world.oldSaveFile == w.oldSaveFile
    // buffer mode: replace old_state_buf, leave the filesystem alone
    ensures !saveToDisk ==> r.world.fs == w.fs && r.world.oldSaveFile == w.oldSaveFile
    ensures !saveToDisk && Serializes(w, env) ==>
      r.ok && r.world.oldStateBuf == Slot("", Some(StateBytes(w)), w.core.sizeReport)
    decreases if path.Null? then 0 else 2
  {
    var n := w.core.sizeReport;
    if n == 0 then Outcome(false, w)
    else if !env.grants(Malloc(n)) then Outcome(false, w)
    else if w.core.serialized.None? then Outcome(false, w)
    else
      var data := w.core.serialized.value;
      if saveToDisk then
        var w1 := if FileExists(w.fs, path) then LoadStateWithBackup(w, env, path, true).world else w;
        Outcome(Writable(w1.fs, path), w1.(fs := WriteFile(w1.fs, path, data)))
      else
        Outcome(true, w.(oldStateBuf := w.oldStateBuf.(path := "", data := Some(data), size := n)))
  }

  /** content_load_state_with_backup(path, save_to_backup_buffer), as written:
      the "backup the current state" call in it is a disk-mode save to a NULL
      path, which does nothing.  Backup mode never calls core_unserialize; the
      one EnvValid requirement covers both modes. */
  function LoadStateWithBackup(w: World, env: Env, path: Path, saveToBackupBuffer: bool): (r: Outcome)
    requires Valid(w) && EnvValid(env)
    ensures Valid(r.world)
    ensures r.world.config == w.config && r.world.fs == w.fs
    ensures !Readable(w.fs, path) ==> r == Outcome(false, w)
    // backup mode: copy the file into old_save_file, never unserialize
    ensures saveToBackupBuffer && Readable(w.fs, path) ==>
      r == Outcome(true, w.(oldSaveFile := FileBackup(w, path)))
    // load mode: a guarded unserialize of the file; both slots stay as they were
    ensures !saveToBackupBuffer && Readable(w.fs, path) ==>
      var g := GuardedUnserialize(w.config, env, w.core, w.fs.files[path.chars]);
      r == Outcome(g.ok, w.(core := g.core))
    decreases if saveToBackupBuffer then 1 else 3
  {
    var rd := ReadFile(w.fs, path);
    if !rd.ok || rd.size < 0 then Outcome(false, w)
    else if saveToBackupBuffer then
      Outcome(true, w.(oldSaveFile := Slot(path.chars, Some(rd.buf), rd.size as nat)))
    else
      var blocks := CaptureSram(w.config, env, w.core.memory);
      var w1 := SaveStateWithBackup(w, env, Null, true).world;
      var u := env.unserialize(w1.core, rd.buf);
      FlushBackRestores(w1.core.memory, u.core.memory, blocks);
      Outcome(u.ok, w1.(core := u.core.(memory := FlushBack(u.core.memory, blocks))))
  }

  /** content_undo_load_state.  The source hands core_unserialize the held
      buffer with the recorded size, so a recorded size without a buffer
      (what a previous undo leaves) is not a state it can run in. */
  function UndoLoadState(w: World, env: Env): (r: Outcome)
    requires Valid(w) && EnvValid(env)
    requires w.oldStateBuf.size == 0 || w.oldStateBuf.data.Some?
    ensures Valid(r.world)
    ensures r.world.fs == w.fs && r.world.oldSaveFile == w.oldSaveFile && r.world.config == w.config
    ensures w.oldStateBuf.size == 0 ==> r == Outcome(true, w)
    ensures w.oldStateBuf.size != 0 ==>
      var g := GuardedUnserialize(w.config, env, w.core, SlotBytes(w.oldStateBuf));
      && r.ok == g.ok && r.world.core == g.core
      && r.world.oldStateBuf == Slot("", None, w.oldStateBuf.size)
  {
    if w.oldStateBuf.size == 0 then Outcome(true, w)
    else
      var g := GuardedUnserialize(w.config, env, w.core, w.oldStateBuf.data.value);
      Outcome(g.ok, w.(core := g.core, oldStateBuf := w.oldStateBuf.(path := "", data := None)))
  }

  /** content_undo_save_state */
  function UndoSaveState(w: World): (r: Outcome)
    requires Valid(w)
    ensures Valid(r.world)
    ensures r.ok == Writable(w.fs, Str(w.oldSaveFile.path))
    ensures r.ok ==> r.world.fs == w.fs.(files := w.fs.files[w.oldSaveFile.path := SlotBytes(w.oldSaveFile)])
    ensures !r.ok ==> r.world.fs == w.fs
    ensures r.world.oldSaveFile == Slot("", None, w.oldSaveFile.size)
    ensures r.world.oldStateBuf == w.oldStateBuf && r.world.core == w.core && r.world.config == w.config
  {
    var p := Str(w.oldSaveFile.path);
    var ok := Writable(w.fs, p);
    var fs := WriteFile(w.fs, p, SlotBytes(w.oldSaveFile));
    Outcome(ok, w.(fs := fs, oldSaveFile := w.oldSaveFile.(path := "", data := None)))
  }

  /** content_reset_savestate_backups */
  function ResetSavestateBackups(w: World): (r: Outcome)
    ensures r.ok
    ensures r.world.oldSaveFile.data.None? && r.world.oldSaveFile.path == "" && r.world.oldSaveFile.size == 0
    ensures r.world.oldStateBuf.data.None? && r.world.oldStateBuf.path == "" && r.world.oldStateBuf.size == 0
    ensures r.world.fs == w.fs && r.world.core == w.core && r.world.config == w.config
    ensures Valid(w) ==> Valid(r.world)
  {
    var w1 := w.(oldSaveFile := w.oldSaveFile.(data := None, path := "", size := 0));
    Outcome(true, w1.(oldStateBuf := w1.oldStateBuf.(data := None, path := "", size := 0)))
  }

  // -----------------------------------------------------------------------
  // Properties across calls
  // -----------------------------------------------------------------------

  /** Saving over an existing file and undoing the save puts the file's old
      bytes back, and leaves old_save_file without a buffer. */
  lemma SaveThenUndoSaveRestoresFile(w: World, env: Env, p: string)
    requires Valid(w) && EnvValid(env) && Serializes(w, env)
    requires Readable(w.fs, Str(p)) && Writable(w.fs, Str(p))
    ensures var s := SaveStateWithBackup(w, env, Str(p), true);
      && s.ok && s.world.fs.files == w.fs.files[p := StateBytes(w)]
      && var u := UndoSaveState(s.world);
         && u.ok && u.world.fs == w.fs
         && u.world.oldSaveFile == Slot("", None, |w.fs.files[p]|)
  {
    var s := SaveStateWithBackup(w, env, Str(p), true);
    assert s.world.oldSaveFile == FileBackup(w, Str(p));
    var u := UndoSaveState(s.world);
    assert u.world.fs.files == w.fs.files;
  }

  /** An undo of a save with no file held writes nothing (the slot's path is
      empty, which no file can be opened by) and reports failure; in
      particular a second undo in a row is harmless. */
  lemma UndoSaveWithoutBackupWritesNothing(w: World)
    requires Valid(w) && w.oldSaveFile.data.None?
    ensures UndoSaveState(w) == Outcome(false, w.(oldSaveFile := Slot("", None, w.oldSaveFile.size)))
  {
  }

  lemma {:induction false} UndoSaveTwice(w: World)
    requires Valid(w)
    ensures var u1 := UndoSaveState(w);
      UndoSaveState(u1.world) == Outcome(false, u1.world)
  {
    var u1 := UndoSaveState(w);
    UndoSaveWithoutBackupWritesNothing(u1.world);
  }

  /** A core that, after accepting a state, serializes back to exactly it
      (Faithful).  For such a core, a successful load right after a
      successful save leaves the core serialize-equal to the one that was
      saved. */
  ghost predicate Faithful(env: Env) {
    forall c: CoreState, b: seq<byte> | CoreValid(c) && env.unserialize(c, b).ok ::
      env.unserialize(c, b).core.serialized == Some(b)
  }

  lemma SaveThenLoadRoundTrip(w: World, env: Env, p: string)
    requires Valid(w) && EnvValid(env) && Faithful(env) && Serializes(w, env)
    requires Writable(w.fs, Str(p)) && p !in w.fs.unreadable
    ensures var s := SaveStateWithBackup(w, env, Str(p), true);
      && s.ok
      && var l := LoadStateWithBackup(s.world, env, Str(p), false);
         l.ok ==> l.world.core.serialized == w.core.serialized
  {
    var s := SaveStateWithBackup(w, env, Str(p), true);
    assert Readable(s.world.fs, Str(p)) && s.world.fs.files[p] == StateBytes(w);
  }

  /** Buffer mode and undo-load fit together: undoing right after a
      buffer-mode save unserializes exactly the buffered state. */
  lemma BufferedStateIsWhatUndoLoadRestores(w: World, env: Env, path: Path)
    requires Valid(w) && EnvValid(env) && Serializes(w, env)
    ensures var s := SaveStateWithBackup(w, env, path, false);
      && s.ok
      && var u := UndoLoadState(s.world, env);
         var g := GuardedUnserialize(w.config, env, w.core, StateBytes(w));
         u.ok == g.ok && u.world.core == g.core
  {
  }

  // -----------------------------------------------------------------------
  // Line 384: the live state is not captured before a load
  // -----------------------------------------------------------------------

  /** As written, a load leaves old_state_buf as it was, so with nothing held
      before it an undo-load right after the load succeeds without doing
      anything: the state the load replaced cannot be restored. */
  lemma LoadKeepsOldStateBuf(w: World, env: Env, p: string)
    requires Valid(w) && EnvValid(env) && Readable(w.fs, Str(p))
    requires w.oldStateBuf == EmptySlot
    ensures var l := LoadStateWithBackup(w, env, Str(p), false);
      && l.world.oldStateBuf == EmptySlot
      && UndoLoadState(l.world, env) == Outcome(true, l.world)
  {
  }

  /** content_load_state_with_backup with the backup call in buffer mode,
      as its comment says it is meant: `content_save_state_with_backup(NULL, false)`. */
  function LoadStateIntended(w: World, env: Env, path: Path, saveToBackupBuffer: bool): (r: Outcome)
    requires Valid(w) && EnvValid(env)
    ensures Valid(r.world)
    ensures !Readable(w.fs, path) ==> r == Outcome(false, w)
    ensures !saveToBackupBuffer && Readable(w.fs, path) && Serializes(w, env) ==>
      r.world.oldStateBuf == Slot("", Some(StateBytes(w)), w.core.sizeReport)
    // apart from old_state_buf it is the load as written, in both modes
    ensures saveToBackupBuffer ==> r == LoadStateWithBackup(w, env, path, true)
    ensures !saveToBackupBuffer && Readable(w.fs, path) ==>
      var l := LoadStateWithBackup(w, env, path, false);
      r == Outcome(l.ok, l.world.(oldStateBuf := SaveStateWithBackup(w, env, Null, false).world.oldStateBuf))
  {
    var rd := ReadFile(w.fs, path);
    if !rd.ok || rd.size < 0 then Outcome(false, w)
    else if saveToBackupBuffer then
      Outcome(true, w.(oldSaveFile := Slot(path.chars, Some(rd.buf), rd.size as nat)))
    else
      var blocks := CaptureSram(w.config, env, w.core.memory);
      var w1 := SaveStateWithBackup(w, env, Null, false).world;
      var u := env.unserialize(w1.core, rd.buf);
      FlushBackRestores(w1.core.memory, u.core.memory, blocks);
      Outcome(u.ok, w1.(core := u.core.(memory := FlushBack(u.core.memory, blocks))))
  }

  /** With the intended backup call, undoing a load unserializes the state
      the load replaced; for a core that serializes back to exactly the
      state it accepted, a successful undo restores a core serialize-equal
      to the one before the load. */
  lemma IntendedLoadThenUndoLoad(w: World, env: Env, p: string)
    requires Valid(w) && EnvValid(env) && Serializes(w, env) && Readable(w.fs, Str(p))
    ensures var l := LoadStateIntended(w, env, Str(p), false);
      && l.world.oldStateBuf.size != 0
      && var u := UndoLoadState(l.world, env);
         && (var g := GuardedUnserialize(w.config, env, l.world.core, StateBytes(w));
             u.ok == g.ok && u.world.core == g.core)
         && (Faithful(env) && u.ok ==> u.world.core.serialized == w.core.serialized)
  {
    var l := LoadStateIntended(w, env, Str(p), false);
    assert l.world.config == w.config;
  }

  // -----------------------------------------------------------------------
  // Undo-load keeps the recorded size
  // -----------------------------------------------------------------------

  /** As written, undo-load releases the buffer but keeps the size, so the
      slot is not seen as empty afterwards: a second undo-load hands a NULL
      buffer of that size to core_unserialize instead of doing nothing. */
  lemma UndoLoadLeavesSizeBehind(w: World, env: Env)
    requires Valid(w) && EnvValid(env) && w.oldStateBuf.data.Some? && w.oldStateBuf.size != 0
    ensures var u := UndoLoadState(w, env);
      u.world.oldStateBuf.size != 0 && u.world.oldStateBuf.data.None?
  {
  }

  /** content_undo_load_state with the slot wiped completely, size included,
      as content_reset_savestate_backups does. */
  function UndoLoadOneShot(w: World, env: Env): (r: Outcome)
    requires Valid(w) && EnvValid(env)
    requires w.oldStateBuf.size == 0 || w.oldStateBuf.data.Some?
    ensures Valid(r.world) && r.world.oldStateBuf.size == 0
    ensures w.oldStateBuf.size != 0 ==> r.world.oldStateBuf == EmptySlot
    ensures w.oldStateBuf.size == 0 ==> r == Outcome(true, w)
    // apart from the wipe it is the undo-load as written
    ensures w.oldStateBuf.size != 0 ==>
      var u := UndoLoadState(w, env);
      r == Outcome(u.ok, u.world.(oldStateBuf := EmptySlot))
  {
    var u := UndoLoadState(w, env);
    Outcome(u.ok, u.world.(oldStateBuf := u.world.oldStateBuf.(size := 0)))
  }

  /** With the corrected wipe a second undo-load is the promised no-op. */
  lemma {:induction false} UndoLoadOneShotTwice(w: World, env: Env)
    requires Valid(w) && EnvValid(env)
    requires w.oldStateBuf.size == 0 || w.oldStateBuf.data.Some?
    ensures var u1 := UndoLoadOneShot(w, env);
      UndoLoadOneShot(u1.world, env) == Outcome(true, u1.world)
  {
  }
}
