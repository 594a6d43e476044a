/** The world the savestate manager of tasks/task_save_state.c runs against:
    bytes and C paths, the filesystem primitives, the emulated core seen
    through its adapter (serialize size, serialize, unserialize, memory
    regions), the host settings and the allocator.  All of these are foreign
    to the manager; here each is a value whose behaviour is fixed explicitly,
    so that every operation of the manager is a function of its inputs. */
module Environment {

  newtype byte = b: int | 0 <= b < 0x100

  datatype Option<+T> = None | Some(value: T)

  /** A `const char *` argument: either NULL or a C string. */
  datatype Path = Null | Str(chars: string)

  // ---------------------------------------------------------------------
  // Filesystem (filestream_read_file, filestream_write_file, path_file_exists)
  // ---------------------------------------------------------------------

  /** Whole-file contents by path, plus the paths on which a read or a write
      fails for reasons outside the manager (permissions, I/O errors). */
  datatype FileSystem = FileSystem(
    files: map<string, seq<byte>>,
    unreadable: set<string>,
    unwritable: set<string>)

  /** Opening a file fails for a NULL pointer and for the empty pathname. */
  predicate Openable(p: Path) {
    p.Str? && p.chars != ""
  }

  /** path_file_exists */
  predicate FileExists(fs: FileSystem, p: Path) {
    Openable(p) && p.chars in fs.files
  }

  predicate Readable(fs: FileSystem, p: Path) {
    FileExists(fs, p) && p.chars !in fs.unreadable
  }

  predicate Writable(fs: FileSystem, p: Path) {
    Openable(p) && p.chars !in fs.unwritable
  }

  /** What filestream_read_file reports: success, the length it read (-1 on
      failure) and the bytes. */
  datatype ReadResult = ReadResult(ok: bool, size: int, buf: seq<byte>)

  function ReadFile(fs: FileSystem, p: Path): ReadResult {
    if Readable(fs, p) then ReadResult(true, |fs.files[p.chars]|, fs.files[p.chars])
    else ReadResult(false, -1, [])
  }

  /** The filesystem after filestream_write_file; the call succeeds exactly
      when Writable(fs, p), and truncates and replaces the file. */
  function WriteFile(fs: FileSystem, p: Path, data: seq<byte>): FileSystem {
    if Writable(fs, p) then fs.(files := fs.files[p.chars := data]) else fs
  }

  // ---------------------------------------------------------------------
  // Core adapter (core_serialize_size, core_serialize, core_unserialize,
  // core_get_memory)
  // ---------------------------------------------------------------------

  /** A memory region id (`unsigned` in the source). */
  type RegionId = nat

  /** What core_get_memory reports for one region: its size and its live
      bytes, or no data when the region's pointer is NULL. */
  datatype Region = Region(size: nat, data: Option<seq<byte>>)

  /** The core's memory regions; an id without an entry reports size 0 and
      a NULL pointer. */
  type Memory = map<RegionId, Region>

  function GetMemory(m: Memory, id: RegionId): Region {
    if id in m then m[id] else Region(0, None)
  }

  function SizeOf(m: Memory, id: RegionId): nat {
    GetMemory(m, id).size
  }

  predicate Present(m: Memory, id: RegionId) {
    GetMemory(m, id).data.Some?
  }

  /** A live region holds exactly as many bytes as its reported size. */
  predicate MemoryValid(m: Memory) {
    forall id | id in m && m[id].data.Some? :: |m[id].data.value| == m[id].size
  }

  /** Every region keeps its size and the presence of its pointer. */
  ghost predicate ShapeKept(before: Memory, after: Memory) {
    forall id :: SizeOf(after, id) == SizeOf(before, id) && Present(after, id) == Present(before, id)
  }

  /** The emulated core, up to serialize-equality: the size that
      core_serialize_size reports (0: the core cannot serialize), the bytes
      core_serialize would write (None: it fails), and its memory regions. */
  datatype CoreState = CoreState(sizeReport: nat, serialized: Option<seq<byte>>, memory: Memory)

  predicate CoreValid(c: CoreState) {
    && (c.serialized.Some? ==> |c.serialized.value| == c.sizeReport)
    && MemoryValid(c.memory)
  }

  /** The result of core_unserialize and the core it leaves behind. */
  datatype Unserialized = Unserialized(ok: bool, core: CoreState)

  /** An allocation request: malloc(bytes) or calloc(count, sizeof(struct sram_block)). */
  datatype Request = Malloc(bytes: nat) | Calloc(count: nat)

  /** The behaviour of the foreign calls whose outcome the manager does not
      control: which allocation requests succeed, and what core_unserialize
      answers and leaves behind for a given core and input. */
  datatype Env = Env(
    grants: Request -> bool,
    unserialize: (CoreState, seq<byte>) -> Unserialized)

  /** The core contract relied on: unserialize leaves a well-formed core and
      neither resizes nor unmaps nor maps any memory region. */
  ghost predicate EnvValid(env: Env) {
    forall c: CoreState, b: seq<byte> | CoreValid(c) ::
      CoreValid(env.unserialize(c, b).core) && ShapeKept(c.memory, env.unserialize(c, b).core.memory)
  }

  // ---------------------------------------------------------------------
  // Host settings (config_get_ptr()->block_sram_overwrite, global->savefiles)
  // ---------------------------------------------------------------------

  /** `savefiles` holds the `attr.i` of every entry of the host's savefile
      list, in list order (a NULL list and an empty one behave alike). */
  datatype Config = Config(blockSramOverwrite: bool, savefiles: seq<int>)

  /** The C conversion of an `int` to `unsigned` (32 bits). */
  function ToUnsigned(i: int): (u: RegionId)
    ensures u < 0x1_0000_0000
    ensures (u - i) % 0x1_0000_0000 == 0
    ensures 0 <= i < 0x1_0000_0000 ==> u == i
  {
    i % 0x1_0000_0000
  }
}
