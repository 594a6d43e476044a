/** The SRAM guard of tasks/task_save_state.c, written out twice in the
    source (around the unserialize of content_undo_load_state and of
    content_load_state_with_backup).  Before unserialize it builds one
    `struct sram_block` per entry of the host's savefile list and copies the
    live bytes of each such region into it; afterwards it copies them back
    over the regions, so that the battery-backed memory the user asked to
    protect survives the state replacement. */
module SramGuard {
  import opened Environment

  /** struct sram_block; `id` is the source's `type` field, the region id. */
  datatype SramBlock = SramBlock(id: RegionId, data: Option<seq<byte>>, size: nat)

  /** The guard runs when block_sram_overwrite is set and the savefile list
      is non-empty. */
  predicate GuardActive(cfg: Config) {
    cfg.blockSramOverwrite && |cfg.savefiles| > 0
  }

  /** num_blocks: zero when the guard is off or the calloc of the block
      array fails. */
  function NumBlocks(cfg: Config, env: Env): (n: nat)
    ensures n == 0 || n == |cfg.savefiles|
    ensures n != 0 <==> GuardActive(cfg) && env.grants(Calloc(|cfg.savefiles|))
  {
    if GuardActive(cfg) && env.grants(Calloc(|cfg.savefiles|)) then |cfg.savefiles| else 0
  }

  /** Stand-in contents of a fresh malloc'd buffer before the capture copy. */
  function Zeros(n: nat): seq<byte> {
    seq(n, _ => 0 as byte)
  }

  // The four passes over the block array, one function per pass.

  /** Block k straight after the calloc and the first pass. */
  function Enumerated(cfg: Config, k: nat): (b: SramBlock)
    requires k < |cfg.savefiles|
    ensures b.id < 0x1_0000_0000 && (b.id - cfg.savefiles[k]) % 0x1_0000_0000 == 0
    ensures b.data.None? && b.size == 0
  {
    SramBlock(ToUnsigned(cfg.savefiles[k]), None, 0)
  }

  /** The second pass records the region's current size. */
  function Sized(mem: Memory, b: SramBlock): (r: SramBlock)
    ensures r.id == b.id && r.data == b.data
    ensures r.size == GetMemory(mem, b.id).size
  {
    b.(size := SizeOf(mem, b.id))
  }

  /** The third pass allocates a buffer for every block of non-zero size. */
  function Allocated(env: Env, b: SramBlock): (r: SramBlock)
    ensures r.id == b.id && r.size == b.size
    ensures b.data.None? ==> (r.data.Some? <==> b.size != 0 && env.grants(Malloc(b.size)))
    ensures b.data.None? && r.data.Some? ==> |r.data.value| == r.size
  {
    if b.size != 0 && env.grants(Malloc(b.size)) then b.(data := Some(Zeros(b.size))) else b
  }

  /** The fourth pass copies the live region into the block's buffer,
      skipping a region whose pointer is NULL. */
  function Captured(mem: Memory, b: SramBlock): (r: SramBlock)
    ensures r.id == b.id && r.size == b.size && r.data.Some? == b.data.Some?
    ensures r.data.Some? && Present(mem, b.id) ==> r.data == GetMemory(mem, b.id).data
    ensures !Present(mem, b.id) ==> r == b
  {
    if b.data.Some? && Present(mem, b.id) then b.(data := GetMemory(mem, b.id).data) else b
  }

  /** The block array as it stands when unserialize is called. */
  function CaptureSram(cfg: Config, env: Env, mem: Memory): (blocks: seq<SramBlock>)
    ensures |blocks| == NumBlocks(cfg, env)
    ensures forall k | 0 <= k < |blocks| ::
      blocks[k].id == ToUnsigned(cfg.savefiles[k]) && blocks[k].size == SizeOf(mem, blocks[k].id)
    ensures forall k | 0 <= k < |blocks| ::
      blocks[k].data.Some? <==> blocks[k].size != 0 && env.grants(Malloc(blocks[k].size))
    ensures forall k | 0 <= k < |blocks| && blocks[k].data.Some? && Present(mem, blocks[k].id) ::
      blocks[k].data == GetMemory(mem, blocks[k].id).data
  {
    seq(NumBlocks(cfg, env), k requires 0 <= k < NumBlocks(cfg, env) =>
      Captured(mem, Allocated(env, Sized(mem, Enumerated(cfg, k)))))
  }

  /** One step of the flush-back pass: copy the block's buffer over the live
      region, skipping an unallocated block and a NULL pointer. */
  function FlushBlock(mem: Memory, b: SramBlock): Memory {
    if b.data.Some? && Present(mem, b.id) then mem[b.id := Region(SizeOf(mem, b.id), b.data)] else mem
  }

  /** The flush-back pass over the blocks, in array order. */
  function FlushBack(mem: Memory, blocks: seq<SramBlock>): (r: Memory)
    ensures r.Keys == mem.Keys
    ensures ShapeKept(mem, r)
    ensures forall id | !Present(mem, id) :: GetMemory(r, id) == GetMemory(mem, id)
    decreases |blocks|
  {
    if |blocks| == 0 then mem
    else FlushBlock(FlushBack(mem, blocks[..|blocks| - 1]), blocks[|blocks| - 1])
  }

  /** The regions some block writes back: its buffer was allocated and the
      region's pointer was live at capture. */
  function Restored(blocks: seq<SramBlock>, mem: Memory): set<RegionId> {
    set k | 0 <= k < |blocks| && blocks[k].data.Some? && Present(mem, blocks[k].id) :: blocks[k].id
  }

  /** The regions one guarded unserialize protects. */
  function Protected(cfg: Config, env: Env, mem: Memory): set<RegionId> {
    Restored(CaptureSram(cfg, env, mem), mem)
  }

  /** Flushing back blocks captured from `before` over the memory `after` that
      unserialize left (same sizes and pointers): every restored region is
      back to its bytes in `before`, every other region keeps its bytes in
      `after`, and no region appears, disappears or changes shape. */
  lemma {:induction false} FlushBackRestores(before: Memory, after: Memory, blocks: seq<SramBlock>)
    requires MemoryValid(before) && ShapeKept(before, after)
    requires forall k | 0 <= k < |blocks| && blocks[k].data.Some? && Present(before, blocks[k].id) ::
      blocks[k].data == GetMemory(before, blocks[k].id).data
    ensures FlushBack(after, blocks).Keys == after.Keys
    ensures forall id ::
      GetMemory(FlushBack(after, blocks), id) ==
        (if id in Restored(blocks, before) then GetMemory(before, id) else GetMemory(after, id))
    ensures ShapeKept(after, FlushBack(after, blocks))
    ensures MemoryValid(after) ==> MemoryValid(FlushBack(after, blocks))
    decreases |blocks|
  {
    var r := FlushBack(after, blocks);
    if |blocks| == 0 {
      assert r == after;
    } else {
      var n := |blocks| - 1;
      var bs, b := blocks[..n], blocks[n];
      assert forall k | 0 <= k < |bs| :: bs[k] == blocks[k];
      FlushBackRestores(before, after, bs);
      var m := FlushBack(after, bs);
      assert r == FlushBlock(m, b);
      var hit := b.data.Some? && Present(before, b.id);
      assert Restored(blocks, before) == Restored(bs, before) + (if hit then {b.id} else {}) by {
        forall id | id in Restored(blocks, before)
          ensures id in Restored(bs, before) + (if hit then {b.id} else {})
        {
          var k :| 0 <= k < |blocks| && blocks[k].data.Some? && Present(before, blocks[k].id) && blocks[k].id == id;
          if k < n { assert bs[k] == blocks[k]; }
        }
        forall id | id in Restored(bs, before) ensures id in Restored(blocks, before) {
          var k :| 0 <= k < |bs| && bs[k].data.Some? && Present(before, bs[k].id) && bs[k].id == id;
          assert blocks[k] == bs[k];
        }
        if hit { assert blocks[n] == b; }
      }
      assert Present(m, b.id) == Present(before, b.id);
      if hit {
        assert GetMemory(r, b.id) == GetMemory(before, b.id);
      } else {
        assert r == m;
      }
    }
  }

  /** The guard's regions, stated on the savefile list: a region is protected
      exactly when the guard runs, the block array was allocated, some entry
      names the region, the region has non-zero size, its buffer was
      allocated and its pointer is live. */
  lemma ProtectedRegions(cfg: Config, env: Env, mem: Memory, id: RegionId)
    ensures id in Protected(cfg, env, mem) <==>
      && GuardActive(cfg) && env.grants(Calloc(|cfg.savefiles|))
      && (exists k | 0 <= k < |cfg.savefiles| :: ToUnsigned(cfg.savefiles[k]) == id)
      && SizeOf(mem, id) != 0 && env.grants(Malloc(SizeOf(mem, id))) && Present(mem, id)
  {
    var blocks := CaptureSram(cfg, env, mem);
    if id in Protected(cfg, env, mem) {
      var k :| 0 <= k < |blocks| && blocks[k].data.Some? && Present(mem, blocks[k].id) && blocks[k].id == id;
      assert ToUnsigned(cfg.savefiles[k]) == id;
    }
    if && GuardActive(cfg) && env.grants(Calloc(|cfg.savefiles|))
       && (exists k | 0 <= k < |cfg.savefiles| :: ToUnsigned(cfg.savefiles[k]) == id)
       && SizeOf(mem, id) != 0 && env.grants(Malloc(SizeOf(mem, id))) && Present(mem, id)
    {
      var k :| 0 <= k < |cfg.savefiles| && ToUnsigned(cfg.savefiles[k]) == id;
      assert blocks[k].id == id && blocks[k].data.Some?;
    }
  }

  /** One guarded unserialize: capture, core_unserialize, flush back.  The
      result is the unserialize result; the core is the one unserialize left,
      except that every protected region holds its bytes from before. */
  function GuardedUnserialize(cfg: Config, env: Env, core: CoreState, bytes: seq<byte>): (r: Unserialized)
    requires CoreValid(core) && EnvValid(env)
    ensures r.ok == env.unserialize(core, bytes).ok
    ensures CoreValid(r.core)
    ensures r.core.sizeReport == env.unserialize(core, bytes).core.sizeReport
    ensures r.core.serialized == env.unserialize(core, bytes).core.serialized
    ensures r.core.memory.Keys == env.unserialize(core, bytes).core.memory.Keys
    ensures forall id ::
      GetMemory(r.core.memory, id) ==
        (if id in Protected(cfg, env, core.memory) then GetMemory(core.memory, id)
         else GetMemory(env.unserialize(core, bytes).core.memory, id))
  {
    var blocks := CaptureSram(cfg, env, core.memory);
    var u := env.unserialize(core, bytes);
    FlushBackRestores(core.memory, u.core.memory, blocks);
    Unserialized(u.ok, u.core.(memory := FlushBack(u.core.memory, blocks)))
  }

  /** With the guard off (or its block array unallocated) unserialize alone
      decides the new core. */
  lemma {:induction false} InactiveGuardIsPlainUnserialize(cfg: Config, env: Env, core: CoreState, bytes: seq<byte>)
    requires CoreValid(core) && EnvValid(env)
    requires !GuardActive(cfg) || !env.grants(Calloc(|cfg.savefiles|))
    ensures GuardedUnserialize(cfg, env, core, bytes) == env.unserialize(core, bytes)
  {
    var u := env.unserialize(core, bytes);
    var r := GuardedUnserialize(cfg, env, core, bytes);
    assert Protected(cfg, env, core.memory) == {};
    assert r.core.memory == u.core.memory by {
      forall id | id in u.core.memory ensures r.core.memory[id] == u.core.memory[id] {
        assert GetMemory(r.core.memory, id) == GetMemory(u.core.memory, id);
      }
    }
  }
}
