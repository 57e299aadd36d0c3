/** The pure bookkeeping of the tracer in src/traced_task.rs.

    The tracer stops a task at a seccomp event, reads the 16 bytes that
    follow the `syscall` instruction, picks the patch hook whose pattern
    they start with, and (if the site may be patched) routes the site
    through an extended-jump stub placed within 2 GiB of it. It talks to
    the tracee through ptrace word reads and writes, injects syscalls at
    fixed addresses of the preload page, and forgets per-process state
    after `exec`.

    ptrace, `waitpid` and the lock set are outside the model: a word read
    is a function from address to optional word, and every answer the
    tracee or the lock set gives during an operation is a parameter. */
module Tracer {
  import opened Wrappers
  import opened Bytes
  import Hooks
  import Proc

  type Hook = Hooks.SyscallPatchHook

  const SIGTRAP: int := 5

  // ---------------------------------------------------------------------
  // Addresses the tracer uses in the preload page

  /** The page `task_exec_reset` records as the injected mmap page. */
  const EXEC_INJECTED_PAGE: u64 := 0x7000_0000
  /** Where `untraced_syscall` resumes the tracee to inject a syscall. */
  const UNTRACED_INJECT_ADDR: u64 := 0x7000_0008
  /** Where `traced_syscall` resumes the tracee to inject a syscall. */
  const TRACED_INJECT_ADDR: u64 := 0x7000_0010

  /** The x86-64 `syscall` instruction. */
  const SYSCALL_INSN: seq<byte> := [0x0f, 0x05]
  const SYSCALL_INSN_SIZE: nat := |SYSCALL_INSN|

  /** The address of the `syscall` instruction after which a task stopped
      with instruction pointer `rip`. */
  function SyscallSite(rip: u64): (r: u64)
    ensures Add64(r, SYSCALL_INSN_SIZE) == rip
  {
    Sub64(rip, SYSCALL_INSN_SIZE)
  }

  // ---------------------------------------------------------------------
  // Locating the trampoline library

  /** `a & !0xfff`: the start of the page holding `a`. */
  function PageOf(a: u64): (r: u64)
    ensures r % 0x1000 == 0 && r <= a < r + 0x1000
  {
    a - a % 0x1000
  }

  /** `libtrampoline_load_address`, given what reading the trampoline slot
      returned: a failed read or a zero slot means the library is not
      loaded; otherwise the page holding the address read. */
  function LibtrampolineLoadAddress(read: Option<i64>): (r: Option<u64>)
    ensures r.Some? <==> read.Some? && read.value != 0
    ensures r.Some? ==> r.value % 0x1000 == 0
    ensures r.Some? ==> r.value <= ToUnsigned(read.value) < r.value + 0x1000
  {
    match read
    case Some(addr) => if addr != 0 then Some(PageOf(ToUnsigned(addr))) else None
    case None => None
  }

  // ---------------------------------------------------------------------
  // Per-task state

  datatype TaskState =
    | Ready
    | Running
    | Stopped(signal: int)
    | Signaled(signal: int)
    | Event(event: int)
    | Syscall
    | Exited(code: int)

  /** A page of extended-jump stubs in the tracee. */
  datatype StubPage = StubPage(address: u64, size: u64, stubCount: nat)

  /** The fields of a traced task that the patching logic reads or writes. */
  datatype Task = Task(
    tid: int,
    pid: int,
    ppid: int,
    pgid: int,
    state: TaskState,
    inVfork: bool,
    seccompHookSize: Option<nat>,
    ldpreloadAddress: Option<u64>,
    injectedMmapPage: Option<u64>,
    injectedSharedPage: Option<u64>,
    signalToDeliver: Option<int>,
    memoryMap: seq<Proc.ProcMapsEntry>,
    stubPages: seq<StubPage>,
    unpatchableSyscalls: seq<u64>,
    patchedSyscalls: seq<u64>)

  predicate IsPatchedSyscall(t: Task, rip: u64)
  {
    rip in t.patchedSyscalls
  }

  /** `task_exec_reset`: after `exec` the address space is new, so every
      record about the old one is dropped. */
  function TaskExecReset(t: Task): (r: Task)
    ensures r.ldpreloadAddress.None? && r.signalToDeliver.None?
    ensures !r.inVfork && r.seccompHookSize.None?
    ensures r.injectedMmapPage == Some(EXEC_INJECTED_PAGE) && r.state == Exited(0)
    ensures r.patchedSyscalls == [] && r.unpatchableSyscalls == []
    ensures r.memoryMap == [] && r.stubPages == []
    ensures r.tid == t.tid && r.pid == t.pid && r.ppid == t.ppid && r.pgid == t.pgid
    ensures r.injectedSharedPage == t.injectedSharedPage
  {
    t.(ldpreloadAddress := None,
       injectedMmapPage := Some(EXEC_INJECTED_PAGE),
       signalToDeliver := None,
       state := Exited(0),
       inVfork := false,
       seccompHookSize := None,
       patchedSyscalls := [],
       unpatchableSyscalls := [],
       memoryMap := [],
       stubPages := [])
  }

  /** Two tasks with the same identity and shared page are the same task
      after `exec`, whatever each had recorded before, and resetting twice
      is resetting once. */
  lemma ExecResetForgetsHistory(t1: Task, t2: Task)
    requires t1.tid == t2.tid && t1.pid == t2.pid && t1.ppid == t2.ppid && t1.pgid == t2.pgid
    requires t1.injectedSharedPage == t2.injectedSharedPage
    ensures TaskExecReset(t1) == TaskExecReset(t2)
    ensures TaskExecReset(TaskExecReset(t1)) == TaskExecReset(t1)
  {
  }

  // ---------------------------------------------------------------------
  // Searching a list

  /** The first index at or after `from` whose element satisfies `p`: the
      `iter().find` / `iter().filter().next()` of the source. */
  function FirstIndex<T>(xs: seq<T>, p: T -> bool, from: nat): (r: Option<nat>)
    requires from <= |xs|
    ensures r.Some? ==> from <= r.value < |xs| && p(xs[r.value])
    ensures r.Some? ==> forall j :: from <= j < r.value ==> !p(xs[j])
    ensures r.None? ==> forall j :: from <= j < |xs| ==> !p(xs[j])
    decreases |xs| - from
  {
    if from == |xs| then None
    else if p(xs[from]) then Some(from)
    else FirstIndex(xs, p, from + 1)
  }

  // ---------------------------------------------------------------------
  // Finding the hook for a syscall site

  /** The 16 bytes after the `syscall` instruction: the words at `rip` and
      `rip + 8`, each in memory (little-endian) order. */
  function Window(peek: u64 -> Option<u64>, rip: u64): (r: Option<seq<byte>>)
    ensures r.Some? <==> peek(rip).Some? && peek(Add64(rip, 8)).Some?
    ensures r.Some? ==> |r.value| == 16
    ensures r.Some? ==> r.value[..8] == WordOf(peek(rip).value)
    ensures r.Some? ==> r.value[8..] == WordOf(peek(Add64(rip, 8)).value)
  {
    match peek(rip)
    case None => None
    case Some(w0) =>
      match peek(Add64(rip, 8))
      case None => None
      case Some(w1) => Some(WordOf(w0) + WordOf(w1))
  }

  predicate Matches(window: seq<byte>, h: Hook)
  {
    Hooks.IsPrefix(h.instructions, window)
  }

  /** `find_syscall_hook`: the first catalogue hook whose pattern starts the
      window; nothing when either word cannot be read or no pattern fits. */
  function FindSyscallHook(peek: u64 -> Option<u64>, rip: u64): (r: Option<Hook>)
    ensures r.Some? ==> Window(peek, rip).Some?
    ensures r.Some? ==> r.value in Hooks.SYSCALL_HOOKS && Matches(Window(peek, rip).value, r.value)
    ensures r.None? && Window(peek, rip).Some? ==>
      forall h :: h in Hooks.SYSCALL_HOOKS ==> !Matches(Window(peek, rip).value, h)
  {
    match Window(peek, rip)
    case None => None
    case Some(w) =>
      match FirstIndex(Hooks.SYSCALL_HOOKS, h => Matches(w, h), 0)
      case None => None
      case Some(i) => Some(Hooks.SYSCALL_HOOKS[i])
  }

  /** The pattern found is the only one that fits: since the catalogue is
      prefix-free, "first" never had to choose between two matches. */
  lemma FoundHookIsUnique(peek: u64 -> Option<u64>, rip: u64, h: Hook)
    requires FindSyscallHook(peek, rip).Some?
    requires h in Hooks.SYSCALL_HOOKS && Matches(Window(peek, rip).value, h)
    ensures FindSyscallHook(peek, rip) == Some(h)
  {
    var w := Window(peek, rip).value;
    var found := FindSyscallHook(peek, rip).value;
    var i :| 0 <= i < |Hooks.SYSCALL_HOOKS| && Hooks.SYSCALL_HOOKS[i] == found;
    var j :| 0 <= j < |Hooks.SYSCALL_HOOKS| && Hooks.SYSCALL_HOOKS[j] == h;
    Hooks.AtMostOneMatch(w, i, j);
  }

  // ---------------------------------------------------------------------
  // Extended-jump stubs

  /** The sizes defined by the stub generator: bytes per jump stub and
      pages per stub area. */
  datatype StubConfig = StubConfig(jumpSize: nat, jumpPages: nat)

  /** `2u64.wrapping_shl(30)`. */
  const TWO_GB: u64 := 0x8000_0000

  /** The reuse test of `extended_jump_from_to`: a page wholly below `rip`
      and at most 2 GiB from it, or one starting at or above `rip` whose
      stub area ends at most 2 GiB above it. */
  predicate Reachable(cfg: StubConfig, page: StubPage, rip: u64)
    ensures Reachable(cfg, page, rip) ==> Add64(page.address, page.size) <= rip || page.address >= rip
    ensures page.address < rip < Add64(page.address, page.size) ==> !Reachable(cfg, page, rip)
  {
    var start := page.address;
    var end := Add64(page.address, page.size);
    if end <= rip then Sub64(rip, start) <= TWO_GB
    else if start >= rip then Sub64(Add64(start, Wrap64(cfg.jumpPages * 0x1000)), rip) <= TWO_GB
    else false
  }

  /** Without wrap-around, a reusable page is one of the two kinds, and a
      page that straddles `rip` is never reusable. */
  lemma ReachableMeansWithinTwoGiB(cfg: StubConfig, page: StubPage, rip: u64)
    requires page.address + page.size < TWO_64
    requires page.address + cfg.jumpPages * 0x1000 < TWO_64
    ensures Reachable(cfg, page, rip) <==>
      (page.address + page.size <= rip && rip - page.address <= 0x8000_0000) ||
      (page.address >= rip && page.address + cfg.jumpPages * 0x1000 - rip <= 0x8000_0000)
    ensures page.address < rip < page.address + page.size ==> !Reachable(cfg, page, rip)
  {
  }

  /** The first stub page the site can reach. */
  function FindStubPage(cfg: StubConfig, pages: seq<StubPage>, rip: u64): (r: Option<nat>)
    ensures r.Some? ==> r.value < |pages| && Reachable(cfg, pages[r.value], rip)
    ensures r.Some? ==> forall i :: 0 <= i < r.value ==> !Reachable(cfg, pages[i], rip)
    ensures r.None? ==> forall i :: 0 <= i < |pages| ==> !Reachable(cfg, pages[i], rip)
  {
    FirstIndex(pages, p => Reachable(cfg, p, rip), 0)
  }

  /** What `allocate_extended_jumps` did in the tracee: it mapped and
      filled a new page; it failed before recording one (no free area, the
      `mmap`, or the library not being loaded); or it recorded the page in
      `stub_pages` and then failed to fill it (`poke_bytes`) or to protect
      it (`mprotect`). Mapping and filling are tracee I/O, so the outcome is
      a parameter. */
  datatype Allocation =
    | Allocated(page: StubPage)
    | FailedUnrecorded(error: PatchError)
    | FailedRecorded(page: StubPage, error: PatchError)

  /** The page a stub will live in, or why there is none, and the page list
      afterwards. */
  datatype PageChoice = PageChoice(page: Result<StubPage, PatchError>, pages: seq<StubPage>)

  /** Reuse the first reachable page; only when there is none, fall back on
      what `allocate_extended_jumps` did. A page it recorded stays recorded
      even when it then failed. */
  function ChooseStubPage(cfg: StubConfig, pages: seq<StubPage>, rip: u64,
                          allocation: Allocation): (r: PageChoice)
    ensures r.page.Err? <==> FindStubPage(cfg, pages, rip).None? && !allocation.Allocated?
    ensures FindStubPage(cfg, pages, rip).Some? ==>
      r.page == Ok(pages[FindStubPage(cfg, pages, rip).value]) && r.pages == pages
    ensures r.page.Err? ==> r.page.error == allocation.error
    ensures r.page.Ok? && r.pages == pages ==>
      r.page.value in pages && Reachable(cfg, r.page.value, rip)
    ensures r.page.Ok? && r.pages != pages ==>
      FindStubPage(cfg, pages, rip).None? && allocation == Allocated(r.page.value)
      && r.pages == pages + [r.page.value]
    ensures FindStubPage(cfg, pages, rip).None? && allocation.FailedRecorded? ==>
      r.pages == pages + [allocation.page]
    ensures FindStubPage(cfg, pages, rip).Some? || allocation.FailedUnrecorded? ==> r.pages == pages
  {
    match FindStubPage(cfg, pages, rip)
    case Some(i) => PageChoice(Ok(pages[i]), pages)
    case None =>
      match allocation
      case Allocated(p) => PageChoice(Ok(p), pages + [p])
      case FailedUnrecorded(e) => PageChoice(Err(e), pages)
      case FailedRecorded(p, e) => PageChoice(Err(e), pages + [p])
  }

  /** A page recorded by a failed allocation is there for later sites: one
      within reach of it chooses an existing page and allocates nothing,
      although the page's stubs may never have been written. */
  lemma RecordedFailureIsReused(cfg: StubConfig, pages: seq<StubPage>, rip: u64,
                                page: StubPage, e: PatchError, later: u64, next: Allocation)
    requires FindStubPage(cfg, pages, rip).None?
    requires Reachable(cfg, page, later)
    ensures var failed := ChooseStubPage(cfg, pages, rip, FailedRecorded(page, e));
      failed.page == Err(e)
      && ChooseStubPage(cfg, failed.pages, later, next).page.Ok?
      && ChooseStubPage(cfg, failed.pages, later, next).pages == failed.pages
  {
    var failed := ChooseStubPage(cfg, pages, rip, FailedRecorded(page, e));
    assert failed.pages[|pages|] == page;
    assert FindStubPage(cfg, failed.pages, later).Some?;
  }

  /** `hook_index`: the position of the first catalogue entry equal to
      `curr`. */
  function HookIndex(hooks: seq<Hook>, curr: Hook): (r: Result<nat, PatchError>)
    ensures r.Ok? <==> curr in hooks
    ensures r.Ok? ==> r.value < |hooks| && hooks[r.value] == curr
    ensures r.Ok? ==> forall j :: 0 <= j < r.value ==> hooks[j] != curr
    ensures r.Err? ==> r.error == HookNotFound
  {
    match FirstIndex(hooks, h => h == curr, 0)
    case Some(k) => Ok(k)
    case None => Err(HookNotFound)
  }

  /** `extended_jump_offset_from_stub_page`: stubs sit one per hook, in
      catalogue order. */
  function ExtendedJumpOffset(cfg: StubConfig, hooks: seq<Hook>, curr: Hook): (r: Result<nat, PatchError>)
    ensures r.Ok? <==> curr in hooks
    ensures r.Ok? ==> r.value == HookIndex(hooks, curr).value * cfg.jumpSize
  {
    var k :- HookIndex(hooks, curr);
    Ok(k * cfg.jumpSize)
  }

  /** In a prefix-free list every entry is the first one equal to itself. */
  lemma IndexInPrefixFree(hooks: seq<Hook>, i: nat)
    requires Hooks.PrefixFree(hooks) && i < |hooks|
    ensures HookIndex(hooks, hooks[i]) == Ok(i)
  {
    var k := HookIndex(hooks, hooks[i]).value;
    if k != i {
      assert hooks[k].instructions[..|hooks[i].instructions|] == hooks[i].instructions;
      assert Hooks.IsPrefix(hooks[k].instructions, hooks[i].instructions);
    }
  }

  /** In a prefix-free list, entries `i < j` get stub offsets at least one
      stub apart. */
  lemma OffsetsInPrefixFree(cfg: StubConfig, hooks: seq<Hook>, i: nat, j: nat)
    requires Hooks.PrefixFree(hooks) && i < j < |hooks|
    ensures ExtendedJumpOffset(cfg, hooks, hooks[i]) == Ok(i * cfg.jumpSize)
    ensures ExtendedJumpOffset(cfg, hooks, hooks[j]).value
         >= ExtendedJumpOffset(cfg, hooks, hooks[i]).value + cfg.jumpSize
  {
    IndexInPrefixFree(hooks, i);
    IndexInPrefixFree(hooks, j);
    StubSpacing(i, j, cfg.jumpSize);
  }

  lemma {:induction false} StubSpacing(a: nat, b: nat, size: nat)
    requires a < b
    ensures a * size + size <= b * size
    decreases b - a
  {
    assert b * size == (b - 1) * size + size;
    if a + 1 < b {
      StubSpacing(a, b - 1, size);
    }
  }

  /** Every catalogue entry finds its own position, so distinct entries get
      stub areas `jumpSize` bytes apart that never overlap. */
  lemma CatalogueOffsets(cfg: StubConfig, i: nat, j: nat)
    requires i < j < |Hooks.SYSCALL_HOOKS|
    ensures ExtendedJumpOffset(cfg, Hooks.SYSCALL_HOOKS, Hooks.SYSCALL_HOOKS[i]) == Ok(i * cfg.jumpSize)
    ensures ExtendedJumpOffset(cfg, Hooks.SYSCALL_HOOKS, Hooks.SYSCALL_HOOKS[j]).value
         >= ExtendedJumpOffset(cfg, Hooks.SYSCALL_HOOKS, Hooks.SYSCALL_HOOKS[i]).value + cfg.jumpSize
  {
    Hooks.CatalogueIsPrefixFree();
    OffsetsInPrefixFree(cfg, Hooks.SYSCALL_HOOKS, i, j);
  }

  datatype JumpOutcome = JumpOutcome(result: Result<u64, PatchError>, pages: seq<StubPage>)

  /** `extended_jump_from_to`: the address of the hook's stub in the chosen
      page, with the page list as it stands afterwards, which keeps any
      page recorded before a failure. */
  function ExtendedJumpFromTo(cfg: StubConfig, pages: seq<StubPage>, hook: Hook, rip: u64,
                              allocation: Allocation): (r: JumpOutcome)
    ensures r.pages == ChooseStubPage(cfg, pages, rip, allocation).pages
    ensures ChooseStubPage(cfg, pages, rip, allocation).page.Err? ==>
      r.result == Err(ChooseStubPage(cfg, pages, rip, allocation).page.error)
    ensures r.result.Ok? ==> hook in Hooks.SYSCALL_HOOKS
    ensures r.result.Ok? ==> ChooseStubPage(cfg, pages, rip, allocation).page.Ok?
    ensures r.result.Ok? ==>
      var c := ChooseStubPage(cfg, pages, rip, allocation).page.value;
      Sub64(r.result.value, c.address) == Wrap64(ExtendedJumpOffset(cfg, Hooks.SYSCALL_HOOKS, hook).value)
    ensures ChooseStubPage(cfg, pages, rip, allocation).page.Ok? && hook in Hooks.SYSCALL_HOOKS ==>
      r.result == Ok(Add64(ChooseStubPage(cfg, pages, rip, allocation).page.value.address,
                           Wrap64(ExtendedJumpOffset(cfg, Hooks.SYSCALL_HOOKS, hook).value)))
    ensures ChooseStubPage(cfg, pages, rip, allocation).page.Ok? && hook !in Hooks.SYSCALL_HOOKS ==>
      r.result == Err(HookNotFound)
    ensures hook !in Hooks.SYSCALL_HOOKS ==> r.result.Err?
  {
    var c := ChooseStubPage(cfg, pages, rip, allocation);
    match c.page
    case Err(e) => JumpOutcome(Err(e), c.pages)
    case Ok(page) =>
      match ExtendedJumpOffset(cfg, Hooks.SYSCALL_HOOKS, hook)
      case Err(e) => JumpOutcome(Err(e), c.pages)
      case Ok(offset) => JumpOutcome(Ok(Add64(page.address, Wrap64(offset))), c.pages)
  }

  // ---------------------------------------------------------------------
  // Patching a site

  datatype PatchError =
    | InVfork
    | TrampolineNotLoaded
    | NotPatchable
    | WriteLockBusy
    | SkipFailed
    | StubAllocationFailed
    | HookNotFound

  /** How `skip_seccomp_syscall` ended: it succeeded; it failed before the
      task was marked stopped (setting the registers or stepping); or it
      marked the task `Stopped(SIGTRAP)` and then failed restoring the
      registers. */
  datatype SkipOutcome = Skipped | FailedBeforeStop | FailedAfterStop

  /** What the tracee and the lock set answer during one patch attempt:
      whether the write lock was taken, how skipping the pending syscall
      ended, and what allocating a stub page would do. */
  datatype PatchEnv = PatchEnv(writeLockTaken: bool, skip: SkipOutcome, allocation: Allocation)

  datatype PatchOutcome = PatchOutcome(result: Result<u64, PatchError>, task: Task)

  /** The four guards of `patch_syscall_with`. */
  predicate MayPatch(t: Task, rip: u64, writeLockTaken: bool)
  {
    !t.inVfork && t.ldpreloadAddress.Some? && rip !in t.unpatchableSyscalls && writeLockTaken
  }

  /** `patch_syscall_with`: on success the result is the stub address the
      site now jumps to. Patching an already patched site is a
      programming error (`unreachable!`) once the first two guards pass.
      A failure may still leave the task changed: marked stopped by the
      skip, or with a stub page recorded by the allocation. */
  function PatchSyscallWith(t: Task, cfg: StubConfig, hook: Hook, rip: u64, env: PatchEnv): (r: PatchOutcome)
    requires !t.inVfork && t.ldpreloadAddress.Some? ==> !IsPatchedSyscall(t, rip)
    ensures !MayPatch(t, rip, env.writeLockTaken) ==> r.result.Err? && r.task == t
    ensures t.inVfork ==> r.result == Err(InVfork)
    ensures !t.inVfork && t.ldpreloadAddress.None? ==> r.result == Err(TrampolineNotLoaded)
    ensures !t.inVfork && t.ldpreloadAddress.Some? && rip in t.unpatchableSyscalls ==>
      r.result == Err(NotPatchable)
    ensures !t.inVfork && t.ldpreloadAddress.Some? && rip !in t.unpatchableSyscalls && !env.writeLockTaken ==>
      r.result == Err(WriteLockBusy)
    ensures MayPatch(t, rip, env.writeLockTaken) && env.skip.FailedBeforeStop? ==>
      r.result == Err(SkipFailed) && r.task == t
    ensures MayPatch(t, rip, env.writeLockTaken) && env.skip.FailedAfterStop? ==>
      r.result == Err(SkipFailed) && r.task == t.(state := Stopped(SIGTRAP))
    ensures MayPatch(t, rip, env.writeLockTaken) && env.skip.Skipped? ==>
      r.task.state == Stopped(SIGTRAP)
      && r.task.stubPages == ChooseStubPage(cfg, t.stubPages, rip, env.allocation).pages
    ensures r.result.Err? ==> r.task.patchedSyscalls == t.patchedSyscalls
    ensures r.result.Ok? ==> MayPatch(t, rip, env.writeLockTaken) && env.skip.Skipped?
    ensures r.result.Ok? ==> r.task.patchedSyscalls == t.patchedSyscalls + [rip]
    ensures r.result.Ok? ==> r.result == ExtendedJumpFromTo(cfg, t.stubPages, hook, rip, env.allocation).result
    ensures MayPatch(t, rip, env.writeLockTaken) && env.skip.Skipped? ==>
      r.result == ExtendedJumpFromTo(cfg, t.stubPages, hook, rip, env.allocation).result
    ensures r.task.unpatchableSyscalls == t.unpatchableSyscalls
  {
    if t.inVfork then PatchOutcome(Err(InVfork), t)
    else if t.ldpreloadAddress.None? then PatchOutcome(Err(TrampolineNotLoaded), t)
    else if rip in t.unpatchableSyscalls then PatchOutcome(Err(NotPatchable), t)
    else if !env.writeLockTaken then PatchOutcome(Err(WriteLockBusy), t)
    else if env.skip.FailedBeforeStop? then PatchOutcome(Err(SkipFailed), t)
    else if env.skip.FailedAfterStop? then PatchOutcome(Err(SkipFailed), t.(state := Stopped(SIGTRAP)))
    else
      var jump := ExtendedJumpFromTo(cfg, t.stubPages, hook, rip, env.allocation);
      var t' := t.(state := Stopped(SIGTRAP), stubPages := jump.pages);
      match jump.result
      case Err(e) => PatchOutcome(Err(e), t')
      case Ok(addr) => PatchOutcome(Ok(addr), t'.(patchedSyscalls := t.patchedSyscalls + [rip]))
  }

  /** A site is patched at most once: after a successful patch the site is
      recorded, and a second attempt would be the excluded case. */
  lemma PatchedSiteIsRecorded(t: Task, cfg: StubConfig, hook: Hook, rip: u64, env: PatchEnv)
    requires !t.inVfork && t.ldpreloadAddress.Some? && !IsPatchedSyscall(t, rip)
    requires PatchSyscallWith(t, cfg, hook, rip, env).result.Ok?
    ensures IsPatchedSyscall(PatchSyscallWith(t, cfg, hook, rip, env).task, rip)
    ensures forall pc :: IsPatchedSyscall(t, pc) ==> IsPatchedSyscall(PatchSyscallWith(t, cfg, hook, rip, env).task, pc)
  {
    var r := PatchSyscallWith(t, cfg, hook, rip, env);
    assert r.task.patchedSyscalls == t.patchedSyscalls + [rip];
    assert r.task.patchedSyscalls[|t.patchedSyscalls|] == rip;
  }

  /** The converse: when every guard and the skip pass, a page is at hand
      and the hook is in the catalogue, the patch succeeds and the site is
      recorded. */
  lemma PatchSucceedsWhenEverythingPasses(t: Task, cfg: StubConfig, hook: Hook, rip: u64, env: PatchEnv)
    requires !IsPatchedSyscall(t, rip)
    requires MayPatch(t, rip, env.writeLockTaken) && env.skip.Skipped?
    requires FindStubPage(cfg, t.stubPages, rip).Some? || env.allocation.Allocated?
    requires hook in Hooks.SYSCALL_HOOKS
    ensures PatchSyscallWith(t, cfg, hook, rip, env).result.Ok?
    ensures IsPatchedSyscall(PatchSyscallWith(t, cfg, hook, rip, env).task, rip)
  {
    var r := PatchSyscallWith(t, cfg, hook, rip, env);
    assert r.task.patchedSyscalls[|t.patchedSyscalls|] == rip;
  }

  /** Right after `exec` nothing can be patched until the trampoline
      library is found again. */
  lemma NoPatchingAfterExec(t: Task, cfg: StubConfig, hook: Hook, rip: u64, env: PatchEnv)
    ensures PatchSyscallWith(TaskExecReset(t), cfg, hook, rip, env).result == Err(TrampolineNotLoaded)
  {
  }

  // ---------------------------------------------------------------------
  // Short reads and writes through one word

  /** `m` zero bytes followed by 0xff bytes up to length `len`. */
  function ZerosThenOnes(m: nat, len: nat): (s: seq<byte>)
  {
    seq(len, j => if j < m then 0 else 0xff)
  }

  lemma {:induction false} ZerosThenOnesValue(m: nat, len: nat)
    requires m <= len
    ensures LeValue(ZerosThenOnes(m, len)) == Pow256(len) - Pow256(m)
    decreases len
  {
    if len > 0 {
      var s := ZerosThenOnes(m, len);
      if m > 0 {
        assert s[1..] == ZerosThenOnes(m - 1, len - 1);
        ZerosThenOnesValue(m - 1, len - 1);
      } else {
        assert s[1..] == ZerosThenOnes(0, len - 1);
        ZerosThenOnesValue(0, len - 1);
      }
    }
  }

  /** A word whose low `n` bytes are zero and whose others are 0xff. */
  function KeepHigh(n: nat): (w: Word)
    requires n <= 8
    ensures forall j :: 0 <= j < n ==> w[j] == 0
    ensures forall j :: n <= j < 8 ==> w[j] == 0xff
  {
    ZerosThenOnes(n, 8)
  }

  /** The `masks` table of `poke_bytes`: entry `n - 1` clears the low `n`
      bytes. */
  const POKE_MASKS: seq<u64> := [
    0xffffffff_ffffff00, 0xffffffff_ffff0000, 0xffffffff_ff000000, 0xffffffff_00000000,
    0xffffff00_00000000, 0xffff0000_00000000, 0xff000000_00000000, 0x00000000_00000000
  ]

  lemma PokeMasksArePowers(n: nat)
    requires 1 <= n <= 8
    ensures POKE_MASKS[n - 1] == TWO_64 - Pow256(n)
    ensures Pow256(8) == TWO_64
  {
    Pow256Table();
  }

  lemma Pow256Table()
    ensures Pow256(1) == 0x100 && Pow256(2) == 0x1_0000 && Pow256(3) == 0x100_0000
    ensures Pow256(4) == 0x1_0000_0000 && Pow256(5) == 0x100_0000_0000
    ensures Pow256(6) == 0x1_0000_0000_0000 && Pow256(7) == 0x100_0000_0000_0000
    ensures Pow256(8) == TWO_64
  {
    assert Pow256(1) == 0x100;
    assert Pow256(2) == 0x1_0000;
    assert Pow256(3) == 0x100_0000;
    assert Pow256(4) == 0x1_0000_0000;
    assert Pow256(5) == 0x100_0000_0000;
    assert Pow256(6) == 0x1_0000_0000_0000;
    assert Pow256(7) == 0x100_0000_0000_0000;
    assert Pow256(8) == TWO_64;
  }

  /** Each mask of the table, in memory order, is the word `KeepHigh(n)`. */
  lemma PokeMaskBytes(n: nat)
    requires 1 <= n <= 8
    ensures WordOf(POKE_MASKS[n - 1]) == KeepHigh(n)
  {
    PokeMasksArePowers(n);
    ZerosThenOnesValue(n, 8);
    WordRoundTrip(POKE_MASKS[n - 1], KeepHigh(n));
  }

  /** Masking with `KeepHigh(n)` clears exactly the low `n` bytes. */
  lemma AndKeepHigh(v: Word, n: nat)
    requires n <= 8
    ensures forall j :: 0 <= j < 8 ==> AndWord(v, KeepHigh(n))[j] == if j < n then 0 else v[j]
  {
    forall j | 0 <= j < 8
      ensures AndWord(v, KeepHigh(n))[j] == if j < n then 0 else v[j]
    {
      ByteMaskFacts(v[j]);
    }
  }

  /** OR-ing a byte shifted into a zero position stores it there. */
  lemma OrShifted(v: Word, b: byte, k: nat)
    requires k < 8 && v[k] == 0
    ensures OrWord(v, ShiftedByte(b, k)) == v[k := b]
  {
    var r := OrWord(v, ShiftedByte(b, k));
    forall j | 0 <= j < 8
      ensures r[j] == v[k := b][j]
    {
      ByteMaskFacts(v[j]);
      ByteMaskFacts(b);
    }
  }

  /** The word holding `bytes` at its low end and `prev` above them. */
  function Spliced(prev: Word, bytes: seq<byte>): (w: Word)
    requires |bytes| <= 8
  {
    bytes + prev[|bytes|..]
  }

  /** The short path of `poke_bytes`: the word written for up to 8 bytes,
      given the word `prev` currently at the address. Fewer than eight
      bytes keep its upper bytes; eight bytes ignore it. An empty slice
      indexes `masks[size - 1]` out of range and panics, which is `None`. */
  method PokeWord(prev: Word, bytes: seq<byte>) returns (w: Option<Word>)
    requires |bytes| <= 8
    ensures w.None? <==> |bytes| == 0
    ensures w.Some? ==> forall k :: 0 <= k < |bytes| ==> w.value[k] == bytes[k]
    ensures w.Some? ==> forall k :: |bytes| <= k < 8 ==> w.value[k] == prev[k]
  {
    var n := |bytes|;
    if n == 0 {
      return None;
    }
    var v: Word := if n < 8 then prev else WordOf(0);
    PokeMaskBytes(n);
    AndKeepHigh(v, n);
    v := AndWord(v, WordOf(POKE_MASKS[n - 1]));
    var k := 0;
    while k < n
      invariant 0 <= k <= n
      invariant forall j :: 0 <= j < k ==> v[j] == bytes[j]
      invariant forall j :: k <= j < n ==> v[j] == 0
      invariant forall j :: n <= j < 8 ==> v[j] == prev[j]
    {
      OrShifted(v, bytes[k], k);
      v := OrWord(v, ShiftedByte(bytes[k], k));
      k := k + 1;
    }
    w := Some(v);
  }

  /** The poke's result is the splice. */
  lemma PokeWordIsSplice(prev: Word, bytes: seq<byte>, w: Word)
    requires 1 <= |bytes| <= 8
    requires forall k :: 0 <= k < |bytes| ==> w[k] == bytes[k]
    requires forall k :: |bytes| <= k < 8 ==> w[k] == prev[k]
    ensures w == Spliced(prev, bytes)
  {
  }

  /** The short path of `peek_bytes`: the first `size` bytes of the memory
      image of the word `ptrace::read` returned, which are its low `size`
      bytes. */
  function PeekBytes(w: Word, size: nat): (r: seq<byte>)
    requires size <= 8
    ensures |r| == size
    ensures LeValue(r) == WordValue(w) % Pow256(size)
  {
    LeValuePrefix(w, size);
    w[..size]
  }

  /** Reading back what was just poked returns the bytes poked, and a full
      eight-byte poke does not depend on the old word. */
  lemma PeekAfterPoke(prev: Word, other: Word, bytes: seq<byte>)
    requires 1 <= |bytes| <= 8
    ensures PeekBytes(Spliced(prev, bytes), |bytes|) == bytes
    ensures |bytes| == 8 ==> Spliced(prev, bytes) == Spliced(other, bytes)
  {
  }

  /** `int3; syscall; int3` as one 32-bit immediate. */
  const BP_SYSCALL_BP: i64 := 0xcc050fcc
  const INT3: byte := 0xcc
  const BP_SYSCALL_BP_BYTES: seq<byte> := [INT3] + SYSCALL_INSN + [INT3]

  /** The word `do_ptrace_exec` writes at the stopped instruction:
      `(saved & !0xffffffff) | 0xcc050fcc` on the word's byte view. */
  function ExecSplice(saved: Word): (w: Word)
    ensures w[..4] == BP_SYSCALL_BP_BYTES && w[4..] == saved[4..]
  {
    PokeMaskBytes(4);
    BpWord();
    MaskOrSplice(saved, WordOf(BP_SYSCALL_BP), 4);
    assert WordOf(BP_SYSCALL_BP)[..4] == BP_SYSCALL_BP_BYTES;
    OrWord(AndWord(saved, WordOf(POKE_MASKS[3])), WordOf(BP_SYSCALL_BP))
  }

  lemma BpWord()
    ensures WordOf(BP_SYSCALL_BP) == BP_SYSCALL_BP_BYTES + [0, 0, 0, 0]
  {
    assert LeBytes(0, 4) == [0, 0, 0, 0];
    assert LeBytes(0xcc, 5) == [0xcc] + LeBytes(0, 4);
    assert LeBytes(0xcc05, 6) == [0x05] + LeBytes(0xcc, 5);
    assert LeBytes(0xcc050f, 7) == [0x0f] + LeBytes(0xcc05, 6);
    assert LeBytes(0xcc050fcc, 8) == [0xcc] + LeBytes(0xcc050f, 7);
  }

  /** Clearing the low `n` bytes and OR-ing in a word that is zero above
      them splices its low bytes into the word. */
  lemma MaskOrSplice(saved: Word, low: Word, n: nat)
    requires n <= 8
    requires forall j :: n <= j < 8 ==> low[j] == 0
    ensures OrWord(AndWord(saved, KeepHigh(n)), low) == Spliced(saved, low[..n])
  {
    AndKeepHigh(saved, n);
    var w := OrWord(AndWord(saved, KeepHigh(n)), low);
    forall j | 0 <= j < 8
      ensures w[j] == Spliced(saved, low[..n])[j]
    {
      ByteMaskFacts(saved[j]);
      ByteMaskFacts(low[j]);
    }
  }

  /** The splice puts a breakpoint, a `syscall` and a breakpoint in the low
      four bytes and keeps the upper four: it is the four-byte poke of
      those instructions. */
  lemma ExecSpliceBytes(saved: Word)
    ensures ExecSplice(saved) == Spliced(saved, BP_SYSCALL_BP_BYTES)
    ensures ExecSplice(saved)[0] == INT3 && ExecSplice(saved)[1..3] == SYSCALL_INSN && ExecSplice(saved)[3] == INT3
    ensures ExecSplice(saved)[4..] == saved[4..]
  {
    PokeMaskBytes(4);
    BpWord();
    var low := WordOf(BP_SYSCALL_BP);
    MaskOrSplice(saved, low, 4);
    assert low[..4] == BP_SYSCALL_BP_BYTES;
  }

  // ---------------------------------------------------------------------
  // Results of injected syscalls

  /** `(-4096i64) as u64`. */
  const RAW_ERROR_FLOOR: u64 := 0xffff_ffff_ffff_f000

  /** The result test of `remote_do_syscall_at` (and of `tracee_preinit`):
      a raw `rax` strictly above `-4096 as u64` is the error `-rax`,
      anything else is the signed value. */
  function DecodeRemoteResult(rax: u64): (r: Result<i64, i32>)
    ensures r.Err? <==> -4096 < ToSigned(rax) < 0
    ensures r.Err? ==> r.error == -ToSigned(rax) && 1 <= r.error <= 4095
    ensures r.Ok? ==> r.value == ToSigned(rax) && ToUnsigned(r.value) == rax
  {
    if rax > RAW_ERROR_FLOOR then Err(TruncI32(-ToSigned(rax))) else Ok(ToSigned(rax))
  }

  /** Errors 1..4095 come back from their negation; every other value comes
      back as itself. */
  lemma DecodeRemoteRoundTrip(e: int, v: i64)
    requires 1 <= e <= 4095
    requires !(-4096 < v < 0)
    ensures DecodeRemoteResult(ToUnsigned(-e)) == Err(e)
    ensures DecodeRemoteResult(ToUnsigned(v)) == Ok(v)
  {
  }

  const ERESTARTSYS: i32 := 512
  const ERESTARTNOINTR: i32 := 513
  const ERESTARTNOHAND: i32 := 514
  const ERESTART_RESTARTBLOCK: i32 := 516

  /** `should_restart_syscall`: the syscall is re-issued for the three
      restart codes the kernel leaves to the tracer;
      `-ERESTART_RESTARTBLOCK` is restarted by `restart_syscall` instead. */
  function ShouldRestartSyscall(rax: u64): (r: bool)
    ensures r <==> ToSigned(rax) in {-512, -513, -514}
  {
    var v := ToSigned(rax);
    if v == -ERESTARTSYS then true
    else if v == -ERESTARTNOINTR then true
    else if v == -ERESTARTNOHAND then true
    else if v == -ERESTART_RESTARTBLOCK then false
    else false
  }

  /** Every restarted value is one the result decoder reports as an error,
      with one of the three restart codes. */
  lemma RestartCodesAreErrors(rax: u64)
    requires ShouldRestartSyscall(rax)
    ensures DecodeRemoteResult(rax).Err?
    ensures DecodeRemoteResult(rax).error in {ERESTARTSYS, ERESTARTNOINTR, ERESTARTNOHAND}
    ensures !ShouldRestartSyscall(ToUnsigned(-(ERESTART_RESTARTBLOCK as int)))
  {
  }

  // ---------------------------------------------------------------------
  // Tool log level

  /** `systool_set_log_level`: the level stored in the tracee for the value
      of the tool's log-level variable; nothing is stored when the variable
      is unset or names no level. */
  function SystoolLogLevel(env: Option<string>): (r: Option<i64>)
    ensures r.Some? ==> 1 <= r.value <= 5
    ensures r.Some? <==> env.Some? && env.value in {"error", "warn", "info", "debug", "trace"}
  {
    match env
    case None => None
    case Some(s) =>
      var x := if s == "error" then 1
               else if s == "warn" then 2
               else if s == "info" then 3
               else if s == "debug" then 4
               else if s == "trace" then 5
               else 0;
      if 1 <= x <= 5 then Some(x) else None
  }
}
