/** The seccomp classification filter of src/bpf.c.

    `bpf_install` builds a classic-BPF program that loads the syscall number,
    allows five syscalls outright, then loads the instruction pointer,
    allows any syscall issued from the vetted entry point, and otherwise
    returns TRACE so that the tracer is notified. The program is modelled as
    a list of BPF instructions (load, compare-and-jump, return) together with
    the interpreter the kernel runs over it; the helper macros are spelled out
    as the instruction pairs they stand for. */
module Bpf {
  import opened Wrappers

  // x86-64 syscall numbers of the unconditional-allow set.
  const NR_RT_SIGRETURN: int := 15
  const NR_CLONE: int := 56
  const NR_FORK: int := 57
  const NR_VFORK: int := 58
  const NR_CLOCK_NANOSLEEP: int := 230

  /** The seccomp return actions a filter can produce. */
  datatype Action = Kill | Trap | Errno(errno: nat) | Trace | Allow

  /** What the kernel hands the filter for one syscall attempt. */
  datatype SeccompData = SeccompData(nr: int, instructionPointer: int)

  datatype Field = SyscallNr | InstructionPointer

  /** Classic BPF, restricted to the forms this filter uses: load a field into
      the accumulator, compare the accumulator with a constant and skip `jt`
      or `jf` instructions, or return an action. */
  datatype Insn = Ld(field: Field) | Jeq(k: int, jt: nat, jf: nat) | Ret(action: Action)

  const LOAD_SYSCALL_NR: Insn := Ld(SyscallNr)
  const LOAD_SYSCALL_IP: Insn := Ld(InstructionPointer)
  const ALLOW: Insn := Ret(Allow)
  const TRACE: Insn := Ret(Trace)

  /** `SYSCALL(nr, jt)`: if the accumulator is `nr` run `jt`, else skip it. */
  function SyscallRule(nr: int, jt: Insn): seq<Insn>
  {
    [Jeq(nr, 0, 1), jt]
  }

  /** `IP(addr, jt)`: the same test against the loaded instruction pointer. */
  function IpRule(addr: int, jt: Insn): seq<Insn>
  {
    [Jeq(addr, 0, 1), jt]
  }

  function AllowRules(nrs: seq<int>): (p: seq<Insn>)
    ensures |p| == 2 * |nrs|
  {
    if |nrs| == 0 then [] else SyscallRule(nrs[0], ALLOW) + AllowRules(nrs[1..])
  }

  /** The filter array of `bpf_install`, for a given allow-list and vetted
      instruction pointer. */
  function CompileFilter(allowed: seq<int>, vettedIp: int): seq<Insn>
  {
    [LOAD_SYSCALL_NR] + AllowRules(allowed) + [LOAD_SYSCALL_IP] + IpRule(vettedIp, ALLOW) + [TRACE]
  }

  const ALLOW_LIST: seq<int> := [NR_CLONE, NR_FORK, NR_VFORK, NR_RT_SIGRETURN, NR_CLOCK_NANOSLEEP]

  /** The one instruction pointer the filter trusts: just after the `syscall`
      instruction of the untraced entry point in the preload page. */
  const VETTED_IP: int := 0x7000_0002

  const FILTER: seq<Insn> := CompileFilter(ALLOW_LIST, VETTED_IP)

  /** The low 32 bits of a 64-bit field: what a classic-BPF word load
      (`BPF_LD | BPF_W | BPF_ABS`) of its first four bytes gives on a
      little-endian machine. */
  function Low32(x: int): (r: int)
    ensures 0 <= r < 0x1_0000_0000
    ensures 0 <= x < 0x1_0000_0000 ==> r == x
    ensures (x - r) % 0x1_0000_0000 == 0
  {
    x % 0x1_0000_0000
  }

  /** A load puts a 32-bit word in the accumulator. `LOAD_SYSCALL_IP` is one
      load, so only the low half of the 64-bit instruction pointer is
      seen. */
  function Load(f: Field, d: SeccompData): int
  {
    match f
    case SyscallNr => d.nr
    case InstructionPointer => Low32(d.instructionPointer)
  }

  /** The kernel's interpreter: run `prog` from its first instruction with
      accumulator `acc`. `None` means control left the program without a
      return, which the kernel never lets a loaded program do. */
  function Run(prog: seq<Insn>, acc: int, d: SeccompData): Option<Action>
    decreases |prog|
  {
    if |prog| == 0 then None
    else match prog[0]
      case Ld(f) => Run(prog[1..], Load(f, d), d)
      case Jeq(k, jt, jf) =>
        var skip := if acc == k then jt else jf;
        if 1 + skip <= |prog| then Run(prog[1 + skip..], acc, d) else None
      case Ret(a) => Some(a)
  }

  /** The classification the filter makes, stated without any program:
      the address test sees the low 32 bits of the instruction pointer. */
  function Policy(allowed: seq<int>, vettedIp: int, d: SeccompData): Action
  {
    if d.nr in allowed then Allow
    else if Low32(d.instructionPointer) == vettedIp then Allow
    else Trace
  }

  /** Running the allow rules either allows (the number is listed) or falls
      through to whatever follows them. */
  lemma {:induction false} AllowRulesRun(nrs: seq<int>, rest: seq<Insn>, d: SeccompData)
    ensures Run(AllowRules(nrs) + rest, d.nr, d)
         == if d.nr in nrs then Some(Allow) else Run(rest, d.nr, d)
  {
    if |nrs| > 0 {
      var p := AllowRules(nrs) + rest;
      var tail := AllowRules(nrs[1..]) + rest;
      assert p == [Jeq(nrs[0], 0, 1), ALLOW] + tail;
      assert p[1..] == [ALLOW] + tail;
      assert p[2..] == tail;
      AllowRulesRun(nrs[1..], rest, d);
      assert d.nr in nrs <==> d.nr == nrs[0] || d.nr in nrs[1..] by {
        assert nrs == [nrs[0]] + nrs[1..];
      }
    } else {
      assert AllowRules(nrs) + rest == rest;
    }
  }

  /** Whatever the allow-list and vetted address, the compiled program returns
      exactly the policy's verdict, from any starting accumulator. */
  lemma CompiledFilterImplementsPolicy(allowed: seq<int>, vettedIp: int, acc: int, d: SeccompData)
    ensures Run(CompileFilter(allowed, vettedIp), acc, d) == Some(Policy(allowed, vettedIp, d))
  {
    var tail := [LOAD_SYSCALL_IP] + IpRule(vettedIp, ALLOW) + [TRACE];
    var prog := CompileFilter(allowed, vettedIp);
    assert prog == [LOAD_SYSCALL_NR] + (AllowRules(allowed) + tail);
    assert prog[1..] == AllowRules(allowed) + tail;
    AllowRulesRun(allowed, tail, d);
    var t := tail[1..];
    assert t == [Jeq(vettedIp, 0, 1), ALLOW, TRACE];
    assert t[1..] == [ALLOW, TRACE];
    assert t[2..] == [TRACE];
    assert tail[1..] == t;
    assert Run(prog, acc, d) == Run(prog[1..], d.nr, d);
    assert Run(tail, d.nr, d) == Run(t, Low32(d.instructionPointer), d);
    assert Run(t, Low32(d.instructionPointer), d)
        == if Low32(d.instructionPointer) == vettedIp then Some(Allow) else Some(Trace);
  }

  /** The verdict the installed filter gives a syscall `nr` issued from
      instruction pointer `ip`. It is total and is always ALLOW or TRACE:
      ALLOW exactly for the five listed syscalls and for anything issued
      from an address whose low 32 bits are the vetted address. */
  function Verdict(nr: int, ip: int): (r: Action)
    ensures r == Allow || r == Trace
    ensures r == Allow <==> (nr in ALLOW_LIST || ip % 0x1_0000_0000 == VETTED_IP)
    ensures Run(FILTER, 0, SeccompData(nr, ip)) == Some(r)
  {
    CompiledFilterImplementsPolicy(ALLOW_LIST, VETTED_IP, 0, SeccompData(nr, ip));
    Policy(ALLOW_LIST, VETTED_IP, SeccompData(nr, ip))
  }

  /** clone, fork, vfork, rt_sigreturn and clock_nanosleep pass whatever the
      instruction pointer. */
  lemma AllowListedSyscallsPass(ip: int)
    ensures Verdict(NR_CLONE, ip) == Allow
    ensures Verdict(NR_FORK, ip) == Allow
    ensures Verdict(NR_VFORK, ip) == Allow
    ensures Verdict(NR_RT_SIGRETURN, ip) == Allow
    ensures Verdict(NR_CLOCK_NANOSLEEP, ip) == Allow
  {
  }

  /** The allow checks run first, yet no syscall from the vetted address is
      ever trapped: the ordering cannot hide the vetted entry point. */
  lemma VettedIpAlwaysPasses(nr: int)
    ensures Verdict(nr, VETTED_IP) == Allow
  {
  }

  /** Only the low half of the address is tested: a syscall issued from any
      address 4 GiB multiples above the vetted one passes too. */
  lemma AliasedIpPasses(nr: int, high: nat)
    ensures Verdict(nr, high * 0x1_0000_0000 + VETTED_IP) == Allow
    ensures Verdict(257, 0x1_7000_0002) == Allow && Verdict(257, 0x7f00_7000_0002) == Allow
  {
    assert (high * 0x1_0000_0000 + VETTED_IP) % 0x1_0000_0000 == VETTED_IP;
  }

  /** Everything else stops for the tracer; no path kills the task or fails
      the syscall with an errno. */
  lemma EverythingElseTraces(nr: int, ip: int)
    requires nr !in ALLOW_LIST && ip % 0x1_0000_0000 != VETTED_IP
    ensures Verdict(nr, ip) == Trace
    ensures Verdict(nr, ip) != Kill && !Verdict(nr, ip).Errno?
  {
  }

  /** The concrete scenario: clock_nanosleep passes from anywhere, openat
      passes from the vetted address and traps from ordinary code. */
  lemma OpenatScenario()
    ensures Verdict(NR_CLOCK_NANOSLEEP, 0x40_1000) == Allow
    ensures Verdict(257, VETTED_IP) == Allow
    ensures Verdict(257, 0x40_1000) == Trace
  {
  }

  /** `struct sock_fprog`: the length field is an `unsigned short`. */
  datatype SockFprog = SockFprog(len: nat, filter: seq<Insn>)

  function MakeProg(filter: seq<Insn>): (p: SockFprog)
    ensures p.filter == filter
    ensures p.len < 0x1_0000
    ensures |filter| < 0x1_0000 ==> p.len == |filter|
  {
    SockFprog(|filter| % 0x1_0000, filter)
  }

  /** The program handed to the kernel counts every instruction of the filter
      array: one load, two per allowed syscall, one load, two for the
      address test and the final return. */
  lemma ProgLenIsInstructionCount()
    ensures MakeProg(FILTER).len == |FILTER| == 15
  {
  }

  /** How `bpf_install` ends: the filter was installed, the process
      aborted, or it returned having installed nothing. */
  datatype InstallOutcome = Installed(prog: SockFprog) | Aborted | NothingInstalled

  /** `bpf_install`. The `prctl(PR_SET_SECCOMP, ...)` call is the argument
      of an `assert`, so it is made only when assertions are compiled in
      (`NDEBUG` not defined); its result is `prctlResult`. With assertions
      the function returns only when the kernel accepted the filter and
      aborts the process otherwise; without them it returns at once with
      no filter installed, whatever `prctlResult` says. */
  function BpfInstall(assertionsEnabled: bool, prctlResult: int): (r: InstallOutcome)
    ensures r.Installed? <==> assertionsEnabled && prctlResult == 0
    ensures r.Aborted? <==> assertionsEnabled && prctlResult != 0
    ensures !assertionsEnabled ==> r.NothingInstalled?
    ensures r.Installed? ==> r.prog.filter == FILTER && r.prog.len == |FILTER|
  {
    if !assertionsEnabled then NothingInstalled
    else if prctlResult == 0 then Installed(MakeProg(FILTER))
    else Aborted
  }
}
