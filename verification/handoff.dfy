/** Facts that tie the pieces together: addresses the tracer, the BPF
    filter, the preload library and the tool logger must agree on, and the
    two result decoders that the tracer and the tool library each use. */
module Handoff {
  import opened Wrappers
  import opened Bytes
  import SyscallBuf
  import Bpf
  import Tracer
  import SyscallHelper
  import Logger

  /** The filter's vetted address is the return address of the untraced
      syscall instruction in the preload page: the tracer's "rip before the
      syscall" of the vetted address is that instruction. */
  lemma VettedIpFollowsUntracedSyscall()
    ensures Bpf.VETTED_IP == SyscallBuf.SYSCALL_UNTRACED + Tracer.SYSCALL_INSN_SIZE
    ensures Tracer.SyscallSite(Bpf.VETTED_IP as u64) == SyscallBuf.SYSCALL_UNTRACED
  {
    assert Tracer.SYSCALL_INSN_SIZE == 2;
  }

  /** The tracer's injection addresses lie in the preload page, and the
      logger's level slot in the thread-locals page the tracer writes. */
  lemma AddressesInReservedPages()
    ensures SyscallBuf.InPage(Tracer.EXEC_INJECTED_PAGE, SyscallBuf.PRELOAD_PAGE_ADDR)
    ensures SyscallBuf.InPage(Tracer.UNTRACED_INJECT_ADDR, SyscallBuf.PRELOAD_PAGE_ADDR)
    ensures SyscallBuf.InPage(Tracer.TRACED_INJECT_ADDR, SyscallBuf.PRELOAD_PAGE_ADDR)
    ensures SyscallBuf.InPage(Logger.LOG_LEVEL_SLOT, SyscallBuf.PRELOAD_THREAD_LOCALS_ADDR)
    ensures !SyscallBuf.InPage(Logger.LOG_LEVEL_SLOT, SyscallBuf.PRELOAD_PAGE_ADDR)
  {
  }

  /** The tool library's `syscall_ret` and the tracer's decoding of a
      remote syscall's `rax` classify every raw value the same way, except
      -4096: `syscall_ret` takes it for errno 4096, the tracer for a value. */
  lemma DecodersAgreeExceptAtMinus4096(ret: i64)
    ensures ret != -4096 ==>
      (SyscallHelper.SyscallRet(ret).Err? <==> Tracer.DecodeRemoteResult(ToUnsigned(ret)).Err?)
    ensures ret != -4096 && SyscallHelper.SyscallRet(ret).Err? ==>
      SyscallHelper.SyscallRet(ret).error == Tracer.DecodeRemoteResult(ToUnsigned(ret)).error as int
    ensures ret == -4096 ==>
      SyscallHelper.SyscallRet(ret) == Err(4096) && Tracer.DecodeRemoteResult(ToUnsigned(ret)) == Ok(-4096)
  {
    assert ToSigned(ToUnsigned(ret)) == ret;
  }

  /** The name in the tool-log environment variable reaches the logger: the
      number the tracer stores is one `init` maps back to a level, printed
      as the upper-case form of that name, and `log_enabled` admits exactly
      the levels at least as severe. */
  lemma ToolLogLevelReachesLogger(env: Option<string>, l: Logger.Level)
    requires Tracer.SystoolLogLevel(env).Some?
    ensures var stored := Tracer.SystoolLogLevel(env).value;
      && Logger.InitLevel(stored).Some?
      && (Logger.LogEnabled(stored, l) <==> Logger.LevelValue(l) <= stored)
    ensures var level := Logger.InitLevel(Tracer.SystoolLogLevel(env).value).value;
      Logger.LogLevelStr(level) == UpperCase(env.value)
  {
    var stored := Tracer.SystoolLogLevel(env).value;
    Logger.EnabledUpToConfiguredLevel(stored, l);
    UpperCaseLevelNames();
    var name := env.value;
    if name == "error" {
      assert stored == 1;
    } else if name == "warn" {
      assert stored == 2;
    } else if name == "info" {
      assert stored == 3;
    } else if name == "debug" {
      assert stored == 4;
    } else {
      assert stored == 5;
    }
  }

  lemma UpperCaseLevelNames()
    ensures UpperCase("error") == "ERROR" && UpperCase("warn") == "WARN"
    ensures UpperCase("info") == "INFO" && UpperCase("debug") == "DEBUG"
    ensures UpperCase("trace") == "TRACE"
  {
    assert UpperCase("error") == "ERROR";
    assert UpperCase("warn") == "WARN";
    assert UpperCase("info") == "INFO";
    assert UpperCase("debug") == "DEBUG";
    assert UpperCase("trace") == "TRACE";
  }

  /** ASCII upper case. */
  function UpperChar(c: char): (u: char)
    ensures 'a' <= c <= 'z' ==> u as int == c as int - 32
    ensures !('a' <= c <= 'z') ==> u == c
  {
    if 'a' <= c <= 'z' then (c as int - 32) as char else c
  }

  function UpperCase(s: string): (u: string)
    ensures |u| == |s| && forall i :: 0 <= i < |s| ==> u[i] == UpperChar(s[i])
  {
    seq(|s|, i requires 0 <= i < |s| => UpperChar(s[i]))
  }
}
