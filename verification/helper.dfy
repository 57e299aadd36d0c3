/** Raw-syscall result decoding and the thin memory-management wrappers of
    syscalls/src/helper.rs.

    The kernel returns one register value; values in the top 4096 of the
    unsigned range are negated error numbers. The syscall itself
    (`untraced_syscall`) is outside the model: each wrapper is given the raw
    value the kernel returned and yields the call it makes together with
    the decoded result. */
module SyscallHelper {
  import opened Wrappers
  import opened Bytes

  // x86-64 syscall numbers used by the wrappers.
  const SYS_MMAP: i32 := 9
  const SYS_MPROTECT: i32 := 10
  const SYS_MUNMAP: i32 := 11
  const SYS_MREMAP: i32 := 25
  const SYS_MADVISE: i32 := 28

  /** `-4096i64 as u64`: raw values at or above it are errors. */
  const ERROR_FLOOR: u64 := 0xffff_ffff_ffff_f000

  /** `syscall_ret`: a raw value whose unsigned view is at least
      `-4096 as u64` is the error `-ret`; anything else is returned as is. */
  function SyscallRet(ret: i64): (r: Result<i64, i64>)
    ensures r.Err? <==> -4096 <= ret < 0
    ensures r.Err? ==> r.error == -ret && 1 <= r.error <= 4096
    ensures r.Ok? ==> r.value == ret
  {
    if ToUnsigned(ret) >= ERROR_FLOOR then Err(-ret) else Ok(ret)
  }

  /** Every errno 1..4096 comes back from its negation, and every other
      value comes back unchanged. */
  lemma SyscallRetRoundTrip(e: int, v: i64)
    requires 1 <= e <= 4096
    requires !(-4096 <= v < 0)
    ensures SyscallRet(-e) == Err(e)
    ensures SyscallRet(v) == Ok(v)
  {
  }

  /** A syscall as the kernel sees it: its number and six argument words. */
  datatype SyscallCall = SyscallCall(no: i32, args: seq<i64>)

  /** A wrapper's effect: the call it issues and what it returns. */
  datatype Invocation<T> = Invocation(call: SyscallCall, result: Result<T, i64>)

  /** `syscall`: issue the call, decode the raw value `ret` it returned.
      The number and the six words reach the kernel unchanged; a raw value
      in [-4096, 0) is the error it negates, any other is the result. */
  function Syscall(no: i32, a0: i64, a1: i64, a2: i64, a3: i64, a4: i64, a5: i64, ret: i64): (r: Invocation<i64>)
    ensures r.call.no == no && |r.call.args| == 6
    ensures r.call.args[0] == a0 && r.call.args[1] == a1 && r.call.args[2] == a2
    ensures r.call.args[3] == a3 && r.call.args[4] == a4 && r.call.args[5] == a5
    ensures r.result.Ok? <==> !(-4096 <= ret < 0)
    ensures r.result.Ok? ==> r.result.value == ret
    ensures r.result.Err? ==> r.result.error == -ret && 1 <= r.result.error <= 4096
  {
    Invocation(SyscallCall(no, [a0, a1, a2, a3, a4, a5]), SyscallRet(ret))
  }

  /** The kernel reads a pointer or `usize` argument back as the unsigned
      number the caller passed. */
  predicate CarriesU64(arg: i64, v: u64)
  {
    ToUnsigned(arg) == v
  }

  /** `__mmap`: the six arguments, in order, as the `SYS_mmap` arguments;
      the result is read back as an address. */
  function Mmap(addr: u64, length: u64, prot: i32, flags: i32, fd: i32, offset: i64, ret: i64): (r: Invocation<u64>)
    ensures r.call.no == SYS_MMAP && |r.call.args| == 6
    ensures CarriesU64(r.call.args[0], addr) && CarriesU64(r.call.args[1], length)
    ensures r.call.args[2] == prot && r.call.args[3] == flags && r.call.args[4] == fd && r.call.args[5] == offset
    ensures r.result.Ok? <==> !(-4096 <= ret < 0)
    ensures r.result.Ok? ==> ToSigned(r.result.value) == ret
    ensures r.result.Err? ==> r.result.error == -ret
  {
    var inv := Syscall(SYS_MMAP, ToSigned(addr), ToSigned(length), prot, flags, fd, offset, ret);
    Invocation(inv.call, inv.result.Map(x => ToUnsigned(x)))
  }

  /** `__munmap`: address and size, zeros for the unused arguments, the
      result truncated to `i32`. */
  function Munmap(ptr: u64, size: u64, ret: i64): (r: Invocation<i32>)
    ensures r.call.no == SYS_MUNMAP && |r.call.args| == 6
    ensures CarriesU64(r.call.args[0], ptr) && CarriesU64(r.call.args[1], size)
    ensures r.call.args[2..] == [0, 0, 0, 0]
    ensures r.result.Ok? <==> !(-4096 <= ret < 0)
    ensures r.result.Ok? ==> (r.result.value - ret) % TWO_32 == 0
    ensures r.result.Err? ==> r.result.error == -ret
  {
    var inv := Syscall(SYS_MUNMAP, ToSigned(ptr), ToSigned(size), 0, 0, 0, 0, ret);
    Invocation(inv.call, inv.result.Map(x => TruncI32(x)))
  }

  /** `__mremap`: old address, old size, new size and flags, zeros for the
      rest, the result truncated to `i32`. */
  function Mremap(oldAddr: u64, oldSize: u64, newSize: u64, flags: i32, ret: i64): (r: Invocation<i32>)
    ensures r.call.no == SYS_MREMAP && |r.call.args| == 6
    ensures CarriesU64(r.call.args[0], oldAddr) && CarriesU64(r.call.args[1], oldSize)
    ensures CarriesU64(r.call.args[2], newSize) && r.call.args[3] == flags
    ensures r.call.args[4..] == [0, 0]
    ensures r.result.Ok? <==> !(-4096 <= ret < 0)
    ensures r.result.Ok? ==> (r.result.value - ret) % TWO_32 == 0
    ensures r.result.Err? ==> r.result.error == -ret
  {
    var inv := Syscall(SYS_MREMAP, ToSigned(oldAddr), ToSigned(oldSize), ToSigned(newSize), flags, 0, 0, ret);
    Invocation(inv.call, inv.result.Map(x => TruncI32(x)))
  }

  /** The truncation keeps only the low 32 bits: a new mapping address
      above 4 GiB does not survive `__mremap`'s `x as i32`. */
  lemma MremapTruncatesAddress(oldAddr: u64, oldSize: u64, newSize: u64, flags: i32)
    ensures Mremap(oldAddr, oldSize, newSize, flags, 0x7f12_3456_7000).result == Ok(0x3456_7000)
    ensures Munmap(oldAddr, oldSize, 0).result == Ok(0)
  {
  }

  /** `__mprotect`: address, length and protection, zeros for the rest; the
      value is dropped, the error passed through. */
  function Mprotect(addr: u64, len: u64, prot: i32, ret: i64): (r: Invocation<()>)
    ensures r.call.no == SYS_MPROTECT && |r.call.args| == 6
    ensures CarriesU64(r.call.args[0], addr) && CarriesU64(r.call.args[1], len)
    ensures r.call.args[2] == prot && r.call.args[3..] == [0, 0, 0]
    ensures r.result.Ok? <==> !(-4096 <= ret < 0)
    ensures r.result.Err? ==> r.result.error == -ret
  {
    var inv := Syscall(SYS_MPROTECT, ToSigned(addr), ToSigned(len), prot, 0, 0, 0, ret);
    Invocation(inv.call, inv.result.Map(_ => ()))
  }

  /** `__madvise`: address, length and advice, zeros for the rest; the value
      is dropped, the error passed through. */
  function Madvise(addr: u64, len: u64, advice: i32, ret: i64): (r: Invocation<()>)
    ensures r.call.no == SYS_MADVISE && |r.call.args| == 6
    ensures CarriesU64(r.call.args[0], addr) && CarriesU64(r.call.args[1], len)
    ensures r.call.args[2] == advice && r.call.args[3..] == [0, 0, 0]
    ensures r.result.Ok? <==> !(-4096 <= ret < 0)
    ensures r.result.Err? ==> r.result.error == -ret
  {
    var inv := Syscall(SYS_MADVISE, ToSigned(addr), ToSigned(len), advice, 0, 0, 0, ret);
    Invocation(inv.call, inv.result.Map(_ => ()))
  }
}
