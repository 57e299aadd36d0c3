# systrace interception core, modelled in Dafny

systrace runs a program under ptrace. It uses a seccomp filter to decide
which syscalls stop for the tracer. It patches each stopping `syscall` site
so that later calls jump to a trampoline library instead. This project
models the pure parts of that machinery and proves what they promise:

- **`Bpf`** (`src/bpf.c`): the classification filter as a list of BPF
  instructions, with the interpreter the kernel runs over it, and the
  verdict as a total function. It also models the `sock_fprog` length and
  the "install or abort" assert, which installs nothing when assertions
  are compiled out.
- **`SyscallBuf`** (`src/syscallbuf.h`): the fixed page addresses, the two
  sentinel entry points, and the x86-64 C layouts of `struct syscall_info`
  and `struct syscall_patch_hook`, with byte encoders and decoders.
- **`Hooks`** (`src/hooks.rs`): the 12-entry patch-hook catalogue, proved
  prefix-free, plus its symbol naming scheme and record images.
- **`Tracer`** (`src/traced_task.rs`): the tracer's bookkeeping:
  - locating the trampoline library;
  - `find_syscall_hook` over a 16-byte little-endian window;
  - the guards and effect of `patch_syscall_with`;
  - stub-page reuse within 2 GiB, and stub offsets;
  - the short paths of `peek_bytes` and `poke_bytes`, including
    `poke_bytes` as a loop over a word;
  - the breakpoint splice of `do_ptrace_exec`;
  - the remote result decoder and `should_restart_syscall`;
  - `task_exec_reset`, and the tool log-level mapping.

  ptrace is abstracted: a word read is a function from address to optional
  word. What the lock set, the single step and the stub allocator answer
  during one patch attempt is passed in as a parameter.
- **`SyscallHelper`** (`syscalls/src/helper.rs`): `syscall_ret` and the five
  memory-management wrappers. The raw value the kernel returns is a
  parameter.
- **`Proc`** (`src/proc.rs`): the parser combinators for `/proc/[pid]/maps`
  lines, `format_prot_flags`, the all-or-nothing `decode_proc_maps` over
  the file contents, and the state letter of `/proc/[pid]/status`. It
  includes a print-then-parse round trip for whole maps files.
- **`Logger`** (`tools_helper/src/logger.rs`): the 16384-byte ring buffer.
  - `update_buffer` is a function and also a method that copies byte by
    byte, as the source does.
  - `flush_buffer` returns the byte runs it writes.
  - `ring_buffer_write`, `log_enabled`, `log_level_str`, and the level
    mapping of `init`.

  The main properties: an append leaves "old pending text + input" pending,
  and a drain writes out exactly the pending text.
- **`Handoff`**: facts that tie the files together:
  - the vetted filter address is the return address of the untraced
    entry point;
  - the injection addresses and the log-level slot lie in the reserved
    pages;
  - the tool library's decoder and the tracer's decoder disagree only at
    -4096;
  - a log level the tracer stores is one the logger maps back to the same
    level.

Integers are unbounded in Dafny. Rust's `as` casts between `u64`, `i64` and
`i32` are written out (`Bytes.ToSigned`, `Bytes.ToUnsigned`,
`Bytes.TruncI32`), and address arithmetic wraps modulo 2^64 (`Bytes.Add64`,
`Bytes.Sub64`). A memory word is its eight bytes in memory order, since the
source transmutes `u64` to `[u8; 8]` on x86-64. So word masks and shifted
ORs are bytewise operations on that view.

combine's `count(2, hex_digit())` takes up to two digits. So the device
field of a maps line reads 0, 1 or 2 hex digits per half. Reading a
two-digit half is proved as a round trip.

## Model

| member | source | states |
|---|---|---|
| Bpf.CompiledFilterImplementsPolicy | src/bpf.c:19-29 | For every allow-list, vetted address, starting accumulator and syscall, the filter program returns the verdict "allow if the number is listed, else allow if the low 32 bits of the IP (all a single `BPF_W` load sees) are the vetted address, else trace". |
| Bpf.AllowRulesRun | src/bpf.c:20-25 | The block of `SYSCALL(nr, ALLOW)` rules allows exactly the listed numbers. Anything else falls through to what follows. |
| Bpf.Verdict | src/bpf.c:19-29 | The installed filter's verdict is total and is always ALLOW or TRACE. It is ALLOW exactly for the five listed syscalls or an IP whose low 32 bits are 0x70000002, and it is what the program returns. |
| Bpf.AllowListedSyscallsPass | src/bpf.c:20-25 | clone, fork, vfork, rt_sigreturn and clock_nanosleep are allowed from any instruction pointer. |
| Bpf.VettedIpAlwaysPasses | src/bpf.c:26-27 | Every syscall issued from 0x70000002 is allowed, although the allow-list is checked first. |
| Bpf.AliasedIpPasses | src/bpf.c:26-27 | Because only the low half of the IP is compared, any syscall from 0x70000002 plus a multiple of 2^32 (e.g. openat from 0x1_7000_0002) is allowed too. |
| Bpf.EverythingElseTraces | src/bpf.c:28 | Any other syscall from an address whose low 32 bits differ from 0x70000002 traces. It is never killed and never fails with an errno. |
| Bpf.MakeProg | src/bpf.c:30-33 | `len` is the filter's instruction count truncated to an unsigned short. It equals the count when that fits. |
| Bpf.ProgLenIsInstructionCount | src/bpf.c:30-33 | The program handed to the kernel counts all 15 filter entries. |
| Bpf.BpfInstall | src/bpf.c:37 | With assertions compiled in, `bpf_install` installs the full filter exactly when the install call returned 0, and aborts otherwise. Without them (`NDEBUG`) the call is never made and it returns with nothing installed. |
| SyscallBuf.FixedAddressContract | src/syscallbuf.h:7-8 | Both reserved pages are 4096-aligned. The thread-locals page starts one page above the preload page, so no address lies in both. |
| SyscallBuf.SentinelsInPreloadPage | src/syscallbuf.h:10-11 | The untraced and traced entry points differ, and both lie in the preload page. |
| SyscallBuf.SyscallInfoLayout | src/syscallbuf.h:13-16 | Under the C layout rules, `syscall_info` has fields at 0 and 8, is 56 bytes and has no padding. |
| SyscallBuf.PatchHookLayout | src/syscallbuf.h:18-24 | `syscall_patch_hook` has fields at 0, 1, 2 and 16, with `hook_address` 8-aligned. It is 24 bytes with no padding. |
| SyscallBuf.SyscallInfoRoundTrip | src/syscallbuf.h:13-16 | A descriptor's 56-byte image decodes back to the same number and six arguments. |
| SyscallBuf.PatchHookRoundTrip | src/syscallbuf.h:18-24 | A hook record's 24-byte image decodes back to the same record. |
| Hooks.CatalogueIsPrefixFree | src/hooks.rs:17-110 | The catalogue has 12 entries and no pattern is a prefix of another. |
| Hooks.AtMostOneMatch | src/hooks.rs:17-110 | No byte window starts with two different catalogue patterns. |
| Hooks.PatternLengths | src/hooks.rs:22-107 | Every pattern is 3 to 9 bytes. It fits the 14-byte record field and the 16-byte window. |
| Hooks.SingleInstructionEntries | src/hooks.rs:20-109 | An entry is single-instruction exactly when it is the 1st, 2nd, 3rd or 7th. |
| Hooks.SymbolsAreTrampolines | src/hooks.rs:23-108 | Every symbol starts with `_syscall_hook_trampoline_`. |
| Hooks.SymbolSpells0 | src/hooks.rs:20-24 | The symbol is the prefix followed by the pattern `48 3d 01 f0 ff ff` in hex, joined by `_`. |
| Hooks.SymbolSpells1 | src/hooks.rs:28-32 | The same for `48 3d 00 f0 ff ff`. |
| Hooks.SymbolSpells2 | src/hooks.rs:35-39 | The same for `48 8b 3c 24`. |
| Hooks.SymbolSpells3 | src/hooks.rs:42-46 | The same for `5a 5e c3`. |
| Hooks.SymbolSpells4 | src/hooks.rs:50-54 | The same for `89 c2 f7 da`. |
| Hooks.SymbolSpells5 | src/hooks.rs:57-61 | The same for `90 90 90`. |
| Hooks.SymbolSpells6 | src/hooks.rs:65-69 | The same for `ba 01 00 00 00`. |
| Hooks.SymbolSpells7 | src/hooks.rs:73-77 | The same for `89 c1 31 d2`. |
| Hooks.RetPrefixedShareSymbol | src/hooks.rs:81-109 | The entries starting with 0xc3 are exactly the last four, and all four use `_syscall_hook_trampoline_c3_nop`. |
| Hooks.ToRecord | src/syscallbuf.h:18-24 | A hook's record carries its pattern length, its pattern in the first bytes of the 14-byte field with zeros after it, its flag as 1 for a multi-instruction hook and 0 otherwise, and the given trampoline address. |
| Hooks.CatalogueRecordsRoundTrip | src/syscallbuf.h:18-24 | For every catalogue entry, the record's 24-byte image decodes to the entry's pattern, flag and trampoline address. |
| Bytes.WordRoundTrip | src/traced_task.rs:379-382 | The eight-byte little-endian view of a word and its numeric value are inverse to each other. |
| Tracer.SyscallSite | src/traced_task.rs:917 | The site recovered as `rip - SYSCALL_INSN_SIZE` is the address that, advanced past the 2-byte `syscall` instruction, gives `rip` back. |
| Tracer.LibtrampolineLoadAddress | src/traced_task.rs:33-41 | The library is found exactly when the read succeeds with a non-zero value. The result is then the 4096-aligned page holding that value. |
| Tracer.TaskExecReset | src/traced_task.rs:348-361 | After exec, the following are reset, and the task's identity and shared page are kept: the patched, unpatchable, memory-map and stub-page lists are empty; the injected page is 0x7000_0000; the state is `Exited(0)`; the loader address, pending signal, vfork flag and hook size are cleared. |
| Tracer.ExecResetForgetsHistory | src/traced_task.rs:348-361 | Two tasks with the same identity are equal after exec whatever they recorded before. Resetting twice is resetting once. |
| Tracer.Window | src/traced_task.rs:370-384 | The window exists exactly when both reads succeed. It is 16 bytes: the word at rip, then the word at rip+8, each in memory order. |
| Tracer.FindSyscallHook | src/traced_task.rs:370-391 | A hook is returned only when the window was read, and it is a catalogue entry whose pattern starts the window. None with a readable window means no pattern fits. |
| Tracer.FoundHookIsUnique | src/traced_task.rs:386-390 | Any catalogue entry that fits the window is the one returned. |
| Tracer.ReachableMeansWithinTwoGiB | src/traced_task.rs:485-499 | Without wrap-around, a page is reused exactly when it lies wholly below rip within 2^31, or starts at or above rip with its stub area ending within 2^31 above rip. A page straddling rip is never reused. |
| Tracer.Reachable | src/traced_task.rs:487-497 | A reusable page lies wholly at or below rip or starts at or above it; a page that straddles rip is never reusable. |
| Tracer.FindStubPage | src/traced_task.rs:486-499 | The index found is of a reachable page and no earlier page is reachable, as `iter().find` returns the first match; None means no page is reachable. |
| Tracer.ChooseStubPage | src/traced_task.rs:486-505 | When some page is reachable, the first reachable page is reused and the list is unchanged. Otherwise a new page is used, and appended, only when the allocation succeeded. An allocation failure is passed through. When it came after the page was recorded (traced_task.rs:535-551), the page stays in the list. |
| Tracer.RecordedFailureIsReused | src/traced_task.rs:486-505 | A page recorded by a failed allocation is chosen by any later site within reach of it, without a new allocation. |
| Tracer.HookIndex | src/traced_task.rs:456-466 | The index is found exactly when the hook is in the list, and it is the first position holding the hook. Otherwise the result is an error. |
| Tracer.ExtendedJumpOffset | src/traced_task.rs:468-474 | The offset is the hook's index times the stub size, and an error when the hook is not listed. |
| Tracer.OffsetsInPrefixFree | src/traced_task.rs:456-474 | In a prefix-free list the i-th entry gets offset i × stub size, and later entries get offsets at least one stub further on. |
| Tracer.CatalogueOffsets | src/traced_task.rs:456-474 | The same holds for the catalogue, so distinct hooks get stub areas that do not overlap. |
| Tracer.ExtendedJumpFromTo | src/traced_task.rs:484-510 | The page list afterwards is the one after the choice, on failure too. An allocation error is passed through. When a page is chosen and the hook is in the catalogue, the result is Ok with the page's address plus the hook's offset. A chosen page with a hook outside the catalogue gives HookNotFound. |
| Tracer.PatchSyscallWith | src/traced_task.rs:398-453 | It fails, leaving the task unchanged, when in vfork, without the trampoline library, for an unpatchable rip, or without the write lock. A skip that fails before the stop (traced_task.rs:1100-1101) leaves the task unchanged. One that fails after it (1103-1104) leaves it `Stopped(SIGTRAP)`. Past the guards and a successful skip, the result is exactly the extended jump's result, and the task is stopped with the page list the choice left. On success rip is appended to the patched list. Failures keep the patched list. |
| Tracer.PatchedSiteIsRecorded | src/traced_task.rs:410-446 | After a successful patch the site is recorded as patched, and every previously patched site stays recorded. |
| Tracer.PatchSucceedsWhenEverythingPasses | src/traced_task.rs:398-453 | When the four guards and the skip pass, a page is reusable or newly allocated, and the hook is in the catalogue, the patch succeeds and rip is recorded. |
| Tracer.NoPatchingAfterExec | src/traced_task.rs:406-410 | Right after exec every patch attempt fails because the trampoline library is not known. |
| Tracer.PeekBytes | src/traced_task.rs:559-566 | A short read returns `size` bytes whose little-endian value is the word read modulo 256^size: its low `size` bytes. |
| Tracer.PokeMaskBytes | src/traced_task.rs:588-596 | Mask n−1 of the table, in memory order, clears exactly the low n bytes of a word. |
| Tracer.PokeWord | src/traced_task.rs:579-606 | An empty slice panics on `masks[size-1]`. For 1 to 8 bytes, the written word holds the input in its low bytes and the old word's bytes above them. |
| Tracer.PeekAfterPoke | src/traced_task.rs:559-606 | Reading back the poked bytes returns them, and an 8-byte poke does not depend on the old word. |
| Tracer.ExecSpliceBytes | src/traced_task.rs:1055-1064 | The exec splice writes int3, syscall, int3 into the low four bytes and keeps the upper four. This is the 4-byte poke of those instructions. |
| Tracer.ExecSplice | src/traced_task.rs:1055-1064 | The word written at rip has int3, syscall, int3 in its low four bytes and the saved word's upper four bytes. |
| Tracer.DecodeRemoteResult | src/traced_task.rs:726-730 | A raw value strictly above 2^64−4096 is the error −rax, in 1..4095. Anything else is its signed value. |
| Tracer.DecodeRemoteRoundTrip | src/traced_task.rs:726-730 | Errors 1..4095 come back from their negation, and every other value comes back as itself. |
| Tracer.ShouldRestartSyscall | src/traced_task.rs:738-758 | True exactly for −512, −513 and −514. −516 and everything else give false. |
| Tracer.RestartCodesAreErrors | src/traced_task.rs:738-758 | Every restarted value decodes as an error whose code is one of the three restart codes. |
| Tracer.SystoolLogLevel | src/traced_task.rs:983-1000 | A level is stored exactly when the variable names one of the five levels, and it is in 1..5. |
| SyscallHelper.SyscallRet | syscalls/src/helper.rs:4-10 | A raw value is an error exactly when it is in −4096..−1, and the error is its negation in 1..4096. Other values are returned unchanged. |
| SyscallHelper.SyscallRetRoundTrip | syscalls/src/helper.rs:4-10 | Every errno 1..4096 comes back from its negation, and every other value comes back as itself. |
| SyscallHelper.Syscall | syscalls/src/helper.rs:12-15 | The call carries the number and the six arguments in order. The result is an error exactly when the raw value is in −4096..−1, and then it is the negated value in 1..4096; otherwise it is the raw value. |
| SyscallHelper.Mmap | syscalls/src/helper.rs:17-35 | The six arguments go in order to SYS_mmap, with pointer and length carried as their unsigned values. The value is read back as an address, and errors pass through. |
| SyscallHelper.Munmap | syscalls/src/helper.rs:37-39 | Address and size, then four zeros, go to SYS_munmap. The value is truncated to its low 32 bits, and errors pass through. |
| SyscallHelper.Mremap | syscalls/src/helper.rs:41-57 | Old address, old size, new size and flags, then two zeros, go to SYS_mremap. The value is truncated to 32 bits, and errors pass through. |
| SyscallHelper.MremapTruncatesAddress | syscalls/src/helper.rs:56 | A new mapping above 4 GiB comes back as only its low 32 bits. |
| SyscallHelper.Mprotect | syscalls/src/helper.rs:59-70 | Address, length and protection, then three zeros, go to SYS_mprotect. The value is dropped and errors pass through. |
| SyscallHelper.Madvise | syscalls/src/helper.rs:72-83 | Address, length and advice, then three zeros, go to SYS_madvise. The value is dropped and errors pass through. |
| Proc.HexValue | src/proc.rs:115-122 | It fails exactly when the input does not start with a hex digit. Otherwise it consumes the whole hex run and yields its base-16 value, or 0 if that overflows 64 bits. |
| Proc.DecValue | src/proc.rs:124-131 | It consumes the whole hex-digit run. The value is 0 if the run has a letter or its decimal value is 2^64 or more, and the decimal value when the run is decimal and fits. |
| Proc.NumberFieldsRoundTrip | src/proc.rs:115-131 | A number printed in hex, or in decimal, reads back as itself and stops at the next non-digit. |
| Proc.HexOverflowReadsZero | src/proc.rs:121 | 2^64 written in hex reads as 0. |
| Proc.DecHexLetterReadsZero | src/proc.rs:130 | An inode field "1a" reads as 0. |
| Proc.Prot | src/proc.rs:151-183 | After optional spaces it accepts exactly the four permission positions. The bits follow the letters: r/w/x set READ/WRITE/EXEC, `s` gives SHARED, `p` gives PRIVATE and `-` gives neither. |
| Proc.FormatProtFlags | src/proc.rs:63-88 | It prints four valid permission characters, each letter present exactly when its bit is set. A shared mapping prints `s` and a private one `p`. |
| Proc.PermsRoundTrip | src/proc.rs:63-88 | Parsing a permission column and formatting the result reproduces the column. |
| Proc.ProtFlagsRoundTrip | src/proc.rs:151-183 | Formatting protection bits 0..7 with none/shared/private and parsing the result gives the same values back. |
| Proc.ByteField | src/proc.rs:139-148 | It takes at most two hex digits, stopping early only at a non-digit, and yields their base-16 value below 256. |
| Proc.DevRoundTrip | src/proc.rs:133-149 | "MM:mm" with two-digit halves reads as MM·256+mm, whatever follows. |
| Proc.Dev | src/proc.rs:133-149 | A device number read is below 2^16: two byte fields joined as major·256 + minor. |
| Proc.DevHalves | src/proc.rs:104-105 | Shifting right by 8 and masking with 0xff recover MM and mm. |
| Proc.FilePath | src/proc.rs:185-196 | The path is None exactly when nothing but a line break or the end follows the spaces. Otherwise the text after the spaces is the path followed by the rest, the path has no CR or LF, and the rest is empty or starts with one: the path is the longest non-empty run without CR or LF. |
| Proc.FilePathOfSuffix | src/proc.rs:185-196 | A printable path after a space reads back as itself, and a missing path reads as None. |
| Proc.ParseFormattedLine | src/proc.rs:214-239 | A printed line parses to the entry it describes, with size end − start. So `end()` returns the line's end address. |
| Proc.ParseEntry | src/proc.rs:208-240 | A parsed entry has protection bits below 8 and a device number below 2^16. |
| Proc.End | src/proc.rs:44-46 | The end address is `base + size` when that fits in 64 bits, and in every case lies `size` above `base` modulo 2^64. |
| Proc.CollectAll | src/proc.rs:249-253 | Collecting succeeds exactly when every line parses, with one entry per line in order. Otherwise it fails at the first line that does not parse. |
| Proc.LinesOfUnlines | src/proc.rs:250 | Splitting into lines undoes joining them with newlines when no line contains a newline or ends in CR. |
| Proc.DecodeFormattedMaps | src/proc.rs:242-254 | A maps file printed from printable lines decodes to the entries of those lines, in order. |
| Proc.DecodeProcMaps | src/proc.rs:242-254 | On success there is one entry per line, each the parse of its line. On failure the index names a line that does not parse. So it succeeds exactly when every line parses. |
| Proc.StateOfToken | src/proc.rs:267-276 | A state is returned only for its own letter. |
| Proc.StateLettersBijective | src/proc.rs:267-276 | Each state's letter maps back to it, and exactly R, S, D, T, t, X and Z map to a state. |
| Proc.ProcTaskState | src/proc.rs:266-277 | A state is returned only when the third line has a second token, which is that state's letter. |
| Proc.ReadsStateLine | src/proc.rs:266-277 | A status file whose third line is `State:<TAB><letter> ...` decodes to that letter's state. |
| Proc.ShortStatusReadsNothing | src/proc.rs:266 | A file of one or two lines has no state. |
| Logger.InitialBufferIsValid | tools_helper/src/logger.rs:32-39 | The static buffer satisfies the index invariants, holds nothing pending and starts at 0. |
| Logger.PendingRuns | tools_helper/src/logger.rs:178-185 | The pending bytes are bytes[begin..end] when end > begin. Otherwise they are bytes[begin..] followed by bytes[..end], and nothing when empty. |
| Logger.UpdateBuffer | tools_helper/src/logger.rs:53-95 | `update_buffer` keeps the index invariants. An empty input changes nothing, a non-empty one clears `is_empty`, and `end` advances by n modulo the size. `begin` moves to the old end only when asked. |
| Logger.UpdatePlaces | tools_helper/src/logger.rs:64-94 | Input byte k lands at (old end + k) mod size, and every other byte of the array is kept. |
| Logger.CopyNonoverlapping | tools_helper/src/logger.rs:68-71 | The copy overwrites exactly the target range with the source and keeps the rest. |
| Logger.UpdateBufferByCopy | tools_helper/src/logger.rs:53-95 | The source's one-copy and two-copy paths compute exactly the buffer `UpdateBuffer` describes. |
| Logger.UpdateAppends | tools_helper/src/logger.rs:53-95 | When the old pending text and the input fit together, the pending text afterwards is the old one followed by the input. |
| Logger.FlushBuffer | tools_helper/src/logger.rs:172-189 | An empty buffer writes nothing. Otherwise it writes bytes[begin..end], or bytes[begin..] then bytes[..end] when wrapped, and leaves the buffer empty with end = begin. |
| Logger.FlushEmitsPending | tools_helper/src/logger.rs:172-189 | The writes concatenated are exactly the pending text, and nothing remains pending. |
| Logger.LastNewline | tools_helper/src/logger.rs:158 | None exactly when there is no newline. Otherwise it is the position of the last newline. |
| Logger.WriteWithoutNewline | tools_helper/src/logger.rs:158-159 | Text without a newline is appended whole and nothing is written out. |
| Logger.WriteWithNewline | tools_helper/src/logger.rs:160-167 | Text with a newline writes out the old pending text plus the text through its last newline. Exactly the rest stays pending. |
| Logger.RingBufferWrite | tools_helper/src/logger.rs:154-170 | A write keeps the invariants and `begin`, and writes nothing out for text without a newline. |
| Logger.AsWrittenAgreesWhenDefined | tools_helper/src/logger.rs:160-167 | Where the as-written second segment stays in bounds, the as-written write equals the corrected one. |
| Logger.WriteAll | tools_helper/src/logger.rs:159-167 | Since every call passes `update_begin = false`, any sequence of writes keeps `begin` where it started. |
| Logger.FlushAsWrittenAgreesAtBeginZero | tools_helper/src/logger.rs:181-184 | While `begin` is 0, the as-written wrapped lengths equal the corrected ones. |
| Logger.LogLevelStr | tools_helper/src/logger.rs:125-129 | The table index `level % 6` is always the level's own entry, which is non-empty. |
| Logger.LevelNamesDistinct | tools_helper/src/logger.rs:125-129 | Different levels print different names. |
| Logger.InitLevel | tools_helper/src/logger.rs:194-201 | A level is found exactly for stored values 1..5, and it is the level numbered by that value. |
| Logger.EnabledUpToConfiguredLevel | tools_helper/src/logger.rs:119-123 | `init` inverts the numbering. With a configured level, a message is enabled exactly when it is at least as severe. With 0 or less, nothing is enabled. |
| Logger.LogEnabled | tools_helper/src/logger.rs:119-123 | Nothing is enabled for a stored level of 0 or less and everything for 5 or more. For a level `init` accepts, a message is enabled exactly when it is at least as severe as that level. |
| Handoff.VettedIpFollowsUntracedSyscall | src/bpf.c:27 | The vetted IP is `SYSCALL_UNTRACED` + 2, and the tracer's site for it is `SYSCALL_UNTRACED`. |
| Handoff.AddressesInReservedPages | src/traced_task.rs:648-671 | The untraced and traced injection addresses and the exec-reset page lie in the preload page. The log-level slot lies in the thread-locals page and not in the preload page. |
| Handoff.DecodersAgreeExceptAtMinus4096 | syscalls/src/helper.rs:4-10 | The tool decoder and the tracer's decoder agree on error-ness and errno except at −4096. There `syscall_ret` gives errno 4096 and the tracer gives the value −4096. |
| Handoff.ToolLogLevelReachesLogger | src/traced_task.rs:983-1000 | Any level the tracer stores is one `init` maps back, `log_enabled` admits exactly the levels at least as severe, and the printed name is the upper-case form of the variable's value. |

## Left out

- ptrace itself, `waitpid`, register get/set, single-stepping and the event loop are process I/O and are not modelled. This covers `run`, `handle_ptrace_event`, `handle_syscall_exit`, `wait_sigstop`, the `do_ptrace_*` handlers apart from the exec splice, `tracee_preinit` apart from its result test, and the debug printers.
- The long paths of `peek_bytes` and `poke_bytes` go through `process_vm_readv`/`writev`. They are I/O and only the one-word paths are modelled.
- `do_ptrace_seccomp` is tracee I/O; only its `rip - SYSCALL_INSN_SIZE` is modelled (`Tracer.SyscallSite`). `is_syscall_insn` needs `SYSCALL_INSN_MASK`, and the `consts` module that defines it is not part of this model.
- `remote_do_syscall_at` is modelled through its result test only. Its register set-up and the `SIGCHLD` recorded in `signal_to_deliver` are not modelled, nor is the stop-signal assert in `should_restart_syscall`.
- The lock set is modelled as parameters: `try_write_lock` is a boolean, and `try_read_unlock`/`try_write_unlock` are not modelled. Its internals and its reset in `task_exec_reset` are not part of this model. `check_ref_counters` and the `Rc`/`RefCell` sharing between tasks are also left out.
- `skip_seccomp_syscall` is a parameter saying whether it succeeded, failed before the task was marked stopped, or failed after; its effect on the task state (`Stopped(SIGTRAP)`) is modelled, but not its `assert!` on the `waitpid` status. `allocate_extended_jumps` is a parameter giving the new page, an error before the page was recorded, or the recorded page and a later error, because it maps and fills memory in the tracee. `update_memory_map` and `patch_syscall_at`, which writes the jump into the tracee, are not modelled.
- The tracer's `trampoline_hooks` list is resolved against the trampoline library at start-up; the model takes it to be the catalogue itself. `stubs::extended_jump_size` and `extended_jump_pages` come from a module that is not part of this model, so they are parameters (`Tracer.StubConfig`).
- `bpf-helper.h` and `bpf_resolve_jumps` are not part of this model. `SYSCALL(nr, jt)` and `IP(addr, jt)` are each a compare-and-skip pair followed by the action. `LOAD_SYSCALL_IP` is one 32-bit load, so the IP test compares only the low 32 bits of the instruction pointer; `Bpf.Load` models that.
- The `prctl` call is a parameter giving its result. The kernel's irrevocability of installed filters is not modelled.
- Reading `/proc` files is I/O; the functions take the contents. The `Debug` printer of `ProcMapsEntry` is not modelled, including the padding at src/proc.rs:109 that underflows for long lines, and so is `pretty_show_maps`.
- Logger: the spinlock, `ll_write` and the `core::fmt` plumbing are left out; a drain returns the byte runs it would write. So are `log::set_logger`/`set_max_level`; only the level mapping of `init` is modelled. The `debug_assert`s at logger.rs:58-59 are part of `Logger.Valid`.
- Bytes.Add64: the source uses plain `+`/`-` on `u64` in `extended_jump_from_to`, `ProcMapsEntry::end`, the parser's `to - from`, `find_syscall_hook`'s `rip + i * 8` (traced_task.rs:375, `Tracer.Window`) and `do_ptrace_seccomp`'s `regs.rip - SYSCALL_INSN_SIZE` (traced_task.rs:917, `Tracer.SyscallSite`). Those panic on overflow in debug builds and wrap in release builds; the model wraps.
- Proc.SecondToken: states only the first two tokens of the line, which is all the state decoder reads.
- Proc.ParseEntry: its own contract states only field ranges. The full content is stated by `Proc.ParseFormattedLine` for lines in the printed form; other lines are defined but not characterised further.
- Proc.Dev: its own contract states only the value range. `Proc.DevRoundTrip` states the reading of two-digit halves; halves of zero or one digit are defined but not characterised further.
- Proc.FormatMapsLine: prints one space between fields and no zero padding, unlike the kernel; the parser skips both kinds of spacing.
- Logger.UpdateBuffer: requires the input to be at most 16384 bytes. The source's `assert!(n <= rb.size)` at logger.rs:60 panics on a longer piece; that panic is not modelled.
- Logger.RingBufferWrite: requires, through `WriteFits`, the text through the last newline and the text after it to be at most 16384 bytes each. A longer piece panics at logger.rs:60 in the source, and that panic is not modelled.
- Logger.WriteWithoutNewline: requires the pending text and the input to fit together in 16384 bytes. Beyond that the source overwrites unread bytes, as for `Logger.UpdateAppends`, or panics at logger.rs:60 for an input over 16384 bytes.
- Logger.UpdateAppends: requires the old pending text and the input to fit together. Beyond that the source overwrites unread bytes; `Logger.Written` computes that but no lemma describes it.
- Logger.WriteWithNewline: requires the pending text plus the text through the last newline to fit, for the same reason.
- Tracer.ReachableMeansWithinTwoGiB: assumes the page's end and stub area do not wrap past 2^64. `Tracer.Reachable` itself wraps as the source does.

## Findings

| source | as written | input that shows it | evidently intended | confidence | as-written member | corrected member |
|---|---|---|---|---|---|---|
| tools_helper/src/logger.rs:181-184 | wrapped drain writes `i = size - end` bytes from `begin`, then `size - (begin - end) - i` bytes from 0 | not empty, begin = 10, end = 5: the first write covers bytes 10..16389 of a 16384-byte array | write `size - begin` bytes from `begin`, then `end` bytes from 0 | high, not executed; latent because every caller keeps `begin` at 0 | Logger.FlushAsWrittenOverruns | Logger.FlushEmitsPending |
| tools_helper/src/logger.rs:164 | second segment starts at `first + 1 + i`, where `i` is already one past the newline, with length `len - i` | "a\nb": copies 1 byte from offset 3, one past the end, and drops "b" | start the second segment at `first + i` | high, not executed | Logger.SecondSegmentOverruns | Logger.WriteWithNewline |
