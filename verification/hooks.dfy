/** The patch-hook catalogue of src/hooks.rs.

    Each entry names the bytes that follow a `syscall` instruction in some
    known libc idiom, whether those bytes are one instruction or several,
    and the trampoline symbol that replaces the sequence. The catalogue is a
    closed list; the matcher is exact prefix matching over it. */
module Hooks {
  import opened Bytes
  import SyscallBuf

  datatype SyscallPatchHook = SyscallPatchHook(isMulti: bool, instructions: seq<byte>, symbol: string)

  const TRAMPOLINE_PREFIX: string := "_syscall_hook_trampoline_"

  // The twelve entries, in catalogue order, each named after the code
  // that follows the `syscall` instruction. Each symbol is the literal
  // the catalogue gives; that it is the prefix followed by the pattern in
  // hex is proved below.

  /** `cmp $-4095,%rax` (most glibc wrappers, e.g. read). */
  const CMP_RAX_4095: SyscallPatchHook :=
    SyscallPatchHook(false, [0x48, 0x3d, 0x01, 0xf0, 0xff, 0xff], "_syscall_hook_trampoline_48_3d_01_f0_ff_ff")
  /** `cmp $-4096,%rax` (e.g. __libc_recv). */
  const CMP_RAX_4096: SyscallPatchHook :=
    SyscallPatchHook(false, [0x48, 0x3d, 0x00, 0xf0, 0xff, 0xff], "_syscall_hook_trampoline_48_3d_00_f0_ff_ff")
  /** `mov (%rsp),%rdi`. */
  const MOV_RSP_RDI: SyscallPatchHook :=
    SyscallPatchHook(false, [0x48, 0x8b, 0x3c, 0x24], "_syscall_hook_trampoline_48_8b_3c_24")
  /** `pop %rdx; pop %rsi; ret` (__lll_unlock_wake). */
  const POP_POP_RET: SyscallPatchHook :=
    SyscallPatchHook(true, [0x5a, 0x5e, 0xc3], "_syscall_hook_trampoline_5a_5e_c3")
  /** `mov %eax,%edx; neg %edx` (posix_fadvise64). */
  const MOV_NEG: SyscallPatchHook :=
    SyscallPatchHook(true, [0x89, 0xc2, 0xf7, 0xda], "_syscall_hook_trampoline_89_c2_f7_da")
  /** `nop; nop; nop` (vsyscall patches). */
  const NOP_NOP_NOP: SyscallPatchHook :=
    SyscallPatchHook(true, [0x90, 0x90, 0x90], "_syscall_hook_trampoline_90_90_90")
  /** `mov $1,%rdx` (pthread_barrier_wait). */
  const MOV_1_RDX: SyscallPatchHook :=
    SyscallPatchHook(false, [0xba, 0x01, 0x00, 0x00, 0x00], "_syscall_hook_trampoline_ba_01_00_00_00")
  /** `mov %eax,%ecx; xor %edx,%edx` (pthread_sigmask). */
  const MOV_XOR: SyscallPatchHook :=
    SyscallPatchHook(true, [0x89, 0xc1, 0x31, 0xd2], "_syscall_hook_trampoline_89_c1_31_d2")
  /** `retq; nopl 0x0(%rax,%rax,1)` with a 32-bit displacement (getpid). */
  const RET_NOPL_DISP32: SyscallPatchHook :=
    SyscallPatchHook(true, [0xc3, 0x0f, 0x1f, 0x84, 0x00, 0x00, 0x00, 0x00, 0x00], "_syscall_hook_trampoline_c3_nop")
  /** `retq; nopl 0x0(%rax,%rax,1)` with an 8-bit displacement. */
  const RET_NOPL_DISP8: SyscallPatchHook :=
    SyscallPatchHook(true, [0xc3, 0x0f, 0x1f, 0x44, 0x00, 0x00], "_syscall_hook_trampoline_c3_nop")
  /** `retq; nopl (%rax)`. */
  const RET_NOPL: SyscallPatchHook :=
    SyscallPatchHook(true, [0xc3, 0x0f, 0x1f, 0x00], "_syscall_hook_trampoline_c3_nop")
  /** `retq; xchg %ax,%ax`. */
  const RET_XCHG: SyscallPatchHook :=
    SyscallPatchHook(true, [0xc3, 0x66, 0x90], "_syscall_hook_trampoline_c3_nop")

  const SYSCALL_HOOKS: seq<SyscallPatchHook> := [
    CMP_RAX_4095, CMP_RAX_4096, MOV_RSP_RDI, POP_POP_RET, MOV_NEG, NOP_NOP_NOP,
    MOV_1_RDX, MOV_XOR, RET_NOPL_DISP32, RET_NOPL_DISP8, RET_NOPL, RET_XCHG
  ]

  predicate IsPrefix<T(==)>(p: seq<T>, s: seq<T>)
  {
    |p| <= |s| && s[..|p|] == p
  }

  /** No catalogue pattern is a prefix of another. */
  predicate PrefixFree(hooks: seq<SyscallPatchHook>)
  {
    forall i, j :: 0 <= i < |hooks| && 0 <= j < |hooks| && i != j ==>
      !IsPrefix(hooks[i].instructions, hooks[j].instructions)
  }

  /** Sequences that disagree at a position both reach are not prefixes of
      each other. */
  lemma DiffAtNotPrefix(p: seq<byte>, q: seq<byte>, k: nat)
    requires k < |p| && k < |q| && p[k] != q[k]
    ensures !IsPrefix(p, q) && !IsPrefix(q, p)
  {
    assert |p| <= |q| ==> q[..|p|][k] == q[k];
    assert |q| <= |p| ==> p[..|q|][k] == p[k];
  }

  lemma CatalogueIsPrefixFree()
    ensures |SYSCALL_HOOKS| == 12
    ensures PrefixFree(SYSCALL_HOOKS)
  {
    var hs := SYSCALL_HOOKS;
    forall i, j | 0 <= i < |hs| && 0 <= j < |hs| && i != j
      ensures !IsPrefix(hs[i].instructions, hs[j].instructions)
    {
      var p, q := hs[i].instructions, hs[j].instructions;
      if p[0] != q[0] {
        DiffAtNotPrefix(p, q, 0);
      } else if p[1] != q[1] {
        DiffAtNotPrefix(p, q, 1);
      } else if p[2] != q[2] {
        DiffAtNotPrefix(p, q, 2);
      } else {
        DiffAtNotPrefix(p, q, 3);
      }
    }
  }

  /** Two patterns that both start the same window nest inside each other. */
  lemma PrefixesOfOneWindowNest<T>(p: seq<T>, q: seq<T>, w: seq<T>)
    requires IsPrefix(p, w) && IsPrefix(q, w) && |p| <= |q|
    ensures IsPrefix(p, q)
  {
    assert q[..|p|] == w[..|p|];
  }

  /** Hence at most one catalogue entry can match any byte window. */
  lemma AtMostOneMatch(w: seq<byte>, i: nat, j: nat)
    requires i < |SYSCALL_HOOKS| && j < |SYSCALL_HOOKS|
    requires IsPrefix(SYSCALL_HOOKS[i].instructions, w)
    requires IsPrefix(SYSCALL_HOOKS[j].instructions, w)
    ensures i == j
  {
    CatalogueIsPrefixFree();
    var p, q := SYSCALL_HOOKS[i].instructions, SYSCALL_HOOKS[j].instructions;
    if |p| <= |q| {
      PrefixesOfOneWindowNest(p, q, w);
    } else {
      PrefixesOfOneWindowNest(q, p, w);
    }
  }

  /** Every pattern is 3 to 9 bytes: it fits the 14-byte
      `next_instruction_bytes` field and the 16-byte window the matcher
      slices. */
  lemma PatternLengths()
    ensures forall i :: 0 <= i < |SYSCALL_HOOKS| ==> 3 <= |SYSCALL_HOOKS[i].instructions| <= 9
    ensures forall h :: h in SYSCALL_HOOKS ==> |h.instructions| <= 14 <= 16
  {
  }

  /** Exactly the first three entries and the seventh are single
      instructions. */
  lemma SingleInstructionEntries()
    ensures forall i :: 0 <= i < |SYSCALL_HOOKS| ==>
      (!SYSCALL_HOOKS[i].isMulti <==> i == 0 || i == 1 || i == 2 || i == 6)
  {
  }

  /** Every symbol is a trampoline symbol. */
  lemma SymbolsAreTrampolines()
    ensures forall i :: 0 <= i < |SYSCALL_HOOKS| ==> IsPrefix(TRAMPOLINE_PREFIX, SYSCALL_HOOKS[i].symbol)
  {
    forall i | 0 <= i < |SYSCALL_HOOKS|
      ensures IsPrefix(TRAMPOLINE_PREFIX, SYSCALL_HOOKS[i].symbol)
    {
      var sym := SYSCALL_HOOKS[i].symbol;
      assert sym == TRAMPOLINE_PREFIX + sym[|TRAMPOLINE_PREFIX|..];
    }
  }

  /** The bytes spelled in hex and joined by `_`. */
  function HexJoin(bs: seq<byte>): string
  {
    if |bs| == 0 then ""
    else if |bs| == 1 then HexByte(bs[0])
    else HexByte(bs[0]) + "_" + HexJoin(bs[1..])
  }

  /** The symbol is the trampoline prefix followed by the pattern's bytes in
      hex. */
  predicate SpellsPattern(h: SyscallPatchHook)
  {
    h.symbol == TRAMPOLINE_PREFIX + HexJoin(h.instructions)
  }

  // One entry each: spelling out a symbol is costly enough to keep apart.
  lemma SymbolSpells0()
    ensures SpellsPattern(CMP_RAX_4095)
  {
    CmpSpells(0x01, "01");
  }

  lemma SymbolSpells1()
    ensures SpellsPattern(CMP_RAX_4096)
  {
    CmpSpells(0x00, "00");
  }

  /** Spelling one more byte in front of an already spelled pattern. */
  lemma HexJoinCons(b: byte, bs: seq<byte>)
    requires |bs| > 0
    ensures HexJoin([b] + bs) == HexByte(b) + "_" + HexJoin(bs)
  {
    assert ([b] + bs)[1..] == bs;
  }

  /** The immediate of both `cmp $imm32,%rax` patterns: its low byte, then
      `f0 ff ff`. */
  lemma CmpImmediateSpells(lo: byte, hex: string)
    requires HexByte(lo) == hex
    ensures HexJoin([lo, 0xf0, 0xff, 0xff]) == hex + "_f0_ff_ff"
  {
    var tail: seq<byte> := [0xf0, 0xff, 0xff];
    assert HexJoin([0xff]) == "ff";
    assert HexJoin([0xff, 0xff]) == "ff_ff";
    assert HexJoin(tail) == "f0_ff_ff";
    HexJoinCons(lo, tail);
    assert [lo] + tail == [lo, 0xf0, 0xff, 0xff];
  }

  /** Both `cmp $imm32,%rax` patterns: `48 3d`, then the immediate. */
  lemma CmpSpells(lo: byte, hex: string)
    requires HexByte(lo) == hex
    ensures HexJoin([0x48, 0x3d, lo, 0xf0, 0xff, 0xff]) == "48_3d_" + hex + "_f0_ff_ff"
  {
    var imm: seq<byte> := [lo, 0xf0, 0xff, 0xff];
    CmpImmediateSpells(lo, hex);
    HexJoinCons(0x3d, imm);
    assert [0x3d as byte] + imm == [0x3d, lo, 0xf0, 0xff, 0xff];
    HexJoinCons(0x48, [0x3d as byte] + imm);
    assert [0x48 as byte] + ([0x3d as byte] + imm) == [0x48, 0x3d, lo, 0xf0, 0xff, 0xff];
  }

  /** Three, four and five bytes spelled one by one. */
  lemma HexJoin3(a: byte, b: byte, c: byte, ha: string, hb: string, hc: string)
    requires HexByte(a) == ha && HexByte(b) == hb && HexByte(c) == hc
    ensures HexJoin([a, b, c]) == ha + "_" + hb + "_" + hc
  {
    HexJoinCons(b, [c]);
    assert [b] + [c] == [b, c];
    HexJoinCons(a, [b, c]);
    assert [a] + [b, c] == [a, b, c];
  }

  lemma HexJoin4(a: byte, b: byte, c: byte, d: byte, ha: string, hb: string, hc: string, hd: string)
    requires HexByte(a) == ha && HexByte(b) == hb && HexByte(c) == hc && HexByte(d) == hd
    ensures HexJoin([a, b, c, d]) == ha + "_" + hb + "_" + hc + "_" + hd
  {
    HexJoin3(b, c, d, hb, hc, hd);
    HexJoinCons(a, [b, c, d]);
    assert [a] + [b, c, d] == [a, b, c, d];
  }

  lemma HexJoin5(a: byte, b: byte, c: byte, d: byte, e: byte,
                 ha: string, hb: string, hc: string, hd: string, he: string)
    requires HexByte(a) == ha && HexByte(b) == hb && HexByte(c) == hc && HexByte(d) == hd && HexByte(e) == he
    ensures HexJoin([a, b, c, d, e]) == ha + "_" + hb + "_" + hc + "_" + hd + "_" + he
  {
    HexJoin4(b, c, d, e, hb, hc, hd, he);
    HexJoinCons(a, [b, c, d, e]);
    assert [a] + [b, c, d, e] == [a, b, c, d, e];
  }

  lemma SymbolSpells2()
    ensures SpellsPattern(MOV_RSP_RDI)
  {
    HexJoin4(0x48, 0x8b, 0x3c, 0x24, "48", "8b", "3c", "24");
  }

  lemma SymbolSpells3()
    ensures SpellsPattern(POP_POP_RET)
  {
    HexJoin3(0x5a, 0x5e, 0xc3, "5a", "5e", "c3");
  }

  lemma SymbolSpells4()
    ensures SpellsPattern(MOV_NEG)
  {
    HexJoin4(0x89, 0xc2, 0xf7, 0xda, "89", "c2", "f7", "da");
  }

  lemma SymbolSpells5()
    ensures SpellsPattern(NOP_NOP_NOP)
  {
    HexJoin3(0x90, 0x90, 0x90, "90", "90", "90");
  }

  lemma SymbolSpells6()
    ensures SpellsPattern(MOV_1_RDX)
  {
    HexJoin5(0xba, 0x01, 0x00, 0x00, 0x00, "ba", "01", "00", "00", "00");
  }

  lemma SymbolSpells7()
    ensures SpellsPattern(MOV_XOR)
  {
    HexJoin4(0x89, 0xc1, 0x31, 0xd2, "89", "c1", "31", "d2");
  }

  /** The four `ret`-prefixed patterns are exactly the last four entries, and
      all share one trampoline. */
  lemma RetPrefixedShareSymbol()
    ensures forall i :: 0 <= i < |SYSCALL_HOOKS| ==>
      (SYSCALL_HOOKS[i].instructions[0] == 0xc3 <==> 8 <= i)
    ensures forall i :: 8 <= i < |SYSCALL_HOOKS| ==>
      SYSCALL_HOOKS[i].symbol == "_syscall_hook_trampoline_c3_nop"
  {
  }

  /** The `struct syscall_patch_hook` record for a hook bound to a trampoline
      at `address`: the pattern is zero-padded to 14 bytes. */
  function ToRecord(h: SyscallPatchHook, address: u64): (r: SyscallBuf.PatchHookRecord)
    requires |h.instructions| <= 14
    ensures SyscallBuf.ValidRecord(r)
    ensures r.nextInstructionLength == |h.instructions|
    ensures r.nextInstructionBytes[..r.nextInstructionLength] == h.instructions
    ensures r.isMultiInstruction == if h.isMulti then 1 else 0
    ensures forall i :: |h.instructions| <= i < 14 ==> r.nextInstructionBytes[i] == 0
    ensures r.hookAddress == address
  {
    var pad := seq(14 - |h.instructions|, _ => 0);
    SyscallBuf.PatchHookRecord(if h.isMulti then 1 else 0, |h.instructions|, h.instructions + pad, address)
  }

  /** Every catalogue hook fits the record, and the record's 24-byte image
      decodes back to the hook's flag, pattern and address. */
  lemma CatalogueRecordsRoundTrip(i: nat, address: u64)
    requires i < |SYSCALL_HOOKS|
    ensures |SYSCALL_HOOKS[i].instructions| <= 14
    ensures
      var r := ToRecord(SYSCALL_HOOKS[i], address);
      var d := SyscallBuf.DecodePatchHook(SyscallBuf.EncodePatchHook(r));
      && d.nextInstructionBytes[..d.nextInstructionLength] == SYSCALL_HOOKS[i].instructions
      && (d.isMultiInstruction == 1) == SYSCALL_HOOKS[i].isMulti
      && d.hookAddress == address
  {
    PatternLengths();
    SyscallBuf.PatchHookRoundTrip(ToRecord(SYSCALL_HOOKS[i], address));
  }
}
