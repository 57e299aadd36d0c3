/** The shared-page contract between the injected runtime and the tracer
    (src/syscallbuf.h): the two fixed page addresses, the two sentinel entry
    points, and the binary layouts of `struct syscall_info` and
    `struct syscall_patch_hook` under the x86-64 C ABI. */
module SyscallBuf {
  import opened Bytes

  const PAGE_SIZE: nat := 0x1000

  const PRELOAD_PAGE_ADDR: u64 := 0x7000_0000
  const PRELOAD_THREAD_LOCALS_ADDR: u64 := 0x7000_1000

  /** Entry points in the preload page that mean "run untraced" and
      "force traced". */
  const SYSCALL_UNTRACED: u64 := PRELOAD_PAGE_ADDR + 0
  const SYSCALL_TRACED: u64 := PRELOAD_PAGE_ADDR + 4

  predicate PageAligned(addr: int)
  {
    addr % PAGE_SIZE == 0
  }

  /** `addr` lies in the page that starts at `page`. */
  predicate InPage(addr: int, page: int)
  {
    page <= addr < page + PAGE_SIZE
  }

  /** Both reserved pages are page-aligned and the thread-locals page is the
      page right after the preload page, so the two never overlap. */
  lemma FixedAddressContract()
    ensures PageAligned(PRELOAD_PAGE_ADDR) && PageAligned(PRELOAD_THREAD_LOCALS_ADDR)
    ensures PRELOAD_THREAD_LOCALS_ADDR == PRELOAD_PAGE_ADDR + PAGE_SIZE
    ensures forall a :: InPage(a, PRELOAD_PAGE_ADDR) ==> !InPage(a, PRELOAD_THREAD_LOCALS_ADDR)
  {
  }

  /** The two sentinels differ and both point into the preload page. */
  lemma SentinelsInPreloadPage()
    ensures SYSCALL_UNTRACED != SYSCALL_TRACED
    ensures InPage(SYSCALL_UNTRACED, PRELOAD_PAGE_ADDR)
    ensures InPage(SYSCALL_TRACED, PRELOAD_PAGE_ADDR)
  {
  }

  // ---------------------------------------------------------------------
  // C struct layout (x86-64 System V): each field starts at the next
  // multiple of its alignment, and the size is rounded up to the largest
  // alignment.

  datatype CField = CField(size: nat, align: nat)

  predicate WellFormed(fields: seq<CField>)
  {
    forall i :: 0 <= i < |fields| ==> fields[i].align > 0
  }

  /** The least multiple of `a` at or above `x`. */
  function AlignUp(x: nat, a: nat): nat
    requires a > 0
  {
    if x % a == 0 then x else x + (a - x % a)
  }

  /** Offsets of the fields when the first one would start at `at`. */
  function OffsetsFrom(fields: seq<CField>, at: nat): (offs: seq<nat>)
    requires WellFormed(fields)
    ensures |offs| == |fields|
    decreases |fields|
  {
    if |fields| == 0 then []
    else
      var o := AlignUp(at, fields[0].align);
      [o] + OffsetsFrom(fields[1..], o + fields[0].size)
  }

  function Offsets(fields: seq<CField>): seq<nat>
    requires WellFormed(fields)
  {
    OffsetsFrom(fields, 0)
  }

  function MaxAlign(fields: seq<CField>): (m: nat)
    requires WellFormed(fields)
    ensures m > 0
    ensures forall i :: 0 <= i < |fields| ==> fields[i].align <= m
  {
    if |fields| == 0 then 1
    else
      var rest := MaxAlign(fields[1..]);
      if fields[0].align > rest then fields[0].align else rest
  }

  function StructSize(fields: seq<CField>): nat
    requires WellFormed(fields)
  {
    if |fields| == 0 then 0
    else
      var offs := Offsets(fields);
      AlignUp(offs[|fields| - 1] + fields[|fields| - 1].size, MaxAlign(fields))
  }

  /** No field is preceded by padding and there is no tail padding: the
      fields are packed back to back. */
  predicate PaddingFree(fields: seq<CField>)
    requires WellFormed(fields)
  {
    var offs := Offsets(fields);
    && (forall i :: 0 < i < |fields| ==> offs[i] == offs[i - 1] + fields[i - 1].size)
    && StructSize(fields) == SumSizes(fields)
  }

  function SumSizes(fields: seq<CField>): nat
  {
    if |fields| == 0 then 0 else fields[0].size + SumSizes(fields[1..])
  }

  /** `struct syscall_info { unsigned long no; unsigned long args[6]; }` */
  const SyscallInfoFields: seq<CField> := [CField(8, 8), CField(6 * 8, 8)]

  /** `struct syscall_patch_hook`: two `uint8_t`, `uint8_t[14]`, `uint64_t`. */
  const PatchHookFields: seq<CField> := [CField(1, 1), CField(1, 1), CField(14, 1), CField(8, 8)]

  /** One number word then six argument words: 7 x 8 = 56 bytes, no padding. */
  lemma SyscallInfoLayout()
    ensures WellFormed(SyscallInfoFields)
    ensures Offsets(SyscallInfoFields) == [0, 8]
    ensures StructSize(SyscallInfoFields) == 7 * 8
    ensures PaddingFree(SyscallInfoFields)
  {
    assert Offsets(SyscallInfoFields) == [0, 8];
  }

  /** Fields at 0, 1, 2 and 16; `hook_address` is 8-aligned with nothing in
      front of it, so the record is exactly 24 bytes. */
  lemma PatchHookLayout()
    ensures WellFormed(PatchHookFields)
    ensures Offsets(PatchHookFields) == [0, 1, 2, 16]
    ensures Offsets(PatchHookFields)[3] % 8 == 0
    ensures StructSize(PatchHookFields) == 24
    ensures PaddingFree(PatchHookFields)
  {
    assert Offsets(PatchHookFields) == [0, 1, 2, 16];
  }

  // ---------------------------------------------------------------------
  // Wire formats.

  type Args = a: seq<u64> | |a| == 6 witness [0, 0, 0, 0, 0, 0]

  /** A syscall descriptor: its number and six argument words. */
  datatype SyscallInfo = SyscallInfo(no: u64, args: Args)

  function EncodeWords(ws: seq<u64>): (bs: seq<byte>)
    ensures |bs| == 8 * |ws|
  {
    if |ws| == 0 then [] else WordOf(ws[0]) + EncodeWords(ws[1..])
  }

  function DecodeWords(bs: seq<byte>): (ws: seq<u64>)
    requires |bs| % 8 == 0
    ensures |ws| == |bs| / 8
    decreases |bs|
  {
    if |bs| == 0 then [] else [WordValue(bs[..8])] + DecodeWords(bs[8..])
  }

  lemma {:induction false} WordsRoundTrip(ws: seq<u64>)
    ensures DecodeWords(EncodeWords(ws)) == ws
  {
    if |ws| > 0 {
      var bs := EncodeWords(ws);
      assert bs[..8] == WordOf(ws[0]);
      assert bs[8..] == EncodeWords(ws[1..]);
      WordRoundTrip(ws[0], WordOf(0));
      WordsRoundTrip(ws[1..]);
    }
  }

  /** The 56-byte image of a descriptor in memory. */
  function EncodeSyscallInfo(info: SyscallInfo): (bs: seq<byte>)
    ensures |bs| == StructSize(SyscallInfoFields)
  {
    SyscallInfoLayout();
    EncodeWords([info.no] + info.args)
  }

  function DecodeSyscallInfo(bs: seq<byte>): SyscallInfo
    requires |bs| == 56
  {
    var ws := DecodeWords(bs);
    SyscallInfo(ws[0], ws[1..])
  }

  /** A consumer that reads a descriptor's bytes gets back exactly the number
      and six arguments that were written; the number sits at offset 0 and
      argument k at offset 8 + 8k. */
  lemma SyscallInfoRoundTrip(info: SyscallInfo)
    ensures |EncodeSyscallInfo(info)| == 56
    ensures DecodeSyscallInfo(EncodeSyscallInfo(info)) == info
  {
    SyscallInfoLayout();
    WordsRoundTrip([info.no] + info.args);
    assert ([info.no] + info.args)[1..] == info.args;
  }

  /** A patch-hook record as the injected runtime sees it. */
  datatype PatchHookRecord = PatchHookRecord(
    isMultiInstruction: byte,
    nextInstructionLength: byte,
    nextInstructionBytes: seq<byte>,
    hookAddress: u64)

  predicate ValidRecord(r: PatchHookRecord)
  {
    |r.nextInstructionBytes| == 14
  }

  function EncodePatchHook(r: PatchHookRecord): (bs: seq<byte>)
    requires ValidRecord(r)
    ensures |bs| == StructSize(PatchHookFields)
  {
    PatchHookLayout();
    [r.isMultiInstruction, r.nextInstructionLength] + r.nextInstructionBytes + WordOf(r.hookAddress)
  }

  function DecodePatchHook(bs: seq<byte>): (r: PatchHookRecord)
    requires |bs| == 24
    ensures ValidRecord(r)
  {
    PatchHookRecord(bs[0], bs[1], bs[2..16], WordValue(bs[16..24]))
  }

  /** The 24-byte image decodes back to the record it was made from. */
  lemma PatchHookRoundTrip(r: PatchHookRecord)
    requires ValidRecord(r)
    ensures |EncodePatchHook(r)| == 24
    ensures DecodePatchHook(EncodePatchHook(r)) == r
  {
    PatchHookLayout();
    var bs := EncodePatchHook(r);
    assert bs[2..16] == r.nextInstructionBytes;
    assert bs[16..24] == WordOf(r.hookAddress);
    WordRoundTrip(r.hookAddress, WordOf(0));
  }
}
