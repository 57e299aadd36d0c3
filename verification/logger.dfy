/** The tool logger of tools_helper/src/logger.rs.

    Log text goes into a fixed 16384-byte circular buffer; whenever a
    piece of text contains a newline, everything up to and including its
    last newline is drained to the log descriptor and the rest stays
    buffered. The buffer's state is its byte array, the `begin` and `end`
    indices and an `is_empty` flag (needed because `begin == end` is both
    "empty" and "full"). The spinlock, the raw pointer copies and the
    `write` syscall are outside the model: a drain returns the byte runs it
    would write, in order. */
module Logger {
  import opened Wrappers
  import opened Bytes

  const RING_BUFF_SIZE: nat := 16384

  /** The log descriptor the buffer drains to (standard error). */
  const LOG_FD: i32 := 2

  /** Where the tracer stores the log level, in the thread-locals page. */
  const LOG_LEVEL_SLOT: u64 := 0x7000_1038

  const NEWLINE: byte := 0x0a

  datatype RingBuffer = RingBuffer(
    bytes: seq<byte>,
    size: int,
    begin: int,
    end: int,
    isEmpty: bool,
    rawfd: i32)

  /** The index invariants: both indices inside the array (`end` strictly,
      as `update_buffer` asserts), and an empty buffer has nothing between
      them. */
  predicate Valid(rb: RingBuffer)
  {
    rb.size == RING_BUFF_SIZE && |rb.bytes| == rb.size
    && 0 <= rb.begin < rb.size && 0 <= rb.end < rb.size
    && (rb.isEmpty ==> rb.begin == rb.end)
  }

  /** The static initial buffer. */
  const INITIAL_BUFFER: RingBuffer :=
    RingBuffer(seq(RING_BUFF_SIZE, _ => 0), RING_BUFF_SIZE, 0, 0, true, LOG_FD)

  lemma InitialBufferIsValid()
    ensures Valid(INITIAL_BUFFER) && Pending(INITIAL_BUFFER) == []
    ensures INITIAL_BUFFER.begin == 0
  {
  }

  // ---------------------------------------------------------------------
  // What the buffer holds

  /** How many bytes wait to be drained: from `begin` up to `end`, going
      round the end of the array when `end` is not above `begin`. */
  function PendingLen(rb: RingBuffer): (n: nat)
    requires Valid(rb)
    ensures n <= rb.size
    ensures rb.isEmpty <==> n == 0
  {
    if rb.isEmpty then 0
    else if rb.end > rb.begin then rb.end - rb.begin
    else rb.size - rb.begin + rb.end
  }

  /** The bytes waiting to be drained, oldest first: the `k`-th sits `k`
      places after `begin`, going round. */
  function Pending(rb: RingBuffer): (p: seq<byte>)
    requires Valid(rb)
    ensures |p| == PendingLen(rb)
  {
    seq(PendingLen(rb), k requires 0 <= k < PendingLen(rb) => rb.bytes[(rb.begin + k) % RING_BUFF_SIZE])
  }

  /** The pending run ends at `end`. */
  lemma PendingAt(rb: RingBuffer)
    requires Valid(rb)
    ensures forall k :: 0 <= k < PendingLen(rb) ==> Pending(rb)[k] == rb.bytes[(rb.begin + k) % RING_BUFF_SIZE]
    ensures rb.end == (rb.begin + PendingLen(rb)) % RING_BUFF_SIZE
  {
  }

  /** The pending bytes are one run of the array, from `begin` to `end`, or
      two, from `begin` to the end of the array and from its start to `end`. */
  lemma PendingRuns(rb: RingBuffer)
    requires Valid(rb)
    ensures rb.isEmpty ==> Pending(rb) == []
    ensures !rb.isEmpty && rb.end > rb.begin ==> Pending(rb) == rb.bytes[rb.begin..rb.end]
    ensures !rb.isEmpty && rb.end <= rb.begin ==> Pending(rb) == rb.bytes[rb.begin..] + rb.bytes[..rb.end]
  {
    if !rb.isEmpty {
      var runs := if rb.end > rb.begin then rb.bytes[rb.begin..rb.end] else rb.bytes[rb.begin..] + rb.bytes[..rb.end];
      forall k | 0 <= k < PendingLen(rb)
        ensures Pending(rb)[k] == runs[k]
      {
        if rb.begin + k < RING_BUFF_SIZE {
          assert (rb.begin + k) % RING_BUFF_SIZE == rb.begin + k;
        } else {
          assert (rb.begin + k) % RING_BUFF_SIZE == rb.begin + k - RING_BUFF_SIZE;
        }
      }
    }
  }

  // ---------------------------------------------------------------------
  // Appending

  /** Position `p` is among the `n` positions from `end` on, going round. */
  predicate InWindow(rb: RingBuffer, n: nat, p: int)
  {
    (p - rb.end) % RING_BUFF_SIZE < n
  }

  /** The array of `rb` with `input` written from `end` on, going round:
      a position in the window holds the input byte as far into `input`
      as the position is past `end`; every other position keeps its byte. */
  function Written(rb: RingBuffer, input: seq<byte>): (bytes: seq<byte>)
    requires Valid(rb) && |input| <= rb.size
    ensures |bytes| == rb.size
  {
    seq(RING_BUFF_SIZE, p requires 0 <= p < RING_BUFF_SIZE =>
      if InWindow(rb, |input|, p) then input[(p - rb.end) % RING_BUFF_SIZE] else rb.bytes[p])
  }

  /** `update_buffer`: copy `input` in at `end`, wrapping round to the
      start of the array when it does not fit before the end. `n` must not
      exceed the size. */
  function UpdateBuffer(rb: RingBuffer, input: seq<byte>, updateBegin: bool): (r: RingBuffer)
    requires Valid(rb) && |input| <= rb.size
    ensures Valid(r)
    ensures |input| == 0 ==> r == rb
    ensures |input| > 0 ==> !r.isEmpty
    ensures r.end == (rb.end + |input|) % RING_BUFF_SIZE
    ensures r.size == rb.size && r.rawfd == rb.rawfd
    ensures !updateBegin ==> r.begin == rb.begin
    ensures updateBegin && |input| > 0 ==> r.begin == rb.end
  {
    var n := |input|;
    if n == 0 then rb
    else
      var begin := if updateBegin then rb.end else rb.begin;
      var end := if rb.end + n < rb.size then rb.end + n else n - (rb.size - rb.end);
      RingBuffer(Written(rb, input), rb.size, begin, end, false, rb.rawfd)
  }

  /** `k` places after `e`, going round, is `k` places after `e`. */
  lemma ModBack(e: int, k: int)
    requires 0 <= e < RING_BUFF_SIZE && 0 <= k < RING_BUFF_SIZE
    ensures ((e + k) % RING_BUFF_SIZE - e) % RING_BUFF_SIZE == k
  {
    if e + k >= RING_BUFF_SIZE {
      assert (e + k) % RING_BUFF_SIZE == e + k - RING_BUFF_SIZE;
    }
  }

  /** `update_buffer` writes `input` from `end` on, going round, and keeps
      every other byte of the array. */
  lemma UpdatePlaces(rb: RingBuffer, input: seq<byte>, updateBegin: bool)
    requires Valid(rb) && |input| <= rb.size
    ensures var r := UpdateBuffer(rb, input, updateBegin);
      && (forall k :: 0 <= k < |input| ==> r.bytes[(rb.end + k) % RING_BUFF_SIZE] == input[k])
      && (forall p :: 0 <= p < rb.size && !InWindow(rb, |input|, p) ==> r.bytes[p] == rb.bytes[p])
  {
    forall k | 0 <= k < |input|
      ensures UpdateBuffer(rb, input, updateBegin).bytes[(rb.end + k) % RING_BUFF_SIZE] == input[k]
    {
      ModBack(rb.end, k);
    }
  }

  /** `core::ptr::copy_nonoverlapping` into the array: `src` overwrites
      `dst` from position `at`, one byte at a time. */
  method CopyNonoverlapping(dst: seq<byte>, at: nat, src: seq<byte>) returns (r: seq<byte>)
    requires at + |src| <= |dst|
    ensures |r| == |dst|
    ensures forall p :: 0 <= p < |dst| ==> r[p] == if at <= p < at + |src| then src[p - at] else dst[p]
  {
    r := dst;
    var k := 0;
    while k < |src|
      invariant 0 <= k <= |src|
      invariant |r| == |dst|
      invariant forall p :: 0 <= p < |dst| ==> r[p] == if at <= p < at + k then src[p - at] else dst[p]
    {
      r := r[at + k := src[k]];
      k := k + 1;
    }
  }

  /** The one copy of the non-wrapping case writes the window. */
  lemma OneCopyWritten(rb: RingBuffer, input: seq<byte>, bytes: seq<byte>)
    requires Valid(rb) && rb.end + |input| < rb.size && |bytes| == rb.size
    requires forall p :: 0 <= p < rb.size ==>
      bytes[p] == if rb.end <= p < rb.end + |input| then input[p - rb.end] else rb.bytes[p]
    ensures bytes == Written(rb, input)
  {
    forall p | 0 <= p < rb.size
      ensures bytes[p] == Written(rb, input)[p]
    {
      if p < rb.end {
        assert (p - rb.end) % RING_BUFF_SIZE == p - rb.end + RING_BUFF_SIZE;
      } else {
        assert (p - rb.end) % RING_BUFF_SIZE == p - rb.end;
      }
    }
  }

  /** The two copies of the wrapping case, the head of `input` to the end
      of the array and the tail to its start, write the window. */
  lemma TwoCopiesWritten(rb: RingBuffer, input: seq<byte>, first: seq<byte>, second: seq<byte>)
    requires Valid(rb) && |input| <= rb.size && rb.end + |input| >= rb.size
    requires |first| == rb.size && |second| == rb.size
    requires forall p :: 0 <= p < rb.size ==>
      first[p] == if rb.end <= p < rb.end + (rb.size - rb.end) then input[..rb.size - rb.end][p - rb.end] else rb.bytes[p]
    requires forall p :: 0 <= p < rb.size ==>
      second[p] == if 0 <= p < 0 + (|input| - (rb.size - rb.end)) then input[rb.size - rb.end..][p - 0] else first[p]
    ensures second == Written(rb, input)
  {
    var i := rb.size - rb.end;
    var j := |input| - i;
    forall p | 0 <= p < rb.size
      ensures second[p] == Written(rb, input)[p]
    {
      if p < rb.end {
        assert (p - rb.end) % RING_BUFF_SIZE == p + i;
      } else {
        assert (p - rb.end) % RING_BUFF_SIZE == p - rb.end;
      }
    }
  }

  /** `update_buffer` as the source performs it, with one copy in the
      non-wrapping case and two in the wrapping case; it computes the
      buffer `UpdateBuffer` describes. */
  method UpdateBufferByCopy(rb: RingBuffer, input: seq<byte>, updateBegin: bool) returns (r: RingBuffer)
    requires Valid(rb) && |input| <= rb.size
    ensures r == UpdateBuffer(rb, input, updateBegin)
  {
    var n := |input|;
    if n == 0 {
      return rb;
    }
    r := rb.(isEmpty := false);
    if rb.end + n < rb.size {
      var bytes := CopyNonoverlapping(rb.bytes, rb.end, input);
      OneCopyWritten(rb, input, bytes);
      r := r.(bytes := bytes);
      if updateBegin {
        r := r.(begin := rb.end);
      }
      r := r.(end := rb.end + n);
    } else {
      var i := rb.size - rb.end;
      var j := n - i;
      var first := CopyNonoverlapping(rb.bytes, rb.end, input[..i]);
      var bytes := CopyNonoverlapping(first, 0, input[i..]);
      TwoCopiesWritten(rb, input, first, bytes);
      r := r.(bytes := bytes);
      if updateBegin {
        r := r.(begin := rb.end);
      }
      r := r.(end := j);
    }
  }

  /** When the pending text and `input` fit together, appending leaves
      exactly the old pending text followed by `input` pending: nothing is
      lost, reordered or overwritten. */
  lemma UpdateAppends(rb: RingBuffer, input: seq<byte>)
    requires Valid(rb) && PendingLen(rb) + |input| <= rb.size
    ensures Pending(UpdateBuffer(rb, input, false)) == Pending(rb) + input
  {
  }

  // ---------------------------------------------------------------------
  // Draining

  /** A write of `len` bytes of the array starting at `offset`. */
  datatype Span = Span(offset: int, len: int)

  /** The writes of `flush_buffer`, as its lengths were evidently meant:
      the run from `begin` to `end`, or (wrapped) from `begin` to the end of
      the array and then from the start to `end`. */
  function FlushSpans(rb: RingBuffer): (spans: seq<Span>)
    requires Valid(rb) && !rb.isEmpty
    ensures forall i :: 0 <= i < |spans| ==>
      0 <= spans[i].offset && 0 <= spans[i].len && spans[i].offset + spans[i].len <= rb.size
  {
    if rb.end > rb.begin then [Span(rb.begin, rb.end - rb.begin)]
    else [Span(rb.begin, rb.size - rb.begin), Span(0, rb.end)]
  }

  /** The writes of `flush_buffer` as written: in the wrapped case the first
      length is `size - end` and the second `size - (begin - end) - i`. */
  function FlushSpansAsWritten(rb: RingBuffer): (spans: seq<Span>)
    requires Valid(rb) && !rb.isEmpty
    ensures |spans| == |FlushSpans(rb)|
  {
    if rb.end > rb.begin then [Span(rb.begin, rb.end - rb.begin)]
    else
      var i := rb.size - rb.end;
      var j := rb.size - (rb.begin - rb.end) - i;
      [Span(rb.begin, i), Span(0, j)]
  }

  /** With `begin = 10` and `end = 5` the first write as written reads five
      bytes past the end of the array. */
  lemma FlushAsWrittenOverruns()
    ensures var rb := RingBuffer(seq(RING_BUFF_SIZE, _ => 0), RING_BUFF_SIZE, 10, 5, false, LOG_FD);
      Valid(rb) && FlushSpansAsWritten(rb)[0].offset + FlushSpansAsWritten(rb)[0].len == rb.size + 5
  {
  }

  /** The two agree whenever `begin` is 0, which every caller keeps it at. */
  lemma FlushAsWrittenAgreesAtBeginZero(rb: RingBuffer)
    requires Valid(rb) && !rb.isEmpty && rb.begin == 0
    ensures FlushSpansAsWritten(rb) == FlushSpans(rb)
  {
  }

  function Emit(rb: RingBuffer, spans: seq<Span>): (writes: seq<seq<byte>>)
    requires forall i :: 0 <= i < |spans| ==>
      0 <= spans[i].offset && 0 <= spans[i].len && spans[i].offset + spans[i].len <= |rb.bytes|
    ensures |writes| == |spans|
    ensures forall i :: 0 <= i < |spans| ==> |writes[i]| == spans[i].len
  {
    seq(|spans|, i requires 0 <= i < |spans| => rb.bytes[spans[i].offset..spans[i].offset + spans[i].len])
  }

  function Concat(ws: seq<seq<byte>>): seq<byte>
  {
    if |ws| == 0 then [] else ws[0] + Concat(ws[1..])
  }

  datatype FlushOutcome = FlushOutcome(buffer: RingBuffer, writes: seq<seq<byte>>)

  /** `flush_buffer` (with the wrapped lengths corrected): drain everything
      pending, then mark the buffer empty at `begin`. */
  function FlushBuffer(rb: RingBuffer): (r: FlushOutcome)
    requires Valid(rb)
    ensures Valid(r.buffer) && r.buffer.isEmpty
    ensures r.buffer.begin == rb.begin && r.buffer.end == rb.begin
    ensures r.buffer.bytes == rb.bytes && r.buffer.size == rb.size && r.buffer.rawfd == rb.rawfd
    ensures rb.isEmpty ==> r.writes == [] && r.buffer == rb
    ensures !rb.isEmpty && rb.end > rb.begin ==> r.writes == [rb.bytes[rb.begin..rb.end]]
    ensures !rb.isEmpty && rb.end <= rb.begin ==> r.writes == [rb.bytes[rb.begin..], rb.bytes[..rb.end]]
  {
    if rb.isEmpty then FlushOutcome(rb, [])
    else
      var writes := Emit(rb, FlushSpans(rb));
      assert rb.end <= rb.begin ==> writes == [rb.bytes[rb.begin..], rb.bytes[..rb.end]] by {
        if rb.end <= rb.begin {
          var spans := FlushSpans(rb);
          assert spans == [Span(rb.begin, rb.size - rb.begin), Span(0, rb.end)];
          assert writes[0] == rb.bytes[rb.begin..rb.begin + (rb.size - rb.begin)];
          assert writes[1] == rb.bytes[0..0 + rb.end];
          assert rb.bytes[rb.begin..rb.begin + (rb.size - rb.begin)] == rb.bytes[rb.begin..];
          assert rb.bytes[0..0 + rb.end] == rb.bytes[..rb.end];
          assert |writes| == 2;
        }
      }
      FlushOutcome(rb.(end := rb.begin, isEmpty := true), writes)
  }

  lemma ConcatTwo(a: seq<byte>, b: seq<byte>)
    ensures Concat([a, b]) == a + b
  {
    assert [a, b][1..] == [b];
    assert [b][1..] == [];
    assert Concat([b]) == b + Concat([]);
  }

  /** Draining writes out exactly the pending text, in order. */
  lemma FlushEmitsPending(rb: RingBuffer)
    requires Valid(rb)
    ensures Concat(FlushBuffer(rb).writes) == Pending(rb)
    ensures Pending(FlushBuffer(rb).buffer) == []
  {
    var ws := FlushBuffer(rb).writes;
    PendingRuns(rb);
    if !rb.isEmpty {
      if rb.end > rb.begin {
        assert Concat(ws) == ws[0] + Concat([]);
      } else {
        ConcatTwo(rb.bytes[rb.begin..], rb.bytes[..rb.end]);
      }
    }
  }

  // ---------------------------------------------------------------------
  // Writing text

  /** `memrchr('\n', s)`: the position of the last newline. */
  function LastNewline(s: seq<byte>): (r: Option<nat>)
    ensures r.None? <==> NEWLINE !in s
    ensures r.Some? ==> r.value < |s| && s[r.value] == NEWLINE
    ensures r.Some? ==> forall q :: r.value < q < |s| ==> s[q] != NEWLINE
  {
    if |s| == 0 then None
    else if s[|s| - 1] == NEWLINE then Some(|s| - 1)
    else
      var r := LastNewline(s[..|s| - 1]);
      assert s == s[..|s| - 1] + [s[|s| - 1]];
      r
  }

  /** The calls `update_buffer` makes in `ring_buffer_write` each carry at
      most `size` bytes (it asserts so). */
  predicate WriteFits(rb: RingBuffer, s: seq<byte>)
  {
    match LastNewline(s)
    case None => |s| <= rb.size
    case Some(p) => p + 1 <= rb.size && |s| - (p + 1) <= rb.size
  }

  datatype WriteOutcome = WriteOutcome(buffer: RingBuffer, writes: seq<seq<byte>>)

  /** `ring_buffer_write` (with the second segment starting where the first
      ends): text without a newline is only buffered; otherwise the text
      through the last newline is buffered and everything is drained, then
      the rest is buffered. */
  function RingBufferWrite(rb: RingBuffer, s: seq<byte>): (r: WriteOutcome)
    requires Valid(rb) && WriteFits(rb, s)
    ensures Valid(r.buffer)
    ensures r.buffer.begin == rb.begin
    ensures NEWLINE !in s ==> r.writes == []
  {
    match LastNewline(s)
    case None => WriteOutcome(UpdateBuffer(rb, s, false), [])
    case Some(p) =>
      var i := p + 1;
      var first := UpdateBuffer(rb, s[..i], false);
      var flushed := FlushBuffer(first);
      WriteOutcome(UpdateBuffer(flushed.buffer, s[i..], false), flushed.writes)
  }

  /** Text without a newline is appended whole and nothing is drained. */
  lemma WriteWithoutNewline(rb: RingBuffer, s: seq<byte>)
    requires Valid(rb) && WriteFits(rb, s) && NEWLINE !in s
    requires PendingLen(rb) + |s| <= rb.size
    ensures RingBufferWrite(rb, s).writes == []
    ensures Pending(RingBufferWrite(rb, s).buffer) == Pending(rb) + s
  {
    UpdateAppends(rb, s);
  }

  /** Text with a newline drains the old pending text followed by the text
      through its last newline, and leaves exactly the rest pending. */
  lemma WriteWithNewline(rb: RingBuffer, s: seq<byte>)
    requires Valid(rb) && WriteFits(rb, s) && NEWLINE in s
    requires PendingLen(rb) + LastNewline(s).value + 1 <= rb.size
    ensures var i := LastNewline(s).value + 1;
      Concat(RingBufferWrite(rb, s).writes) == Pending(rb) + s[..i]
      && Pending(RingBufferWrite(rb, s).buffer) == s[i..]
  {
    var i := LastNewline(s).value + 1;
    var first := UpdateBuffer(rb, s[..i], false);
    var flushed := FlushBuffer(first);
    var out := RingBufferWrite(rb, s);
    assert out.writes == flushed.writes && out.buffer == UpdateBuffer(flushed.buffer, s[i..], false);
    UpdateAppends(rb, s[..i]);
    FlushEmitsPending(first);
    assert PendingLen(flushed.buffer) == 0;
    UpdateAppends(flushed.buffer, s[i..]);
  }

  /** Where the second `update_buffer` of `ring_buffer_write` reads from and
      how much: as written it starts at `1 + i` (one past the first
      segment's end) with length `len - i`. */
  function SecondSegmentAsWritten(s: seq<byte>): (r: Span)
    requires NEWLINE in s
  {
    var i := LastNewline(s).value + 1;
    Span(1 + i, |s| - i)
  }

  /** ... and as intended, starting right after the newline. */
  function SecondSegment(s: seq<byte>): (r: Span)
    requires NEWLINE in s
    ensures 0 <= r.offset && 0 <= r.len && r.offset + r.len == |s|
    ensures s[..r.offset] + s[r.offset..r.offset + r.len] == s
  {
    var i := LastNewline(s).value + 1;
    Span(i, |s| - i)
  }

  /** `ring_buffer_write` as written, where it is defined. The second copy
      reads `s[1 + i .. len + 1]`: whenever it copies anything it reads one
      byte past the end of `s`, so only the case where nothing follows the
      last newline is defined. */
  function RingBufferWriteAsWritten(rb: RingBuffer, s: seq<byte>): (r: Option<WriteOutcome>)
    requires Valid(rb) && WriteFits(rb, s)
    ensures r.Some? <==> NEWLINE !in s || s[|s| - 1] == NEWLINE
  {
    match LastNewline(s)
    case None => Some(WriteOutcome(UpdateBuffer(rb, s, false), []))
    case Some(p) =>
      var i := p + 1;
      var second := SecondSegmentAsWritten(s);
      if second.len == 0 then
        var first := UpdateBuffer(rb, s[..i], false);
        var flushed := FlushBuffer(first);
        Some(WriteOutcome(UpdateBuffer(flushed.buffer, [], false), flushed.writes))
      else None
  }

  /** For "a\nb" the second copy as written reads one byte past the end of
      the text (and skips the "b"). */
  lemma SecondSegmentOverruns()
    ensures var s: seq<byte> := [0x61, NEWLINE, 0x62];
      SecondSegmentAsWritten(s).offset + SecondSegmentAsWritten(s).len == |s| + 1
      && SecondSegment(s) == Span(2, 1)
      && RingBufferWriteAsWritten(INITIAL_BUFFER, s).None?
  {
    var s: seq<byte> := [0x61, NEWLINE, 0x62];
    assert s[..2] == [0x61, NEWLINE];
    assert LastNewline(s[..2]) == Some(1);
    assert LastNewline(s) == Some(1);
  }

  /** Where the as-written version is defined it agrees with the corrected
      one. */
  lemma AsWrittenAgreesWhenDefined(rb: RingBuffer, s: seq<byte>)
    requires Valid(rb) && WriteFits(rb, s)
    requires RingBufferWriteAsWritten(rb, s).Some?
    ensures RingBufferWriteAsWritten(rb, s) == Some(RingBufferWrite(rb, s))
  {
    if NEWLINE in s {
      var i := LastNewline(s).value + 1;
      assert s[i..] == [];
    }
  }

  lemma ShortTextFits(rb: RingBuffer, s: seq<byte>)
    requires |s| <= rb.size
    ensures WriteFits(rb, s)
  {
  }

  /** Every caller passes `update_begin = false`, so from the initial buffer
      `begin` stays 0 through any sequence of writes and drains. */
  function WriteAll(rb: RingBuffer, texts: seq<seq<byte>>): (r: RingBuffer)
    requires Valid(rb)
    requires forall i :: 0 <= i < |texts| ==> |texts[i]| <= RING_BUFF_SIZE
    ensures Valid(r) && r.begin == rb.begin
    decreases |texts|
  {
    if |texts| == 0 then rb
    else
      var s := texts[0];
      var rest := texts[1..];
      ShortTextFits(rb, s);
      var next := RingBufferWrite(rb, s).buffer;
      WriteAll(next, rest)
  }

  lemma BeginStaysZero(texts: seq<seq<byte>>)
    requires forall i :: 0 <= i < |texts| ==> |texts[i]| <= RING_BUFF_SIZE
    ensures Valid(INITIAL_BUFFER) && WriteAll(INITIAL_BUFFER, texts).begin == 0
  {
  }

  // ---------------------------------------------------------------------
  // Levels

  /** The `log` crate's levels, most severe first. */
  datatype Level = Error | Warn | Info | Debug | Trace

  /** `level as i64`: the crate numbers the levels 1 to 5. */
  function LevelValue(l: Level): (v: int)
    ensures 1 <= v <= 5
  {
    match l
    case Error => 1
    case Warn => 2
    case Info => 3
    case Debug => 4
    case Trace => 5
  }

  const LOG_LEVEL_STR: seq<string> := ["", "ERROR", "WARN", "INFO", "DEBUG", "TRACE"]

  /** `log_level_str`: the table entry at `level % 6`, which for every level
      is the level's own upper-case name. */
  function LogLevelStr(l: Level): (s: string)
    ensures s == LOG_LEVEL_STR[LevelValue(l)] && s != ""
  {
    LOG_LEVEL_STR[LevelValue(l) % 6]
  }

  /** Different levels print different names. */
  lemma LevelNamesDistinct(l1: Level, l2: Level)
    requires l1 != l2
    ensures LogLevelStr(l1) != LogLevelStr(l2)
  {
  }

  /** `log_enabled`, given the value read from the level slot. */
  function LogEnabled(stored: i64, l: Level): (r: bool)
    ensures stored <= 0 ==> !r
    ensures stored >= 5 ==> r
    ensures InitLevel(stored).Some? ==> (r <==> LevelValue(l) <= LevelValue(InitLevel(stored).value))
  {
    stored >= LevelValue(l)
  }

  /** The level mapping of `init`. */
  function InitLevel(stored: i64): (r: Option<Level>)
    ensures r.Some? <==> 1 <= stored <= 5
    ensures r.Some? ==> LevelValue(r.value) == stored
  {
    if stored == 1 then Some(Error)
    else if stored == 2 then Some(Warn)
    else if stored == 3 then Some(Info)
    else if stored == 4 then Some(Debug)
    else if stored == 5 then Some(Trace)
    else None
  }

  /** `init` inverts the numbering, and with a configured level a message
      is enabled exactly when it is at least as severe; with 0 (nothing
      configured) nothing is enabled. */
  lemma EnabledUpToConfiguredLevel(stored: i64, l: Level)
    ensures InitLevel(LevelValue(l)) == Some(l)
    ensures InitLevel(stored).Some? ==>
      (LogEnabled(stored, l) <==> LevelValue(l) <= LevelValue(InitLevel(stored).value))
    ensures stored <= 0 ==> !LogEnabled(stored, l)
  {
  }
}
