/** Two-pass assembly of an H.264 slice bitstream (src/h264.c:92-126) with the
    checks of src/codec-utils.c:3-54: validate and add up, reserve, then append. */
module SliceAssembly {
  import opened Basics
  import opened AppendableBuffers

  const OFFSET_BYTES: nat := 4
  const START_CODE: seq<Byte> := [0, 0, 1]

  /** A client buffer; its pointer may be null whatever its size says. */
  datatype ClientBuffer = NullBuffer(bytes: nat) | ClientBuffer(data: seq<Byte>)

  datatype Slice = Slice(offset: nat, size: nat)

  ghost predicate InRange(buf: ClientBuffer, s: Slice) {
    buf.ClientBuffer? && s.offset + s.size <= |buf.data|
  }

  ghost predicate AllInRange(buf: ClientBuffer, slices: seq<Slice>) {
    forall i :: 0 <= i < |slices| ==> InRange(buf, slices[i])
  }

  /** Bytes that the slices take with their start codes. */
  function Bytes(slices: seq<Slice>): nat {
    if slices == [] then 0 else Bytes(slices[..|slices| - 1]) + slices[|slices| - 1].size + 3
  }

  ghost function SliceBytes(buf: ClientBuffer, s: Slice): seq<Byte>
    requires InRange(buf, s)
  {
    buf.data[s.offset..s.offset + s.size]
  }

  /** A start code and the slice, for each slice in turn. */
  ghost function Assembled(buf: ClientBuffer, slices: seq<Slice>): (r: seq<Byte>)
    requires AllInRange(buf, slices)
    ensures |r| == Bytes(slices)
  {
    if slices == [] then []
    else
      var s := slices[|slices| - 1];
      Assembled(buf, slices[..|slices| - 1]) + (START_CODE + SliceBytes(buf, s))
  }

  /** Where each start code begins when the first one is at `base`. */
  ghost function Starts(base: nat, slices: seq<Slice>): (r: seq<nat>)
    ensures |r| == |slices|
  {
    if slices == [] then []
    else Starts(base, slices[..|slices| - 1]) + [base + Bytes(slices[..|slices| - 1])]
  }

  lemma {:induction false} BytesMonotone(slices: seq<Slice>, i: nat)
    requires i <= |slices|
    ensures Bytes(slices[..i]) <= Bytes(slices)
    ensures i < |slices| ==> Bytes(slices[..i]) + slices[i].size + 3 <= Bytes(slices)
    decreases |slices|
  {
    if i == |slices| {
      assert slices[..i] == slices;
    } else {
      var init := slices[..|slices| - 1];
      if i < |init| {
        BytesMonotone(init, i);
        assert init[..i] == slices[..i];
      } else {
        assert slices[..i] == init;
      }
    }
  }

  lemma {:induction false} StartOf(base: nat, slices: seq<Slice>, i: nat)
    requires i < |slices|
    ensures Starts(base, slices)[i] == base + Bytes(slices[..i])
    decreases |slices|
  {
    hide Bytes;
    var n := |slices| - 1;
    if i < n {
      StartOf(base, slices[..n], i);
      assert slices[..n][..i] == slices[..i];
    }
  }

  /** What was assembled before slice `i`, the slice, and what followed. */
  lemma {:induction false} AssembledSplits(buf: ClientBuffer, slices: seq<Slice>, i: nat) returns (rest: seq<Byte>)
    requires AllInRange(buf, slices) && i < |slices|
    ensures Assembled(buf, slices) ==
      Assembled(buf, slices[..i]) + (START_CODE + SliceBytes(buf, slices[i])) + rest
    decreases |slices|
  {
    hide InRange, SliceBytes;
    var n := |slices| - 1;
    if i == n {
      rest := [];
    } else {
      var more := AssembledSplits(buf, slices[..n], i);
      assert slices[..n][..i] == slices[..i];
      var last := START_CODE + SliceBytes(buf, slices[n]);
      rest := more + last;
      Assoc(Assembled(buf, slices[..i]) + (START_CODE + SliceBytes(buf, slices[i])), more, last);
    }
  }

  /** Reading the bitstream at a recorded offset finds the start code and the slice;
      the first begins behind what was there, each ends where the next begins, and
      the last ends the bitstream. */
  lemma StartsPointAtSlices(buf: ClientBuffer, slices: seq<Slice>, before: seq<Byte>, i: nat)
    requires AllInRange(buf, slices) && i < |slices|
    ensures buf.ClientBuffer?
    ensures var s := slices[i];
      var at := Starts(|before|, slices)[i];
      var all := before + Assembled(buf, slices);
      && at + 3 + s.size <= |all|
      && s.offset + s.size <= |buf.data|
      && all[at..at + 3] == [0, 0, 1]
      && all[at + 3..at + 3 + s.size] == buf.data[s.offset..s.offset + s.size]
      && (i == 0 ==> at == |before|)
      && at + 3 + s.size == if i + 1 < |slices| then Starts(|before|, slices)[i + 1] else |all|
  {
    SliceLength(buf, slices[i]);
    hide *;
    SliceStands(buf, slices, before, i);
    StartsMeet(buf, slices, before, i);
  }

  lemma SliceStands(buf: ClientBuffer, slices: seq<Slice>, before: seq<Byte>, i: nat)
    requires AllInRange(buf, slices) && i < |slices|
    ensures var at := Starts(|before|, slices)[i];
      var all := before + Assembled(buf, slices);
      && at + 3 + slices[i].size <= |all|
      && all[at..at + 3] == [0, 0, 1]
      && all[at + 3..at + 3 + slices[i].size] == SliceBytes(buf, slices[i])
  {
    SliceLength(buf, slices[i]);
    hide Starts, Bytes, Assembled, InRange, SliceBytes;
    var rest := AssembledSplits(buf, slices, i);
    StartOf(|before|, slices, i);
    Located(before, Assembled(buf, slices[..i]), START_CODE, SliceBytes(buf, slices[i]), rest);
  }

  lemma StartsMeet(buf: ClientBuffer, slices: seq<Slice>, before: seq<Byte>, i: nat)
    requires AllInRange(buf, slices) && i < |slices|
    ensures var starts, next := Starts(|before|, slices), Starts(|before|, slices)[i] + 3 + slices[i].size;
      && (i == 0 ==> starts[0] == |before|)
      && next == if i + 1 < |slices| then starts[i + 1] else |before + Assembled(buf, slices)|
  {
    hide Starts, Assembled, InRange;
    StartOf(|before|, slices, i);
    assert slices[..i + 1][..i] == slices[..i];
    if i + 1 < |slices| {
      StartOf(|before|, slices, i + 1);
    } else {
      assert slices[..i + 1] == slices;
    }
  }

  lemma SliceLength(buf: ClientBuffer, s: Slice)
    requires InRange(buf, s)
    ensures s.offset + s.size <= |buf.data| && |SliceBytes(buf, s)| == s.size
    ensures SliceBytes(buf, s) == buf.data[s.offset..s.offset + s.size]
  {
  }

  lemma Located<T>(before: seq<T>, part: seq<T>, code: seq<T>, body: seq<T>, rest: seq<T>)
    ensures var all := before + (part + (code + body) + rest);
      var at := |before| + |part|;
      && all[at..at + |code|] == code
      && all[at + |code|..at + |code| + |body|] == body
  {
  }

  // ---------------------------------------------------------- what is measured

  /** What the first pass adds for one slice: a 32-bit sum. */
  function Measure(s: Slice): nat {
    (s.size + 3) % TWO_32
  }

  function Measured(slices: seq<Slice>): nat {
    if slices == [] then 0 else Measured(slices[..|slices| - 1]) + Measure(slices[|slices| - 1])
  }

  /** The sizes of the source's 32-bit fields. */
  ghost predicate Typed(slices: seq<Slice>) {
    forall i :: 0 <= i < |slices| ==> slices[i].offset <= UINT32_MAX && slices[i].size <= UINT32_MAX
  }

  /** Room is left for every start code in 32 bits. */
  predicate NoWrap(slices: seq<Slice>) {
    forall i :: 0 <= i < |slices| ==> slices[i].size <= UINT32_MAX - 3
  }

  /** The overflow test of each step of the first pass. */
  ghost predicate SumFits(slices: seq<Slice>) {
    forall i :: 0 <= i < |slices| ==> Measured(slices[..i]) + slices[i].size + 3 <= SIZE_MAX
  }

  lemma {:induction false} MeasuredBound(slices: seq<Slice>)
    ensures Measured(slices) <= |slices| * UINT32_MAX
  {
    if slices != [] {
      MeasuredBound(slices[..|slices| - 1]);
    }
  }

  /** With a 32-bit slice count that test never fails. */
  lemma SumAlwaysFits(slices: seq<Slice>)
    requires Typed(slices) && |slices| <= UINT32_MAX
    ensures SumFits(slices)
  {
    forall i | 0 <= i < |slices|
      ensures Measured(slices[..i]) + slices[i].size + 3 <= SIZE_MAX
    {
      MeasuredBound(slices[..i]);
      MulMonotone(i, UINT32_MAX - 1, UINT32_MAX);
    }
  }

  /** The measured total is never too large, and it is the number of bytes that
      will be appended exactly when no size is within three of the 32-bit limit. */
  lemma {:induction false} MeasuredIsBytes(slices: seq<Slice>)
    requires Typed(slices)
    ensures Measured(slices) <= Bytes(slices)
    ensures Measured(slices) == Bytes(slices) <==> NoWrap(slices)
  {
    if slices != [] {
      var n := |slices| - 1;
      MeasuredIsBytes(slices[..n]);
      MeasureWraps(slices[n]);
      assert NoWrap(slices) <==> NoWrap(slices[..n]) && slices[n].size <= UINT32_MAX - 3;
    }
  }

  lemma MeasureWraps(s: Slice)
    requires s.size <= UINT32_MAX
    ensures Measure(s) == if s.size <= UINT32_MAX - 3 then s.size + 3 else s.size + 3 - TWO_32
  {
  }

  /** A slice that wraps takes the assembled bytes past 32 bits. */
  lemma WrapIsLarge(slices: seq<Slice>)
    requires Typed(slices) && !NoWrap(slices)
    ensures Bytes(slices) > UINT32_MAX
  {
    var i :| 0 <= i < |slices| && slices[i].size > UINT32_MAX - 3;
    BytesMonotone(slices, i);
  }

  /** The largest sizes do wrap: a lone slice of 0xFFFFFFFD bytes measures
      nothing and takes 2^32. */
  lemma LargestSliceMeasuresNothing()
    ensures var slices := [Slice(0, 0xFFFF_FFFD)];
      Typed(slices) && !NoWrap(slices) && Measured(slices) == 0 && Bytes(slices) == TWO_32
  {
    var slices := [Slice(0, 0xFFFF_FFFD)];
    assert slices[..0] == [];
    assert slices[0].size > UINT32_MAX - 3;
  }

  // ------------------------------------------------------------ the second pass

  /** Allocation outcomes for the appends of one slice. */
  datatype Grants = Grants(header: bool, body: bool)

  /** A byte buffer as a value. */
  datatype Stream = Stream(bytes: seq<Byte>, ledger: Ledger, failed: bool)

  ghost predicate StreamOk(s: Stream) {
    s.ledger.size == |s.bytes| && s.ledger.size <= s.ledger.capacity <= SIZE_MAX
  }

  /** An append whose result is ignored. */
  ghost function Appended(s: Stream, data: seq<Byte>, granted: bool): (r: Stream)
    requires StreamOk(s)
    ensures StreamOk(r)
  {
    AppendStepFits(s.ledger, |data|, granted);
    if data == [] then s
    else if |s.bytes| + |data| <= SIZE_MAX && (|s.bytes| + |data| <= s.ledger.capacity || granted) then
      Stream(s.bytes + data, AppendStep(s.ledger, |data|, granted), s.failed)
    else s.(failed := true)
  }

  ghost function AppendedSlice(s: Stream, buf: ClientBuffer, slice: Slice, g: Grants): (r: Stream)
    requires StreamOk(s) && InRange(buf, slice)
    ensures StreamOk(r)
  {
    Appended(Appended(s, START_CODE, g.header), SliceBytes(buf, slice), g.body)
  }

  /** Bitstream and new offsets after the loop over all slices; an offset is cast
      to 32 bits. */
  ghost function SecondPass(s: Stream, buf: ClientBuffer, slices: seq<Slice>, grants: seq<Grants>): (r: (Stream, seq<nat>))
    requires StreamOk(s) && AllInRange(buf, slices) && |grants| == |slices|
    ensures StreamOk(r.0) && |r.1| == |slices|
    decreases |slices|
  {
    if slices == [] then (s, [])
    else
      var n := |slices| - 1;
      var before := SecondPass(s, buf, slices[..n], grants[..n]);
      (AppendedSlice(before.0, buf, slices[n], grants[n]), before.1 + [|before.0.bytes| % TWO_32])
  }

  /** The bitstream once room for `total` more bytes has been reserved. */
  ghost function Reserved(s: Stream, total: nat): Stream
    requires StreamOk(s)
  {
    var required := s.ledger.size + total;
    s.(ledger := Ledger(s.ledger.size, CapacityFor(s.ledger.capacity, required),
                        s.ledger.copied + if s.ledger.capacity < required then s.ledger.size else 0))
  }

  lemma ReservedOk(s: Stream, total: nat)
    requires StreamOk(s) && s.ledger.size + total <= SIZE_MAX
    ensures StreamOk(Reserved(s, total))
  {
    if s.ledger.capacity < s.ledger.size + total {
      GrownFits(if s.ledger.capacity != 0 then s.ledger.capacity else FIRST_CAPACITY, s.ledger.size + total);
    }
  }

  /** Into reserved space the pass appends everything, moves nothing, and casts
      away nothing. */
  lemma {:induction false} ReservedPass(s: Stream, buf: ClientBuffer, slices: seq<Slice>, grants: seq<Grants>)
    requires StreamOk(s) && AllInRange(buf, slices) && |grants| == |slices|
    requires |s.bytes| + Bytes(slices) <= s.ledger.capacity && |s.bytes| + Bytes(slices) <= UINT32_MAX
    ensures SecondPass(s, buf, slices, grants) ==
      (Stream(s.bytes + Assembled(buf, slices), s.ledger.(size := |s.bytes| + Bytes(slices)), s.failed),
       Starts(|s.bytes|, slices))
    decreases |slices|
  {
    hide InRange, SliceBytes, AppendedSlice, SecondPass, Assembled, Starts, Bytes;
    if slices == [] {
      assert grants == [];
      NothingPassed(s, buf);
      NothingAssembled(buf, |s.bytes|);
      assert s.bytes + [] == s.bytes;
    } else {
      var n := |slices| - 1;
      LastAssembled(buf, slices, |s.bytes|);
      ReservedPass(s, buf, slices[..n], grants[..n]);
      var part := SecondPass(s, buf, slices[..n], grants[..n]).0;
      ReservedSlice(part, buf, slices[n], grants[n]);
      OnePassed(s, buf, slices, grants, n);
      assert slices[..n + 1] == slices && grants[..n + 1] == grants;
      Assoc(s.bytes, Assembled(buf, slices[..n]), START_CODE + SliceBytes(buf, slices[n]));
    }
  }

  lemma NothingAssembled(buf: ClientBuffer, base: nat)
    ensures Assembled(buf, []) == [] && Starts(base, []) == [] && Bytes([]) == 0
  {
  }

  lemma LastAssembled(buf: ClientBuffer, slices: seq<Slice>, base: nat)
    requires AllInRange(buf, slices) && slices != []
    ensures var n := |slices| - 1;
      && Bytes(slices) == Bytes(slices[..n]) + slices[n].size + 3
      && Assembled(buf, slices) == Assembled(buf, slices[..n]) + (START_CODE + SliceBytes(buf, slices[n]))
      && Starts(base, slices) == Starts(base, slices[..n]) + [base + Bytes(slices[..n])]
  {
    hide SliceBytes, InRange;
  }

  lemma ReservedSlice(s: Stream, buf: ClientBuffer, slice: Slice, g: Grants)
    requires StreamOk(s) && InRange(buf, slice) && |s.bytes| + slice.size + 3 <= s.ledger.capacity
    ensures AppendedSlice(s, buf, slice, g) ==
      Stream(s.bytes + (START_CODE + SliceBytes(buf, slice)), s.ledger.(size := |s.bytes| + slice.size + 3), s.failed)
  {
    hide AppendStep;
    AppendFits(s.ledger, 3, g.header);
    var headed := Appended(s, START_CODE, g.header);
    AppendFits(headed.ledger, slice.size, g.body);
    Assoc(s.bytes, START_CODE, SliceBytes(buf, slice));
    assert headed.bytes + [] == headed.bytes;
  }

  /** The pass after a reservation of the measured total: everything is there and
      can be committed exactly when nothing wrapped. */
  lemma PassOutcome(s: Stream, buf: ClientBuffer, slices: seq<Slice>, grants: seq<Grants>, length: nat)
    requires StreamOk(s) && AllInRange(buf, slices) && Typed(slices) && |grants| == |slices|
    requires |s.bytes| + Measured(slices) <= UINT32_MAX && length <= UINT32_MAX
    ensures StreamOk(Reserved(s, Measured(slices)))
    ensures var (after, offsets) := SecondPass(Reserved(s, Measured(slices)), buf, slices, grants);
      && (NoWrap(slices) <==>
            && after.bytes == s.bytes + Assembled(buf, slices)
            && offsets == Starts(|s.bytes|, slices)
            && (if |after.bytes| <= UINT32_MAX then |after.bytes| else length) == |after.bytes|)
      && (NoWrap(slices) ==>
            && Measured(slices) == Bytes(slices)
            && after.failed == s.failed
            && after.ledger == Reserved(s, Bytes(slices)).ledger.(size := |s.bytes| + Bytes(slices)))
  {
    hide SecondPass, Assembled, Starts, InRange, Measured, Bytes, CapacityFor;
    ReservedOk(s, Measured(slices));
    MeasuredIsBytes(slices);
    if NoWrap(slices) {
      ReservedPass(Reserved(s, Measured(slices)), buf, slices, grants);
    } else {
      WrapIsLarge(slices);
    }
  }

  lemma SameTail<T>(a: seq<T>, b: seq<T>, c: seq<T>)
    ensures a + b == a + c <==> b == c
  {
    if a + b == a + c {
      assert b == (a + b)[|a|..];
      assert c == (a + c)[|a|..];
    }
  }

  /** What the wrap costs: two slices measure 4 bytes, and once those are reserved
      the pass runs on past 32 bits, with memory to spare, and records the second
      slice at offset 0. */
  lemma WrappedOffset(buf: ClientBuffer)
    requires buf.ClientBuffer? && |buf.data| == 0xFFFF_FFFD
    ensures var slices := [Slice(0, 0xFFFF_FFFD), Slice(0, 1)];
      var empty := Stream([], Ledger(0, 0, 0), false);
      && Measured(slices) == 4 && StreamOk(Reserved(empty, 4))
      && var (after, offsets) := SecondPass(Reserved(empty, 4), buf, slices, [Grants(true, true), Grants(true, true)]);
         offsets == [0, 0] && |after.bytes| > UINT32_MAX
  {
    hide AppendStep;
    var slices, grants := [Slice(0, 0xFFFF_FFFD), Slice(0, 1)], [Grants(true, true), Grants(true, true)];
    assert slices[..1] == [Slice(0, 0xFFFF_FFFD)] && grants[..1] == [Grants(true, true)];
    assert slices[..1][..0] == [] && grants[..1][..0] == [];
    var empty := Stream([], Ledger(0, 0, 0), false);
    ReservedOk(empty, 4);
    var s := Reserved(empty, 4);
    SecondPassOne(s, buf, slices[0], grants[0]);
    GrantedSlice(s, buf, slices[0]);
    var first := AppendedSlice(s, buf, slices[0], grants[0]);
    GrantedSlice(first, buf, slices[1]);
  }

  lemma SecondPassOne(s: Stream, buf: ClientBuffer, slice: Slice, g: Grants)
    requires StreamOk(s) && InRange(buf, slice)
    ensures SecondPass(s, buf, [slice], [g]) == (AppendedSlice(s, buf, slice, g), [|s.bytes| % TWO_32])
  {
    hide AppendedSlice, SecondPass, InRange;
    assert AllInRange(buf, [slice]);
    NothingPassed(s, buf);
    OnePassed(s, buf, [slice], [g], 0);
    assert [slice][..0] == [] && [g][..0] == [] && [slice][..0 + 1] == [slice] && [g][..0 + 1] == [g];
    assert [] + [|s.bytes| % TWO_32] == [|s.bytes| % TWO_32];
  }

  lemma GrantedSlice(s: Stream, buf: ClientBuffer, slice: Slice)
    requires StreamOk(s) && InRange(buf, slice) && |s.bytes| + slice.size + 3 <= SIZE_MAX
    ensures |AppendedSlice(s, buf, slice, Grants(true, true)).bytes| == |s.bytes| + slice.size + 3
  {
  }

  class DecodeContext {
    const bitstream: AppendableBuffer<Byte>
    const sliceOffsets: AppendableBuffer<nat>
    var inputValidationFailed: bool
    var bitstreamDataLen: nat
    var numSlices: nat

    ghost predicate Valid()
      reads this, bitstream, sliceOffsets
    {
      && bitstream.Valid() && bitstream.width == 1
      && sliceOffsets.Valid() && sliceOffsets.width == OFFSET_BYTES
      && bitstream as object != sliceOffsets
      && bitstreamDataLen <= UINT32_MAX
    }

    constructor ()
      ensures Valid() && bitstream.Contents() == [] && sliceOffsets.Contents() == []
      ensures fresh(bitstream) && fresh(sliceOffsets)
    {
      bitstream := new AppendableBuffer<Byte>(1);
      sliceOffsets := new AppendableBuffer<nat>(OFFSET_BYTES);
      inputValidationFailed, bitstreamDataLen, numSlices := false, 0, 0;
    }

    method ValidateSliceRange(buf: ClientBuffer, offset: nat, size: nat) returns (ok: bool)
      requires offset <= UINT32_MAX && size <= UINT32_MAX
      modifies this`inputValidationFailed
      ensures ok <==> InRange(buf, Slice(offset, size))
      ensures ok <==> buf.ClientBuffer? && offset + size <= |buf.data|
      ensures inputValidationFailed == (old(inputValidationFailed) || !ok)
    {
      if buf.NullBuffer? || offset > |buf.data| || size > |buf.data| - offset {
        inputValidationFailed := true;
        return false;
      }
      return true;
    }

    method CanAppend(additional: nat) returns (ok: bool)
      requires bitstream.Valid()
      modifies this`inputValidationFailed
      ensures ok <==> bitstream.size + additional <= UINT32_MAX
      ensures inputValidationFailed == (old(inputValidationFailed) || !ok)
    {
      if bitstream.size > UINT32_MAX || additional > UINT32_MAX - bitstream.size {
        inputValidationFailed := true;
        return false;
      }
      return true;
    }

    /** Publishes the length, or refuses one that 32 bits cannot hold. */
    method Commit() returns (ok: bool)
      modifies this`bitstreamDataLen, this`inputValidationFailed
      ensures ok <==> bitstream.size <= UINT32_MAX
      ensures bitstreamDataLen == if ok then bitstream.size else old(bitstreamDataLen)
      ensures inputValidationFailed == (old(inputValidationFailed) || !ok)
    {
      if bitstream.size > UINT32_MAX {
        inputValidationFailed := true;
        return false;
      }
      bitstreamDataLen := bitstream.size;
      return true;
    }

    /** First pass: every slice in range, and the total as the source sums it, or
        the reason to stop. */
    method MeasureSlices(buf: ClientBuffer, slices: seq<Slice>) returns (ok: bool, total: nat)
      requires Valid() && Typed(slices)
      modifies this`inputValidationFailed, bitstream`failed
      ensures Valid()
      ensures ok <==> AllInRange(buf, slices) && SumFits(slices)
      ensures ok ==> total == Measured(slices) <= SIZE_MAX
      ensures ok ==> inputValidationFailed == old(inputValidationFailed) && bitstream.failed == old(bitstream.failed)
      ensures !ok ==> inputValidationFailed || bitstream.failed
    {
      hide Measure, Measured, InRange;
      total := 0;
      MeasuredNone();
      assert slices[..0] == [];
      for i := 0 to |slices|
        invariant Valid() && AllInRange(buf, slices[..i])
        invariant total == Measured(slices[..i]) <= SIZE_MAX
        invariant forall j :: 0 <= j < i ==> Measured(slices[..j]) + slices[j].size + 3 <= SIZE_MAX
        invariant inputValidationFailed == old(inputValidationFailed) && bitstream.failed == old(bitstream.failed)
      {
        MeasuredStep(slices, i);
        ok := ValidateSliceRange(buf, slices[i].offset, slices[i].size);
        if !ok {
          return;
        }
        if total > SIZE_MAX - 3 || slices[i].size > SIZE_MAX - total - 3 {
          bitstream.failed := true;
          return false, total;
        }
        MeasureAtMost(slices[i]);
        total := total + Measure(slices[i]);
      }
      assert slices[..|slices|] == slices;
      return true, total;
    }

    ghost function View(): Stream
      requires bitstream.Valid()
      reads this, bitstream
    {
      Stream(bitstream.Contents(), bitstream.Account(), bitstream.failed)
    }

    /** What must hold for the second pass to be entered. */
    ghost predicate Accepts(buf: ClientBuffer, slices: seq<Slice>, offsetsGranted: bool, bytesGranted: bool)
      reads this, bitstream, sliceOffsets
    {
      && AllInRange(buf, slices)
      && bitstream.size + Measured(slices) <= UINT32_MAX
      && sliceOffsets.size + OFFSET_BYTES * |slices| <= SIZE_MAX
      && (sliceOffsets.size + OFFSET_BYTES * |slices| <= sliceOffsets.capacity || offsetsGranted)
      && (bitstream.size + Measured(slices) <= bitstream.capacity || bytesGranted)
    }

    /** Either both logical buffers stay as they were, or the second pass runs.
        `grants` are the outcomes of allocations in that pass, which are only
        asked for when the measured total was too small. A pass that was entered
        leaves exactly the assembled slices, their starts and the committed length
        if and only if no slice size is within three of the 32-bit limit; then
        nothing in it allocates. */
    method CopySliceData(buf: ClientBuffer, slices: seq<Slice>, offsetsGranted: bool, bytesGranted: bool, grants: seq<Grants>)
      returns (entered: bool)
      requires Valid() && |slices| <= UINT32_MAX && Typed(slices) && |grants| == |slices|
      modifies this, bitstream, sliceOffsets
      ensures Valid() && numSlices == old(numSlices)
      ensures entered <==> old(Accepts(buf, slices, offsetsGranted, bytesGranted))
      ensures !entered ==>
        && bitstream.Contents() == old(bitstream.Contents())
        && sliceOffsets.Contents() == old(sliceOffsets.Contents())
        && bitstreamDataLen == old(bitstreamDataLen)
        && (inputValidationFailed || bitstream.failed || sliceOffsets.failed)
      ensures entered ==>
        && AllInRange(buf, slices) && StreamOk(Reserved(old(View()), Measured(slices)))
        && var (after, offsets) := SecondPass(Reserved(old(View()), Measured(slices)), buf, slices, grants);
        && View() == after
        && sliceOffsets.Contents() == old(sliceOffsets.Contents()) + offsets
        && bitstreamDataLen == (if |after.bytes| <= UINT32_MAX then |after.bytes| else old(bitstreamDataLen))
        && inputValidationFailed == (old(inputValidationFailed) || |after.bytes| > UINT32_MAX)
      ensures entered ==>
        && AllInRange(buf, slices)
        && (NoWrap(slices) <==>
              && bitstream.Contents() == old(bitstream.Contents()) + Assembled(buf, slices)
              && sliceOffsets.Contents() == old(sliceOffsets.Contents()) + Starts(old(bitstream.size), slices)
              && bitstreamDataLen == |bitstream.Contents()|)
      ensures entered && NoWrap(slices) ==>
        && inputValidationFailed == old(inputValidationFailed) && bitstream.failed == old(bitstream.failed)
        && bitstream.Account() ==
             Reserved(old(View()), Bytes(slices)).ledger.(size := old(bitstream.size) + Bytes(slices))
    {
      hide AllInRange, SecondPass, Assembled, Starts, Measured, Bytes, Reserved, NoWrap;
      entered := Prepare(buf, slices, offsetsGranted, bytesGranted);
      if !entered {
        return;
      }
      PassOutcome(old(View()), buf, slices, grants, old(bitstreamDataLen));
      AppendSlices(buf, slices, grants);
      var _ := Commit();
      ghost var offsets := SecondPass(Reserved(old(View()), Measured(slices)), buf, slices, grants).1;
      SameTail(old(sliceOffsets.Contents()), offsets, Starts(old(bitstream.size), slices));
    }

    /** The first pass, the 32-bit limit and the two reservations. */
    method Prepare(buf: ClientBuffer, slices: seq<Slice>, offsetsGranted: bool, bytesGranted: bool) returns (entered: bool)
      requires Valid() && |slices| <= UINT32_MAX && Typed(slices)
      modifies this`inputValidationFailed
      modifies bitstream`mem, bitstream`capacity, bitstream`failed, bitstream`copied
      modifies sliceOffsets`mem, sliceOffsets`capacity, sliceOffsets`failed, sliceOffsets`copied
      ensures Valid() && sliceOffsets.Contents() == old(sliceOffsets.Contents())
      ensures entered <==> old(Accepts(buf, slices, offsetsGranted, bytesGranted))
      ensures !entered ==>
        && bitstream.Contents() == old(bitstream.Contents())
        && (inputValidationFailed || bitstream.failed || sliceOffsets.failed)
      ensures entered ==>
        && View() == Reserved(old(View()), Measured(slices))
        && bitstream.size + Measured(slices) <= UINT32_MAX
        && sliceOffsets.size + OFFSET_BYTES * |slices| <= sliceOffsets.capacity
        && inputValidationFailed == old(inputValidationFailed)
    {
      hide CapacityFor, InRange, Measured;
      SumAlwaysFits(slices);
      var total;
      entered, total := MeasureSlices(buf, slices);
      if !entered {
        return;
      }
      entered := CanAppend(total);
      if !entered {
        return;
      }
      entered := sliceOffsets.ReserveElements(|slices|, OFFSET_BYTES, offsetsGranted);
      if !entered {
        return;
      }
      entered := bitstream.ReserveAdditional(total, bytesGranted);
    }

    /** Second pass; results of the appends are ignored. */
    method AppendSlices(buf: ClientBuffer, slices: seq<Slice>, grants: seq<Grants>)
      requires Valid() && AllInRange(buf, slices) && Typed(slices) && |grants| == |slices|
      requires sliceOffsets.size + OFFSET_BYTES * |slices| <= sliceOffsets.capacity
      modifies bitstream, sliceOffsets
      ensures Valid()
      ensures (View(), sliceOffsets.Contents()) ==
        var (after, offsets) := SecondPass(old(View()), buf, slices, grants);
        (after, old(sliceOffsets.Contents()) + offsets)
      ensures sliceOffsets.capacity == old(sliceOffsets.capacity) && sliceOffsets.copied == old(sliceOffsets.copied)
      ensures sliceOffsets.failed == old(sliceOffsets.failed)
    {
      hide InRange, SliceBytes, AppendedSlice, SecondPass;
      ghost var start := View();
      NothingPassed(start, buf);
      assert slices[..0] == [] && grants[..0] == [];
      for i := 0 to |slices|
        invariant Valid()
        invariant AllInRange(buf, slices[..i])
        invariant View() == SecondPass(start, buf, slices[..i], grants[..i]).0
        invariant sliceOffsets.Contents() == old(sliceOffsets.Contents()) + SecondPass(start, buf, slices[..i], grants[..i]).1
        invariant sliceOffsets.size == old(sliceOffsets.size) + OFFSET_BYTES * i
        invariant sliceOffsets.capacity == old(sliceOffsets.capacity) && sliceOffsets.copied == old(sliceOffsets.copied)
        invariant sliceOffsets.failed == old(sliceOffsets.failed)
      {
        OnePassed(start, buf, slices, grants, i);
        ghost var so := SecondPass(start, buf, slices[..i], grants[..i]);
        AppendOne(buf, slices[i], grants[i]);
        Assoc(old(sliceOffsets.Contents()), so.1, [|so.0.bytes| % TWO_32]);
      }
      assert slices[..|slices|] == slices && grants[..|grants|] == grants;
    }

    method AppendOne(buf: ClientBuffer, s: Slice, g: Grants)
      requires Valid() && InRange(buf, s) && s.size <= UINT32_MAX
      requires sliceOffsets.size + OFFSET_BYTES <= sliceOffsets.capacity
      modifies bitstream, sliceOffsets
      ensures Valid()
      ensures View() == AppendedSlice(old(View()), buf, s, g)
      ensures sliceOffsets.Contents() == old(sliceOffsets.Contents()) + [old(bitstream.size) % TWO_32]
      ensures sliceOffsets.Account() == old(sliceOffsets.Account()).(size := old(sliceOffsets.size) + OFFSET_BYTES)
      ensures sliceOffsets.failed == old(sliceOffsets.failed)
    {
      hide Appended;
      AppendOffset(bitstream.size % TWO_32);
      AppendBytes(START_CODE, g.header);
      AppendBytes(buf.data[s.offset..s.offset + s.size], g.body);
    }

    method AppendBytes(data: seq<Byte>, granted: bool)
      requires bitstream.Valid() && bitstream.width == 1 && |data| <= SIZE_MAX
      modifies bitstream
      ensures bitstream.Valid() && View() == Appended(old(View()), data, granted)
    {
      hide CapacityFor;
      assert |data| * bitstream.width == |data|;
      var ok := bitstream.Append(data, true, granted);
    }

    /** Into reserved space, so no allocation is offered. */
    method AppendOffset(offset: nat)
      requires sliceOffsets.Valid() && sliceOffsets.width == OFFSET_BYTES
      requires sliceOffsets.size + OFFSET_BYTES <= sliceOffsets.capacity
      modifies sliceOffsets
      ensures sliceOffsets.Valid() && sliceOffsets.Contents() == old(sliceOffsets.Contents()) + [offset]
      ensures sliceOffsets.Account() == old(sliceOffsets.Account()).(size := old(sliceOffsets.size) + OFFSET_BYTES)
      ensures sliceOffsets.failed == old(sliceOffsets.failed)
    {
      hide AppendStep;
      AppendFits(sliceOffsets.Account(), OFFSET_BYTES, false);
      var ok := sliceOffsets.Append([offset], true, false);
    }
  }

  lemma MeasuredNone()
    ensures Measured([]) == 0
  {
  }

  lemma MeasuredStep(slices: seq<Slice>, i: nat)
    requires i < |slices|
    ensures Measured(slices[..i + 1]) == Measured(slices[..i]) + Measure(slices[i])
  {
    assert slices[..i + 1][..i] == slices[..i];
  }

  lemma MeasureAtMost(s: Slice)
    ensures Measure(s) <= s.size + 3
  {
  }

  lemma NothingPassed(s: Stream, buf: ClientBuffer)
    requires StreamOk(s)
    ensures SecondPass(s, buf, [], []) == (s, [])
  {
  }

  lemma OnePassed(s: Stream, buf: ClientBuffer, slices: seq<Slice>, grants: seq<Grants>, i: nat)
    requires StreamOk(s) && AllInRange(buf, slices) && |grants| == |slices| && i < |slices|
    ensures var before := SecondPass(s, buf, slices[..i], grants[..i]);
      SecondPass(s, buf, slices[..i + 1], grants[..i + 1]) ==
        (AppendedSlice(before.0, buf, slices[i], grants[i]), before.1 + [|before.0.bytes| % TWO_32])
  {
    hide InRange, AppendedSlice;
    assert slices[..i + 1][..i] == slices[..i] && grants[..i + 1][..i] == grants[..i];
  }
}
