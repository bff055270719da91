/** Locating the open bitstream unit that carries a tile (src/av1.c:58-113). The
    formats are those of the AV1 specification: leb128 (section 4.10.5) and the
    OBU header and size (sections 5.3.1 to 5.3.3). */
module Av1Obu {
  import opened Basics
  import opened AppendableBuffers

  const LEB_BYTES: nat := 8
  const OBU_FRAME_HEADER: nat := 3
  const OBU_TILE_GROUP: nat := 4

  // ---------------------------------------------------------------- leb128

  datatype Leb = Bad | Leb(value: nat, next: nat)

  /** The value read at `pos` when `i` bytes of the number have gone before. */
  function ReadLeb(buf: seq<Byte>, pos: nat, i: nat): (r: Leb)
    ensures r.Leb? ==> pos < r.next <= |buf|
    decreases |buf| - pos
  {
    if i >= LEB_BYTES || pos >= |buf| then Bad
    else if buf[pos] < 0x80 then Leb(buf[pos], pos + 1)
    else
      match ReadLeb(buf, pos + 1, i + 1)
      case Bad => Bad
      case Leb(v, next) => Leb(buf[pos] % 0x80 + 0x80 * v, next)
  }

  function EncodeLeb(v: nat): (r: seq<Byte>)
    ensures |r| >= 1
  {
    if v < 0x80 then [v] else [0x80 + v % 0x80] + EncodeLeb(v / 0x80)
  }

  function Pow128(n: nat): (r: nat)
    ensures r >= 1
  {
    if n == 0 then 1 else 0x80 * Pow128(n - 1)
  }

  lemma Pow128Step(n: nat)
    ensures Pow128(n) == if n == 0 then 1 else 0x80 * Pow128(n - 1)
  {
  }

  /** Reading inverts encoding exactly for the values that fit in the bytes left. */
  lemma {:induction false} LebRoundTrip(before: seq<Byte>, v: nat, after: seq<Byte>, i: nat)
    requires i < LEB_BYTES
    ensures var buf := before + EncodeLeb(v) + after;
      ReadLeb(buf, |before|, i) ==
        if v < Pow128(LEB_BYTES - i) then Leb(v, |before| + |EncodeLeb(v)|) else Bad
    decreases v
  {
    hide Pow128;
    Pow128Step(LEB_BYTES - i);
    var buf := before + EncodeLeb(v) + after;
    assert buf[|before|] == EncodeLeb(v)[0];
    if v < 0x80 {
      assert Pow128(LEB_BYTES - i) >= 0x80;
    } else {
      var before' := before + [0x80 + v % 0x80];
      assert buf == before' + EncodeLeb(v / 0x80) + after;
      if i + 1 < LEB_BYTES {
        LebRoundTrip(before', v / 0x80, after, i + 1);
      } else {
        Pow128Step(0);
      }
    }
  }

  lemma LebLimit()
    ensures Pow128(LEB_BYTES) == 0x100_0000_0000_0000
  {
    assert Pow128(2) == 0x4000;
    assert Pow128(4) == 0x1000_0000;
    assert Pow128(6) == 0x400_0000_0000;
  }

  /** Numbers below 2^56 survive a write and a read. */
  lemma LebInverts(before: seq<Byte>, v: nat, after: seq<Byte>)
    ensures ReadLeb(before + EncodeLeb(v) + after, |before|, 0) ==
      if v < 0x100_0000_0000_0000 then Leb(v, |before| + |EncodeLeb(v)|) else Bad
  {
    LebRoundTrip(before, v, after, 0);
    LebLimit();
  }

  /** Groups of seven bits, the low one first; all but the last carry the top bit. */
  lemma LebBytes()
    ensures EncodeLeb(0) == [0] && EncodeLeb(127) == [0x7F] && EncodeLeb(128) == [0x80, 0x01]
    ensures EncodeLeb(300) == [0xAC, 0x02] && EncodeLeb(16384) == [0x80, 0x80, 0x01]
  {
    assert EncodeLeb(2) == [2] && EncodeLeb(1) == [1];
    assert EncodeLeb(128) == [0x80] + EncodeLeb(1);
  }

  /** The source's loop: it accumulates low groups first, each shifted past the
      ones before it. */
  method ReadLeb128(buf: seq<Byte>, start: nat) returns (ok: bool, pos: nat, value: nat)
    requires start <= |buf|
    ensures ok <==> ReadLeb(buf, start, 0).Leb?
    ensures ok ==> value == ReadLeb(buf, start, 0).value && pos == ReadLeb(buf, start, 0).next
  {
    var ret: nat, shift: nat := 0, 1;
    var i := 0;
    pos := start;
    value := 0;
    while i < LEB_BYTES && pos < |buf|
      invariant i <= LEB_BYTES && pos == start + i <= |buf|
      invariant ret < shift // so the source's `|=` of a shifted group is an addition
      invariant Accumulated(buf, start, pos, i, ret, shift)
      decreases LEB_BYTES - i
    {
      AccumulateStep(buf, start, pos, i, ret, shift);
      MulMonotone(buf[pos] % 0x80, 0x7f, shift);
      var byte := buf[pos];
      pos := pos + 1;
      ret := ret + byte % 0x80 * shift;
      if byte < 0x80 {
        return true, pos, ret;
      }
      shift := shift * 0x80;
      i := i + 1;
    }
    return false, pos, 0;
  }

  /** `ret` holds the groups read so far and `shift` the weight of the next. */
  ghost predicate Accumulated(buf: seq<Byte>, start: nat, pos: nat, i: nat, ret: nat, shift: nat) {
    var whole, rest := ReadLeb(buf, start, 0), ReadLeb(buf, pos, i);
    && (whole.Leb? <==> rest.Leb?)
    && (rest.Leb? ==> whole == Leb(ret + shift * rest.value, rest.next))
  }

  lemma {:induction false} AccumulateStep(buf: seq<Byte>, start: nat, pos: nat, i: nat, ret: nat, shift: nat)
    requires i < LEB_BYTES && pos < |buf| && Accumulated(buf, start, pos, i, ret, shift)
    ensures var ret' := ret + buf[pos] % 0x80 * shift;
      if buf[pos] < 0x80 then ReadLeb(buf, start, 0) == Leb(ret', pos + 1)
      else Accumulated(buf, start, pos + 1, i + 1, ret', shift * 0x80)
  {
    ReadLebStep(buf, pos, i);
    hide ReadLeb;
    var rest := ReadLeb(buf, pos + 1, i + 1);
    if buf[pos] < 0x80 {
      Commute(buf[pos], shift);
    } else if rest.Leb? {
      Regroup(ret, shift, buf[pos] % 0x80, rest.value);
    }
  }

  lemma {:induction false} ReadLebStep(buf: seq<Byte>, pos: nat, i: nat)
    requires i < LEB_BYTES && pos < |buf|
    ensures var rest := ReadLeb(buf, pos + 1, i + 1);
      ReadLeb(buf, pos, i) ==
        if buf[pos] < 0x80 then Leb(buf[pos], pos + 1)
        else if rest.Bad? then Bad
        else Leb(buf[pos] % 0x80 + 0x80 * rest.value, rest.next)
  {
  }

  lemma Commute(group: nat, shift: nat)
    requires group < 0x80
    ensures shift * group == group % 0x80 * shift
  {
  }

  lemma Regroup(ret: nat, shift: nat, group: nat, rest: nat)
    ensures ret + shift * (group + 0x80 * rest) == ret + group * shift + (shift * 0x80) * rest
  {
  }

  // ------------------------------------------------------------------- OBUs

  datatype Obu = Obu(start: nat, kind: nat, payload: nat, end: nat)
  datatype Parsed = Broken | Parsed(obu: Obu)

  function KindOf(header: Byte): nat { header / 8 % 16 }
  predicate HasExtension(header: Byte) { header / 4 % 2 == 1 }
  predicate HasSize(header: Byte) { header / 2 % 2 == 1 }

  /** The unit whose header is at `pos`, if it is whole. */
  function ObuAt(buf: seq<Byte>, pos: nat): (r: Parsed)
    requires pos < |buf|
    ensures r.Parsed? ==> r.obu.start == pos < r.obu.payload <= r.obu.end <= |buf|
  {
    var header := buf[pos];
    var body := pos + if HasExtension(header) then 2 else 1;
    if body > |buf| then Broken
    else if !HasSize(header) then Parsed(Obu(pos, KindOf(header), body, |buf|))
    else
      match ReadLeb(buf, body, 0)
      case Bad => Broken
      case Leb(size, payload) =>
        if size > |buf| - payload then Broken else Parsed(Obu(pos, KindOf(header), payload, payload + size))
  }

  /** The header chain from `pos`: one whole unit after another. */
  function ChainFrom(buf: seq<Byte>, pos: nat): seq<Obu>
    decreases |buf| - pos
  {
    if pos >= |buf| then []
    else
      match ObuAt(buf, pos)
      case Broken => []
      case Parsed(obu) => [obu] + ChainFrom(buf, obu.end)
  }

  predicate Carries(obu: Obu, tile: nat) {
    obu.payload <= tile < obu.end
  }

  /** Units on a chain follow each other without gaps. */
  lemma {:induction false} ChainIsContiguous(buf: seq<Byte>, pos: nat, i: nat)
    requires i < |ChainFrom(buf, pos)|
    ensures var c := ChainFrom(buf, pos);
      && pos <= c[i].start < c[i].payload <= c[i].end <= |buf|
      && (i == 0 ==> c[i].start == pos)
      && (0 < i ==> c[i - 1].end == c[i].start)
    decreases i
  {
    if i != 0 {
      var next := ObuAt(buf, pos).obu.end;
      ChainIsContiguous(buf, next, i - 1);
      if i > 1 {
        assert ChainFrom(buf, pos)[i - 1] == ChainFrom(buf, next)[i - 2];
      }
    }
  }

  lemma {:induction false} ChainEndsGrow(buf: seq<Byte>, pos: nat, i: nat, j: nat)
    requires i < j < |ChainFrom(buf, pos)|
    ensures ChainFrom(buf, pos)[i].end <= ChainFrom(buf, pos)[j].start
    decreases j
  {
    ChainIsContiguous(buf, pos, j);
    if i < j - 1 {
      ChainEndsGrow(buf, pos, i, j - 1);
      ChainIsContiguous(buf, pos, j - 1);
    }
  }

  /** At most one unit of the chain carries a given byte. */
  lemma OneCarrier(buf: seq<Byte>, tile: nat, i: nat, j: nat)
    requires i < |ChainFrom(buf, 0)| && j < |ChainFrom(buf, 0)|
    requires Carries(ChainFrom(buf, 0)[i], tile) && Carries(ChainFrom(buf, 0)[j], tile)
    ensures i == j
  {
    ChainIsContiguous(buf, 0, i);
    ChainIsContiguous(buf, 0, j);
    if i < j {
      ChainEndsGrow(buf, 0, i, j);
    } else if j < i {
      ChainEndsGrow(buf, 0, j, i);
    }
  }

  /** Where the frame of a tile begins: at the frame header just before a tile
      group, otherwise at the unit itself. */
  function FrameStart(chain: seq<Obu>, i: nat): nat
    requires i < |chain|
  {
    if chain[i].kind == OBU_TILE_GROUP && 0 < i && chain[i - 1].kind == OBU_FRAME_HEADER
    then chain[i - 1].start else chain[i].start
  }

  /** The frame start of the unit that carries the byte `tile`; zero when none does. */
  ghost function StartFor(buf: seq<Byte>, tile: nat): nat {
    var chain := ChainFrom(buf, 0);
    if exists i :: 0 <= i < |chain| && Carries(chain[i], tile) then
      var i :| 0 <= i < |chain| && Carries(chain[i], tile);
      FrameStart(chain, i)
    else 0
  }

  /** One pass of the walk's loop over the header at `start`. */
  method ParseObu(buf: seq<Byte>, start: nat) returns (r: Parsed)
    requires start < |buf|
    ensures r == ObuAt(buf, start)
  {
    var header := buf[start];
    var pos := start + 1;
    if HasExtension(header) {
      if pos >= |buf| {
        return Broken;
      }
      pos := pos + 1;
    }
    var payloadSize := |buf| - pos;
    if HasSize(header) {
      var ok;
      ok, pos, payloadSize := ReadLeb128(buf, pos);
      if !ok {
        return Broken;
      }
    }
    if payloadSize > |buf| - pos {
      return Broken;
    }
    return Parsed(Obu(start, KindOf(header), pos, pos + payloadSize));
  }

  /** The walk returns the frame start of the one unit that carries the tile, and
      zero when no unit of the chain does. A start for a located tile lies
      strictly before it. */
  method FindObuStart(buf: seq<Byte>, tile: nat) returns (start: nat)
    ensures forall i {:trigger ChainFrom(buf, 0)[i]} ::
      0 <= i < |ChainFrom(buf, 0)| && Carries(ChainFrom(buf, 0)[i], tile) ==>
        start == FrameStart(ChainFrom(buf, 0), i)
    ensures (forall i :: 0 <= i < |ChainFrom(buf, 0)| ==> !Carries(ChainFrom(buf, 0)[i], tile)) ==> start == 0
    ensures start == StartFor(buf, tile)
    ensures start == 0 || start < tile
  {
    var pos, previousStart, previousKind := 0, 0, 0;
    ghost var chain := ChainFrom(buf, 0);
    ghost var done := 0;
    while pos < |buf|
      invariant pos <= |buf| && done <= |chain|
      invariant chain[done..] == ChainFrom(buf, pos)
      invariant forall i :: 0 <= i < done ==> !Carries(chain[i], tile)
      invariant if done == 0 then previousKind == 0
                else previousKind == chain[done - 1].kind && previousStart == chain[done - 1].start
      decreases |buf| - pos
    {
      var parsed := ParseObu(buf, pos);
      if parsed.Broken? {
        break;
      }
      var obu := parsed.obu;
      assert chain[done..][0] == obu && chain[done..][1..] == chain[done + 1..];
      if obu.payload <= tile < obu.end {
        start := if obu.kind == OBU_TILE_GROUP && previousKind == OBU_FRAME_HEADER
                 then previousStart else obu.start;
        CarrierFound(buf, tile, done);
        return;
      }
      previousStart, previousKind := obu.start, obu.kind;
      pos := obu.end;
      done := done + 1;
    }
    assert chain[done..] == [];
    return 0;
  }

  lemma CarrierFound(buf: seq<Byte>, tile: nat, i: nat)
    requires i < |ChainFrom(buf, 0)| && Carries(ChainFrom(buf, 0)[i], tile)
    ensures forall j {:trigger ChainFrom(buf, 0)[j]} ::
      0 <= j < |ChainFrom(buf, 0)| && Carries(ChainFrom(buf, 0)[j], tile) ==> j == i
    ensures FrameStart(ChainFrom(buf, 0), i) < tile
  {
    forall j | 0 <= j < |ChainFrom(buf, 0)| && Carries(ChainFrom(buf, 0)[j], tile)
      ensures j == i
    {
      OneCarrier(buf, tile, i, j);
    }
    ChainIsContiguous(buf, 0, i);
    if 0 < i {
      ChainIsContiguous(buf, 0, i - 1);
    }
  }
}
