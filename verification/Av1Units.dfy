/** Writing open bitstream units as sections 5.3.1 to 5.3.3 of the AV1 specification
    lay them out: the header chain of src/av1.c:72-113 gives them back, so a tile is
    traced to the unit it was written in. */
module Av1Units {
  import opened Basics
  import opened AppendableBuffers
  import opened Av1Obu

  const KINDS: nat := 16
  const LARGEST: nat := 0x100_0000_0000_0000

  /** One unit; the two flags are bits that a reader ignores. */
  datatype Unit = Unit(forbidden: bool, kind: nat, extension: Option<Byte>, reserved: bool, payload: seq<Byte>)

  function Bit(b: bool): nat {
    if b then 1 else 0
  }

  function Header(u: Unit, sized: bool): Byte
    requires u.kind < KINDS
  {
    128 * Bit(u.forbidden) + 8 * u.kind + 4 * Bit(u.extension.Some?) + 2 * Bit(sized) + Bit(u.reserved)
  }

  lemma {:induction false} HeaderBits(u: Unit, sized: bool)
    requires u.kind < KINDS
    ensures KindOf(Header(u, sized)) == u.kind
    ensures HasExtension(Header(u, sized)) <==> u.extension.Some?
    ensures HasSize(Header(u, sized)) <==> sized
  {
    PackedBits(Bit(u.forbidden), u.kind, Bit(u.extension.Some?), Bit(sized), Bit(u.reserved));
  }

  lemma PackedBits(f: nat, kind: nat, e: nat, s: nat, r: nat)
    requires f < 2 && kind < 16 && e < 2 && s < 2 && r < 2
    ensures var h := 128 * f + 8 * kind + 4 * e + 2 * s + r;
      h / 2 % 2 == s && h / 4 % 2 == e && h / 8 % 16 == kind
  {
    var h := 128 * f + 8 * kind + 4 * e + 2 * s + r;
    assert h / 2 == 64 * f + 4 * kind + 2 * e + s;
    assert h / 4 == 32 * f + 2 * kind + e;
    assert h / 8 == 16 * f + kind;
  }

  function Head(u: Unit, sized: bool): (r: seq<Byte>)
    requires u.kind < KINDS
    ensures |r| == if u.extension.Some? then 2 else 1
  {
    [Header(u, sized)] + match u.extension case None => [] case Some(b) => [b]
  }

  /** A unit that states its size. */
  function Encode(u: Unit): (r: seq<Byte>)
    requires u.kind < KINDS
    ensures |r| >= 2 + |u.payload|
  {
    Head(u, true) + EncodeLeb(|u.payload|) + u.payload
  }

  /** A unit that runs to the end of the buffer. */
  function EncodeOpen(u: Unit): (r: seq<Byte>)
    requires u.kind < KINDS
    ensures |r| >= 1 + |u.payload|
  {
    Head(u, false) + u.payload
  }

  predicate KindsFit(units: seq<Unit>) {
    forall i :: 0 <= i < |units| ==> units[i].kind < KINDS
  }

  predicate SizesFit(units: seq<Unit>) {
    forall i :: 0 <= i < |units| ==> |units[i].payload| < LARGEST
  }

  function EncodeAll(units: seq<Unit>): seq<Byte>
    requires KindsFit(units)
  {
    if units == [] then [] else Encode(units[0]) + EncodeAll(units[1..])
  }

  /** A unit written at `pos`, as the chain reports it. */
  function At(pos: nat, u: Unit): Obu
    requires u.kind < KINDS
  {
    var end := pos + |Encode(u)|;
    Obu(pos, u.kind, end - |u.payload|, end)
  }

  function AtOpen(pos: nat, u: Unit): Obu
    requires u.kind < KINDS
  {
    var end := pos + |EncodeOpen(u)|;
    Obu(pos, u.kind, end - |u.payload|, end)
  }

  function Placed(pos: nat, units: seq<Unit>): (r: seq<Obu>)
    requires KindsFit(units)
    ensures |r| == |units|
    decreases |units|
  {
    if units == [] then [] else [At(pos, units[0])] + Placed(pos + |Encode(units[0])|, units[1..])
  }

  lemma {:induction false} HeadThere(before: seq<Byte>, u: Unit, sized: bool, after: seq<Byte>)
    requires u.kind < KINDS
    ensures (before + (Head(u, sized) + after))[|before|] == Header(u, sized)
  {
  }

  /** One unit read back: whole exactly when its size can be stated. */
  lemma {:induction false} UnitReads(before: seq<Byte>, u: Unit, after: seq<Byte>)
    requires u.kind < KINDS
    ensures ObuAt(before + (Encode(u) + after), |before|) ==
      if |u.payload| < LARGEST then Parsed(At(|before|, u)) else Broken
  {
    hide ReadLeb, EncodeLeb, Header, HasExtension, HasSize, KindOf;
    var rest := EncodeLeb(|u.payload|) + u.payload + after;
    var buf := before + (Encode(u) + after);
    assert Encode(u) + after == Head(u, true) + rest;
    HeadThere(before, u, true, rest);
    HeaderBits(u, true);
    var before' := before + Head(u, true);
    assert buf == before' + EncodeLeb(|u.payload|) + (u.payload + after);
    LebInverts(before', |u.payload|, u.payload + after);
  }

  lemma {:induction false} OpenUnitReads(before: seq<Byte>, u: Unit)
    requires u.kind < KINDS
    ensures ObuAt(before + EncodeOpen(u), |before|) == Parsed(AtOpen(|before|, u))
  {
    hide Header, HasExtension, HasSize, KindOf;
    HeadThere(before, u, false, u.payload);
    HeaderBits(u, false);
  }

  lemma {:induction false} ChainStep(buf: seq<Byte>, pos: nat)
    requires pos < |buf|
    ensures ChainFrom(buf, pos) ==
      if ObuAt(buf, pos).Broken? then [] else [ObuAt(buf, pos).obu] + ChainFrom(buf, ObuAt(buf, pos).obu.end)
  {
  }

  lemma {:induction false} ChainEnds(buf: seq<Byte>)
    ensures ChainFrom(buf, |buf|) == []
  {
  }

  /** What the chain finds behind written units. */
  lemma {:induction false} ChainThrough(before: seq<Byte>, units: seq<Unit>, after: seq<Byte>)
    requires KindsFit(units) && SizesFit(units)
    ensures var buf := before + EncodeAll(units) + after;
      ChainFrom(buf, |before|) == Placed(|before|, units) + ChainFrom(buf, |before| + |EncodeAll(units)|)
    decreases |units|
  {
    hide ChainFrom, Encode;
    var buf := before + EncodeAll(units) + after;
    if units != [] {
      var u, rest := units[0], units[1..];
      var behind := EncodeAll(rest) + after;
      var before' := before + Encode(u);
      Around(before, Encode(u), EncodeAll(rest), after);
      UnitChained(before, u, behind);
      ChainThrough(before', rest, after);
      Assoc([At(|before|, u)], Placed(|before'|, rest), ChainFrom(buf, |before| + |EncodeAll(units)|));
    } else {
      assert buf == before + after;
    }
  }

  lemma {:induction false} Around<T>(a: seq<T>, b: seq<T>, c: seq<T>, d: seq<T>)
    ensures a + (b + c) + d == a + (b + (c + d)) == (a + b) + c + d
  {
  }

  lemma {:induction false} UnitChained(before: seq<Byte>, u: Unit, after: seq<Byte>)
    requires u.kind < KINDS && |u.payload| < LARGEST
    ensures var buf := before + (Encode(u) + after);
      ChainFrom(buf, |before|) == [At(|before|, u)] + ChainFrom(buf, |before| + |Encode(u)|)
  {
    hide ChainFrom, ObuAt, Encode;
    UnitReads(before, u, after);
    ChainStep(before + (Encode(u) + after), |before|);
  }

  lemma {:induction false} EncodeAllSplits(units: seq<Unit>, i: nat)
    requires KindsFit(units) && i < |units|
    ensures EncodeAll(units) == EncodeAll(units[..i]) + (Encode(units[i]) + EncodeAll(units[i + 1..]))
    decreases i
  {
    hide Encode;
    if i != 0 {
      EncodeAllSplits(units[1..], i - 1);
      assert units[1..][..i - 1] == units[..i][1..] && units[1..][i..] == units[i + 1..];
      assert units[..i][0] == units[0];
    }
  }

  /** A buffer of units gives back exactly those units, provided each can state
      its size; otherwise the chain stops at the first that cannot. */
  lemma {:induction false} ChainInverts(units: seq<Unit>)
    requires KindsFit(units)
    ensures ChainFrom(EncodeAll(units), 0) == Placed(0, units) <==> SizesFit(units)
  {
    hide ChainFrom, ObuAt, Encode, Placed;
    var buf := EncodeAll(units);
    if SizesFit(units) {
      ChainThrough([], units, []);
      assert [] + buf + [] == buf;
      ChainEnds(buf);
    } else {
      var i := FirstLarge(units);
      ChainThrough([], units[..i], Encode(units[i]) + EncodeAll(units[i + 1..]));
      EncodeAllSplits(units, i);
      var before := EncodeAll(units[..i]);
      assert [] + before + (Encode(units[i]) + EncodeAll(units[i + 1..])) == buf;
      UnitReads(before, units[i], EncodeAll(units[i + 1..]));
      ChainStep(buf, |before|);
    }
  }

  lemma {:induction false} FirstLarge(units: seq<Unit>) returns (i: nat)
    requires !SizesFit(units)
    ensures i < |units| && |units[i].payload| >= LARGEST && SizesFit(units[..i])
  {
    var n := |units| - 1;
    if SizesFit(units[..n]) {
      i := n;
    } else {
      i := FirstLarge(units[..n]);
      assert units[..n][..i] == units[..i];
    }
  }

  /** The same with a last unit that runs to the end of the buffer. */
  lemma {:induction false} OpenChainInverts(units: seq<Unit>, last: Unit)
    requires KindsFit(units) && SizesFit(units) && last.kind < KINDS
    ensures ChainFrom(EncodeAll(units) + EncodeOpen(last), 0) ==
      Placed(0, units) + [AtOpen(|EncodeAll(units)|, last)]
  {
    hide ChainFrom, ObuAt, Encode, EncodeOpen, Placed;
    var before := EncodeAll(units);
    var buf := before + EncodeOpen(last);
    ChainThrough([], units, EncodeOpen(last));
    assert [] + before + EncodeOpen(last) == buf;
    OpenUnitReads(before, last);
    ChainStep(buf, |before|);
    ChainEnds(buf);
  }

  lemma {:induction false} PlacedAt(pos: nat, units: seq<Unit>, i: nat)
    requires KindsFit(units) && i < |units|
    ensures Placed(pos, units)[i] == At(pos + |EncodeAll(units[..i])|, units[i])
    decreases i
  {
    hide Encode;
    if i != 0 {
      PlacedAt(pos + |Encode(units[0])|, units[1..], i - 1);
      assert units[1..][..i - 1] == units[..i][1..] && units[..i][0] == units[0];
    }
  }

  /** Where a unit begins in the buffer. */
  function StartOf(units: seq<Unit>, i: nat): nat
    requires KindsFit(units) && i <= |units|
  {
    |EncodeAll(units[..i])|
  }

  /** A byte of a unit's payload leads back to the unit, or to the frame header
      written just before a tile group. */
  lemma {:induction false} TileUnitFound(units: seq<Unit>, i: nat, tile: nat)
    requires KindsFit(units) && SizesFit(units) && i < |units|
    requires StartOf(units, i) + |Encode(units[i])| - |units[i].payload| <= tile < StartOf(units, i) + |Encode(units[i])|
    ensures StartFor(EncodeAll(units), tile) ==
      if units[i].kind == 4 && 0 < i && units[i - 1].kind == 3
      then StartOf(units, i - 1) else StartOf(units, i)
  {
    hide ChainFrom, Encode, Placed, EncodeAll;
    var buf := EncodeAll(units);
    ChainInverts(units);
    PlacedAt(0, units, i);
    if 0 < i {
      PlacedAt(0, units, i - 1);
    }
    assert Carries(ChainFrom(buf, 0)[i], tile);
    CarrierFound(buf, tile, i);
  }

  // ------------------------------------------------------------- cut short

  lemma {:induction false} LebCutShort(before: seq<Byte>, v: nat, m: nat, i: nat)
    requires m < |EncodeLeb(v)|
    ensures ReadLeb(before + EncodeLeb(v)[..m], |before|, i) == Bad
    decreases v
  {
    if m == 0 {
      assert before + EncodeLeb(v)[..m] == before;
    } else {
      var first := EncodeLeb(v)[0];
      assert v >= 0x80;
      LebCutShort(before + [first], v / 0x80, m - 1, i + 1);
      assert before + EncodeLeb(v)[..m] == before + [first] + EncodeLeb(v / 0x80)[..m - 1];
    }
  }

  /** A unit of which only a part is there is not taken for a unit. */
  lemma {:induction false} UnitCutShort(before: seq<Byte>, u: Unit, n: nat)
    requires u.kind < KINDS && 0 < n < |Encode(u)|
    ensures ObuAt(before + Encode(u)[..n], |before|) == Broken
  {
    hide ReadLeb, EncodeLeb, Header, HasExtension, HasSize, KindOf;
    var head, leb := Head(u, true), EncodeLeb(|u.payload|);
    var buf := before + Encode(u)[..n];
    assert buf[|before|] == head[0];
    HeaderBits(u, true);
    if |head| <= n {
      var before' := before + head;
      var m := n - |head|;
      if m < |leb| {
        assert buf == before' + leb[..m];
        LebCutShort(before', |u.payload|, m, 0);
      } else {
        var part := u.payload[..m - |leb|];
        assert buf == before' + leb + part;
        LebInverts(before', |u.payload|, part);
      }
    }
  }

  /** So a chain ends with the last whole unit when the buffer is cut short. */
  lemma {:induction false} ChainCutShort(units: seq<Unit>, last: Unit, n: nat)
    requires KindsFit(units) && SizesFit(units) && last.kind < KINDS && 0 < n < |Encode(last)|
    ensures ChainFrom(EncodeAll(units) + Encode(last)[..n], 0) == Placed(0, units)
  {
    hide ChainFrom, ObuAt, Encode, Placed;
    var before, part := EncodeAll(units), Encode(last)[..n];
    ChainThrough([], units, part);
    assert [] + before + part == before + part;
    UnitCutShort(before, last, n);
    ChainStep(before + part, |before|);
  }
}
