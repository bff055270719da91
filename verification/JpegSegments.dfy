/** Marker segments of a JPEG stream (ITU-T T.81, Annex B): how they are written,
    and a walk that reads them back up to the first scan. */
module JpegSegments {
  import opened Basics
  import opened AppendableBuffers

  const MARKER: Byte := 0xFF
  const SOI: Byte := 0xD8
  const EOI: Byte := 0xD9
  const APP0: Byte := 0xE0
  const DQT: Byte := 0xDB
  const SOF0: Byte := 0xC0
  const DHT: Byte := 0xC4
  const DRI: Byte := 0xDD
  const SOS: Byte := 0xDA

  datatype Segment = Segment(marker: Byte, payload: seq<Byte>)

  function Be16(v: nat): (r: seq<Byte>)
    ensures |r| == 2
  {
    [v / 256 % 256, v % 256]
  }

  function FromBe16(s: seq<Byte>): nat
    requires |s| == 2
  {
    var high: int := s[0];
    high * 256 + s[1]
  }

  lemma Be16RoundTrip(v: nat)
    requires v < 0x1_0000
    ensures FromBe16(Be16(v)) == v
    ensures (Be16(v)[0] as int) * 256 + (Be16(v)[1] as int) == v
  {
  }

  /** A segment: marker, length (which counts itself), payload. */
  function Encode(s: Segment): (r: seq<Byte>)
    ensures |r| == |s.payload| + 4
  {
    [MARKER, s.marker] + Be16(|s.payload| + 2) + s.payload
  }

  function EncodeAll(segs: seq<Segment>): seq<Byte> {
    if segs == [] then [] else EncodeAll(segs[..|segs| - 1]) + Encode(segs[|segs| - 1])
  }

  // ------------------------------------------------------------------- walk

  datatype Walked = Walked(segments: seq<Segment>, next: nat)

  /** Reads segments from `pos` up to and including a start of scan. Markers are
      those of table B.1. */
  function Walk(bytes: seq<Byte>, pos: nat): (r: Option<Walked>)
    decreases |bytes| - pos
  {
    if pos + 4 > |bytes| || bytes[pos] != 0xFF then None
    else
      var length := FromBe16(bytes[pos + 2..pos + 4]);
      if length < 2 || pos + 2 + length > |bytes| then None
      else
        var seg := Segment(bytes[pos + 1], bytes[pos + 4..pos + 2 + length]);
        if seg.marker == 0xDA then Some(Walked([seg], pos + 2 + length))
        else Prepend(seg, Walk(bytes, pos + 2 + length))
  }

  function Prepend(seg: Segment, w: Option<Walked>): Option<Walked> {
    match w
    case None => None
    case Some(w) => Some(Walked([seg] + w.segments, w.next))
  }

  /** Segments that fit, ending with the only start of scan. */
  ghost predicate Walkable(segs: seq<Segment>) {
    && segs != []
    && (forall i :: 0 <= i < |segs| ==> |segs[i].payload| + 2 < 0x1_0000)
    && (forall i :: 0 <= i < |segs| - 1 ==> segs[i].marker != SOS)
    && segs[|segs| - 1].marker == SOS
  }

  lemma {:induction false} EncodeAllFront(segs: seq<Segment>)
    requires segs != []
    ensures EncodeAll(segs) == Encode(segs[0]) + EncodeAll(segs[1..])
  {
    hide Encode;
    var n := |segs| - 1;
    if n == 0 {
      assert segs[..0] == [] && segs[1..] == [];
      assert EncodeAll(segs) == [] + Encode(segs[0]);
    } else {
      EncodeAllFront(segs[..n]);
      assert segs[..n][1..] == segs[1..][..n - 1];
      Assoc(Encode(segs[0]), EncodeAll(segs[1..][..n - 1]), Encode(segs[n]));
    }
  }

  lemma Middle<T>(a: seq<T>, b: seq<T>, c: seq<T>, lo: nat, hi: nat)
    requires lo <= hi <= |b|
    ensures (a + b + c)[|a| + lo..|a| + hi] == b[lo..hi]
  {
  }

  lemma EncodedParts(seg: Segment)
    ensures var e := Encode(seg);
      e[0] == MARKER && e[1] == seg.marker && e[2..4] == Be16(|seg.payload| + 2) && e[4..|e|] == seg.payload
  {
  }

  /** `bytes` holds `seg` at `pos`. */
  ghost predicate HoldsAt(bytes: seq<Byte>, pos: nat, seg: Segment) {
    && pos + 4 + |seg.payload| <= |bytes|
    && bytes[pos] == MARKER && bytes[pos + 1] == seg.marker
    && FromBe16(bytes[pos + 2..pos + 4]) == |seg.payload| + 2
    && bytes[pos + 4..pos + 4 + |seg.payload|] == seg.payload
  }

  lemma EncodedHolds(before: seq<Byte>, seg: Segment, after: seq<Byte>)
    requires |seg.payload| + 2 < 0x1_0000
    ensures HoldsAt(before + Encode(seg) + after, |before|, seg)
  {
    hide Be16, FromBe16, Encode;
    var bytes, pos, e := before + Encode(seg) + after, |before|, Encode(seg);
    EncodedParts(seg);
    assert bytes[pos + 0] == e[0] && bytes[pos + 1] == e[1];
    Middle(before, e, after, 2, 4);
    Middle(before, e, after, 4, |e|);
    Be16RoundTrip(|seg.payload| + 2);
  }

  /** One step of the walk. */
  lemma {:induction false} WalkStep(bytes: seq<Byte>, pos: nat, seg: Segment)
    requires HoldsAt(bytes, pos, seg)
    ensures var next := pos + 4 + |seg.payload|;
      Walk(bytes, pos) ==
        if seg.marker == SOS then Some(Walked([seg], next)) else Prepend(seg, Walk(bytes, next))
  {
    hide FromBe16, Prepend;
  }

  /** The walk recovers exactly the segments that were written. */
  lemma {:induction false} WalkInverts(before: seq<Byte>, segs: seq<Segment>, after: seq<Byte>)
    requires Walkable(segs)
    ensures Walk(before + EncodeAll(segs) + after, |before|) ==
      Some(Walked(segs, |before| + |EncodeAll(segs)|))
    decreases |segs|
  {
    hide Walk, Encode, HoldsAt;
    var seg, rest := segs[0], segs[1..];
    var before' := before + Encode(seg);
    EncodeAllFront(segs);
    Assoc(before, Encode(seg), EncodeAll(rest));
    Assoc(before', EncodeAll(rest), after);
    EncodedHolds(before, seg, EncodeAll(rest) + after);
    WalkStep(before + EncodeAll(segs) + after, |before|, seg);
    if |segs| == 1 {
      assert rest == [] && segs == [seg];
      assert EncodeAll(rest) == [];
    } else {
      WalkInverts(before', rest, after);
      assert segs == [seg] + rest;
    }
  }

  lemma {:induction false} EncodeAllJoins(a: seq<Segment>, b: seq<Segment>)
    ensures EncodeAll(a + b) == EncodeAll(a) + EncodeAll(b)
    decreases |b|
  {
    hide Encode;
    if b == [] {
      assert a + b == a;
    } else {
      var n := |b| - 1;
      EncodeAllJoins(a, b[..n]);
      assert (a + b)[..|a| + n] == a + b[..n];
      Assoc(EncodeAll(a), EncodeAll(b[..n]), Encode(b[n]));
    }
  }

  // --------------------------------------------------------------- payloads

  /** Bitwise or of two `bits`-bit numbers. */
  function Or(a: nat, b: nat, bits: nat): nat {
    if bits == 0 then 0
    else 2 * Or(a / 2, b / 2, bits - 1) + if a % 2 == 1 || b % 2 == 1 then 1 else 0
  }

  lemma {:induction false} OrFits(a: nat, b: nat, bits: nat)
    requires bits <= 8
    ensures Or(a, b, bits) <= 255
    ensures bits <= 7 ==> Or(a, b, bits) <= 127
    ensures bits <= 6 ==> Or(a, b, bits) <= 63
    ensures bits <= 5 ==> Or(a, b, bits) <= 31
    ensures bits <= 4 ==> Or(a, b, bits) <= 15
    ensures bits <= 3 ==> Or(a, b, bits) <= 7
    ensures bits <= 2 ==> Or(a, b, bits) <= 3
    ensures bits <= 1 ==> Or(a, b, bits) <= 1
  {
    if bits != 0 {
      OrFits(a / 2, b / 2, bits - 1);
    }
  }

  /** `(uint8_t)((hi << 4) | lo)`. */
  function Nibbles(hi: nat, lo: nat): Byte {
    OrFits(hi * 16 % 256, lo, 8);
    Or(hi * 16 % 256, lo, 8)
  }

  /** With 4-bit parts the two halves can be read back. */
  lemma NibblesSplit(hi: nat, lo: nat)
    requires hi < 16 && lo < 16
    ensures Nibbles(hi, lo) == 16 * hi + lo
    ensures Nibbles(hi, lo) / 16 == hi && Nibbles(hi, lo) % 16 == lo
  {
    hide Or;
    assert lo / 8 / 2 == 0 && lo / 4 / 2 == lo / 8 && lo / 2 / 2 == lo / 4;
    OrZero(hi);
    OrDouble(hi, lo / 8, 4);
    OrDouble(2 * hi, lo / 4, 5);
    OrDouble(2 * (2 * hi), lo / 2, 6);
    OrDouble(2 * (2 * (2 * hi)), lo, 7);
    assert hi * 16 % 256 == 2 * (2 * (2 * (2 * hi)));
  }

  lemma OrDouble(a: nat, b: nat, bits: nat)
    ensures Or(2 * a, b, bits + 1) == 2 * Or(a, b / 2, bits) + b % 2
  {
  }

  lemma OrZero(h: nat)
    requires h < 16
    ensures Or(h, 0, 4) == h
  {
    assert Or(h / 8, 0, 1) == h / 8;
    assert Or(h / 4, 0, 2) == h / 4;
    assert Or(h / 2, 0, 3) == h / 2;
  }
}
