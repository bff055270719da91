/** The growable buffer behind bitstreams, slice offsets and the interval arena
    (src/appendable-buffer.c). Sizes and capacities are in bytes, as in the
    source; the block itself is a sequence of whole elements of `width` bytes.
    Whether an allocation succeeds is the parameter `granted`. */
module AppendableBuffers {
  import opened Basics

  const FIRST_CAPACITY: nat := 256

  type Byte = b: int | 0 <= b < 256

  /** The capacity the growth loop settles on, started at `capacity`. */
  function Grown(capacity: nat, required: nat): (r: nat)
    ensures required <= r && capacity <= r
    decreases required - capacity
  {
    if required <= capacity then capacity
    else
      var growth := capacity / 2;
      if growth == 0 || capacity > SIZE_MAX - growth then required
      else Grown(capacity + growth, required)
  }

  /** The capacity in force after a successful reservation of `required` bytes. */
  function CapacityFor(held: nat, required: nat): (r: nat)
    ensures required <= r && held <= r
  {
    if required <= held then held
    else Grown(if held != 0 then held else FIRST_CAPACITY, required)
  }

  /** `n` elements of `width` bytes fit in `bytes` exactly when `n` whole
      elements do. */
  lemma WholeElements(n: nat, width: nat, bytes: nat)
    requires 0 < width
    ensures n * width <= bytes <==> n <= bytes / width
  {
    var q := bytes / width;
    assert q * width <= bytes < q * width + width;
    if n <= q {
      MulMonotone(n, q, width);
    } else {
      MulMonotone(q + 1, n, width);
      assert (q + 1) * width == q * width + width;
    }
  }

  lemma AppendArithmetic(count: nat, n: nat, width: nat, bytes: nat)
    requires 0 < width && count * width + n * width <= bytes
    ensures (count + n) * width == count * width + n * width
    ensures count + n <= bytes / width
  {
    WholeElements(count + n, width, bytes);
  }

  /** Byte counts of a buffer: logical size, capacity, and the total that
      reallocations have copied so far. */
  datatype Ledger = Ledger(size: nat, capacity: nat, copied: nat)

  /** One append of `bytes` bytes. */
  function AppendStep(l: Ledger, bytes: nat, granted: bool): Ledger {
    var required := l.size + bytes;
    if bytes == 0 || required > SIZE_MAX then l
    else if required <= l.capacity then l.(size := required)
    else if !granted then l
    else Ledger(required, CapacityFor(l.capacity, required), l.copied + l.size)
  }

  /** Within the capacity an append moves the size and nothing else. */
  lemma AppendFits(l: Ledger, bytes: nat, granted: bool)
    requires l.size + bytes <= l.capacity <= SIZE_MAX
    ensures AppendStep(l, bytes, granted) == l.(size := l.size + bytes)
  {
  }

  lemma {:induction false} GrownFits(capacity: nat, required: nat)
    requires capacity <= SIZE_MAX && required <= SIZE_MAX
    ensures Grown(capacity, required) <= SIZE_MAX
    decreases required - capacity
  {
    if capacity < required && capacity / 2 != 0 && capacity <= SIZE_MAX - capacity / 2 {
      GrownFits(capacity + capacity / 2, required);
    }
  }

  /** An append keeps the size within the capacity and both within range. */
  lemma AppendStepFits(l: Ledger, bytes: nat, granted: bool)
    requires l.size <= l.capacity <= SIZE_MAX
    ensures AppendStep(l, bytes, granted).size <= AppendStep(l, bytes, granted).capacity <= SIZE_MAX
  {
    var required := l.size + bytes;
    if l.capacity < required <= SIZE_MAX {
      GrownFits(if l.capacity != 0 then l.capacity else FIRST_CAPACITY, required);
    }
  }

  class AppendableBuffer<T(0)> {
    const width: nat
    var mem: seq<T>
    var count: nat
    var size: nat
    var capacity: nat
    var failed: bool
    ghost var copied: nat

    /** `count` is `size` in elements; it is what a cast of `buf` sees. */
    ghost predicate Valid()
      reads this
    {
      && 0 < width
      && size == count * width
      && count <= |mem| == capacity / width
      && size <= capacity <= SIZE_MAX
    }

    ghost function Contents(): seq<T>
      requires Valid()
      reads this
    {
      mem[..count]
    }

    ghost function Account(): Ledger
      reads this
    {
      Ledger(size, capacity, copied)
    }

    constructor (width: nat)
      requires 0 < width
      ensures this.width == width && Valid()
      ensures Contents() == [] && Account() == Ledger(0, 0, 0) && !failed
    {
      this.width := width;
      mem, count, size, capacity, failed, copied := [], 0, 0, 0, false, 0;
    }

    /** Reallocation keeps exactly the first `size` bytes; the rest of the new
        block is arbitrary. */
    method Reserve(required: nat, granted: bool) returns (ok: bool)
      requires Valid() && required <= SIZE_MAX
      modifies this`mem, this`capacity, this`failed, this`copied
      ensures Valid()
      ensures ok == (required <= old(capacity) || granted)
      ensures Contents() == old(Contents())
      ensures capacity == if ok then CapacityFor(old(capacity), required) else old(capacity)
      ensures failed == (old(failed) || !ok)
      ensures required <= old(capacity) || !ok ==> mem == old(mem) && copied == old(copied)
      ensures old(capacity) < required && ok ==> copied == old(copied) + size
    {
      if required <= capacity {
        return true;
      }
      var grown := if capacity != 0 then capacity else FIRST_CAPACITY;
      ghost var first := grown;
      while grown < required
        invariant 0 < grown <= SIZE_MAX
        invariant Grown(first, required) == Grown(grown, required)
        invariant first <= grown
        decreases required - grown
      {
        var growth := grown / 2;
        if growth == 0 || grown > SIZE_MAX - growth {
          grown := required;
          break;
        }
        grown := grown + growth;
      }
      if !granted {
        failed := true;
        return false;
      }
      WholeElements(count, width, grown);
      var block := Junk(grown / width);
      mem := mem[..count] + block[count..];
      copied := copied + size;
      capacity := grown;
      return true;
    }

    /** Uninitialised memory. */
    static method Junk(n: nat) returns (s: seq<T>)
      ensures |s| == n
    {
      s := [];
      while |s| < n
        invariant |s| <= n
      {
        var t: T := *;
        s := s + [t];
      }
    }

    method ReserveAdditional(additional: nat, granted: bool) returns (ok: bool)
      requires Valid() && additional <= SIZE_MAX
      modifies this`mem, this`capacity, this`failed, this`copied
      ensures Valid()
      ensures ok == (size + additional <= SIZE_MAX && (size + additional <= old(capacity) || granted))
      ensures Contents() == old(Contents())
      ensures ok ==> size + additional <= capacity
      ensures capacity == if ok then CapacityFor(old(capacity), size + additional) else old(capacity)
      ensures copied == old(copied) + if ok && old(capacity) < size + additional then size else 0
      ensures failed == (old(failed) || !ok)
    {
      if size > SIZE_MAX - additional {
        failed := true;
        return false;
      }
      ok := Reserve(size + additional, granted);
    }

    method ReserveElements(elements: nat, elementSize: nat, granted: bool) returns (ok: bool)
      requires Valid() && elements <= SIZE_MAX && elementSize <= SIZE_MAX
      modifies this`mem, this`capacity, this`failed, this`copied
      ensures Valid()
      ensures ok == (size + elementSize * elements <= SIZE_MAX &&
                     (size + elementSize * elements <= old(capacity) || granted))
      ensures Contents() == old(Contents())
      ensures ok ==> size + elementSize * elements <= capacity
      ensures failed == (old(failed) || !ok)
    {
      var bytes := elementSize * elements;
      if elements != 0 {
        WholeElements(elementSize, elements, SIZE_MAX);
      }
      if elements != 0 && elementSize > SIZE_MAX / elements {
        failed := true;
        return false;
      }
      ok := ReserveAdditional(bytes, granted);
    }

    /** `present` is false for a null data pointer. */
    method Append(data: seq<T>, present: bool, granted: bool) returns (ok: bool)
      requires Valid() && |data| * width <= SIZE_MAX
      modifies this
      ensures Valid()
      ensures ok == (data == [] || (present && old(size) + |data| * width <= SIZE_MAX &&
                                    (old(size) + |data| * width <= old(capacity) || granted)))
      ensures Contents() == if ok then old(Contents()) + data else old(Contents())
      ensures size == old(size) + if ok then |data| * width else 0
      ensures present ==> Account() == AppendStep(old(Account()), |data| * width, granted)
      ensures !present ==> Account() == old(Account())
      ensures failed == (old(failed) || !ok)
    {
      var bytes := |data| * width;
      if data == [] {
        return true;
      }
      MulMonotone(1, |data|, width);
      if !present || size > SIZE_MAX - bytes {
        failed := true;
        return false;
      }
      var required := size + bytes;
      ok := Reserve(required, granted);
      if !ok {
        return;
      }
      AppendArithmetic(count, |data|, width, capacity);
      ghost var before := mem[..count];
      mem := mem[..count] + data + mem[count + |data|..];
      count := count + |data|;
      size := required;
      assert mem[..count] == before + data;
    }

    /** Writes one element behind the live ones, where room has been reserved. */
    method Place(x: T)
      requires Valid() && (count + 1) * width <= capacity
      modifies this`mem, this`count, this`size
      ensures Valid() && count == old(count) + 1
      ensures old(count) < |mem| && mem == old(mem)[old(count) := x]
    {
      AppendArithmetic(count, 1, width, capacity);
      mem := mem[count := x];
      count := count + 1;
      size := count * width;
    }

    method Trim(target: nat, granted: bool) returns (ok: bool)
      requires Valid()
      modifies this`mem, this`capacity
      ensures Valid()
      ensures Contents() == old(Contents())
      ensures ok == (old(capacity) <= Max(target, size) || Max(target, size) == 0 || granted)
      ensures capacity == if ok && Max(target, size) < old(capacity) then Max(target, size) else old(capacity)
    {
      var grown := if target < size then size else target;
      if grown >= capacity {
        return true;
      }
      if grown == 0 {
        mem, capacity := [], 0;
        WholeElements(1, width, 0);
        return true;
      }
      if !granted {
        return false;
      }
      WholeElements(count, width, grown);
      var block := Junk(grown / width);
      mem := mem[..count] + block[count..];
      capacity := grown;
      return true;
    }
  }

  // ---------------------------------------------------------- amortised growth

  datatype Chunk = Chunk(data: seq<Byte>, granted: bool)

  ghost function AppendRun(l: Ledger, chunks: seq<Chunk>): Ledger {
    if chunks == [] then l
    else
      var last := chunks[|chunks| - 1];
      AppendStep(AppendRun(l, chunks[..|chunks| - 1]), |last.data|, last.granted)
  }

  /** The chunks that were accepted, end to end. */
  ghost function Joined(chunks: seq<Chunk>, accepted: seq<bool>): seq<Byte>
    requires |chunks| == |accepted|
  {
    if chunks == [] then []
    else
      var n := |chunks| - 1;
      Joined(chunks[..n], accepted[..n]) + if accepted[n] then chunks[n].data else []
  }

  /** One reallocation grows a block of at least two bytes to half as much again, short of
      the top of the address space. */
  lemma GrowthIsGeometric(capacity: nat, required: nat)
    requires 2 <= capacity < required && 3 * Grown(capacity, required) <= 2 * SIZE_MAX
    ensures 2 * Grown(capacity, required) >= 3 * capacity - 1
  {
  }

  /** And it never takes more than half as much again as was asked. */
  lemma {:induction false} GrowthIsTight(capacity: nat, required: nat)
    requires capacity < required
    ensures required <= Grown(capacity, required) <= required + required / 2
    decreases required - capacity
  {
    var growth := capacity / 2;
    if growth != 0 && capacity <= SIZE_MAX - growth && capacity + growth < required {
      GrowthIsTight(capacity + growth, required);
    }
  }

  /** The first block has 256 bytes, and each step adds half, rounded down. */
  lemma FirstBlocks()
    ensures CapacityFor(0, 1) == CapacityFor(0, 256) == 256 && CapacityFor(0, 257) == CapacityFor(256, 257) == 384
    ensures CapacityFor(0, 385) == CapacityFor(384, 385) == 576 && CapacityFor(3, 4) == 4 && CapacityFor(1, 9) == 9
  {
    assert Grown(384, 385) == 576;
    assert Grown(256, 385) == Grown(384, 385);
  }

  /** Past that point growth is no longer geometric: the block gets exactly what was asked. */
  lemma GrowthSaturates(capacity: nat, required: nat)
    requires capacity < required && capacity + capacity / 2 > SIZE_MAX
    ensures Grown(capacity, required) == required
  {
  }

  ghost predicate Amortised(l: Ledger) {
    && l.size <= l.capacity
    && (l.capacity == 0 ==> l.copied == 0)
    && (l.capacity != 0 ==> 256 <= l.capacity)
    && 100 * l.copied <= 201 * l.capacity
    && 100 * l.copied <= 301 * l.size
  }

  lemma AppendStepAmortised(l: Ledger, bytes: nat, granted: bool)
    requires Amortised(l) && 3 * AppendStep(l, bytes, granted).capacity <= 2 * SIZE_MAX
    ensures Amortised(AppendStep(l, bytes, granted))
  {
    var required := l.size + bytes;
    if l.capacity != 0 && l.capacity < required {
      if AppendStep(l, bytes, granted) != l {
        GrowthIsGeometric(l.capacity, required);
      }
    }
  }

  lemma AppendStepGrows(l: Ledger, bytes: nat, granted: bool)
    ensures l.capacity <= AppendStep(l, bytes, granted).capacity
  {
  }

  lemma {:induction false} AppendRunAmortised(chunks: seq<Chunk>)
    requires 3 * AppendRun(Ledger(0, 0, 0), chunks).capacity <= 2 * SIZE_MAX
    ensures Amortised(AppendRun(Ledger(0, 0, 0), chunks))
  {
    if chunks != [] {
      var n := |chunks| - 1;
      var before := AppendRun(Ledger(0, 0, 0), chunks[..n]);
      AppendStepGrows(before, |chunks[n].data|, chunks[n].granted);
      AppendRunAmortised(chunks[..n]);
      AppendStepAmortised(before, |chunks[n].data|, chunks[n].granted);
    }
  }

  lemma OneMoreChunk(chunks: seq<Chunk>, i: nat, accepted: seq<bool>, ok: bool)
    requires i < |chunks| && |accepted| == i
    ensures Joined(chunks[..i + 1], accepted + [ok]) ==
      Joined(chunks[..i], accepted) + if ok then chunks[i].data else []
    ensures AppendRun(Ledger(0, 0, 0), chunks[..i + 1]) ==
      AppendStep(AppendRun(Ledger(0, 0, 0), chunks[..i]), |chunks[i].data|, chunks[i].granted)
  {
    hide AppendStep;
    assert chunks[..i + 1][..i] == chunks[..i];
    assert (accepted + [ok])[..i] == accepted;
  }

  lemma AmortisedBound(l: Ledger)
    requires Amortised(l)
    ensures 100 * l.copied <= 301 * l.size
  {
  }

  /** Any append-only run on a fresh byte buffer holds the accepted chunks end to
      end, and its reallocations copied at most 3.01 times what it holds. */
  method AppendAll(chunks: seq<Chunk>) returns (b: AppendableBuffer<Byte>, accepted: seq<bool>)
    requires forall c :: c in chunks ==> |c.data| <= SIZE_MAX
    ensures b.Valid() && |accepted| == |chunks|
    ensures b.Contents() == Joined(chunks, accepted)
    ensures b.Account() == AppendRun(Ledger(0, 0, 0), chunks)
    ensures 3 * b.capacity <= 2 * SIZE_MAX ==> 100 * b.copied <= 301 * |b.Contents()|
  {
    hide AppendStep, Amortised;
    b := new AppendableBuffer<Byte>(1);
    accepted := [];
    for i := 0 to |chunks|
      invariant b.Valid() && b.width == 1 && fresh(b)
      invariant |accepted| == i
      invariant b.Contents() == Joined(chunks[..i], accepted)
      invariant b.Account() == AppendRun(Ledger(0, 0, 0), chunks[..i])
    {
      assert chunks[i] in chunks;
      assert |chunks[i].data| * b.width == |chunks[i].data|;
      var ok := b.Append(chunks[i].data, true, chunks[i].granted);
      OneMoreChunk(chunks, i, accepted, ok);
      accepted := accepted + [ok];
    }
    assert chunks[..|chunks|] == chunks;
    if 3 * b.capacity <= 2 * SIZE_MAX {
      AppendRunAmortised(chunks);
      AmortisedBound(b.Account());
    }
  }
}
