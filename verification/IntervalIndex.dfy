/** The arena-allocated interval index of src/av1-interval-index.c. Links are
    one-based arena ids and zero is nil; nodes are rewritten in place. */
module IntervalIndexes {
  import opened AppendableBuffers
  import opened IntervalTrees

  const CAPACITY: nat := 4096
  const NODE_BYTES: nat := 16

  datatype ArenaNode = ArenaNode(start: nat, end: nat, left: nat, right: nat, height: nat)

  // ------------------------------------------------- the arena as a tree

  function StoredHeight(arena: seq<ArenaNode>, id: nat): nat
    requires id <= |arena|
  {
    if id == 0 then 0 else arena[id - 1].height
  }

  /** The arena, read from `root`, spells out `t`; at the root itself the stored
      height may be stale. */
  ghost predicate Shape(arena: seq<ArenaNode>, root: nat, t: Tree) {
    match t
    case Leaf => root == 0
    case Node(id, iv, l, r) =>
      && root == id && 1 <= id <= |arena|
      && var n := arena[id - 1];
      && n.start == iv.lo && n.end == iv.hi
      && Rep(arena, n.left, l) && Rep(arena, n.right, r)
  }

  /** The arena, read from `root`, spells out `t` with exact stored heights. */
  ghost predicate Rep(arena: seq<ArenaNode>, root: nat, t: Tree)
    decreases t
  {
    match t
    case Leaf => root == 0
    case Node(id, iv, l, r) =>
      && root == id && 1 <= id <= |arena|
      && var n := arena[id - 1];
      && n.start == iv.lo && n.end == iv.hi && n.height == Height(t)
      && Rep(arena, n.left, l) && Rep(arena, n.right, r)
  }

  ghost predicate Same(a: seq<ArenaNode>, b: seq<ArenaNode>, id: nat) {
    1 <= id <= |a| ==> id <= |b| && b[id - 1] == a[id - 1]
  }

  /** `after` differs from `before` only at the ids in `touched`. */
  ghost predicate ChangedOnly(before: seq<ArenaNode>, after: seq<ArenaNode>, touched: set<nat>) {
    && |after| == |before|
    && forall id: nat {:trigger Same(before, after, id)} :: id !in touched ==> Same(before, after, id)
  }

  /** Writes outside a subtree, and reallocations that copy it, do not disturb it. */
  lemma {:induction false} RepFrame(a: seq<ArenaNode>, b: seq<ArenaNode>, root: nat, t: Tree)
    requires Rep(a, root, t)
    requires forall id {:trigger Same(a, b, id)} :: id in Ids(t) ==> Same(a, b, id)
    ensures Rep(b, root, t)
    decreases t
  {
    if t.Node? {
      assert t.id in Ids(t) && Same(a, b, t.id);
      RepFrame(a, b, a[t.id - 1].left, t.left);
      RepFrame(a, b, a[t.id - 1].right, t.right);
    }
  }

  lemma {:induction false} RepHeight(arena: seq<ArenaNode>, root: nat, t: Tree)
    requires Rep(arena, root, t)
    ensures root <= |arena| && StoredHeight(arena, root) == Height(t)
    ensures root != 0 <==> t.Node?
  {
  }

  lemma {:induction false} ChangedTwice(a: seq<ArenaNode>, b: seq<ArenaNode>, c: seq<ArenaNode>, first: set<nat>, second: set<nat>)
    requires ChangedOnly(a, b, first) && ChangedOnly(b, c, second)
    ensures ChangedOnly(a, c, first + second)
  {
    forall id: nat | id !in first + second
      ensures Same(a, c, id)
    {
      assert Same(a, b, id) && Same(b, c, id);
    }
  }

  lemma {:induction false} ChangedMore(a: seq<ArenaNode>, b: seq<ArenaNode>, small: set<nat>, large: set<nat>)
    requires ChangedOnly(a, b, small) && small <= large
    ensures ChangedOnly(a, b, large)
  {
  }

  lemma {:induction false} HeightWritten(a: seq<ArenaNode>, b: seq<ArenaNode>, t: Tree)
    requires t.Node? && Shape(a, t.id, t) && t.id !in Ids(t.left) + Ids(t.right)
    requires b == a[t.id - 1 := a[t.id - 1].(height := Height(t))]
    ensures Rep(b, t.id, t)
    ensures ChangedOnly(a, b, {t.id})
  {
    RepFrame(a, b, a[t.id - 1].left, t.left);
    RepFrame(a, b, a[t.id - 1].right, t.right);
  }

  /** Neither a node nor its child `c` is among the subtrees that a rotation moves. */
  lemma {:induction false} ApartFromChildren(t: Tree, c: Tree)
    requires t.Node? && c.Node? && Distinct(t) && (c == t.left || c == t.right)
    ensures t.id != c.id
    ensures t.id !in Ids(t.left) + Ids(t.right) + Ids(c.left) + Ids(c.right)
    ensures c.id !in Ids(c.left) + Ids(c.right)
    ensures c.id !in Ids(if c == t.left then t.right else t.left)
  {
    assert c.id in Ids(c) && Ids(c.left) + Ids(c.right) <= Ids(c);
  }

  lemma {:induction false} OnlyTheseTwo(a: seq<ArenaNode>, b: seq<ArenaNode>, x: nat, y: nat)
    requires 1 <= x <= |a| && 1 <= y <= |a| && |a| == |b|
    requires b == a[x - 1 := b[x - 1]][y - 1 := b[y - 1]]
    ensures ChangedOnly(a, b, {x, y})
  {
  }

  /** The two link writes of a left rotation, before any height is redone. */
  lemma {:induction false} LeftLinksWritten(a: seq<ArenaNode>, b: seq<ArenaNode>, t: Tree)
    requires t.Node? && t.right.Node? && Shape(a, t.id, t) && Distinct(t)
    requires b == a[t.id - 1 := a[t.id - 1].(right := a[t.right.id - 1].left)]
                   [t.right.id - 1 := a[t.right.id - 1].(left := t.id)]
    ensures Shape(b, t.id, t.(right := t.right.left))
    ensures Rep(b, b[t.right.id - 1].right, t.right.right)
    ensures ChangedOnly(a, b, {t.id, t.right.id})
    ensures t.id !in Ids(t.left) + Ids(t.right.left)
  {
    hide Ids;
    ApartFromChildren(t, t.right);
    OnlyTheseTwo(a, b, t.id, t.right.id);
    RepFrame(a, b, a[t.id - 1].left, t.left);
    RepFrame(a, b, a[t.right.id - 1].left, t.right.left);
    RepFrame(a, b, a[t.right.id - 1].right, t.right.right);
  }

  lemma {:induction false} RightLinksWritten(a: seq<ArenaNode>, b: seq<ArenaNode>, t: Tree)
    requires t.Node? && t.left.Node? && Shape(a, t.id, t) && Distinct(t)
    requires b == a[t.id - 1 := a[t.id - 1].(left := a[t.left.id - 1].right)]
                   [t.left.id - 1 := a[t.left.id - 1].(right := t.id)]
    ensures Shape(b, t.id, t.(left := t.left.right))
    ensures Rep(b, b[t.left.id - 1].left, t.left.left)
    ensures ChangedOnly(a, b, {t.id, t.left.id})
    ensures t.id !in Ids(t.left.right) + Ids(t.right)
  {
    hide Ids;
    ApartFromChildren(t, t.left);
    OnlyTheseTwo(a, b, t.id, t.left.id);
    RepFrame(a, b, a[t.id - 1].right, t.right);
    RepFrame(a, b, a[t.left.id - 1].left, t.left.left);
    RepFrame(a, b, a[t.left.id - 1].right, t.left.right);
  }

  /** A child subtree was rebuilt in place; linking it in leaves the other child alone. */
  lemma {:induction false} LeftChildReplaced(a: seq<ArenaNode>, b: seq<ArenaNode>, t: Tree, child: nat, inner: Tree)
    requires t.Node? && Shape(a, t.id, t) && Distinct(t)
    requires Rep(b, child, inner) && t.id !in Ids(inner) && Ids(inner) !! Ids(t.right)
    requires ChangedOnly(a, b, Ids(t.left) + Ids(inner))
    ensures Shape(b[t.id - 1 := b[t.id - 1].(left := child)], t.id, t.(left := inner))
    ensures ChangedOnly(a, b[t.id - 1 := b[t.id - 1].(left := child)], Ids(t) + Ids(inner))
  {
    var c := b[t.id - 1 := b[t.id - 1].(left := child)];
    assert Same(a, b, t.id);
    RepFrame(b, c, child, inner);
    forall id | id in Ids(t.right)
      ensures Same(a, c, id)
    {
      assert Same(a, b, id);
    }
    RepFrame(a, c, a[t.id - 1].right, t.right);
    forall id: nat | id !in Ids(t) + Ids(inner)
      ensures Same(a, c, id)
    {
      assert Same(a, b, id);
    }
  }

  lemma {:induction false} RightChildReplaced(a: seq<ArenaNode>, b: seq<ArenaNode>, t: Tree, child: nat, inner: Tree)
    requires t.Node? && Shape(a, t.id, t) && Distinct(t)
    requires Rep(b, child, inner) && t.id !in Ids(inner) && Ids(inner) !! Ids(t.left)
    requires ChangedOnly(a, b, Ids(t.right) + Ids(inner))
    ensures Shape(b[t.id - 1 := b[t.id - 1].(right := child)], t.id, t.(right := inner))
    ensures ChangedOnly(a, b[t.id - 1 := b[t.id - 1].(right := child)], Ids(t) + Ids(inner))
  {
    var c := b[t.id - 1 := b[t.id - 1].(right := child)];
    assert Same(a, b, t.id);
    RepFrame(b, c, child, inner);
    forall id | id in Ids(t.left)
      ensures Same(a, c, id)
    {
      assert Same(a, b, id);
    }
    RepFrame(a, c, a[t.id - 1].left, t.left);
    forall id: nat | id !in Ids(t) + Ids(inner)
      ensures Same(a, c, id)
    {
      assert Same(a, b, id);
    }
  }

  /** What the insertion of slot `id` needs of a subtree. */
  ghost predicate Insertable(t: Tree, id: nat, iv: Interval) {
    && Ordered(t) && Balanced(t) && Distinct(t) && Height(t) < 100
    && 1 <= id && id !in Ids(t)
    && NonEmpty(iv) && Clear(iv, Intervals(t))
  }

  lemma {:induction false} InsertableChildren(t: Tree, id: nat, iv: Interval)
    requires t.Node? && Insertable(t, id, iv)
    ensures Insertable(t.left, id, iv) && Insertable(t.right, id, iv)
    ensures var raw := InsertBelow(t, id, iv);
      Distinct(raw) && Ids(raw) == Ids(t) + {id} && CanRotate(raw, iv.lo) && Height(raw) < 200
  {
    InsertBalances(t, id, iv);
    InsertAddsId(t, id, iv);
  }

  lemma {:induction false} InsertedLeft(a: seq<ArenaNode>, b: seq<ArenaNode>, t: Tree, child: nat, id: nat, iv: Interval)
    requires t.Node? && Rep(a, t.id, t) && Distinct(t) && id !in Ids(t) && iv.lo < t.iv.lo
    requires Rep(b, child, Insert(t.left, id, iv)) && ChangedOnly(a, b, Ids(t.left) + {id})
    ensures var c := b[t.id - 1 := b[t.id - 1].(left := child)];
      Shape(c, t.id, InsertBelow(t, id, iv)) && ChangedOnly(a, c, Ids(t) + {id})
  {
    var inner := Insert(t.left, id, iv);
    InsertAddsId(t.left, id, iv);
    ChangedMore(a, b, Ids(t.left) + {id}, Ids(t.left) + Ids(inner));
    LeftChildReplaced(a, b, t, child, inner);
    ChangedMore(a, b[t.id - 1 := b[t.id - 1].(left := child)], Ids(t) + Ids(inner), Ids(t) + {id});
  }

  lemma {:induction false} InsertedRight(a: seq<ArenaNode>, b: seq<ArenaNode>, t: Tree, child: nat, id: nat, iv: Interval)
    requires t.Node? && Rep(a, t.id, t) && Distinct(t) && id !in Ids(t) && iv.lo >= t.iv.lo
    requires Rep(b, child, Insert(t.right, id, iv)) && ChangedOnly(a, b, Ids(t.right) + {id})
    ensures var c := b[t.id - 1 := b[t.id - 1].(right := child)];
      Shape(c, t.id, InsertBelow(t, id, iv)) && ChangedOnly(a, c, Ids(t) + {id})
  {
    var inner := Insert(t.right, id, iv);
    InsertAddsId(t.right, id, iv);
    ChangedMore(a, b, Ids(t.right) + {id}, Ids(t.right) + Ids(inner));
    RightChildReplaced(a, b, t, child, inner);
    ChangedMore(a, b[t.id - 1 := b[t.id - 1].(right := child)], Ids(t) + Ids(inner), Ids(t) + {id});
  }

  /** What the arena holds below `count` survives a reallocation and the writing
      of a new slot. */
  lemma {:induction false} KeptByPrefix(a: seq<ArenaNode>, b: seq<ArenaNode>, count: nat, root: nat, t: Tree)
    requires Rep(a, root, t) && Ids(t) == Slots(count)
    requires count <= |a| && count <= |b| && a[..count] == b[..count]
    ensures Rep(b, root, t)
  {
    forall id | id in Ids(t)
      ensures Same(a, b, id)
    {
      SlotsHas(count, id);
      assert a[..count][id - 1] == b[..count][id - 1];
    }
    RepFrame(a, b, root, t);
  }

  /** A range ending before the root begins can only meet the left subtree. */
  lemma {:induction false} RightOf(t: Tree, iv: Interval)
    requires t.Node? && Ordered(t) && iv.hi <= t.iv.lo
    ensures forall a :: a in Intervals(t) && Overlap(iv, a) ==> a in Intervals(t.left)
  {
  }

  lemma {:induction false} LeftOf(t: Tree, iv: Interval)
    requires t.Node? && Ordered(t) && t.iv.hi <= iv.lo
    ensures forall a :: a in Intervals(t) && Overlap(iv, a) ==> a in Intervals(t.right)
  {
  }

  /** `end` is the largest end in `s`, or zero for the empty set. */
  ghost predicate LastEnd(s: set<Interval>, end: nat) {
    && (forall a :: a in s ==> a.hi <= end)
    && (end == 0 || exists a :: a in s && a.hi == end)
  }

  lemma {:induction false} LastEndGrows(s: set<Interval>, end: nat, iv: Interval)
    requires LastEnd(s, end) && NonEmpty(iv)
    ensures LastEnd(s + {iv}, if iv.hi > end then iv.hi else end)
  {
    assert iv in s + {iv};
    if end != 0 {
      var a :| a in s && a.hi == end;
      assert a in s + {iv};
    }
  }

  /** An ordered, balanced tree over distinct slots. */
  ghost predicate Good(t: Tree) {
    Ordered(t) && Balanced(t) && Distinct(t)
  }

  /** Sixteen levels are enough for a full arena. */
  lemma {:induction false} ShallowEnough(t: Tree, count: nat)
    requires Balanced(t) && Distinct(t) && Ids(t) == Slots(count) && count <= CAPACITY
    ensures Height(t) <= 16
  {
    SlotsCount(count);
    SizeIsIdCount(t);
    HeightBound(t);
  }

  lemma {:induction false} ReadyForNext(t: Tree, id: nat, iv: Interval)
    requires Good(t) && 1 <= id <= CAPACITY && Ids(t) == Slots(id - 1)
    requires NonEmpty(iv) && Clear(iv, Intervals(t))
    ensures Insertable(t, id, iv)
  {
    ShallowEnough(t, id - 1);
    SlotsHas(id - 1, id);
  }

  lemma {:induction false} InsertIsGood(t: Tree, id: nat, iv: Interval)
    requires Insertable(t, id, iv)
    ensures Good(Insert(t, id, iv))
    ensures Ids(Insert(t, id, iv)) == Ids(t) + {id}
    ensures Intervals(Insert(t, id, iv)) == Intervals(t) + {iv}
    ensures Ids(t) == Slots(id - 1) ==> Ids(t) + {id} == Slots(id)
  {
    InsertAdds(t, id, iv);
    InsertAddsId(t, id, iv);
    InsertBalances(t, id, iv);
    SlotsStep(id);
  }

  class IntervalIndex {
    const storage: AppendableBuffer<ArenaNode>
    var maxEnd: nat
    var root: nat
    var count: nat
    ghost var tree: Tree

    ghost predicate Valid()
      reads this, storage
    {
      && storage.Valid() && storage.width == NODE_BYTES
      && count == storage.count <= CAPACITY
      && Rep(storage.mem, root, tree)
      && Good(tree)
      && Ids(tree) == Slots(count)
      && LastEnd(Ranges(), maxEnd)
    }

    ghost function Ranges(): set<Interval>
      reads this
    {
      Intervals(tree)
    }

    constructor ()
      ensures Valid() && Ranges() == {} && fresh(storage) && storage.capacity == 0 && !storage.failed
    {
      storage := new AppendableBuffer<ArenaNode>(NODE_BYTES);
      maxEnd, root, count, tree := 0, 0, 0, Leaf;
    }

    /** Recomputes the 8-bit stored height of a node whose children are exact. */
    method UpdateHeight(id: nat, ghost t: Tree)
      requires t.Node? && Shape(storage.mem, id, t) && t.id !in Ids(t.left) + Ids(t.right)
      requires Height(t) < 256
      modifies storage`mem
      ensures Rep(storage.mem, id, t)
      ensures ChangedOnly(old(storage.mem), storage.mem, {id})
    {
      var n := storage.mem[id - 1];
      RepHeight(storage.mem, n.left, t.left);
      RepHeight(storage.mem, n.right, t.right);
      var l, r := StoredHeight(storage.mem, n.left), StoredHeight(storage.mem, n.right);
      storage.mem := storage.mem[id - 1 := n.(height := (1 + if l > r then l else r) % 256)];
      HeightWritten(old(storage.mem), storage.mem, t);
    }

    method RotateLeftAt(root: nat, ghost t: Tree) returns (next: nat)
      requires t.Node? && t.right.Node? && Shape(storage.mem, root, t) && Distinct(t)
      requires Height(RotateLeft(t)) < 256
      modifies storage`mem
      ensures Rep(storage.mem, next, RotateLeft(t))
      ensures ChangedOnly(old(storage.mem), storage.mem, {t.id, t.right.id})
    {
      var n := storage.mem[root - 1];
      next := n.right;
      storage.mem := storage.mem[root - 1 := n.(right := storage.mem[next - 1].left)];
      storage.mem := storage.mem[next - 1 := storage.mem[next - 1].(left := root)];
      ghost var linked := storage.mem;
      LeftLinksWritten(old(storage.mem), linked, t);
      UpdateHeight(root, t.(right := t.right.left));
      assert Same(linked, storage.mem, next);
      RepFrame(linked, storage.mem, linked[next - 1].right, t.right.right);
      RotateLeftDistinct(t);
      ghost var lowered := storage.mem;
      UpdateHeight(next, RotateLeft(t));
      ChangedTwice(linked, lowered, storage.mem, {root}, {next});
      ChangedTwice(old(storage.mem), linked, storage.mem, {root, next}, {root} + {next});
      assert {root, next} + ({root} + {next}) == {root, next};
    }

    method RotateRightAt(root: nat, ghost t: Tree) returns (next: nat)
      requires t.Node? && t.left.Node? && Shape(storage.mem, root, t) && Distinct(t)
      requires Height(RotateRight(t)) < 256
      modifies storage`mem
      ensures Rep(storage.mem, next, RotateRight(t))
      ensures ChangedOnly(old(storage.mem), storage.mem, {t.id, t.left.id})
    {
      var n := storage.mem[root - 1];
      next := n.left;
      storage.mem := storage.mem[root - 1 := n.(left := storage.mem[next - 1].right)];
      storage.mem := storage.mem[next - 1 := storage.mem[next - 1].(right := root)];
      ghost var linked := storage.mem;
      RightLinksWritten(old(storage.mem), linked, t);
      UpdateHeight(root, t.(left := t.left.right));
      assert Same(linked, storage.mem, next);
      RepFrame(linked, storage.mem, linked[next - 1].left, t.left.left);
      RotateRightDistinct(t);
      ghost var lowered := storage.mem;
      UpdateHeight(next, RotateRight(t));
      ChangedTwice(linked, lowered, storage.mem, {root}, {next});
      ChangedTwice(old(storage.mem), linked, storage.mem, {root, next}, {root} + {next});
      assert {root, next} + ({root} + {next}) == {root, next};
    }

    /** A node too heavy on its left: a single or a double rotation. */
    method RotateLeftHeavy(root: nat, start: nat, ghost t: Tree) returns (top: nat)
      requires t.Node? && t.left.Node? && Rep(storage.mem, root, t) && Distinct(t)
      requires start > t.left.iv.lo ==> t.left.right.Node?
      requires Height(t) < 200
      modifies storage`mem
      ensures Rep(storage.mem, top,
        RotateRight(t.(left := if start > t.left.iv.lo then RotateLeft(t.left) else t.left)))
      ensures ChangedOnly(old(storage.mem), storage.mem, Ids(t))
    {
      var n := storage.mem[root - 1];
      if start > storage.mem[n.left - 1].start {
        top := RotateTwiceLeft(root, t);
      } else {
        RotationHeights(t);
        top := RotateRightAt(root, t);
        ChangedMore(old(storage.mem), storage.mem, {t.id, t.left.id}, Ids(t));
      }
    }

    method RotateTwiceLeft(root: nat, ghost t: Tree) returns (top: nat)
      requires t.Node? && t.left.Node? && t.left.right.Node? && Rep(storage.mem, root, t) && Distinct(t)
      requires Height(t) < 200
      modifies storage`mem
      ensures Rep(storage.mem, top, RotateRight(t.(left := RotateLeft(t.left))))
      ensures ChangedOnly(old(storage.mem), storage.mem, Ids(t))
    {
      ghost var first := storage.mem;
      ghost var inner := RotateLeft(t.left);
      RotateLeftSets(t.left);
      RotateLeftDistinct(t.left);
      RotationHeights(t.left);
      RotationHeights(t.(left := inner));
      var child := RotateLeftAt(storage.mem[root - 1].left, t.left);
      ChangedMore(first, storage.mem, {t.left.id, t.left.right.id}, Ids(t.left) + Ids(inner));
      LeftChildReplaced(first, storage.mem, t, child, inner);
      storage.mem := storage.mem[root - 1 := storage.mem[root - 1].(left := child)];
      ghost var linked := storage.mem;
      top := RotateRightAt(root, t.(left := inner));
      ChangedTwice(first, linked, storage.mem, Ids(t) + Ids(inner), {t.id, inner.id});
      ChangedMore(first, storage.mem, Ids(t) + Ids(inner) + {t.id, inner.id}, Ids(t));
    }

    /** A node too heavy on its right: a single or a double rotation. */
    method RotateRightHeavy(root: nat, start: nat, ghost t: Tree) returns (top: nat)
      requires t.Node? && t.right.Node? && Rep(storage.mem, root, t) && Distinct(t)
      requires start < t.right.iv.lo ==> t.right.left.Node?
      requires Height(t) < 200
      modifies storage`mem
      ensures Rep(storage.mem, top,
        RotateLeft(t.(right := if start < t.right.iv.lo then RotateRight(t.right) else t.right)))
      ensures ChangedOnly(old(storage.mem), storage.mem, Ids(t))
    {
      var n := storage.mem[root - 1];
      if start < storage.mem[n.right - 1].start {
        top := RotateTwiceRight(root, t);
      } else {
        RotationHeights(t);
        top := RotateLeftAt(root, t);
        ChangedMore(old(storage.mem), storage.mem, {t.id, t.right.id}, Ids(t));
      }
    }

    method RotateTwiceRight(root: nat, ghost t: Tree) returns (top: nat)
      requires t.Node? && t.right.Node? && t.right.left.Node? && Rep(storage.mem, root, t) && Distinct(t)
      requires Height(t) < 200
      modifies storage`mem
      ensures Rep(storage.mem, top, RotateLeft(t.(right := RotateRight(t.right))))
      ensures ChangedOnly(old(storage.mem), storage.mem, Ids(t))
    {
      ghost var first := storage.mem;
      ghost var inner := RotateRight(t.right);
      RotateRightSets(t.right);
      RotateRightDistinct(t.right);
      RotationHeights(t.right);
      RotationHeights(t.(right := inner));
      var child := RotateRightAt(storage.mem[root - 1].right, t.right);
      ChangedMore(first, storage.mem, {t.right.id, t.right.left.id}, Ids(t.right) + Ids(inner));
      RightChildReplaced(first, storage.mem, t, child, inner);
      storage.mem := storage.mem[root - 1 := storage.mem[root - 1].(right := child)];
      ghost var linked := storage.mem;
      top := RotateLeftAt(root, t.(right := inner));
      ChangedTwice(first, linked, storage.mem, Ids(t) + Ids(inner), {t.id, inner.id});
      ChangedMore(first, storage.mem, Ids(t) + Ids(inner) + {t.id, inner.id}, Ids(t));
    }

    /** Redoes the height of a node whose child has changed, then rotates from
        the stored heights. */
    method Settle(root: nat, start: nat, ghost t: Tree) returns (top: nat)
      requires t.Node? && Shape(storage.mem, root, t) && Distinct(t)
      requires CanRotate(t, start) && Height(t) < 200
      modifies storage`mem
      ensures Rep(storage.mem, top, Rebalance(t, start))
      ensures ChangedOnly(old(storage.mem), storage.mem, Ids(t))
    {
      ghost var first := storage.mem;
      UpdateHeight(root, t);
      ghost var measured := storage.mem;
      var n := storage.mem[root - 1];
      RepHeight(measured, n.left, t.left);
      RepHeight(measured, n.right, t.right);
      var balance := StoredHeight(storage.mem, n.left) - StoredHeight(storage.mem, n.right);
      if balance > 1 {
        top := RotateLeftHeavy(root, start, t);
      } else if balance < -1 {
        top := RotateRightHeavy(root, start, t);
      } else {
        top := root;
      }
      ChangedTwice(first, measured, storage.mem, {root}, Ids(t));
      ChangedMore(first, storage.mem, {root} + Ids(t), Ids(t));
    }

    /** The recursive insertion: the subtree at `root` becomes the balanced
        insertion of `added`, and nothing else in the arena changes. */
    method InsertAt(root: nat, added: nat, ghost t: Tree, ghost iv: Interval) returns (top: nat)
      requires Rep(storage.mem, root, t) && Insertable(t, added, iv)
      requires added <= |storage.mem| && storage.mem[added - 1] == ArenaNode(iv.lo, iv.hi, 0, 0, 1)
      modifies storage`mem
      ensures Rep(storage.mem, top, Insert(t, added, iv))
      ensures ChangedOnly(old(storage.mem), storage.mem, Ids(t) + {added})
      decreases t
    {
      if root == 0 {
        return added;
      }
      ghost var first := storage.mem;
      var start := storage.mem[added - 1].start;
      var n := storage.mem[root - 1];
      InsertableChildren(t, added, iv);
      if start < n.start {
        var child := InsertAt(n.left, added, t.left, iv);
        InsertedLeft(first, storage.mem, t, child, added, iv);
        storage.mem := storage.mem[root - 1 := storage.mem[root - 1].(left := child)];
      } else {
        var child := InsertAt(n.right, added, t.right, iv);
        InsertedRight(first, storage.mem, t, child, added, iv);
        storage.mem := storage.mem[root - 1 := storage.mem[root - 1].(right := child)];
      }
      ghost var linked := storage.mem;
      top := Settle(root, start, InsertBelow(t, added, iv));
      ChangedTwice(first, linked, storage.mem, Ids(t) + {added}, Ids(t) + {added});
      ChangedMore(first, storage.mem, Ids(t) + {added} + (Ids(t) + {added}), Ids(t) + {added});
    }

    /** The descent along one path finds an overlap whenever there is one. */
    method FindsOverlap(start: nat, end: nat) returns (found: bool)
      requires Valid() && start < end
      ensures found <==> !Clear(Interval(start, end), Ranges())
    {
      var current := root;
      ghost var iv := Interval(start, end);
      ghost var rest := tree;
      while current != 0
        invariant Rep(storage.mem, current, rest) && Ordered(rest)
        invariant Intervals(rest) <= Ranges()
        invariant forall a :: a in Ranges() && Overlap(iv, a) ==> a in Intervals(rest)
        decreases rest
      {
        var n := storage.mem[current - 1];
        if end <= n.start {
          RightOf(rest, iv);
          current := n.left;
          rest := rest.left;
        } else if start >= n.end {
          LeftOf(rest, iv);
          current := n.right;
          rest := rest.right;
        } else {
          assert rest.iv in Intervals(rest) && Overlap(iv, rest.iv);
          return true;
        }
      }
      return false;
    }

    /** Accepts a range exactly when it is non-empty, there is room, storage is
        available, and it is clear of everything stored. */
    method Add(start: nat, end: nat, granted: bool) returns (ok: bool)
      requires Valid()
      modifies this, storage
      ensures Valid()
      ensures ok == (Admits(old(Ranges()), old(count), start, end) &&
                     HasStorage(old(storage.capacity), old(count), granted))
      ensures Ranges() == if ok then old(Ranges()) + {Interval(start, end)} else old(Ranges())
      ensures count == old(count) + if ok then 1 else 0
      ensures storage.capacity ==
        if ok then CapacityFor(old(storage.capacity), (old(count) + 1) * NODE_BYTES) else old(storage.capacity)
      ensures storage.failed == (old(storage.failed) ||
        (Admits(old(Ranges()), old(count), start, end) &&
         !HasStorage(old(storage.capacity), old(count), granted)))
    {
      hide Rep, Good, Ids, Slots, HasStorage, CapacityFor;
      if start >= end || count >= CAPACITY {
        return false;
      }
      ghost var iv := Interval(start, end);
      if start < maxEnd {
        var found := FindsOverlap(start, end);
        if found {
          return false;
        }
      }
      assert Clear(iv, Ranges());
      ok := Accept(start, end, granted);
    }

    /** Obtains storage for a range that has passed the checks. */
    method Accept(start: nat, end: nat, granted: bool) returns (ok: bool)
      requires Valid() && Admits(Ranges(), count, start, end)
      modifies this, storage
      ensures Valid()
      ensures ok == HasStorage(old(storage.capacity), old(count), granted)
      ensures Ranges() == if ok then old(Ranges()) + {Interval(start, end)} else old(Ranges())
      ensures count == old(count) + if ok then 1 else 0
      ensures storage.capacity ==
        if ok then CapacityFor(old(storage.capacity), (old(count) + 1) * NODE_BYTES) else old(storage.capacity)
      ensures storage.failed == (old(storage.failed) || !ok)
    {
      ok := storage.Reserve((count + 1) * NODE_BYTES, granted);
      assert old(storage.mem)[..count] == storage.mem[..count];
      KeptByPrefix(old(storage.mem), storage.mem, count, root, tree);
      if ok {
        Store(start, end);
      }
    }

    /** The whole insertion, from the root. */
    method InsertAtRoot(added: nat, ghost t: Tree, ghost iv: Interval) returns (ghost r: Tree)
      requires Rep(storage.mem, root, t) && Good(t)
      requires 1 <= added <= CAPACITY && Ids(t) == Slots(added - 1)
      requires NonEmpty(iv) && Clear(iv, Intervals(t))
      requires added <= |storage.mem| && storage.mem[added - 1] == ArenaNode(iv.lo, iv.hi, 0, 0, 1)
      modifies storage`mem, this`root
      ensures |storage.mem| == |old(storage.mem)|
      ensures Rep(storage.mem, root, r) && Good(r)
      ensures Ids(r) == Slots(added) && Intervals(r) == Intervals(t) + {iv}
    {
      ReadyForNext(t, added, iv);
      root := InsertAt(root, added, t, iv);
      InsertIsGood(t, added, iv);
      r := Insert(t, added, iv);
    }

    /** Writes the new node behind the others and links it into the tree. */
    method Store(start: nat, end: nat)
      requires Valid() && Admits(Ranges(), count, start, end)
      requires (count + 1) * NODE_BYTES <= storage.capacity
      modifies this, storage`mem, storage`size, storage`count
      ensures Valid() && count == old(count) + 1
      ensures Ranges() == old(Ranges()) + {Interval(start, end)}
    {
      hide Rep, Good, LastEnd, Clear, Intervals, Ids, Slots;
      ghost var iv := Interval(start, end);
      storage.Place(ArenaNode(start, end, 0, 0, 1));
      KeptByPrefix(old(storage.mem), storage.mem, count, root, tree);
      count := count + 1;
      ghost var r := InsertAtRoot(count, tree, iv);
      LastEndGrows(Ranges(), maxEnd, iv);
      tree := r;
      if end > maxEnd {
        maxEnd := end;
      }
    }

    method Reset()
      requires Valid()
      modifies this, storage`size, storage`count, storage`failed
      ensures Valid() && Ranges() == {} && count == 0 && !storage.failed
      ensures storage.capacity == old(storage.capacity)
    {
      root, count, maxEnd := 0, 0, 0;
      storage.size, storage.count, storage.failed := 0, 0, false;
      tree := Leaf;
    }
  }

  /** Everything but storage that an insertion is checked for. */
  ghost predicate Admits(ranges: set<Interval>, count: nat, start: nat, end: nat) {
    start < end && count < CAPACITY && Clear(Interval(start, end), ranges)
  }

  predicate HasStorage(capacity: nat, count: nat, granted: bool) {
    (count + 1) * NODE_BYTES <= capacity || granted
  }

  /** The subtree of `t` whose root is node `id`. */
  ghost function NodeOf(t: Tree, id: nat): Tree {
    if t.Leaf? || t.id == id then t
    else if id in Ids(t.left) then NodeOf(t.left, id)
    else NodeOf(t.right, id)
  }

  /** Every node of the arena stores its own range and its exact height, and its
      children's heights differ by at most one. */
  lemma {:induction false} NodesExact(arena: seq<ArenaNode>, root: nat, t: Tree, id: nat)
    requires Rep(arena, root, t) && Balanced(t) && id in Ids(t)
    ensures 1 <= id <= |arena|
    ensures var n, sub := arena[id - 1], NodeOf(t, id);
      && sub.Node? && sub.id == id && sub.iv == Interval(n.start, n.end) && sub.iv in Intervals(t)
      && n.height == Height(sub) <= Height(t)
      && n.left <= |arena| && n.right <= |arena|
      && -1 <= StoredHeight(arena, n.left) - StoredHeight(arena, n.right) <= 1
    decreases t
  {
    if t.id == id {
      RepHeight(arena, arena[id - 1].left, t.left);
      RepHeight(arena, arena[id - 1].right, t.right);
    } else if id in Ids(t.left) {
      NodesExact(arena, arena[t.id - 1].left, t.left, id);
    } else {
      NodesExact(arena, arena[t.id - 1].right, t.right, id);
    }
  }

  /** What every valid index looks like in its arena: ids 1..count are each used
      by exactly one node, every stored height is exact and at most 16, siblings
      differ by at most one level, an in-order walk meets increasing starts, and
      the ranges are pairwise disjoint. */
  lemma {:induction false} ArenaIsAvl(index: IntervalIndex, id: nat)
    requires index.Valid()
    ensures id in Ids(index.tree) <==> 1 <= id <= index.count
    ensures Size(index.tree) == index.count == |Ids(index.tree)| <= |index.storage.mem|
    ensures 1 <= id <= index.count ==>
      var arena := index.storage.mem;
      var n := arena[id - 1];
      && n.left <= |arena| && n.right <= |arena|
      && n.height == Height(NodeOf(index.tree, id)) <= 16
      && -1 <= StoredHeight(arena, n.left) - StoredHeight(arena, n.right) <= 1
      && NodeOf(index.tree, id).Node? && NodeOf(index.tree, id).id == id
      && Interval(n.start, n.end) in index.Ranges()
    ensures Balanced(index.tree) && Distinct(index.tree)
    ensures var walk := InOrder(index.tree);
      forall i, j :: 0 <= i < j < |walk| ==> walk[i].lo < walk[j].lo
    ensures forall a, b :: a in index.Ranges() && b in index.Ranges() && a != b ==> !Overlap(a, b)
  {
    hide Rep, Slots, Ids, Intervals;
    SlotsHas(index.count, id);
    SlotsCount(index.count);
    SizeIsIdCount(index.tree);
    HeightBound(index.tree);
    if id in Ids(index.tree) {
      NodesExact(index.storage.mem, index.root, index.tree, id);
    }
    var walk := InOrder(index.tree);
    forall i, j | 0 <= i < j < |walk|
      ensures walk[i].lo < walk[j].lo
    {
      InOrderIncreases(index.tree, i, j);
    }
    forall a, b | a in index.Ranges() && b in index.Ranges() && a != b
      ensures !Overlap(a, b)
    {
      OrderedIsDisjoint(index.tree, a, b);
    }
  }

  // ------------------------------------------------------------------- runs

  /** The index as a plain set of ranges, with the bytes of storage it holds. */
  datatype RangeSet = RangeSet(ranges: set<Interval>, count: nat, capacity: nat)

  datatype IndexOp = AddOp(start: nat, end: nat, granted: bool) | ResetOp

  /** A range is taken when it is not empty, fewer than 4096 are stored, a node of 16
      bytes has room, and every stored range ends before it or begins behind it. */
  ghost predicate Accepts(s: RangeSet, op: IndexOp) {
    op.AddOp? ==>
      && op.start < op.end && s.count < 4096
      && (16 * (s.count + 1) <= s.capacity || op.granted)
      && forall r :: r in s.ranges ==> r.hi <= op.start || op.end <= r.lo
  }

  ghost function Apply(s: RangeSet, op: IndexOp): RangeSet {
    if op.ResetOp? then RangeSet({}, 0, s.capacity)
    else if !Accepts(s, op) then s
    else RangeSet(s.ranges + {Interval(op.start, op.end)}, s.count + 1,
                  CapacityFor(s.capacity, 16 * (s.count + 1)))
  }

  ghost function ApplyAll(s: RangeSet, ops: seq<IndexOp>): RangeSet {
    if ops == [] then s else Apply(ApplyAll(s, ops[..|ops| - 1]), ops[|ops| - 1])
  }

  /** What the plain set answers to each operation of a run. */
  ghost function Answers(s: RangeSet, ops: seq<IndexOp>): seq<bool> {
    if ops == [] then []
    else
      var before := ops[..|ops| - 1];
      Answers(s, before) + [Accepts(ApplyAll(s, before), ops[|ops| - 1])]
  }

  ghost function AsSet(index: IntervalIndex): RangeSet
    reads index, index.storage
  {
    RangeSet(index.Ranges(), index.count, index.storage.capacity)
  }

  method Perform(index: IntervalIndex, op: IndexOp) returns (ok: bool)
    requires index.Valid()
    modifies index, index.storage
    ensures index.Valid()
    ensures AsSet(index) == Apply(old(AsSet(index)), op)
    ensures ok == Accepts(old(AsSet(index)), op)
  {
    if op.AddOp? {
      ok := index.Add(op.start, op.end, op.granted);
    } else {
      index.Reset();
      ok := true;
    }
  }

  /** Over any run the index behaves as the plain set: the same answers, and the
      same ranges at the end. */
  method RunIndex(ops: seq<IndexOp>) returns (index: IntervalIndex, answers: seq<bool>)
    ensures index.Valid()
    ensures index.Ranges() == ApplyAll(RangeSet({}, 0, 0), ops).ranges
    ensures answers == Answers(RangeSet({}, 0, 0), ops)
  {
    index := new IntervalIndex();
    answers := [];
    ghost var start := RangeSet({}, 0, 0);
    for i := 0 to |ops|
      invariant fresh(index) && fresh(index.storage) && index.Valid()
      invariant AsSet(index) == ApplyAll(start, ops[..i])
      invariant answers == Answers(start, ops[..i])
    {
      assert ops[..i + 1][..i] == ops[..i];
      var ok := Perform(index, ops[i]);
      answers := answers + [ok];
    }
    assert ops[..|ops|] == ops;
  }
}
