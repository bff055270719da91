/** The balanced search tree that src/av1-interval-index.c keeps in its arena,
    as a value: the reference the in-place code is proved against. */
module IntervalTrees {
  import opened FiniteSets

  /** The half-open byte range lo..hi. */
  datatype Interval = Interval(lo: nat, hi: nat)

  predicate Overlap(a: Interval, b: Interval) {
    a.lo < b.hi && b.lo < a.hi
  }

  predicate Covers(a: Interval, x: nat) {
    a.lo <= x < a.hi
  }

  /** Non-empty ranges overlap exactly when they have a byte in common. */
  lemma OverlapIsCommonByte(a: Interval, b: Interval)
    requires a.lo < a.hi && b.lo < b.hi
    ensures Overlap(a, b) <==> exists x: nat :: Covers(a, x) && Covers(b, x)
  {
    if Overlap(a, b) {
      var x: nat := if a.lo < b.lo then b.lo else a.lo;
      assert Covers(a, x) && Covers(b, x);
    }
  }

  predicate NonEmpty(a: Interval) {
    a.lo < a.hi
  }

  /** Clear of every member of `s`. */
  ghost predicate Clear(a: Interval, s: set<Interval>) {
    forall b :: b in s ==> !Overlap(a, b)
  }

  /** `id` is the one-based arena slot of the node. */
  datatype Tree = Leaf | Node(id: nat, iv: Interval, left: Tree, right: Tree)

  function Height(t: Tree): nat {
    if t.Leaf? then 0
    else 1 + (if Height(t.left) > Height(t.right) then Height(t.left) else Height(t.right))
  }

  ghost function Intervals(t: Tree): set<Interval> {
    if t.Leaf? then {} else Intervals(t.left) + {t.iv} + Intervals(t.right)
  }

  ghost function Ids(t: Tree): set<nat> {
    if t.Leaf? then {} else Ids(t.left) + {t.id} + Ids(t.right)
  }

  ghost function Size(t: Tree): nat {
    if t.Leaf? then 0 else Size(t.left) + 1 + Size(t.right)
  }

  /** The in-order walk never goes back: everything on the left ends before the
      node begins, everything on the right begins after it ends. */
  ghost predicate Ordered(t: Tree) {
    t.Node? ==>
      && NonEmpty(t.iv)
      && (forall a :: a in Intervals(t.left) ==> a.hi <= t.iv.lo)
      && (forall a :: a in Intervals(t.right) ==> t.iv.hi <= a.lo)
      && Ordered(t.left)
      && Ordered(t.right)
  }

  ghost predicate Balanced(t: Tree) {
    t.Node? ==>
      && -1 <= Height(t.left) - Height(t.right) <= 1
      && Balanced(t.left)
      && Balanced(t.right)
  }

  /** Every arena slot is used by one node. */
  ghost predicate Distinct(t: Tree) {
    t.Node? ==>
      && t.id !in Ids(t.left) + Ids(t.right)
      && Ids(t.left) !! Ids(t.right)
      && Distinct(t.left)
      && Distinct(t.right)
  }

  function RotateLeft(t: Tree): Tree
    requires t.Node? && t.right.Node?
  {
    t.right.(left := t.(right := t.right.left))
  }

  function RotateRight(t: Tree): Tree
    requires t.Node? && t.left.Node?
  {
    t.left.(right := t.(left := t.left.right))
  }

  /** What happens on the way back up, once the new start has gone into a child. */
  function Rebalance(t: Tree, start: nat): Tree
    requires t.Node?
  {
    var balance := Height(t.left) - Height(t.right);
    if balance > 1 then
      var inner := if start > t.left.iv.lo && t.left.right.Node? then RotateLeft(t.left) else t.left;
      RotateRight(t.(left := inner))
    else if balance < -1 then
      var inner := if start < t.right.iv.lo && t.right.left.Node? then RotateRight(t.right) else t.right;
      RotateLeft(t.(right := inner))
    else t
  }

  function Insert(t: Tree, id: nat, iv: Interval): Tree
    decreases t, 1
  {
    if t.Leaf? then Node(id, iv, Leaf, Leaf) else Rebalance(InsertBelow(t, id, iv), iv.lo)
  }

  /** The node with the insertion made in one of its children. */
  function InsertBelow(t: Tree, id: nat, iv: Interval): (r: Tree)
    requires t.Node?
    ensures r.Node? && r.id == t.id
    decreases t, 0
  {
    if iv.lo < t.iv.lo then t.(left := Insert(t.left, id, iv)) else t.(right := Insert(t.right, id, iv))
  }

  /** The grandchild that a double rotation would lift is there. */
  ghost predicate CanRotate(t: Tree, start: nat) {
    t.Node? ==>
      && (Height(t.left) - Height(t.right) > 1 && start > t.left.iv.lo ==> t.left.right.Node?)
      && (Height(t.left) - Height(t.right) < -1 && start < t.right.iv.lo ==> t.right.left.Node?)
  }

  // ---------------------------------------------------------------- contents

  lemma {:induction false} RotateLeftSets(t: Tree)
    requires t.Node? && t.right.Node?
    ensures Intervals(RotateLeft(t)) == Intervals(t) && Ids(RotateLeft(t)) == Ids(t)
  {
    var lower := t.(right := t.right.left);
    assert Intervals(lower) == Intervals(t.left) + {t.iv} + Intervals(t.right.left);
    assert Ids(lower) == Ids(t.left) + {t.id} + Ids(t.right.left);
  }

  lemma {:induction false} RotateLeftOrdered(t: Tree)
    requires t.Node? && t.right.Node? && Ordered(t)
    ensures Ordered(RotateLeft(t))
  {
    var lower := t.(right := t.right.left);
    assert Ordered(t.right);
    assert t.right.iv in Intervals(t.right);
    assert Ordered(lower);
    assert Intervals(lower) == Intervals(t.left) + {t.iv} + Intervals(t.right.left);
    forall a | a in Intervals(lower)
      ensures a.hi <= t.right.iv.lo
    {
    }
  }

  lemma {:induction false} RotateLeftDistinct(t: Tree)
    requires t.Node? && t.right.Node? && Distinct(t)
    ensures Distinct(RotateLeft(t))
  {
    var lower := t.(right := t.right.left);
    assert Distinct(t.right);
    assert t.right.id in Ids(t.right) && Ids(t.right.left) <= Ids(t.right) && Ids(t.right.right) <= Ids(t.right);
    assert Distinct(lower);
    assert Ids(lower) == Ids(t.left) + {t.id} + Ids(t.right.left);
  }

  lemma {:induction false} RotateRightSets(t: Tree)
    requires t.Node? && t.left.Node?
    ensures Intervals(RotateRight(t)) == Intervals(t) && Ids(RotateRight(t)) == Ids(t)
  {
    var lower := t.(left := t.left.right);
    assert Intervals(lower) == Intervals(t.left.right) + {t.iv} + Intervals(t.right);
    assert Ids(lower) == Ids(t.left.right) + {t.id} + Ids(t.right);
  }

  lemma {:induction false} RotateRightOrdered(t: Tree)
    requires t.Node? && t.left.Node? && Ordered(t)
    ensures Ordered(RotateRight(t))
  {
    var lower := t.(left := t.left.right);
    assert Ordered(t.left);
    assert t.left.iv in Intervals(t.left);
    assert Ordered(lower);
    assert Intervals(lower) == Intervals(t.left.right) + {t.iv} + Intervals(t.right);
    forall a | a in Intervals(lower)
      ensures t.left.iv.hi <= a.lo
    {
    }
  }

  lemma {:induction false} RotateRightDistinct(t: Tree)
    requires t.Node? && t.left.Node? && Distinct(t)
    ensures Distinct(RotateRight(t))
  {
    var lower := t.(left := t.left.right);
    assert Distinct(t.left);
    assert t.left.id in Ids(t.left) && Ids(t.left.left) <= Ids(t.left) && Ids(t.left.right) <= Ids(t.left);
    assert Distinct(lower);
    assert Ids(lower) == Ids(t.left.right) + {t.id} + Ids(t.right);
  }

  lemma {:induction false} RebalanceSets(t: Tree, start: nat)
    requires t.Node?
    ensures Intervals(Rebalance(t, start)) == Intervals(t) && Ids(Rebalance(t, start)) == Ids(t)
  {
    var balance := Height(t.left) - Height(t.right);
    if balance > 1 {
      var inner := t.left;
      if start > t.left.iv.lo && t.left.right.Node? {
        RotateLeftSets(t.left);
        inner := RotateLeft(t.left);
      }
      RotateRightSets(t.(left := inner));
    } else if balance < -1 {
      var inner := t.right;
      if start < t.right.iv.lo && t.right.left.Node? {
        RotateRightSets(t.right);
        inner := RotateRight(t.right);
      }
      RotateLeftSets(t.(right := inner));
    }
  }

  lemma {:induction false} RebalanceOrdered(t: Tree, start: nat)
    requires t.Node? && Ordered(t)
    ensures Ordered(Rebalance(t, start))
  {
    hide Ids, Intervals, Overlap;
    var balance := Height(t.left) - Height(t.right);
    if balance > 1 {
      var inner := t.left;
      if start > t.left.iv.lo && t.left.right.Node? {
        RotateLeftSets(t.left);
        RotateLeftOrdered(t.left);
        inner := RotateLeft(t.left);
      }
      RotateRightSets(t.(left := inner));
      RotateRightOrdered(t.(left := inner));
    } else if balance < -1 {
      var inner := t.right;
      if start < t.right.iv.lo && t.right.left.Node? {
        RotateRightSets(t.right);
        RotateRightOrdered(t.right);
        inner := RotateRight(t.right);
      }
      RotateLeftSets(t.(right := inner));
      RotateLeftOrdered(t.(right := inner));
    }
  }

  lemma {:induction false} RebalanceDistinct(t: Tree, start: nat)
    requires t.Node? && Distinct(t)
    ensures Distinct(Rebalance(t, start))
  {
    var balance := Height(t.left) - Height(t.right);
    if balance > 1 {
      var inner := t.left;
      if start > t.left.iv.lo && t.left.right.Node? {
        RotateLeftSets(t.left);
        RotateLeftDistinct(t.left);
        inner := RotateLeft(t.left);
      }
      RotateRightSets(t.(left := inner));
      RotateRightDistinct(t.(left := inner));
    } else if balance < -1 {
      var inner := t.right;
      if start < t.right.iv.lo && t.right.left.Node? {
        RotateRightSets(t.right);
        RotateRightDistinct(t.right);
        inner := RotateRight(t.right);
      }
      RotateLeftSets(t.(right := inner));
      RotateLeftDistinct(t.(right := inner));
    }
  }

  /** Inserting a range that is clear of the tree adds exactly that range and
      keeps the order. */
  lemma {:induction false} InsertAdds(t: Tree, id: nat, iv: Interval)
    requires Ordered(t) && NonEmpty(iv) && Clear(iv, Intervals(t))
    ensures Intervals(Insert(t, id, iv)) == Intervals(t) + {iv}
    ensures Ordered(Insert(t, id, iv))
  {
    if t.Node? {
      assert t.iv in Intervals(t);
      var raw := InsertBelow(t, id, iv);
      if iv.lo < t.iv.lo {
        InsertAdds(t.left, id, iv);
      } else {
        InsertAdds(t.right, id, iv);
      }
      assert Intervals(raw) == Intervals(t) + {iv};
      RebalanceSets(raw, iv.lo);
      RebalanceOrdered(raw, iv.lo);
    }
  }

  lemma {:induction false} InsertAddsId(t: Tree, id: nat, iv: Interval)
    requires Distinct(t) && id !in Ids(t)
    ensures Ids(Insert(t, id, iv)) == Ids(t) + {id}
    ensures Distinct(Insert(t, id, iv))
    ensures t.Node? ==> Distinct(InsertBelow(t, id, iv)) && Ids(InsertBelow(t, id, iv)) == Ids(t) + {id}
  {
    if t.Node? {
      var raw := InsertBelow(t, id, iv);
      if iv.lo < t.iv.lo {
        InsertAddsId(t.left, id, iv);
      } else {
        InsertAddsId(t.right, id, iv);
      }
      assert Ids(raw) == Ids(t) + {id};
      RebalanceSets(raw, iv.lo);
      RebalanceDistinct(raw, iv.lo);
    }
  }

  // ----------------------------------------------------------------- balance

  lemma {:induction false} RotationHeights(t: Tree)
    requires t.Node?
    ensures t.right.Node? ==> Height(RotateLeft(t)) <= Height(t) + 1
    ensures t.left.Node? ==> Height(RotateRight(t)) <= Height(t) + 1
  {
  }

  /** A subtree that has just grown is heavier on the side the new start went to. */
  ghost predicate GrewToward(before: Tree, after: Tree, start: nat) {
    && after.Node?
    && before.Node?
    && after.iv == before.iv
    && Height(after.left) - Height(after.right) == if start < before.iv.lo then 1 else -1
  }

  /** One insertion restores balance at every level and adds at most one to the
      height; when it adds one it leaves the root in place. */
  lemma {:induction false} InsertBalances(t: Tree, id: nat, iv: Interval)
    requires Ordered(t) && Balanced(t) && NonEmpty(iv) && Clear(iv, Intervals(t))
    ensures Insert(t, id, iv).Node?
    ensures Balanced(Insert(t, id, iv))
    ensures Height(t) <= Height(Insert(t, id, iv)) <= Height(t) + 1
    ensures t.Node? && Height(Insert(t, id, iv)) == Height(t) + 1 ==> GrewToward(t, Insert(t, id, iv), iv.lo)
    ensures t.Node? ==> CanRotate(InsertBelow(t, id, iv), iv.lo) && Height(InsertBelow(t, id, iv)) <= Height(t) + 1
  {
    hide Rebalance, GrewToward, CanRotate;
    if t.Node? {
      assert t.iv in Intervals(t);
      if iv.lo < t.iv.lo {
        InsertBalances(t.left, id, iv);
        if t.left.Node? {
          assert t.left.iv in Intervals(t.left);
        }
        RebalanceLeft(t, Insert(t.left, id, iv), iv.lo);
      } else {
        InsertBalances(t.right, id, iv);
        if t.right.Node? {
          assert t.right.iv in Intervals(t.right);
        }
        RebalanceRight(t, Insert(t.right, id, iv), iv.lo);
      }
    }
  }

  lemma {:induction false} RebalanceLeft(t: Tree, grown: Tree, start: nat)
    requires t.Node? && Balanced(t) && Balanced(grown) && grown.Node?
    requires Height(t.left) <= Height(grown) <= Height(t.left) + 1
    requires t.left.Node? ==> start != t.left.iv.lo
    requires t.left.Node? && Height(grown) == Height(t.left) + 1 ==> GrewToward(t.left, grown, start)
    requires start < t.iv.lo
    ensures CanRotate(t.(left := grown), start)
    ensures var r := Rebalance(t.(left := grown), start);
      && r.Node?
      && Balanced(r)
      && Height(t) <= Height(r) <= Height(t) + 1
      && (Height(r) == Height(t) + 1 ==> GrewToward(t, r, start))
  {
    if Height(grown) - Height(t.right) > 1 {
      assert GrewToward(t.left, grown, start);
      if start > grown.iv.lo {
        assert grown.right.Node?;
        var inner := RotateLeft(grown);
        assert inner.left == Node(grown.id, grown.iv, grown.left, grown.right.left);
        var r := RotateRight(t.(left := inner));
        assert r.right == Node(t.id, t.iv, grown.right.right, t.right);
        assert Height(r.left) == Height(grown.left) + 1 == Height(r.right);
      } else {
        var r := RotateRight(t.(left := grown));
        assert r.right == Node(t.id, t.iv, grown.right, t.right);
        assert Height(r.right) == Height(grown.left);
      }
    }
  }

  lemma {:induction false} RebalanceRight(t: Tree, grown: Tree, start: nat)
    requires t.Node? && Balanced(t) && Balanced(grown) && grown.Node?
    requires Height(t.right) <= Height(grown) <= Height(t.right) + 1
    requires t.right.Node? ==> start != t.right.iv.lo
    requires t.right.Node? && Height(grown) == Height(t.right) + 1 ==> GrewToward(t.right, grown, start)
    requires start >= t.iv.lo
    ensures CanRotate(t.(right := grown), start)
    ensures var r := Rebalance(t.(right := grown), start);
      && r.Node?
      && Balanced(r)
      && Height(t) <= Height(r) <= Height(t) + 1
      && (Height(r) == Height(t) + 1 ==> GrewToward(t, r, start))
  {
    if Height(grown) - Height(t.left) > 1 {
      assert GrewToward(t.right, grown, start);
      if start < grown.iv.lo {
        assert grown.left.Node?;
        var inner := RotateRight(grown);
        assert inner.right == Node(grown.id, grown.iv, grown.left.right, grown.right);
        var r := RotateLeft(t.(right := inner));
        assert r.left == Node(t.id, t.iv, t.left, grown.left.left);
        assert Height(r.right) == Height(grown.right) + 1 == Height(r.left);
      } else {
        var r := RotateLeft(t.(right := grown));
        assert r.left == Node(t.id, t.iv, t.left, grown.left);
        assert Height(r.left) == Height(grown.right);
      }
    }
  }

  // ------------------------------------------------------------ height bound

  /** The fewest nodes a balanced tree of height `h` can have. */
  ghost function MinNodes(h: nat): nat {
    if h <= 1 then h else 1 + MinNodes(h - 1) + MinNodes(h - 2)
  }

  lemma {:induction false} MinNodesMonotone(a: nat, b: nat)
    requires a <= b
    ensures MinNodes(a) <= MinNodes(b)
    decreases b
  {
    if a < b {
      MinNodesMonotone(a, b - 1);
    }
  }

  lemma {:induction false} BalancedNeedsNodes(t: Tree)
    requires Balanced(t)
    ensures MinNodes(Height(t)) <= Size(t)
  {
    if t.Node? {
      BalancedNeedsNodes(t.left);
      BalancedNeedsNodes(t.right);
      if Height(t) >= 2 {
        MinNodesMonotone(Height(t) - 2, Height(t.left));
        MinNodesMonotone(Height(t) - 2, Height(t.right));
      }
    }
  }

  lemma {:induction false} SeventeenLevelsNeed4180()
    ensures MinNodes(17) == 4180
  {
    assert MinNodes(3) == 4 && MinNodes(4) == 7;
    assert MinNodes(5) == 12 && MinNodes(6) == 20;
    assert MinNodes(7) == 33 && MinNodes(8) == 54;
    assert MinNodes(9) == 88 && MinNodes(10) == 143;
    assert MinNodes(11) == 232 && MinNodes(12) == 376;
    assert MinNodes(13) == 609 && MinNodes(14) == 986;
    assert MinNodes(15) == 1596 && MinNodes(16) == 2583;
  }

  /** With at most 4096 nodes the height is at most 16, far from the 8-bit limit. */
  lemma {:induction false} HeightBound(t: Tree)
    requires Balanced(t) && Size(t) <= 4096
    ensures Height(t) <= 16
  {
    BalancedNeedsNodes(t);
    if Height(t) >= 17 {
      MinNodesMonotone(17, Height(t));
      SeventeenLevelsNeed4180();
    }
  }

  /** The arena slots 1..n. */
  ghost function Slots(n: nat): set<nat> {
    Below(n + 1) - {0}
  }

  lemma SlotsHas(n: nat, i: nat)
    ensures i in Slots(n) <==> 1 <= i <= n
  {
    BelowHas(n + 1, i);
  }

  lemma SlotsCount(n: nat)
    ensures |Slots(n)| == n
  {
    BelowSize(n + 1);
    BelowHas(n + 1, 0);
    assert Below(n + 1) == Slots(n) + {0};
  }

  lemma SlotsStep(n: nat)
    requires 0 < n
    ensures Slots(n) == Slots(n - 1) + {n}
  {
    assert Below(n + 1) == Below(n) + {n};
  }

  lemma {:induction false} SizeIsIdCount(t: Tree)
    requires Distinct(t)
    ensures Size(t) == |Ids(t)|
  {
    if t.Node? {
      SizeIsIdCount(t.left);
      SizeIsIdCount(t.right);
      assert |Ids(t.left) + {t.id}| == |Ids(t.left)| + 1;
      assert |Ids(t)| == |Ids(t.left) + {t.id}| + |Ids(t.right)|;
    }
  }

  // ------------------------------------------------------------------ search

  /** In an ordered tree the ranges are pairwise disjoint. */
  lemma {:induction false} OrderedIsDisjoint(t: Tree, a: Interval, b: Interval)
    requires Ordered(t) && a in Intervals(t) && b in Intervals(t) && a != b
    ensures !Overlap(a, b)
  {
    if a in Intervals(t.left) && b in Intervals(t.left) {
      OrderedIsDisjoint(t.left, a, b);
    } else if a in Intervals(t.right) && b in Intervals(t.right) {
      OrderedIsDisjoint(t.right, a, b);
    } else {
      OrderedNonEmpty(t, a);
      OrderedNonEmpty(t, b);
    }
  }

  lemma {:induction false} OrderedNonEmpty(t: Tree, a: Interval)
    requires Ordered(t) && a in Intervals(t)
    ensures NonEmpty(a)
  {
    if a in Intervals(t.left) {
      OrderedNonEmpty(t.left, a);
    } else if a in Intervals(t.right) {
      OrderedNonEmpty(t.right, a);
    }
  }

  // ---------------------------------------------------------- in-order walk

  ghost function InOrder(t: Tree): seq<Interval> {
    if t.Leaf? then [] else InOrder(t.left) + [t.iv] + InOrder(t.right)
  }

  lemma {:induction false} InOrderHolds(t: Tree, a: Interval)
    ensures a in InOrder(t) <==> a in Intervals(t)
    ensures |InOrder(t)| == Size(t)
  {
    if t.Node? {
      InOrderHolds(t.left, a);
      InOrderHolds(t.right, a);
    }
  }

  /** The in-order walk visits the ranges from left to right without overlap. */
  lemma {:induction false} InOrderIncreases(t: Tree, i: nat, j: nat)
    requires Ordered(t) && i < j < |InOrder(t)|
    ensures InOrder(t)[i].lo < InOrder(t)[i].hi <= InOrder(t)[j].lo
  {
    var l, r := InOrder(t.left), InOrder(t.right);
    var n := |l|;
    var a, b := InOrder(t)[i], InOrder(t)[j];
    assert InOrder(t) == l + [t.iv] + r;
    if j < n {
      InOrderIncreases(t.left, i, j);
    } else if n < i {
      InOrderIncreases(t.right, i - n - 1, j - n - 1);
    } else {
      assert i < n ==> a in l;
      assert n < j ==> b in r;
      InOrderHolds(t.left, a);
      InOrderHolds(t.right, b);
      if i < n {
        OrderedNonEmpty(t.left, a);
      }
    }
  }
}
