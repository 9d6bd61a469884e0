/** Reference definitions for rbtree.c: keys and their two orders, and red-black trees as values. */
module RbSpec {
  import opened Integers

  /** The unsigned 64-bit key of a node. */
  type Key = k: int | 0 <= k < TWO64

  /** A 64-bit difference read as a signed number. */
  function Diff(a: Key, b: Key): int {
    var d := (a - b) % TWO64;
    if d < TWO63 then d else d - TWO64
  }

  /** Which of the two insertion procedures a tree was initialised with. */
  datatype Insertion = ByValue | ByTimer

  /** The test that sends a new key to the left of an old one. */
  predicate Before(kind: Insertion, a: Key, b: Key) {
    match kind
    case ByValue => a < b
    case ByTimer => Diff(a, b) < 0
  }

  // ---------- timer keys in a window ----------

  /** How far `k` lies after `base` on the circle of keys. */
  function Offset(base: Key, k: Key): Key {
    (k - base) % TWO64
  }

  /** All keys lie less than half the circle after `base`. Plain values need no window. */
  ghost predicate InWindow(kind: Insertion, base: Key, ks: seq<Key>) {
    kind == ByTimer ==> forall i :: 0 <= i < |ks| ==> Offset(base, ks[i]) < TWO63
  }

  /** The linear order that `Before` agrees with inside a window. */
  function Rank(kind: Insertion, base: Key, k: Key): int {
    if kind == ByTimer then Offset(base, k) else k
  }

  lemma DiffIsOffset(base: Key, a: Key, b: Key)
    requires Offset(base, a) < TWO63 && Offset(base, b) < TWO63
    ensures Diff(a, b) == Offset(base, a) - Offset(base, b)
  {
    var x: int, y: int := Offset(base, a), Offset(base, b);
    var qa, qb := (a - base) / TWO64, (b - base) / TWO64;
    assert a - b == (qa - qb) * TWO64 + (x - y);
  }

  lemma BeforeIsLess(kind: Insertion, base: Key, a: Key, b: Key)
    requires InWindow(kind, base, [a, b])
    ensures Before(kind, a, b) <==> Rank(kind, base, a) < Rank(kind, base, b)
  {
    assert [a, b][0] == a && [a, b][1] == b;
    if kind == ByTimer {
      DiffIsOffset(base, a, b);
    }
  }

  ghost predicate Sorted(kind: Insertion, ks: seq<Key>) {
    forall i, j :: 0 <= i < j < |ks| ==> !Before(kind, ks[j], ks[i])
  }

  /** `key` belongs at position `k`: exactly the keys from `k` on are ones it goes before. */
  ghost predicate Boundary(kind: Insertion, ks: seq<Key>, key: Key, k: int) {
    && 0 <= k <= |ks|
    && (forall i :: 0 <= i < |ks| ==> (Before(kind, key, ks[i]) <==> k <= i))
  }

  /** Inside a window the order is linear, so a sorted sequence has a place for every key,
      behind all keys that are not greater. */
  lemma {:induction false} BoundaryExists(kind: Insertion, base: Key, ks: seq<Key>, key: Key) returns (k: nat)
    requires Sorted(kind, ks) && InWindow(kind, base, ks + [key])
    ensures Boundary(kind, ks, key, k)
  {
    assert (ks + [key])[|ks|] == key;
    if ks == [] {
      return 0;
    }
    var n := |ks| - 1;
    assert ks[n] == (ks + [key])[n];
    var init := ks[..n];
    forall i | 0 <= i < |init + [key]| ensures kind == ByTimer ==> Offset(base, (init + [key])[i]) < TWO63 {
      assert (init + [key])[i] == if i < n then (ks + [key])[i] else key;
    }
    k := BoundaryExists(kind, base, init, key);
    BeforeIsLess(kind, base, key, ks[n]);
    if !Before(kind, key, ks[n]) {
      k := |ks|;
      forall i | 0 <= i < n ensures !Before(kind, key, ks[i]) {
        assert ks[i] == (ks + [key])[i];
        BeforeIsLess(kind, base, key, ks[i]);
        BeforeIsLess(kind, base, ks[n], ks[i]);
      }
    } else {
      forall i | 0 <= i < |ks| ensures Before(kind, key, ks[i]) <==> k <= i {
        assert i < n ==> init[i] == ks[i];
      }
    }
  }

  lemma InsertKeepsSorted(kind: Insertion, base: Key, ks: seq<Key>, key: Key, k: nat)
    requires Sorted(kind, ks) && InWindow(kind, base, ks + [key]) && Boundary(kind, ks, key, k)
    ensures Sorted(kind, ks[..k] + [key] + ks[k..])
  {
    var r := ks[..k] + [key] + ks[k..];
    assert (ks + [key])[|ks|] == key;
    forall i, j | 0 <= i < j < |r| ensures !Before(kind, r[j], r[i]) {
      assert r[i] == if i < k then ks[i] else if i == k then key else ks[i - 1];
      assert r[j] == if j < k then ks[j] else if j == k then key else ks[j - 1];
      if i == k {
        assert ks[j - 1] == (ks + [key])[j - 1];
        BeforeIsLess(kind, base, key, ks[j - 1]);
        BeforeIsLess(kind, base, ks[j - 1], key);
      }
    }
  }

  // ---------- trees as values ----------

  datatype BinTree<T> = Leaf | Branch(left: BinTree<T>, node: T, red: bool, right: BinTree<T>)

  function InOrder<T>(t: BinTree<T>): seq<T> {
    if t.Leaf? then [] else InOrder(t.left) + [t.node] + InOrder(t.right)
  }

  lemma {:induction false} InOrderSize<T>(t: BinTree<T>)
    ensures |InOrder(t)| == Size(t)
  {
    if t.Branch? {
      InOrderSize(t.left);
      InOrderSize(t.right);
    }
  }

  predicate IsRed<T>(t: BinTree<T>) { t.Branch? && t.red }

  /** No red node has a red child. */
  predicate NoRedRed<T>(t: BinTree<T>) {
    t.Branch? ==>
      && NoRedRed(t.left) && NoRedRed(t.right)
      && (t.red ==> !IsRed(t.left) && !IsRed(t.right))
  }

  /** Every path from the root of `t` to a leaf has exactly `h` black nodes. */
  predicate BlackHeight<T>(t: BinTree<T>, h: int) {
    match t
    case Leaf => h == 0
    case Branch(l, _, red, r) =>
      var below := if red then h else h - 1;
      BlackHeight(l, below) && BlackHeight(r, below)
  }

  predicate RedBlack<T>(t: BinTree<T>, h: int) {
    !IsRed(t) && NoRedRed(t) && BlackHeight(t, h)
  }

  function Size<T>(t: BinTree<T>): nat {
    if t.Leaf? then 0 else Size(t.left) + 1 + Size(t.right)
  }

  function Height<T>(t: BinTree<T>): nat {
    if t.Leaf? then 0 else 1 + (if Height(t.left) < Height(t.right) then Height(t.right) else Height(t.left))
  }

  function Pow2(n: nat): nat {
    if n == 0 then 1 else 2 * Pow2(n - 1)
  }

  lemma {:induction false} SizeBound<T>(t: BinTree<T>, h: int)
    requires BlackHeight(t, h)
    ensures 0 <= h && Pow2(h) <= Size(t) + 1
  {
    if t.Branch? {
      SizeBound(t.left, if t.red then h else h - 1);
      SizeBound(t.right, if t.red then h else h - 1);
    }
  }

  lemma {:induction false} HeightOfBlack<T>(t: BinTree<T>, h: int)
    requires NoRedRed(t) && BlackHeight(t, h)
    ensures Height(t) <= 2 * h + (if IsRed(t) then 1 else 0)
  {
    if t.Branch? {
      HeightOfBlack(t.left, if t.red then h else h - 1);
      HeightOfBlack(t.right, if t.red then h else h - 1);
    }
  }

  lemma {:induction false} Pow2Double(h: nat)
    ensures Pow2(2 * h) == Pow2(h) * Pow2(h)
  {
    if 0 < h {
      Pow2Double(h - 1);
      assert Pow2(2 * h) == 2 * (2 * Pow2(2 * (h - 1)));
      assert Pow2(h) * Pow2(h) == 4 * (Pow2(h - 1) * Pow2(h - 1));
    }
  }

  lemma {:induction false} Pow2Monotone(a: nat, b: nat)
    requires a <= b
    ensures 1 <= Pow2(a) <= Pow2(b)
    decreases b - a, a
  {
    if a < b {
      Pow2Monotone(a, b - 1);
    } else if 0 < a {
      Pow2Monotone(a - 1, a - 1);
    }
  }

  /** The height is at most twice the binary logarithm of the size plus one. */
  lemma HeightBound<T>(t: BinTree<T>, h: int)
    requires RedBlack(t, h)
    ensures Pow2(Height(t)) <= (Size(t) + 1) * (Size(t) + 1)
  {
    SizeBound(t, h);
    HeightOfBlack(t, h);
    Pow2Monotone(Height(t), 2 * h);
    Pow2Double(h);
    SquareMonotone(Pow2(h), Size(t) + 1);
  }

  lemma SquareMonotone(a: nat, b: nat)
    requires a <= b
    ensures a * a <= b * b
  {
    assert a * a <= a * b <= b * b;
  }
}
