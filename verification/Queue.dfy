/** The intrusive circular doubly linked list of queue.h and its stable insertion sort (queue.c). */
module Queue {

  class Link {
    const tag: nat  // names the structure the link is embedded in
    var prev: Link?
    var next: Link?

    constructor (tag: nat)
      ensures this.tag == tag
    {
      this.tag := tag;
      prev, next := null, null;
    }
  }

  /** The ring of `h`, once around and back to `h`. */
  function Around(h: Link, items: seq<Link>): (r: seq<Link>)
    ensures |r| == |items| + 2 && r[0] == r[|items| + 1] == h
    ensures forall i {:trigger r[i]} :: 1 <= i <= |items| ==> r[i] == items[i - 1]
  {
    [h] + items + [h]
  }

  /** The `i`-th and the next member of the ring `r` point at each other. */
  ghost predicate Joined(r: seq<Link>, i: int)
    reads r
  {
    0 <= i < |r| - 1 && r[i].next == r[i + 1] && r[i + 1].prev == r[i]
  }

  /** `h` heads a well-formed list of exactly `items`. */
  ghost predicate Ring(h: Link, items: seq<Link>)
    reads h, items
  {
    var r := Around(h, items);
    && (forall i, j {:trigger r[i], r[j]} :: 0 <= i < j <= |items| ==> r[i] != r[j])
    && (forall i {:trigger Joined(r, i)} :: 0 <= i <= |items| ==> Joined(r, i))
  }

  method Init(h: Link)
    modifies h
    ensures Ring(h, [])
  {
    h.prev := h;
    h.next := h;
  }

  method InsertAfterLinks(p: Link, x: Link)
    requires p != x && p.next != null && p.next != x
    modifies p`next, x, (if p.next == null then {} else {p.next})`prev
    ensures x.next == old(p.next) && x.prev == p && p.next == x && old(p.next).prev == x
    ensures old(p.next) != p ==> p.prev == old(p.prev) && old(p.next).next == old(p.next.next)
  {
    x.next := p.next;
    x.next.prev := x;
    x.prev := p;
    p.next := x;
  }

  /** queue_insert_after, and with `k == 0` queue_insert_head: `p` stands at place `k` of the ring. */
  method InsertAfter(h: Link, ghost items: seq<Link>, ghost k: nat, p: Link, x: Link)
    requires Ring(h, items) && k <= |items| && p == Around(h, items)[k] && x != h && x !in items
    modifies h, items, x
    ensures Ring(h, items[..k] + [x] + items[k..])
  {
    ghost var r, items' := Around(h, items), items[..k] + [x] + items[k..];
    assert Joined(r, k);
    InsertAfterLinks(p, x);
    ghost var r' := Around(h, items');
    assert forall i {:trigger r'[i]} :: 0 <= i <= |items'| + 1 ==>
             r'[i] == if i <= k then r[i] else if i == k + 1 then x else r[i - 1];
    forall i | 0 <= i <= |items'| ensures Joined(r', i) {
      if i < k {
        assert old(Joined(r, i));
      } else if k + 1 < i {
        assert old(Joined(r, i - 1));
      }
    }
  }

  method RemoveLinks(x: Link)
    requires x.next != null && x.prev != null
    modifies x.next`prev, x.prev`next
    ensures old(x.next).prev == old(x.prev) && old(x.prev).next == old(x.next)
  {
    x.next.prev := x.prev;
    x.prev.next := x.next;
  }

  /** queue_remove of the item at place `k`. */
  method Remove(h: Link, ghost items: seq<Link>, ghost k: nat, x: Link)
    requires Ring(h, items) && k < |items| && x == items[k]
    modifies h, items
    ensures Ring(h, items[..k] + items[k + 1..])
    ensures x.prev == old(x.prev) && x.next == old(x.next)
  {
    ghost var r := Around(h, items);
    assert Joined(r, k) && Joined(r, k + 1);
    RemoveLinks(x);
    ghost var items' := items[..k] + items[k + 1..];
    ghost var r' := Around(h, items');
    assert forall i {:trigger r'[i]} :: 0 <= i <= |items'| + 1 ==> r'[i] == if i <= k then r[i] else r[i + 1];
    forall i | 0 <= i <= |items'| ensures Joined(r', i) {
      if i < k {
        assert old(Joined(r, i));
      } else if k < i {
        assert old(Joined(r, i + 1));
      }
    }
  }

  method InsertTailLinks(h: Link, x: Link)
    requires h != x && h.prev != null && h.prev != x
    modifies h`prev, x, (if h.prev == null then {} else {h.prev})`next
    ensures x.prev == old(h.prev) && x.next == h && h.prev == x && old(h.prev).next == x
  {
    x.prev := h.prev;
    x.prev.next := x;
    x.next := h;
    h.prev := x;
  }

  /** queue_insert_tail */
  method InsertTail(h: Link, ghost items: seq<Link>, x: Link)
    requires Ring(h, items) && x != h && x !in items
    modifies h, items, x
    ensures Ring(h, items + [x])
  {
    ghost var r, n := Around(h, items), |items|;
    assert Joined(r, n);
    assert n == 0 || r[n] == items[n - 1];
    InsertTailLinks(h, x);
    ghost var r' := Around(h, items + [x]);
    assert forall i {:trigger r'[i]} :: 0 <= i <= n + 2 ==>
             r'[i] == if i <= n then r[i] else if i == n + 1 then x else h;
    forall i | 0 <= i <= n + 1 ensures Joined(r', i) {
      if i < n {
        assert old(Joined(r, i));
      }
    }
  }

  /** The writes of queue_split; `last` and `before` are the ends of the two parts. */
  method SplitLinks(h: Link, q: Link, n: Link, last: Link, before: Link)
    requires h.prev == last && q.prev == before && n !in {h, q, last, before} && h !in {q, last} && q != before
    modifies n`prev, n`next, last`next, h`prev, before`next, q`prev
    ensures n.prev == last && n.next == q && h.prev == before && q.prev == n
    ensures before.next == h && (last != before ==> last.next == n)
  {
    n.prev := h.prev;
    n.prev.next := n;
    n.next := q;
    h.prev := q.prev;
    h.prev.next := h;
    q.prev := n;
  }

  /** queue_split: the items from `q` on move to the new head `n`. */
  method Split(h: Link, ghost items: seq<Link>, ghost k: nat, q: Link, n: Link)
    requires Ring(h, items) && k < |items| && q == items[k] && n != h && n !in items
    modifies h, items, n
    ensures Ring(h, items[..k]) && Ring(n, items[k..])
  {
    ghost var r := Around(h, items);
    assert Joined(r, k) && Joined(r, |items|) && r[k + 1] == q;
    var last: Link, before: Link := h.prev, q.prev;
    assert last == r[|items|] == items[|items| - 1];
    SplitLinks(h, q, n, last, before);
    ghost var r1, r2 := Around(h, items[..k]), Around(n, items[k..]);
    assert forall i {:trigger r1[i]} :: 0 <= i <= k + 1 ==> r1[i] == if i <= k then r[i] else h;
    assert forall i {:trigger r2[i]} :: 0 <= i <= |items| - k + 1 ==>
             r2[i] == if 1 <= i <= |items| - k then r[k + i] else n;
    forall i | 0 <= i <= k ensures Joined(r1, i) {
      assert old(Joined(r, i));
    }
    forall i | 0 <= i <= |items| - k ensures Joined(r2, i) {
      assert old(Joined(r, k + i));
    }
  }

  /** The writes of queue_add. */
  method AddLinks(h: Link, n: Link, last: Link, first: Link, end: Link)
    requires h.prev == last && n.next == first && n.prev == end && h != n && last !in {n, end, first}
    requires h !in {first, end}
    requires end == n <==> first == n
    modifies last`next, first`prev, h`prev, end`next
    ensures if n == end then last.next == h && h.prev == last
            else last.next == first && first.prev == last && h.prev == end && end.next == h
  {
    h.prev.next := n.next;
    n.next.prev := h.prev;
    h.prev := n.prev;
    h.prev.next := h;
  }

  /** queue_add: the items of `n` move behind those of `h`; the head `n` is left stale. */
  method Add(h: Link, ghost items: seq<Link>, n: Link, ghost more: seq<Link>)
    requires Ring(h, items) && Ring(n, more) && h != n && h !in more && n !in items
    requires forall i, j :: 0 <= i < |items| && 0 <= j < |more| ==> items[i] != more[j]
    modifies h, items, n, more
    ensures Ring(h, items + more)
  {
    ghost var r, s := Around(h, items), Around(n, more);
    ghost var a, b := |items|, |more|;
    assert Joined(r, a) && Joined(s, 0) && Joined(s, b);
    var last: Link, first: Link, end: Link := h.prev, n.next, n.prev;
    assert last == r[a] && first == s[1] && end == s[b];
    AddLinks(h, n, last, first, end);
    ghost var t := Around(h, items + more);
    assert forall i {:trigger t[i]} :: 0 <= i <= a + b + 1 ==>
             t[i] == if i <= a then r[i] else if i <= a + b then s[i - a] else h;
    forall i | 0 <= i <= a + b ensures Joined(t, i) {
      if i < a {
        assert old(Joined(r, i));
      } else if a < i {
        assert old(Joined(s, i - a));
      }
    }
  }

  /** queue_middle: the middle item, or the first of the second half; the head itself when empty. */
  method Middle(h: Link, ghost items: seq<Link>) returns (m: Link)
    requires Ring(h, items)
    ensures m == if items == [] then h else items[|items| / 2]
  {
    ghost var r, n := Around(h, items), |items|;
    assert Joined(r, 0) && Joined(r, n);
    m := h.next;
    if m == h.prev {
      return;
    }
    var next: Link := h.next;
    ghost var k := 0;
    while true
      invariant 0 <= k && 2 * k + 1 < n && m == r[k + 1] && next == r[2 * k + 1]
      decreases n - k
    {
      assert Joined(r, k + 1) && Joined(r, 2 * k + 1);
      m := m.next;
      next := next.next;
      if next == h.prev {
        assert r[2 * k + 2] == r[n];
        return;
      }
      assert Joined(r, 2 * k + 2);
      next := next.next;
      if next == h.prev {
        assert r[2 * k + 3] == r[n];
        return;
      }
      k := k + 1;
    }
  }

  // ---------- the stable insertion sort ----------

  type Compare = (nat, nat) -> int

  /** `x` behind the last item that does not compare greater. */
  function Place(cmp: Compare, s: seq<Link>, x: Link): seq<Link> {
    if s == [] then [x]
    else
      var n := |s| - 1;
      if cmp(s[n].tag, x.tag) <= 0 then s + [x] else Place(cmp, s[..n], x) + [s[n]]
  }

  function InsertionSort(cmp: Compare, s: seq<Link>): seq<Link> {
    if s == [] then [] else Place(cmp, InsertionSort(cmp, s[..|s| - 1]), s[|s| - 1])
  }

  predicate Le(cmp: Compare, a: nat, b: nat) { cmp(a, b) <= 0 }

  /** Every two items compare, and comparison is transitive. */
  ghost predicate Preorder(cmp: Compare) {
    && (forall a: nat, b: nat {:trigger Le(cmp, a, b)} :: Le(cmp, a, b) || Le(cmp, b, a))
    && (forall a: nat, b: nat, c: nat {:trigger Le(cmp, a, b), Le(cmp, b, c)} ::
          Le(cmp, a, b) && Le(cmp, b, c) ==> Le(cmp, a, c))
  }

  ghost predicate IsSorted(cmp: Compare, s: seq<Link>) {
    forall i, j :: 0 <= i < j < |s| ==> cmp(s[i].tag, s[j].tag) <= 0
  }

  predicate Ties(cmp: Compare, a: nat, b: nat) { cmp(a, b) <= 0 && cmp(b, a) <= 0 }

  /** The items that tie with `t`, in their order. */
  function Class(cmp: Compare, s: seq<Link>, t: nat): seq<Link> {
    if s == [] then []
    else
      var n := |s| - 1;
      Class(cmp, s[..n], t) + (if Ties(cmp, s[n].tag, t) then [s[n]] else [])
  }

  lemma {:induction false} PlacePermutes(cmp: Compare, s: seq<Link>, x: Link)
    ensures multiset(Place(cmp, s, x)) == multiset(s + [x]) && |Place(cmp, s, x)| == |s| + 1
  {
    if s != [] {
      var n := |s| - 1;
      assert s == s[..n] + [s[n]];
      PlacePermutes(cmp, s[..n], x);
    }
  }

  lemma PlaceStep(cmp: Compare, s: seq<Link>, x: Link)
    ensures Place(cmp, s, x) ==
            if s == [] then [x]
            else
              var n := |s| - 1;
              if cmp(s[n].tag, x.tag) <= 0 then s + [x] else Place(cmp, s[..n], x) + [s[n]]
  {
  }

  lemma {:induction false} PlaceSorted(cmp: Compare, s: seq<Link>, x: Link)
    requires Preorder(cmp) && IsSorted(cmp, s)
    ensures IsSorted(cmp, Place(cmp, s, x))
  {
    hide Place;
    PlaceStep(cmp, s, x);
    if s != [] {
      var n := |s| - 1;
      if cmp(s[n].tag, x.tag) <= 0 {
        forall i | 0 <= i < |s| ensures cmp(s[i].tag, x.tag) <= 0 {
          assert i < n ==> Le(cmp, s[i].tag, s[n].tag) && Le(cmp, s[n].tag, x.tag) && Le(cmp, s[i].tag, x.tag);
        }
        SortedSnoc(cmp, s, x);
      } else {
        assert !Le(cmp, s[n].tag, x.tag) && Le(cmp, x.tag, s[n].tag);
        PlaceSorted(cmp, s[..n], x);
        PlacePermutes(cmp, s[..n], x);
        var p := Place(cmp, s[..n], x);
        hide Preorder;
        NotAbove(cmp, p, s[..n] + [x], s[n]);
        hide IsSorted;
        SortedSnoc(cmp, p, s[n]);
      }
    }
  }

  lemma SortedSnoc(cmp: Compare, p: seq<Link>, y: Link)
    requires IsSorted(cmp, p) && forall i :: 0 <= i < |p| ==> cmp(p[i].tag, y.tag) <= 0
    ensures IsSorted(cmp, p + [y])
  {
  }

  lemma NotAbove(cmp: Compare, p: seq<Link>, q: seq<Link>, y: Link)
    requires multiset(p) == multiset(q) && forall i :: 0 <= i < |q| ==> cmp(q[i].tag, y.tag) <= 0
    ensures forall i :: 0 <= i < |p| ==> cmp(p[i].tag, y.tag) <= 0
  {
    forall i | 0 <= i < |p| ensures cmp(p[i].tag, y.tag) <= 0 {
      assert p[i] in multiset(p) && p[i] in multiset(q);
      assert p[i] in q;
    }
  }

  lemma TiesCompare(cmp: Compare, a: nat, b: nat, t: nat)
    requires Preorder(cmp)
    ensures Ties(cmp, a, t) && Ties(cmp, b, t) ==> cmp(a, b) <= 0
  {
    assert Le(cmp, a, t) && Le(cmp, t, b) ==> Le(cmp, a, b);
  }

  lemma {:induction false} PlaceStable(cmp: Compare, s: seq<Link>, x: Link, t: nat)
    requires Preorder(cmp)
    ensures Class(cmp, Place(cmp, s, x), t) == Class(cmp, s + [x], t)
  {
    hide Class;
    assert s == [] ==> s + [x] == [x];
    if s != [] && cmp(s[|s| - 1].tag, x.tag) > 0 {
      var n := |s| - 1;
      var p := Place(cmp, s[..n], x);
      PlaceStable(cmp, s[..n], x, t);
      ClassSnoc(cmp, p, s[n], t);
      ClassSnoc(cmp, s[..n], x, t);
      ClassSnoc(cmp, s, x, t);
      ClassSnoc(cmp, s[..n], s[n], t);
      assert s == s[..n] + [s[n]];
      TiesCompare(cmp, s[n].tag, x.tag, t);
    }
  }

  lemma {:induction false} SortIsSorted(cmp: Compare, s: seq<Link>)
    requires Preorder(cmp)
    ensures IsSorted(cmp, InsertionSort(cmp, s))
  {
    if s != [] {
      SortIsSorted(cmp, s[..|s| - 1]);
      PlaceSorted(cmp, InsertionSort(cmp, s[..|s| - 1]), s[|s| - 1]);
    }
  }

  lemma {:induction false} SortIsStable(cmp: Compare, s: seq<Link>, t: nat)
    requires Preorder(cmp)
    ensures Class(cmp, InsertionSort(cmp, s), t) == Class(cmp, s, t)
  {
    if s != [] {
      var n := |s| - 1;
      var r := InsertionSort(cmp, s[..n]);
      assert InsertionSort(cmp, s) == Place(cmp, r, s[n]);
      assert s == s[..n] + [s[n]];
      SortIsStable(cmp, s[..n], t);
      hide *;
      PlaceStable(cmp, r, s[n], t);
      ClassSnoc(cmp, r, s[n], t);
      ClassSnoc(cmp, s[..n], s[n], t);
    }
  }

  /** The result is a sorted permutation, and items that tie keep their order. */
  lemma SortsStably(cmp: Compare, s: seq<Link>)
    requires Preorder(cmp)
    ensures IsSorted(cmp, InsertionSort(cmp, s))
    ensures multiset(InsertionSort(cmp, s)) == multiset(s) && |InsertionSort(cmp, s)| == |s|
    ensures forall t: nat :: Class(cmp, InsertionSort(cmp, s), t) == Class(cmp, s, t)
  {
    hide *;
    SortIsSorted(cmp, s);
    SortPermutes(cmp, s);
    forall t: nat ensures Class(cmp, InsertionSort(cmp, s), t) == Class(cmp, s, t) {
      SortIsStable(cmp, s, t);
    }
  }

  lemma ClassSnoc(cmp: Compare, s: seq<Link>, x: Link, t: nat)
    ensures Class(cmp, s + [x], t) == Class(cmp, s, t) + (if Ties(cmp, x.tag, t) then [x] else [])
  {
    assert (s + [x])[..|s|] == s;
  }

  /** Where the inner loop of queue_sort takes `q`, looking back from the end of the sorted part:
      the number of sorted items that stay before it. */
  method FindPlace(h: Link, ghost items: seq<Link>, cmp: Compare, q: Link, last: Link, ghost k: nat)
    returns (prev: Link, ghost j: nat)
    requires Ring(h, items) && 0 < k <= |items| && last == items[k - 1]
    ensures j <= k && prev == Around(h, items)[j]
    ensures Place(cmp, items[..k], q) == items[..j] + [q] + items[j..k]
  {
    ghost var r := Around(h, items);
    prev, j := last, k;
    while true
      invariant 0 < j <= k && prev == r[j]
      invariant Place(cmp, items[..k], q) == Place(cmp, items[..j], q) + items[j..k]
      decreases j
    {
      assert items[..j][..j - 1] == items[..j - 1];
      if cmp(prev.tag, q.tag) <= 0 {
        break;
      }
      assert Place(cmp, items[..j], q) == Place(cmp, items[..j - 1], q) + [items[j - 1]];
      assert [items[j - 1]] + items[j..k] == items[j - 1..k];
      assert Joined(r, j - 1);
      prev, j := prev.prev, j - 1;
      if prev == h {
        assert r[0] == r[j];
        break;
      }
    }
  }

  /** The list when the first `k` items are sorted. */
  ghost function Partly(cmp: Compare, items: seq<Link>, k: nat): seq<Link>
    requires k <= |items|
  {
    InsertionSort(cmp, items[..k]) + items[k..]
  }

  lemma {:induction false} SortPermutes(cmp: Compare, s: seq<Link>)
    ensures multiset(InsertionSort(cmp, s)) == multiset(s) && |InsertionSort(cmp, s)| == |s|
  {
    if s != [] {
      var front, x := s[..|s| - 1], s[|s| - 1];
      var r := InsertionSort(cmp, front);
      assert InsertionSort(cmp, s) == Place(cmp, r, x);
      hide *;
      assert s == front + [x];
      SortPermutes(cmp, front);
      PlacePermutes(cmp, r, x);
    }
  }

  lemma SortNext(cmp: Compare, items: seq<Link>, k: nat)
    requires k < |items|
    ensures InsertionSort(cmp, items[..k + 1]) == Place(cmp, InsertionSort(cmp, items[..k]), items[k])
  {
    assert items[..k + 1][..k] == items[..k];
  }

  /** Taking out the first unsorted item and placing it sorts one more. */
  lemma PlaceNext(cmp: Compare, items: seq<Link>, k: nat, j: nat)
    requires k < |items| && j <= k && |InsertionSort(cmp, items[..k])| == k
    requires var s := InsertionSort(cmp, items[..k]);
             Place(cmp, s, items[k]) == s[..j] + [items[k]] + s[j..]
    ensures var cur := Partly(cmp, items, k);
            var out := cur[..k] + cur[k + 1..];
            && |cur| == |items| && cur[k] == items[k] && cur[..k] == InsertionSort(cmp, items[..k]) == out[..k]
            && out[..j] + [items[k]] + out[j..] == Partly(cmp, items, k + 1)
  {
    hide InsertionSort, Place;
    var s, cur := InsertionSort(cmp, items[..k]), Partly(cmp, items, k);
    SortNext(cmp, items, k);
    var out := cur[..k] + cur[k + 1..];
    assert out == s + items[k + 1..];
    assert out[..j] == s[..j] && out[j..] == s[j..] + items[k + 1..];
  }

  lemma PartlyMembers(cmp: Compare, items: seq<Link>, k: nat)
    requires k <= |items|
    ensures |InsertionSort(cmp, items[..k])| == k && |Partly(cmp, items, k)| == |items|
    ensures forall i :: 0 <= i < |items| ==> Partly(cmp, items, k)[i] in items
  {
    SortPermutes(cmp, items[..k]);
    assert items == items[..k] + items[k..];
    var s, p := InsertionSort(cmp, items[..k]), Partly(cmp, items, k);
    forall i | 0 <= i < |items| ensures p[i] in items {
      if i < k {
        assert p[i] == s[i] && s[i] in multiset(s) && s[i] in multiset(items[..k]);
        assert s[i] in items[..k];
      } else {
        assert p[i] == items[i];
      }
    }
  }

  lemma PartlyFront(cmp: Compare, items: seq<Link>, k: nat)
    requires k < |items| && |InsertionSort(cmp, items[..k])| == k
    ensures var cur := Partly(cmp, items, k);
            && |cur| == |items| && (cur[..k] + cur[k + 1..])[..k] == cur[..k] == InsertionSort(cmp, items[..k])
            && cur[k] == items[k] && (k + 1 < |items| ==> cur[k + 1] == items[k + 1])
  {
  }

  lemma OthersDiffer(h: Link, items: seq<Link>, k: nat)
    requires Ring(h, items) && k < |items|
    ensures items[k] != h && items[k] !in items[..k] + items[k + 1..]
  {
    var r, out := Around(h, items), items[..k] + items[k + 1..];
    assert r[k + 1] == items[k] && r[0] == h;
    forall i | 0 <= i < |out| ensures out[i] != items[k] {
      assert r[if i < k then i + 1 else i + 2] == out[i];
    }
  }

  /** One turn of the outer loop: the item at `k` goes where the inner loop finds its place. */
  method MoveItem(h: Link, ghost cur: seq<Link>, cmp: Compare, q: Link, ghost k: nat) returns (next: Link, ghost j: nat)
    requires Ring(h, cur) && 0 < k < |cur| && q == cur[k]
    modifies h, cur
    ensures j <= k && var s := cur[..k]; Place(cmp, s, q) == s[..j] + [q] + s[j..]
    ensures var out := cur[..k] + cur[k + 1..]; Ring(h, out[..j] + [q] + out[j..])
    ensures next == if k + 1 < |cur| then cur[k + 1] else h
  {
    ghost var out := cur[..k] + cur[k + 1..];
    assert Joined(Around(h, cur), k) && Joined(Around(h, cur), k + 1);
    OthersDiffer(h, cur, k);
    var prev: Link := q.prev;
    next := q.next;
    Remove(h, cur, k, q);
    prev, j := FindPlace(h, out, cmp, q, prev, k);
    ghost var s := cur[..k];
    assert out[..k] == s && out[..j] == s[..j] && out[j..k] == s[j..];
    InsertAfter(h, out, j, prev, q);
  }

  /** Which sorts one more item. */
  method MoveBack(h: Link, ghost items: seq<Link>, cmp: Compare, q: Link, ghost k: nat) returns (next: Link)
    requires 0 < k < |items| && Ring(h, Partly(cmp, items, k)) && q == items[k]
    modifies h, items
    ensures Ring(h, Partly(cmp, items, k + 1))
    ensures next == if k + 1 < |items| then items[k + 1] else h
  {
    PartlyMembers(cmp, items, k);
    PartlyFront(cmp, items, k);
    ghost var cur := Partly(cmp, items, k);
    hide Partly, InsertionSort, Place, Ring;
    ghost var j;
    next, j := MoveItem(h, cur, cmp, q, k);
    PlaceNext(cmp, items, k, j);
  }

  /** queue_sort: relinks the items into the order of the insertion sort. */
  method Sort(h: Link, ghost items: seq<Link>, cmp: Compare)
    requires Ring(h, items)
    modifies h, items
    ensures Ring(h, InsertionSort(cmp, items))
  {
    ghost var n := |items|;
    forall i | 0 <= i < n ensures items[i] != h {
      assert Around(h, items)[0] == h && Around(h, items)[i + 1] == items[i];
    }
    assert Joined(Around(h, items), 0) && Joined(Around(h, items), n);
    assert Around(h, items)[1] == (if n == 0 then h else items[0]);
    var q: Link := h.next;
    if q == h.prev {
      assert Around(h, items)[1] == Around(h, items)[n];
      ShortIsSorted(cmp, items);
      return;
    }
    assert Joined(Around(h, items), 1);
    q := q.next;
    ghost var k := 1;
    ShortIsSorted(cmp, items[..1]);
    assert Partly(cmp, items, 1) == items;
    while q != h
      invariant 1 <= k <= n && Ring(h, Partly(cmp, items, k))
      invariant q == if k < n then items[k] else h
      decreases n - k
    {
      q := MoveBack(h, items, cmp, q, k);
      k := k + 1;
    }
    assert items[..n] == items && Partly(cmp, items, n) == InsertionSort(cmp, items);
  }

  lemma ShortIsSorted(cmp: Compare, s: seq<Link>)
    requires |s| <= 1
    ensures InsertionSort(cmp, s) == s
  {
    if |s| == 1 {
      assert s[..0] == [] && InsertionSort(cmp, s[..0]) == [];
    }
  }
}
