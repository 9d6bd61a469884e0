/** The red-black tree of rbtree.c and rbtree.h, at pointer level.

    Nodes are heap objects with `left`, `right` and `parent` links and share one black
    sentinel. Each node carries four ghost numbers: its position `idx` in the in-order
    sequence, the interval `lo..hi` of positions covered by its subtree, and its black
    height `bh`. Rotations leave `order` and every `idx` alone, so the invariant of a
    node depends on its neighbours only. */
module RbTree {
  import opened RbSpec

  class Node {
    const tag: nat  // names the structure the node is embedded in
    var key: Key
    var left: Node?
    var right: Node?
    var parent: Node?
    var red: bool

    ghost var idx: int
    ghost var lo: int
    ghost var hi: int
    ghost var bh: nat

    constructor (tag: nat)
      ensures this.tag == tag
    {
      this.tag := tag;
      key, left, right, parent, red := 0, null, null, null, false;
      idx, lo, hi, bh := 0, 0, 0, 0;
    }
  }

  class Tree {
    const sentinel: Node
    const kind: Insertion
    var root: Node

    ghost var order: seq<Node>  // the nodes, in in-order
    ghost var nodes: set<Node>

    constructor (sentinel: Node, kind: Insertion)
      modifies sentinel
      ensures this.sentinel == sentinel && this.kind == kind
      ensures Valid() && order == [] && nodes == {}
    {
      sentinel.red := false;
      sentinel.lo, sentinel.hi, sentinel.bh := 0, 0, 0;
      this.sentinel := sentinel;
      this.kind := kind;
      root := sentinel;
      order, nodes := [], {};
    }

    // ---------- invariants ----------

    /** The links from `n` to its children, and the positions they stand for. */
    ghost predicate Down(n: Node)
      reads this, nodes`left, nodes`right, nodes`parent, nodes`idx, nodes`lo, nodes`hi
    {
      && n in nodes && n != sentinel
      && 0 <= n.lo <= n.idx < n.hi <= |order| && order[n.idx] == n
      && n.left != null && n.right != null
      && (if n.left == sentinel then n.lo == n.idx
          else n.left in nodes && n.left.parent == n && n.left.lo == n.lo && n.left.hi == n.idx)
      && (if n.right == sentinel then n.hi == n.idx + 1
          else n.right in nodes && n.right.parent == n && n.right.lo == n.idx + 1 && n.right.hi == n.hi)
    }

    /** The link from `n` to its parent. Nothing is said about the parent link of the root. */
    ghost predicate Up(n: Node)
      reads this, nodes`left, nodes`right, nodes`parent
    {
      n in nodes && (n != root ==> n.parent != null && n.parent in nodes && (n.parent.left == n || n.parent.right == n))
    }

    ghost predicate Link(n: Node)
      reads this, nodes`left, nodes`right, nodes`parent, nodes`idx, nodes`lo, nodes`hi
    {
      Down(n) && Up(n)
    }

    ghost predicate Links()
      reads this, nodes`left, nodes`right, nodes`parent, nodes`idx, nodes`lo, nodes`hi
      reads sentinel`lo, sentinel`hi, sentinel`red, sentinel`bh
    {
      && sentinel !in nodes
      && sentinel.lo == sentinel.hi == 0
      && !sentinel.red && sentinel.bh == 0
      && (if root == sentinel then order == [] && nodes == {} else root in nodes && root.lo == 0 && root.hi == |order|)
      && (forall n {:trigger Link(n)} :: n in nodes ==> Link(n))
      && (forall i :: 0 <= i < |order| ==> order[i] in nodes && order[i].idx == i)
    }

    /** Equal black heights below `n`. */
    ghost predicate Bal(n: Node)
      reads this, nodes`left, nodes`right, nodes`red, nodes`bh, sentinel`red, sentinel`bh
    {
      && n in nodes && n.left != null && n.right != null
      && (n.left in nodes || n.left == sentinel) && (n.right in nodes || n.right == sentinel)
      && n.left.bh == n.right.bh
      && n.bh == n.left.bh + (if n.red then 0 else 1)
    }

    /** No red child below a red `n`, except that `x` may be red on either side of the rule. */
    ghost predicate NoRed(n: Node, x: Node?)
      reads this, nodes`left, nodes`right, nodes`red, sentinel`red
    {
      && n in nodes && n.left != null && n.right != null
      && (n.left in nodes || n.left == sentinel) && (n.right in nodes || n.right == sentinel)
      && (n.red && n != x ==> (n.left.red ==> n.left == x) && (n.right.red ==> n.right == x))
    }

    ghost predicate Valid()
      reads this, nodes, sentinel
    {
      && Links()
      && !root.red
      && (forall n {:trigger Bal(n)} :: n in nodes ==> Bal(n))
      && (forall n {:trigger NoRed(n, null)} :: n in nodes ==> NoRed(n, null))
    }

    // ---------- rotations ----------

    /** What a left rotation at `node`, with right child `t`, does to the links and positions of `n`. */
    twostate predicate LeftRotated(n: Node, node: Node, t: Node)
      reads this, nodes, sentinel
    {
      && n in nodes
      && n.left == (if n == t then node else if old(n.left) == node then t else old(n.left))
      && n.right == (if n == node then old(t.left) else if old(n.right) == node then t else old(n.right))
      && n.parent == (if n == node then t else if n == t then old(node.parent)
                      else if n == old(t.left) then node else old(n.parent))
      && n.lo == (if n == t then old(node.lo) else old(n.lo))
      && n.hi == (if n == node then old(t.idx) else old(n.hi))
    }

    /** The pointer writes of rbtree_left_rotate, and nothing but them. */
    method LeftRotateLinks(node: Node)
      requires node.right != null && node.right != node
      requires node.right.left != null && node.right.left != node && node.right.left != node.right
      requires node != root ==>
                 && node.parent != null && node.parent != node.right
                 && node.parent != node && node.parent != node.right.left
      modifies this`root, node`right, node`parent, node`hi, node.right`left, node.right`parent, node.right`lo,
               (if node.right.left == sentinel then {} else {node.right.left})`parent,
               (if node == root then {} else {node.parent})`left, (if node == root then {} else {node.parent})`right
      ensures var t := old(node.right);
              && root == (if old(root) == node then t else old(root))
              && node.right == old(t.left) && t.left == node && node.parent == t && t.parent == old(node.parent)
              && t.lo == old(node.lo) && node.hi == old(t.idx)
              && (old(t.left) != sentinel ==> old(t.left).parent == node)
              && (old(root) != node ==>
                    var p := old(node.parent);
                    if old(p.left) == node then p.left == t && p.right == old(p.right)
                    else p.left == old(p.left) && p.right == t)
    {
      var temp := node.right;
      node.right := temp.left;
      if temp.left != sentinel {
        temp.left.parent := node;
      }
      temp.parent := node.parent;
      if node == root {
        root := temp;
      } else if node == node.parent.left {
        node.parent.left := temp;
      } else {
        node.parent.right := temp;
      }
      temp.left := node;
      node.parent := temp;
      temp.lo, node.hi := node.lo, temp.idx;
    }

    twostate lemma LeftRotateKeepsLink(new n: Node, new node: Node, new t: Node)
      requires old(Links()) && nodes == old(nodes) && order == old(order)
      requires n in nodes && node in nodes && t in nodes && old(node.right) == t
      requires old(Link(n)) && old(Link(node)) && old(Link(t))
      requires old(n.left != sentinel ==> Link(n.left)) && old(n.right != sentinel ==> Link(n.right))
      requires root == (if old(root) == node then t else old(root))
      requires forall n :: n in nodes ==> n.idx == old(n.idx)
      requires forall n {:trigger LeftRotated(n, node, t)} :: n in nodes ==> LeftRotated(n, node, t)
      ensures Link(n)
    {
      assert LeftRotated(n, node, t) && LeftRotated(node, node, t) && LeftRotated(t, node, t);
      assert n.left == sentinel || LeftRotated(n.left, node, t);
      assert n.right == sentinel || LeftRotated(n.right, node, t);
      assert n == root || LeftRotated(n.parent, node, t);
    }

    twostate lemma LeftRotateKeepsLinks(new node: Node, new t: Node)
      requires old(Links()) && nodes == old(nodes) && order == old(order)
      requires sentinel.lo == sentinel.hi == 0 && !sentinel.red && sentinel.bh == 0
      requires node in nodes && t in nodes && old(node.right) == t && old(Link(node)) && old(Link(t))
      requires root == (if old(root) == node then t else old(root))
      requires forall n :: n in nodes ==> n.idx == old(n.idx)
      requires forall n {:trigger LeftRotated(n, node, t)} :: n in nodes ==> LeftRotated(n, node, t)
      ensures Links()
    {
      assert LeftRotated(t, node, t) && LeftRotated(node, node, t) && old(Link(t)) && LeftRotated(root, node, t);
      forall n | n in nodes ensures Link(n) {
        assert old(Link(n));
        assert old(n.left != sentinel ==> Link(n.left));
        assert old(n.right != sentinel ==> Link(n.right));
        LeftRotateKeepsLink(n, node, t);
      }
    }

    method LeftRotate(node: Node)
      requires Links() && node in nodes && Link(node) && node.right != sentinel
      modifies this`root, nodes`left, nodes`right, nodes`parent, nodes`lo, nodes`hi
      ensures Links()
      ensures var t := old(node.right);
              && t != null && t in nodes && t != node
              && root == (if old(root) == node then t else old(root))
              && (forall n {:trigger LeftRotated(n, node, t)} :: n in nodes ==> LeftRotated(n, node, t))
    {
      var t := node.right;
      assert Link(t);
      assert node != root ==> Link(node.parent);
      assert t.left != sentinel ==> Link(t.left);
      LeftRotateLinks(node);
      forall n | n in nodes ensures LeftRotated(n, node, t) {
        assert old(Link(n));
      }
      LeftRotateKeepsLinks(node, t);
    }

    /** What a right rotation at `node`, with left child `t`, does to the links and positions of `n`. */
    twostate predicate RightRotated(n: Node, node: Node, t: Node)
      reads this, nodes, sentinel
    {
      && n in nodes
      && n.right == (if n == t then node else if old(n.right) == node then t else old(n.right))
      && n.left == (if n == node then old(t.right) else if old(n.left) == node then t else old(n.left))
      && n.parent == (if n == node then t else if n == t then old(node.parent)
                      else if n == old(t.right) then node else old(n.parent))
      && n.hi == (if n == t then old(node.hi) else old(n.hi))
      && n.lo == (if n == node then old(t.idx) + 1 else old(n.lo))
    }

    /** The pointer writes of rbtree_right_rotate, and nothing but them. */
    method RightRotateLinks(node: Node)
      requires node.left != null && node.left != node
      requires node.left.right != null && node.left.right != node && node.left.right != node.left
      requires node != root ==>
                 && node.parent != null && node.parent != node.left
                 && node.parent != node && node.parent != node.left.right
      modifies this`root, node`left, node`parent, node`lo, node.left`right, node.left`parent, node.left`hi,
               (if node.left.right == sentinel then {} else {node.left.right})`parent,
               (if node == root then {} else {node.parent})`right, (if node == root then {} else {node.parent})`left
      ensures var t := old(node.left);
              && root == (if old(root) == node then t else old(root))
              && node.left == old(t.right) && t.right == node && node.parent == t && t.parent == old(node.parent)
              && t.hi == old(node.hi) && node.lo == old(t.idx) + 1
              && (old(t.right) != sentinel ==> old(t.right).parent == node)
              && (old(root) != node ==>
                    var p := old(node.parent);
                    if old(p.right) == node then p.right == t && p.left == old(p.left)
                    else p.right == old(p.right) && p.left == t)
    {
      var temp := node.left;
      node.left := temp.right;
      if temp.right != sentinel {
        temp.right.parent := node;
      }
      temp.parent := node.parent;
      if node == root {
        root := temp;
      } else if node == node.parent.right {
        node.parent.right := temp;
      } else {
        node.parent.left := temp;
      }
      temp.right := node;
      node.parent := temp;
      temp.hi, node.lo := node.hi, temp.idx + 1;
    }

    twostate lemma RightRotateKeepsLink(new n: Node, new node: Node, new t: Node)
      requires old(Links()) && nodes == old(nodes) && order == old(order)
      requires n in nodes && node in nodes && t in nodes && old(node.left) == t
      requires old(Link(n)) && old(Link(node)) && old(Link(t))
      requires old(n.right != sentinel ==> Link(n.right)) && old(n.left != sentinel ==> Link(n.left))
      requires root == (if old(root) == node then t else old(root))
      requires forall n :: n in nodes ==> n.idx == old(n.idx)
      requires forall n {:trigger RightRotated(n, node, t)} :: n in nodes ==> RightRotated(n, node, t)
      ensures Link(n)
    {
      assert RightRotated(n, node, t) && RightRotated(node, node, t) && RightRotated(t, node, t);
      assert n.right == sentinel || RightRotated(n.right, node, t);
      assert n.left == sentinel || RightRotated(n.left, node, t);
      assert n == root || RightRotated(n.parent, node, t);
    }

    twostate lemma RightRotateKeepsLinks(new node: Node, new t: Node)
      requires old(Links()) && nodes == old(nodes) && order == old(order)
      requires sentinel.lo == sentinel.hi == 0 && !sentinel.red && sentinel.bh == 0
      requires node in nodes && t in nodes && old(node.left) == t && old(Link(node)) && old(Link(t))
      requires root == (if old(root) == node then t else old(root))
      requires forall n :: n in nodes ==> n.idx == old(n.idx)
      requires forall n {:trigger RightRotated(n, node, t)} :: n in nodes ==> RightRotated(n, node, t)
      ensures Links()
    {
      assert RightRotated(t, node, t) && RightRotated(node, node, t) && old(Link(t)) && RightRotated(root, node, t);
      forall n | n in nodes ensures Link(n) {
        assert old(Link(n));
        assert old(n.right != sentinel ==> Link(n.right));
        assert old(n.left != sentinel ==> Link(n.left));
        RightRotateKeepsLink(n, node, t);
      }
    }

    method RightRotate(node: Node)
      requires Links() && node in nodes && Link(node) && node.left != sentinel
      modifies this`root, nodes`right, nodes`left, nodes`parent, nodes`lo, nodes`hi
      ensures Links()
      ensures var t := old(node.left);
              && t != null && t in nodes && t != node
              && root == (if old(root) == node then t else old(root))
              && (forall n {:trigger RightRotated(n, node, t)} :: n in nodes ==> RightRotated(n, node, t))
    {
      var t := node.left;
      assert Link(t);
      assert node != root ==> Link(node.parent);
      assert t.right != sentinel ==> Link(t.right);
      RightRotateLinks(node);
      forall n | n in nodes ensures RightRotated(n, node, t) {
        assert old(Link(n));
      }
      RightRotateKeepsLinks(node, t);
    }

    // ---------- insertion ----------

    ghost function Keys(): (ks: seq<Key>)
      reads this, order
      ensures |ks| == |order| && forall i :: 0 <= i < |ks| ==> ks[i] == order[i].key
    {
      seq(|order|, i requires 0 <= i < |order| reads this, order => order[i].key)
    }

    /** The descent of rbtree_insert_value and rbtree_insert_timer_value, which differ only in the
        test: the free slot is the left or the right link of `p`. */
    method FindSlot(key: Key) returns (p: Node, toLeft: bool)
      requires Links() && root != sentinel
      ensures p in nodes && (if toLeft then p.left else p.right) == sentinel
      ensures forall k :: Boundary(kind, Keys(), key, k) ==> k == (if toLeft then p.idx else p.idx + 1)
    {
      p := root;
      while true
        invariant p in nodes && Link(p)
        invariant forall k :: Boundary(kind, Keys(), key, k) ==> p.lo <= k <= p.hi
        decreases p.hi - p.lo
      {
        toLeft := Before(kind, key, p.key);
        var next := if toLeft then p.left else p.right;
        if next == sentinel {
          break;
        }
        assert Link(next);
        p := next;
      }
    }

    /** Positions of `n` once a place `k` has been opened next to the node at position `at`. */
    twostate predicate Opened(new n: Node, k: int, at: int)
      requires old(allocated(n))
      reads n
    {
      && n.idx == old(n.idx) + (if k <= old(n.idx) then 1 else 0)
      && n.lo == old(n.lo) + (if at < old(n.lo) then 1 else 0)
      && n.hi == old(n.hi) + (if at < old(n.hi) then 1 else 0)
    }

    ghost method Open(s: set<Node>, k: int, at: int)
      modifies s`idx, s`lo, s`hi
      ensures forall n {:trigger Opened(n, k, at)} :: n in s ==> Opened(n, k, at)
    {
      forall n | n in s { n.idx := n.idx + (if k <= n.idx then 1 else 0); }
      forall n | n in s { n.lo := n.lo + (if at < n.lo then 1 else 0); }
      forall n | n in s { n.hi := n.hi + (if at < n.hi then 1 else 0); }
    }

    /** Everything but the red rule at `x` and its parent, and the colour of a root `x`. */
    ghost predicate RedAt(x: Node)
      reads this, nodes, sentinel
    {
      && Links()
      && x in nodes && x.red && NoRed(x, null) && (x != root ==> !root.red)
      && (forall n {:trigger Bal(n)} :: n in nodes ==> Bal(n))
      && (forall n {:trigger NoRed(n, x)} :: n in nodes ==> NoRed(n, x))
    }

    /** The effect on an old node `n` of hanging the new leaf `node` below `p`. */
    twostate predicate Attached(new n: Node, new p: Node, new node: Node, toLeft: bool, k: int)
      reads this, nodes, sentinel
    {
      && n in old(nodes) && p in old(nodes) && n in nodes
      && Opened(n, k, old(p.idx))
      && n.parent == old(n.parent)
      && n.left == (if n == p && toLeft then node else old(n.left))
      && n.right == (if n == p && !toLeft then node else old(n.right))
    }

    /** The pointer writes at the end of rbtree_insert_value. */
    method AttachLeaf(p: Node, toLeft: bool, node: Node)
      requires p in nodes && node !in nodes
      modifies this`order, this`nodes, p`left, p`right, nodes`idx, nodes`lo, nodes`hi
      modifies node`parent, node`left, node`right, node`red, node`idx, node`lo, node`hi, node`bh
      requires 0 <= p.idx < |order|
      ensures var k := old(if toLeft then p.idx else p.idx + 1);
              && nodes == old(nodes) + {node}
              && order == old(order)[..k] + [node] + old(order)[k..]
              && node.parent == p && node.left == node.right == sentinel && node.red && node.bh == 0
              && node.idx == node.lo == k && node.hi == k + 1
              && (forall n {:trigger Attached(n, p, node, toLeft, k)} ::
                    n in old(nodes) ==> Attached(n, p, node, toLeft, k))
    {
      ghost var k := if toLeft then p.idx else p.idx + 1;
      ghost var at := p.idx;
      if toLeft {
        p.left := node;
      } else {
        p.right := node;
      }
      node.parent := p;
      node.left := sentinel;
      node.right := sentinel;
      node.red := true;
      node.idx, node.lo, node.hi, node.bh := k, k, k + 1, 0;
      order := order[..k] + [node] + order[k..];
      nodes := nodes + {node};
      label L:
      Open(old(nodes), k, at);
      forall n | n in old(nodes) ensures Attached(n, p, node, toLeft, k) {
        assert Opened@L(n, k, at);
      }
    }

    twostate lemma LeafKeepsLink(new n: Node, new p: Node, new node: Node, new toLeft: bool, new k: int)
      requires old(Links()) && n in old(nodes) && p in old(nodes) && node !in old(nodes)
      requires old(Link(n)) && old(Link(p)) && old(n.left != sentinel ==> Link(n.left))
      requires old(n.right != sentinel ==> Link(n.right))
      requires root == old(root) && nodes == old(nodes) + {node}
      requires k == old(if toLeft then p.idx else p.idx + 1)
      requires (if toLeft then old(p.left) else old(p.right)) == sentinel
      requires order == old(order)[..k] + [node] + old(order)[k..]
      requires node.parent == p && node.lo == node.idx == k && node.hi == k + 1 && node != sentinel
      requires forall n {:trigger Attached(n, p, node, toLeft, k)} :: n in old(nodes) ==>
                Attached(n, p, node, toLeft, k)
      ensures Link(n)
    {
      assert Attached(n, p, node, toLeft, k) && Attached(p, p, node, toLeft, k);
      assert n.left in old(nodes) ==> Attached(n.left, p, node, toLeft, k);
      assert n.right in old(nodes) ==> Attached(n.right, p, node, toLeft, k);
      assert n.parent in old(nodes) ==> Attached(n.parent, p, node, toLeft, k);
    }

    twostate lemma LeafKeepsOrder(new p: Node, new node: Node, new toLeft: bool, new k: int)
      requires old(Links()) && p in old(nodes) && node !in old(nodes) && old(Link(p))
      requires nodes == old(nodes) + {node}
      requires k == old(if toLeft then p.idx else p.idx + 1)
      requires order == old(order)[..k] + [node] + old(order)[k..] && node.idx == k
      requires forall n {:trigger Attached(n, p, node, toLeft, k)} :: n in old(nodes) ==>
                Attached(n, p, node, toLeft, k)
      ensures forall i :: 0 <= i < |order| ==> order[i] in nodes && order[i].idx == i
    {
      forall i | 0 <= i < |order| ensures order[i] in nodes && order[i].idx == i {
        if i != k {
          assert order[i] == old(order)[if i < k then i else i - 1];
          assert Attached(order[i], p, node, toLeft, k);
        }
      }
    }

    twostate lemma LeafKeepsLinks(new p: Node, new node: Node, new toLeft: bool, new k: int)
      requires old(Links()) && p in old(nodes) && node !in old(nodes) && old(Link(p))
      requires root == old(root) && nodes == old(nodes) + {node}
      requires sentinel.lo == sentinel.hi == 0 && !sentinel.red && sentinel.bh == 0
      requires k == old(if toLeft then p.idx else p.idx + 1)
      requires (if toLeft then old(p.left) else old(p.right)) == sentinel
      requires order == old(order)[..k] + [node] + old(order)[k..]
      requires node.parent == p && node.left == node.right == sentinel
      requires node.lo == node.idx == k && node.hi == k + 1 && node != sentinel
      requires forall n {:trigger Attached(n, p, node, toLeft, k)} :: n in old(nodes) ==>
                Attached(n, p, node, toLeft, k)
      ensures Links()
    {
      LeafKeepsOrder(p, node, toLeft, k);
      assert Attached(root, p, node, toLeft, k) && Attached(p, p, node, toLeft, k);
      assert old(Link(root));
      forall n | n in old(nodes) ensures Link(n) {
        assert old(Link(n));
        assert old(n.left != sentinel ==> Link(n.left));
        assert old(n.right != sentinel ==> Link(n.right));
        LeafKeepsLink(n, p, node, toLeft, k);
      }
    }

    twostate lemma LeafKeepsRules(new n: Node, new p: Node, new node: Node, new toLeft: bool, new k: int)
      requires old(Valid()) && n in old(nodes) && p in old(nodes) && node !in old(nodes) && nodes == old(nodes) + {node}
      requires (if toLeft then old(p.left) else old(p.right)) == sentinel
      requires node.bh == 0 && !sentinel.red && sentinel.bh == 0
      requires forall m :: m in old(nodes) ==> m.red == old(m.red) && m.bh == old(m.bh)
      requires Attached(n, p, node, toLeft, k)
      ensures Bal(n) && NoRed(n, node)
    {
      assert old(Link(n)) && old(Bal(n)) && old(NoRed(n, null));
    }

    method InsertLeaf(node: Node) returns (ghost k: int)
      requires Valid() && root != sentinel && node !in nodes && node != sentinel
      modifies this`order, this`nodes, nodes`left, nodes`right, nodes`idx, nodes`lo, nodes`hi
      modifies node`parent, node`left, node`right, node`red, node`idx, node`lo, node`hi, node`bh
      ensures nodes == old(nodes) + {node}
      ensures 0 <= k <= |old(order)| && order == old(order)[..k] + [node] + old(order)[k..]
      ensures forall b :: old(Boundary(kind, Keys(), node.key, b)) ==> b == k
      ensures RedAt(node)
    {
      var p, toLeft := FindSlot(node.key);
      assert Link(p);
      k := if toLeft then p.idx else p.idx + 1;
      forall b | old(Boundary(kind, Keys(), node.key, b)) ensures b == k {
        assert Boundary(kind, Keys(), node.key, b);
      }
      AttachLeaf(p, toLeft, node);
      LeafKeepsLinks(p, node, toLeft, k);
      forall n | n in old(nodes) ensures Bal(n) && NoRed(n, node) {
        assert Attached(n, p, node, toLeft, k);
        LeafKeepsRules(n, p, node, toLeft, k);
      }
    }

    // The rebalancing loop: each method is one branch of its body.

    method FlipColors(p: Node, temp: Node, g: Node)
      requires p != temp && p != g && temp != g
      modifies p`red, temp`red, g`red, p`bh, temp`bh
      ensures !p.red && !temp.red && g.red && p.bh == old(p.bh) + 1 && temp.bh == old(temp.bh) + 1
    {
      p.red := false;
      temp.red := false;
      g.red := true;
      p.bh, temp.bh := p.bh + 1, temp.bh + 1;
    }

    /** `g` is the grandparent of the red node `x`, and the two children of `g` are `p`, the parent of `x`, and `u`. */
    ghost predicate Family(x: Node, p: Node, u: Node, g: Node)
      reads this, nodes
    {
      && {x, p, g} <= nodes && x.parent == p && p.parent == g && p != u && p != g && u != g && x != root && p != root
      && u != root
      && (p.left == x || p.right == x)
      && ((g.left == p && g.right == u) || (g.left == u && g.right == p))
    }

    twostate lemma FlipKeepsRules(new n: Node, new x: Node, new p: Node, new u: Node, new g: Node)
      requires nodes == old(nodes) && {n, x, p, u, g} <= nodes
      requires old(RedAt(x)) && old(Family(x, p, u, g)) && old(p.red) && old(u.red)
      requires forall m :: m in nodes ==>
                 (&& m.left == old(m.left) && m.right == old(m.right)
                  && m.red == (if m == p || m == u then false else m == g || old(m.red))
                  && m.bh == old(m.bh) + (if m == p || m == u then 1 else 0))
      requires !sentinel.red && sentinel.bh == 0
      ensures Bal(n) && NoRed(n, g)
    {
      assert old(Link(n)) && old(Bal(n)) && old(NoRed(n, x)) && old(NoRed(x, null));
      assert old(Link(g)) && old(Bal(g)) && old(NoRed(g, x));
    }

    method RecolorUp(x: Node, p: Node, u: Node, g: Node)
      requires RedAt(x) && Family(x, p, u, g) && p.red && u in nodes && u.red
      modifies p`red, u`red, g`red, p`bh, u`bh
      ensures RedAt(g)
    {
      assert Link(g);
      FlipColors(p, u, g);
      forall n | n in nodes ensures Bal(n) && NoRed(n, g) {
        FlipKeepsRules(n, x, p, u, g);
      }

    }

    /** The inner rotation of the left branch: `x` and its parent `p`, both red, change places. */
    twostate lemma InnerLeftRules(new n: Node, new x: Node, new p: Node)
      requires nodes == old(nodes) && {n, x, p} <= nodes
      requires old(RedAt(x)) && old(x.parent) == p && old(p.right) == x && old(p.red)
      requires forall m {:trigger LeftRotated(m, p, x)} :: m in nodes ==> LeftRotated(m, p, x)
      requires forall m :: m in nodes ==> m.red == old(m.red) && m.bh == old(m.bh)
      requires !sentinel.red && sentinel.bh == 0
      ensures Bal(n) && NoRed(n, p) && NoRed(p, null)
    {
      assert old(Link(n)) && old(Bal(n)) && old(NoRed(n, x)) && old(NoRed(x, null));
      assert old(Link(p)) && old(Link(x)) && old(Bal(p)) && old(Bal(x)) && old(NoRed(p, x));
      assert LeftRotated(n, p, x) && LeftRotated(p, p, x) && LeftRotated(x, p, x);
    }

    method InnerLeft(x: Node, p: Node, u: Node, g: Node)
      requires RedAt(x) && Family(x, p, u, g) && p.red && p.right == x && g.left == p
      modifies this`root, nodes`left, nodes`right, nodes`parent, nodes`lo, nodes`hi
      ensures RedAt(p) && Family(p, x, u, g) && x.left == p && g.left == x
    {
      assert Link(p) && Link(x) && Link(g);
      LeftRotate(p);
      forall n | n in nodes ensures Bal(n) && NoRed(n, p) && NoRed(p, null) {
        InnerLeftRules(n, x, p);
      }
      assert LeftRotated(p, p, x) && LeftRotated(x, p, x) && LeftRotated(g, p, x);
      assert u in nodes ==> LeftRotated(u, p, x);
    }

    method PaintBlackRed(p: Node, g: Node)
      requires p != g && 0 < g.bh
      modifies p`red, g`red, p`bh, g`bh
      ensures !p.red && g.red && p.bh == old(p.bh) + 1 && g.bh == old(g.bh) - 1
    {
      p.red := false;
      g.red := true;
      p.bh, g.bh := p.bh + 1, g.bh - 1;
    }

    /** A right rotation at `node` in which the two nodes also change colours: the child that goes
        up turns black, and `node` red. */
    method RightRotatePainted(node: Node, up: Node)
      requires Links() && node in nodes && Link(node) && node.left == up && up in nodes && 0 < node.bh
      modifies this`root, nodes`left, nodes`right, nodes`parent, nodes`lo, nodes`hi, up`red, node`red, up`bh, node`bh
      ensures Links()
      ensures !up.red && node.red && up.bh == old(up.bh) + 1 && node.bh == old(node.bh) - 1
      ensures root == (if old(root) == node then up else old(root))
      ensures forall n {:trigger RightRotated(n, node, up)} :: n in nodes ==> RightRotated(n, node, up)
    {
      PaintBlackRed(up, node);
      label L:
      RightRotate(node);
      forall n | n in nodes ensures RightRotated(n, node, up) {
        assert RightRotated@L(n, node, up);
      }
    }

    /** A left rotation at `node` in which the two nodes also change colours: the child that goes
        up turns black, and `node` red. */
    method LeftRotatePainted(node: Node, up: Node)
      requires Links() && node in nodes && Link(node) && node.right == up && up in nodes && 0 < node.bh
      modifies this`root, nodes`right, nodes`left, nodes`parent, nodes`lo, nodes`hi, up`red, node`red, up`bh, node`bh
      ensures Links()
      ensures !up.red && node.red && up.bh == old(up.bh) + 1 && node.bh == old(node.bh) - 1
      ensures root == (if old(root) == node then up else old(root))
      ensures forall n {:trigger LeftRotated(n, node, up)} :: n in nodes ==> LeftRotated(n, node, up)
    {
      PaintBlackRed(up, node);
      label L:
      LeftRotate(node);
      forall n | n in nodes ensures LeftRotated(n, node, up) {
        assert LeftRotated@L(n, node, up);
      }
    }

    twostate lemma OuterRightRules(new n: Node, new x: Node, new p: Node, new u: Node, new g: Node)
      requires nodes == old(nodes) && {n, x, p, g} <= nodes && (u in nodes || u == sentinel)
      requires old(RedAt(x)) && old(Family(x, p, u, g)) && old(p.red) && !old(u.red)
      requires old(g.left) == p && old(p.left) == x
      requires forall m {:trigger RightRotated(m, g, p)} :: m in nodes ==> RightRotated(m, g, p)
      requires forall m :: m in nodes ==> m.red == (if m == p then false else m == g || old(m.red))
      requires forall m :: m in nodes ==> m.bh == old(m.bh) + (if m == p then 1 else if m == g then -1 else 0)
      requires !sentinel.red && sentinel.bh == 0
      ensures Bal(n) && NoRed(n, x) && NoRed(x, null)
    {
      assert old(Link(n)) && old(Bal(n)) && old(NoRed(n, x)) && old(NoRed(x, null));
      assert old(Link(p)) && old(Link(g)) && old(Bal(p)) && old(Bal(g)) && old(NoRed(p, x)) && old(NoRed(g, x));
      assert RightRotated(n, g, p) && RightRotated(p, g, p) && RightRotated(g, g, p) && RightRotated(x, g, p);
    }

    method OuterRight(x: Node, p: Node, u: Node, g: Node)
      requires RedAt(x) && Family(x, p, u, g) && p.red && !u.red && p.left == x && g.left == p
      modifies this`root, nodes`left, nodes`right, nodes`parent, nodes`lo, nodes`hi, p`red, g`red, p`bh, g`bh
      ensures RedAt(x) && x.parent == p && !p.red
    {
      assert Link(p) && Link(x) && Link(g) && Bal(g) && NoRed(g, x);
      RightRotatePainted(g, p);
      forall n | n in nodes ensures Bal(n) && NoRed(n, x) && NoRed(x, null) {
        OuterRightRules(n, x, p, u, g);
      }
      assert RightRotated(x, g, p);
    }

    /** The inner rotation of the right branch: `x` and its parent `p`, both red, change places. */
    twostate lemma InnerRightRules(new n: Node, new x: Node, new p: Node)
      requires nodes == old(nodes) && {n, x, p} <= nodes
      requires old(RedAt(x)) && old(x.parent) == p && old(p.left) == x && old(p.red)
      requires forall m {:trigger RightRotated(m, p, x)} :: m in nodes ==> RightRotated(m, p, x)
      requires forall m :: m in nodes ==> m.red == old(m.red) && m.bh == old(m.bh)
      requires !sentinel.red && sentinel.bh == 0
      ensures Bal(n) && NoRed(n, p) && NoRed(p, null)
    {
      assert old(Link(n)) && old(Bal(n)) && old(NoRed(n, x)) && old(NoRed(x, null));
      assert old(Link(p)) && old(Link(x)) && old(Bal(p)) && old(Bal(x)) && old(NoRed(p, x));
      assert RightRotated(n, p, x) && RightRotated(p, p, x) && RightRotated(x, p, x);
    }

    method InnerRight(x: Node, p: Node, u: Node, g: Node)
      requires RedAt(x) && Family(x, p, u, g) && p.red && p.left == x && g.right == p
      modifies this`root, nodes`right, nodes`left, nodes`parent, nodes`lo, nodes`hi
      ensures RedAt(p) && Family(p, x, u, g) && x.right == p && g.right == x
    {
      assert Link(p) && Link(x) && Link(g);
      RightRotate(p);
      forall n | n in nodes ensures Bal(n) && NoRed(n, p) && NoRed(p, null) {
        InnerRightRules(n, x, p);
      }
      assert RightRotated(p, p, x) && RightRotated(x, p, x) && RightRotated(g, p, x);
      assert u in nodes ==> RightRotated(u, p, x);
    }

    twostate lemma OuterLeftRules(new n: Node, new x: Node, new p: Node, new u: Node, new g: Node)
      requires nodes == old(nodes) && {n, x, p, g} <= nodes && (u in nodes || u == sentinel)
      requires old(RedAt(x)) && old(Family(x, p, u, g)) && old(p.red) && !old(u.red)
      requires old(g.right) == p && old(p.right) == x
      requires forall m {:trigger LeftRotated(m, g, p)} :: m in nodes ==> LeftRotated(m, g, p)
      requires forall m :: m in nodes ==> m.red == (if m == p then false else m == g || old(m.red))
      requires forall m :: m in nodes ==> m.bh == old(m.bh) + (if m == p then 1 else if m == g then -1 else 0)
      requires !sentinel.red && sentinel.bh == 0
      ensures Bal(n) && NoRed(n, x) && NoRed(x, null)
    {
      assert old(Link(n)) && old(Bal(n)) && old(NoRed(n, x)) && old(NoRed(x, null));
      assert old(Link(p)) && old(Link(g)) && old(Bal(p)) && old(Bal(g)) && old(NoRed(p, x)) && old(NoRed(g, x));
      assert LeftRotated(n, g, p) && LeftRotated(p, g, p) && LeftRotated(g, g, p) && LeftRotated(x, g, p);
    }

    method OuterLeft(x: Node, p: Node, u: Node, g: Node)
      requires RedAt(x) && Family(x, p, u, g) && p.red && !u.red && p.right == x && g.right == p
      modifies this`root, nodes`right, nodes`left, nodes`parent, nodes`lo, nodes`hi, p`red, g`red, p`bh, g`bh
      ensures RedAt(x) && x.parent == p && !p.red
    {
      assert Link(p) && Link(x) && Link(g) && Bal(g) && NoRed(g, x);
      LeftRotatePainted(g, p);
      forall n | n in nodes ensures Bal(n) && NoRed(n, x) && NoRed(x, null) {
        OuterLeftRules(n, x, p, u, g);
      }
      assert LeftRotated(x, g, p);
    }

    /** The relatives that one turn of the insertion loop works on. */
    lemma FamilyOf(x: Node)
      requires RedAt(x) && Link(x) && x != root && x.parent != null && x.parent.red
      ensures x.parent in nodes && x.parent.parent != null && x.parent.parent in nodes
      ensures var p, g := x.parent, x.parent.parent;
              && Link(p) && Link(g) && g.left != null && g.right != null
              && (g.left == p || g.right == p) && (p.left == x || p.right == x)
              && Family(x, p, if g.left == p then g.right else g.left, g)
              && x.hi - x.lo < g.hi - g.lo <= |order|
    {
      var p := x.parent;
      assert Link(p) && NoRed(p, x) && p != root;
      var g := p.parent;
      assert Link(g);
      assert g.left == sentinel || Link(g.left);
      assert g.right == sentinel || Link(g.right);
    }

    method BlackenRoot(ghost x: Node)
      requires RedAt(x) && Link(x) && (x == root || !x.parent.red) && Bal(root)
      modifies root`red, root`bh
      ensures Valid()
    {
      if root.red {
        root.bh := root.bh + 1;
      }
      root.red := false;
      forall n | n in nodes ensures Bal(n) && NoRed(n, null) {
        assert old(Link(n)) && old(Bal(n)) && old(NoRed(n, x));
        assert n.left == sentinel || old(Link(n.left));
        assert n.right == sentinel || old(Link(n.right));
      }
    }

    /** The re-balancing loop of rbtree_insert. */
    method Rebalance(node: Node)
      requires RedAt(node)
      modifies this`root
      modifies nodes`left, nodes`right, nodes`parent, nodes`red, nodes`lo, nodes`hi, nodes`bh
      ensures Valid()
    {
      var x: Node := node;
      while x != root && (assert Link(x); x.parent.red)
        invariant RedAt(x)
        decreases if x != root && x.parent != null && x.parent.red then 1 + |order| - (x.hi - x.lo) else 0
      {
        FamilyOf(x);
        var p: Node, g: Node := x.parent, x.parent.parent;
        if p == g.left {
          var temp := g.right;
          if temp.red {
            RecolorUp(x, p, temp, g);
            x := g;
          } else {
            if x == p.right {
              InnerLeft(x, p, temp, g);
              x, p := p, x;
            }
            OuterRight(x, p, temp, g);
          }
        } else {
          var temp := g.left;
          if temp.red {
            RecolorUp(x, p, temp, g);
            x := g;
          } else {
            if x == p.left {
              InnerRight(x, p, temp, g);
              x, p := p, x;
            }
            OuterLeft(x, p, temp, g);
          }
        }
      }
      assert Link(x) && Bal(root);
      BlackenRoot(x);
    }

    method Insert(node: Node) returns (ghost k: int)
      requires Valid() && node !in nodes && node != sentinel
      modifies this`root, this`order, this`nodes
      modifies nodes`left, nodes`right, nodes`parent, nodes`red, nodes`idx, nodes`lo, nodes`hi, nodes`bh
      modifies node`left, node`right, node`parent, node`red, node`idx, node`lo, node`hi, node`bh
      ensures Valid()
      ensures nodes == old(nodes) + {node}
      ensures 0 <= k <= |old(order)| && order == old(order)[..k] + [node] + old(order)[k..]
      ensures forall b :: old(Boundary(kind, Keys(), node.key, b)) ==> b == k
    {
      if root == sentinel {
        node.parent := null;
        node.left := sentinel;
        node.right := sentinel;
        node.red := false;
        root := node;
        node.idx, node.lo, node.hi, node.bh := 0, 0, 1, 1;
        order, nodes, k := [node], {node}, 0;
        return;
      }
      k := InsertLeaf(node);
      Rebalance(node);
    }

    // ---------- traversal ----------

    method Min(x: Node) returns (r: Node, ghost steps: nat)
      requires Links() && x in nodes
      ensures r in nodes && r.left == sentinel && r.idx == r.lo == x.lo
      ensures steps < Height(TreeOf(x))
      ensures Valid() && x == root ==> Pow2(steps + 1) <= (|order| + 1) * (|order| + 1)
    {
      r, steps := x, 0;
      assert Link(r);
      while r.left != sentinel
        invariant r in nodes && Link(r) && r.lo == x.lo && steps + Height(TreeOf(r)) <= Height(TreeOf(x))
        decreases r.hi - r.lo
      {
        assert Link(r.left);
        r, steps := r.left, steps + 1;
      }
      if Valid() && x == root {
        IsRedBlack();
        Pow2Monotone(steps + 1, Height(TreeOf(x)));
      }
    }

    /** The in-order successor, or null for the last node. */
    method Next(node: Node) returns (r: Node?)
      requires Links() && node in nodes
      ensures 0 <= node.idx < |order| && order[node.idx] == node
      ensures r == (if node.idx + 1 < |order| then order[node.idx + 1] else null)
    {
      assert Link(node);
      if node.right != sentinel {
        assert Link(node.right);
        var least, _ := Min(node.right);
        r := least;
        assert Link(r);
        return;
      }
      var n: Node := node;
      while true
        invariant n in nodes && Link(n) && n.hi == node.idx + 1
        decreases |order| - (n.hi - n.lo)
      {
        if n == root {
          return null;
        }
        assert Link(n.parent);
        if n == n.parent.left {
          return n.parent;
        }
        n := n.parent;
      }
    }

    // ---------- deletion ----------

    /** Positions once place `j` has been closed. */
    twostate predicate Closed(new n: Node, j: int)
      requires old(allocated(n))
      reads n
    {
      && n.idx == old(n.idx) - (if j < old(n.idx) then 1 else 0)
      && n.lo == old(n.lo) - (if j < old(n.lo) then 1 else 0)
      && n.hi == old(n.hi) - (if j < old(n.hi) then 1 else 0)
    }

    ghost method Close(s: set<Node>, j: int)
      modifies s`idx, s`lo, s`hi
      ensures forall n {:trigger Closed(n, j)} :: n in s ==> Closed(n, j)
    {
      forall n | n in s { n.idx := n.idx - (if j < n.idx then 1 else 0); }
      forall n | n in s { n.lo := n.lo - (if j < n.lo then 1 else 0); }
      forall n | n in s { n.hi := n.hi - (if j < n.hi then 1 else 0); }
    }

    /** The effect on `n` of linking `temp` below the parent `q` of `subst` in the place of `subst`. */
    twostate predicate Spliced(new n: Node, new q: Node, new subst: Node, new temp: Node)
      reads this, nodes, sentinel
    {
      && n in old(nodes) && {q, subst} <= old(nodes) && n in nodes
      && Closed(n, old(subst.idx))
      && n.parent == (if n == temp then q else old(n.parent))
      && n.left == (if n == q && old(q.left) == subst then temp else old(n.left))
      && n.right == (if n == q && old(q.left) != subst then temp else old(n.right))
    }

    method SpliceLinks(q: Node, subst: Node, temp: Node)
      requires {q, subst} <= nodes && subst.parent == q && q != subst && temp != subst
      requires 0 <= subst.idx < |order|
      modifies this`order, this`nodes, q`left, q`right, temp`parent,
               (nodes - {subst})`idx, (nodes - {subst})`lo, (nodes - {subst})`hi
      ensures temp.parent == q
      ensures nodes == old(nodes) - {subst}
      ensures order == old(order)[..old(subst.idx)] + old(order)[old(subst.idx) + 1..]
      ensures forall n {:trigger Spliced(n, q, subst, temp)} :: n in nodes ==> Spliced(n, q, subst, temp)
    {
      ghost var j := subst.idx;
      if subst == subst.parent.left {
        subst.parent.left := temp;
      } else {
        subst.parent.right := temp;
      }
      temp.parent := subst.parent;
      order := order[..j] + order[j + 1..];
      nodes := nodes - {subst};
      label L:
      Close(nodes, j);
      forall n | n in nodes ensures Spliced(n, q, subst, temp) {
        assert Closed@L(n, j);
      }
    }

    /** `subst` has at most one child, and `temp` is that child or else the sentinel. */
    ghost predicate OnlyChild(subst: Node, temp: Node)
      reads subst, sentinel
    {
      (subst.left == sentinel && subst.right == temp) || (subst.right == sentinel && subst.left == temp)
    }

    /** `n` stands at its position. */
    ghost predicate Placed(n: Node)
      reads this, n`idx
    {
      0 <= n.idx < |order| && order[n.idx] == n
    }

    twostate lemma SpliceKeepsOrder(new q: Node, new subst: Node, new temp: Node)
      requires old(Links()) && {q, subst} <= old(nodes) && old(Link(subst))
      requires nodes == old(nodes) - {subst}
      requires order == old(order)[..old(subst.idx)] + old(order)[old(subst.idx) + 1..]
      requires forall n {:trigger Spliced(n, q, subst, temp)} :: n in nodes ==> Spliced(n, q, subst, temp)
      ensures |order| == |old(order)| - 1
      ensures forall i :: 0 <= i < |order| ==> order[i] in nodes && order[i].idx == i
      ensures forall n {:trigger Placed(n)} :: n in nodes ==> Placed(n)
    {
      var j := old(subst.idx);
      forall i | 0 <= i < |order| ensures order[i] in nodes && order[i].idx == i {
        assert order[i] == old(order)[if i < j then i else i + 1];
        assert Spliced(order[i], q, subst, temp);
      }
      forall n | n in nodes ensures Placed(n) {
        assert old(Link(n)) && Spliced(n, q, subst, temp);
        assert old(n.idx) != j;
      }
    }

    twostate lemma SpliceKeepsDown(new n: Node, new q: Node, new subst: Node, new temp: Node)
      requires old(Links()) && n in nodes && {n, q, subst} <= old(nodes) && (temp in old(nodes) || temp == sentinel)
      requires old(Link(n)) && old(Link(q)) && old(Link(subst)) && (temp != sentinel ==> old(Link(temp)))
      requires old(n.left != sentinel ==> Link(n.left)) && old(n.right != sentinel ==> Link(n.right))
      requires old(OnlyChild(subst, temp)) && old(subst.parent) == q && subst != old(root)
      requires root == old(root) && nodes == old(nodes) - {subst}
      requires |order| == |old(order)| - 1 && Placed(n)
      requires forall n {:trigger Spliced(n, q, subst, temp)} :: n in nodes ==> Spliced(n, q, subst, temp)
      ensures Down(n)
    {
      assert old(n.left) == subst ==> n == q;
      assert old(n.right) == subst ==> n == q;
      assert Spliced(n, q, subst, temp) && Spliced(q, q, subst, temp);
      assert temp in nodes ==> Spliced(temp, q, subst, temp);
      assert n.left in nodes ==> Spliced(n.left, q, subst, temp);
      assert n.right in nodes ==> Spliced(n.right, q, subst, temp);
    }

    twostate lemma SpliceKeepsUp(new n: Node, new q: Node, new subst: Node, new temp: Node)
      requires old(Links()) && n in nodes && {n, q, subst} <= old(nodes) && (temp in old(nodes) || temp == sentinel)
      requires old(Link(n)) && old(Link(q)) && old(Link(subst)) && (temp != sentinel ==> old(Link(temp)))
      requires old(n.left != sentinel ==> Link(n.left)) && old(n.right != sentinel ==> Link(n.right))
      requires old(OnlyChild(subst, temp)) && old(subst.parent) == q && subst != old(root)
      requires root == old(root) && nodes == old(nodes) - {subst}
      requires |order| == |old(order)| - 1 && Placed(n)
      requires forall n {:trigger Spliced(n, q, subst, temp)} :: n in nodes ==> Spliced(n, q, subst, temp)
      ensures Up(n)
    {
      assert old(n.left) == subst ==> n == q;
      assert old(n.right) == subst ==> n == q;
      assert n != root ==> old(n.parent) in old(nodes);
      assert Spliced(n, q, subst, temp) && Spliced(q, q, subst, temp);
      assert temp in nodes ==> Spliced(temp, q, subst, temp);
      assert n.parent in nodes ==> Spliced(n.parent, q, subst, temp);
    }

    twostate lemma SpliceKeepsLinks(new q: Node, new subst: Node, new temp: Node)
      requires old(Links()) && {q, subst} <= old(nodes) && (temp in old(nodes) || temp == sentinel)
      requires old(Link(q)) && old(Link(subst)) && (temp != sentinel ==> old(Link(temp)))
      requires old(OnlyChild(subst, temp)) && old(subst.parent) == q && subst != old(root)
      requires root == old(root) && nodes == old(nodes) - {subst}
      requires sentinel.lo == sentinel.hi == 0 && !sentinel.red && sentinel.bh == 0
      requires |order| == |old(order)| - 1
      requires forall i :: 0 <= i < |order| ==> order[i] in nodes && order[i].idx == i
      requires forall n {:trigger Spliced(n, q, subst, temp)} :: n in nodes ==> Spliced(n, q, subst, temp)
      requires forall n {:trigger Placed(n)} :: n in nodes ==> Placed(n)
      ensures Links()
    {
      assert old(Link(root)) && Spliced(root, q, subst, temp);
      forall n | n in nodes ensures Link(n) {
        assert old(Link(n)) && Spliced(n, q, subst, temp) && Placed(n);
        assert old(n.left != sentinel ==> Link(n.left));
        assert old(n.right != sentinel ==> Link(n.right));
        SpliceKeepsDown(n, q, subst, temp);
        SpliceKeepsUp(n, q, subst, temp);
      }
    }

    /** Every rule holds except that the subtree of `x` is one black node short, which shows at
        the parent of `x` only, and that `x` may be red. For the sentinel, `x.parent` is the place
        the missing node was taken from. */
    ghost predicate Deficit(x: Node)
      reads this, nodes, sentinel
    {
      && Links() && root != sentinel && (x in nodes || x == sentinel)
      && (forall n {:trigger NoRed(n, x)} :: n in nodes ==> NoRed(n, x))
      && (forall n {:trigger Bal(n)} :: n in nodes && (x == root || n != x.parent) ==> Bal(n))
      && (x != root ==> !root.red && x.parent != null && x.parent in nodes && Light(x, x.parent))
    }

    /** `x` is a child of `p` and one black node short of its sibling. */
    ghost predicate Light(x: Node, p: Node)
      reads this, nodes, sentinel
    {
      && p in nodes && (x in nodes || x == sentinel) && p.left != null && p.right != null
      && (|| (p.left == x && p.right in nodes && p.right.bh == x.bh + 1)
          || (p.right == x && p.left in nodes && p.left.bh == x.bh + 1))
      && p.bh == x.bh + 1 + (if p.red then 0 else 1)
    }

    twostate lemma SpliceKeepsRules(new n: Node, new q: Node, new subst: Node, new temp: Node)
      requires nodes == old(nodes) - {subst} && n in nodes && {q, subst} <= old(nodes)
      requires (temp in nodes || temp == sentinel)
      requires old(Valid()) && old(OnlyChild(subst, temp)) && old(subst.parent) == q && subst != old(root)
      requires forall n {:trigger Spliced(n, q, subst, temp)} :: n in nodes ==> Spliced(n, q, subst, temp)
      requires forall m :: m in nodes ==> m.red == old(m.red) && m.bh == old(m.bh)
      requires !sentinel.red && sentinel.bh == 0
      ensures NoRed(n, temp) && (n != q ==> Bal(n))
      ensures old(subst.red) ==> Bal(n) && NoRed(n, null)
    {
      assert old(Link(n)) && old(Bal(n)) && old(NoRed(n, null));
      assert old(Link(q)) && old(Bal(q)) && old(NoRed(q, null));
      assert old(Link(subst)) && old(Bal(subst)) && old(NoRed(subst, null));
      assert Spliced(n, q, subst, temp) && Spliced(q, q, subst, temp);
    }

    twostate lemma SpliceMakesLight(new q: Node, new subst: Node, new temp: Node)
      requires nodes == old(nodes) - {subst} && {q, subst} <= old(nodes) && (temp in nodes || temp == sentinel)
      requires old(Valid()) && old(OnlyChild(subst, temp)) && old(subst.parent) == q && subst != old(root)
      requires forall n {:trigger Spliced(n, q, subst, temp)} :: n in nodes ==> Spliced(n, q, subst, temp)
      requires forall m :: m in nodes ==> m.red == old(m.red) && m.bh == old(m.bh)
      requires !sentinel.red && sentinel.bh == 0
      requires !old(subst.red)
      ensures Light(temp, q)
    {
      assert old(Link(q)) && old(Bal(q)) && old(NoRed(q, null));
      assert old(Link(subst)) && old(Bal(subst)) && old(NoRed(subst, null));
      assert Spliced(q, q, subst, temp);
      assert old(q.left) in old(nodes) ==> old(Link(q.left));
      assert old(q.right) in old(nodes) ==> old(Link(q.right));
    }

    /** Unlinks `subst`, which has at most one child `temp`. */
    method Splice(subst: Node, temp: Node)
      requires Valid() && subst in nodes && subst != root && OnlyChild(subst, temp)
      modifies this`order, this`nodes, sentinel`parent
      modifies nodes`left, nodes`right, nodes`parent, nodes`idx, nodes`lo, nodes`hi
      ensures nodes == old(nodes) - {subst}
      ensures 0 <= old(subst.idx) < |old(order)|
      ensures order == old(order)[..old(subst.idx)] + old(order)[old(subst.idx) + 1..]
      ensures subst.parent == old(subst.parent) && temp.parent == subst.parent && root in nodes && temp != root
      ensures subst.idx == old(subst.idx)
      ensures if old(subst.red) then Valid() else Deficit(temp)
    {
      var q: Node := (assert Link(subst); subst.parent);
      assert Link(q);
      assert temp != sentinel ==> Link(temp);
      SpliceLinks(q, subst, temp);
      SpliceKeepsOrder(q, subst, temp);
      SpliceKeepsLinks(q, subst, temp);
      forall n | n in nodes
        ensures NoRed(n, temp) && (n != q ==> Bal(n))
        ensures old(subst.red) ==> Bal(n) && NoRed(n, null)
      {
        SpliceKeepsRules(n, q, subst, temp);
      }
      if !old(subst.red) {
        SpliceMakesLight(q, subst, temp);
      }
    }

    /** The effect on `n` of putting `subst` in the place of `node`. */
    twostate predicate Replaced(new n: Node, new node: Node, new subst: Node)
      reads this, nodes, sentinel
    {
      && n in nodes && node in old(nodes) && (n == subst || n in old(nodes))
      && (if n == subst then
            && n.left == old(node.left) && n.right == old(node.right) && n.parent == old(node.parent)
            && n.red == old(node.red) && n.bh == old(node.bh)
            && n.idx == old(node.idx) && n.lo == old(node.lo) && n.hi == old(node.hi)
          else
            && n.left == (if old(n.left) == node then subst else old(n.left))
            && n.right == (if old(n.right) == node then subst else old(n.right))
            && n.parent == (if old(n.parent) == node && (old(node.left) == n || old(node.right) == n) then subst
                            else old(n.parent))
            && n.red == old(n.red) && n.bh == old(n.bh)
            && n.idx == old(n.idx) && n.lo == old(n.lo) && n.hi == old(n.hi))
    }

    /** Makes the parent of `node`, or the root pointer, and the children of `node` point at `subst`. */
    method Redirect(node: Node, subst: Node)
      requires node.left != null && node.right != null && node.left != node && node.right != node
      requires node != root ==> node.parent != null && node.parent != node
      modifies this`root,
               (if node == root then {} else {node.parent})`left, (if node == root then {} else {node.parent})`right,
               (if node.left == sentinel then {} else {node.left})`parent,
               (if node.right == sentinel then {} else {node.right})`parent
      ensures root == (if old(root) == node then subst else old(root))
      ensures old(root) != node ==>
                var p := old(node.parent);
                if old(p.left) == node then p.left == subst && p.right == old(p.right)
                else p.left == old(p.left) && p.right == subst
      ensures old(node.left) != sentinel ==> old(node.left).parent == subst
      ensures old(node.right) != sentinel ==> old(node.right).parent == subst
    {
      var l, r := node.left, node.right;
      if node == root {
        root := subst;
      } else {
        if node == node.parent.left {
          node.parent.left := subst;
        } else {
          node.parent.right := subst;
        }
      }
      if l != sentinel {
        l.parent := subst;
      }
      if r != sentinel {
        r.parent := subst;
      }
    }

    /** Gives `subst` the links, the colour and the place of `node`. */
    method TakeOver(node: Node, subst: Node)
      requires subst != node
      modifies subst`left, subst`right, subst`parent, subst`red, subst`idx, subst`lo, subst`hi, subst`bh
      ensures subst.left == node.left && subst.right == node.right && subst.parent == node.parent
      ensures subst.red == node.red && subst.bh == node.bh
      ensures subst.idx == node.idx && subst.lo == node.lo && subst.hi == node.hi
    {
      subst.left := node.left;
      subst.right := node.right;
      subst.parent := node.parent;
      subst.red := node.red;
      subst.idx, subst.lo, subst.hi, subst.bh := node.idx, node.lo, node.hi, node.bh;
    }

    /** The writes of rbtree_delete that put `subst`, unlinked before, in the place of `node`. When
        the sentinel was left below `node` in the place of `subst`, its parent link follows. */
    method ReplaceLinks(node: Node, subst: Node, temp: Node)
      requires node in nodes && subst !in nodes && subst != sentinel && sentinel !in nodes && 0 <= node.idx < |order|
      requires node.left != null && node.right != null && node.left != node && node.right != node
      requires {node.left, node.right} <= nodes + {sentinel}
      requires node != root ==> node.parent != null && node.parent in nodes && node.parent != node
      requires temp.parent == subst.parent && temp != subst && temp != node && (temp == sentinel || temp in nodes)
      requires temp != sentinel && temp.parent == node ==> temp == node.left || temp == node.right
      modifies this`root, this`order, this`nodes,
               subst`left, subst`right, subst`parent, subst`red, subst`idx, subst`lo, subst`hi, subst`bh, {temp}`parent,
               (if node == root then {} else {node.parent})`left, (if node == root then {} else {node.parent})`right,
               (if node.left == sentinel then {} else {node.left})`parent,
               (if node.right == sentinel then {} else {node.right})`parent
      ensures subst.left == old(node.left) && subst.right == old(node.right) && subst.parent == old(node.parent)
      ensures subst.red == old(node.red) && subst.bh == old(node.bh)
      ensures subst.idx == old(node.idx) && subst.lo == old(node.lo) && subst.hi == old(node.hi)
      ensures root == (if old(root) == node then subst else old(root))
      ensures old(root) != node ==>
                var p := old(node.parent);
                if old(p.left) == node then p.left == subst && p.right == old(p.right)
                else p.left == old(p.left) && p.right == subst
      ensures old(node.left) != sentinel ==> old(node.left).parent == subst
      ensures old(node.right) != sentinel ==> old(node.right).parent == subst
      ensures sentinel.parent ==
              (if temp == sentinel && old(sentinel.parent) == node then subst else old(sentinel.parent))
      ensures temp != sentinel && temp != old(node.left) && temp != old(node.right) ==> temp.parent == old(temp.parent)
      ensures nodes == old(nodes) - {node} + {subst}
      ensures order == old(order)[old(node.idx) := subst]
    {
      if subst.parent == node {
        temp.parent := subst;
      }
      TakeOver(node, subst);
      Redirect(node, subst);
      order := order[node.idx := subst];
      nodes := nodes - {node} + {subst};
    }

    method ReplaceNodes(node: Node, subst: Node, temp: Node)
      requires Links() && node in nodes && subst !in nodes && subst != sentinel
      requires temp.parent == subst.parent && temp != node && temp != root && (temp == sentinel || temp in nodes)
      modifies this`root, this`order, this`nodes,
               subst`left, subst`right, subst`parent, subst`red, subst`idx, subst`lo, subst`hi, subst`bh,
               nodes`left, nodes`right, nodes`parent, sentinel`parent
      ensures nodes == old(nodes) - {node} + {subst}
      ensures 0 <= old(node.idx) < |old(order)| && order == old(order)[old(node.idx) := subst]
      ensures root == (if old(root) == node then subst else old(root))
      ensures sentinel.parent ==
              (if temp == sentinel && old(sentinel.parent) == node then subst else old(sentinel.parent))
      ensures forall n {:trigger Replaced(n, node, subst)} :: n in nodes ==> Replaced(n, node, subst)
    {
      assert Link(node);
      assert node != root ==> Link(node.parent);
      assert node.left != sentinel ==> Link(node.left);
      assert node.right != sentinel ==> Link(node.right);
      assert temp != sentinel ==> Link(temp);
      ReplaceLinks(node, subst, temp);
      forall n | n in nodes ensures Replaced(n, node, subst) {
        assert n != subst ==> old(Link(n));
      }
    }

    twostate lemma ReplaceKeepsLink(new n: Node, new node: Node, new subst: Node)
      requires old(Links()) && n in nodes && node in old(nodes) && subst !in old(nodes) && subst != sentinel
      requires nodes == old(nodes) - {node} + {subst}
      requires old(Link(node)) && (n != subst ==> old(Link(n)))
      requires n != subst ==> old(n.left != sentinel ==> Link(n.left)) && old(n.right != sentinel ==> Link(n.right))
      requires old(node.left != sentinel ==> Link(node.left)) && old(node.right != sentinel ==> Link(node.right))
      requires root == (if old(root) == node then subst else old(root))
      requires order == old(order)[old(node.idx) := subst]
      requires forall n {:trigger Replaced(n, node, subst)} :: n in nodes ==> Replaced(n, node, subst)
      ensures Link(n)
    {
      assert Replaced(n, node, subst) && Replaced(subst, node, subst);
      assert n.left in nodes ==> Replaced(n.left, node, subst);
      assert n.right in nodes ==> Replaced(n.right, node, subst);
      assert n.parent in nodes ==> Replaced(n.parent, node, subst);
      assert n != subst && n != root ==> old(n.parent) in old(nodes);
    }

    twostate lemma ReplaceKeepsLinks(new node: Node, new subst: Node)
      requires old(Links()) && node in old(nodes) && subst !in old(nodes) && subst != sentinel
      requires old(Link(node))
      requires nodes == old(nodes) - {node} + {subst}
      requires root == (if old(root) == node then subst else old(root))
      requires sentinel.lo == sentinel.hi == 0 && !sentinel.red && sentinel.bh == 0
      requires order == old(order)[old(node.idx) := subst]
      requires forall n {:trigger Replaced(n, node, subst)} :: n in nodes ==> Replaced(n, node, subst)
      ensures Links()
    {
      assert old(Link(root)) && Replaced(root, node, subst) && Replaced(subst, node, subst);
      assert old(node.left != sentinel ==> Link(node.left));
      assert old(node.right != sentinel ==> Link(node.right));
      forall n | n in nodes ensures Link(n) {
        if n != subst {
          assert old(Link(n));
          assert old(n.left != sentinel ==> Link(n.left));
          assert old(n.right != sentinel ==> Link(n.right));
        }
        ReplaceKeepsLink(n, node, subst);
      }
      forall i | 0 <= i < |order| ensures order[i] in nodes && order[i].idx == i {
        assert i != old(node.idx) ==> order[i] == old(order)[i] && old(order)[i] != node;
        assert Replaced(order[i], node, subst);
      }
    }

    /** A rule that held at `n`, or at `node` when `n` has taken its place, holds at `n`. */
    twostate lemma ReplaceKeepsRules(new n: Node, new node: Node, new subst: Node, new x: Node?)
      requires nodes == old(nodes) - {node} + {subst} && n in nodes && node in old(nodes) && subst !in old(nodes)
      requires subst != sentinel && sentinel !in old(nodes) && old(Link(node))
      requires x == null || (x in old(nodes) && x != node) || x == sentinel
      requires !sentinel.red && sentinel.bh == 0 && old(!sentinel.red && sentinel.bh == 0)
      requires forall n {:trigger Replaced(n, node, subst)} :: n in nodes ==> Replaced(n, node, subst)
      ensures (if n == subst then old(Bal(node)) else old(Bal(n))) ==> Bal(n)
      ensures (if n == subst then old(NoRed(node, x)) else old(NoRed(n, x))) ==> NoRed(n, x)
      ensures x != null && (if n == subst then old(Light(x, node)) else old(Light(x, n))) ==> Light(x, n)
    {
      var m := if n == subst then node else n;
      assert Replaced(n, node, subst) && Replaced(subst, node, subst);
      assert n.left in nodes ==> Replaced(n.left, node, subst);
      assert n.right in nodes ==> Replaced(n.right, node, subst);
      assert x in nodes ==> Replaced(x, node, subst);
    }

    method Replace(node: Node, subst: Node, temp: Node)
      requires Links() && node in nodes && subst !in nodes && subst != sentinel
      requires temp == sentinel || temp in nodes
      requires temp != node && temp != root && temp.parent == subst.parent && (Valid() || Deficit(temp))
      modifies this`root, this`order, this`nodes,
               subst`left, subst`right, subst`parent, subst`red, subst`idx, subst`lo, subst`hi, subst`bh,
               nodes`left, nodes`right, nodes`parent, sentinel`parent
      ensures nodes == old(nodes) - {node} + {subst}
      ensures 0 <= old(node.idx) < |old(order)| && order == old(order)[old(node.idx) := subst]
      ensures old(Valid()) ==> Valid()
      ensures old(Deficit(temp)) ==> Deficit(temp)
    {
      assert Link(node);
      ReplaceNodes(node, subst, temp);
      ReplaceKeepsLinks(node, subst);
      assert Replaced(root, node, subst);
      if old(Valid()) {
        forall n | n in nodes ensures Bal(n) && NoRed(n, null) {
          assert n != subst ==> old(Bal(n)) && old(NoRed(n, null));
          assert old(Bal(node)) && old(NoRed(node, null));
          ReplaceKeepsRules(n, node, subst, null);
        }
      }
      if old(Deficit(temp)) {
        ReplaceKeepsDeficit(node, subst, temp);
      }
    }

    twostate lemma ReplaceKeepsDeficit(new node: Node, new subst: Node, new temp: Node)
      requires nodes == old(nodes) - {node} + {subst} && node in old(nodes) && subst !in old(nodes) && subst != sentinel
      requires (temp in old(nodes) || temp == sentinel) && temp != node
      requires old(Deficit(temp)) && old(Link(node)) && Links()
      requires root == (if old(root) == node then subst else old(root))
      requires sentinel.parent ==
               (if temp == sentinel && old(sentinel.parent) == node then subst else old(sentinel.parent))
      requires forall n {:trigger Replaced(n, node, subst)} :: n in nodes ==> Replaced(n, node, subst)
      ensures Deficit(temp)
    {
      assert Replaced(root, node, subst);
      assert temp != sentinel ==> Replaced(temp, node, subst);
      forall n | n in nodes ensures NoRed(n, temp) && (temp == root || n != temp.parent ==> Bal(n)) {
        assert n != subst ==> old(NoRed(n, temp)) && (temp == root || n != temp.parent ==> old(Bal(n)));
        assert old(NoRed(node, temp)) && (temp == root || temp.parent != subst ==> old(Bal(node)));
        ReplaceKeepsRules(n, node, subst, temp);
      }
      if temp != root {
        ReplaceKeepsRules(temp.parent, node, subst, temp);
      }
    }

    // The fixup loop: each method is one step of its body.

    /** `x` is short of a black node, `p` is its parent and `w` its sibling. */
    ghost predicate Sibling(x: Node, p: Node, w: Node)
      reads this, nodes, sentinel
    {
      && Deficit(x) && x != root && !x.red && x.parent == p && w in nodes && Link(p) && Link(w)
      && ((p.left == x && p.right == w) || (p.right == x && p.left == w))
    }

    lemma SiblingOf(x: Node)
      requires Deficit(x) && x != root && !x.red
      ensures x.parent != null && x.parent in nodes && x.parent.left != null && x.parent.right != null
      ensures var p := x.parent;
              && Sibling(x, p, if p.left == x then p.right else p.left)
              && x.hi - x.lo < p.hi - p.lo <= |order|
    {
      var p := x.parent;
      assert Link(p);
      assert p.left == sentinel || Link(p.left);
      assert p.right == sentinel || Link(p.right);
    }

    twostate lemma PushUpRules(new n: Node, new x: Node, new p: Node, new w: Node)
      requires nodes == old(nodes) && {n, p, w} <= nodes && root == old(root) && (x in nodes || x == sentinel)
      requires old(Sibling(x, p, w)) && old(!w.red && !w.left.red && !w.right.red)
      requires forall m :: m in nodes ==> m.left == old(m.left) && m.right == old(m.right) && m.parent == old(m.parent)
      requires forall m :: m in nodes ==> m.red == (m == w || old(m.red))
      requires forall m :: m in nodes ==> m.bh == old(m.bh) - (if m == w || m == p then 1 else 0)
      requires !sentinel.red && sentinel.bh == 0
      ensures NoRed(n, p)
      ensures p == root || n != p.parent ==> Bal(n)
      ensures p != root && n == p.parent ==> Light(p, n)
    {
      assert old(Link(n)) && old(NoRed(n, x)) && old(NoRed(w, x)) && old(Bal(w));
      assert n != p ==> old(Bal(n));
      assert old(n.left != sentinel ==> Link(n.left));
      assert old(n.right != sentinel ==> Link(n.right));
    }

    method PaintRed(w: Node, p: Node)
      requires 0 < w.bh && 0 < p.bh && w != p
      modifies w`red, w`bh, p`bh
      ensures w.red && w.bh == old(w.bh) - 1 && p.bh == old(p.bh) - 1
    {
      w.red := true;
      w.bh, p.bh := w.bh - 1, p.bh - 1;
    }

    /** The sibling and its children are black: the sibling turns red and the shortage moves up. */
    method PushUp(x: Node, p: Node, w: Node)
      requires Sibling(x, p, w) && !w.red && !w.left.red && !w.right.red
      modifies w`red, w`bh, p`bh
      ensures Deficit(p)
    {
      assert p != root ==> Link(p.parent);
      PaintRed(w, p);
      forall n | n in nodes
        ensures NoRed(n, p)
        ensures p == root || n != p.parent ==> Bal(n)
        ensures p != root && n == p.parent ==> Light(p, n)
      {
        PushUpRules(n, x, p, w);
      }
    }

    twostate lemma RedSiblingLeftRules(new n: Node, new x: Node, new p: Node, new w: Node)
      requires nodes == old(nodes) && {n, p, w} <= nodes && (x in nodes || x == sentinel)
      requires old(Sibling(x, p, w)) && old(p.left == x && p.right == w && w.red)
      requires forall m {:trigger LeftRotated(m, p, w)} :: m in nodes ==> LeftRotated(m, p, w)
      requires forall m :: m in nodes ==> m.red == (if m == w then false else m == p || old(m.red))
      requires forall m :: m in nodes ==> m.bh == old(m.bh) + (if m == w then 1 else if m == p then -1 else 0)
      requires !sentinel.red && sentinel.bh == 0
      ensures NoRed(n, x) && (n != p ==> Bal(n)) && Light(x, p)
    {
      assert old(Link(n)) && old(NoRed(n, x));
      assert n != p ==> old(Bal(n));
      assert old(NoRed(w, x)) && old(Bal(w)) && old(NoRed(p, x));
      assert LeftRotated(n, p, w) && LeftRotated(p, p, w) && LeftRotated(w, p, w);
    }

    /** A red sibling on the right: a rotation gives `x` a black sibling below a red parent. */
    method RedSiblingLeft(x: Node, p: Node, w: Node)
      requires Sibling(x, p, w) && p.left == x && p.right == w && w.red
      modifies this`root, nodes`left, nodes`right, nodes`parent, nodes`lo, nodes`hi, w`red, p`red, w`bh, p`bh
      ensures p.right != null && Sibling(x, p, p.right) && p.left == x && !p.right.red && p.red
    {
      assert Bal(w) && NoRed(w, x) && NoRed(p, x);
      assert w.left != sentinel ==> Link(w.left);
      assert x != sentinel ==> Link(x);
      LeftRotatePainted(p, w);
      forall n | n in nodes ensures NoRed(n, x) && (n != p ==> Bal(n)) && Light(x, p) {
        RedSiblingLeftRules(n, x, p, w);
      }
      assert LeftRotated(p, p, w);
      assert x != sentinel ==> LeftRotated(x, p, w);
      assert root != w ==> LeftRotated(root, p, w);
      assert Link(p) && Link(p.right);
    }

    twostate lemma FarBlackLeftRules(new n: Node, new x: Node, new p: Node, new w: Node, new near: Node)
      requires nodes == old(nodes) && {n, p, w, near} <= nodes && (x in nodes || x == sentinel)
      requires old(Sibling(x, p, w))
      requires old(p.left == x && p.right == w && w.left == near && !w.red && near.red && !w.right.red)
      requires forall m {:trigger RightRotated(m, w, near)} :: m in nodes ==> RightRotated(m, w, near)
      requires forall m :: m in nodes ==> m.red == (if m == near then false else m == w || old(m.red))
      requires forall m :: m in nodes ==> m.bh == old(m.bh) + (if m == near then 1 else if m == w then -1 else 0)
      requires !sentinel.red && sentinel.bh == 0
      ensures NoRed(n, x) && (n != p ==> Bal(n)) && Light(x, p)
    {
      assert old(Link(n)) && old(NoRed(n, x));
      assert n != p ==> old(Bal(n));
      assert old(Link(near)) && old(NoRed(w, x)) && old(Bal(w)) && old(NoRed(near, x)) && old(Bal(near));
      assert RightRotated(n, w, near) && RightRotated(p, w, near);
      assert RightRotated(w, w, near) && RightRotated(near, w, near);
    }

    /** The far child of the black sibling is black and the near one red: a rotation makes the far one red. */
    method FarBlackLeft(x: Node, p: Node, w: Node)
      requires Sibling(x, p, w) && p.left == x && p.right == w && !w.red && w.left.red && !w.right.red
      modifies this`root, nodes`left, nodes`right, nodes`parent, nodes`lo, nodes`hi, w`red, w.left`red, w`bh, w.left`bh
      ensures p.right != null && Sibling(x, p, p.right) && p.left == x && !p.right.red && p.right.right.red
    {
      var near: Node := w.left;
      assert Link(near) && Link(p) && Bal(w) && NoRed(w, x) && Bal(near);
      assert near.right != sentinel ==> Link(near.right);
      assert x != sentinel ==> Link(x);
      RightRotatePainted(w, near);
      forall n | n in nodes ensures NoRed(n, x) && (n != p ==> Bal(n)) && Light(x, p) {
        FarBlackLeftRules(n, x, p, w, near);
      }
      assert RightRotated(p, w, near) && RightRotated(near, w, near);
      assert x != sentinel ==> RightRotated(x, w, near);
      assert RightRotated(root, w, near);
      assert Link(p) && Link(p.right);
    }

    twostate lemma FarRedLeftRules(new n: Node, new x: Node, new p: Node, new w: Node, new far: Node)
      requires nodes == old(nodes) && {n, p, w, far} <= nodes && (x in nodes || x == sentinel)
      requires old(Sibling(x, p, w)) && old(p.left == x && p.right == w && w.right == far && !w.red && far.red)
      requires root == (if old(root) == p then w else old(root))
      requires forall m {:trigger LeftRotated(m, p, w)} :: m in nodes ==> LeftRotated(m, p, w)
      requires forall m :: m in nodes ==>
                m.red == (if m == p || m == far then false else if m == w then old(p.red) else old(m.red))
      requires forall m :: m in nodes ==>
                m.bh == (if m == p then old(w.bh) else if m == w then old(p.bh)
                         else old(m.bh) + (if m == far then 1 else 0))
      requires !sentinel.red && sentinel.bh == 0
      ensures NoRed(n, root) && Bal(n)
    {
      assert old(Link(n)) && old(NoRed(n, x));
      assert n != p ==> old(Bal(n));
      assert old(NoRed(p, x)) && old(NoRed(w, x)) && old(Bal(w)) && old(NoRed(far, x)) && old(Bal(far));
      assert old(x != sentinel ==> Link(x));
      assert LeftRotated(n, p, w) && LeftRotated(p, p, w) && LeftRotated(w, p, w) && LeftRotated(far, p, w);
    }

    method PaintFarRed(p: Node, w: Node, far: Node)
      requires p != w && p != far && w != far
      modifies p`red, w`red, far`red, p`bh, w`bh, far`bh
      ensures w.red == old(p.red) && !p.red && !far.red
      ensures p.bh == old(w.bh) && w.bh == old(p.bh) && far.bh == old(far.bh) + 1
    {
      w.red := p.red;
      p.red := false;
      far.red := false;
      p.bh, w.bh, far.bh := w.bh, p.bh, far.bh + 1;
    }

    /** The far child of the black sibling is red: one rotation ends the shortage. */
    method FarRedLeft(x: Node, p: Node, w: Node)
      requires Sibling(x, p, w) && p.left == x && p.right == w && !w.red && w.right.red
      modifies this`root, nodes`left, nodes`right, nodes`parent, nodes`lo, nodes`hi,
               p`red, w`red, w.right`red, p`bh, w`bh, w.right`bh
      ensures Deficit(root)
    {
      var far: Node := w.right;
      assert Link(far) && Link(p) && Bal(w) && NoRed(w, x) && Bal(far);
      PaintFarRed(p, w, far);
      label L:
      LeftRotate(p);
      forall n | n in nodes ensures LeftRotated(n, p, w) {
        assert LeftRotated@L(n, p, w);
      }
      forall n | n in nodes ensures NoRed(n, root) && Bal(n) {
        FarRedLeftRules(n, x, p, w, far);
      }
    }

    twostate lemma RedSiblingRightRules(new n: Node, new x: Node, new p: Node, new w: Node)
      requires nodes == old(nodes) && {n, p, w} <= nodes && (x in nodes || x == sentinel)
      requires old(Sibling(x, p, w)) && old(p.right == x && p.left == w && w.red)
      requires forall m {:trigger RightRotated(m, p, w)} :: m in nodes ==> RightRotated(m, p, w)
      requires forall m :: m in nodes ==> m.red == (if m == w then false else m == p || old(m.red))
      requires forall m :: m in nodes ==> m.bh == old(m.bh) + (if m == w then 1 else if m == p then -1 else 0)
      requires !sentinel.red && sentinel.bh == 0
      ensures NoRed(n, x) && (n != p ==> Bal(n)) && Light(x, p)
    {
      assert old(Link(n)) && old(NoRed(n, x));
      assert n != p ==> old(Bal(n));
      assert old(NoRed(w, x)) && old(Bal(w)) && old(NoRed(p, x));
      assert RightRotated(n, p, w) && RightRotated(p, p, w) && RightRotated(w, p, w);
    }

    /** A red sibling on the left: a rotation gives `x` a black sibling below a red parent. */
    method RedSiblingRight(x: Node, p: Node, w: Node)
      requires Sibling(x, p, w) && p.right == x && p.left == w && w.red
      modifies this`root, nodes`right, nodes`left, nodes`parent, nodes`lo, nodes`hi, w`red, p`red, w`bh, p`bh
      ensures p.left != null && Sibling(x, p, p.left) && p.right == x && !p.left.red && p.red
    {
      assert Bal(w) && NoRed(w, x) && NoRed(p, x);
      assert w.right != sentinel ==> Link(w.right);
      assert x != sentinel ==> Link(x);
      RightRotatePainted(p, w);
      forall n | n in nodes ensures NoRed(n, x) && (n != p ==> Bal(n)) && Light(x, p) {
        RedSiblingRightRules(n, x, p, w);
      }
      assert RightRotated(p, p, w);
      assert x != sentinel ==> RightRotated(x, p, w);
      assert root != w ==> RightRotated(root, p, w);
      assert Link(p) && Link(p.left);
    }

    twostate lemma FarBlackRightRules(new n: Node, new x: Node, new p: Node, new w: Node, new near: Node)
      requires nodes == old(nodes) && {n, p, w, near} <= nodes && (x in nodes || x == sentinel)
      requires old(Sibling(x, p, w))
      requires old(p.right == x && p.left == w && w.right == near && !w.red && near.red && !w.left.red)
      requires forall m {:trigger LeftRotated(m, w, near)} :: m in nodes ==> LeftRotated(m, w, near)
      requires forall m :: m in nodes ==> m.red == (if m == near then false else m == w || old(m.red))
      requires forall m :: m in nodes ==> m.bh == old(m.bh) + (if m == near then 1 else if m == w then -1 else 0)
      requires !sentinel.red && sentinel.bh == 0
      ensures NoRed(n, x) && (n != p ==> Bal(n)) && Light(x, p)
    {
      assert old(Link(n)) && old(NoRed(n, x));
      assert n != p ==> old(Bal(n));
      assert old(Link(near)) && old(NoRed(w, x)) && old(Bal(w)) && old(NoRed(near, x)) && old(Bal(near));
      assert LeftRotated(n, w, near) && LeftRotated(p, w, near);
      assert LeftRotated(w, w, near) && LeftRotated(near, w, near);
    }

    /** The far child of the black sibling is black and the near one red: a rotation makes the far one red. */
    method FarBlackRight(x: Node, p: Node, w: Node)
      requires Sibling(x, p, w) && p.right == x && p.left == w && !w.red && w.right.red && !w.left.red
      modifies this`root, nodes`right, nodes`left, nodes`parent, nodes`lo, nodes`hi
      modifies w`red, w.right`red, w`bh, w.right`bh
      ensures p.left != null && Sibling(x, p, p.left) && p.right == x && !p.left.red && p.left.left.red
    {
      var near: Node := w.right;
      assert Link(near) && Link(p) && Bal(w) && NoRed(w, x) && Bal(near);
      assert near.left != sentinel ==> Link(near.left);
      assert x != sentinel ==> Link(x);
      LeftRotatePainted(w, near);
      forall n | n in nodes ensures NoRed(n, x) && (n != p ==> Bal(n)) && Light(x, p) {
        FarBlackRightRules(n, x, p, w, near);
      }
      assert LeftRotated(p, w, near) && LeftRotated(near, w, near);
      assert x != sentinel ==> LeftRotated(x, w, near);
      assert LeftRotated(root, w, near);
      assert Link(p) && Link(p.left);
    }

    twostate lemma FarRedRightRules(new n: Node, new x: Node, new p: Node, new w: Node, new far: Node)
      requires nodes == old(nodes) && {n, p, w, far} <= nodes && (x in nodes || x == sentinel)
      requires old(Sibling(x, p, w)) && old(p.right == x && p.left == w && w.left == far && !w.red && far.red)
      requires root == (if old(root) == p then w else old(root))
      requires forall m {:trigger RightRotated(m, p, w)} :: m in nodes ==> RightRotated(m, p, w)
      requires forall m :: m in nodes ==>
                m.red == (if m == p || m == far then false else if m == w then old(p.red) else old(m.red))
      requires forall m :: m in nodes ==>
                m.bh == (if m == p then old(w.bh) else if m == w then old(p.bh)
                         else old(m.bh) + (if m == far then 1 else 0))
      requires !sentinel.red && sentinel.bh == 0
      ensures NoRed(n, root) && Bal(n)
    {
      assert old(Link(n)) && old(NoRed(n, x));
      assert n != p ==> old(Bal(n));
      assert old(NoRed(p, x)) && old(NoRed(w, x)) && old(Bal(w)) && old(NoRed(far, x)) && old(Bal(far));
      assert old(x != sentinel ==> Link(x));
      assert RightRotated(n, p, w) && RightRotated(p, p, w) && RightRotated(w, p, w) && RightRotated(far, p, w);
    }

    /** The far child of the black sibling is red: one rotation ends the shortage. */
    method FarRedRight(x: Node, p: Node, w: Node)
      requires Sibling(x, p, w) && p.right == x && p.left == w && !w.red && w.left.red
      modifies this`root, nodes`right, nodes`left, nodes`parent, nodes`lo, nodes`hi,
               p`red, w`red, w.left`red, p`bh, w`bh, w.left`bh
      ensures Deficit(root)
    {
      var far: Node := w.left;
      assert Link(far) && Link(p) && Bal(w) && NoRed(w, x) && Bal(far);
      PaintFarRed(p, w, far);
      label L:
      RightRotate(p);
      forall n | n in nodes ensures RightRotated(n, p, w) {
        assert RightRotated@L(n, p, w);
      }
      forall n | n in nodes ensures NoRed(n, root) && Bal(n) {
        FarRedRightRules(n, x, p, w, far);
      }
    }

    /** The body of the loop when `temp` is a left child. The sibling is black from the second test on. */
    method FixupLeft(temp: Node, p: Node, sibling: Node) returns (next: Node)
      requires Sibling(temp, p, sibling) && p.left == temp && p.right == sibling
      modifies this`root, nodes`left, nodes`right, nodes`parent, nodes`red, nodes`lo, nodes`hi, nodes`bh
      ensures Deficit(next)
      ensures next == root || next.red || next.hi - next.lo == old(p.hi - p.lo)
    {
      var w: Node := sibling;
      if w.red {
        RedSiblingLeft(temp, p, w);
        w := p.right;
      }
      if !w.left.red && !w.right.red {
        PushUp(temp, p, w);
        next := p;
      } else {
        if !w.right.red {
          FarBlackLeft(temp, p, w);
          w := p.right;
        }
        FarRedLeft(temp, p, w);
        next := root;
      }
    }

    method FixupRight(temp: Node, p: Node, sibling: Node) returns (next: Node)
      requires Sibling(temp, p, sibling) && p.right == temp && p.left == sibling
      modifies this`root, nodes`left, nodes`right, nodes`parent, nodes`red, nodes`lo, nodes`hi, nodes`bh
      ensures Deficit(next)
      ensures next == root || next.red || next.hi - next.lo == old(p.hi - p.lo)
    {
      var w: Node := sibling;
      if w.red {
        RedSiblingRight(temp, p, w);
        w := p.left;
      }
      if !w.left.red && !w.right.red {
        PushUp(temp, p, w);
        next := p;
      } else {
        if !w.left.red {
          FarBlackRight(temp, p, w);
          w := p.left;
        }
        FarRedRight(temp, p, w);
        next := root;
      }
    }

    /** The delete fixup loop of rbtree_delete. */
    method Fixup(start: Node)
      requires Deficit(start)
      modifies this`root
      modifies nodes`left, nodes`right, nodes`parent, nodes`red, nodes`lo, nodes`hi, nodes`bh
      ensures Valid()
    {
      var temp: Node := start;
      while temp != root && !temp.red
        invariant Deficit(temp)
        decreases if temp != root && !temp.red then 1 + |order| - (temp.hi - temp.lo) else 0
      {
        SiblingOf(temp);
        var p: Node := temp.parent;
        if temp == p.left {
          temp := FixupLeft(temp, p, p.right);
        } else {
          temp := FixupRight(temp, p, p.left);
        }
        if temp != root && !temp.red { SiblingOf(temp); }
      }
      Settle(temp);
    }

    method Blacken(temp: Node)
      modifies temp`red, temp`bh
      ensures !temp.red && temp.bh == old(temp.bh) + (if old(temp.red) then 1 else 0)
    {
      temp.bh := temp.bh + (if temp.red then 1 else 0);
      temp.red := false;
    }

    twostate lemma BlackenRules(new n: Node, new temp: Node)
      requires nodes == old(nodes) && {n, temp} <= nodes && root == old(root)
      requires old(Deficit(temp)) && (temp == root || old(temp.red && Link(temp.parent)))
      requires forall m :: m in nodes ==> m.left == old(m.left) && m.right == old(m.right) && m.parent == old(m.parent)
      requires forall m :: m in nodes ==> m.red == (m != temp && old(m.red))
      requires forall m :: m in nodes ==> m.bh == old(m.bh) + (if m == temp && old(m.red) then 1 else 0)
      requires !sentinel.red && sentinel.bh == 0
      ensures Bal(n) && NoRed(n, null)
    {
      assert old(Link(n)) && old(NoRed(n, temp)) && old(Link(root));
      assert temp == root || n != temp.parent ==> old(Bal(n));
      assert old(n.left == sentinel || Link(n.left));
      assert old(n.right == sentinel || Link(n.right));
    }

    method Settle(temp: Node)
      requires Deficit(temp) && (temp == root || temp.red)
      modifies temp`red, temp`bh
      ensures Valid()
    {
      assert temp != root ==> Link(temp.parent);
      Blacken(temp);
      forall n | n in nodes ensures Bal(n) && NoRed(n, null) {
        BlackenRules(n, temp);
      }
    }

    /** The only child of a root is a red leaf. */
    lemma RootChild(temp: Node)
      requires Valid() && root != sentinel && OnlyChild(root, temp) && temp != sentinel
      ensures temp in nodes && temp != root && temp.left == temp.right == sentinel && |order| == 2
      ensures 0 <= root.idx < 2 && order[1 - root.idx] == temp && order[root.idx] == root && nodes == {root, temp}
    {
      assert Link(root) && Bal(root) && Link(temp) && Bal(temp) && NoRed(temp, null);
      forall n | n in nodes && !n.red ensures 0 < n.bh {
        assert Bal(n);
      }
      forall n | n in nodes ensures n == root || n == temp {
        assert Link(n);
      }
    }

    /** Takes the root, which has at most one child `temp`, out of the tree. */
    method DropRoot(temp: Node)
      requires Valid() && root != sentinel && OnlyChild(root, temp)
      modifies this`root, this`order, this`nodes, nodes`idx, nodes`lo, nodes`hi, nodes`bh, nodes`red, sentinel`red
      ensures Valid() && nodes == old(nodes) - {old(root)}
      ensures 0 <= old(root.idx) < |old(order)|
      ensures order == old(order)[..old(root.idx)] + old(order)[old(root.idx) + 1..]
    {
      assert Link(root);
      if temp == sentinel {
        forall n | n in nodes ensures n == root {
          assert Link(n);
        }
        order, nodes := [], {};
      } else {
        RootChild(temp);
        order, nodes := [temp], {temp};
        temp.idx, temp.lo, temp.hi, temp.bh := 0, 0, 1, 1;
      }
      root := temp;
      temp.red := false;
    }

    /** The node that leaves its place when `node` is deleted, and the node that moves up there. */
    method Victim(node: Node) returns (subst: Node, temp: Node)
      requires Links() && node in nodes
      ensures subst in nodes && OnlyChild(subst, temp) && Link(subst) && Link(node) && temp != node
      ensures temp == sentinel || temp in nodes
      ensures subst != node ==> subst.idx == node.idx + 1 && subst != root
    {
      assert Link(node);
      if node.left == sentinel {
        temp := node.right;
        subst := node;
      } else if node.right == sentinel {
        temp := node.left;
        subst := node;
      } else {
        assert Link(node.right);
        var least, _ := Min(node.right);
        subst := least;
        assert Link(subst);
        // the minimum has no left child, so the test for one in rbtree_delete always fails
        assert subst.left == sentinel;
        temp := subst.right;
      }
      assert temp != sentinel ==> Link(temp);
    }

    /** Takes `node` out of the tree, `subst` moving up to its place. */
    method Unlink(node: Node, subst: Node, temp: Node)
      requires Valid() && {node, subst} <= nodes && subst != root && OnlyChild(subst, temp)
      requires Link(node) && Link(subst) && temp != node && (temp == sentinel || temp in nodes)
      requires subst == node || subst.idx == node.idx + 1
      modifies this`root, this`order, this`nodes, sentinel`parent
      modifies nodes`left, nodes`right, nodes`parent, nodes`red, nodes`idx, nodes`lo, nodes`hi, nodes`bh
      ensures nodes == old(nodes) - {node}
      ensures order == old(order)[..old(node.idx)] + old(order)[old(node.idx) + 1..]
      ensures if old(subst.red) then Valid() else Deficit(temp)
    {
      ghost var i := node.idx;
      Splice(subst, temp);
      if subst != node {
        assert order[i] == node;
        assert Link(node);
        Replace(node, subst, temp);
      }
    }

    method Delete(node: Node)
      requires Valid() && node in nodes
      modifies this`root, this`order, this`nodes, sentinel`parent, sentinel`red
      modifies nodes`left, nodes`right, nodes`parent, nodes`red, nodes`idx, nodes`lo, nodes`hi, nodes`bh, node`key
      ensures Valid()
      ensures nodes == old(nodes) - {node}
      ensures 0 <= old(node.idx) < |old(order)| && old(order)[old(node.idx)] == node
      ensures order == old(order)[..old(node.idx)] + old(order)[old(node.idx) + 1..]
      ensures node.left == null && node.right == null && node.parent == null && node.key == 0
    {
      var subst, temp := Victim(node);
      if subst == root {
        DropRoot(temp);
        Clear(node);
        return;
      }
      var red := subst.red;
      Unlink(node, subst, temp);
      Clear(node);
      if red {
        return;
      }
      Fixup(temp);
    }

    method Clear(node: Node)
      modifies node`left, node`right, node`parent, node`key
      ensures node.left == null && node.right == null && node.parent == null && node.key == 0
    {
      node.left := null;
      node.right := null;
      node.parent := null;
      node.key := 0;
    }

    // ---------- the tree as a value ----------

    /** The tree below `x`. */
    ghost function TreeOf(x: Node): BinTree<Node>
      requires Links() && (x == sentinel || x in nodes)
      reads this, nodes, sentinel
      decreases x.hi - x.lo
    {
      if x == sentinel then Leaf
      else
        assert Link(x);
        assert x.left != sentinel ==> Link(x.left);
        assert x.right != sentinel ==> Link(x.right);
        Branch(TreeOf(x.left), x, x.red, TreeOf(x.right))
    }

    lemma {:induction false} ReflectsRules(x: Node)
      requires Valid() && (x == sentinel || x in nodes)
      ensures BlackHeight(TreeOf(x), x.bh) && NoRedRed(TreeOf(x)) && IsRed(TreeOf(x)) == x.red
      decreases x.hi - x.lo
    {
      if x != sentinel {
        assert Link(x) && Bal(x) && NoRed(x, null);
        assert x.left != sentinel ==> Link(x.left);
        assert x.right != sentinel ==> Link(x.right);
        ReflectsRules(x.left);
        ReflectsRules(x.right);
      }
    }

    lemma {:induction false} ReflectsOrder(x: Node)
      requires Links() && x in nodes && Link(x)
      ensures InOrder(TreeOf(x)) == order[x.lo..x.hi]
      decreases x.hi - x.lo
    {
      assert order[x.lo..x.hi] == order[x.lo..x.idx] + [x] + order[x.idx + 1..x.hi];
      if x.left != sentinel {
        assert Link(x.left);
        ReflectsOrder(x.left);
      }
      if x.right != sentinel {
        assert Link(x.right);
        ReflectsOrder(x.right);
      }
    }

    /** What `Valid` means: the links form a red-black tree whose in-order sequence is `order`. */
    lemma IsRedBlack()
      requires Valid()
      ensures RedBlack(TreeOf(root), root.bh) && InOrder(TreeOf(root)) == order
      ensures Pow2(Height(TreeOf(root))) <= (|order| + 1) * (|order| + 1)
    {
      ReflectsRules(root);
      if root != sentinel {
        assert Link(root);
        ReflectsOrder(root);
      }
      InOrderSize(TreeOf(root));
      HeightBound(TreeOf(root), root.bh);
    }
  }
}
