/** The shape of a page's code-block tree, stated over a snapshot of the links
    the blocks hold.  Everything in this module is about values; the class in
    CodeCache.dfy is what updates the links in place. */
module TreeShape {

  /** A compiled code block, reduced to the fields the tree reads and writes. */
  class Block {
    var phys: nat     // physical address of the code, 32 bits
    var cs: nat       // base of the code segment, 32 bits
    var status: bv32
    var cmp: nat      // the search key, 64 bits
    var parent: Block?
    var left: Block?
    var right: Block?
  }

  /** The fields of a block the tree depends on. */
  datatype Links = Links(parent: Block?, left: Block?, right: Block?, cmp: nat, phys: nat, cs: nat)

  function Key(phys: nat, cs: nat): nat {
    phys * 0x1_0000_0000 + cs
  }

  type Heap = map<Block, Links>

  datatype Tree = Leaf | Node(left: Tree, block: Block, right: Tree)

  ghost function Blocks(t: Tree): set<Block> {
    match t
    case Leaf => {}
    case Node(l, b, r) => Blocks(l) + {b} + Blocks(r)
  }

  /** No block occurs twice. */
  ghost predicate Distinct(t: Tree) {
    match t
    case Leaf => true
    case Node(l, b, r) =>
      b !in Blocks(l) && b !in Blocks(r) && Blocks(l) !! Blocks(r) && Distinct(l) && Distinct(r)
  }

  /** Keys to the left are smaller, keys to the right are at least as large. */
  ghost predicate Ordered(m: Heap, t: Tree)
    requires Blocks(t) <= m.Keys
  {
    match t
    case Leaf => true
    case Node(l, b, r) =>
      && (forall x | x in Blocks(l) :: m[x].cmp < m[b].cmp)
      && (forall x | x in Blocks(r) :: m[b].cmp <= m[x].cmp)
      && Ordered(m, l) && Ordered(m, r)
  }

  /** The links in m realise tree t below root, whose parent link is parent. */
  ghost predicate Linked(m: Heap, t: Tree, root: Block?, parent: Block?) {
    match t
    case Leaf => root == null
    case Node(l, b, r) =>
      && root == b && b in m && m[b].parent == parent
      && Linked(m, l, m[b].left, b) && Linked(m, r, m[b].right, b)
  }

  ghost function Root(t: Tree): Block? {
    if t.Leaf? then null else t.block
  }

  // ----- framing -------------------------------------------------------------

  lemma {:induction false} LinkedDomain(m: Heap, t: Tree, root: Block?, parent: Block?)
    requires Linked(m, t, root, parent)
    ensures Blocks(t) <= m.Keys
    ensures root == Root(t)
  {
    if t.Leaf? {
    } else {
      LinkedDomain(m, t.left, m[t.block].left, t.block);
      LinkedDomain(m, t.right, m[t.block].right, t.block);
    }
  }

  lemma {:induction false} LinkedFrame(m: Heap, m': Heap, t: Tree, root: Block?, parent: Block?)
    requires Linked(m, t, root, parent)
    requires forall x | x in Blocks(t) :: x in m' && x in m && m'[x] == m[x]
    ensures Linked(m', t, root, parent)
  {
    if t.Leaf? {
    } else {
      LinkedFrame(m, m', t.left, m[t.block].left, t.block);
      LinkedFrame(m, m', t.right, m[t.block].right, t.block);
    }
  }

  /** Only the parent link of the root changes. */
  lemma {:induction false} LinkedReparent(m: Heap, m': Heap, t: Tree, root: Block?, parent: Block?, parent': Block?)
    requires Linked(m, t, root, parent) && Distinct(t)
    requires forall x | x in Blocks(t) && x != root :: x in m' && x in m && m'[x] == m[x]
    requires root != null ==> root in m' && root in m && m'[root] == m[root].(parent := parent')
    ensures Linked(m', t, root, parent')
  {
    if t.Node? {
      LinkedFrame(m, m', t.left, m[t.block].left, t.block);
      LinkedFrame(m, m', t.right, m[t.block].right, t.block);
    }
  }

  lemma {:induction false} OrderedFrame(m: Heap, m': Heap, t: Tree)
    requires Blocks(t) <= m.Keys && Blocks(t) <= m'.Keys
    requires Ordered(m, t)
    requires forall x | x in Blocks(t) :: m'[x].cmp == m[x].cmp
    ensures Ordered(m', t)
  {
    if t.Leaf? {
    } else {
      OrderedFrame(m, m', t.left);
      OrderedFrame(m, m', t.right);
    }
  }

  /** Parent and child links are inverse to each other everywhere in a tree. */
  lemma {:induction false} LinksAreInverse(m: Heap, t: Tree, root: Block?, parent: Block?, x: Block)
    requires Linked(m, t, root, parent) && x in Blocks(t)
    ensures x in m
    ensures m[x].left != null ==> m[x].left in Blocks(t) && m[x].left in m && m[m[x].left].parent == x
    ensures m[x].right != null ==> m[x].right in Blocks(t) && m[x].right in m && m[m[x].right].parent == x
    ensures x == root ==> m[x].parent == parent || (m[x].parent in Blocks(t))
    ensures x != root ==> m[x].parent in Blocks(t) && m[x].parent in m
                          && (m[m[x].parent].left == x || m[m[x].parent].right == x)
  {
    LinkedDomain(m, t, root, parent);
    var b := t.block;
    LinkedDomain(m, t.left, m[b].left, b);
    LinkedDomain(m, t.right, m[b].right, b);
    if x in Blocks(t.left) {
      LinksAreInverse(m, t.left, m[b].left, b, x);
    } else if x in Blocks(t.right) {
      LinksAreInverse(m, t.right, m[b].right, b, x);
    }
  }

  // ----- a subtree and its replacement ---------------------------------------

  /** The subtree whose root is b. */
  ghost function SubAt(t: Tree, b: Block): (s: Tree)
    requires b in Blocks(t)
    ensures s.Node? && s.block == b && Blocks(s) <= Blocks(t)
  {
    if t.block == b then t
    else if b in Blocks(t.left) then SubAt(t.left, b) else SubAt(t.right, b)
  }

  /** The tree with the subtree rooted at b replaced by s. */
  ghost function ReplaceAt(t: Tree, b: Block, s: Tree): Tree
    requires b in Blocks(t)
  {
    if t.block == b then s
    else if b in Blocks(t.left) then Node(ReplaceAt(t.left, b, s), t.block, t.right)
    else Node(t.left, t.block, ReplaceAt(t.right, b, s))
  }

  lemma {:induction false} SubAtKeeps(m: Heap, t: Tree, b: Block)
    requires b in Blocks(t) && Distinct(t) && Blocks(t) <= m.Keys && Ordered(m, t)
    ensures Distinct(SubAt(t, b)) && Ordered(m, SubAt(t, b))
  {
    if t.block == b {
    } else if b in Blocks(t.left) {
      SubAtKeeps(m, t.left, b);
    } else {
      SubAtKeeps(m, t.right, b);
    }
  }

  /** The parent of b, as the links and as the tree see it. */
  lemma {:induction false} SubAtLinked(m: Heap, t: Tree, root: Block?, parent: Block?, b: Block)
    requires b in Blocks(t) && Distinct(t) && Linked(m, t, root, parent)
    ensures b in m && Linked(m, SubAt(t, b), b, m[b].parent)
    ensures root == b ==> m[b].parent == parent
    ensures root != b ==> m[b].parent in Blocks(t) - Blocks(SubAt(t, b)) && m[b].parent in m
                          && ((m[m[b].parent].left == b) != (m[m[b].parent].right == b))
  {
    var r := t.block;
    LinkedDomain(m, t.left, m[r].left, r);
    LinkedDomain(m, t.right, m[r].right, r);
    if r == b {
    } else if b in Blocks(t.left) {
      SubAtLinked(m, t.left, m[r].left, r, b);
    } else {
      SubAtLinked(m, t.right, m[r].right, r, b);
    }
  }

  lemma {:induction false} ReplaceBlocks(t: Tree, b: Block, s: Tree)
    requires b in Blocks(t) && Distinct(t)
    ensures Blocks(ReplaceAt(t, b, s)) == Blocks(t) - Blocks(SubAt(t, b)) + Blocks(s)
  {
    if t.block == b {
    } else if b in Blocks(t.left) {
      ReplaceBlocks(t.left, b, s);
    } else {
      ReplaceBlocks(t.right, b, s);
    }
  }

  lemma {:induction false} ReplaceDistinct(t: Tree, b: Block, s: Tree)
    requires b in Blocks(t) && Distinct(t) && Distinct(s)
    requires Blocks(s) !! Blocks(t) - Blocks(SubAt(t, b))
    ensures Distinct(ReplaceAt(t, b, s))
  {
    if t.block == b {
    } else if b in Blocks(t.left) {
      ReplaceBlocks(t.left, b, s);
      ReplaceDistinct(t.left, b, s);
    } else {
      ReplaceBlocks(t.right, b, s);
      ReplaceDistinct(t.right, b, s);
    }
  }

  lemma {:induction false} ReplaceOrdered(m: Heap, t: Tree, b: Block, s: Tree)
    requires b in Blocks(t) && Distinct(t) && Blocks(t) <= m.Keys && Ordered(m, t)
    requires Blocks(s) <= m.Keys && Ordered(m, s)
    requires Blocks(s) <= Blocks(SubAt(t, b))
    ensures Blocks(ReplaceAt(t, b, s)) <= m.Keys && Ordered(m, ReplaceAt(t, b, s))
  {
    ReplaceBlocks(t, b, s);
    if t.block == b {
    } else if b in Blocks(t.left) {
      ReplaceBlocks(t.left, b, s);
      ReplaceOrdered(m, t.left, b, s);
    } else {
      ReplaceBlocks(t.right, b, s);
      ReplaceOrdered(m, t.right, b, s);
    }
  }

  /** After a subtree has been relinked, the whole tree is linked again, provided
      nothing outside the subtree changed but the one child link to it. */
  lemma {:induction false} ReplaceLinked(m: Heap, m': Heap, t: Tree, root: Block?, parent: Block?, b: Block, s: Tree)
    requires b in Blocks(t) && Distinct(t) && Linked(m, t, root, parent)
    requires b in m && Linked(m', s, Root(s), m[b].parent)
    requires forall x | x in Blocks(t) - Blocks(SubAt(t, b)) ::
               x in m && x in m' && m'[x] == Redirect(m[x], b, Root(s))
    ensures Linked(m', ReplaceAt(t, b, s), if root == b then Root(s) else root, parent)
  {
    var r := t.block;
    LinkedDomain(m, t.left, m[r].left, r);
    LinkedDomain(m, t.right, m[r].right, r);
    if r == b {
    } else if b in Blocks(t.left) {
      NoLinkTo(m, t.right, m[r].right, r, b);
      LinkedFrame(m, m', t.right, m[r].right, r);
      ReplaceLinked(m, m', t.left, m[r].left, r, b, s);
    } else {
      NoLinkTo(m, t.left, m[r].left, r, b);
      LinkedFrame(m, m', t.left, m[r].left, r);
      ReplaceLinked(m, m', t.right, m[r].right, r, b, s);
    }
  }

  /** Child links to b now lead to c. */
  ghost function Redirect(k: Links, b: Block, c: Block?): Links {
    k.(left := if k.left == b then c else k.left, right := if k.right == b then c else k.right)
  }

  lemma {:induction false} NoLinkTo(m: Heap, t: Tree, root: Block?, parent: Block?, b: Block)
    requires Linked(m, t, root, parent) && b !in Blocks(t)
    ensures Blocks(t) <= m.Keys
    ensures forall x | x in Blocks(t) :: m[x].left != b && m[x].right != b
  {
    LinkedDomain(m, t, root, parent);
    if t.Leaf? {
    } else {
      LinkedDomain(m, t.left, m[t.block].left, t.block);
      LinkedDomain(m, t.right, m[t.block].right, t.block);
      NoLinkTo(m, t.left, m[t.block].left, t.block, b);
      NoLinkTo(m, t.right, m[t.block].right, t.block, b);
    }
  }

  // ----- deleting the root of a subtree --------------------------------------

  ghost function Lowest(t: Tree): (b: Block)
    requires t.Node?
    ensures b in Blocks(t)
  {
    if t.left.Leaf? then t.block else Lowest(t.left)
  }

  /** The parent of the lowest block; callers need it only when the lowest block
      is not the root. */
  ghost function LowestParent(t: Tree): (b: Block)
    requires t.Node? && t.left.Node?
    ensures b in Blocks(t)
  {
    if t.left.left.Leaf? then t.block else LowestParent(t.left)
  }

  /** What hangs to the right of the lowest block. */
  ghost function LowestRight(t: Tree): (s: Tree)
    requires t.Node?
    ensures Blocks(s) <= Blocks(t)
  {
    if t.left.Leaf? then t.right else LowestRight(t.left)
  }

  /** The tree without the lowest block and what hangs to its right. */
  ghost function Rest(t: Tree): (s: Tree)
    requires t.Node?
    ensures Blocks(s) <= Blocks(t)
  {
    if t.left.Leaf? then Leaf else Node(Rest(t.left), t.block, t.right)
  }

  ghost function Highest(t: Tree): (b: Block)
    requires t.Node?
    ensures b in Blocks(t)
  {
    if t.right.Leaf? then t.block else Highest(t.right)
  }

  /** Tree x hung under the rightmost block of t. */
  ghost function Hang(t: Tree, x: Tree): (s: Tree)
    ensures Blocks(s) == Blocks(t) + Blocks(x)
  {
    if t.Leaf? then x else Node(t.left, t.block, Hang(t.right, x))
  }

  /** What takes the place of a deleted block's subtree. */
  ghost function RemoveRoot(t: Tree): Tree
    requires t.Node?
  {
    if t.left.Leaf? then t.right
    else if t.right.Leaf? then t.left
    else Node(t.left, Lowest(t.right), Hang(LowestRight(t.right), Rest(t.right)))
  }

  lemma {:induction false} SplitLowest(m: Heap, t: Tree)
    requires t.Node? && Distinct(t) && Blocks(t) <= m.Keys && Ordered(m, t)
    ensures Blocks(t) == {Lowest(t)} + Blocks(LowestRight(t)) + Blocks(Rest(t))
    ensures Lowest(t) !in Blocks(LowestRight(t)) && Lowest(t) !in Blocks(Rest(t))
    ensures Blocks(LowestRight(t)) !! Blocks(Rest(t))
    ensures Distinct(LowestRight(t)) && Distinct(Rest(t))
    ensures Ordered(m, LowestRight(t)) && Ordered(m, Rest(t))
    ensures forall x | x in Blocks(LowestRight(t)) :: m[Lowest(t)].cmp <= m[x].cmp
    ensures forall x, y | x in Blocks(LowestRight(t)) + {Lowest(t)} && y in Blocks(Rest(t)) :: m[x].cmp < m[y].cmp
  {
    if t.left.Leaf? {
    } else {
      SplitLowest(m, t.left);
    }
  }

  lemma {:induction false} HangKeeps(m: Heap, t: Tree, x: Tree)
    requires Distinct(t) && Distinct(x) && Blocks(t) !! Blocks(x)
    requires Blocks(t) <= m.Keys && Blocks(x) <= m.Keys && Ordered(m, t) && Ordered(m, x)
    requires forall u, v | u in Blocks(t) && v in Blocks(x) :: m[u].cmp <= m[v].cmp
    ensures Distinct(Hang(t, x)) && Ordered(m, Hang(t, x))
  {
    if t.Leaf? {
    } else {
      HangKeeps(m, t.right, x);
    }
  }

  lemma {:induction false} RemoveRootBlocks(m: Heap, t: Tree)
    requires t.Node? && Distinct(t) && Blocks(t) <= m.Keys && Ordered(m, t)
    ensures Blocks(RemoveRoot(t)) == Blocks(t) - {t.block}
  {
    if t.left.Node? && t.right.Node? {
      SplitLowest(m, t.right);
      var n := RemoveRoot(t);
      assert Blocks(n.right) == Blocks(LowestRight(t.right)) + Blocks(Rest(t.right));
      assert Blocks(n) == Blocks(t.left) + Blocks(t.right);
    }
  }

  /** Deleting a subtree's root keeps the other blocks distinct and in order. */
  lemma {:induction false} RemoveRootKeeps(m: Heap, t: Tree)
    requires t.Node? && Distinct(t) && Blocks(t) <= m.Keys && Ordered(m, t)
    ensures Blocks(RemoveRoot(t)) <= m.Keys
    ensures Distinct(RemoveRoot(t)) && Ordered(m, RemoveRoot(t))
  {
    RemoveRootBlocks(m, t);
    if t.left.Node? && t.right.Node? {
      SplitLowest(m, t.right);
      HangKeeps(m, LowestRight(t.right), Rest(t.right));
      var low := Lowest(t.right);
      var hung := Hang(LowestRight(t.right), Rest(t.right));
      assert Blocks(hung) <= Blocks(t.right);
      assert forall x | x in Blocks(t.left) :: m[x].cmp < m[t.block].cmp <= m[low].cmp;
      assert low !in Blocks(hung) && low !in Blocks(t.left);
    }
  }

  /** Relinking for Rest: the lowest block's parent loses its left child. */
  lemma {:induction false} RestLinked(m: Heap, m': Heap, t: Tree, root: Block?, parent: Block?)
    requires t.Node? && t.left.Node? && Distinct(t) && Linked(m, t, root, parent)
    requires forall x | x in Blocks(Rest(t)) && x != LowestParent(t) :: x in m && x in m' && m'[x] == m[x]
    requires LowestParent(t) in m && LowestParent(t) in m'
    requires m'[LowestParent(t)] == m[LowestParent(t)].(left := null)
    ensures Linked(m', Rest(t), root, parent)
  {
    var r := t.block;
    LinkedDomain(m, t.left, m[r].left, r);
    if t.left.left.Leaf? {
      LinkedFrame(m, m', t.right, m[r].right, r);
    } else {
      assert LowestParent(t) in Blocks(t.left);
      LinkedFrame(m, m', t.right, m[r].right, r);
      RestLinked(m, m', t.left, m[r].left, r);
    }
  }

  /** Relinking for Hang: only the rightmost block's right link changes. */
  lemma {:induction false} HangLinked(m: Heap, m': Heap, t: Tree, root: Block?, parent: Block?, x: Tree)
    requires t.Node? && Distinct(t) && Linked(m, t, root, parent)
    requires forall u | u in Blocks(t) && u != Highest(t) :: u in m && u in m' && m'[u] == m[u]
    requires Highest(t) in m && Highest(t) in m' && m'[Highest(t)] == m[Highest(t)].(right := Root(x))
    requires Linked(m', x, Root(x), Highest(t))
    ensures Linked(m', Hang(t, x), root, parent)
  {
    var r := t.block;
    LinkedDomain(m, t.right, m[r].right, r);
    LinkedFrame(m, m', t.left, m[r].left, r);
    if t.right.Leaf? {
    } else {
      HangLinked(m, m', t.right, m[r].right, r, x);
    }
  }

  /** The links found by walking left from a root. */
  lemma {:induction false} LowestLinked(m: Heap, t: Tree, root: Block?, parent: Block?)
    requires t.Node? && Distinct(t) && Linked(m, t, root, parent)
    ensures Lowest(t) in m && m[Lowest(t)].left == null
    ensures Linked(m, LowestRight(t), m[Lowest(t)].right, Lowest(t)) && Distinct(LowestRight(t))
    ensures t.left.Leaf? ==> Lowest(t) == root
    ensures t.left.Node? ==> Lowest(t) != root && m[Lowest(t)].parent == LowestParent(t)
    ensures t.left.Node? ==> LowestParent(t) in Blocks(Rest(t)) && Root(Rest(t)) == root
                             && Lowest(t) !in Blocks(Rest(t)) && Blocks(LowestRight(t)) !! Blocks(Rest(t))
    ensures Lowest(t) !in Blocks(LowestRight(t))
  {
    if t.left.Leaf? {
    } else {
      LowestLinked(m, t.left, m[t.block].left, t.block);
    }
  }

  // ----- deleting any block --------------------------------------------------

  ghost function Without(t: Tree, b: Block): Tree
    requires b in Blocks(t)
  {
    ReplaceAt(t, b, RemoveRoot(SubAt(t, b)))
  }

  /** Deletion keeps exactly the other blocks, distinct and in search order. */
  lemma {:induction false} DeleteKeeps(m: Heap, t: Tree, b: Block)
    requires b in Blocks(t) && Distinct(t) && Blocks(t) <= m.Keys && Ordered(m, t)
    ensures Blocks(Without(t, b)) == Blocks(t) - {b}
    ensures Distinct(Without(t, b)) && Ordered(m, Without(t, b))
  {
    var s := SubAt(t, b);
    SubAtKeeps(m, t, b);
    RemoveRootBlocks(m, s);
    RemoveRootKeeps(m, s);
    ReplaceBlocks(t, b, RemoveRoot(s));
    ReplaceDistinct(t, b, RemoveRoot(s));
    ReplaceOrdered(m, t, b, RemoveRoot(s));
  }

  lemma {:induction false} HangNothing(t: Tree)
    ensures Hang(t, Leaf) == t
  {
    if t.Leaf? {
    } else {
      HangNothing(t.right);
    }
  }

  /** The links of block x of subtree s once s's root has given way to the lowest
      block of its right subtree. */
  ghost function PromotedLinks(m: Heap, s: Tree, x: Block): Links
    requires s.Node? && s.left.Node? && s.right.Node? && s.block in m && x in m
  {
    var k := m[x];
    var low, h, top := Lowest(s.right), LowestRight(s.right), s.right.block;
    var deep := s.right.left.Node?;
    k.(parent :=
         if x == low then m[s.block].parent
         else if x == s.left.block then low
         else if deep && x == top then (if h.Leaf? then low else Highest(h))
         else k.parent,
       left :=
         if x == low then s.left.block
         else if deep && x == LowestParent(s.right) then null
         else k.left,
       right :=
         if deep && x == (if h.Leaf? then low else Highest(h)) then top
         else k.right)
  }

  lemma {:induction false} PromotionLinked(m: Heap, m': Heap, s: Tree)
    requires s.Node? && s.left.Node? && s.right.Node? && Distinct(s)
    requires s.block in m && Linked(m, s, s.block, m[s.block].parent)
    requires forall x | x in Blocks(s) - {s.block} :: x in m && x in m' && m'[x] == PromotedLinks(m, s, x)
    ensures Linked(m', RemoveRoot(s), Lowest(s.right), m[s.block].parent)
  {
    var b, l, r := s.block, s.left, s.right;
    LinkedDomain(m, l, m[b].left, b);
    LinkedDomain(m, r, m[b].right, b);
    LowestLinked(m, r, r.block, b);
    var low, h, rest := Lowest(r), LowestRight(r), Rest(r);
    LinkedReparent(m, m', l, l.block, b, low);
    LinkedDomain(m, h, m[low].right, low);
    if r.left.Leaf? {
      HangNothing(h);
      LinkedFrame(m, m', h, m[low].right, low);
    } else {
      RestPromoted(m, m', s);
      if h.Node? {
        HangLinked(m, m', h, m[low].right, low, rest);
      }
    }
  }

  /** The part of the right subtree that moves below the promoted block. */
  lemma {:induction false} RestPromoted(m: Heap, m': Heap, s: Tree)
    requires s.Node? && s.left.Node? && s.right.Node? && Distinct(s) && s.right.left.Node?
    requires s.block in m && Linked(m, s, s.block, m[s.block].parent)
    requires forall x | x in Blocks(s) - {s.block} :: x in m && x in m' && m'[x] == PromotedLinks(m, s, x)
    ensures var h := LowestRight(s.right);
            Linked(m', Rest(s.right), s.right.block, if h.Leaf? then Lowest(s.right) else Highest(h))
  {
    var b, r := s.block, s.right;
    LinkedDomain(m, r, m[b].right, b);
    LowestLinked(m, r, r.block, b);
    var low, h, rest := Lowest(r), LowestRight(r), Rest(r);
    var m1 := m'[r.block := m'[r.block].(parent := b)];
    RestLinked(m, m1, r, r.block, b);
    RestDistinct(r);
    LinkedReparent(m1, m', rest, r.block, b, if h.Leaf? then low else Highest(h));
  }

  lemma {:induction false} RestDistinct(t: Tree)
    requires t.Node? && Distinct(t)
    ensures Distinct(Rest(t))
  {
    if t.left.Leaf? {
    } else {
      RestDistinct(t.left);
    }
  }

  /** A block with one child or none: its child, if any, moves up. */
  lemma {:induction false} LiftLinked(m: Heap, m': Heap, s: Tree)
    requires s.Node? && (s.left.Leaf? || s.right.Leaf?) && Distinct(s)
    requires s.block in m && Linked(m, s, s.block, m[s.block].parent)
    requires forall x | x in Blocks(s) - {s.block} :: x in m && x in m' && m'[x] ==
               if x == Root(RemoveRoot(s)) then m[x].(parent := m[s.block].parent) else m[x]
    ensures Linked(m', RemoveRoot(s), Root(RemoveRoot(s)), m[s.block].parent)
  {
    var b := s.block;
    LinkedDomain(m, s.left, m[b].left, b);
    LinkedDomain(m, s.right, m[b].right, b);
    if s.left.Leaf? {
      LinkedReparent(m, m', s.right, m[b].right, b, m[b].parent);
    } else {
      LinkedReparent(m, m', s.left, m[b].left, b, m[b].parent);
    }
  }

  // ----- adding a block ------------------------------------------------------

  /** The tree with block n, key a, added where the search for a ends. */
  ghost function Insert(m: Heap, t: Tree, n: Block, a: nat): (s: Tree)
    requires Blocks(t) <= m.Keys
    ensures Blocks(s) == Blocks(t) + {n}
  {
    match t
    case Leaf => Node(Leaf, n, Leaf)
    case Node(l, b, r) => if a < m[b].cmp then Node(Insert(m, l, n, a), b, r) else Node(l, b, Insert(m, r, n, a))
  }

  lemma {:induction false} InsertKeeps(m: Heap, t: Tree, n: Block, a: nat)
    requires Blocks(t) <= m.Keys && Distinct(t) && Ordered(m, t) && n !in Blocks(t)
    requires n in m && m[n].cmp == a
    ensures Distinct(Insert(m, t, n, a)) && Ordered(m, Insert(m, t, n, a))
  {
    if t.Leaf? {
    } else if a < m[t.block].cmp {
      InsertKeeps(m, t.left, n, a);
    } else {
      InsertKeeps(m, t.right, n, a);
    }
  }

  /** The last block the search for a visits. */
  ghost function LastVisited(m: Heap, t: Tree, a: nat): (b: Block)
    requires Blocks(t) <= m.Keys && t.Node?
    ensures b in Blocks(t)
  {
    var next := if a < m[t.block].cmp then t.left else t.right;
    if next.Leaf? then t.block else LastVisited(m, next, a)
  }

  lemma {:induction false} InsertLinked(m: Heap, m': Heap, t: Tree, root: Block?, parent: Block?, n: Block, a: nat)
    requires t.Node? && Linked(m, t, root, parent) && Distinct(t) && n !in Blocks(t)
    requires Blocks(t) <= m.Keys
    requires forall x | x in Blocks(t) && x != LastVisited(m, t, a) :: x in m' && m'[x] == m[x]
    requires var q := LastVisited(m, t, a);
             q in m' && m'[q] == if a < m[q].cmp then m[q].(left := n) else m[q].(right := n)
    requires n in m' && m'[n].parent == LastVisited(m, t, a) && m'[n].left == null && m'[n].right == null
             && m'[n].cmp == a
    ensures Linked(m', Insert(m, t, n, a), root, parent)
  {
    var b := t.block;
    if a < m[b].cmp {
      LinkedFrame(m, m', t.right, m[b].right, b);
      if t.left.Node? {
        InsertLinked(m, m', t.left, m[b].left, b, n, a);
      }
    } else {
      LinkedFrame(m, m', t.left, m[b].left, b);
      if t.right.Node? {
        InsertLinked(m, m', t.right, m[b].right, b, n, a);
      }
    }
  }

  /** The block Insert hangs the new block under, if any. */
  ghost function InsertParent(m: Heap, t: Tree, a: nat): (q: Block?)
    requires Blocks(t) <= m.Keys
    ensures q != null ==> q in m
  {
    if t.Leaf? then null else LastVisited(m, t, a)
  }

  lemma {:induction false} InsertSame(m: Heap, m': Heap, t: Tree, n: Block, a: nat)
    requires Blocks(t) <= m.Keys && Blocks(t) <= m'.Keys
    requires forall x | x in Blocks(t) :: m'[x].cmp == m[x].cmp
    ensures Insert(m', t, n, a) == Insert(m, t, n, a)
  {
    if t.Leaf? {
    } else {
      InsertSame(m, m', t.left, n, a);
      InsertSame(m, m', t.right, n, a);
    }
  }

  // ----- the trees of all pages ----------------------------------------------

  /** A key holds the physical address in its upper 32 bits; a page is 4 KB. */
  function PageOf(cmp: nat): nat {
    cmp / 0x1000_0000_0000
  }

  /** Page p's blocks are exactly those of tree t, and their links realise it. */
  ghost predicate PageTree(m: Heap, root: Block?, t: Tree, p: nat) {
    && Blocks(t) <= m.Keys
    && (forall b | b in m :: b in Blocks(t) <==> PageOf(m[b].cmp) == p)
    && Distinct(t) && Ordered(m, t) && Linked(m, t, root, null)
  }

  /** The block's key was made from its own address and segment. */
  predicate Keyed(k: Links) {
    k.phys < 0x1_0000_0000 && k.cs < 0x1_0000_0000 && k.cmp == Key(k.phys, k.cs)
  }

  ghost predicate Indexed(m: Heap, heads: seq<Block?>, trees: seq<Tree>) {
    && |heads| == |trees|
    && (forall b | b in m :: Keyed(m[b]) && PageOf(m[b].cmp) < |heads|)
    && forall p | 0 <= p < |heads| :: PageTree(m, heads[p], trees[p], p)
  }

  lemma {:induction false} IndexedPage(m: Heap, heads: seq<Block?>, trees: seq<Tree>, p: nat)
    requires Indexed(m, heads, trees) && p < |heads|
    ensures p < |trees| && Blocks(trees[p]) <= m.Keys && heads[p] == Root(trees[p])
  {
    assert PageTree(m, heads[p], trees[p], p);
    LinkedDomain(m, trees[p], heads[p], null);
  }

  /** A page whose blocks keep their links keeps its tree. */
  lemma {:induction false} PageTreeFrame(m: Heap, m': Heap, root: Block?, t: Tree, p: nat)
    requires PageTree(m, root, t, p)
    requires forall b | b in m && PageOf(m[b].cmp) == p :: b in m' && m'[b] == m[b]
    requires forall b | b in m' && PageOf(m'[b].cmp) == p :: b in m && m[b].cmp == m'[b].cmp
    ensures PageTree(m', root, t, p)
  {
    LinkedFrame(m, m', t, root, null);
    OrderedFrame(m, m', t);
  }

  /** The links after block n, key a, has become a child of q, if any. */
  ghost function WithChild(m: Heap, n: Block, a: nat, q: Block?): (r: Heap)
    requires q != null ==> q in m
    ensures r.Keys == m.Keys
  {
    if q == null then m
    else m[q := if a < m[q].cmp then m[q].(left := n) else m[q].(right := n)]
  }

  /** The links after block n has become a leaf under q, or a root. */
  ghost function Attached(m: Heap, n: Block, phys: nat, cs: nat, q: Block?): Heap
    requires q != null ==> q in m
  {
    WithChild(m, n, Key(phys, cs), q)[n := Links(q, null, null, Key(phys, cs), phys, cs)]
  }

  predicate SameKey(k: Links, k': Links) {
    k.cmp == k'.cmp && k.phys == k'.phys && k.cs == k'.cs
  }

  /** Other blocks keep their keys, and their links but for the new parent. */
  lemma {:induction false} AttachedKeys(m: Heap, n: Block, phys: nat, cs: nat, q: Block?)
    requires n !in m && (q != null ==> q in m)
    ensures var r := Attached(m, n, phys, cs, q);
            && r.Keys == m.Keys + {n} && SameKey(r[n], Links(q, null, null, Key(phys, cs), phys, cs))
            && (forall b | b in m :: SameKey(r[b], m[b]))
            && (forall b | b in m && b != q :: r[b] == m[b])
  {
  }

  lemma {:induction false} AddPage(m: Heap, m': Heap, root: Block?, t: Tree, n: Block, phys: nat, cs: nat, a: nat)
    requires a == Key(phys, cs) && n !in m
    requires PageTree(m, root, t, PageOf(a)) && m' == Attached(m, n, phys, cs, InsertParent(m, t, a))
    ensures PageTree(m', if t.Leaf? then n else root, Insert(m, t, n, a), PageOf(a))
  {
    AttachedKeys(m, n, phys, cs, InsertParent(m, t, a));
    if t.Node? {
      InsertLinked(m, m', t, root, null, n, a);
    }
    OrderedFrame(m, m', t);
    InsertSame(m, m', t, n, a);
    InsertKeeps(m', t, n, a);
  }

  /** Linking a new block in where the search for its key ends keeps all pages'
      trees, and adds the block to its own page's tree. */
  lemma {:induction false} AddIndexed(m: Heap, m': Heap, heads: seq<Block?>, heads': seq<Block?>,
                                      trees: seq<Tree>, trees': seq<Tree>, n: Block, phys: nat, cs: nat, a: nat, q: nat)
    requires a == Key(phys, cs) && phys < 0x1_0000_0000 && cs < 0x1_0000_0000
    requires Indexed(m, heads, trees) && q == PageOf(a) < |heads| && n !in m
    requires Blocks(trees[q]) <= m.Keys && m' == Attached(m, n, phys, cs, InsertParent(m, trees[q], a))
    requires heads' == if trees[q].Leaf? then heads[q := n] else heads
    requires trees' == trees[q := Insert(m, trees[q], n, a)]
    ensures Indexed(m', heads', trees')
  {
    AddPage(m, m', heads[q], trees[q], n, phys, cs, a);
    AttachedKeys(m, n, phys, cs, InsertParent(m, trees[q], a));
    forall p | 0 <= p < |heads| && p != q ensures PageTree(m', heads[p], trees[p], p) {
      assert PageTree(m, heads[p], trees[p], p) && PageTree(m, heads[q], trees[q], q);
      PageTreeFrame(m, m', heads[p], trees[p], p);
    }
  }

  /** The index with block n added under the last block the search visits. */
  lemma {:induction false} AttachedIndex(m: Heap, heads: seq<Block?>, trees: seq<Tree>, n: Block, phys: nat, cs: nat,
                                         a: nat,
                                         p: nat, q: Block?) returns (trees': seq<Tree>)
    requires a == Key(phys, cs) && phys < 0x1_0000_0000 && cs < 0x1_0000_0000
    requires Indexed(m, heads, trees) && p == PageOf(a) < |heads| == |trees| && n !in m && Blocks(trees[p]) <= m.Keys
    requires q == InsertParent(m, trees[p], a) && (q == null <==> trees[p].Leaf?) && (q != null ==> q in m)
    ensures Indexed(Attached(m, n, phys, cs, q), if q == null then heads[p := n] else heads, trees')
  {
    trees' := trees[p := Insert(m, trees[p], n, a)];
    AddIndexed(m, Attached(m, n, phys, cs, q), heads, if q == null then heads[p := n] else heads, trees, trees', n,
        phys, cs, a, p);
  }

  /** The links after block b of tree t has been deleted. */
  ghost predicate Deleted(m: Heap, m': Heap, t: Tree, b: Block)
    requires b in Blocks(t) && Blocks(t) <= m.Keys
  {
    var s := SubAt(t, b);
    && m'.Keys == m.Keys - {b}
    && (forall x | x in m && x !in Blocks(s) :: m'[x] ==
         if x == m[b].parent then Redirect(m[x], b, Root(RemoveRoot(s))) else m[x])
    && forall x | x in Blocks(s) && x != b :: m'[x] ==
         if s.left.Node? && s.right.Node? then PromotedLinks(m, s, x)
         else if x == Root(RemoveRoot(s)) then m[x].(parent := m[b].parent)
         else m[x]
  }

  lemma {:induction false} DeletedKeys(m: Heap, m': Heap, t: Tree, b: Block)
    requires b in Blocks(t) && Blocks(t) <= m.Keys && Deleted(m, m', t, b)
    ensures forall x | x in m' :: SameKey(m'[x], m[x])
  {
    forall x | x in m' ensures SameKey(m'[x], m[x]) {
      if x in Blocks(SubAt(t, b)) {
      }
    }
  }

  lemma {:induction false} DeleteLinked(m: Heap, m': Heap, root: Block?, t: Tree, b: Block)
    requires Blocks(t) <= m.Keys && Distinct(t) && Ordered(m, t) && Linked(m, t, root, null)
    requires b in Blocks(t) && Deleted(m, m', t, b)
    ensures Linked(m', Without(t, b), if root == b then Root(RemoveRoot(SubAt(t, b))) else root, null)
  {
    var s := SubAt(t, b);
    SubAtLinked(m, t, root, null, b);
    SubAtKeeps(m, t, b);
    if s.left.Node? && s.right.Node? {
      PromotionLinked(m, m', s);
    } else {
      LiftLinked(m, m', s);
    }
    forall x | x in Blocks(t) - Blocks(s) ensures x in m && x in m' && m'[x] == Redirect(m[x], b, Root(RemoveRoot(s))) {
      OnlyParentLinks(m, t, root, null, b, x);
    }
    ReplaceLinked(m, m', t, root, null, b, RemoveRoot(s));
  }

  lemma {:induction false} DeletePage(m: Heap, m': Heap, root: Block?, t: Tree, b: Block, p: nat)
    requires PageTree(m, root, t, p) && b in Blocks(t) && Deleted(m, m', t, b)
    ensures PageTree(m', if root == b then Root(RemoveRoot(SubAt(t, b))) else root, Without(t, b), p)
  {
    DeleteLinked(m, m', root, t, b);
    DeleteKeeps(m, t, b);
    DeletedKeys(m, m', t, b);
    OrderedFrame(m, m', Without(t, b));
  }

  /** Only b's parent has a child link to b. */
  lemma {:induction false} OnlyParentLinks(m: Heap, t: Tree, root: Block?, parent: Block?, b: Block, x: Block)
    requires Linked(m, t, root, parent) && Distinct(t) && b in Blocks(t) && x in Blocks(t)
    ensures x in m && b in m && (m[x].left == b || m[x].right == b ==> m[b].parent == x)
  {
    LinkedDomain(m, t, root, parent);
    LinksAreInverse(m, t, root, parent, x);
  }

  /** Relinking around a deleted block keeps all pages' trees. */
  lemma {:induction false} DeleteIndexed(m: Heap, m': Heap, heads: seq<Block?>, heads': seq<Block?>,
                                         trees: seq<Tree>, trees': seq<Tree>, b: Block, q: nat)
    requires Indexed(m, heads, trees) && b in m && q == PageOf(m[b].cmp)
    requires b in Blocks(trees[q]) && Blocks(trees[q]) <= m.Keys && Deleted(m, m', trees[q], b)
    requires heads' == if heads[q] == b then heads[q := Root(RemoveRoot(SubAt(trees[q], b)))] else heads
    requires trees' == trees[q := Without(trees[q], b)]
    ensures Indexed(m', heads', trees')
  {
    DeletePage(m, m', heads[q], trees[q], b, q);
    SubAtLinked(m, trees[q], heads[q], null, b);
    LinksAreInverse(m, trees[q], heads[q], null, b);
    DeletedKeys(m, m', trees[q], b);
    forall p | 0 <= p < |heads| && p != q ensures PageTree(m', heads[p], trees[p], p) {
      assert PageTree(m, heads[p], trees[p], p) && PageTree(m, heads[q], trees[q], q);
      PageTreeFrame(m, m', heads[p], trees[p], p);
    }
  }

  /** What an indexed block knows about its neighbours. */
  lemma {:induction false} IndexedBlock(m: Heap, heads: seq<Block?>, trees: seq<Tree>, b: Block, q: nat)
    requires Indexed(m, heads, trees) && b in m && q == PageOf(m[b].cmp)
    ensures q < |heads| == |trees| && b in Blocks(trees[q]) && Blocks(trees[q]) <= m.Keys
    ensures var s := SubAt(trees[q], b);
            && Distinct(s) && Linked(m, s, b, m[b].parent) && m[b].left == Root(s.left) && m[b].right == Root(s.right)
            && m[b].parent !in Blocks(s)
    ensures m[b].parent == null <==> heads[q] == b
    ensures m[b].parent != null ==> m[b].parent in Blocks(trees[q])
  {
    assert PageTree(m, heads[q], trees[q], q);
    SubAtLinked(m, trees[q], heads[q], null, b);
    SubAtKeeps(m, trees[q], b);
    var s := SubAt(trees[q], b);
    LinkedDomain(m, s.left, m[b].left, b);
    LinkedDomain(m, s.right, m[b].right, b);
  }

  // ----- what Delete does to the links ---------------------------------------

  /** Block x takes the place of b under b's parent. */
  ghost function Lifted(m: Heap, b: Block, x: Block?, y: Block): Links
    requires b in m && y in m
  {
    var k := if y == m[b].parent then Redirect(m[y], b, x) else m[y];
    if y == x then k.(parent := m[b].parent) else k
  }

  /** Links k of block y once low has taken over left child l and lost its place
      under its old parent op, and top hangs under the block bottom. */
  ghost function Reseated(k: Links, y: Block, low: Block, l: Block, op: Block, top: Block, bottom: Block): Links {
    k.(parent := if y == l then low else if y == top && top != low then bottom else k.parent,
       left := if y == op then null else if y == low then l else k.left,
       right := if y == bottom && top != low then top else k.right)
  }

  /** Block low, found under b's right child, takes the place of b; hi is the
      rightmost block under low, if low has a right child. */
  ghost function Promoted(m: Heap, b: Block, low: Block, hi: Block?, y: Block): Links
    requires b in m && low in m && y in m
    requires m[b].left != null && m[b].right != null && m[low].parent != null
  {
    Reseated(Lifted(m, b, low, y), y, low, m[b].left, m[low].parent, m[b].right, if hi == null then low else hi)
  }

  /** The rightmost block of a tree, if it has any. */
  ghost function HighestOf(t: Tree): Block? {
    if t.Leaf? then null else Highest(t)
  }

  /** In the tree, those are the links a deletion should leave. */
  lemma {:induction false} LiftedIsDeleted(m: Heap, m': Heap, t: Tree, b: Block)
    requires b in Blocks(t) && Blocks(t) <= m.Keys && m'.Keys == m.Keys - {b}
    requires var s := SubAt(t, b);
             && Distinct(s) && Linked(m, s, b, m[b].parent) && m[b].parent !in Blocks(s)
             && (s.left.Leaf? || s.right.Leaf?)
    requires forall y | y in m' :: m'[y] == Lifted(m, b, Root(RemoveRoot(SubAt(t, b))), y)
    ensures Deleted(m, m', t, b)
  {
    var s := SubAt(t, b);
    LinkedDomain(m, s.left, m[b].left, b);
    LinkedDomain(m, s.right, m[b].right, b);
  }

  /** A subtree in place whose root b has two children. */
  ghost predicate TwoChildren(m: Heap, s: Tree, b: Block) {
    && s.Node? && s.block == b && b in m
    && Distinct(s) && Linked(m, s, b, m[b].parent) && m[b].parent !in Blocks(s)
    && s.left.Node? && s.right.Node?
    && m[b].left != null && m[b].right != null && Lowest(s.right) in m && m[Lowest(s.right)].parent != null
  }

  lemma {:induction false} PromotedInside(m: Heap, s: Tree, b: Block, y: Block)
    requires TwoChildren(m, s, b) && y in Blocks(s) && y in m && y != b
    ensures Promoted(m, b, Lowest(s.right), HighestOf(LowestRight(s.right)), y) == PromotedLinks(m, s, y)
  {
    LinkedDomain(m, s.left, m[b].left, b);
    LinkedDomain(m, s.right, m[b].right, b);
    LowestLinked(m, s.right, m[b].right, b);
  }

  lemma {:induction false} PromotedOutside(m: Heap, s: Tree, b: Block, y: Block)
    requires TwoChildren(m, s, b) && y !in Blocks(s) && y in m
    ensures Promoted(m, b, Lowest(s.right), HighestOf(LowestRight(s.right)), y) ==
            if y == m[b].parent then Redirect(m[y], b, Root(RemoveRoot(s))) else m[y]
  {
    LinkedDomain(m, s.left, m[b].left, b);
    LinkedDomain(m, s.right, m[b].right, b);
    LowestLinked(m, s.right, m[b].right, b);
  }

  lemma {:induction false} PromotedIsDeleted(m: Heap, m': Heap, t: Tree, b: Block)
    requires b in Blocks(t) && Blocks(t) <= m.Keys && m'.Keys == m.Keys - {b}
    requires TwoChildren(m, SubAt(t, b), b)
    requires var s := SubAt(t, b);
             forall y | y in m' :: m'[y] == Promoted(m, b, Lowest(s.right), HighestOf(LowestRight(s.right)), y)
    ensures Deleted(m, m', t, b)
  {
    var s := SubAt(t, b);
    forall y | y in m'
      ensures m'[y] == if y in Blocks(s) then PromotedLinks(m, s, y)
                       else if y == m[b].parent then Redirect(m[y], b, Root(RemoveRoot(s))) else m[y]
    {
      if y in Blocks(s) {
        PromotedInside(m, s, b, y);
      } else {
        PromotedOutside(m, s, b, y);
      }
    }
  }

  /** Lifting b's only child, if any, deletes b. */
  lemma {:induction false} LiftIndexed(m: Heap, heads: seq<Block?>, trees: seq<Tree>, b: Block, q: nat, x: Block?)
    returns (m': Heap, trees': seq<Tree>)
    requires Indexed(m, heads, trees) && b in m && q == PageOf(m[b].cmp)
    requires (m[b].left == null && x == m[b].right) || (m[b].right == null && x == m[b].left)
    ensures q < |heads| && m'.Keys == m.Keys - {b} && forall y | y in m' :: m'[y] == Lifted(m, b, x, y)
    ensures Indexed(m', if m[b].parent == null then heads[q := x] else heads, trees')
  {
    IndexedBlock(m, heads, trees, b, q);
    var t := trees[q];
    m' := map y | y in m.Keys - {b} :: Lifted(m, b, x, y);
    LiftedIsDeleted(m, m', t, b);
    trees' := trees[q := Without(t, b)];
    DeleteIndexed(m, m', heads, if m[b].parent == null then heads[q := x] else heads, trees, trees', b, q);
  }

  /** What the walks from b's right child find. */
  ghost predicate Successor(m: Heap, trees: seq<Tree>, b: Block, q: nat, low: Block, hi: Block?) {
    && q < |trees| && b in Blocks(trees[q]) && b in m && low in m
    && m[b].left != null && m[b].right != null && m[low].parent != null
    && SubAt(trees[q], b).right.Node?
    && low == Lowest(SubAt(trees[q], b).right)
    && hi == HighestOf(LowestRight(SubAt(trees[q], b).right))
  }

  /** Promoting the lowest block on b's right deletes b. */
  lemma {:induction false} PromoteIndexed(m: Heap, heads: seq<Block?>, trees: seq<Tree>, b: Block, q: nat, low: Block,
                                          hi: Block?)
    returns (m': Heap, trees': seq<Tree>)
    requires Indexed(m, heads, trees) && b in m && q == PageOf(m[b].cmp) && Successor(m, trees, b, q, low, hi)
    ensures q < |heads| && m'.Keys == m.Keys - {b} && forall y | y in m' :: m'[y] == Promoted(m, b, low, hi, y)
    ensures Indexed(m', if m[b].parent == null then heads[q := low] else heads, trees')
  {
    IndexedBlock(m, heads, trees, b, q);
    var t := trees[q];
    m' := map y | y in m.Keys - {b} :: Promoted(m, b, low, hi, y);
    PromotedIsDeleted(m, m', t, b);
    trees' := trees[q := Without(t, b)];
    DeleteIndexed(m, m', heads, if m[b].parent == null then heads[q := low] else heads, trees, trees', b, q);
  }

  /** The blocks involved in a promotion, and that they are different ones. */
  lemma {:induction false} SuccessorBlocks(m: Heap, heads: seq<Block?>, trees: seq<Tree>, b: Block, q: nat)
    requires Indexed(m, heads, trees) && b in m && q == PageOf(m[b].cmp)
    requires m[b].left != null && m[b].right != null
    ensures q < |heads| == |trees| && b in Blocks(trees[q]) && Blocks(trees[q]) <= m.Keys
            && SubAt(trees[q], b).right.Node?
    ensures var r := SubAt(trees[q], b).right;
            var low, h := Lowest(r), LowestRight(r);
            && Linked(m, r, m[b].right, b) && low in m && Linked(m, h, m[low].right, low)
            && Blocks(r) <= m.Keys && Blocks(h) <= m.Keys
            && (m[low].right == null <==> h.Leaf?)
            && m[low].parent != null && m[low].parent in m
            && (m[b].parent != null ==> m[b].parent in m)
            && low != b && low != m[b].parent && m[b].left != low && m[low].parent != low
            && m[b].left in m && m[b].right in m && m[b].left != m[b].right && m[b].left != m[low].parent
            && HighestOf(h) != m[b].left && HighestOf(h) != low
            && (h.Node? ==> HighestOf(h) in m && HighestOf(h) != m[b].right)
  {
    IndexedBlock(m, heads, trees, b, q);
    var s := SubAt(trees[q], b);
    LowestLinked(m, s.right, m[b].right, b);
    var low, h := Lowest(s.right), LowestRight(s.right);
    LinkedDomain(m, h, m[low].right, low);
    LinkedDomain(m, s.left, m[b].left, b);
    LinkedDomain(m, s.right, m[b].right, b);
  }
}
