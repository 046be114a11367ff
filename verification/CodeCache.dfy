/** The code blocks of all physical pages, one search tree a page, updated in
    place.  The specification is the plain set of blocks that are present. */
module CodeCache {
  import opened TreeShape

  const STATUS_FLAGS: bv32 := 0x0000_ffff
  const STATUS_MASK: bv32 := 0xffff_0000

  /** May a block compiled under status run while the CPU has status cur? */
  predicate Compatible(status: bv32, cur: bv32) {
    ((status ^ cur) & STATUS_FLAGS) == 0 && (status & cur & STATUS_MASK) == (cur & STATUS_MASK)
  }

  /** One of the 32 bits of a status. */
  predicate IsBit(b: bv32) {
    b != 0 && b & (b - 1) == 0
  }

  /** Bit b does not keep a block from running: a lower bit must be the same, and an
      upper one, if the CPU has it, the block's, too. */
  predicate BitFits(status: bv32, cur: bv32, b: bv32) {
    if b < 0x1_0000 then status & b == cur & b else cur & b != 0 ==> status & b != 0
  }

  lemma {:induction false} LowestBit(x: bv32) returns (b: bv32)
    requires x != 0
    ensures IsBit(b) && x & b == b
  {
    b := x & (0 - x);
  }

  lemma {:induction false} EachBitFits(status: bv32, cur: bv32, b: bv32)
    requires Compatible(status, cur) && IsBit(b)
    ensures BitFits(status, cur, b)
  {
  }

  lemma {:induction false} LowBitDiffers(status: bv32, cur: bv32) returns (b: bv32)
    requires (status ^ cur) & STATUS_FLAGS != 0
    ensures IsBit(b) && !BitFits(status, cur, b)
  {
    b := LowestBit((status ^ cur) & STATUS_FLAGS);
  }

  /** The upper bits of the CPU that the block lacks. */
  function Lacking(status: bv32, cur: bv32): bv32 {
    !status & cur & STATUS_MASK
  }

  lemma {:induction false} NoneLacking(status: bv32, cur: bv32)
    requires Lacking(status, cur) == 0
    ensures status & cur & STATUS_MASK == cur & STATUS_MASK
  {
  }

  lemma {:induction false} BitLacking(status: bv32, cur: bv32, b: bv32)
    requires IsBit(b) && Lacking(status, cur) & b == b
    ensures !BitFits(status, cur, b)
  {
  }

  lemma {:induction false} UpperBitMissing(status: bv32, cur: bv32) returns (b: bv32)
    requires Lacking(status, cur) != 0
    ensures IsBit(b) && !BitFits(status, cur, b)
  {
    var x := Lacking(status, cur);
    b := LowestBit(x);
    BitLacking(status, cur, b);
  }

  lemma {:induction false} SomeBitMissing(status: bv32, cur: bv32) returns (b: bv32)
    requires !Compatible(status, cur)
    ensures IsBit(b) && !BitFits(status, cur, b)
  {
    if (status ^ cur) & STATUS_FLAGS != 0 {
      b := LowBitDiffers(status, cur);
    } else {
      if Lacking(status, cur) == 0 {
        NoneLacking(status, cur);
      }
      b := UpperBitMissing(status, cur);
    }
  }

  /** What the masks and comparisons say of each bit. */
  lemma {:induction false} CompatibleBits(status: bv32, cur: bv32)
    ensures Compatible(status, cur) <==> forall b: bv32 | IsBit(b) :: BitFits(status, cur, b)
  {
    if Compatible(status, cur) {
      forall b: bv32 | IsBit(b) ensures BitFits(status, cur, b) {
        EachBitFits(status, cur, b);
      }
    } else {
      var b := SomeBitMissing(status, cur);
    }
  }

  datatype Op =
    | AddOp(block: Block)
    | DeleteOp(block: Block)
    | FindOp(phys: nat, cs: nat, cur: bv32)

  /** The set of present blocks after some operations: the whole specification. */
  ghost function After(s: set<Block>, ops: seq<Op>): set<Block> {
    if ops == [] then s
    else
      var before := After(s, ops[..|ops| - 1]);
      Apply(before, ops[|ops| - 1])
  }

  ghost function Apply(s: set<Block>, op: Op): set<Block> {
    match op
    case AddOp(b) => s + {b}
    case DeleteOp(b) => s - {b}
    case FindOp(_, _, _) => s
  }

  /** Each block is added only when absent and deleted only when present. */
  ghost predicate Legal(s: set<Block>, ops: seq<Op>) {
    forall i | 0 <= i < |ops| ::
      match ops[i]
      case AddOp(b) => b !in After(s, ops[..i])
      case DeleteOp(b) => b in After(s, ops[..i])
      case FindOp(_, _, _) => true
  }

  ghost function Touched(s: set<Block>, ops: seq<Op>): set<Block> {
    s + set i | 0 <= i < |ops| && ops[i].AddOp? :: ops[i].block
  }

  lemma {:induction false} AfterIsTouched(s: set<Block>, ops: seq<Op>, i: nat)
    requires i <= |ops|
    ensures After(s, ops[..i]) <= Touched(s, ops)
  {
    if i == 0 {
    } else {
      assert ops[..i][..i - 1] == ops[..i - 1];
      AfterIsTouched(s, ops, i - 1);
    }
  }

  lemma {:induction false} KeyIsInjective(phys: nat, cs: nat, phys': nat, cs': nat)
    requires cs < 0x1_0000_0000 && cs' < 0x1_0000_0000
    ensures Key(phys, cs) == Key(phys', cs') <==> phys == phys' && cs == cs'
  {
    if phys < phys' {
      assert (phys + 1) * 0x1_0000_0000 <= phys' * 0x1_0000_0000;
    } else if phys' < phys {
      assert (phys' + 1) * 0x1_0000_0000 <= phys * 0x1_0000_0000;
    }
  }

  datatype Look = Look(phys: nat, cs: nat, status: bv32) {
    predicate Matches(phys: nat, cs: nat, cur: bv32) {
      this.phys == phys && this.cs == cs && Compatible(status, cur)
    }
  }

  class Pages {
    const head: array<Block?>
    ghost var blocks: set<Block>
    ghost var trees: seq<Tree>

    /** The links of a block. */
    static ghost function LinksOf(b: Block): Links
      reads b`parent, b`left, b`right, b`cmp, b`phys, b`cs
    {
      Links(b.parent, b.left, b.right, b.cmp, b.phys, b.cs)
    }

    /** The links of the present blocks. */
    ghost function Snap(): (m: Heap)
      reads this`blocks, blocks`parent, blocks`left, blocks`right, blocks`cmp, blocks`phys, blocks`cs
      ensures m.Keys == blocks
    {
      map b | b in blocks :: LinksOf(b)
    }

    ghost predicate Valid()
      reads this, head, blocks
    {
      Indexed(Snap(), head[..], trees)
    }

    /** Does block b answer a search? */
    static ghost predicate Matches(b: Block, phys: nat, cs: nat, cur: bv32)
      reads b`phys, b`cs, b`status
    {
      b.phys == phys && b.cs == cs && Compatible(b.status, cur)
    }

    /** What a search looks at in each block of a set. */
    static ghost function Looks(s: set<Block>): (k: map<Block, Look>)
      reads s`phys, s`cs, s`status
      ensures k.Keys == s
    {
      map b | b in s :: Look(b.phys, b.cs, b.status)
    }

    /** A search that found hit is right about the set of present blocks. */
    static ghost predicate Answers(k: map<Block, Look>, present: set<Block>, op: Op, hit: Block?) {
      present <= k.Keys && (op.FindOp? ==>
        && (hit != null <==> exists b :: b in present && k[b].Matches(op.phys, op.cs, op.cur))
        && (hit != null ==> hit in present && k[hit].Matches(op.phys, op.cs, op.cur)))
    }

    constructor (pages: nat)
      ensures Valid() && fresh(head) && head.Length == pages && blocks == {}
    {
      head := new Block?[pages](_ => null);
      trees := seq(pages, _ => Leaf);
      blocks := {};
    }

    /** Walks page's tree for a block with key a and a compatible status. */
    method Search(page: nat, a: nat, cur: bv32) returns (block: Block?)
      requires Valid() && page < head.Length && PageOf(a) == page
      ensures block != null ==> block in blocks && block.cmp == a && Compatible(block.status, cur)
      ensures block == null ==> forall b | b in blocks && b.cmp == a :: !Compatible(b.status, cur)
    {
      block := head[page];
      assert head[..][page] == block;
      assert PageTree(Snap(), block, trees[page], page);
      ghost var t, up: Block? := trees[page], null;
      LinkedDomain(Snap(), t, block, up);
      while block != null
        invariant Linked(Snap(), t, block, up) && Blocks(t) <= blocks && Ordered(Snap(), t)
        invariant forall b | b in blocks && b.cmp == a && Compatible(b.status, cur) :: b in Blocks(t)
        decreases t
      {
        if a == block.cmp {
          if Compatible(block.status, cur) {
            break;
          }
        }
        up := block;
        assert Snap()[block].cmp == block.cmp;
        if a < block.cmp {
          assert forall b | b in Blocks(t.right) :: Snap()[b].cmp == b.cmp;
          block, t := block.left, t.left;
        } else {
          assert forall b | b in Blocks(t.left) :: Snap()[b].cmp == b.cmp;
          block, t := block.right, t.right;
        }
      }
    }

    /** A block is found exactly when one with the address, the segment and a
        compatible status is present, and the block found is such a block. */
    method Find(phys: nat, cs: nat, cur: bv32) returns (block: Block?)
      requires Valid() && phys / 4096 < head.Length && cs < 0x1_0000_0000
      ensures block != null <==> exists b :: b in blocks && Matches(b, phys, cs, cur)
      ensures block != null ==> block in blocks && Matches(block, phys, cs, cur)
    {
      var a := Key(phys, cs);
      block := Search(phys / 4096, a, cur);
      forall b | b in blocks ensures b.phys == phys && b.cs == cs <==> b.cmp == a {
        assert Keyed(Snap()[b]);
        KeyIsInjective(b.phys, b.cs, phys, cs);
      }
    }

    /** The walk of Add: the last block on the search path for key a. */
    method EndOfPath(page: nat, a: nat) returns (oldBlock: Block)
      requires Valid() && page < head.Length && head[page] != null
      ensures trees[page].Node? && Blocks(trees[page]) <= blocks
      ensures oldBlock == LastVisited(Snap(), trees[page], a)
    {
      ghost var m, t := Snap(), trees[page];
      assert PageTree(m, head[..][page], t, page);
      var block := head[page];
      oldBlock := block;
      ghost var s, up: Block? := t, null;
      while block != null
        invariant Linked(m, s, block, up) && Blocks(s) <= Blocks(t)
        invariant block != null ==> LastVisited(m, t, a) == LastVisited(m, s, a)
        invariant block == null ==> oldBlock == LastVisited(m, t, a)
        decreases s
      {
        oldBlock := block;
        up := block;
        if a < oldBlock.cmp {
          block, s := block.left, s.left;
        } else {
          block, s := block.right, s.right;
        }
      }
    }

    /** The child link of the relinking of Add. */
    method LinkTo(n: Block, page: nat, a: nat, oldBlock: Block?, ghost m: Heap)
      requires m == Snap() && n !in blocks && page < head.Length && (oldBlock != null ==> oldBlock in blocks)
      modifies head, blocks`left, blocks`right
      ensures head[..] == if oldBlock == null then old(head[..])[page := n] else old(head[..])
      ensures Snap() == WithChild(m, n, a, oldBlock)
    {
      if oldBlock == null {
        head[page] := n;
      } else if a < oldBlock.cmp {
        oldBlock.left := n;
      } else {
        oldBlock.right := n;
      }
    }

    /** The relinking of Add: n becomes a leaf under oldBlock, or the head. */
    method Attach(n: Block, page: nat, a: nat, oldBlock: Block?, ghost m: Heap)
      requires a == Key(n.phys, n.cs) && m == Snap() && n !in blocks && page < head.Length
               && (oldBlock != null ==> oldBlock in blocks)
      modifies head, blocks`left, blocks`right, n`parent, n`left, n`right, n`cmp
      ensures head[..] == if oldBlock == null then old(head[..])[page := n] else old(head[..])
      ensures Snap() == WithChild(m, n, a, oldBlock) && LinksOf(n) == Links(oldBlock, null, null, a, n.phys, n.cs)
    {
      LinkTo(n, page, a, oldBlock, m);
      MakeLeaf(n, a, oldBlock);
    }

    static method MakeLeaf(n: Block, a: nat, parent: Block?)
      modifies n`parent, n`left, n`right, n`cmp
      ensures LinksOf(n) == Links(parent, null, null, a, n.phys, n.cs)
    {
      n.cmp, n.parent, n.left, n.right := a, parent, null, null;
    }

    /** Takes n into the index, the links having become m'. */
    ghost method Remember(n: Block, m': Heap, trees': seq<Tree>)
      requires m' == Snap()[n := LinksOf(n)] && Indexed(m', head[..], trees')
      modifies this`blocks, this`trees
      ensures Valid() && blocks == old(blocks) + {n}
    {
      blocks, trees := blocks + {n}, trees';
      assert Snap() == m';
    }

    /** Adds a block that is in no tree. */
    method Add(n: Block)
      requires Valid() && n !in blocks
      requires n.phys / 4096 < head.Length && n.phys < 0x1_0000_0000 && n.cs < 0x1_0000_0000
      modifies this`blocks, this`trees, head, blocks`left, blocks`right, n`parent, n`left, n`right, n`cmp
      ensures Valid() && blocks == old(blocks) + {n}
    {
      var page := n.phys / 4096;
      var a := Key(n.phys, n.cs);
      ghost var m := Snap();
      assert PageOf(a) == page;
      IndexedPage(m, head[..], trees, page);
      var oldBlock: Block? := null;
      if head[page] != null {
        oldBlock := EndOfPath(page, a);
      }
      ghost var trees' := AttachedIndex(m, head[..], trees, n, n.phys, n.cs, a, page, oldBlock);
      Attach(n, page, a, oldBlock, m);
      Remember(n, Attached(m, n, n.phys, n.cs, oldBlock), trees');
    }

    /** Walks left from r as far as it goes. */
    method WalkLeft(r: Block, ghost t: Tree, ghost up: Block?) returns (low: Block)
      requires Blocks(t) <= blocks && Linked(Snap(), t, r, up) && t.Node?
      ensures low == Lowest(t)
    {
      low := r;
      ghost var s, p := t, up;
      while low.left != null
        invariant s.Node? && Blocks(s) <= blocks && Linked(Snap(), s, low, p) && Lowest(s) == Lowest(t)
        decreases s
      {
        p, s := low, s.left;
        low := low.left;
      }
    }

    /** Walks right from r as far as it goes. */
    method WalkRight(r: Block, ghost t: Tree, ghost up: Block?) returns (high: Block)
      requires Blocks(t) <= blocks && Linked(Snap(), t, r, up) && t.Node?
      ensures high == Highest(t)
    {
      high := r;
      ghost var s, p := t, up;
      while high.right != null
        invariant s.Node? && Blocks(s) <= blocks && Linked(Snap(), s, high, p) && Highest(s) == Highest(t)
        decreases s
      {
        p, s := high, s.right;
        high := high.right;
      }
    }

    /** Puts x, if any, in b's place under b's parent, or at the head. */
    method Lift(b: Block, page: nat, x: Block?, ghost m: Heap)
      requires m == Snap() && b in blocks && page < head.Length
      requires b.parent != null ==> b.parent in blocks
      requires x != null ==> x in blocks && x != b && x != b.parent
      modifies head, blocks`left, blocks`right, blocks`parent
      ensures head[..] == if m[b].parent == null then old(head[..])[page := x] else old(head[..])
      ensures forall y | y in blocks :: Snap()[y] == Lifted(m, b, x, y)
    {
      var parent := b.parent;
      if parent == null {
        head[page] := x;
      } else {
        if parent.left == b {
          parent.left := x;
        }
        if parent.right == b {
          parent.right := x;
        }
      }
      if x != null {
        x.parent := parent;
      }
    }

    /** low takes over left child l and leaves its old parent. */
    method TakeOver(low: Block, l: Block, oldParent: Block, ghost m: Heap)
      requires m == Snap() && {low, l, oldParent} <= blocks && oldParent != low
      modifies low`left, oldParent`left, l`parent
      ensures forall y | y in blocks ::
                Snap()[y] == m[y].(parent := if y == l then low else m[y].parent,
                                   left := if y == oldParent then null else if y == low then l else m[y].left)
    {
      low.left := l;
      l.parent := low;
      oldParent.left := null;
    }

    /** top becomes the right child of bottom. */
    method HangUnder(bottom: Block, top: Block, ghost m: Heap)
      requires m == Snap() && {bottom, top} <= blocks
      modifies bottom`right, top`parent
      ensures forall y | y in blocks ::
                Snap()[y] == m[y].(parent := if y == top then bottom else m[y].parent,
                    right := if y == bottom then top else m[y].right)
    {
      bottom.right := top;
      top.parent := bottom;
    }

    /** The rest of the two-child case, once low has b's place. */
    method Reseat(low: Block, l: Block, oldParent: Block, top: Block, hi: Block?, ghost m: Heap)
      requires m == Snap() && {low, l, oldParent, top} <= blocks && l != low && oldParent != low && l != top
               && l != oldParent
      requires hi != null ==> hi in blocks && hi != l && hi != low && hi != top
      modifies blocks`left, blocks`right, blocks`parent
      ensures forall y | y in blocks ::
                Snap()[y] == Reseated(m[y], y, low, l, oldParent, top, if hi == null then low else hi)
    {
      TakeOver(low, l, oldParent, m);
      ghost var m1 := Snap();
      if hi == null {
        if low != top {
          HangUnder(low, top, m1);
        }
      } else if top != low {
        HangUnder(hi, top, m1);
      }
    }

    /** Takes b out of the index, the other blocks' links having become m'. */
    ghost method Forget(b: Block, m': Heap, trees': seq<Tree>)
      requires m'.Keys == blocks - {b} && Indexed(m', head[..], trees')
      requires forall y | y in m' :: m'[y] == Snap()[y]
      modifies this`blocks, this`trees
      ensures Valid() && blocks == old(blocks) - {b}
    {
      blocks, trees := blocks - {b}, trees';
      assert Snap() == m';
    }

    /** The cases of Delete in which b has at most one child, x. */
    method DeleteLifted(b: Block, page: nat, x: Block?)
      requires Valid() && b in blocks && page == b.phys / 4096
      requires (b.left == null && x == b.right) || (b.right == null && x == b.left)
      modifies this`blocks, this`trees, head, blocks`left, blocks`right, blocks`parent
      ensures Valid() && blocks == old(blocks) - {b}
    {
      ghost var m := Snap();
      assert PageOf(m[b].cmp) == page;
      IndexedBlock(m, head[..], trees, b, page);
      ghost var m', trees' := LiftIndexed(m, head[..], trees, b, page, x);
      Lift(b, page, x, m);
      Forget(b, m', trees');
    }

    /** Both relinking steps of the two-child case. */
    method Promote(b: Block, page: nat, low: Block, hi: Block?, ghost m: Heap)
      requires m == Snap() && {b, low} <= blocks && page < head.Length
      requires b.parent != null ==> b.parent in blocks
      requires b.left != null && b.right != null && low.parent != null && {b.left, b.right, low.parent} <= blocks
      requires low != b && low != b.parent && b.left != low && low.parent != low
      requires b.left != b.right && b.left != low.parent
      requires hi != null ==> hi in blocks && hi != b.left && hi != low && hi != b.right
      modifies head, blocks`left, blocks`right, blocks`parent
      ensures head[..] == if m[b].parent == null then old(head[..])[page := low] else old(head[..])
      ensures forall y | y in blocks :: Snap()[y] == Promoted(m, b, low, hi, y)
    {
      var l, top, oldParent := b.left, b.right, low.parent;
      Lift(b, page, low, m);
      ghost var m1 := Snap();
      Reseat(low, l, oldParent, top, hi, m1);
      forall y | y in blocks ensures Snap()[y] == Promoted(m, b, low, hi, y) {
        assert m1[y] == Lifted(m, b, low, y);
      }
    }

    /** Deletes b, whose successor is low. */
    method DeleteWith(b: Block, page: nat, low: Block, hi: Block?)
      requires Valid() && b in blocks && page == b.phys / 4096 && b.left != null && b.right != null
      requires Successor(Snap(), trees, b, page, low, hi)
      modifies this`blocks, this`trees, head, blocks`left, blocks`right, blocks`parent
      ensures Valid() && blocks == old(blocks) - {b}
    {
      ghost var m := Snap();
      assert PageOf(m[b].cmp) == page;
      SuccessorBlocks(m, head[..], trees, b, page);
      ghost var m', trees' := PromoteIndexed(m, head[..], trees, b, page, low, hi);
      Promote(b, page, low, hi, m);
      Forget(b, m', trees');
    }

    /** The case of Delete in which b has two children. */
    method DeletePromoted(b: Block, page: nat)
      requires Valid() && b in blocks && page == b.phys / 4096 && b.left != null && b.right != null
      modifies this`blocks, this`trees, head, blocks`left, blocks`right, blocks`parent
      ensures Valid() && blocks == old(blocks) - {b}
    {
      var low, hi := FindSuccessor(b, page, b.right);
      DeleteWith(b, page, low, hi);
    }

    /** The lowest block right of b, and the rightmost block under it, if any. */
    method FindSuccessor(b: Block, page: nat, top: Block) returns (low: Block, hi: Block?)
      requires Valid() && b in blocks && page == b.phys / 4096 && b.left != null && b.right == top
      ensures Successor(Snap(), trees, b, page, low, hi)
    {
      ghost var m := Snap();
      assert PageOf(m[b].cmp) == page;
      SuccessorBlocks(m, head[..], trees, b, page);
      ghost var r := SubAt(trees[page], b).right;
      low := WalkLeft(top, r, b);
      hi := null;
      if low.right != null {
        hi := WalkRight(low.right, LowestRight(r), low);
      }
    }

    /** Deletes a present block; exactly the others remain. */
    method Delete(b: Block)
      requires Valid() && b in blocks
      modifies this`blocks, this`trees, head, blocks`left, blocks`right, blocks`parent
      ensures Valid() && blocks == old(blocks) - {b}
    {
      var page := b.phys / 4096;
      if b.left == null && b.right == null {
        DeleteLifted(b, page, null);
      } else if b.left == null {
        DeleteLifted(b, page, b.right);
      } else if b.right == null {
        DeleteLifted(b, page, b.left);
      } else {
        DeletePromoted(b, page);
      }
    }

    /** May op be carried out in the present state? */
    ghost predicate Allowed(op: Op)
      reads this`blocks
      reads if op.DeleteOp? then {} else if op.AddOp? then {op.block} else {}
    {
      match op
      case AddOp(b) => b !in blocks && b.phys < 0x1_0000_0000 && b.cs < 0x1_0000_0000 && b.phys / 4096 < head.Length
      case DeleteOp(b) => b in blocks
      case FindOp(phys, cs, _) => cs < 0x1_0000_0000 && phys / 4096 < head.Length
    }

    method Step(op: Op, ghost all: set<Block>) returns (hit: Block?)
      requires Valid() && Allowed(op)
      modifies this`blocks, this`trees, head
      modifies Touched(blocks, [op])`left, Touched(blocks, [op])`right, Touched(blocks, [op])`parent,
               Touched(blocks, [op])`cmp
      ensures Valid() && blocks == Apply(old(blocks), op) && Answers(Looks(blocks), blocks, op, hit)
      ensures Looks(all) == old(Looks(all))
    {
      assert op.AddOp? ==> [op][0].block in Touched(blocks, [op]);
      hit := null;
      match op {
        case AddOp(b) => Add(b);
        case DeleteOp(b) => Delete(b);
        case FindOp(phys, cs, cur) => hit := Find(phys, cs, cur);
      }
    }

    /** Any interleaving of additions, deletions and searches behaves as on a
        plain set: each search answers by the set present at that moment. */
    method Run(ops: seq<Op>) returns (found: seq<Block?>)
      requires Valid() && Legal(blocks, ops)
      requires forall i | 0 <= i < |ops| && ops[i].AddOp? ::
                 var b := ops[i].block;
                 b.phys < 0x1_0000_0000 && b.cs < 0x1_0000_0000 && b.phys / 4096 < head.Length
      requires forall i | 0 <= i < |ops| && ops[i].FindOp? ::
                 ops[i].cs < 0x1_0000_0000 && ops[i].phys / 4096 < head.Length
      modifies this`blocks, this`trees, head
      modifies Touched(blocks, ops)`left, Touched(blocks, ops)`right, Touched(blocks, ops)`parent,
               Touched(blocks, ops)`cmp
      ensures Valid() && blocks == After(old(blocks), ops) && |found| == |ops|
      ensures Answered(Looks(Touched(old(blocks), ops)), old(blocks), ops, found)
    {
      found := [];
      ghost var s0, k := blocks, Looks(Touched(blocks, ops));
      assert ops[..|ops|] == ops;
      for n := 0 to |ops|
        invariant Valid() && blocks == After(s0, ops[..n]) && Looks(Touched(s0, ops)) == k
        invariant Answered(k, s0, ops[..n], found)
      {
        AfterIsTouched(s0, ops, n);
        AfterIsTouched(s0, ops, n + 1);
        assert ops[..n + 1][..n] == ops[..n];
        assert Touched(blocks, [ops[n]]) <= Touched(s0, ops);
        var hit := Step(ops[n], Touched(s0, ops));
        AnsweredMore(k, Looks(blocks), s0, ops, n, found, hit);
        found := found + [hit];
      }
    }

    /** Every search of a run is right about the set present at that moment. */
    static ghost predicate Answered(k: map<Block, Look>, s: set<Block>, ops: seq<Op>, found: seq<Block?>) {
      |found| == |ops| && forall i | 0 <= i < |ops| :: Answers(k, After(s, ops[..i]), ops[i], found[i])
    }

    static lemma {:induction false} AnsweredMore(k: map<Block, Look>, now: map<Block, Look>, s: set<Block>,
                                                 ops: seq<Op>, n: nat,
                                                 found: seq<Block?>, hit: Block?)
      requires n < |ops| && Answered(k, s, ops[..n], found)
      requires now.Keys <= k.Keys && (forall b | b in now :: now[b] == k[b]) && After(s, ops[..n]) <= k.Keys
      requires Answers(now, Apply(After(s, ops[..n]), ops[n]), ops[n], hit)
      ensures Answered(k, s, ops[..n + 1], found + [hit])
    {
      forall i | 0 <= i < n + 1
        ensures Answers(k, After(s, ops[..n + 1][..i]), ops[i], (found + [hit])[i])
      {
        assert ops[..n + 1][..i] == ops[..i];
        if i < n {
          assert ops[..n][..i] == ops[..i] && ops[..n][i] == ops[i];
        }
      }
    }
  }
}
