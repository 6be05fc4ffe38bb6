/** syntax.c: the tree nodes themselves, which mkop and mkneg change in place.  The operand
    list of an nOp is a field that treeconsend extends. */
module TreeNodes {
  import opened CStrings
  import opened Arith

  class Node {
    var kind: Kind
    var operands: seq<Node>

    /** The tree the node stands for, and all nodes of that tree. */
    ghost var tree: Tree
    ghost var fp: set<Node>

    constructor (kind: Kind)
      requires !kind.NOp?
      ensures Valid() && this.kind == kind && fp == {this} && tree == LeafTree(kind)
    {
      this.kind, operands := kind, [];
      tree, fp := LeafTree(kind), {this};
    }

    /** A new nOp for two trees that share no nodes. */
    constructor Pair(op: Operator, t1: Node, t2: Node)
      requires t1.Valid() && t2.Valid() && t1.fp !! t2.fp
      ensures Valid() && tree == Op(op, [t1.tree, t2.tree]) && fp == {this} + t1.fp + t2.fp
    {
      kind, operands := NOp(op), [t1, t2];
      tree, fp := Op(op, [t1.tree, t2.tree]), {this} + t1.fp + t2.fp;
    }

    ghost predicate Valid()
      reads this, fp
      decreases tree
    {
      this in fp && match kind
      case NOp(op) =>
        && tree.Op? && tree.op == op && |operands| == |tree.operands|
        && Apart(this, operands, fp)
        && forall k :: 0 <= k < |operands| ==> operands[k].tree == tree.operands[k] && operands[k].Valid()
      case _ => tree == LeafTree(kind)
    }

    /** treeconsend on the operand list. */
    method Append(t2: Node)
      requires Valid() && t2.Valid() && fp !! t2.fp && kind.NOp?
      modifies this
      ensures Valid() && kind == old(kind) && tree == Op(kind.op, old(tree).operands + [old(t2.tree)])
      ensures fp == old(fp) + t2.fp
    {
      ghost var xs := tree.operands;
      ApartMore(this, operands, fp, t2);
      operands := operands + [t2];
      tree := Op(kind.op, xs + [t2.tree]);
      fp := fp + t2.fp;
      forall k | 0 <= k < |operands| ensures operands[k].tree == tree.operands[k] && operands[k].Valid() {
        if k == |xs| {
          assert operands[k] == t2;
        } else {
          assert operands[k] == old(operands)[k];
        }
      }
    }
  }

  datatype Kind = NInt(i: int) | NWord(name: CString) | NOp(op: Operator)

  function LeafTree(kind: Kind): Tree {
    match kind
    case NInt(i) => Int(i)
    case NWord(x) => Variable(x)
    case NOp(op) => Op(op, [])
  }

  /** A node and the trees of its operands share no nodes. */
  ghost predicate Apart(n: Node, operands: seq<Node>, fp: set<Node>)
    reads fp
  {
    && (forall k :: 0 <= k < |operands| ==> operands[k] in fp && operands[k].fp <= fp && n !in operands[k].fp)
    && (forall j, k :: 0 <= j < k < |operands| ==> operands[j].fp !! operands[k].fp)
  }

  lemma ApartMore(n: Node, operands: seq<Node>, fp: set<Node>, t2: Node)
    requires Apart(n, operands, fp) && n in fp && fp !! t2.fp && t2.Valid()
    ensures Apart(n, operands + [t2], fp + t2.fp)
  {}

  /** mkop on two trees that share no nodes. */
  method MkOpInPlace(op: Operator, t1: Node, t2: Node) returns (r: Node)
    requires t1.Valid() && t2.Valid() && t1.fp !! t2.fp
    modifies t1
    ensures r.Valid() && r.tree == MkOp(op, old(t1.tree), old(t2.tree))
    ensures r.fp <= old(t1.fp) + t2.fp + {r} && (r == t1 || fresh(r))
  {
    if t1.kind == NOp(op) {
      t1.Append(t2);
      r := t1;
    } else {
      r := new Node.Pair(op, t1, t2);
    }
  }

  /** mkneg; null is the overflow error. */
  method MkNegInPlace(t: Node) returns (r: Node?)
    requires t.Valid()
    modifies t
    ensures r == null <==> MkNeg(old(t.tree)).None?
    ensures r != null ==> r.Valid() && Some(r.tree) == MkNeg(old(t.tree))
    ensures r != null ==> fresh(r.fp - old(t.fp)) && (old(t.kind).NInt? ==> r == t && r.fp == old(t.fp))
  {
    match t.kind
    case NInt(i) =>
      if i < -INT_MAX {
        return null;
      }
      t.kind := NInt(-i);
      t.tree := Int(-i);
      r := t;
    case _ =>
      var zero := new Node(NInt(0));
      r := MkOpInPlace(Sub, zero, t);
  }
}
