/** The nodes of Huffman trees as heap objects, and the shape they form. */
module HuffNodes {

  class HuffNode {
    var left: HuffNode?
    var right: HuffNode?
    var entry: nat
    var byte: nat

    constructor ()
      ensures left == null && right == null && entry == 0 && byte == 0
    {
      left, right, entry, byte := null, null, 0, 0;
    }
  }

  /** A tree of cells: which object sits where, and what it holds. */
  datatype Shape = Nil | Cell(n: HuffNode, entry: nat, byte: nat, l: Shape, r: Shape)

  ghost function Nodes(s: Shape): set<HuffNode> {
    match s
    case Nil => {}
    case Cell(n, _, _, l, r) => {n} + Nodes(l) + Nodes(r)
  }

  /** No object occurs twice. */
  ghost predicate Distinct(s: Shape) {
    match s
    case Nil => true
    case Cell(n, _, _, l, r) =>
      Distinct(l) && Distinct(r) && n !in Nodes(l) && n !in Nodes(r) && Nodes(l) !! Nodes(r)
  }

  /** The heap below p looks exactly like s. */
  ghost predicate Linked(s: Shape, p: HuffNode?)
    reads Nodes(s)
  {
    match s
    case Nil => p == null
    case Cell(n, e, b, l, r) =>
      p == n && n.entry == e && n.byte == b && Linked(l, n.left) && Linked(r, n.right)
  }
}
