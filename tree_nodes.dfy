/** The vertex of every tree in binary_tree/bt.hpp: a key, a colour tag and
    three links, all updated in place. The plain search tree's nodes carry the
    colour field too but never read or write it. */
module TreeNodes {

  datatype Color = Red | Black

  class Node {
    var key: int
    var color: Color
    var left: Node?
    var right: Node?
    var parent: Node?

    /** A fresh, unlinked node; like RBTreeNode(T data) it starts out red. */
    constructor (key: int)
      ensures this.key == key && color == Red
      ensures left == null && right == null && parent == null
    {
      this.key := key;
      color := Red;
      left := null;
      right := null;
      parent := null;
    }

    predicate IsRed()
      reads this
    {
      color == Red
    }

    method SetRed()
      modifies this`color
      ensures color == Red
    {
      color := Red;
    }

    method SetBlack()
      modifies this`color
      ensures color == Black
    {
      color := Black;
    }
  }
}
