/** The node record of the red-black tree (RedBlackNode.java): a string key, an
    integer colour code and three links. The tree itself keeps its nodes in an
    arena (module Arena); this class is the record as the Java code declares it,
    with its getters, setters and `toString`. */
module Nodes {
  import opened Wrappers

  /** Colour code of a black node */
  const BLACK: int := 0
  /** Colour code of a red node */
  const RED: int := 1

  /** What `toString` prints for a colour code: "Black" for BLACK, "Red" for anything else */
  function ColorName(color: int): (name: string)
    ensures name == "Black" <==> color == BLACK
    ensures name == "Red" <==> color != BLACK
  {
    if color == BLACK then "Black" else "Red"
  }

  /** The two colour codes are different */
  lemma ColorsDistinct()
    ensures BLACK != RED && ColorName(BLACK) != ColorName(RED)
  {
  }

  class RedBlackNode {
    var data: string
    var color: int
    var parent: RedBlackNode?
    var leftChild: RedBlackNode?
    var rightChild: RedBlackNode?

    constructor (data: string, color: int, p: RedBlackNode?, lc: RedBlackNode?, rc: RedBlackNode?)
      ensures this.data == data && this.color == color
      ensures parent == p && leftChild == lc && rightChild == rc
    {
      this.data := data;
      this.color := color;
      this.parent := p;
      this.leftChild := lc;
      this.rightChild := rc;
    }

    function GetColor(): (c: int)
      reads this
      ensures c == color
    {
      color
    }

    function GetData(): (d: string)
      reads this
      ensures d == data
    {
      data
    }

    function GetLc(): (lc: RedBlackNode?)
      reads this
      ensures lc == leftChild
    {
      leftChild
    }

    function GetRc(): (rc: RedBlackNode?)
      reads this
      ensures rc == rightChild
    {
      rightChild
    }

    function GetP(): (p: RedBlackNode?)
      reads this
      ensures p == parent
    {
      parent
    }

    method SetData(data: string)
      modifies this`data
      ensures this.data == data
      ensures color == old(color) && parent == old(parent)
      ensures leftChild == old(leftChild) && rightChild == old(rightChild)
    {
      this.data := data;
    }

    method SetColor(color: int)
      modifies this`color
      ensures this.color == color
      ensures data == old(data) && parent == old(parent)
      ensures leftChild == old(leftChild) && rightChild == old(rightChild)
    {
      this.color := color;
    }

    method SetLc(lc: RedBlackNode?)
      modifies this`leftChild
      ensures leftChild == lc
      ensures data == old(data) && color == old(color)
      ensures parent == old(parent) && rightChild == old(rightChild)
    {
      leftChild := lc;
    }

    method SetRc(rc: RedBlackNode?)
      modifies this`rightChild
      ensures rightChild == rc
      ensures data == old(data) && color == old(color)
      ensures parent == old(parent) && leftChild == old(leftChild)
    {
      rightChild := rc;
    }

    method SetP(p: RedBlackNode?)
      modifies this`parent
      ensures parent == p
      ensures data == old(data) && color == old(color)
      ensures leftChild == old(leftChild) && rightChild == old(rightChild)
    {
      parent := p;
    }

    /** `toString`. Java dereferences the parent and both children to print their
        data, so a node with a null link throws; that case is None here. */
    function ToString(): (s: Option<string>)
      reads this, parent, leftChild, rightChild
      ensures s.None? <==> parent == null || leftChild == null || rightChild == null
      ensures s.Some? ==>
                s.value == "[Data: " + data + ", Color: " + ColorName(color) + ", Parent: " + parent.data
                           + ", Left Child: " + leftChild.data + ", RightChild: " + rightChild.data + "]"
    {
      if parent == null || leftChild == null || rightChild == null then None
      else Some("[Data: " + data + ", Color: " + ColorName(color) + ", Parent: " + parent.data
                + ", Left Child: " + leftChild.data + ", RightChild: " + rightChild.data + "]")
    }
  }
}
