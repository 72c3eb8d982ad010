/**
 * A tree-sitter tree cursor created with `node.walk()`: it starts on `root`,
 * keeps the path of child indices it has taken, and can only move down to a
 * first child or across to a next sibling. The node it was created on has no
 * siblings as far as the cursor is concerned.
 */
module TreeCursors {
  import opened SyntaxTree

  class TreeCursor {
    const root: Node
    var path: seq<nat>

    ghost predicate Valid()
      reads this
    {
      ValidPath(root, path)
    }

    /** `cursor.node()` */
    function Current(): (n: Node)
      reads this
      requires Valid()
      ensures InSubtree(n, root)
      ensures path == [] ==> n == root
    {
      NodeAt(root, path)
    }

    /** The current node followed by its later siblings: what the cursor can still reach by `GotoNextSibling`. */
    ghost function Siblings(): (s: seq<Node>)
      reads this
      requires Valid()
      ensures s != [] && s[0] == Current()
    {
      if path == [] then [root]
      else NodeAt(root, path[..|path| - 1]).children[path[|path| - 1]..]
    }

    constructor (n: Node)
      ensures root == n && path == []
      ensures Valid() && Current() == n && Siblings() == [n]
    {
      root := n;
      path := [];
    }

    /** `cursor.goto_first_child()` */
    method GotoFirstChild() returns (moved: bool)
      requires Valid()
      modifies this
      ensures Valid()
      ensures moved <==> |old(Current()).children| > 0
      ensures moved ==> path == old(path) + [0] && Siblings() == old(Current()).children
      ensures !moved ==> path == old(path)
    {
      var n := Current();
      if |n.children| == 0 {
        return false;
      }
      ghost var p := path;
      path := path + [0];
      assert path[..|path| - 1] == p;
      moved := true;
    }

    /** `cursor.goto_next_sibling()` */
    method GotoNextSibling() returns (moved: bool)
      requires Valid()
      modifies this
      ensures Valid()
      ensures moved <==> |old(Siblings())| > 1
      ensures moved ==> Siblings() == old(Siblings())[1..]
      ensures !moved ==> path == old(path)
    {
      if path == [] {
        return false;
      }
      var parentPath := path[..|path| - 1];
      var i := path[|path| - 1];
      var parent := NodeAt(root, parentPath);
      if i + 1 >= |parent.children| {
        return false;
      }
      path := parentPath + [i + 1];
      assert path[..|path| - 1] == parentPath;
      moved := true;
    }
  }
}
