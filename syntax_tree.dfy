/**
 * The syntax tree the HTML parser hands to the server, as an immutable value.
 * `children` are the children a tree cursor visits, named and anonymous.
 */
module SyntaxTree {
  import opened Wrappers

  datatype Node = Node(kind: string, named: bool, start: nat, end: nat, children: seq<Node>)

  /** The node kinds of the HTML grammar the request handlers search for. */
  const TAG_KINDS: seq<string> := ["start_tag", "self_closing_tag"]
  const TAG_NAME: seq<string> := ["tag_name"]
  const ATTRIBUTE_NAME: seq<string> := ["attribute_name"]

  /** A node's byte range contains `offset`; the end byte is included. */
  predicate Contains(n: Node, offset: nat): (b: bool)
    ensures b ==> n.start <= n.end
    ensures n.start <= n.end && (offset == n.start || offset == n.end) ==> b
    ensures offset < n.start || n.end < offset ==> !b
  {
    n.start <= offset <= n.end
  }

  /** `m` is `t` or lies below it. */
  ghost predicate InSubtree(m: Node, t: Node)
    decreases t
  {
    m == t || exists c :: c in t.children && InSubtree(m, c)
  }

  /** A child of a node in the subtree of `t` is in that subtree too. */
  lemma {:induction false} ChildInSubtree(c: Node, m: Node, t: Node)
    requires c in m.children && InSubtree(m, t)
    ensures InSubtree(c, t)
    decreases t
  {
    if m == t {
      assert InSubtree(c, c);
    } else {
      var d :| d in t.children && InSubtree(m, d);
      ChildInSubtree(c, m, d);
    }
  }

  /** Every range in the tree is a well-formed slice of a document of `len` characters. */
  predicate InDocument(t: Node, len: nat)
    decreases t
  {
    t.start <= t.end <= len && forall c :: c in t.children ==> InDocument(c, len)
  }

  lemma {:induction false} InDocumentSubtree(m: Node, t: Node, len: nat)
    requires InSubtree(m, t) && InDocument(t, len)
    ensures InDocument(m, len)
    decreases t
  {
    if m != t {
      var c :| c in t.children && InSubtree(m, c);
      InDocumentSubtree(m, c, len);
    }
  }

  /** The text a node covers. */
  function Text(doc: string, n: Node): (s: string)
    requires n.start <= n.end <= |doc|
    ensures |s| == n.end - n.start
    ensures forall i :: 0 <= i < |s| ==> s[i] == doc[n.start + i]
  {
    doc[n.start..n.end]
  }

  /** tree-sitter's `named_child(0)`: the first child that is a named node. */
  function FirstNamedChild(t: Node): (r: Option<Node>)
    ensures r.Some? <==> exists i :: 0 <= i < |t.children| && t.children[i].named
    ensures r.Some? ==> r.value in t.children && r.value.named
    ensures r.Some? ==> exists i :: 0 <= i < |t.children| && t.children[i] == r.value
                           && forall j :: 0 <= j < i ==> !t.children[j].named
  {
    FirstNamed(t.children)
  }

  function FirstNamed(ns: seq<Node>): (r: Option<Node>)
    ensures r.Some? <==> exists i :: 0 <= i < |ns| && ns[i].named
    ensures r.Some? ==> exists i :: 0 <= i < |ns| && ns[i] == r.value && r.value.named
                           && forall j :: 0 <= j < i ==> !ns[j].named
  {
    if ns == [] then None
    else if ns[0].named then Some(ns[0])
    else
      var r := FirstNamed(ns[1..]);
      assert forall i :: 0 < i < |ns| ==> ns[i] == ns[1..][i - 1];
      r
  }

  /** The number of nodes in a tree and in a forest; it bounds every cursor walk. */
  function Size(n: Node): nat
    decreases n
  {
    1 + ForestSize(n.children)
  }

  function ForestSize(ns: seq<Node>): nat
    decreases ns
  {
    if ns == [] then 0 else Size(ns[0]) + ForestSize(ns[1..])
  }

  /** A cursor path: child indices from the root, each within range. */
  predicate ValidPath(t: Node, p: seq<nat>)
    decreases |p|, 0
  {
    p == [] || (ValidPath(t, p[..|p| - 1]) && p[|p| - 1] < |NodeAt(t, p[..|p| - 1]).children|)
  }

  /** The node a cursor path leads to; it lies in the tree the path starts from. */
  function NodeAt(t: Node, p: seq<nat>): (r: Node)
    requires ValidPath(t, p)
    ensures InSubtree(r, t)
    decreases |p|, 1
  {
    if p == [] then t
    else
      var parent := NodeAt(t, p[..|p| - 1]);
      var r := parent.children[p[|p| - 1]];
      ChildInSubtree(r, parent, t);
      r
  }
}
