/**
 * `find_node`: a one-way cursor walk that stops at the first node of one of
 * the requested kinds whose range contains the offset. `FindFrom` is the
 * descent it performs, stated as a function; `FindNode` is the cursor loop.
 */
module FindNodes {
  import opened Wrappers
  import opened SyntaxTree
  import opened TreeCursors

  /** `i` is the first position of `ns` whose node contains `offset`. */
  ghost predicate IsFirstContaining(ns: seq<Node>, i: int, offset: nat) {
    0 <= i < |ns| && Contains(ns[i], offset) && forall j :: 0 <= j < i ==> !Contains(ns[j], offset)
  }

  /** Where a forward sibling walk over `ns` stops: the first node containing `offset`. */
  function FirstContaining(ns: seq<Node>, offset: nat): (r: Option<nat>)
    ensures r.Some? ==> IsFirstContaining(ns, r.value, offset)
    ensures r.None? ==> forall j :: 0 <= j < |ns| ==> !Contains(ns[j], offset)
  {
    if ns == [] then None
    else if Contains(ns[0], offset) then Some(0)
    else match FirstContaining(ns[1..], offset)
      case None => None
      case Some(i) => Some(i + 1)
  }

  /**
   * The result of `find_node(n, offset, types)`: `n` itself when it contains the
   * offset and has one of the kinds, otherwise the search continues in the
   * first child containing the offset, and nowhere else.
   */
  function FindFrom(n: Node, offset: nat, types: seq<string>): (r: Option<Node>)
    ensures r.Some? ==> r.value.kind in types && Contains(r.value, offset)
    ensures Contains(n, offset) && n.kind in types ==> r == Some(n)
    decreases n
  {
    if !Contains(n, offset) then None
    else if n.kind in types then Some(n)
    else FindAmong(n.children, offset, types)
  }

  /** A search that starts on `ns[0]` and may go on to the later siblings `ns[1..]`. */
  function FindAmong(ns: seq<Node>, offset: nat, types: seq<string>): (r: Option<Node>)
    ensures r.Some? ==> r.value.kind in types && Contains(r.value, offset)
    decreases ns
  {
    match FirstContaining(ns, offset)
    case None => None
    case Some(i) => FindFrom(ns[i], offset, types)
  }

  lemma FindAmongSkip(ns: seq<Node>, offset: nat, types: seq<string>)
    requires ns != [] && !Contains(ns[0], offset)
    ensures FindAmong(ns, offset, types) == FindAmong(ns[1..], offset, types)
  {
  }

  /** The cursor loop of `find_node`. */
  method FindNode(node: Node, offset: nat, types: seq<string>) returns (r: Option<Node>)
    ensures r == FindFrom(node, offset, types)
  {
    var cursor := new TreeCursor(node);
    while true
      invariant cursor.Valid() && cursor.root == node
      invariant FindAmong(cursor.Siblings(), offset, types) == FindFrom(node, offset, types)
      decreases ForestSize(cursor.Siblings())
    {
      var n := cursor.Current();
      ghost var before := cursor.Siblings();
      if n.start <= offset && offset <= n.end {
        if n.kind in types {
          return Some(n);
        }
        assert FirstContaining(before, offset) == Some(0);
        assert ForestSize(before) >= Size(n) > ForestSize(n.children);
        var moved := cursor.GotoFirstChild();
        if !moved {
          assert FindAmong(before, offset, types) == FindAmong(n.children, offset, types);
          return None;
        }
      } else {
        FindAmongSkip(before, offset, types);
        assert ForestSize(before) == Size(before[0]) + ForestSize(before[1..]);
        var moved := cursor.GotoNextSibling();
        if !moved {
          return None;
        }
      }
    }
  }

  /**
   * `m` is reached by the descent from `t`: every node on the way contains the
   * offset, every node passed through has none of the kinds, and each step goes
   * into the first child containing the offset.
   */
  ghost predicate OnDescent(m: Node, t: Node, offset: nat, types: seq<string>)
    decreases t
  {
    Contains(t, offset) &&
    (m == t ||
     (t.kind !in types &&
      exists i :: 0 <= i < |t.children| && IsFirstContaining(t.children, i, offset)
                  && OnDescent(m, t.children[i], offset, types)))
  }

  /** The result lies in the subtree the search started in. */
  lemma {:induction false} FindFromInSubtree(t: Node, offset: nat, types: seq<string>)
    requires FindFrom(t, offset, types).Some?
    ensures InSubtree(FindFrom(t, offset, types).value, t)
    decreases t
  {
    if t.kind !in types {
      var i := FirstContaining(t.children, offset).value;
      FindFromInSubtree(t.children[i], offset, types);
      assert t.children[i] in t.children;
    }
  }

  /** `find_node` finds `m` exactly when `m` is on the descent and has one of the kinds. */
  lemma {:induction false} FindFromDescent(t: Node, m: Node, offset: nat, types: seq<string>)
    ensures FindFrom(t, offset, types) == Some(m) <==> OnDescent(m, t, offset, types) && m.kind in types
    decreases t
  {
    if !Contains(t, offset) || t.kind in types {
      return;
    }
    if FindFrom(t, offset, types) == Some(m) {
      assert FindAmong(t.children, offset, types).Some?;
      var i := FirstContaining(t.children, offset).value;
      FindFromDescent(t.children[i], m, offset, types);
    }
    if OnDescent(m, t, offset, types) && m.kind in types {
      var i :| 0 <= i < |t.children| && IsFirstContaining(t.children, i, offset)
               && OnDescent(m, t.children[i], offset, types);
      FirstContainingUnique(t.children, i, FirstContaining(t.children, offset).value, offset);
      FindFromDescent(t.children[i], m, offset, types);
    }
  }

  lemma FirstContainingUnique(ns: seq<Node>, i: int, j: int, offset: nat)
    requires IsFirstContaining(ns, i, offset) && IsFirstContaining(ns, j, offset)
    ensures i == j
  {
  }

  /** The search stopped with nothing: at a containing node of the wrong kind none of whose children
      (possibly none at all) contains the offset, or because the start node did not contain it. */
  ghost predicate DeadEnd(m: Node, offset: nat, types: seq<string>) {
    m.kind !in types && forall j :: 0 <= j < |m.children| ==> !Contains(m.children[j], offset)
  }

  /** `find_node` returns `None` exactly in the two ways the cursor can fail to move. */
  lemma {:induction false} FindFromNone(t: Node, offset: nat, types: seq<string>)
    ensures FindFrom(t, offset, types).None? <==>
            !Contains(t, offset) || exists m :: OnDescent(m, t, offset, types) && DeadEnd(m, offset, types)
    decreases t
  {
    if !Contains(t, offset) || t.kind in types {
      if Contains(t, offset) {
        forall m | OnDescent(m, t, offset, types) ensures !DeadEnd(m, offset, types) {
          assert m == t;
        }
      }
      return;
    }
    match FirstContaining(t.children, offset)
    case None =>
      assert OnDescent(t, t, offset, types) && DeadEnd(t, offset, types);
    case Some(i) =>
      var c := t.children[i];
      assert IsFirstContaining(t.children, i, offset);
      assert Contains(c, offset);
      assert FindFrom(t, offset, types) == FindFrom(c, offset, types);
      FindFromNone(c, offset, types);
      if FindFrom(t, offset, types).None? {
        assert exists m :: OnDescent(m, c, offset, types) && DeadEnd(m, offset, types);
        var m :| OnDescent(m, c, offset, types) && DeadEnd(m, offset, types);
        assert 0 <= i < |t.children| && IsFirstContaining(t.children, i, offset)
               && OnDescent(m, t.children[i], offset, types);
        assert OnDescent(m, t, offset, types);
      } else {
        assert !exists m :: OnDescent(m, c, offset, types) && DeadEnd(m, offset, types);
        forall m | OnDescent(m, t, offset, types) ensures !DeadEnd(m, offset, types) {
          if m == t {
            assert Contains(t.children[i], offset);
          } else {
            var k :| 0 <= k < |t.children| && IsFirstContaining(t.children, k, offset)
                     && OnDescent(m, t.children[k], offset, types);
            FirstContainingUnique(t.children, i, k, offset);
            assert OnDescent(m, c, offset, types);
          }
        }
      }
  }
}
