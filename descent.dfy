/** Recursive descent into a node list: a node, then everything nested in
    it, in document order (wikicode.py, `_get_children` and
    `_get_all_nodes`). */
module Descent {
  import opened Nodes

  /** `_get_children`: the node itself first; for a template, then every
      node of its name, then for each parameter in order the nodes of its
      name (only when the name is shown) and the nodes of its value. Any
      other node yields only itself. */
  function Children(n: Node): (r: seq<Node>)
    ensures |r| >= 1 && r[0] == n
    ensures !n.Template? ==> r == [n]
    decreases n
  {
    match n
    case Template(_, name, params) => [n] + AllNodes(name) + ParamChildren(params)
    case _ => [n]
  }

  /** The part of `_get_children` that walks a template's parameters. */
  function ParamChildren(ps: seq<Param>): seq<Node>
    decreases ps
  {
    if ps == [] then []
    else
      (if ps[0].showkey then AllNodes(ps[0].name) else [])
      + AllNodes(ps[0].value) + ParamChildren(ps[1..])
  }

  /** `_get_all_nodes`: the descendants of each node of `code`, in order.
      Each node contributes at least itself. */
  function AllNodes(code: seq<Node>): (r: seq<Node>)
    ensures |r| >= |code|
    decreases code
  {
    if code == [] then [] else Children(code[0]) + AllNodes(code[1..])
  }

  lemma {:induction false} AllNodesAppend(a: seq<Node>, b: seq<Node>)
    ensures AllNodes(a + b) == AllNodes(a) + AllNodes(b)
    decreases a
  {
    if a == [] {
      assert a + b == b;
    } else {
      assert (a + b)[0] == a[0];
      assert (a + b)[1..] == a[1..] + b;
      AllNodesAppend(a[1..], b);
    }
  }

  /** Every direct node appears in the recursive walk, in its original
      order: the direct nodes form a subsequence of `_get_all_nodes`. */
  lemma {:induction false} DirectNodesInOrder(code: seq<Node>)
    ensures IsSubsequence(code, AllNodes(code))
    decreases code
  {
    if code != [] {
      var c := Children(code[0]);
      DirectNodesInOrder(code[1..]);
      SubsequenceExtend(code[1..], c[1..], AllNodes(code[1..]));
      assert AllNodes(code)[1..] == c[1..] + AllNodes(code[1..]);
    }
  }

  /** A node is reached by the recursive walk exactly when it is reached
      from one of the direct nodes. */
  lemma {:induction false} HasAllNodes(code: seq<Node>, obj: Node)
    ensures Has(AllNodes(code), obj) <==>
            exists i :: 0 <= i < |code| && Has(Children(code[i]), obj)
    decreases code
  {
    if code != [] {
      HasAllNodes(code[1..], obj);
      HasAppend(Children(code[0]), AllNodes(code[1..]), obj);
      if exists i :: 0 <= i < |code| && Has(Children(code[i]), obj) {
        var i :| 0 <= i < |code| && Has(Children(code[i]), obj);
        if i > 0 {
          assert code[i] == code[1..][i - 1];
        }
      }
      if exists i :: 0 <= i < |code[1..]| && Has(Children(code[1..][i]), obj) {
        var i :| 0 <= i < |code[1..]| && Has(Children(code[1..][i]), obj);
        assert code[1..][i] == code[i + 1];
      }
    }
  }

  /** The walk of `{{foo|bar|baz=qux}}`: the template, its name, the
      positional value (no name, since it is not shown), then the shown
      name and the value of the keyed parameter. */
  lemma TemplateWalkExample()
    ensures
      var foo, bar, baz, qux := Text(2, "foo"), Text(3, "bar"), Text(4, "baz"), Text(5, "qux");
      var t := Template(1, [foo], [Param([Text(6, "1")], [bar], false), Param([baz], [qux], true)]);
      Children(t) == [t, foo, bar, baz, qux]
  {
    var foo, bar, baz, qux := Text(2, "foo"), Text(3, "bar"), Text(4, "baz"), Text(5, "qux");
    var p1, p2 := Param([Text(6, "1")], [bar], false), Param([baz], [qux], true);
    var t := Template(1, [foo], [p1, p2]);
    assert AllNodes([foo]) == [foo];
    assert ParamChildren([p2]) == [baz, qux];
    assert ParamChildren([p1, p2]) == [bar, baz, qux];
  }
}
