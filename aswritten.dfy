/** Operations of wikicode.py modelled exactly as the code is written,
    where that differs from what the code evidently means, with the inputs
    that show the difference. The `Wikicode` class models the intended
    behaviour; each member here is set against it. */
module AsWritten {
  import opened Nodes
  import opened Descent
  import opened Search
  import opened Wikicode

  /** The node list after an edit, and its outcome. */
  datatype Edit = Edit(nodes: seq<Node>, outcome: Outcome)

  /** `set` as written: after its two checks it reads `self.nodex`, an
      attribute that does not exist, so it never stores anything. */
  function SetAsWritten(nodes: seq<Node>, index: int, coerced: Result<seq<Node>>): (r: Edit)
    ensures r.nodes == nodes && r.outcome.Fail?
  {
    if coerced.Failure? then Edit(nodes, Fail(coerced.error))
    else if |coerced.value| > 1 then Edit(nodes, Fail(MultipleNodes))
    else if index >= |nodes| || -1 * index > |nodes| then Edit(nodes, Fail(IndexOutOfRange))
    else Edit(nodes, Fail(AttributeError))
  }

  /** Even a call that passes both checks raises, and the slot keeps its
      old node. */
  lemma SetAsWrittenRaises(nodes: seq<Node>, index: int, n: Node)
    requires -|nodes| <= index < |nodes|
    ensures SetAsWritten(nodes, index, Success([n])) == Edit(nodes, Fail(AttributeError))
  {
  }

  /** `set` with only the attribute name repaired: `pop(index)` and then
      the item assignment `nodes[index] = node` on the shortened list. For
      an index from 0 up this overwrites the node that followed the popped
      one, or raises IndexError when the popped node was the last; for a
      negative index it overwrites the node before the popped one, or
      raises IndexError when the popped node was the first. Either way the
      list stays shortened. */
  function SetTypoFixed(nodes: seq<Node>, index: int, coerced: Result<seq<Node>>): (r: Edit)
    ensures r.outcome.Pass? && coerced.Success? && |coerced.value| == 1 ==> |r.nodes| == |nodes| - 1
  {
    if coerced.Failure? then Edit(nodes, Fail(coerced.error))
    else if |coerced.value| > 1 then Edit(nodes, Fail(MultipleNodes))
    else if index >= |nodes| || -1 * index > |nodes| then Edit(nodes, Fail(IndexOutOfRange))
    else
      var k := Slot(index, |nodes|);
      var popped := nodes[..k] + nodes[k + 1..];
      if coerced.value == [] then Edit(popped, Pass)
      else if -|popped| <= index < |popped| then
        var j := Slot(index, |popped|);
        Edit(popped[..j] + [coerced.value[0]] + popped[j + 1..], Pass)
      else Edit(popped, Fail(IndexOutOfRange))
  }

  /** On `[a, b]`, setting slot 0 to `c` leaves `[c]`: `b` is lost and the
      list is shorter, where `[c, b]` was meant. Setting slot 1 raises
      IndexError and leaves `[a]`, where `[a, c]` was meant. */
  lemma SetTypoFixedLosesNode()
    ensures
      var a, b, c := Text(1, "a"), Text(2, "b"), Text(3, "c");
      SetTypoFixed([a, b], 0, Success([c])) == Edit([c], Pass) &&
      SetTypoFixed([a, b], 1, Success([c])) == Edit([a], Fail(IndexOutOfRange))
  {
    var a, b, c := Text(1, "a"), Text(2, "b"), Text(3, "c");
    assert [a, b][..0] + [a, b][1..] == [b];
    assert [b][..0] + [c] + [b][1..] == [c];
    assert [a, b][..1] + [a, b][2..] == [a];
  }

  /** With negative indexes, on `[a, b, c]`: setting slot -1 to `x` leaves
      `[a, x]`, where `[a, b, x]` was meant; setting slot -3 raises
      IndexError and leaves `[b, c]`, where `[x, b, c]` was meant. */
  lemma SetTypoFixedNegative()
    ensures
      var a, b, c, x := Text(1, "a"), Text(2, "b"), Text(3, "c"), Text(4, "x");
      SetTypoFixed([a, b, c], -1, Success([x])) == Edit([a, x], Pass) &&
      SetTypoFixed([a, b, c], -3, Success([x])) == Edit([b, c], Fail(IndexOutOfRange))
  {
    var a, b, c, x := Text(1, "a"), Text(2, "b"), Text(3, "c"), Text(4, "x");
    assert [a, b, c][..2] + [a, b, c][3..] == [a, b];
    assert [a, b][..1] + [x] + [a, b][2..] == [a, x];
    assert [a, b, c][..0] + [a, b, c][1..] == [b, c];
  }

  /** `index` as written: the recursive branch calls `_do_recursive_index`
      without `obj`, which is a TypeError whatever the arguments. */
  function IndexAsWritten(nodes: seq<Node>, obj: Node, recursive: bool): (r: Result<nat>)
    ensures recursive ==> r == Failure(TypeError)
    ensures !recursive ==> (r.Success? <==> Has(nodes, obj))
  {
    if recursive then Failure(TypeError)
    else match Position(nodes, obj)
      case Some(k) => Success(k)
      case None => Failure(NodeNotFound)
  }

  /** A node that the intended recursive lookup finds (any node of the
      recursive walk) makes the written one raise TypeError instead. */
  lemma RecursiveIndexAsWrittenRaises(nodes: seq<Node>, obj: Node)
    requires Has(AllNodes(nodes), obj)
    ensures IndexAsWritten(nodes, obj, true) == Failure(TypeError)
    ensures Owner(nodes, obj).Some?
  {
    OwnerIffReachable(nodes, obj);
  }

  /** Python's `obj in nodes`: some element is `obj` itself or equal to it,
      and nodes compare equal when they render to the same text. */
  predicate InAsWritten(nodes: seq<Node>, obj: Node)
  {
    exists k :: 0 <= k < |nodes| && (Same(nodes[k], obj) || Render(nodes[k]) == Render(obj))
  }

  /** The position `insert_before` computes as written: the membership test
      by equality (KeyError), then `index` by identity (ValueError). */
  function ReferenceAsWritten(nodes: seq<Node>, obj: Node): (r: Result<nat>)
    ensures r.Success? ==> Position(nodes, obj) == Some(r.value)
  {
    if !InAsWritten(nodes, obj) then Failure(KeyNotFound)
    else match Position(nodes, obj)
      case Some(k) => Success(k)
      case None => Failure(NodeNotFound)
  }

  /** For a direct node both tests agree. A node that is absent but has an
      equal twin passes the equality test and then fails the identity
      lookup: a ValueError instead of the KeyError the test is there to
      give. */
  lemma ReferenceAsWrittenTwin(nodes: seq<Node>, obj: Node)
    ensures Has(nodes, obj) ==> ReferenceAsWritten(nodes, obj) == Success(Position(nodes, obj).value)
    ensures !Has(nodes, obj) && (exists k :: 0 <= k < |nodes| && Render(nodes[k]) == Render(obj)) ==>
              ReferenceAsWritten(nodes, obj) == Failure(NodeNotFound)
  {
    if Has(nodes, obj) {
      var k :| 0 <= k < |nodes| && Same(nodes[k], obj);
      assert InAsWritten(nodes, obj);
    }
  }

  /** Two text nodes that both read "x": looking for the second in a list
      holding only the first raises ValueError as written, KeyError as
      meant. */
  lemma ReferenceAsWrittenExample()
    ensures ReferenceAsWritten([Text(1, "x")], Text(2, "x")) == Failure(NodeNotFound)
    ensures Position([Text(1, "x")], Text(2, "x")).None?
  {
    assert Render([Text(1, "x")][0]) == Render(Text(2, "x"));
    ReferenceAsWrittenTwin([Text(1, "x")], Text(2, "x"));
  }

  /** `insert` as written: `list.insert(index, node)` for each coerced node,
      last one first, each time with the original `index`. */
  function InsertAsWritten(s: seq<Node>, index: int, added: seq<Node>): (r: seq<Node>)
    ensures |r| == |s| + |added|
    decreases |added|
  {
    if added == [] then s
    else InsertAsWritten(ListInsert(s, index, added[|added| - 1]), index, added[..|added| - 1])
  }

  /** For an index from 0 to the length the written loop does what was
      meant: the nodes go in at `index`, in their own order. */
  lemma {:induction false} InsertAsWrittenInRange(s: seq<Node>, index: int, added: seq<Node>)
    requires 0 <= index <= |s|
    ensures InsertAsWritten(s, index, added) == s[..index] + added + s[index..]
    decreases |added|
  {
    if added != [] {
      var last, init := added[|added| - 1], added[..|added| - 1];
      var s' := ListInsert(s, index, last);
      assert s' == s[..index] + [last] + s[index..];
      InsertAsWrittenInRange(s', index, init);
      assert s'[..index] == s[..index];
      assert s'[index..] == [last] + s[index..];
      assert init + [last] == added;
    }
  }

  /** For `-len <= index < 0`, and for `index >= len + count - 1`, the
      position moves with each insertion and the nodes end up reversed:
      inserting `[x, y]` at -1 into `[a, b, c]` gives `[a, b, y, x, c]`,
      where `[a, b, x, y, c]` was meant; at 5 into `[a]` it gives
      `[a, y, x]`, where `[a, x, y]` was meant. */
  lemma InsertAsWrittenReverses()
    ensures
      var a, b, c, x, y := Text(1, "a"), Text(2, "b"), Text(3, "c"), Text(4, "x"), Text(5, "y");
      InsertAsWritten([a, b, c], -1, [x, y]) == [a, b, y, x, c] &&
      InsertionPoint(-1, 3) == 2 && [a, b, c][..2] + [x, y] + [a, b, c][2..] == [a, b, x, y, c] &&
      InsertAsWritten([a], 5, [x, y]) == [a, y, x] &&
      InsertionPoint(5, 1) == 1 && [a][..1] + [x, y] + [a][1..] == [a, x, y]
  {
    var a, b, c, x, y := Text(1, "a"), Text(2, "b"), Text(3, "c"), Text(4, "x"), Text(5, "y");
    assert [x, y][..1] == [x];
    assert [x][..0] == [];
    assert ListInsert([a, b, c], -1, y) == [a, b, y, c];
    assert ListInsert([a, b, y, c], -1, x) == [a, b, y, x, c];
    assert ListInsert([a], 5, y) == [a, y];
    assert ListInsert([a, y], 5, x) == [a, y, x];
    assert InsertAsWritten([a, b, y, x, c], -1, []) == [a, b, y, x, c];
    assert InsertAsWritten([a, b, y, c], -1, [x]) == [a, b, y, x, c];
    assert InsertAsWritten([a, b, c], -1, [x, y]) == [a, b, y, x, c];
    assert InsertAsWritten([a, y, x], 5, []) == [a, y, x];
    assert InsertAsWritten([a, y], 5, [x]) == [a, y, x];
  }

  /** An index so far below the start that it still resolves to 0 when the
      last node goes in, after all the others, keeps the nodes in order:
      they all go in at the front. That is the case for
      `index <= 1 - (len + count)`. */
  lemma {:induction false} InsertAsWrittenClamped(s: seq<Node>, index: int, added: seq<Node>)
    requires index + |s| + |added| <= 1
    ensures InsertAsWritten(s, index, added) == added + s
    decreases |added|
  {
    if added != [] {
      var last, init := added[|added| - 1], added[..|added| - 1];
      var s' := ListInsert(s, index, last);
      assert InsertionPoint(index, |s|) == 0;
      assert s' == [last] + s;
      InsertAsWrittenClamped(s', index, init);
      assert init + [last] == added;
    }
  }

  /** Between the two, for `1 - (len + count) < index < -len`: at -4 into
      `[a, b, c]`, the nodes `[x, y, z]` come out as `[y, x, z, a, b, c]`,
      neither in order nor reversed. With two nodes that band is empty. */
  lemma InsertAsWrittenMixed()
    ensures
      var a, b, c, x, y, z := Text(1, "a"), Text(2, "b"), Text(3, "c"), Text(4, "x"), Text(5, "y"), Text(6, "z");
      InsertAsWritten([a, b, c], -4, [x, y, z]) == [y, x, z, a, b, c]
  {
    var a, b, c, x, y, z := Text(1, "a"), Text(2, "b"), Text(3, "c"), Text(4, "x"), Text(5, "y"), Text(6, "z");
    assert [x, y, z][..2] == [x, y];
    assert [x, y][..1] == [x];
    assert [x][..0] == [];
    assert ListInsert([a, b, c], -4, z) == [z, a, b, c];
    assert ListInsert([z, a, b, c], -4, y) == [y, z, a, b, c];
    assert ListInsert([y, z, a, b, c], -4, x) == [y, x, z, a, b, c];
    assert InsertAsWritten([y, x, z, a, b, c], -4, []) == [y, x, z, a, b, c];
    assert InsertAsWritten([y, z, a, b, c], -4, [x]) == [y, x, z, a, b, c];
    assert InsertAsWritten([z, a, b, c], -4, [x, y]) == [y, x, z, a, b, c];
  }

  /** Past the end but below `len + count - 1` the order is mixed as well:
      the first `index - len + 1` steps append at the end, and the remaining
      nodes then go in at `index` in their own order. At 2 into `[a]`, the
      nodes `[x, y, z]` come out as `[a, z, x, y]`, where `[a, x, y, z]` was
      meant. */
  lemma InsertAsWrittenPastEndMixed()
    ensures
      var a, x, y, z := Text(1, "a"), Text(4, "x"), Text(5, "y"), Text(6, "z");
      InsertAsWritten([a], 2, [x, y, z]) == [a, z, x, y] &&
      InsertionPoint(2, 1) == 1 && [a][..1] + [x, y, z] + [a][1..] == [a, x, y, z]
  {
    var a, x, y, z := Text(1, "a"), Text(4, "x"), Text(5, "y"), Text(6, "z");
    assert [x, y, z][..2] == [x, y];
    assert [x, y][..1] == [x];
    assert [x][..0] == [];
    assert ListInsert([a], 2, z) == [a, z];
    assert ListInsert([a, z], 2, y) == [a, z, y];
    assert ListInsert([a, z, y], 2, x) == [a, z, x, y];
    assert InsertAsWritten([a, z, x, y], 2, []) == [a, z, x, y];
    assert InsertAsWritten([a, z, y], 2, [x]) == [a, z, x, y];
    assert InsertAsWritten([a, z], 2, [x, y]) == [a, z, x, y];
  }
}
