/** The `Wikicode` container (wikicode.py): an ordered, mutable list of
    nodes with identity-based lookup, list edits that coerce their input,
    and filtered iteration. */
module Wikicode {
  import opened Nodes
  import opened Descent
  import opened Search
  import opened Filtering

  /** What `_nodify` is given: another container (its nodes), a single
      node, text to be parsed, or a value of any other type. */
  datatype Value =
    | CodeValue(code: seq<Node>)
    | NodeValue(node: Node)
    | TextValue(text: string)
    | OtherValue(typeName: string)

  /** The position Python's `lst[index]` addresses, for an index that is in
      range: negative indexes count from the end. */
  function Slot(index: int, len: nat): (k: nat)
    requires -(len as int) <= index < len
    ensures k < len
  {
    if index < 0 then len + index else index
  }

  /** Where Python's `lst.insert(index, x)` puts `x`: negative indexes
      count from the end, and positions beyond either end are clamped. */
  function InsertionPoint(index: int, len: nat): (p: nat)
    ensures p <= len
    ensures 0 <= index <= len ==> p == index
    ensures -(len as int) <= index < 0 ==> p == len + index
  {
    if index < 0 then (if len + index < 0 then 0 else len + index)
    else if index > len then len
    else index
  }

  /** Python's `lst.insert(index, x)`. */
  function ListInsert(s: seq<Node>, index: int, x: Node): (r: seq<Node>)
    ensures |r| == |s| + 1 && r[InsertionPoint(index, |s|)] == x
  {
    var p := InsertionPoint(index, |s|);
    s[..p] + [x] + s[p..]
  }

  /** Inserting right after `front` puts `x` at the head of `mid`. */
  lemma InsertAtSeam(front: seq<Node>, mid: seq<Node>, back: seq<Node>, x: Node)
    ensures ListInsert(front + mid + back, |front|, x) == front + ([x] + mid) + back
  {
    var s := front + mid + back;
    assert s[..|front|] == front;
    assert s[|front|..] == mid + back;
  }

  /** Replacing the element at `k` keeps the length and every other
      position. */
  lemma ReplaceSlot(s: seq<Node>, k: nat, x: Node)
    requires k < |s|
    ensures var t := s[..k] + [x] + s[k + 1..];
            |t| == |s| && t[k] == x && forall j :: 0 <= j < |t| && j != k ==> t[j] == s[j]
  {
  }

  class Wikicode {
    var nodes: seq<Node>
    /** `mwparserfromhell.parse`, the external parser `_nodify` uses for
        text; its grammar is not part of this model. */
    const parse: string -> seq<Node>

    constructor (nodes: seq<Node>, parse: string -> seq<Node>)
      ensures this.nodes == nodes && this.parse == parse
    {
      this.nodes := nodes;
      this.parse := parse;
    }

    /** `_nodify`: a container gives its nodes, a node gives itself, text
        gives the nodes the parser makes of it, and any other value is
        refused with a ValueError that names its type. */
    function Nodify(value: Value): (r: Result<seq<Node>>)
      ensures r.Failure? <==> value.OtherValue?
      ensures r.Failure? ==> r.error == BadValue(value.typeName)
      ensures value.CodeValue? ==> r == Success(value.code)
      ensures value.NodeValue? ==> r == Success([value.node])
      ensures value.TextValue? ==> r == Success(parse(value.text))
    {
      match value
      case CodeValue(code) => Success(code)
      case NodeValue(node) => Success([node])
      case TextValue(text) => Success(parse(text))
      case OtherValue(typeName) => Failure(BadValue(typeName))
    }

    /** `get`: the node at `index`, negative indexes counting from the end;
        an IndexError outside `-len <= index < len`. */
    function Get(index: int): (r: Result<Node>)
      reads this
      ensures r.Success? <==> -|nodes| <= index < |nodes|
      ensures r.Success? && index >= 0 ==> r.value == nodes[index]
      ensures r.Success? && index < 0 ==> r.value == nodes[|nodes| + index]
      ensures r.Failure? ==> r.error == IndexOutOfRange
    {
      if -|nodes| <= index < |nodes| then Success(nodes[Slot(index, |nodes|)])
      else Failure(IndexOutOfRange)
    }

    /** `set`: checks before it changes anything; the value must coerce to
        at most one node and the index must be in range. The slot then holds
        the new node (the length is unchanged), or is removed when the value
        coerces to no node at all. */
    method Set(index: int, value: Value) returns (r: Outcome)
      modifies this
      ensures var c := Nodify(value);
              if c.Failure? then r == Fail(c.error) && nodes == old(nodes)
              else if |c.value| > 1 then r == Fail(MultipleNodes) && nodes == old(nodes)
              else if !(-|old(nodes)| <= index < |old(nodes)|) then r == Fail(IndexOutOfRange) && nodes == old(nodes)
              else r == Pass &&
                   var k := Slot(index, |old(nodes)|);
                   nodes == old(nodes)[..k] + c.value + old(nodes)[k + 1..]
      ensures r.Pass? && |Nodify(value).value| == 1 ==>
                |nodes| == |old(nodes)| && Get(index) == Success(Nodify(value).value[0]) &&
                forall j :: 0 <= j < |nodes| && j != Slot(index, |nodes|) ==> nodes[j] == old(nodes)[j]
    {
      var coerced := Nodify(value);
      if coerced.Failure? {
        return Fail(coerced.error);
      }
      if |coerced.value| > 1 {
        return Fail(MultipleNodes);
      }
      if index >= |nodes| || -1 * index > |nodes| {
        return Fail(IndexOutOfRange);
      }
      var k := Slot(index, |nodes|);
      var popped := nodes[..k] + nodes[k + 1..];
      if coerced.value != [] {
        ReplaceSlot(nodes, k, coerced.value[0]);
        assert popped[..k] + [coerced.value[0]] + popped[k..] == nodes[..k] + coerced.value + nodes[k + 1..];
        popped := popped[..k] + [coerced.value[0]] + popped[k..];
      }
      nodes := popped;
      return Pass;
    }

    /** `index`: the position of the first direct node that is `obj`
        itself, or, when `recursive`, of the first direct node that is `obj`
        or contains it; a ValueError when there is none. A node with equal
        contents but another identity is never matched. */
    method Index(obj: Node, recursive: bool) returns (r: Result<nat>)
      ensures !recursive ==> r == (match Position(nodes, obj)
                                   case Some(k) => Success(k)
                                   case None => Failure(NodeNotFound))
      ensures recursive ==> r == (match Owner(nodes, obj)
                                  case Some(k) => Success(k)
                                  case None => Failure(NodeNotFound))
    {
      if recursive {
        r := DoRecursiveIndex(obj);
        return;
      }
      var i := 0;
      while i < |nodes|
        invariant 0 <= i <= |nodes|
        invariant forall j :: 0 <= j < i ==> !Same(nodes[j], obj)
      {
        if Same(nodes[i], obj) {
          return Success(i);
        }
        i := i + 1;
      }
      return Failure(NodeNotFound);
    }

    /** `_do_recursive_index`: walks the descendants of each direct node in
        turn and answers the position of the first one among whose
        descendants `obj` itself appears. */
    method DoRecursiveIndex(obj: Node) returns (r: Result<nat>)
      ensures r.Success? ==> r.value < |nodes| && Has(Children(nodes[r.value]), obj) &&
                             forall j :: 0 <= j < r.value ==> !Has(Children(nodes[j]), obj)
      ensures r.Failure? ==> r.error == NodeNotFound && !Has(AllNodes(nodes), obj) &&
                             forall j :: 0 <= j < |nodes| ==> !Has(Children(nodes[j]), obj)
    {
      var i := 0;
      while i < |nodes|
        invariant 0 <= i <= |nodes|
        invariant forall j :: 0 <= j < i ==> !Has(Children(nodes[j]), obj)
      {
        var children := Children(nodes[i]);
        var k := 0;
        while k < |children|
          invariant 0 <= k <= |children|
          invariant forall m :: 0 <= m < k ==> !Same(children[m], obj)
        {
          if Same(children[k], obj) {
            return Success(i);
          }
          k := k + 1;
        }
        i := i + 1;
      }
      HasAllNodes(nodes, obj);
      return Failure(NodeNotFound);
    }

    /** `insert`: the coerced nodes go in at the position `list.insert`
        gives `index`, in their own order, and everything from there on
        moves right; a value that cannot be coerced changes nothing. */
    method Insert(index: int, value: Value) returns (r: Outcome)
      modifies this
      ensures Nodify(value).Failure? ==> r == Fail(Nodify(value).error) && nodes == old(nodes)
      ensures Nodify(value).Success? ==>
                r == Pass &&
                var p := InsertionPoint(index, |old(nodes)|);
                nodes == old(nodes)[..p] + Nodify(value).value + old(nodes)[p..]
    {
      var coerced := Nodify(value);
      if coerced.Failure? {
        return Fail(coerced.error);
      }
      var added := coerced.value;
      var p := InsertionPoint(index, |nodes|);
      var k := |added|;
      while k > 0
        invariant 0 <= k <= |added|
        invariant nodes == old(nodes)[..p] + added[k..] + old(nodes)[p..]
      {
        k := k - 1;
        InsertAtSeam(old(nodes)[..p], added[k + 1..], old(nodes)[p..], added[k]);
        assert [added[k]] + added[k + 1..] == added[k..];
        nodes := ListInsert(nodes, p, added[k]);
      }
      return Pass;
    }

    /** `insert_before`: a KeyError, and no change, unless `obj` itself is
        a direct node; otherwise the coerced nodes go in just before it. */
    method InsertBefore(obj: Node, value: Value) returns (r: Outcome)
      modifies this
      ensures Position(old(nodes), obj).None? ==> r == Fail(KeyNotFound) && nodes == old(nodes)
      ensures Position(old(nodes), obj).Some? && Nodify(value).Failure? ==>
                r == Fail(Nodify(value).error) && nodes == old(nodes)
      ensures Position(old(nodes), obj).Some? && Nodify(value).Success? ==>
                r == Pass &&
                var k := Position(old(nodes), obj).value;
                nodes == old(nodes)[..k] + Nodify(value).value + old(nodes)[k..]
    {
      var i := Index(obj, false);
      if i.Failure? {
        return Fail(KeyNotFound);
      }
      r := Insert(i.value, value);
    }

    /** `insert_after`: a KeyError, and no change, unless `obj` itself is
        a direct node; otherwise the coerced nodes go in just after it. */
    method InsertAfter(obj: Node, value: Value) returns (r: Outcome)
      modifies this
      ensures Position(old(nodes), obj).None? ==> r == Fail(KeyNotFound) && nodes == old(nodes)
      ensures Position(old(nodes), obj).Some? && Nodify(value).Failure? ==>
                r == Fail(Nodify(value).error) && nodes == old(nodes)
      ensures Position(old(nodes), obj).Some? && Nodify(value).Success? ==>
                r == Pass &&
                var k := Position(old(nodes), obj).value + 1;
                nodes == old(nodes)[..k] + Nodify(value).value + old(nodes)[k..]
    {
      var i := Index(obj, false);
      if i.Failure? {
        return Fail(KeyNotFound);
      }
      r := Insert(i.value + 1, value);
    }

    /** `append`: the coerced nodes go at the end, in their own order. */
    method Append(value: Value) returns (r: Outcome)
      modifies this
      ensures Nodify(value).Failure? ==> r == Fail(Nodify(value).error) && nodes == old(nodes)
      ensures Nodify(value).Success? ==> r == Pass && nodes == old(nodes) + Nodify(value).value
    {
      var coerced := Nodify(value);
      if coerced.Failure? {
        return Fail(coerced.error);
      }
      var added := coerced.value;
      for k := 0 to |added|
        invariant nodes == old(nodes) + added[..k]
      {
        assert added[..k + 1] == added[..k] + [added[k]];
        nodes := nodes + [added[k]];
      }
      assert added[..|added|] == added;
      return Pass;
    }

    /** `remove`: deletes the first direct node that is `node` itself; all
        other nodes keep their order. A ValueError, and no change, when
        there is none. */
    method Remove(node: Node) returns (r: Outcome)
      modifies this
      ensures Position(old(nodes), node).None? ==> r == Fail(NodeNotFound) && nodes == old(nodes)
      ensures Position(old(nodes), node).Some? ==>
                r == Pass && |nodes| == |old(nodes)| - 1 &&
                var k := Position(old(nodes), node).value;
                nodes == old(nodes)[..k] + old(nodes)[k + 1..]
    {
      var i := Index(node, false);
      if i.Failure? {
        return Fail(i.error);
      }
      nodes := nodes[..i.value] + nodes[i.value + 1..];
      return Pass;
    }

    /** `filter` (and the generator `ifilter`): the walked nodes, direct or
        recursive, that are of `forcetype` and match the pattern, when
        those are given. The result keeps the order of the walk, and with
        neither a type nor a pattern it is the whole walk. */
    function Filter(recursive: bool, matches: Option<Pattern>, forcetype: Option<Kind>): (r: seq<Node>)
      reads this
      ensures IsSubsequence(r, Source(nodes, recursive))
      ensures forall k :: 0 <= k < |r| ==> Keep(r[k], matches, forcetype)
      ensures forall k :: 0 <= k < |Source(nodes, recursive)| && Keep(Source(nodes, recursive)[k], matches, forcetype) ==>
                Source(nodes, recursive)[k] in r
      ensures forall n :: multiset(r)[n] ==
                          (if Keep(n, matches, forcetype) then multiset(Source(nodes, recursive))[n] else 0)
      ensures matches.None? && forcetype.None? ==> r == Source(nodes, recursive)
    {
      var source := Source(nodes, recursive);
      SelectIsSubsequence(source, matches, forcetype);
      SelectCounts(source, matches, forcetype);
      SelectAll(source);
      Select(source, matches, forcetype)
    }

    /** `filter_templates`: `filter` restricted to templates; every walked
        template that matches is returned, as often as it is walked. */
    function FilterTemplates(recursive: bool, matches: Option<Pattern>): (r: seq<Node>)
      reads this
      ensures IsSubsequence(r, Source(nodes, recursive))
      ensures forall k :: 0 <= k < |r| ==> r[k].Template?
      ensures forall n :: multiset(r)[n] ==
                          (if n.Template? && (matches.None? || matches.value(Render(n)))
                           then multiset(Source(nodes, recursive))[n] else 0)
    {
      Filter(recursive, matches, Some(TemplateKind))
    }

    /** `filter_text`: `filter` restricted to text nodes; every walked text
        node that matches is returned, as often as it is walked. */
    function FilterText(recursive: bool, matches: Option<Pattern>): (r: seq<Node>)
      reads this
      ensures IsSubsequence(r, Source(nodes, recursive))
      ensures forall k :: 0 <= k < |r| ==> r[k].Text?
      ensures forall n :: multiset(r)[n] ==
                          (if n.Text? && (matches.None? || matches.value(Render(n)))
                           then multiset(Source(nodes, recursive))[n] else 0)
    {
      Filter(recursive, matches, Some(TextKind))
    }
  }
}
