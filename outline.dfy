/** The debugging outline of a node list (wikicode.py, `_show_tree` and
    its inner `write`). The outline is built in a list of lines that may
    end with a marker; a write that finds the marker on top continues the
    line before it instead of starting a new one. */
module Outline {
  import opened Nodes
  import opened Descent

  /** An entry of the `lines` list: a line of text, or the marker object. */
  datatype Entry = Line(text: string) | Marker

  /** The state of `lines` after a step, and the exception it raised, if any. */
  datatype Run = Run(entries: seq<Entry>, failure: Option<Error>)

  /** Six spaces per nesting level. */
  function Indent(level: nat): string
  {
    if level == 0 then "" else "      " + Indent(level - 1)
  }

  /** No marker anywhere. */
  predicate NoMarker(e: seq<Entry>)
  {
    forall k :: 0 <= k < |e| ==> e[k].Line?
  }

  /** The shape `_show_tree` keeps: a marker, if any, is the last entry and
      directly follows a line of text. */
  predicate Clean(e: seq<Entry>)
  {
    (forall k :: 0 <= k < |e| - 1 ==> e[k].Line?) &&
    (|e| > 0 && e[|e| - 1] == Marker ==> |e| >= 2)
  }

  /** The finished lines of `e`: all of it, except that a marker on top
      and the line it would continue are still open. */
  function Kept(e: seq<Entry>): seq<Entry>
  {
    if |e| > 0 && e[|e| - 1] == Marker then
      (if |e| >= 2 then e[..|e| - 2] else [])
    else e
  }

  /** `write(text)`: with the marker on top, pop it and the line before it
      and push that line continued by `text` (one entry fewer); otherwise
      push `text` as a new line at the current indentation. The two
      failures are what Python does when the popped entries are not there
      or are not text; from a clean list neither happens, and a clean list
      is left without a marker. */
  function Write(e: seq<Entry>, text: string, indent: nat): (r: Run)
    ensures |e| >= 2 && e[|e| - 1] == Marker && e[|e| - 2].Line? ==>
              r == Run(e[..|e| - 2] + [Line(e[|e| - 2].text + text)], None) && |r.entries| == |e| - 1
    ensures (e == [] || e[|e| - 1] != Marker) ==>
              r == Run(e + [Line(Indent(indent) + text)], None) && |r.entries| == |e| + 1
    ensures Clean(e) ==> r.failure.None? && NoMarker(r.entries)
  {
    if |e| > 0 && e[|e| - 1] == Marker then
      var rest := e[..|e| - 1];
      if rest == [] then Run([], Some(IndexOutOfRange))
      else match rest[|rest| - 1]
        case Line(last) => Run(rest[..|rest| - 1] + [Line(last + text)], None)
        case Marker => Run(rest[..|rest| - 1], Some(TypeError))
    else Run(e + [Line(Indent(indent) + text)], None)
  }

  /** `_show_tree(code, lines, marker, indent)`: the outline of each node
      in turn, stopping at the first exception. */
  function TreeOutline(code: seq<Node>, e: seq<Entry>, indent: nat): (r: Run)
    ensures r.failure.None? ==> Kept(e) <= Kept(r.entries)
    decreases code, 1
  {
    if code == [] then Run(e, None)
    else
      var r := NodeOutline(code[0], e, indent);
      NodeKept(code[0], e, indent);
      if r.failure.Some? then r else TreeOutline(code[1..], r.entries, indent)
  }

  /** One node: a text node is written as is; a template writes `{{`, its
      name one level deeper, its parameters, then `}}`; any other node
      raises NotImplementedError. */
  function NodeOutline(n: Node, e: seq<Entry>, indent: nat): Run
    decreases n, 1
  {
    match n
    case Text(_, value) => Write(e, value, indent)
    case Other(_, _) => Run(e, Some(NotImplemented(n)))
    case Template(_, name, params) =>
      var r1 := Write(e, "{{", indent);
      if r1.failure.Some? then r1 else
      var r2 := TreeOutline(name, r1.entries, indent + 1);
      if r2.failure.Some? then r2 else
      var r3 := ParamsOutline(params, r2.entries, indent);
      if r3.failure.Some? then r3 else
      Write(r3.entries, "}}", indent)
  }

  /** The parameters of a template: for each, `    | ` and a marker, the
      name one level deeper, then `    = ` and a marker, the value one
      level deeper. The name is shown whether or not `showkey` is set. */
  function ParamsOutline(ps: seq<Param>, e: seq<Entry>, indent: nat): Run
    decreases ps, 1
  {
    if ps == [] then Run(e, None)
    else
      var r1 := Write(e, "    | ", indent);
      if r1.failure.Some? then r1 else
      var r2 := TreeOutline(ps[0].name, r1.entries + [Marker], indent + 1);
      if r2.failure.Some? then r2 else
      var r3 := Write(r2.entries, "    = ", indent);
      if r3.failure.Some? then r3 else
      var r4 := TreeOutline(ps[0].value, r3.entries + [Marker], indent + 1);
      if r4.failure.Some? then r4 else
      ParamsOutline(ps[1..], r4.entries, indent)
  }

  /** A successful write finishes everything that was finished before and
      adds one open line of text. */
  lemma WriteKept(e: seq<Entry>, text: string, indent: nat)
    ensures var r := Write(e, text, indent);
            r.failure.None? ==> |r.entries| > 0 && r.entries[..|r.entries| - 1] == Kept(e) &&
                                r.entries[|r.entries| - 1].Line? && Kept(r.entries) == r.entries
  {
  }

  /** One node's outline leaves the finished lines as they were. */
  lemma {:induction false} NodeKept(n: Node, e: seq<Entry>, indent: nat)
    ensures var r := NodeOutline(n, e, indent);
            r.failure.None? ==> Kept(e) <= Kept(r.entries)
    decreases n, 2
  {
    match n
    case Text(_, value) =>
      WriteKept(e, value, indent);
    case Other(_, _) =>
    case Template(_, name, params) =>
      var r1 := Write(e, "{{", indent);
      WriteKept(e, "{{", indent);
      if r1.failure.None? {
        var r2 := TreeOutline(name, r1.entries, indent + 1);
        if r2.failure.None? {
          ParamsKept(params, r2.entries, indent);
          var r3 := ParamsOutline(params, r2.entries, indent);
          if r3.failure.None? {
            WriteKept(r3.entries, "}}", indent);
          }
        }
      }
  }

  /** The parameters' outline leaves the finished lines as they were: the
      line a pushed marker continues is one it wrote itself. */
  lemma {:induction false} ParamsKept(ps: seq<Param>, e: seq<Entry>, indent: nat)
    ensures var r := ParamsOutline(ps, e, indent);
            r.failure.None? ==> Kept(e) <= Kept(r.entries)
    decreases ps, 2
  {
    if ps != [] {
      HalfKept(ps[0].name, e, "    | ", indent);
      var r1 := Write(e, "    | ", indent);
      if r1.failure.None? {
        var r2 := TreeOutline(ps[0].name, r1.entries + [Marker], indent + 1);
        if r2.failure.None? {
          HalfKept(ps[0].value, r2.entries, "    = ", indent);
          var r3 := Write(r2.entries, "    = ", indent);
          if r3.failure.None? {
            var r4 := TreeOutline(ps[0].value, r3.entries + [Marker], indent + 1);
            if r4.failure.None? {
              ParamsKept(ps[1..], r4.entries, indent);
            }
          }
        }
      }
    }
  }

  /** One half of a parameter: a delimiter line, the marker, and the name
      or value continuing it. */
  lemma HalfKept(code: seq<Node>, e: seq<Entry>, text: string, indent: nat)
    ensures var r1 := Write(e, text, indent);
            r1.failure.None? ==>
              var r2 := TreeOutline(code, r1.entries + [Marker], indent + 1);
              r2.failure.None? ==> Kept(e) <= Kept(r2.entries)
    decreases code, 2
  {
    var r1 := Write(e, text, indent);
    WriteKept(e, text, indent);
    if r1.failure.None? {
      assert Kept(r1.entries + [Marker]) == Kept(e);
    }
  }

  /** Every node the outline visits is a text node or a template. */
  predicate Renderable(n: Node)
    decreases n
  {
    match n
    case Text(_, _) => true
    case Other(_, _) => false
    case Template(_, name, params) => RenderableCode(name) && RenderableParams(params)
  }

  predicate RenderableParams(ps: seq<Param>)
    decreases ps
  {
    ps == [] ||
    (RenderableCode(ps[0].name) && RenderableCode(ps[0].value) && RenderableParams(ps[1..]))
  }

  predicate RenderableCode(code: seq<Node>)
    decreases code
  {
    code == [] || (Renderable(code[0]) && RenderableCode(code[1..]))
  }

  /** The `lines` list that `_show_tree` appends to. */
  class Lines {
    var entries: seq<Entry>

    constructor ()
      ensures entries == []
    {
      entries := [];
    }
  }

  /** The inner `write` of `_show_tree`, on the shared list. */
  method WriteLine(lines: Lines, text: string, indent: nat) returns (failure: Option<Error>)
    modifies lines
    ensures Run(lines.entries, failure) == Write(old(lines.entries), text, indent)
  {
    var n := |lines.entries|;
    if n > 0 && lines.entries[n - 1] == Marker {
      lines.entries := lines.entries[..n - 1];  // remove the marker
      if n == 1 {
        return Some(IndexOutOfRange);
      }
      var last := lines.entries[n - 2];
      lines.entries := lines.entries[..n - 2];
      match last
      case Marker =>
        return Some(TypeError);
      case Line(t) =>
        lines.entries := lines.entries + [Line(t + text)];
        return None;
    } else {
      lines.entries := lines.entries + [Line(Indent(indent) + text)];
      return None;
    }
  }

  /** `_show_tree`: appends the outline of `code` to `lines`, exactly as
      `TreeOutline` describes, including where it stops on an exception. */
  method ShowTree(code: seq<Node>, lines: Lines, indent: nat) returns (failure: Option<Error>)
    modifies lines
    ensures Run(lines.entries, failure) == TreeOutline(code, old(lines.entries), indent)
    decreases code
  {
    var i := 0;
    while i < |code|
      invariant 0 <= i <= |code|
      invariant TreeOutline(code, old(lines.entries), indent) == TreeOutline(code[i..], lines.entries, indent)
    {
      var node := code[i];
      assert code[i..][1..] == code[i + 1..];
      match node {
        case Text(_, value) =>
          failure := WriteLine(lines, value, indent);
          if failure.Some? { return; }
        case Other(_, _) =>
          return Some(NotImplemented(node));
        case Template(_, name, params) =>
          failure := WriteLine(lines, "{{", indent);
          if failure.Some? { return; }
          failure := ShowTree(name, lines, indent + 1);
          if failure.Some? { return; }
          ghost var afterName := lines.entries;
          var j := 0;
          while j < |params|
            invariant 0 <= j <= |params|
            invariant ParamsOutline(params, afterName, indent) == ParamsOutline(params[j..], lines.entries, indent)
          {
            var param := params[j];
            assert params[j..][1..] == params[j + 1..];
            failure := WriteLine(lines, "    | ", indent);
            if failure.Some? { return; }
            lines.entries := lines.entries + [Marker];  // continue from this line
            failure := ShowTree(param.name, lines, indent + 1);
            if failure.Some? { return; }
            failure := WriteLine(lines, "    = ", indent);
            if failure.Some? { return; }
            lines.entries := lines.entries + [Marker];  // continue from this line
            failure := ShowTree(param.value, lines, indent + 1);
            if failure.Some? { return; }
            j := j + 1;
          }
          failure := WriteLine(lines, "}}", indent);
          if failure.Some? { return; }
      }
      i := i + 1;
    }
    failure := None;
  }

  /** From a clean list (in particular the empty list `show_tree` starts
      from), the outline fails exactly when it meets a node that is
      neither text nor a template, and then only with NotImplementedError;
      when it succeeds the list is clean again, and after at least one
      node it holds no marker at all. */
  lemma {:induction false} OutlineClean(code: seq<Node>, e: seq<Entry>, indent: nat)
    requires Clean(e)
    ensures var r := TreeOutline(code, e, indent);
            (r.failure.None? <==> RenderableCode(code)) &&
            (r.failure.Some? ==> r.failure.value.NotImplemented?) &&
            (r.failure.None? ==> Clean(r.entries) && (code != [] ==> NoMarker(r.entries)))
    decreases code
  {
    if code != [] {
      NodeClean(code[0], e, indent);
      var r := NodeOutline(code[0], e, indent);
      if r.failure.None? {
        OutlineClean(code[1..], r.entries, indent);
      }
    }
  }

  lemma {:induction false} NodeClean(n: Node, e: seq<Entry>, indent: nat)
    requires Clean(e)
    ensures var r := NodeOutline(n, e, indent);
            (r.failure.None? <==> Renderable(n)) &&
            (r.failure.Some? ==> r.failure.value.NotImplemented?) &&
            (r.failure.None? ==> NoMarker(r.entries))
    decreases n
  {
    match n
    case Text(_, _) =>
    case Other(_, _) =>
    case Template(_, name, params) =>
      var r1 := Write(e, "{{", indent);
      OutlineClean(name, r1.entries, indent + 1);
      var r2 := TreeOutline(name, r1.entries, indent + 1);
      if r2.failure.None? {
        ParamsClean(params, r2.entries, indent);
      }
  }

  lemma {:induction false} ParamsClean(ps: seq<Param>, e: seq<Entry>, indent: nat)
    requires Clean(e)
    ensures var r := ParamsOutline(ps, e, indent);
            (r.failure.None? <==> RenderableParams(ps)) &&
            (r.failure.Some? ==> r.failure.value.NotImplemented?) &&
            (r.failure.None? ==> Clean(r.entries))
    decreases ps
  {
    if ps != [] {
      var r1 := Write(e, "    | ", indent);
      var m1 := r1.entries + [Marker];
      MarkedClean(e, "    | ", indent);
      OutlineClean(ps[0].name, m1, indent + 1);
      var r2 := TreeOutline(ps[0].name, m1, indent + 1);
      if r2.failure.None? {
        var r3 := Write(r2.entries, "    = ", indent);
        var m3 := r3.entries + [Marker];
        MarkedClean(r2.entries, "    = ", indent);
        OutlineClean(ps[0].value, m3, indent + 1);
        var r4 := TreeOutline(ps[0].value, m3, indent + 1);
        if r4.failure.None? {
          ParamsClean(ps[1..], r4.entries, indent);
        }
      }
    }
  }

  /** A write onto a clean list, followed by the marker, leaves a clean
      list: the step `_show_tree` takes before a parameter's name or value. */
  lemma MarkedClean(e: seq<Entry>, text: string, indent: nat)
    requires Clean(e)
    ensures Write(e, text, indent).failure.None?
    ensures Clean(Write(e, text, indent).entries + [Marker])
  {
    var w := Write(e, text, indent).entries;
    assert |w| > 0 by {
      if |e| > 0 && e[|e| - 1] == Marker {
        assert |w| == |e| - 1;
      }
    }
  }

  /** A list that holds no marker on entry holds none when the outline
      returns. */
  lemma NoMarkerLeft(code: seq<Node>, e: seq<Entry>, indent: nat)
    requires NoMarker(e)
    ensures var r := TreeOutline(code, e, indent);
            r.failure.None? ==> NoMarker(r.entries)
  {
    OutlineClean(code, e, indent);
    if code == [] {
      assert TreeOutline(code, e, indent).entries == e;
    }
  }

  /** Everything the recursive walk reaches in a node list that the outline
      can show is a text node or a template; the outline fails on any other
      node that the walk reaches. */
  lemma {:induction false} RenderableWalk(code: seq<Node>)
    requires RenderableCode(code)
    ensures forall k :: 0 <= k < |AllNodes(code)| ==> !AllNodes(code)[k].Other?
    decreases code
  {
    if code != [] {
      RenderableChildren(code[0]);
      RenderableWalk(code[1..]);
      var c: seq<Node>, rest: seq<Node> := Children(code[0]), AllNodes(code[1..]);
      assert AllNodes(code) == c + rest;
      forall k | 0 <= k < |c + rest|
        ensures !(c + rest)[k].Other?
      {
        if k >= |c| {
          assert (c + rest)[k] == rest[k - |c|];
        }
      }
    }
  }

  lemma {:induction false} RenderableChildren(n: Node)
    requires Renderable(n)
    ensures forall k :: 0 <= k < |Children(n)| ==> !Children(n)[k].Other?
    decreases n
  {
    match n
    case Text(_, _) =>
    case Template(_, name, params) =>
      RenderableWalk(name);
      RenderableParamWalk(params);
      var a: seq<Node>, b: seq<Node> := AllNodes(name), ParamChildren(params);
      assert Children(n) == [n] + a + b;
      forall k | 0 <= k < |[n] + a + b|
        ensures !([n] + a + b)[k].Other?
      {
        if 1 <= k < 1 + |a| {
          assert ([n] + a + b)[k] == a[k - 1];
        } else if k >= 1 + |a| {
          assert ([n] + a + b)[k] == b[k - 1 - |a|];
        }
      }
  }

  lemma {:induction false} RenderableParamWalk(ps: seq<Param>)
    requires RenderableParams(ps)
    ensures forall k :: 0 <= k < |ParamChildren(ps)| ==> !ParamChildren(ps)[k].Other?
    decreases ps
  {
    if ps != [] {
      RenderableWalk(ps[0].name);
      RenderableWalk(ps[0].value);
      RenderableParamWalk(ps[1..]);
      var a: seq<Node> := if ps[0].showkey then AllNodes(ps[0].name) else [];
      var b: seq<Node>, c: seq<Node> := AllNodes(ps[0].value), ParamChildren(ps[1..]);
      assert ParamChildren(ps) == a + b + c;
      forall k | 0 <= k < |a + b + c|
        ensures !(a + b + c)[k].Other?
      {
        if k < |a| {
          assert (a + b + c)[k] == a[k];
        } else if k < |a| + |b| {
          assert (a + b + c)[k] == b[k - |a|];
        } else {
          assert (a + b + c)[k] == c[k - |a| - |b|];
        }
      }
    }
  }

  /** The outline of `{{a|b=c}}` from an empty list: the delimiters `| `
      and `= ` are continued by the parameter's name and value, while the
      closing `}}` starts a line of its own. */
  lemma OutlineExample()
    ensures
      var t := Template(1, [Text(2, "a")], [Param([Text(3, "b")], [Text(4, "c")], true)]);
      TreeOutline([t], [], 0) ==
        Run([Line("{{"), Line("      a"), Line("    | b"), Line("    = c"), Line("}}")], None)
  {
    var t := Template(1, [Text(2, "a")], [Param([Text(3, "b")], [Text(4, "c")], true)]);
    var e1 := [Line("{{")];
    assert Indent(0) + "{{" == "{{";
    assert Write([], "{{", 0) == Run(e1, None);
    var e2 := [Line("{{"), Line("      a")];
    assert Indent(1) == "      ";
    assert TreeOutline([], e2, 1) == Run(e2, None);
    assert Indent(1) + "a" == "      a";
    assert Write(e1, "a", 1) == Run(e2, None);
    assert TreeOutline([Text(2, "a")], e1, 1) == Run(e2, None);
    var e6 := [Line("{{"), Line("      a"), Line("    | b"), Line("    = c")];
    ParamExample();
    assert Indent(0) + "}}" == "}}";
    assert NodeOutline(t, [], 0) == Run(e6 + [Line("}}")], None);
  }

  /** The parameter `b=c` of that template, after the lines `{{` and
      `      a`: each delimiter line is continued by what follows it. */
  lemma ParamExample()
    ensures ParamsOutline([Param([Text(3, "b")], [Text(4, "c")], true)], [Line("{{"), Line("      a")], 0) ==
              Run([Line("{{"), Line("      a"), Line("    | b"), Line("    = c")], None)
  {
    var ps := [Param([Text(3, "b")], [Text(4, "c")], true)];
    var e2 := [Line("{{"), Line("      a")];
    var e3 := e2 + [Line("    | "), Marker];
    assert Indent(0) + "    | " == "    | ";
    assert Write(e2, "    | ", 0).entries + [Marker] == e3;
    var e4 := [Line("{{"), Line("      a"), Line("    | b")];
    assert "    | " + "b" == "    | b";
    assert e3[..|e3| - 2] == e2;
    assert Write(e3, "b", 1) == Run(e4, None);
    assert TreeOutline([], e4, 1) == Run(e4, None);
    assert TreeOutline([Text(3, "b")], e3, 1) == Run(e4, None);
    var e5 := e4 + [Line("    = "), Marker];
    assert Indent(0) + "    = " == "    = ";
    assert Write(e4, "    = ", 0).entries + [Marker] == e5;
    var e6 := [Line("{{"), Line("      a"), Line("    | b"), Line("    = c")];
    assert "    = " + "c" == "    = c";
    assert e5[..|e5| - 2] == e4;
    assert Write(e5, "c", 1) == Run(e6, None);
    assert TreeOutline([], e6, 1) == Run(e6, None);
    assert TreeOutline([Text(4, "c")], e5, 1) == Run(e6, None);
    assert ps[1..] == [];
  }

  /** When the last parameter's value is empty, the marker pushed after
      `    = ` is still on top when `}}` is written, so `}}` continues that
      line: `{{a|b=}}` outlines as `{{`, `      a`, `    | b`, `    = }}`. */
  lemma EmptyValueExample()
    ensures
      var t := Template(1, [Text(2, "a")], [Param([Text(3, "b")], [], true)]);
      TreeOutline([t], [], 0) ==
        Run([Line("{{"), Line("      a"), Line("    | b"), Line("    = }}")], None)
  {
    var t := Template(1, [Text(2, "a")], [Param([Text(3, "b")], [], true)]);
    var e6 := [Line("{{"), Line("      a"), Line("    | b"), Line("    = }}")];
    EmptyValueNodeExample();
    assert TreeOutline([], e6, 0) == Run(e6, None);
  }

  /** The template `{{a|b=}}` itself. */
  lemma EmptyValueNodeExample()
    ensures NodeOutline(Template(1, [Text(2, "a")], [Param([Text(3, "b")], [], true)]), [], 0) ==
              Run([Line("{{"), Line("      a"), Line("    | b"), Line("    = }}")], None)
  {
    var e1 := [Line("{{")];
    assert Indent(0) + "{{" == "{{";
    assert Write([], "{{", 0) == Run(e1, None);
    NameLineExample();
    var e4 := [Line("{{"), Line("      a"), Line("    | b")];
    var e5 := e4 + [Line("    = "), Marker];
    EmptyValueParamExample();
    assert "    = " + "}}" == "    = }}";
    assert e5[..|e5| - 2] == e4;
    assert Write(e5, "}}", 0) == Run(e4 + [Line("    = }}")], None);
  }

  /** The name `a` one level deeper after `{{`. */
  lemma NameLineExample()
    ensures TreeOutline([Text(2, "a")], [Line("{{")], 1) == Run([Line("{{"), Line("      a")], None)
  {
    var e1 := [Line("{{")];
    var e2 := [Line("{{"), Line("      a")];
    assert Indent(1) == "      ";
    assert TreeOutline([], e2, 1) == Run(e2, None);
    assert Indent(1) + "a" == "      a";
    assert Write(e1, "a", 1) == Run(e2, None);
  }

  /** The parameter `b=` of that template leaves the marker after `    = `
      on top. */
  lemma EmptyValueParamExample()
    ensures ParamsOutline([Param([Text(3, "b")], [], true)], [Line("{{"), Line("      a")], 0) ==
              Run([Line("{{"), Line("      a"), Line("    | b"), Line("    = "), Marker], None)
  {
    var ps := [Param([Text(3, "b")], [], true)];
    var e2 := [Line("{{"), Line("      a")];
    var e3 := e2 + [Line("    | "), Marker];
    assert Indent(0) + "    | " == "    | ";
    assert Write(e2, "    | ", 0).entries + [Marker] == e3;
    var e4 := [Line("{{"), Line("      a"), Line("    | b")];
    assert "    | " + "b" == "    | b";
    assert e3[..|e3| - 2] == e2;
    assert Write(e3, "b", 1) == Run(e4, None);
    assert TreeOutline([], e4, 1) == Run(e4, None);
    assert TreeOutline([Text(3, "b")], e3, 1) == Run(e4, None);
    var e5 := e4 + [Line("    = "), Marker];
    assert Indent(0) + "    = " == "    = ";
    assert Write(e4, "    = ", 0).entries + [Marker] == e5;
    assert TreeOutline([], e5, 1) == Run(e5, None);
    assert ps[1..] == [];
  }
}
