/** The node values a wikicode container holds, the outcome types of its
    operations, and two notions used throughout: node identity and
    order-preserving subsequences. */
module Nodes {

  /** A syntax node. Every node carries an `id` that stands for the
      identity of the Python object: two nodes are the same node exactly
      when their ids agree, never because their contents agree. A node of
      any kind other than Text or Template (a heading, a link, a tag, ...)
      is an `Other` node that keeps only its rendered markup. */
  datatype Node =
    | Text(id: nat, value: string)
    | Template(id: nat, name: seq<Node>, params: seq<Param>)
    | Other(id: nat, markup: string)

  /** A template parameter: its name and value are nested node lists, and
      `showkey` says whether the name was written out (`key=value`) or the
      parameter is positional. */
  datatype Param = Param(name: seq<Node>, value: seq<Node>, showkey: bool)

  /** The node classes a filter can be restricted to. */
  datatype Kind = TextKind | TemplateKind | OtherKind

  predicate IsInstance(n: Node, k: Kind)
  {
    match k
    case TextKind => n.Text?
    case TemplateKind => n.Template?
    case OtherKind => n.Other?
  }

  /** Python's `is`: identity, not equality of contents. */
  predicate Same(a: Node, b: Node)
  {
    a.id == b.id
  }

  /** Some element of `s` is the very node `obj`. */
  predicate Has(s: seq<Node>, obj: Node)
  {
    exists k :: 0 <= k < |s| && Same(s[k], obj)
  }

  lemma HasAppend(a: seq<Node>, b: seq<Node>, obj: Node)
    ensures Has(a + b, obj) <==> Has(a, obj) || Has(b, obj)
  {
    if Has(a + b, obj) {
      var k :| 0 <= k < |a + b| && Same((a + b)[k], obj);
      if k >= |a| {
        assert Same(b[k - |a|], obj);
      }
    }
    if Has(a, obj) {
      var k :| 0 <= k < |a| && Same(a[k], obj);
      assert Same((a + b)[k], obj);
    }
    if Has(b, obj) {
      var k :| 0 <= k < |b| && Same(b[k], obj);
      assert Same((a + b)[k + |a|], obj);
    }
  }

  /** The wikitext a node stands for. Text renders as its value and a
      template as `{{name|key=value|value}}`. */
  function Render(n: Node): string
    decreases n
  {
    match n
    case Text(_, value) => value
    case Template(_, name, params) => "{{" + RenderCode(name) + RenderParams(params) + "}}"
    case Other(_, markup) => markup
  }

  function RenderParams(ps: seq<Param>): string
    decreases ps
  {
    if ps == [] then ""
    else
      "|" + (if ps[0].showkey then RenderCode(ps[0].name) + "=" else "")
      + RenderCode(ps[0].value) + RenderParams(ps[1..])
  }

  /** A node list renders as the concatenation of its nodes' renderings. */
  function RenderCode(code: seq<Node>): (r: string)
    ensures code == [] ==> r == ""
    ensures |code| == 1 ==> r == Render(code[0])
    ensures |code| > 0 ==> Render(code[0]) <= r
    decreases code
  {
    if code == [] then "" else Render(code[0]) + RenderCode(code[1..])
  }

  lemma {:induction false} RenderCodeAppend(a: seq<Node>, b: seq<Node>)
    ensures RenderCode(a + b) == RenderCode(a) + RenderCode(b)
    decreases a
  {
    if a == [] {
      assert a + b == b;
    } else {
      assert (a + b)[1..] == a[1..] + b;
      RenderCodeAppend(a[1..], b);
    }
  }

  /** Errors, named after the exceptions the container raises. */
  datatype Error =
    | BadValue(typeName: string)   // ValueError: value is neither text, a Node nor a Wikicode
    | MultipleNodes                // ValueError: several nodes cannot fill one slot
    | IndexOutOfRange              // IndexError
    | NodeNotFound                 // ValueError(obj): no identical node
    | KeyNotFound                  // KeyError(obj): reference node is not a direct node
    | NotImplemented(node: Node)   // NotImplementedError(node)
    | AttributeError               // an attribute that does not exist
    | TypeError                    // a call or an operator on the wrong operands

  datatype Option<T> = None | Some(value: T)

  datatype Result<T> = Success(value: T) | Failure(error: Error)

  datatype Outcome = Pass | Fail(error: Error)

  /** `a` can be obtained from `b` by deleting elements: the elements of
      `a` occur in `b` in the same order. */
  predicate IsSubsequence<T(==)>(a: seq<T>, b: seq<T>)
    decreases |b|
  {
    a == [] ||
    (b != [] &&
     ((a[0] == b[0] && IsSubsequence(a[1..], b[1..])) || IsSubsequence(a, b[1..])))
  }

  lemma {:induction false} SubsequenceRefl<T>(a: seq<T>)
    ensures IsSubsequence(a, a)
    decreases |a|
  {
    if a != [] {
      SubsequenceRefl(a[1..]);
    }
  }

  /** Prepending to the larger sequence keeps a subsequence. */
  lemma {:induction false} SubsequenceExtend<T>(a: seq<T>, c: seq<T>, b: seq<T>)
    requires IsSubsequence(a, b)
    ensures IsSubsequence(a, c + b)
    decreases |c|
  {
    if c == [] {
      assert c + b == b;
    } else if a != [] {
      assert (c + b)[1..] == c[1..] + b;
      SubsequenceExtend(a, c[1..], b);
    }
  }

  lemma {:induction false} SubsequenceAppend<T>(a1: seq<T>, b1: seq<T>, a2: seq<T>, b2: seq<T>)
    requires IsSubsequence(a1, b1) && IsSubsequence(a2, b2)
    ensures IsSubsequence(a1 + a2, b1 + b2)
    decreases |b1|
  {
    if a1 == [] {
      assert a1 + a2 == a2;
      SubsequenceExtend(a2, b1, b2);
    } else {
      assert (b1 + b2)[1..] == b1[1..] + b2;
      assert (a1 + a2)[1..] == a1[1..] + a2;
      if a1[0] == b1[0] && IsSubsequence(a1[1..], b1[1..]) {
        SubsequenceAppend(a1[1..], b1[1..], a2, b2);
      } else {
        SubsequenceAppend(a1, b1[1..], a2, b2);
      }
    }
  }
}
