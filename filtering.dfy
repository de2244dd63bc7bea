/** The selection `ifilter` applies to its source nodes (wikicode.py,
    `ifilter`/`filter` and their `_templates`/`_text` forms). */
module Filtering {
  import opened Nodes
  import opened Descent

  /** A compiled search pattern, as a test on a node's rendered text
      (`re.search(matches, unicode(node), flags)`; the flags are part of
      the pattern here). */
  type Pattern = string -> bool

  /** The test `ifilter` applies to each candidate: of the forced type, if
      one is given, and matching the pattern, if one is given. With neither
      every node passes; failing either test excludes the node. */
  predicate Keep(n: Node, matches: Option<Pattern>, forcetype: Option<Kind>)
    ensures matches.None? && forcetype.None? ==> Keep(n, matches, forcetype)
    ensures forcetype.Some? && !IsInstance(n, forcetype.value) ==> !Keep(n, matches, forcetype)
    ensures matches.Some? && !matches.value(Render(n)) ==> !Keep(n, matches, forcetype)
  {
    (forcetype.None? || IsInstance(n, forcetype.value)) &&
    (matches.None? || matches.value(Render(n)))
  }

  /** The candidates that pass `Keep`, in their original order. */
  function Select(s: seq<Node>, matches: Option<Pattern>, forcetype: Option<Kind>): (r: seq<Node>)
    ensures forall k :: 0 <= k < |r| ==> Keep(r[k], matches, forcetype)
    ensures forall k :: 0 <= k < |s| && Keep(s[k], matches, forcetype) ==> s[k] in r
    decreases s
  {
    if s == [] then []
    else (if Keep(s[0], matches, forcetype) then [s[0]] else []) + Select(s[1..], matches, forcetype)
  }

  /** The nodes `ifilter` walks: the direct nodes, or the recursive walk. */
  function Source(code: seq<Node>, recursive: bool): seq<Node>
  {
    if recursive then AllNodes(code) else code
  }

  /** The result is an order-preserving subsequence of what was walked. */
  lemma {:induction false} SelectIsSubsequence(s: seq<Node>, matches: Option<Pattern>, forcetype: Option<Kind>)
    ensures IsSubsequence(Select(s, matches, forcetype), s)
    decreases s
  {
    if s != [] {
      SelectIsSubsequence(s[1..], matches, forcetype);
      var rest := Select(s[1..], matches, forcetype);
      if Keep(s[0], matches, forcetype) {
        assert ([s[0]] + rest)[1..] == rest;
      } else {
        assert Select(s, matches, forcetype) == rest;
        if rest != [] {
          assert IsSubsequence(rest, s[1..]);
        }
      }
    }
  }

  /** With neither a type nor a pattern every walked node is returned. */
  lemma {:induction false} SelectAll(s: seq<Node>)
    ensures Select(s, None, None) == s
    decreases s
  {
    if s != [] {
      SelectAll(s[1..]);
    }
  }

  /** Each node occurs in the selection as often as in the candidates when
      it passes `Keep`, and not at all otherwise: nothing is dropped or
      duplicated. */
  lemma {:induction false} SelectCounts(s: seq<Node>, matches: Option<Pattern>, forcetype: Option<Kind>)
    ensures forall n :: multiset(Select(s, matches, forcetype))[n] ==
                        (if Keep(n, matches, forcetype) then multiset(s)[n] else 0)
    decreases s
  {
    if s != [] {
      SelectCounts(s[1..], matches, forcetype);
      assert s == [s[0]] + s[1..];
      assert multiset(s) == multiset([s[0]]) + multiset(s[1..]);
    }
  }

  /** Selecting from a subsequence gives a subsequence of the selection. */
  lemma {:induction false} SelectMonotonic(a: seq<Node>, b: seq<Node>, matches: Option<Pattern>, forcetype: Option<Kind>)
    requires IsSubsequence(a, b)
    ensures IsSubsequence(Select(a, matches, forcetype), Select(b, matches, forcetype))
    decreases |b|
  {
    if a == [] {
    } else if a[0] == b[0] && IsSubsequence(a[1..], b[1..]) {
      SelectMonotonic(a[1..], b[1..], matches, forcetype);
      var head := if Keep(b[0], matches, forcetype) then [b[0]] else [];
      SubsequenceRefl(head);
      SubsequenceAppend(head, head, Select(a[1..], matches, forcetype), Select(b[1..], matches, forcetype));
    } else {
      SelectMonotonic(a, b[1..], matches, forcetype);
      var head := if Keep(b[0], matches, forcetype) then [b[0]] else [];
      SubsequenceExtend(Select(a, matches, forcetype), head, Select(b[1..], matches, forcetype));
    }
  }

  /** Everything a flat filter returns, the recursive filter with the same
      type and pattern returns too, in the same order. */
  lemma FlatWithinRecursive(code: seq<Node>, matches: Option<Pattern>, forcetype: Option<Kind>)
    ensures IsSubsequence(Select(Source(code, false), matches, forcetype),
                          Select(Source(code, true), matches, forcetype))
  {
    DirectNodesInOrder(code);
    SelectMonotonic(code, AllNodes(code), matches, forcetype);
  }
}
