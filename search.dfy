/** Identity-based lookup in a node list (wikicode.py, `index` and
    `_do_recursive_index`), as specification functions. */
module Search {
  import opened Nodes
  import opened Descent

  /** The first position holding the very node `obj`, if any. A node with
      equal contents but another identity is never matched. */
  function Position(s: seq<Node>, obj: Node): (r: Option<nat>)
    ensures r.Some? ==> r.value < |s| && Same(s[r.value], obj) &&
                        forall j :: 0 <= j < r.value ==> !Same(s[j], obj)
    ensures r.None? <==> !Has(s, obj)
    decreases s
  {
    if s == [] then None
    else if Same(s[0], obj) then Some(0)
    else match Position(s[1..], obj)
      case None => None
      case Some(k) => Some(k + 1)
  }

  /** The first top-level position whose node is `obj` or has `obj` among
      its descendants, if any. */
  function Owner(s: seq<Node>, obj: Node): (r: Option<nat>)
    ensures r.Some? ==> r.value < |s| && Has(Children(s[r.value]), obj) &&
                        forall j :: 0 <= j < r.value ==> !Has(Children(s[j]), obj)
    ensures r.None? ==> forall j :: 0 <= j < |s| ==> !Has(Children(s[j]), obj)
    decreases s
  {
    if s == [] then None
    else if Has(Children(s[0]), obj) then Some(0)
    else match Owner(s[1..], obj)
      case None => None
      case Some(k) => Some(k + 1)
  }

  /** A recursive lookup succeeds exactly when `obj` is somewhere in the
      recursive walk of the list. */
  lemma OwnerIffReachable(s: seq<Node>, obj: Node)
    ensures Owner(s, obj).Some? <==> Has(AllNodes(s), obj)
  {
    HasAllNodes(s, obj);
  }

  /** A direct node is found by the recursive lookup too, at its own
      position or at an earlier one that also contains it. */
  lemma DirectNodeOwned(s: seq<Node>, obj: Node)
    requires Position(s, obj).Some?
    ensures Owner(s, obj).Some? && Owner(s, obj).value <= Position(s, obj).value
  {
    var k := Position(s, obj).value;
    assert Children(s[k])[0] == s[k];
    assert Has(Children(s[k]), obj);
  }

  /** `obj` occurs at most once, by identity. */
  predicate AtMostOnce(s: seq<Node>, obj: Node)
  {
    forall i, j :: 0 <= i < j < |s| && Same(s[i], obj) ==> !Same(s[j], obj)
  }

  /** Deleting the element at `Position(s, obj)`, when `obj` occurs once,
      leaves no node identical to `obj`; every node of another identity
      (even one with equal contents) is still there. */
  lemma RemovedIsGone(s: seq<Node>, obj: Node, m: Node)
    requires Position(s, obj).Some? && AtMostOnce(s, obj)
    requires !Same(m, obj)
    ensures var k := Position(s, obj).value;
            Position(s[..k] + s[k + 1..], obj).None? &&
            (Has(s[..k] + s[k + 1..], m) <==> Has(s, m))
  {
    var k := Position(s, obj).value;
    DeletedGone(s, k, obj);
    DeletedKeeps(s, k, m);
  }

  /** With its only occurrence deleted, `obj` is gone. */
  lemma DeletedGone(s: seq<Node>, k: nat, obj: Node)
    requires k < |s| && Same(s[k], obj) && AtMostOnce(s, obj)
    ensures !Has(s[..k] + s[k + 1..], obj)
  {
    var t := s[..k] + s[k + 1..];
    forall j | 0 <= j < |t|
      ensures !Same(t[j], obj)
    {
      if j < k {
        assert t[j] == s[j];
      } else {
        assert t[j] == s[j + 1];
      }
    }
  }

  /** Deleting a node of another identity keeps `m` if it was there, and
      adds nothing. */
  lemma DeletedKeeps(s: seq<Node>, k: nat, m: Node)
    requires k < |s| && !Same(s[k], m)
    ensures Has(s[..k] + s[k + 1..], m) <==> Has(s, m)
  {
    var t := s[..k] + s[k + 1..];
    if Has(s, m) {
      var i :| 0 <= i < |s| && Same(s[i], m);
      if i < k {
        assert t[i] == s[i];
      } else {
        assert t[i - 1] == s[i];
      }
    }
    if Has(t, m) {
      var i :| 0 <= i < |t| && Same(t[i], m);
      if i < k {
        assert t[i] == s[i];
      } else {
        assert t[i] == s[i + 1];
      }
    }
  }
}
