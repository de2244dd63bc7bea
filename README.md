# Wikicode: a verified model of mwparserfromhell's node container

`Wikicode` (mwparserfromhell/wikicode.py) is the object a parsed page turns
into: an ordered, mutable list of syntax nodes. A template node holds further
`Wikicode` lists: its name, and a name and a value for each parameter. The
container offers:

- a pre-order walk into that nested structure (`_get_children`, `_get_all_nodes`);
- lookup of a node by identity, flat or recursive (`index`, `_do_recursive_index`);
- list edits that first coerce their input to a list of nodes (`_nodify`,
  `get`, `set`, `insert`, `insert_before`, `insert_after`, `append`, `remove`);
- filtering by node type and by a pattern over the node's text (`ifilter`,
  `filter` and their `_templates`/`_text` forms);
- a debugging outline (`_show_tree` and its inner `write`).

The model has one Dafny module per part:

- `Nodes` (nodes.dfy) holds the node values. A node is `Text`, `Template` or
  `Other`, and a `Param` has a `name`, a `value` and `showkey`. Every node
  carries an `id` standing for the identity of the Python object, so Python's
  `is` becomes `Same` (equal ids) and two nodes with equal text stay two
  nodes. The module also holds the rendering to wikitext, the error and
  outcome types, and order-preserving subsequences.
- `Descent` (descent.dfy) holds the recursive walk as functions.
- `Search` (search.dfy) holds identity lookup as specification functions.
- `Filtering` (filtering.dfy) holds the selection `ifilter` applies.
- `Outline` (outline.dfy) models `_show_tree`. The `lines` list it shares
  across recursive calls is a `Lines` object, whose entries are text lines
  or the marker. `write` and `_show_tree` are methods, each proved equal to
  a specification function, and lemmas prove what those functions promise.
- `Wikicode` (wikicode.dfy) holds the container. It is a class with a
  mutable `nodes: seq<Node>` field. The edit operations are methods that
  loop as the source does, and every exception the source raises becomes an
  `Outcome` or `Result` failure. Nested `Wikicode` objects (a template's
  name, a parameter's name and value) appear as their node lists.
- `AsWritten` (aswritten.dfy) models the places where the code does not do
  what it evidently means, exactly as written. Next to each one is an input
  that shows the difference; see "Findings".

Two details of the outline follow the code closely:

- `_show_tree` outlines a parameter's name even when `showkey` is false
  (wikicode.py:97), although `_get_children` skips that name in the walk
  (wikicode.py:58).
- The closing `}}` (wikicode.py:101) starts a line of its own, since no
  marker is pushed right before it, unless the template's last parameter
  has an empty value. Then the marker pushed after `    = `
  (wikicode.py:99) is still on top, and `}}` continues that line as
  `    = }}` (`Outline.EmptyValueExample`).

The defects under "Findings" are logged there. The class models the
intended behaviour instead.

Python's list semantics are written out:

- `get` and `set` accept negative indexes (`Slot`).
- `list.insert` counts a negative index from the end and clamps a position
  beyond either end (`InsertionPoint`, `ListInsert`).
- The failures are named after the exceptions: `BadValue` and
  `MultipleNodes` are ValueErrors, `IndexOutOfRange` is IndexError,
  `NodeNotFound` is the ValueError from `index`, `KeyNotFound` is KeyError,
  and `NotImplemented` is NotImplementedError.

## Model

| member | source | states |
|---|---|---|
| `Descent.Children` | mwparserfromhell/wikicode.py:52-62 | a node's walk starts with the node itself; a text node (any non-template) yields only itself |
| `Descent.AllNodes` | mwparserfromhell/wikicode.py:64-67 | the recursive walk yields at least one node per direct node |
| `Descent.AllNodesAppend` | mwparserfromhell/wikicode.py:64-67 | the walk of two lists joined is the walk of the first followed by the walk of the second |
| `Descent.DirectNodesInOrder` | mwparserfromhell/wikicode.py:64-67 | every direct node appears in the recursive walk, in its original order (the direct list is a subsequence of the walk) |
| `Descent.HasAllNodes` | mwparserfromhell/wikicode.py:64-67 | a node is in the recursive walk exactly when it is in the walk of some direct node |
| `Descent.TemplateWalkExample` | mwparserfromhell/wikicode.py:52-62 | `{{foo\|bar\|baz=qux}}` yields the template, `foo`, `bar` (no name: it is not shown), `baz`, `qux`, in that order |
| `Search.Position` | mwparserfromhell/wikicode.py:128-132 | the least position whose node is `obj` itself, none before it is; none exactly when no node is `obj` |
| `Search.Owner` | mwparserfromhell/wikicode.py:69-79 | the least top-level position whose walk contains `obj` itself; none exactly when no direct node's walk contains it |
| `Search.OwnerIffReachable` | mwparserfromhell/wikicode.py:69-79 | the recursive lookup succeeds exactly when `obj` is in the recursive walk of the list |
| `Search.DirectNodeOwned` | mwparserfromhell/wikicode.py:125-132 | a direct node is found by the recursive lookup as well, at or before its own position |
| `Search.RemovedIsGone` | mwparserfromhell/wikicode.py:155-156 | after deleting the node found by identity (occurring once), no node is identical to it, and every node of another identity, even one with equal text, is still there |
| `Filtering.Keep` | mwparserfromhell/wikicode.py:165-166 | the per-node test: with neither a type nor a pattern every node passes; a node not of the forced type, or whose text the pattern does not match, is excluded |
| `Filtering.Select` | mwparserfromhell/wikicode.py:164-167 | every node kept is of the forced type and matches the pattern, and every walked node that is and does is kept |
| `Filtering.SelectIsSubsequence` | mwparserfromhell/wikicode.py:158-167 | the filter's result is an order-preserving subsequence of the walked nodes |
| `Filtering.SelectCounts` | mwparserfromhell/wikicode.py:164-167 | each walked node occurs in the filter's result as often as it was walked when it passes the type and pattern tests, and not at all otherwise |
| `Filtering.SelectAll` | mwparserfromhell/wikicode.py:158-167 | with neither a type nor a pattern the filter returns every walked node |
| `Filtering.FlatWithinRecursive` | mwparserfromhell/wikicode.py:158-167 | what the flat filter returns, the recursive filter with the same type and pattern returns too, in the same order |
| `Wikicode.Wikicode.Filter` | mwparserfromhell/wikicode.py:175-177 | `filter`/`ifilter` result: a subsequence of the direct nodes (flat) or of the recursive walk (recursive), all of the forced type and matching, none missed; each kept node appears as often as it is walked, any other node not at all; the whole walk when neither is given |
| `Wikicode.Wikicode.FilterTemplates` | mwparserfromhell/wikicode.py:179-180 | an order-preserving subsequence of the walked nodes, all of them templates; every walked template that matches the pattern is returned, as often as it is walked, and nothing else |
| `Wikicode.Wikicode.FilterText` | mwparserfromhell/wikicode.py:182-183 | an order-preserving subsequence of the walked nodes, all of them text nodes; every walked text node that matches the pattern is returned, as often as it is walked, and nothing else |
| `Wikicode.Wikicode.constructor` | mwparserfromhell/wikicode.py:36-37 | the container holds the given nodes and uses the given parser |
| `Wikicode.Wikicode.Nodify` | mwparserfromhell/wikicode.py:42-50 | a container coerces to its nodes, a node to itself alone, text to what the parser makes of it; any other value fails with a ValueError naming its type, and only such a value fails |
| `Wikicode.Wikicode.Get` | mwparserfromhell/wikicode.py:112-113 | succeeds exactly for `-len <= index < len`, giving the node counted from the start or, for a negative index, from the end; IndexError otherwise |
| `Wikicode.Wikicode.Set` | mwparserfromhell/wikicode.py:115-123 | fails with no change when the value cannot be coerced, coerces to more than one node, or the index is out of range (checked in that order); otherwise the slot is replaced by the one node, so the length is unchanged, `get(index)` gives the new node and every other slot is as before, or the slot is removed when the value coerces to nothing |
| `Wikicode.Wikicode.Index` | mwparserfromhell/wikicode.py:125-133 | flat: the first position holding `obj` itself (`Search.Position`); recursive: the first top-level position containing it (`Search.Owner`); a ValueError when there is none |
| `Wikicode.Wikicode.DoRecursiveIndex` | mwparserfromhell/wikicode.py:69-79 | the position returned is the first whose walk contains `obj` itself; on failure no direct node's walk, and so not the recursive walk, contains it |
| `Wikicode.Wikicode.Insert` | mwparserfromhell/wikicode.py:135-138 | the list becomes `old[..p] + coerced + old[p..]`, with `p` the position `list.insert` gives the index: the coerced nodes keep their order despite the reversed loop; no change when coercion fails |
| `Wikicode.Wikicode.InsertBefore` | mwparserfromhell/wikicode.py:140-143 | KeyError and no change unless `obj` itself is a direct node; otherwise the coerced nodes go in at `obj`'s position |
| `Wikicode.Wikicode.InsertAfter` | mwparserfromhell/wikicode.py:145-148 | KeyError and no change unless `obj` itself is a direct node; otherwise the coerced nodes go in right after `obj` |
| `Wikicode.Wikicode.Append` | mwparserfromhell/wikicode.py:150-153 | the list becomes `old + coerced`; no change when coercion fails |
| `Wikicode.Wikicode.Remove` | mwparserfromhell/wikicode.py:155-156 | deletes exactly the element at the identity position of `node` (length drops by one, the others keep their order); ValueError and no change when `node` is not a direct node |
| `Outline.TreeOutline` | mwparserfromhell/wikicode.py:81-106 | `_show_tree` over a node list, stopping at the first exception; a successful outline never changes a finished line: only the line a pending marker would continue may change |
| `Outline.Write` | mwparserfromhell/wikicode.py:82-88 | with the marker on top after a line, the marker and that line are replaced by the line continued by the text (one entry fewer); otherwise a new line indented six spaces per level is pushed (one entry more); from a list in the shape `_show_tree` keeps it never fails and leaves no marker |
| `Outline.WriteLine` | mwparserfromhell/wikicode.py:82-88 | the in-place `write` leaves the shared list, and raises, exactly as `Outline.Write` says |
| `Outline.ShowTree` | mwparserfromhell/wikicode.py:81-106 | `_show_tree` leaves the shared list, and stops, exactly as `Outline.TreeOutline` describes, pushing the marker right after each `    \| ` and `    = ` line |
| `Outline.OutlineClean` | mwparserfromhell/wikicode.py:81-106 | from a clean list the outline fails exactly when it meets a node that is neither text nor a template, and only with NotImplementedError; on success the list is clean, and marker-free after at least one node |
| `Outline.NodeClean` | mwparserfromhell/wikicode.py:90-105 | one node's outline from a clean list succeeds exactly for a node made of text and templates and then leaves no marker |
| `Outline.ParamsClean` | mwparserfromhell/wikicode.py:94-100 | the parameters' outline from a clean list succeeds exactly when every name and value is made of text and templates, and leaves the list clean |
| `Outline.NoMarkerLeft` | mwparserfromhell/wikicode.py:81-106 | if the list holds no marker on entry, none remains when the outline returns |
| `Outline.RenderableWalk` | mwparserfromhell/wikicode.py:102-105 | a list the outline can show has no node in its recursive walk that would raise NotImplementedError |
| `Outline.OutlineExample` | mwparserfromhell/wikicode.py:81-106 | `{{a\|b=c}}` outlines as `{{`, `      a`, `    \| b`, `    = c`, `}}` |
| `Outline.EmptyValueExample` | mwparserfromhell/wikicode.py:94-101 | `{{a\|b=}}` outlines as `{{`, `      a`, `    \| b`, `    = }}`: with an empty last value, `}}` continues the `    = ` line |
| `Nodes.RenderCode` | mwparserfromhell/wikicode.py:39-40 | a container's text: empty for no nodes, a lone node's own text for one node, and it starts with the first node's text |
| `Nodes.RenderCodeAppend` | mwparserfromhell/wikicode.py:39-40 | a container's text is its nodes' texts joined, so two lists joined render as their renderings joined |
| `AsWritten.SetAsWritten` | mwparserfromhell/wikicode.py:115-123 | `set` as written never changes the list and always raises |
| `AsWritten.SetAsWrittenRaises` | mwparserfromhell/wikicode.py:121 | an in-range, single-node `set` raises AttributeError as written |
| `AsWritten.SetTypoFixed` | mwparserfromhell/wikicode.py:121-123 | with the attribute name repaired, a successful single-node `set` shortens the list by one |
| `AsWritten.SetTypoFixedLosesNode` | mwparserfromhell/wikicode.py:121-123 | `[a, b]`: `set(0, c)` gives `[c]`, `set(1, c)` raises and leaves `[a]` |
| `AsWritten.SetTypoFixedNegative` | mwparserfromhell/wikicode.py:121-123 | `[a, b, c]`: `set(-1, x)` gives `[a, x]`, `set(-3, x)` raises and leaves `[b, c]` |
| `AsWritten.IndexAsWritten` | mwparserfromhell/wikicode.py:125-133 | the recursive branch always raises TypeError; the flat branch succeeds exactly for a direct node |
| `AsWritten.RecursiveIndexAsWrittenRaises` | mwparserfromhell/wikicode.py:126-127 | for any node of the recursive walk the intended lookup succeeds while the written one raises |
| `AsWritten.ReferenceAsWritten` | mwparserfromhell/wikicode.py:140-143 | a position it gives is the identity position |
| `AsWritten.ReferenceAsWrittenTwin` | mwparserfromhell/wikicode.py:141-143 | for a direct node the written checks agree with identity; an absent node with an equal-text twin gets ValueError instead of KeyError |
| `AsWritten.ReferenceAsWrittenExample` | mwparserfromhell/wikicode.py:141-143 | two text nodes reading "x": the second, absent, gives ValueError as written |
| `AsWritten.InsertAsWritten` | mwparserfromhell/wikicode.py:135-138 | the written loop adds exactly the coerced nodes' number of entries |
| `AsWritten.InsertAsWrittenInRange` | mwparserfromhell/wikicode.py:135-138 | for `0 <= index <= len` the written loop inserts the nodes at `index` in their own order |
| `AsWritten.InsertAsWrittenReverses` | mwparserfromhell/wikicode.py:137-138 | at index -1 into `[a, b, c]`, `[x, y]` gives `[a, b, y, x, c]`; at 5 into `[a]` it gives `[a, y, x]` |
| `AsWritten.InsertAsWrittenClamped` | mwparserfromhell/wikicode.py:137-138 | for `index <= 1 - (len + count)` the index resolves to 0 at every step, and the nodes go in at the front in their own order |
| `AsWritten.InsertAsWrittenPastEndMixed` | mwparserfromhell/wikicode.py:137-138 | inside `len < index < len + count - 1`: at 2 into `[a]`, `[x, y, z]` gives `[a, z, x, y]` |
| `AsWritten.InsertAsWrittenMixed` | mwparserfromhell/wikicode.py:137-138 | inside `1 - (len + count) < index < -len`: at -4 into `[a, b, c]`, `[x, y, z]` gives `[y, x, z, a, b, c]` |

## Findings

| source | as written | input that shows it | evidently intended | confidence | as-written member | corrected member |
|---|---|---|---|---|---|---|
| mwparserfromhell/wikicode.py:121 | `self.nodex.pop(index)` names an attribute that does not exist: every `set` that passes its checks raises AttributeError | `set(0, node)` on any non-empty container | pop from `self.nodes` | high; not executed | `AsWritten.SetAsWritten` | `Wikicode.Wikicode.Set` |
| mwparserfromhell/wikicode.py:123 | after `pop(index)`, `self.nodes[index] = node` works on the shortened list: for an index from 0 up it overwrites the node that followed, or raises IndexError when the last slot was popped; for a negative index it overwrites the node before, or raises IndexError when the first slot was popped | `[a, b]`: `set(0, c)` gives `[c]` and `set(1, c)` raises, leaving `[a]`; `[a, b, c]`: `set(-1, x)` gives `[a, x]` and `set(-3, x)` raises, leaving `[b, c]` | replace in place: `[c, b]`, `[a, c]`, `[a, b, x]`, `[x, b, c]` | high; not executed | `AsWritten.SetTypoFixed` | `Wikicode.Wikicode.Set` |
| mwparserfromhell/wikicode.py:127 | `self._do_recursive_index()` is called without `obj`: TypeError | `index(n, recursive=True)` for any `n` | pass `obj` through | high; not executed | `AsWritten.IndexAsWritten` | `Wikicode.Wikicode.Index` |
| mwparserfromhell/wikicode.py:141 | `obj not in self.nodes` tests equality, while `index` then searches by identity | `[Text "x"]` and another Text "x" not in the list: ValueError from `index` instead of KeyError | membership by identity | medium; not executed | `AsWritten.ReferenceAsWritten` | `Wikicode.Wikicode.InsertBefore` |
| mwparserfromhell/wikicode.py:146 | the same equality test in `insert_after` | as in the row above | membership by identity | medium; not executed | `AsWritten.ReferenceAsWritten` | `Wikicode.Wikicode.InsertAfter` |
| mwparserfromhell/wikicode.py:137-138 | `list.insert(index, node)` with the same `index` for each node, last node first; for `-len <= index < 0`, and for `index >= len + count - 1`, the index resolves to a new position as the list grows, so the nodes come out reversed; for `1 - (len + count) < index < -len`, and for `len < index < len + count - 1`, they come out partly reversed | `[x, y]` at -1 into `[a, b, c]` gives `[a, b, y, x, c]`; at 5 into `[a]` it gives `[a, y, x]`; `[x, y, z]` at 2 into `[a]` gives `[a, z, x, y]` | the nodes in their own order: `[a, b, x, y, c]` | high; not executed | `AsWritten.InsertAsWritten` | `Wikicode.Wikicode.Insert` |

The corrected `Insert` resolves the position once, before its loop. For
`0 <= index <= len` this changes nothing (`AsWritten.InsertAsWrittenInRange`).
Nor does it for `index <= 1 - (len + count)`, with `count` the number of
nodes inserted: `list.insert` clamps such an index to 0 at every step
(`AsWritten.InsertAsWrittenClamped`). For
`1 - (len + count) < index < -len` the written loop gives a mix of the two
orders (`AsWritten.InsertAsWrittenMixed`). So it does for
`len < index < len + count - 1`: the first `index - len + 1` nodes from the
end are appended in reverse, and the rest go in at `index` in their own
order (`AsWritten.InsertAsWrittenPastEndMixed`). With two nodes both bands
are empty. The nodes come out fully reversed for `-len <= index < 0` and
for `index >= len + count - 1` (`AsWritten.InsertAsWrittenReverses`).
The corrected `Set` checks first, then replaces the slot, or removes it when
the value coerces to no node. `InsertBefore` and `InsertAfter` test
membership by identity.

## Left out

- `mwparserfromhell.parse` (wikicode.py:48) is an external parser. It is the `parse` function the container is constructed with, and nothing is assumed about it.
- The regular-expression search in `ifilter` (wikicode.py:33, :166) is a foreign library. A pattern is modelled as a predicate on the node's rendered text, with the flags folded into it. An empty pattern string behaves like no pattern in the source, and so does `None` here.
- Node rendering comes from node classes that are not part of this model (node.py, text.py, template.py, string_mixin.py). `Nodes.Render` renders text as its value and a template in the usual `{{name|key=value|value}}` form; other node kinds carry their own markup. Equality of nodes (`==`, used by `in`) compares renderings.
- `show_tree` (wikicode.py:185-187) only prints the lines `_show_tree` builds, which is I/O. `Outline.ShowTree` leaves those lines in the `Lines` object it is given and returns only the exception, if any.
- `ifilter` (wikicode.py:158-167) is a generator, and `filter` makes a list of what it yields. `Wikicode.Wikicode.Filter` is that list. Mutating a container while the generator walks it is not modelled. `ifilter_templates` and `ifilter_text` (wikicode.py:169-173) return the list `filter` builds, so they are the same as `filter_templates` and `filter_text`, which `FilterTemplates` and `FilterText` model.
- `Filtering.Keep` and `Wikicode.Wikicode.Filter` take `forcetype` as one of three kinds: text, template, or any other node. In the source it is any class `isinstance` accepts (wikicode.py:165): a specific node class other than text or template, the base `Node` class, or a tuple of classes. The model does not tell the other node classes apart, so a filter for one of them returns all non-text, non-template nodes. A filter for `Node` or for a tuple is not modelled.
- The branches for an `obj` that is not a Node are not modelled; `obj` is always a node. These are the equality-based `list.index` in `index` (wikicode.py:133) and the equality-based `obj in children` in `_do_recursive_index` (wikicode.py:76-78).
- Aliasing is not modelled. `_nodify` returns another container's own list, so `code.append(code)` keeps appending to the list it is reading. The model coerces to a copy.
- Identity is an `id` on an immutable node value. Two values with one id are taken to be the same object, and a change to a node inside a list (a template's parameters, say) is not modelled.
- The `marker` parameter of `_show_tree` is always a fresh marker object. A caller's own marker (or the default `None`) is not modelled.
- The `nodes` property (wikicode.py:108-110) returns the list itself; it is the `nodes` field.
