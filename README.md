# htmlsearch: flattening, offset translation and forward search

A Dafny model of the text-level core of `htmlsearch.js`, a "find in page"
helper for web pages. The visible text nodes of the page are joined into one
flat string. A forward literal search runs over that string, starting at the
end of the current selection. If nothing is found from there, it retries once
from offset 0 and reports a wraparound. The flat offsets of the match are then
translated back into (text node, local offset) boundaries for a DOM Range.

Modelling choices:

- A text node is a value `TextNode(id, value)`. The id stands for node
  identity, so two nodes with equal text are different nodes. Identity is
  compared on the whole value. This matches the code's reference comparison
  because a Range's node and the node list are taken from the same snapshot
  of the page, so a node never appears with two different values.
- The list that the tree walker produces is an input `seq<TextNode>`. The walk
  never yields a node twice. `Distinct` states this, and the round-trip lemmas
  assume it.
- A DOM Range is a pair of `Boundary(node, offset)` values. `search` returns
  a `SearchResult` in place of the Range object built by
  `document.createRange`, `setStart` and `setEnd`.
  A selection that ends in an element rather than a text node is captured as
  a boundary whose node is not in the list: `indexAt` then returns 0, as
  `indexOf` returning -1 makes it do (htmlsearch.js:64-66).
- `nodeAt` returns null past the end of the text. `range.setStart.apply(range,
  null)` and `range.setEnd.apply(range, null)` then throw. The model writes
  this outcome as `BoundaryMissing`.
- The JavaScript built-ins used by the core are modelled as functions in
  module `Builtins`:
  - `Array.prototype.join("")`
  - `Array.prototype.indexOf`, which compares by identity
  - `String.prototype.indexOf`, which clamps `fromIndex` to the text length
- `nodeValues` and `nodeAt` are loops in the source. They are methods with loop
  invariants here. `visibleText`, `indexAt` and the wraparound logic are
  expression compositions in the source, so they are functions here.
  `Offset(nodes, k)` is the recursive prefix-length function. It is the
  combined length of the values before node k.

Behaviour at the edges, as the code has it:

- `nodeAt` does not clamp to the last node. It returns null at or past the
  end of the text.
- An empty page with a non-empty pattern gives null, because both `indexOf`
  calls return -1 (htmlsearch.js:81-85).
- An empty pattern gives a collapsed range at the clamped start offset, when
  that offset is below the text length (htmlsearch.js:81, 90-91).
- An empty pattern whose start offset equals the text length throws, because
  `nodeAt` is null for both boundaries. An empty page is one case of this.

## Model

| member | source | states |
|---|---|---|
| `HtmlSearch.NodeValues` | htmlsearch.js:33-39 | returns one value per node, in node order: the i-th entry is node i's value |
| `Builtins.Join` | htmlsearch.js:42 | `join("")`: the parts concatenated in order with nothing between them. It has no contract of its own; its properties are stated for the node list by `TotalLength`, `VisibleTextSlice` and `PrefixText` |
| `HtmlSearch.VisibleText` | htmlsearch.js:41-43 | the node values joined with "" in list order. It has no contract of its own; its properties are `TotalLength`, `VisibleTextSlice` and `PrefixText` |
| `HtmlSearch.TotalLength` | htmlsearch.js:41-43 | the flat text is as long as the sum of all node value lengths |
| `HtmlSearch.VisibleTextSlice` | htmlsearch.js:41-43 | node k's value is exactly the flat text between node k's start offset and node k+1's, so the text is the in-order concatenation |
| `HtmlSearch.PrefixText` | htmlsearch.js:41-43 | the text of the first m nodes is a prefix of the text of all nodes |
| `HtmlSearch.PrefixLength` | htmlsearch.js:69 | the text of the first k nodes (`textNodes.slice(0, index)` joined) is as long as the values before node k |
| `HtmlSearch.OffsetMonotone` | htmlsearch.js:46-54 | the running position `pos` never decreases from node to node |
| `HtmlSearch.NodeAt` | htmlsearch.js:45-58 | returns null exactly when the index is at or past the text length. Otherwise it returns the owning node with the index relative to that node's start. The node is in the list, and the local offset is below the node's length, so an empty node is never returned |
| `HtmlSearch.OwnerIsFirstExceeding` | htmlsearch.js:47-52 | both directions: node k owns index i exactly when k is the first node whose cumulative end exceeds i |
| `HtmlSearch.LocatesUnique` | htmlsearch.js:45-57 | a flat offset has at most one position, so the result of `nodeAt` is fully determined |
| `HtmlSearch.NodeEndIsNextStart` | htmlsearch.js:49-54 | the offset where node k ends belongs to a later node at local offset 0, and to node k+1 whenever node k+1 is not empty; it never maps to (node k, its length) |
| `HtmlSearch.LocatedCharacter` | htmlsearch.js:41-58 | the flat-text character at index i equals the character at the position `nodeAt` gives for i |
| `Builtins.ArrayIndexOf` | htmlsearch.js:64 | -1 exactly when the node is absent; otherwise the first index that holds the node |
| `HtmlSearch.IndexAt` | htmlsearch.js:60-70 | 0 when the range's end node is not in the list; otherwise the combined length of the values before that node, plus the end offset |
| `HtmlSearch.NodeAtIndexAt` | htmlsearch.js:45-70 | round trip: with distinct nodes, `indexAt` of the boundary that `nodeAt` gives for i is i |
| `HtmlSearch.IndexAtNodeAt` | htmlsearch.js:45-70 | round trip the other way: a boundary before a listed node's end (offset below its length) is located back at itself from its `indexAt` offset |
| `Builtins.FirstOccurrence` | htmlsearch.js:81 | the scan returns the first occurrence at or after i, or -1 exactly when there is none |
| `Builtins.StringIndexOf` | htmlsearch.js:81-83 | `indexOf(pattern, from)` is the smallest occurrence at or after the clamped `from`, or -1 exactly when none exists there |
| `HtmlSearch.Locate` | htmlsearch.js:79-87 | null exactly when the pattern occurs nowhere. Otherwise the index is an occurrence. Without wraparound it is the smallest occurrence at or after the start offset. With wraparound there is no occurrence at or after the start offset, and the index is the first occurrence in the text, below the start offset |
| `HtmlSearch.RepeatedSearchScenario` | htmlsearch.js:79-87 | "the" in "the quick brown fox the lazy dog" is found at 0, then at 20 from offset 3, then at 0 with wraparound from offset 23 |
| `HtmlSearch.RepeatedSearch` | htmlsearch.js:72-94 | three successive searches for "the" over a one-node page, each started from the range the previous one selected, select offsets 0-3, then 20-23, then 0-3 with wraparound |
| `HtmlSearch.Search` | htmlsearch.js:72-94 | starts at 0, or at `indexAt` of the start range. Returns null when `Locate` finds nothing. A found range starts at the position of the match index and ends at the position of index + pattern length, with the wraparound flag. When the match reaches the end of the text there is no end boundary and the DOM call throws |
| `HtmlSearch.MatchAtEndOfText` | htmlsearch.js:89-91 | searching "bc" in a page whose only text is "abc" ends in the missing-boundary error |
| `HtmlSearch.EndAt` | htmlsearch.js:91 | corrected end lookup: defined for every end offset from 1 to the text length, and placed one past the match's last character in that character's node |
| `HtmlSearch.LocatesAfterIndexAt` | htmlsearch.js:60-70 | `indexAt` of the corrected end boundary for e is e |
| `HtmlSearch.SearchCorrected` | htmlsearch.js:72-94 | same match as `Search`, but every non-empty match yields a range. With distinct nodes, the range's start reads back as the match index and its end as index + pattern length. A match ending at an inner node boundary now ends at (node k, its length) where `Search` gives the next non-empty node at offset 0 (node k+1 when it is not empty); both read back as the same flat offset |

## Findings

| source | as written | input that shows it | evidently intended | confidence | as-written member | corrected member |
|---|---|---|---|---|---|---|
| htmlsearch.js:91 | the end boundary is `nodeAt(textNodes, index + pattern.length)`, which is null when the match ends at the end of the text, so `setEnd.apply(range, null)` throws | a page whose visible text is the single node "abc", pattern "bc" | a match ending at the end of the page is selected, with its end one past its last character | not executed | `HtmlSearch.MatchAtEndOfText` | `HtmlSearch.SearchCorrected` |

## Left out

- `visibleTextNodeWalker`, `makeNodeArray`, `visibleTextNodes` (htmlsearch.js:8-31): they wrap the DOM TreeWalker, and visibility depends on layout (`offsetWidth`, `offsetHeight`, `style.visibility`). Their result, the ordered node list, is an input.
- `select` and `select_match` (htmlsearch.js:96-114): they only manipulate the browser's global selection. The current selection enters `Search` as the optional `startAt` range.
- `document.createRange`, `setStart`, `setEnd` (htmlsearch.js:89-91): DOM calls. They are replaced by a returned pair of boundaries, and their exception on a null argument by `BoundaryMissing`.
- Regular-expression matching, backward search and the retry after verifying the installed selection: this revision of the code has none of them.
- Strings are sequences of `char`, and a `char` stands for one UTF-16 code unit, the unit of `nodeValue.length`, `indexOf` results and Range offsets. Splitting a surrogate pair, by an offset between its halves or by a lone-surrogate pattern, is not modelled.
- Node identity is modelled by an id. Changes to the DOM between calls are not modelled, because the list is rebuilt on every call.
- `HtmlSearch.NodeAt`: takes a non-negative index only, because every caller passes a non-negative one. For a negative index, the JavaScript version returns the first node at offset `index`, whatever that node's length, and null only for an empty list.
- `HtmlSearch.SearchCorrected`: an empty pattern at the very end of the text still has no start boundary, because `nodeAt` is null there. The correction covers non-empty patterns.
