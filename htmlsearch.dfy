// Find-in-page over the visible text of a document: the text nodes are
// flattened into one string, a flat offset is translated to a (node, offset)
// position and back, and a forward literal search with one wraparound retry
// yields the range to select.
module HtmlSearch {
  import opened Builtins

  datatype Option<T> = None | Some(value: T)

  /** A DOM text node. The id stands for the node's identity, so two nodes with
      equal text are still different nodes. */
  datatype TextNode = TextNode(id: nat, value: string)

  /** One end of a DOM Range: a container node and an offset into its text. */
  datatype Boundary = Boundary(node: TextNode, offset: nat)

  /** A DOM Range, reduced to its two boundaries. */
  datatype Range = Range(start: Boundary, end: Boundary)

  /** The flat index of a match and whether it was found only after restarting
      the search at offset 0. */
  datatype Hit = Hit(index: nat, wraparound: bool)

  /** What `search` yields: null, the range to select with its wraparound flag,
      or the exception the DOM raises when `nodeAt` returns null for one of
      the two range boundaries. */
  datatype SearchResult = NotFound | Found(range: Range, wraparound: bool) | BoundaryMissing

  /** A tree walker never yields the same node twice. */
  predicate Distinct(nodes: seq<TextNode>)
  {
    forall i, j :: 0 <= i < j < |nodes| ==> nodes[i] != nodes[j]
  }

  // ---------------------------------------------------------------------
  // Flattening
  // ---------------------------------------------------------------------

  /** The node values in list order. */
  function Values(nodes: seq<TextNode>): seq<string>
  {
    seq(|nodes|, i requires 0 <= i < |nodes| => nodes[i].value)
  }

  /** `nodeValues`: collects the value of every node, in order. */
  method NodeValues(nodes: seq<TextNode>) returns (values: seq<string>)
    ensures |values| == |nodes|
    ensures forall i :: 0 <= i < |nodes| ==> values[i] == nodes[i].value
    ensures values == Values(nodes)
  {
    values := [];
    for i := 0 to |nodes|
      invariant |values| == i
      invariant forall k :: 0 <= k < i ==> values[k] == nodes[k].value
    {
      values := values + [nodes[i].value];
    }
  }

  /** `visibleText`: the node values joined with the empty separator. */
  function VisibleText(nodes: seq<TextNode>): string
  {
    Join(Values(nodes))
  }

  /** Where node `k` begins in the flat text: the combined length of the
      values of the nodes before it. `Offset(nodes, |nodes|)` is the sum of
      all value lengths. */
  function Offset(nodes: seq<TextNode>, k: nat): nat
    requires k <= |nodes|
  {
    if k == 0 then 0 else Offset(nodes, k - 1) + |nodes[k - 1].value|
  }

  lemma {:induction false} OffsetMonotone(nodes: seq<TextNode>, j: nat, k: nat)
    requires j <= k <= |nodes|
    ensures Offset(nodes, j) <= Offset(nodes, k)
    decreases k
  {
    if j < k {
      OffsetMonotone(nodes, j, k - 1);
    }
  }

  /** Flattening the first k+1 nodes appends node k's value to the flattening
      of the first k. */
  lemma VisibleTextSnoc(nodes: seq<TextNode>, k: nat)
    requires k < |nodes|
    ensures VisibleText(nodes[..k + 1]) == VisibleText(nodes[..k]) + nodes[k].value
  {
    var vs := Values(nodes[..k + 1]);
    assert vs[..|vs| - 1] == Values(nodes[..k]);
    assert vs[|vs| - 1] == nodes[k].value;
  }

  /** The text of the first k nodes is as long as the values before node k. */
  lemma {:induction false} PrefixLength(nodes: seq<TextNode>, k: nat)
    requires k <= |nodes|
    ensures |VisibleText(nodes[..k])| == Offset(nodes, k)
  {
    if k == 0 {
      assert Values(nodes[..0]) == [];
    } else {
      PrefixLength(nodes, k - 1);
      VisibleTextSnoc(nodes, k - 1);
    }
  }

  /** The text of the first m nodes is a prefix of the whole text. */
  lemma {:induction false} PrefixText(nodes: seq<TextNode>, m: nat)
    requires m <= |nodes|
    ensures VisibleText(nodes[..m]) <= VisibleText(nodes)
    decreases |nodes| - m
  {
    if m == |nodes| {
      assert nodes[..m] == nodes;
    } else {
      PrefixText(nodes, m + 1);
      VisibleTextSnoc(nodes, m);
    }
  }

  /** The flat text is as long as all node values together. */
  lemma TotalLength(nodes: seq<TextNode>)
    ensures |VisibleText(nodes)| == Offset(nodes, |nodes|)
  {
    PrefixLength(nodes, |nodes|);
    assert nodes[..|nodes|] == nodes;
  }

  /** Node k's value sits in the flat text exactly between its start offset
      and the start offset of the next node. */
  lemma VisibleTextSlice(nodes: seq<TextNode>, k: nat)
    requires k < |nodes|
    ensures Offset(nodes, k + 1) <= |VisibleText(nodes)|
    ensures VisibleText(nodes)[Offset(nodes, k)..Offset(nodes, k + 1)] == nodes[k].value
  {
    PrefixText(nodes, k + 1);
    VisibleTextSnoc(nodes, k);
    PrefixLength(nodes, k);
  }

  // ---------------------------------------------------------------------
  // Offset to position
  // ---------------------------------------------------------------------

  /** Node k holds flat offset i: it starts at or before i and ends after it. */
  ghost predicate IsOwner(nodes: seq<TextNode>, i: nat, k: nat)
  {
    k < |nodes| && Offset(nodes, k) <= i < Offset(nodes, k + 1)
  }

  /** `b` is the position of flat offset i: the owning node, with i relative
      to where that node starts. */
  ghost predicate Locates(nodes: seq<TextNode>, i: nat, b: Boundary)
  {
    exists k: nat :: IsOwner(nodes, i, k) && b == Boundary(nodes[k], i - Offset(nodes, k))
  }

  /** `nodeAt`: scans the nodes with a running start offset and returns the
      first node whose end lies beyond `index`, or null past the text. */
  method NodeAt(nodes: seq<TextNode>, index: nat) returns (r: Option<Boundary>)
    ensures r.None? <==> index >= |VisibleText(nodes)|
    ensures r.Some? ==> Locates(nodes, index, r.value)
    ensures r.Some? ==> r.value.node in nodes && r.value.offset < |r.value.node.value|
  {
    var pos := 0;
    for i := 0 to |nodes|
      invariant pos == Offset(nodes, i)
      invariant pos <= index
    {
      var node := nodes[i];
      var nextPos := pos + |node.value|;
      if index < nextPos {
        assert IsOwner(nodes, index, i);
        OffsetMonotone(nodes, i + 1, |nodes|);
        TotalLength(nodes);
        return Some(Boundary(node, index - pos));
      }
      pos := nextPos;
    }
    TotalLength(nodes);
    return None;
  }

  /** The owner of i is the first node whose end offset exceeds i: every
      node before it ends at or before i. */
  lemma OwnerIsFirstExceeding(nodes: seq<TextNode>, i: nat, k: nat)
    ensures IsOwner(nodes, i, k) <==>
      k < |nodes| && i < Offset(nodes, k + 1) &&
      forall j :: 0 < j <= k ==> Offset(nodes, j) <= i
  {
    if IsOwner(nodes, i, k) {
      forall j | 0 < j <= k ensures Offset(nodes, j) <= i {
        OffsetMonotone(nodes, j, k);
      }
    } else if k < |nodes| && i < Offset(nodes, k + 1) && 0 < k {
      assert !(Offset(nodes, k) <= i);
    }
  }

  /** A flat offset has at most one position, so `nodeAt` is determined by
      its contract. */
  lemma LocatesUnique(nodes: seq<TextNode>, i: nat, b1: Boundary, b2: Boundary)
    requires Locates(nodes, i, b1) && Locates(nodes, i, b2)
    ensures b1 == b2
  {
    var k1: nat :| IsOwner(nodes, i, k1) && b1 == Boundary(nodes[k1], i - Offset(nodes, k1));
    var k2: nat :| IsOwner(nodes, i, k2) && b2 == Boundary(nodes[k2], i - Offset(nodes, k2));
    if k1 < k2 {
      OffsetMonotone(nodes, k1 + 1, k2);
    } else if k2 < k1 {
      OffsetMonotone(nodes, k2 + 1, k1);
    }
  }

  /** The flat offset where node k ends is owned by a later node, at local
      offset 0, and by node k+1 itself when that one is not empty: `nodeAt`
      never answers (node k, its length). */
  lemma NodeEndIsNextStart(nodes: seq<TextNode>, k: nat, k': nat)
    requires k < |nodes| && IsOwner(nodes, Offset(nodes, k + 1), k')
    ensures k < k' && Offset(nodes, k') == Offset(nodes, k + 1)
    ensures k + 1 < |nodes| && nodes[k + 1].value != "" ==> k' == k + 1
  {
    if k' <= k {
      OffsetMonotone(nodes, k' + 1, k + 1);
    }
    OffsetMonotone(nodes, k + 1, k');
    if k + 1 < |nodes| && nodes[k + 1].value != "" && k' != k + 1 {
      OffsetMonotone(nodes, k + 2, k');
    }
  }

  // ---------------------------------------------------------------------
  // Position to offset
  // ---------------------------------------------------------------------

  /** `indexAt`: the flat offset of the range's end boundary, or 0 when its
      node is no longer among the text nodes. */
  function IndexAt(nodes: seq<TextNode>, range: Range): (r: nat)
    ensures range.end.node !in nodes ==> r == 0
    ensures forall k :: 0 <= k < |nodes| && nodes[k] == range.end.node && range.end.node !in nodes[..k] ==>
      r == Offset(nodes, k) + range.end.offset
  {
    var k := ArrayIndexOf(nodes, range.end.node);
    if k < 0 then 0
    else
      PrefixLength(nodes, k);
      |VisibleText(nodes[..k])| + range.end.offset
  }

  /** Round trip: the position `nodeAt` gives for i, read back by `indexAt`,
      is i again. */
  lemma NodeAtIndexAt(nodes: seq<TextNode>, i: nat, range: Range)
    requires Distinct(nodes)
    requires Locates(nodes, i, range.end)
    ensures IndexAt(nodes, range) == i
  {
  }

  /** Round trip the other way: a position strictly inside a node's text,
      turned into a flat offset by `indexAt`, is located back at itself. */
  lemma IndexAtNodeAt(nodes: seq<TextNode>, range: Range, k: nat)
    requires Distinct(nodes)
    requires k < |nodes| && range.end.node == nodes[k] && range.end.offset < |nodes[k].value|
    ensures Locates(nodes, IndexAt(nodes, range), range.end)
  {
  }

  // ---------------------------------------------------------------------
  // Forward search with wraparound
  // ---------------------------------------------------------------------

  /** The match logic of `search`: the first occurrence at or after `from`;
      failing that, the first occurrence anywhere, flagged as a wraparound;
      failing that, nothing. */
  function Locate(text: string, pattern: string, from: nat): (h: Option<Hit>)
    ensures h.None? <==> forall i :: !OccursAt(text, pattern, i)
    ensures h.Some? ==> OccursAt(text, pattern, h.value.index)
    ensures h.Some? && !h.value.wraparound ==>
      var start := Clamp(from, |text|);
      start <= h.value.index &&
      forall i :: start <= i < h.value.index ==> !OccursAt(text, pattern, i)
    ensures h.Some? && h.value.wraparound ==>
      var start := Clamp(from, |text|);
      h.value.index < start &&
      (forall i :: start <= i ==> !OccursAt(text, pattern, i)) &&
      (forall i :: 0 <= i < h.value.index ==> !OccursAt(text, pattern, i))
  {
    var index := StringIndexOf(text, pattern, from);
    if index >= 0 then Some(Hit(index, false))
    else
      var index := StringIndexOf(text, pattern, 0);
      if index >= 0 then Some(Hit(index, true)) else None
  }

  /** `search`: a forward search from the end of `startAt` (or from the
      beginning), with one retry from offset 0, whose match is translated
      back into a range over the text nodes. */
  method Search(nodes: seq<TextNode>, pattern: string, startAt: Option<Range>) returns (r: SearchResult)
    ensures var text := VisibleText(nodes);
      var hit := Locate(text, pattern, if startAt.Some? then IndexAt(nodes, startAt.value) else 0);
      match r
      case NotFound => hit.None?
      case BoundaryMissing => hit.Some? && hit.value.index + |pattern| >= |text|
      case Found(range, wraparound) =>
        hit.Some? && wraparound == hit.value.wraparound &&
        hit.value.index + |pattern| < |text| &&
        Locates(nodes, hit.value.index, range.start) &&
        Locates(nodes, hit.value.index + |pattern|, range.end)
  {
    var startOffset := 0;
    if startAt.Some? {
      startOffset := IndexAt(nodes, startAt.value);
    }
    var text := VisibleText(nodes);
    var hit := Locate(text, pattern, startOffset);
    if hit.None? {
      return NotFound;
    }
    var start := NodeAt(nodes, hit.value.index);
    var end := NodeAt(nodes, hit.value.index + |pattern|);
    if start.None? || end.None? {
      return BoundaryMissing;
    }
    return Found(Range(start.value, end.value), hit.value.wraparound);
  }

  /** Searching "the" three times in a row over "the quick brown fox the lazy
      dog": offsets 0, then 20, then 0 again after wrapping around. */
  lemma RepeatedSearchScenario()
    ensures Locate("the quick brown fox the lazy dog", "the", 0) == Some(Hit(0, false))
    ensures Locate("the quick brown fox the lazy dog", "the", 3) == Some(Hit(20, false))
    ensures Locate("the quick brown fox the lazy dog", "the", 23) == Some(Hit(0, true))
  {
    var text := "the quick brown fox the lazy dog";
    assert OccursAt(text, "the", 0);
    assert OccursAt(text, "the", 20);
    forall j | 3 <= j < 20 ensures !OccursAt(text, "the", j) {
      assert text[j..j + 3][0] == text[j];
    }
    forall j | 23 <= j ensures !OccursAt(text, "the", j) {
      if j + 3 <= |text| {
        assert text[j..j + 3][0] == text[j];
      }
    }
  }

  /** The same three searches through `search` itself, over a page whose
      text is one node: each search after the first starts from the range
      the previous one selected, so its start offset comes from `indexAt`. */
  method RepeatedSearch() returns (r1: SearchResult, r2: SearchResult, r3: SearchResult)
    ensures var n := TextNode(0, "the quick brown fox the lazy dog");
      r1 == Found(Range(Boundary(n, 0), Boundary(n, 3)), false) &&
      r2 == Found(Range(Boundary(n, 20), Boundary(n, 23)), false) &&
      r3 == Found(Range(Boundary(n, 0), Boundary(n, 3)), true)
  {
    var n := TextNode(0, "the quick brown fox the lazy dog");
    var nodes := [n];
    assert VisibleText(nodes) == n.value by {
      assert Values(nodes) == [n.value];
      assert [n.value][..0] == [];
      assert Join([n.value]) == Join([]) + n.value;
    }
    assert Offset(nodes, 1) == 32;
    RepeatedSearchScenario();
    assert IsOwner(nodes, 0, 0) && IsOwner(nodes, 3, 0);
    assert IsOwner(nodes, 20, 0) && IsOwner(nodes, 23, 0);
    var first := Range(Boundary(n, 0), Boundary(n, 3));
    var second := Range(Boundary(n, 20), Boundary(n, 23));

    r1 := Search(nodes, "the", None);
    LocatesUnique(nodes, 0, r1.range.start, first.start);
    LocatesUnique(nodes, 3, r1.range.end, first.end);
    assert r1.range == first;

    assert IndexAt(nodes, first) == 3;
    r2 := Search(nodes, "the", Some(r1.range));
    LocatesUnique(nodes, 20, r2.range.start, second.start);
    LocatesUnique(nodes, 23, r2.range.end, second.end);
    assert r2.range == second;

    assert IndexAt(nodes, second) == 23;
    r3 := Search(nodes, "the", Some(r2.range));
    LocatesUnique(nodes, 0, r3.range.start, first.start);
    LocatesUnique(nodes, 3, r3.range.end, first.end);
  }

  /** The character at flat offset i is the character its position names. */
  lemma LocatedCharacter(nodes: seq<TextNode>, i: nat, b: Boundary)
    requires Locates(nodes, i, b)
    ensures i < |VisibleText(nodes)| && b.offset < |b.node.value|
    ensures VisibleText(nodes)[i] == b.node.value[b.offset]
  {
    var k: nat :| IsOwner(nodes, i, k) && b == Boundary(nodes[k], i - Offset(nodes, k));
    VisibleTextSlice(nodes, k);
    assert VisibleText(nodes)[Offset(nodes, k)..Offset(nodes, k + 1)][i - Offset(nodes, k)] ==
      VisibleText(nodes)[i];
  }

  // ---------------------------------------------------------------------
  // A match that ends at the end of the text
  // ---------------------------------------------------------------------

  /** As written, `search` cannot select "bc" in a page whose only text is
      "abc": the end boundary is looked up at offset 3, past the last node. */
  method MatchAtEndOfText() returns (r: SearchResult)
    ensures r == BoundaryMissing
  {
    var nodes := [TextNode(0, "abc")];
    assert VisibleText(nodes) == "abc" by {
      assert Values(nodes) == ["abc"];
      assert Values(nodes)[..0] == [];
    }
    assert OccursAt("abc", "bc", 1);
    assert !OccursAt("abc", "bc", 0) by {
      assert "abc"[0..2][0] == 'a';
    }
    r := Search(nodes, "bc", None);
  }

  /** `b` is the position just after flat offset e-1: inside the node that
      holds the last character before e, one past that character. */
  ghost predicate LocatesAfter(nodes: seq<TextNode>, e: nat, b: Boundary)
  {
    0 < e &&
    exists k: nat :: IsOwner(nodes, e - 1, k) && b == Boundary(nodes[k], e - Offset(nodes, k))
  }

  /** The end boundary of a non-empty match ending at flat offset e, taken
      from the node of its last character, so that e may be the end of the
      text. */
  method EndAt(nodes: seq<TextNode>, e: nat) returns (r: Option<Boundary>)
    ensures r.None? <==> e == 0 || e > |VisibleText(nodes)|
    ensures r.Some? ==> LocatesAfter(nodes, e, r.value)
    ensures r.Some? ==> r.value.node in nodes && 0 < r.value.offset <= |r.value.node.value|
  {
    if e == 0 {
      return None;
    }
    var last := NodeAt(nodes, e - 1);
    if last.None? {
      return None;
    }
    ghost var k: nat :| IsOwner(nodes, e - 1, k) &&
      last.value == Boundary(nodes[k], e - 1 - Offset(nodes, k));
    return Some(Boundary(last.value.node, last.value.offset + 1));
  }

  /** Reading back the end boundary that `EndAt` builds gives e. */
  lemma LocatesAfterIndexAt(nodes: seq<TextNode>, e: nat, range: Range)
    requires Distinct(nodes)
    requires LocatesAfter(nodes, e, range.end)
    ensures IndexAt(nodes, range) == e
  {
  }

  /** `search` with the end boundary of a non-empty match taken after its
      last character: every match is selectable, and the range reads back as
      exactly the matched interval. */
  method SearchCorrected(nodes: seq<TextNode>, pattern: string, startAt: Option<Range>) returns (r: SearchResult)
    ensures var text := VisibleText(nodes);
      var hit := Locate(text, pattern, if startAt.Some? then IndexAt(nodes, startAt.value) else 0);
      match r
      case NotFound => hit.None?
      case BoundaryMissing => hit.Some? && pattern == "" && hit.value.index == |text|
      case Found(range, wraparound) =>
        hit.Some? && wraparound == hit.value.wraparound &&
        Locates(nodes, hit.value.index, range.start) &&
        (pattern == "" ==> range.end == range.start) &&
        (pattern != "" ==> LocatesAfter(nodes, hit.value.index + |pattern|, range.end)) &&
        (Distinct(nodes) ==>
           IndexAt(nodes, Range(range.start, range.start)) == hit.value.index &&
           IndexAt(nodes, range) == hit.value.index + |pattern|)
  {
    var startOffset := 0;
    if startAt.Some? {
      startOffset := IndexAt(nodes, startAt.value);
    }
    var text := VisibleText(nodes);
    var hit := Locate(text, pattern, startOffset);
    if hit.None? {
      return NotFound;
    }
    var start := NodeAt(nodes, hit.value.index);
    if start.None? {
      return BoundaryMissing;
    }
    var end := start;
    if pattern != "" {
      end := EndAt(nodes, hit.value.index + |pattern|);
    }
    assert end.Some?;
    var range := Range(start.value, end.value);
    if Distinct(nodes) {
      NodeAtIndexAt(nodes, hit.value.index, Range(range.start, range.start));
      if pattern == "" {
        NodeAtIndexAt(nodes, hit.value.index, range);
      } else {
        LocatesAfterIndexAt(nodes, hit.value.index + |pattern|, range);
      }
    }
    return Found(range, hit.value.wraparound);
  }
}
