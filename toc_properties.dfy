/** What the output of tools/toc_to_html.py promises: the markers nest
    properly, every node gets exactly one item with its name at its own
    indentation, names keep the input order, and the conversion fails exactly
    on the outlines its assertions reject. */
module TocProperties {
  import opened Outline
  import opened Toc

  datatype Option<T> = None | Some(value: T)

  function Last<T>(s: seq<T>): T
    requires s != []
  {
    s[|s| - 1]
  }

  // ---------------------------------------------------------------------
  // Reading the output back

  /** One open marker while reading the output top to bottom: the outer list,
      an item (whose name line has or has not been read yet), or a sublist. */
  datatype Frame = TocFrame | ItemFrame(depth: nat, named: bool) | ListFrame(depth: nat)

  /** An item at `depth` may open directly inside frame `f`: inside the outer
      list at depth 0, or inside the sublist of a shallower item. */
  predicate ItemFits(f: Frame, depth: nat) {
    (f == TocFrame && depth == 0) || (f.ListFrame? && f.depth < depth)
  }

  /** Reads one output line with the given open markers: a name line must
      come first in its item, a sublist only after the name, every close
      marker must match the innermost open one, at the same indentation. */
  function Step(s: Option<seq<Frame>>, t: Tok): Option<seq<Frame>> {
    if s.None? then None
    else
      var open := s.value;
      match t
      case TocOpen => if open == [] then Some([TocFrame]) else None
      case TocClose =>
        if open != [] && Last(open) == TocFrame then Some(open[..|open| - 1]) else None
      case ItemOpen(d) =>
        if open != [] && ItemFits(Last(open), d) then Some(open + [ItemFrame(d, false)]) else None
      case ItemName(d, _) =>
        if open != [] && Last(open) == ItemFrame(d, false)
        then Some(open[..|open| - 1] + [ItemFrame(d, true)]) else None
      case ItemClose(d) =>
        if open != [] && Last(open) == ItemFrame(d, true) then Some(open[..|open| - 1]) else None
      case ListOpen(d) =>
        if open != [] && Last(open) == ItemFrame(d, true) then Some(open + [ListFrame(d)]) else None
      case ListClose(d) =>
        if open != [] && Last(open) == ListFrame(d) then Some(open[..|open| - 1]) else None
  }

  /** The markers still open after reading `toks`, or None if they misnest. */
  function Scan(toks: seq<Tok>): Option<seq<Frame>> {
    if toks == [] then Some([]) else Step(Scan(toks[..|toks| - 1]), Last(toks))
  }

  /** The four kinds of marker line. */
  datatype Marker = ItemOpens | ItemCloses | ListOpens | ListCloses

  predicate IsMarker(t: Tok, m: Marker) {
    match m
    case ItemOpens => t.ItemOpen?
    case ItemCloses => t.ItemClose?
    case ListOpens => t.ListOpen?
    case ListCloses => t.ListClose?
  }

  /** The number of marker lines of kind `m` in `toks`. */
  function Count(toks: seq<Tok>, m: Marker): nat {
    if toks == [] then 0 else Count(toks[..|toks| - 1], m) + (if IsMarker(Last(toks), m) then 1 else 0)
  }

  /** The node a name line shows, if the line is one. */
  function EntryOf(t: Tok): seq<Node> {
    if t.ItemName? then [Node(t.name, t.depth)] else []
  }

  /** The name lines of the output, in order, each with the level of its
      indentation. */
  function Entries(toks: seq<Tok>): seq<Node> {
    if toks == [] then [] else Entries(toks[..|toks| - 1]) + EntryOf(Last(toks))
  }

  lemma ScanSnoc(toks: seq<Tok>, t: Tok)
    ensures Scan(toks + [t]) == Step(Scan(toks), t)
  {
    assert (toks + [t])[..|toks|] == toks;
  }

  lemma CountSnoc(toks: seq<Tok>, t: Tok)
    ensures forall m :: Count(toks + [t], m) == Count(toks, m) + (if IsMarker(t, m) then 1 else 0)
  {
    assert (toks + [t])[..|toks|] == toks;
  }

  lemma EntriesSnoc(toks: seq<Tok>, t: Tok)
    ensures Entries(toks + [t]) == Entries(toks) + EntryOf(t)
  {
    assert (toks + [t])[..|toks|] == toks;
  }

  // ---------------------------------------------------------------------
  // The recursion of dump. Each property is proved by a pair of lemmas
  // following Siblings and AfterChildren.

  /** dump only appends to the buffer. */
  lemma {:induction false} SiblingsKeepsPrefix(html: seq<Tok>, nodes: seq<Node>, level: nat, i: nat, end: nat)
    requires i <= end <= |nodes|
    requires i < end ==> nodes[i].level == level
    ensures html <= Siblings(html, nodes, level, i, end).html
    decreases end - i, 1
  {
    if i < end {
      var named := html + [ItemOpen(level)] + [ItemName(level, nodes[i].name)];
      if i + 1 < end && nodes[i + 1].level > level {
        var listed := named + [ListOpen(level)];
        var sub := Siblings(listed, nodes, nodes[i + 1].level, i + 1, end);
        SiblingsKeepsPrefix(listed, nodes, nodes[i + 1].level, i + 1, end);
        if sub.next.Ok? {
          AfterKeepsPrefix(sub.html + [ListClose(level)], nodes, level, i, sub.next.value, end);
        }
      } else {
        AfterKeepsPrefix(named, nodes, level, i, i + 1, end);
      }
    }
  }

  lemma {:induction false} AfterKeepsPrefix(html: seq<Tok>, nodes: seq<Node>, level: nat, i: nat, k: nat, end: nat)
    requires i < k <= end <= |nodes|
    ensures html <= AfterChildren(html, nodes, level, i, k, end).html
    decreases end - i, 0
  {
    if k < end && nodes[k].level == level {
      SiblingsKeepsPrefix(html + [ItemClose(level)], nodes, level, k, end);
    }
  }

  /** A run of siblings stops at the end of its range or at the first node
      shallower than its level; every node it consumes is at least that
      deep. */
  lemma {:induction false} SiblingsStops(html: seq<Tok>, nodes: seq<Node>, level: nat, i: nat, end: nat)
    requires i <= end <= |nodes|
    requires i < end ==> nodes[i].level == level
    ensures var d := Siblings(html, nodes, level, i, end);
      d.next.Ok? ==>
        && (d.next.value < end ==> nodes[d.next.value].level < level)
        && forall t :: i <= t < d.next.value ==> nodes[t].level >= level
    decreases end - i, 1
  {
    if i < end {
      var named := html + [ItemOpen(level)] + [ItemName(level, nodes[i].name)];
      if i + 1 < end && nodes[i + 1].level > level {
        var listed := named + [ListOpen(level)];
        var sub := Siblings(listed, nodes, nodes[i + 1].level, i + 1, end);
        SiblingsStops(listed, nodes, nodes[i + 1].level, i + 1, end);
        if sub.next.Ok? {
          AfterStops(sub.html + [ListClose(level)], nodes, level, i, sub.next.value, end);
        }
      } else {
        AfterStops(named, nodes, level, i, i + 1, end);
      }
    }
  }

  lemma {:induction false} AfterStops(html: seq<Tok>, nodes: seq<Node>, level: nat, i: nat, k: nat, end: nat)
    requires i < k <= end <= |nodes|
    requires forall t :: i <= t < k ==> nodes[t].level >= level
    ensures var d := AfterChildren(html, nodes, level, i, k, end);
      d.next.Ok? ==>
        && (d.next.value < end ==> nodes[d.next.value].level < level)
        && forall t :: i <= t < d.next.value ==> nodes[t].level >= level
    decreases end - i, 0
  {
    if k < end && nodes[k].level == level {
      SiblingsStops(html + [ItemClose(level)], nodes, level, k, end);
    }
  }

  /** Every node consumed adds one item open and one item close marker;
      sublist open and close markers are added in equal numbers. */
  lemma {:induction false} SiblingsCounts(html: seq<Tok>, nodes: seq<Node>, level: nat, i: nat, end: nat)
    requires i <= end <= |nodes|
    requires i < end ==> nodes[i].level == level
    ensures var d := Siblings(html, nodes, level, i, end);
      d.next.Ok? ==>
        && Count(d.html, ItemOpens) == Count(html, ItemOpens) + (d.next.value - i)
        && Count(d.html, ItemCloses) == Count(html, ItemCloses) + (d.next.value - i)
        && Count(d.html, ListOpens) - Count(html, ListOpens)
           == Count(d.html, ListCloses) - Count(html, ListCloses)
    decreases end - i, 2
  {
    if i < end {
      if i + 1 < end && nodes[i + 1].level > level {
        SublistCounts(html, nodes, level, i, end);
      } else {
        LeafCounts(html, nodes, level, i, end);
      }
    }
  }

  /** SiblingsCounts for a node not followed by a sublist. */
  lemma {:induction false} LeafCounts(html: seq<Tok>, nodes: seq<Node>, level: nat, i: nat, end: nat)
    requires i < end <= |nodes|
    requires nodes[i].level == level
    requires !(i + 1 < end && nodes[i + 1].level > level)
    ensures var d := Siblings(html, nodes, level, i, end);
      d.next.Ok? ==>
        && Count(d.html, ItemOpens) == Count(html, ItemOpens) + (d.next.value - i)
        && Count(d.html, ItemCloses) == Count(html, ItemCloses) + (d.next.value - i)
        && Count(d.html, ListOpens) - Count(html, ListOpens)
           == Count(d.html, ListCloses) - Count(html, ListCloses)
    decreases end - i, 1
  {
    var head := html + [ItemOpen(level)];
    var named := head + [ItemName(level, nodes[i].name)];
    CountSnoc(html, ItemOpen(level));
    CountSnoc(head, ItemName(level, nodes[i].name));
    AfterCounts(named, nodes, level, i, i + 1, end);
    assert Siblings(html, nodes, level, i, end) == AfterChildren(named, nodes, level, i, i + 1, end);
  }

  /** SiblingsCounts for a node followed by a sublist. */
  lemma {:induction false} SublistCounts(html: seq<Tok>, nodes: seq<Node>, level: nat, i: nat, end: nat)
    requires i + 1 < end <= |nodes|
    requires nodes[i].level == level < nodes[i + 1].level
    ensures var d := Siblings(html, nodes, level, i, end);
      d.next.Ok? ==>
        && Count(d.html, ItemOpens) == Count(html, ItemOpens) + (d.next.value - i)
        && Count(d.html, ItemCloses) == Count(html, ItemCloses) + (d.next.value - i)
        && Count(d.html, ListOpens) - Count(html, ListOpens)
           == Count(d.html, ListCloses) - Count(html, ListCloses)
    decreases end - i, 1
  {
    var head := html + [ItemOpen(level)];
    var named := head + [ItemName(level, nodes[i].name)];
    var listed := named + [ListOpen(level)];
    CountSnoc(html, ItemOpen(level));
    CountSnoc(head, ItemName(level, nodes[i].name));
    CountSnoc(named, ListOpen(level));
    var sub := Siblings(listed, nodes, nodes[i + 1].level, i + 1, end);
    SiblingsCounts(listed, nodes, nodes[i + 1].level, i + 1, end);
    if sub.next.Ok? {
      var closed := sub.html + [ListClose(level)];
      CountSnoc(sub.html, ListClose(level));
      AfterCounts(closed, nodes, level, i, sub.next.value, end);
      assert Siblings(html, nodes, level, i, end) == AfterChildren(closed, nodes, level, i, sub.next.value, end);
    }
  }

  lemma {:induction false} AfterCounts(html: seq<Tok>, nodes: seq<Node>, level: nat, i: nat, k: nat, end: nat)
    requires i < k <= end <= |nodes|
    ensures var d := AfterChildren(html, nodes, level, i, k, end);
      d.next.Ok? ==>
        && Count(d.html, ItemOpens) == Count(html, ItemOpens) + (d.next.value - k)
        && Count(d.html, ItemCloses) == Count(html, ItemCloses) + (d.next.value - k) + 1
        && Count(d.html, ListOpens) - Count(html, ListOpens)
           == Count(d.html, ListCloses) - Count(html, ListCloses)
    decreases end - i, 0
  {
    CountSnoc(html, ItemClose(level));
    if k < end && nodes[k].level == level {
      SiblingsCounts(html + [ItemClose(level)], nodes, level, k, end);
    }
  }

  /** Splitting nodes[i..r] after its first node and again at k. */
  lemma JoinSlices(e: seq<Node>, nodes: seq<Node>, i: nat, k: nat, r: nat)
    requires i < k <= r <= |nodes|
    ensures e + [nodes[i]] + nodes[i + 1..k] + nodes[k..r] == e + nodes[i..r]
  {
    assert nodes[i..r] == [nodes[i]] + nodes[i + 1..k] + nodes[k..r];
  }

  /** The name lines added are the consumed nodes, in input order, each at
      its own level. */
  lemma {:induction false} SiblingsEntries(html: seq<Tok>, nodes: seq<Node>, level: nat, i: nat, end: nat)
    requires i <= end <= |nodes|
    requires i < end ==> nodes[i].level == level
    ensures var d := Siblings(html, nodes, level, i, end);
      d.next.Ok? ==> Entries(d.html) == Entries(html) + nodes[i..d.next.value]
    decreases end - i, 2
  {
    if i < end {
      if i + 1 < end && nodes[i + 1].level > level {
        SublistEntries(html, nodes, level, i, end);
      } else {
        var head := html + [ItemOpen(level)];
        var named := head + [ItemName(level, nodes[i].name)];
        EntriesSnoc(html, ItemOpen(level));
        EntriesSnoc(head, ItemName(level, nodes[i].name));
        AfterEntries(named, nodes, level, i, i + 1, end);
        var d := AfterChildren(named, nodes, level, i, i + 1, end);
        assert Siblings(html, nodes, level, i, end) == d;
        if d.next.Ok? {
          JoinSlices(Entries(html), nodes, i, i + 1, d.next.value);
          assert nodes[i + 1..i + 1] == [];
        }
      }
    }
  }

  /** SiblingsEntries for a node followed by a sublist. */
  lemma {:induction false} SublistEntries(html: seq<Tok>, nodes: seq<Node>, level: nat, i: nat, end: nat)
    requires i + 1 < end <= |nodes|
    requires nodes[i].level == level < nodes[i + 1].level
    ensures var d := Siblings(html, nodes, level, i, end);
      d.next.Ok? ==> Entries(d.html) == Entries(html) + nodes[i..d.next.value]
    decreases end - i, 1
  {
    var head := html + [ItemOpen(level)];
    var named := head + [ItemName(level, nodes[i].name)];
    var listed := named + [ListOpen(level)];
    var e := Entries(html);
    EntriesSnoc(html, ItemOpen(level));
    EntriesSnoc(head, ItemName(level, nodes[i].name));
    EntriesSnoc(named, ListOpen(level));
    assert Entries(listed) == e + [nodes[i]];
    var sub := Siblings(listed, nodes, nodes[i + 1].level, i + 1, end);
    SiblingsEntries(listed, nodes, nodes[i + 1].level, i + 1, end);
    if sub.next.Ok? {
      var k := sub.next.value;
      var closed := sub.html + [ListClose(level)];
      EntriesSnoc(sub.html, ListClose(level));
      assert Entries(closed) == e + [nodes[i]] + nodes[i + 1..k];
      AfterEntries(closed, nodes, level, i, k, end);
      var d := AfterChildren(closed, nodes, level, i, k, end);
      assert Siblings(html, nodes, level, i, end) == d;
      if d.next.Ok? {
        JoinSlices(e, nodes, i, k, d.next.value);
      }
    }
  }

  lemma {:induction false} AfterEntries(html: seq<Tok>, nodes: seq<Node>, level: nat, i: nat, k: nat, end: nat)
    requires i < k <= end <= |nodes|
    ensures var d := AfterChildren(html, nodes, level, i, k, end);
      d.next.Ok? ==> Entries(d.html) == Entries(html) + nodes[k..d.next.value]
    decreases end - i, 0
  {
    EntriesSnoc(html, ItemClose(level));
    if k < end && nodes[k].level == level {
      SiblingsEntries(html + [ItemClose(level)], nodes, level, k, end);
    }
  }

  /** An item's open marker and name line, read inside a frame that may
      hold the item, leave the item open and named. */
  lemma ItemHeadScan(html: seq<Tok>, level: nat, name: string, s: seq<Frame>)
    requires Scan(html) == Some(s) && s != [] && ItemFits(Last(s), level)
    ensures Scan(html + [ItemOpen(level)] + [ItemName(level, name)]) == Some(s + [ItemFrame(level, true)])
  {
    var head := html + [ItemOpen(level)];
    ScanSnoc(html, ItemOpen(level));
    ScanSnoc(head, ItemName(level, name));
    assert (s + [ItemFrame(level, false)])[..|s|] == s;
  }

  /** Inside a frame that may hold an item at `level`, the lines added by a
      successful run of siblings open and close properly and leave the same
      markers open. */
  lemma {:induction false} SiblingsNested(html: seq<Tok>, nodes: seq<Node>, level: nat, i: nat, end: nat, s: seq<Frame>)
    requires i <= end <= |nodes|
    requires i < end ==> nodes[i].level == level
    requires Scan(html) == Some(s) && s != [] && ItemFits(Last(s), level)
    ensures var d := Siblings(html, nodes, level, i, end);
      d.next.Ok? ==> Scan(d.html) == Some(s)
    decreases end - i, 2
  {
    if i < end {
      if i + 1 < end && nodes[i + 1].level > level {
        SublistNested(html, nodes, level, i, end, s);
      } else {
        var named := html + [ItemOpen(level)] + [ItemName(level, nodes[i].name)];
        ItemHeadScan(html, level, nodes[i].name, s);
        AfterNested(named, nodes, level, i, i + 1, end, s);
        assert Siblings(html, nodes, level, i, end) == AfterChildren(named, nodes, level, i, i + 1, end);
      }
    }
  }

  /** SiblingsNested for a node followed by a sublist. */
  lemma {:induction false} SublistNested(html: seq<Tok>, nodes: seq<Node>, level: nat, i: nat, end: nat, s: seq<Frame>)
    requires i + 1 < end <= |nodes|
    requires nodes[i].level == level < nodes[i + 1].level
    requires Scan(html) == Some(s) && s != [] && ItemFits(Last(s), level)
    ensures var d := Siblings(html, nodes, level, i, end);
      d.next.Ok? ==> Scan(d.html) == Some(s)
    decreases end - i, 1
  {
    var named := html + [ItemOpen(level)] + [ItemName(level, nodes[i].name)];
    var listed := named + [ListOpen(level)];
    var s2 := s + [ItemFrame(level, true)];
    var s3 := s2 + [ListFrame(level)];
    ItemHeadScan(html, level, nodes[i].name, s);
    ScanSnoc(named, ListOpen(level));
    var sub := Siblings(listed, nodes, nodes[i + 1].level, i + 1, end);
    SiblingsNested(listed, nodes, nodes[i + 1].level, i + 1, end, s3);
    if sub.next.Ok? {
      var closed := sub.html + [ListClose(level)];
      ScanSnoc(sub.html, ListClose(level));
      assert s3[..|s2|] == s2;
      AfterNested(closed, nodes, level, i, sub.next.value, end, s);
      assert Siblings(html, nodes, level, i, end) == AfterChildren(closed, nodes, level, i, sub.next.value, end);
    }
  }

  lemma {:induction false} AfterNested(html: seq<Tok>, nodes: seq<Node>, level: nat, i: nat, k: nat, end: nat, s: seq<Frame>)
    requires i < k <= end <= |nodes|
    requires Scan(html) == Some(s + [ItemFrame(level, true)]) && s != [] && ItemFits(Last(s), level)
    ensures var d := AfterChildren(html, nodes, level, i, k, end);
      d.next.Ok? ==> Scan(d.html) == Some(s)
    decreases end - i, 0
  {
    ScanSnoc(html, ItemClose(level));
    assert (s + [ItemFrame(level, true)])[..|s|] == s;
    if k < end && nodes[k].level == level {
      SiblingsNested(html + [ItemClose(level)], nodes, level, k, end, s);
    }
  }

  // ---------------------------------------------------------------------
  // Which outlines dump accepts

  /** Node m is an earlier sibling of node j: same level, and every node
      between them is deeper. */
  predicate SiblingOf(nodes: seq<Node>, m: nat, j: nat) {
    && m < j < |nodes|
    && nodes[m].level == nodes[j].level
    && forall t :: m < t < j ==> nodes[t].level > nodes[j].level
  }

  /** Node j either opens a sublist under node j - 1 (at any greater depth)
      or continues the list of an earlier sibling. */
  predicate Placeable(nodes: seq<Node>, j: nat)
    requires 0 < j < |nodes|
  {
    nodes[j - 1].level < nodes[j].level || exists m: nat :: m < j && SiblingOf(nodes, m, j)
  }

  /** The outlines `convert` accepts once parsed: at least one node, the
      first at level 0, every later node placeable. */
  predicate ValidOutline(nodes: seq<Node>) {
    && |nodes| > 0
    && nodes[0].level == 0
    && forall j :: 0 < j < |nodes| ==> Placeable(nodes, j)
  }

  /** A run of siblings whose later nodes are all placeable does not fail. */
  lemma {:induction false} SiblingsSucceeds(html: seq<Tok>, nodes: seq<Node>, level: nat, i: nat, end: nat)
    requires i <= end <= |nodes|
    requires i < end ==> nodes[i].level == level
    requires forall j :: i < j < end ==> Placeable(nodes, j)
    ensures Siblings(html, nodes, level, i, end).next.Ok?
    decreases end - i, 1
  {
    if i < end {
      var named := html + [ItemOpen(level)] + [ItemName(level, nodes[i].name)];
      if i + 1 < end && nodes[i + 1].level > level {
        var listed := named + [ListOpen(level)];
        var child := nodes[i + 1].level;
        var sub := Siblings(listed, nodes, child, i + 1, end);
        SiblingsSucceeds(listed, nodes, child, i + 1, end);
        SiblingsStops(listed, nodes, child, i + 1, end);
        var k := sub.next.value;
        if k < end {
          // Node k ends the sublist, so it is shallower than `child`; being
          // placeable, it lines up with an ancestor no deeper than node i.
          assert Placeable(nodes, k);
          assert nodes[k - 1].level >= child;
          var m: nat :| m < k && SiblingOf(nodes, m, k);
          assert nodes[k].level <= level;
        }
        AfterSucceeds(sub.html + [ListClose(level)], nodes, level, i, k, end);
      } else {
        AfterSucceeds(named, nodes, level, i, i + 1, end);
      }
    }
  }

  lemma {:induction false} AfterSucceeds(html: seq<Tok>, nodes: seq<Node>, level: nat, i: nat, k: nat, end: nat)
    requires i < k <= end <= |nodes|
    requires k < end ==> nodes[k].level <= level
    requires forall j :: k < j < end ==> Placeable(nodes, j)
    ensures AfterChildren(html, nodes, level, i, k, end).next.Ok?
    decreases end - i, 0
  {
    if k < end && nodes[k].level == level {
      SiblingsSucceeds(html + [ItemClose(level)], nodes, level, k, end);
    }
  }

  /** Every node that a successful run of siblings consumes after its first
      is placeable. */
  lemma {:induction false} SiblingsPlaceable(html: seq<Tok>, nodes: seq<Node>, level: nat, i: nat, end: nat)
    requires i <= end <= |nodes|
    requires i < end ==> nodes[i].level == level
    ensures var d := Siblings(html, nodes, level, i, end);
      d.next.Ok? ==> forall j :: i < j < d.next.value ==> Placeable(nodes, j)
    decreases end - i, 1
  {
    if i < end {
      var named := html + [ItemOpen(level)] + [ItemName(level, nodes[i].name)];
      if i + 1 < end && nodes[i + 1].level > level {
        var listed := named + [ListOpen(level)];
        var child := nodes[i + 1].level;
        var sub := Siblings(listed, nodes, child, i + 1, end);
        SiblingsPlaceable(listed, nodes, child, i + 1, end);
        SiblingsStops(listed, nodes, child, i + 1, end);
        if sub.next.Ok? {
          var k := sub.next.value;
          assert Placeable(nodes, i + 1);
          AfterPlaceable(sub.html + [ListClose(level)], nodes, level, i, k, end);
        }
      } else {
        AfterPlaceable(named, nodes, level, i, i + 1, end);
      }
    }
  }

  lemma {:induction false} AfterPlaceable(html: seq<Tok>, nodes: seq<Node>, level: nat, i: nat, k: nat, end: nat)
    requires i < k <= end <= |nodes|
    requires nodes[i].level == level
    requires forall t :: i < t < k ==> nodes[t].level > level
    ensures var d := AfterChildren(html, nodes, level, i, k, end);
      d.next.Ok? ==> forall j :: k <= j < d.next.value ==> Placeable(nodes, j)
    decreases end - i, 0
  {
    if k < end && nodes[k].level == level {
      assert SiblingOf(nodes, i, k);
      assert Placeable(nodes, k);
      SiblingsPlaceable(html + [ItemClose(level)], nodes, level, k, end);
    }
  }

  // ---------------------------------------------------------------------
  // dump and convert

  /** `dump` returns an index past its first node and within its range; when
      it stops early, the node there is shallower than its level; at level 0
      it consumes the whole range. */
  lemma DumpReturns(html: seq<Tok>, nodes: seq<Node>, level: nat, begin: nat, end: nat)
    requires begin <= end <= |nodes|
    ensures var d := DumpSpec(html, nodes, level, begin, end);
      d.next.Ok? ==>
        && begin < |nodes| && nodes[begin].level == level
        && begin <= d.next.value <= end
        && (begin < end ==> begin < d.next.value)
        && (d.next.value < end ==> nodes[d.next.value].level < level)
        && (level == 0 ==> d.next.value == end)
  {
    if begin < |nodes| && nodes[begin].level == level {
      SiblingsStops(html, nodes, level, begin, end);
    }
  }

  /** The top-level `dump` of `convert` succeeds exactly on valid outlines:
      an empty outline, a first line that is indented, or a node that returns
      to a level no open item has all fail. */
  lemma TocTokensOkIff(nodes: seq<Node>)
    ensures TocTokens(nodes).Ok? <==> ValidOutline(nodes)
  {
    if |nodes| > 0 && nodes[0].level == 0 {
      var n := |nodes|;
      if ValidOutline(nodes) {
        SiblingsSucceeds([TocOpen], nodes, 0, 0, n);
      }
      SiblingsStops([TocOpen], nodes, 0, 0, n);
      SiblingsPlaceable([TocOpen], nodes, 0, 0, n);
    }
  }

  /** A successful conversion opens the outer list first and closes it
      last. */
  lemma TocTokensFramed(nodes: seq<Node>)
    requires TocTokens(nodes).Ok?
    ensures var toks := TocTokens(nodes).value;
      |toks| >= 2 && toks[0] == TocOpen && Last(toks) == TocClose
  {
    var d := Siblings([TocOpen], nodes, 0, 0, |nodes|);
    SiblingsKeepsPrefix([TocOpen], nodes, 0, 0, |nodes|);
    assert d.html[0] == TocOpen;
  }

  /** The markers of a successful conversion nest properly, every close at
      the indentation of its open, and none is left open. */
  lemma TocTokensNested(nodes: seq<Node>)
    requires TocTokens(nodes).Ok?
    ensures Scan(TocTokens(nodes).value) == Some([])
  {
    var start := [TocOpen];
    var d := Siblings(start, nodes, 0, 0, |nodes|);
    ScanSnoc([], TocOpen);
    assert [] + [TocOpen] == start;
    SiblingsNested(start, nodes, 0, 0, |nodes|, [TocFrame]);
    ScanSnoc(d.html, TocClose);
  }

  /** A successful conversion has one item open and one item close marker
      per node, and as many sublist opens as sublist closes. */
  lemma TocTokensCounts(nodes: seq<Node>)
    requires TocTokens(nodes).Ok?
    ensures var toks := TocTokens(nodes).value;
      && Count(toks, ItemOpens) == |nodes| && Count(toks, ItemCloses) == |nodes|
      && Count(toks, ListOpens) == Count(toks, ListCloses)
  {
    var start := [TocOpen];
    var d := Siblings(start, nodes, 0, 0, |nodes|);
    SiblingsStops(start, nodes, 0, 0, |nodes|);
    SiblingsCounts(start, nodes, 0, 0, |nodes|);
    CountSnoc([], TocOpen);
    assert [] + [TocOpen] == start;
    CountSnoc(d.html, TocClose);
  }

  /** The name lines of a successful conversion are the nodes, in input
      order, each at its own level. */
  lemma TocTokensEntries(nodes: seq<Node>)
    requires TocTokens(nodes).Ok?
    ensures Entries(TocTokens(nodes).value) == nodes
  {
    var start := [TocOpen];
    var d := Siblings(start, nodes, 0, 0, |nodes|);
    SiblingsStops(start, nodes, 0, 0, |nodes|);
    SiblingsEntries(start, nodes, 0, 0, |nodes|);
    EntriesSnoc([], TocOpen);
    assert [] + [TocOpen] == start;
    assert Entries(start) == [];
    assert Entries(d.html) == nodes[0..|nodes|] == nodes;
    EntriesSnoc(d.html, TocClose);
  }

  /** `convert` succeeds exactly when parsing succeeds (every line has a
      multiple of four leading spaces) and the parsed outline is valid. */
  lemma ConvertOkIff(text: seq<string>)
    ensures ConvertSpec(text).Ok? <==> ParseSpec(text).Ok? && ValidOutline(ParseSpec(text).value)
  {
    if ParseSpec(text).Ok? {
      TocTokensOkIff(ParseSpec(text).value);
    }
  }

  /** A successful `convert` emits, one line per token of TocTokens, the
      header first, the footer last, and one name line per input line, in
      input order, indented by two spaces per level. */
  lemma ConvertShape(text: seq<string>)
    requires ConvertSpec(text).Ok?
    ensures ParseSpec(text).Ok? && WellIndented(text) && TocTokens(ParseSpec(text).value).Ok?
    ensures var out := ConvertSpec(text).value;
      var toks := TocTokens(ParseSpec(text).value).value;
      && out == RenderAll(toks)
      && out[0] == TocHeader && Last(out) == "</ul>"
      && |Entries(toks)| == |text|
      && forall k :: 0 <= k < |text| ==> Entries(toks)[k] == ParseLine(k, text[k]).value
  {
    ParseSpecOk(text);
    var nodes := ParseSpec(text).value;
    TocTokensFramed(nodes);
    TocTokensEntries(nodes);
  }

  /** Reading an output line's leading spaces back gives twice the depth of
      its token, provided a name line's name does not start with a space. */
  lemma RenderIndent(t: Tok)
    requires !t.TocOpen? && !t.TocClose?
    requires t.ItemName? && t.name != [] ==> t.name[0] != ' '
    ensures LeadingSpaces(Render(t)) == OutputSpacesPerLevel * t.depth
  {
    var n := OutputSpacesPerLevel * t.depth;
    var rest := match t
      case ItemName(_, name) => name
      case ItemOpen(_) => "<li>"
      case ItemClose(_) => "</li>"
      case ListOpen(_) => "<ul>"
      case _ => "</ul>";
    assert Render(t) == Spaces(n) + rest;
    LeadingSpacesUnique(Render(t), n);
  }

  /** Every name line of the output is listed by Entries. */
  lemma {:induction false} NamesListed(toks: seq<Tok>, j: nat)
    requires j < |toks| && toks[j].ItemName?
    ensures Node(toks[j].name, toks[j].depth) in Entries(toks)
    decreases |toks|
  {
    var init := toks[..|toks| - 1];
    if j < |toks| - 1 {
      NamesListed(init, j);
      assert init[j] == toks[j];
    }
  }

  /** Every line of a successful conversion except the outer list's two is
      indented by exactly two spaces per level of its token; the name line of
      a node is at that node's level (ConvertShape). */
  lemma ConvertIndentation(text: seq<string>)
    requires ConvertSpec(text).Ok?
    ensures ParseSpec(text).Ok? && TocTokens(ParseSpec(text).value).Ok?
    ensures var out := ConvertSpec(text).value;
      var toks := TocTokens(ParseSpec(text).value).value;
      && |out| == |toks|
      && forall j :: 0 <= j < |toks| && !toks[j].TocOpen? && !toks[j].TocClose? ==>
           LeadingSpaces(out[j]) == OutputSpacesPerLevel * toks[j].depth
  {
    ParseSpecOk(text);
    var nodes := ParseSpec(text).value;
    var toks := TocTokens(nodes).value;
    TocTokensEntries(nodes);
    forall j | 0 <= j < |toks| && !toks[j].TocOpen? && !toks[j].TocClose?
      ensures LeadingSpaces(RenderAll(toks)[j]) == OutputSpacesPerLevel * toks[j].depth
    {
      if toks[j].ItemName? {
        NamesListed(toks, j);
        var k :| 0 <= k < |nodes| && nodes[k] == Node(toks[j].name, toks[j].depth);
        assert nodes[k] == ParseLine(k, text[k]).value;
      }
      RenderIndent(toks[j]);
    }
  }

  // ---------------------------------------------------------------------
  // Examples

  /** Depths [0, 2, 1]: the sublist at depth 2 returns at node 2, which is
      deeper than level 0, and the assertion after the sublist fails. */
  lemma DepthJumpRejected()
    ensures TocTokens([Node("a", 0), Node("b", 2), Node("c", 1)]) == Err(DepthJump(2))
  {
    var nodes := [Node("a", 0), Node("b", 2), Node("c", 1)];
    var la := [TocOpen] + [ItemOpen(0)] + [ItemName(0, "a")] + [ListOpen(0)];
    var nb := la + [ItemOpen(2)] + [ItemName(2, "b")];
    assert Siblings(la, nodes, 2, 1, 3) == Dumped(nb + [ItemClose(2)], Ok(2));
    assert Siblings([TocOpen], nodes, 0, 0, 3)
      == Dumped(nb + [ItemClose(2)] + [ListClose(0)], Err(DepthJump(2)));
  }

  /** Depths [0, 2]: a first child more than one level deeper is accepted. */
  lemma SkippedLevelAccepted()
    ensures TocTokens([Node("a", 0), Node("b", 2)]) == Ok([
      TocOpen, ItemOpen(0), ItemName(0, "a"),
      ListOpen(0), ItemOpen(2), ItemName(2, "b"), ItemClose(2), ListClose(0),
      ItemClose(0), TocClose])
  {
    var nodes := [Node("a", 0), Node("b", 2)];
    var la := [TocOpen] + [ItemOpen(0)] + [ItemName(0, "a")] + [ListOpen(0)];
    var cb := la + [ItemOpen(2)] + [ItemName(2, "b")] + [ItemClose(2)];
    assert Siblings(la, nodes, 2, 1, 2) == Dumped(cb, Ok(2));
    var ca := cb + [ListClose(0)] + [ItemClose(0)];
    assert Siblings([TocOpen], nodes, 0, 0, 2) == Dumped(ca, Ok(2));
    assert TocTokens(nodes) == Ok(ca + [TocClose]);
    assert ca + [TocClose] == [
        TocOpen, ItemOpen(0), ItemName(0, "a"),
        ListOpen(0), ItemOpen(2), ItemName(2, "b"), ItemClose(2), ListClose(0),
        ItemClose(0), TocClose];
  }

  /** Depths [0, 1, 1]: two items in one sublist. */
  lemma SiblingSublist()
    ensures TocTokens([Node("a", 0), Node("b", 1), Node("c", 1)]) == Ok([
      TocOpen, ItemOpen(0), ItemName(0, "a"),
      ListOpen(0), ItemOpen(1), ItemName(1, "b"), ItemClose(1),
      ItemOpen(1), ItemName(1, "c"), ItemClose(1), ListClose(0),
      ItemClose(0), TocClose])
  {
    var nodes := [Node("a", 0), Node("b", 1), Node("c", 1)];
    var la := [TocOpen] + [ItemOpen(0)] + [ItemName(0, "a")] + [ListOpen(0)];
    var cb := la + [ItemOpen(1)] + [ItemName(1, "b")] + [ItemClose(1)];
    var cc := cb + [ItemOpen(1)] + [ItemName(1, "c")] + [ItemClose(1)];
    assert Siblings(cb, nodes, 1, 2, 3) == Dumped(cc, Ok(3));
    assert Siblings(la, nodes, 1, 1, 3) == Dumped(cc, Ok(3));
    var ca := cc + [ListClose(0)] + [ItemClose(0)];
    assert Siblings([TocOpen], nodes, 0, 0, 3) == Dumped(ca, Ok(3));
    assert TocTokens(nodes) == Ok(ca + [TocClose]);
    assert ca + [TocClose] == [
        TocOpen, ItemOpen(0), ItemName(0, "a"),
        ListOpen(0), ItemOpen(1), ItemName(1, "b"), ItemClose(1),
        ItemOpen(1), ItemName(1, "c"), ItemClose(1), ListClose(0),
        ItemClose(0), TocClose];
  }

  /** Depths [0, 1, 0]: the sublist ends, its parent item closes, and the
      next top-level item follows. */
  lemma BackToTop()
    ensures TocTokens([Node("a", 0), Node("b", 1), Node("c", 0)]) == Ok([
      TocOpen, ItemOpen(0), ItemName(0, "a"),
      ListOpen(0), ItemOpen(1), ItemName(1, "b"), ItemClose(1), ListClose(0),
      ItemClose(0), ItemOpen(0), ItemName(0, "c"), ItemClose(0), TocClose])
  {
    var nodes := [Node("a", 0), Node("b", 1), Node("c", 0)];
    var la := [TocOpen] + [ItemOpen(0)] + [ItemName(0, "a")] + [ListOpen(0)];
    var cb := la + [ItemOpen(1)] + [ItemName(1, "b")] + [ItemClose(1)];
    assert Siblings(la, nodes, 1, 1, 3) == Dumped(cb, Ok(2));
    var ca := cb + [ListClose(0)] + [ItemClose(0)];
    var cc := ca + [ItemOpen(0)] + [ItemName(0, "c")] + [ItemClose(0)];
    assert Siblings(ca, nodes, 0, 2, 3) == Dumped(cc, Ok(3));
    assert Siblings([TocOpen], nodes, 0, 0, 3) == Dumped(cc, Ok(3));
    assert TocTokens(nodes) == Ok(cc + [TocClose]);
    assert cc + [TocClose] == [
        TocOpen, ItemOpen(0), ItemName(0, "a"),
        ListOpen(0), ItemOpen(1), ItemName(1, "b"), ItemClose(1), ListClose(0),
        ItemClose(0), ItemOpen(0), ItemName(0, "c"), ItemClose(0), TocClose];
  }

  /** An empty outline fails when `dump` reads its first node. */
  lemma EmptyRejected()
    ensures TocTokens([]) == Err(MissingNode(0))
  {
  }

  /** An indented first line fails the level check of the top-level dump. */
  lemma IndentedFirstRejected()
    ensures TocTokens([Node("a", 1)]) == Err(LevelMismatch(0))
  {
  }
}
