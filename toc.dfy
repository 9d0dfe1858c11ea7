/** The renderer and the driver of tools/toc_to_html.py: `dump` walks the flat
    node list with a cursor and appends one line per list marker or name to a
    shared buffer, opening a sublist when the depth grows and returning to its
    caller when the depth drops below its level; `convert` wraps its output in
    a fixed header and footer. */
module Toc {
  import opened Outline

  /** Spaces of output indentation per outline level. */
  const OutputSpacesPerLevel: nat := 2

  /** The opening line of the whole table of contents. */
  const TocHeader: string := "<ul class=\"toc no-parts\">"

  /** The role of one output line. Item and list markers and name lines
      carry the level whose indentation prefix they are written with. */
  datatype Tok =
    | TocOpen
    | TocClose
    | ItemOpen(depth: nat)
    | ItemName(depth: nat, name: string)
    | ItemClose(depth: nat)
    | ListOpen(depth: nat)
    | ListClose(depth: nat)

  function Spaces(n: nat): (s: string)
    ensures |s| == n
    ensures forall k :: 0 <= k < n ==> s[k] == ' '
  {
    if n == 0 then "" else " " + Spaces(n - 1)
  }

  /** The prefix of every line written at `level`. */
  function Indent(level: nat): (s: string)
    ensures |s| == OutputSpacesPerLevel * level
    ensures forall k :: 0 <= k < |s| ==> s[k] == ' '
  {
    Spaces(OutputSpacesPerLevel * level)
  }

  /** The text of one output line: every line inside the outer list starts
      with the prefix of its level, and a name line holds the name verbatim
      after it. */
  function Render(t: Tok): (line: string)
    ensures !t.TocOpen? && !t.TocClose? ==> Indent(t.depth) <= line
    ensures t.ItemName? ==> line[|Indent(t.depth)|..] == t.name
  {
    match t
    case TocOpen => TocHeader
    case TocClose => "</ul>"
    case ItemOpen(d) => Indent(d) + "<li>"
    case ItemName(d, name) => Indent(d) + name
    case ItemClose(d) => Indent(d) + "</li>"
    case ListOpen(d) => Indent(d) + "<ul>"
    case ListClose(d) => Indent(d) + "</ul>"
  }

  /** The output lines of a token sequence, one line per token. */
  function RenderAll(toks: seq<Tok>): (lines: seq<string>)
    ensures |lines| == |toks|
    ensures forall k :: 0 <= k < |toks| ==> lines[k] == Render(toks[k])
  {
    if toks == [] then [] else RenderAll(toks[..|toks| - 1]) + [Render(toks[|toks| - 1])]
  }

  /** The buffer after one call of `dump`, or after one stretch of its
      loop, and the cursor returned or the failure stopped at. */
  datatype Dumped = Dumped(html: seq<Tok>, next: Result<nat>)

  /** The loop of `dump` at `level` from cursor `i` up to `end`, appending to
      `html` (tools/toc_to_html.py lines 38-59): node i opens an item and
      writes its name; a deeper next node starts a sublist rendered at that
      node's own level; the rest is AfterChildren. */
  function Siblings(html: seq<Tok>, nodes: seq<Node>, level: nat, i: nat, end: nat): (d: Dumped)
    requires i <= end <= |nodes|
    requires i < end ==> nodes[i].level == level
    ensures d.next.Ok? ==> i <= d.next.value <= end && (i < end ==> i < d.next.value)
    ensures d.next.Err? ==> d.next.error.DepthJump? && i < d.next.error.index < end
    decreases end - i, 1
  {
    if i >= end then Dumped(html, Ok(i))
    else
      var named := html + [ItemOpen(level)] + [ItemName(level, nodes[i].name)];
      if i + 1 < end && nodes[i + 1].level > level then
        var sub := Siblings(named + [ListOpen(level)], nodes, nodes[i + 1].level, i + 1, end);
        if sub.next.Err? then sub
        else AfterChildren(sub.html + [ListClose(level)], nodes, level, i, sub.next.value, end)
      else AfterChildren(named, nodes, level, i, i + 1, end)
  }

  /** The end of one iteration of `dump`'s loop for node i, with the cursor
      at k (tools/toc_to_html.py lines 50-57): a node deeper than `level`
      fails the assertion; otherwise the item is closed once, and the loop
      goes on with the next sibling only when node k is at `level`. */
  function AfterChildren(html: seq<Tok>, nodes: seq<Node>, level: nat, i: nat, k: nat, end: nat): (d: Dumped)
    requires i < k <= end <= |nodes|
    ensures d.next.Ok? ==> k <= d.next.value <= end
    ensures d.next.Err? ==> d.next.error.DepthJump? && k <= d.next.error.index < end
    decreases end - i, 0
  {
    if k < end && nodes[k].level > level then Dumped(html, Err(DepthJump(k)))
    else if k < end && nodes[k].level == level then
      Siblings(html + [ItemClose(level)], nodes, level, k, end)
    else Dumped(html + [ItemClose(level)], Ok(k))
  }

  /** `dump(html, nodes, level, begin, end)` (tools/toc_to_html.py lines
      33-59): reading nodes[begin] fails past the end of the list, and its
      level must be the requested one. */
  function DumpSpec(html: seq<Tok>, nodes: seq<Node>, level: nat, begin: nat, end: nat): (d: Dumped)
    requires begin <= end <= |nodes|
    ensures d.next.Ok? ==>
      && begin < |nodes| && nodes[begin].level == level
      && begin <= d.next.value <= end && (begin < end ==> begin < d.next.value)
    ensures d.next.Err? ==>
      || (d.next.error == MissingNode(begin) && begin == |nodes|)
      || (d.next.error == LevelMismatch(begin) && begin < |nodes| && nodes[begin].level != level)
      || (d.next.error.DepthJump? && begin < d.next.error.index < end)
  {
    if begin >= |nodes| then Dumped(html, Err(MissingNode(begin)))
    else if nodes[begin].level != level then Dumped(html, Err(LevelMismatch(begin)))
    else Siblings(html, nodes, level, begin, end)
  }

  /** The roles of the lines of `convert`'s output for a node list: header,
      the top-level `dump` at level 0 over every node, footer
      (tools/toc_to_html.py lines 63-74). */
  function TocTokens(nodes: seq<Node>): (r: Result<seq<Tok>>)
    ensures r.Ok? ==> nodes != [] && nodes[0].level == 0
    ensures r.Err? ==>
      || (r.error == MissingNode(0) && nodes == [])
      || (r.error == LevelMismatch(0) && nodes != [] && nodes[0].level != 0)
      || (r.error.DepthJump? && 0 < r.error.index < |nodes|)
  {
    var body := DumpSpec([TocOpen], nodes, 0, 0, |nodes|);
    if body.next.Err? then Err(body.next.error)
    else Ok(body.html + [TocClose])
  }

  /** `convert(text)` (tools/toc_to_html.py lines 61-74). */
  function ConvertSpec(text: seq<string>): (r: Result<seq<string>>)
    ensures ParseSpec(text).Err? ==> r == Err(ParseSpec(text).error)
    ensures r.Err? && r.error.MissingNode? ==> text == []
    ensures r.Err? && !r.error.MissingNode? ==> r.error.index < |text|
  {
    match ParseSpec(text)
    case Err(e) => Err(e)
    case Ok(nodes) =>
      match TocTokens(nodes)
      case Err(e) => Err(e)
      case Ok(toks) => Ok(RenderAll(toks))
  }

  /** The output buffer `html`, a list of lines that `dump` and `convert`
      append to. The ghost `toks` records the role of every line. */
  class Html {
    var lines: seq<string>
    ghost var toks: seq<Tok>

    ghost predicate Valid()
      reads this
    {
      lines == RenderAll(toks)
    }

    constructor ()
      ensures Valid() && toks == [] && lines == []
    {
      lines := [];
      toks := [];
    }

    /** Appends the line of token `t`. */
    method Emit(t: Tok)
      requires Valid()
      modifies this
      ensures Valid()
      ensures toks == old(toks) + [t]
      ensures lines == old(lines) + [Render(t)]
    {
      assert (toks + [t])[..|toks|] == toks;
      lines := lines + [Render(t)];
      toks := toks + [t];
    }
  }

  /** `dump` (tools/toc_to_html.py lines 33-59): leaves the buffer as
      DumpSpec says and returns its cursor, or stops with its failure, keeping
      what it appended before failing. */
  method Dump(html: Html, nodes: seq<Node>, level: nat, begin: nat, end: nat) returns (r: Result<nat>)
    requires html.Valid()
    requires begin <= end <= |nodes|
    modifies html
    ensures html.Valid()
    ensures html.toks == DumpSpec(old(html.toks), nodes, level, begin, end).html
    ensures r == DumpSpec(old(html.toks), nodes, level, begin, end).next
    decreases end - begin
  {
    var i := begin;
    if i >= |nodes| {
      return Err(MissingNode(i));
    }
    if nodes[i].level != level {
      return Err(LevelMismatch(i));
    }
    ghost var spec := Siblings(html.toks, nodes, level, begin, end);

    while i < end
      invariant begin <= i <= end
      invariant i < end ==> nodes[i].level == level
      invariant html.Valid()
      invariant spec == Siblings(html.toks, nodes, level, i, end)
      decreases end - i
    {
      ghost var node := i;
      html.Emit(ItemOpen(level));
      html.Emit(ItemName(level, nodes[i].name));
      i := i + 1;
      if i < end {
        if nodes[i].level > level {
          html.Emit(ListOpen(level));
          var sub := Dump(html, nodes, nodes[i].level, i, end);
          if sub.Err? {
            return Err(sub.error);
          }
          i := sub.value;
          html.Emit(ListClose(level));
        }
      }
      assert spec == AfterChildren(html.toks, nodes, level, node, i, end);
      if i < end {
        if nodes[i].level > level {
          return Err(DepthJump(i));
        }
        if nodes[i].level < level {
          html.Emit(ItemClose(level));
          break;
        }
      }
      html.Emit(ItemClose(level));
    }
    return Ok(i);
  }

  /** `convert` (tools/toc_to_html.py lines 61-74). */
  method Convert(text: seq<string>) returns (r: Result<seq<string>>)
    ensures r == ConvertSpec(text)
  {
    var parsed := Parse(text);
    if parsed.Err? {
      return Err(parsed.error);
    }
    var nodes := parsed.value;
    var html := new Html();
    html.Emit(TocOpen);
    assert html.toks == [TocOpen];
    var done := Dump(html, nodes, 0, 0, |nodes|);
    if done.Err? {
      return Err(done.error);
    }
    html.Emit(TocClose);
    return Ok(html.lines);
  }
}
