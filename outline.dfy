/** The outline parser of tools/toc_to_html.py: every input line becomes one
    node whose level is its count of leading spaces divided by four and whose
    name is the rest of the line with surrounding whitespace stripped. */
module Outline {

  /** Spaces of input indentation per outline level. */
  const InputSpacesPerLevel: nat := 4

  /** One outline entry: its stripped text and its nesting level. */
  datatype Node = Node(name: string, level: nat)

  /** The ways a conversion fails, shared by the parser and the renderer:
      `parse` raises the first, `dump` the other three. `index` is the
      position of the offending line or node. */
  datatype Error =
    | MalformedIndentation(index: nat)  // a line's leading spaces are not a multiple of four
    | MissingNode(index: nat)           // the renderer was asked for a node past the end
    | LevelMismatch(index: nat)         // the first node of a rendered range is not at its level
    | DepthJump(index: nat)             // after a sublist, a node sits between two open levels

  datatype Result<T> = Ok(value: T) | Err(error: Error)

  /** The characters Python's str.strip() removes by default (str.isspace),
      written out by code point. */
  function IsWhitespace(c: char): (b: bool)
    ensures c == ' ' || '\t' <= c <= '\r' ==> b
    ensures b && c as int < 0x80 ==> c as int <= 0x20
  {
    var n := c as int;
    || 0x09 <= n <= 0x0D
    || 0x1C <= n <= 0x20
    || n == 0x85 || n == 0xA0 || n == 0x1680
    || 0x2000 <= n <= 0x200A
    || n == 0x2028 || n == 0x2029 || n == 0x202F || n == 0x205F || n == 0x3000
  }

  /** The number of leading ' ' characters of `l`; only the space counts. */
  function LeadingSpaces(l: string): (n: nat)
    ensures n <= |l|
    ensures forall k :: 0 <= k < n ==> l[k] == ' '
    ensures n < |l| ==> l[n] != ' '
  {
    if |l| == 0 || l[0] != ' ' then 0 else 1 + LeadingSpaces(l[1..])
  }

  /** The leading-space count is the only n with n spaces in front of a
      character that is not a space (or of the end of the line). */
  lemma LeadingSpacesUnique(l: string, n: nat)
    requires n <= |l|
    requires forall k :: 0 <= k < n ==> l[k] == ' '
    requires n < |l| ==> l[n] != ' '
    ensures LeadingSpaces(l) == n
  {
    var m := LeadingSpaces(l);
    if n < |l| {
      assert l[n] != ' ';
    }
    if m < |l| {
      assert l[m] != ' ';
    }
  }

  /** `s` without its longest whitespace prefix. */
  function TrimStart(s: string): (t: string)
    ensures |t| <= |s|
  {
    if |s| == 0 || !IsWhitespace(s[0]) then s else TrimStart(s[1..])
  }

  /** `s` without its longest whitespace suffix. */
  function TrimEnd(s: string): (t: string)
    ensures |t| <= |s|
  {
    if |s| == 0 || !IsWhitespace(s[|s| - 1]) then s else TrimEnd(s[..|s| - 1])
  }

  /** Python's str.strip() with no argument. */
  function Strip(s: string): (r: string)
    ensures |r| <= |s|
    ensures r != [] ==> !IsWhitespace(r[0]) && !IsWhitespace(r[|r| - 1])
  {
    var t := TrimStart(s);
    TrimStartFacts(s);
    TrimEndFacts(t);
    TrimEnd(t)
  }

  /** TrimStart removes a prefix made of whitespace only, and keeps no
      leading whitespace. */
  lemma {:induction false} TrimStartFacts(s: string)
    ensures TrimStart(s) == s[|s| - |TrimStart(s)|..]
    ensures forall k :: 0 <= k < |s| - |TrimStart(s)| ==> IsWhitespace(s[k])
    ensures TrimStart(s) != [] ==> !IsWhitespace(TrimStart(s)[0])
  {
    if |s| > 0 && IsWhitespace(s[0]) {
      var rest := s[1..];
      TrimStartFacts(rest);
      var t := TrimStart(rest);
      assert TrimStart(s) == t;
      assert rest[|rest| - |t|..] == s[|s| - |t|..];
      forall k | 0 <= k < |s| - |t|
        ensures IsWhitespace(s[k])
      {
        if k > 0 {
          assert s[k] == rest[k - 1];
        }
      }
    }
  }

  /** TrimEnd removes a suffix made of whitespace only, and keeps no
      trailing whitespace. */
  lemma {:induction false} TrimEndFacts(s: string)
    ensures TrimEnd(s) == s[..|TrimEnd(s)|]
    ensures forall k :: |TrimEnd(s)| <= k < |s| ==> IsWhitespace(s[k])
    ensures TrimEnd(s) != [] ==> !IsWhitespace(TrimEnd(s)[|TrimEnd(s)| - 1])
  {
    if |s| > 0 && IsWhitespace(s[|s| - 1]) {
      var init := s[..|s| - 1];
      TrimEndFacts(init);
      var t := TrimEnd(init);
      assert TrimEnd(s) == t;
      assert init[..|t|] == s[..|t|];
      forall k | |t| <= k < |s|
        ensures IsWhitespace(s[k])
      {
        if k < |s| - 1 {
          assert s[k] == init[k];
        }
      }
    }
  }

  /** TrimStart stops at the first non-whitespace character. */
  lemma TrimStartAt(s: string, p: nat)
    requires p < |s|
    requires forall k :: 0 <= k < p ==> IsWhitespace(s[k])
    requires !IsWhitespace(s[p])
    ensures TrimStart(s) == s[p..]
  {
    TrimStartFacts(s);
    var t := TrimStart(s);
    var a := |s| - |t|;
    assert a <= p;
    assert t[0] == s[a];
  }

  /** Trimming the end of s[p..] stops after the last non-whitespace
      character. */
  lemma TrimEndAt(s: string, p: nat, q: nat)
    requires p < q <= |s|
    requires forall k :: q <= k < |s| ==> IsWhitespace(s[k])
    requires !IsWhitespace(s[q - 1])
    ensures TrimEnd(s[p..]) == s[p..q]
  {
    var t := s[p..];
    TrimEndFacts(t);
    var u := TrimEnd(t);
    assert t[q - 1 - p] == s[q - 1];
    assert p + |u| >= q;
    assert u[|u| - 1] == s[p + |u| - 1];
  }

  /** A line strips to the text between its first and its last
      non-whitespace character. */
  lemma StripKeepsCore(s: string, p: nat, q: nat)
    requires p < q <= |s|
    requires forall k :: 0 <= k < p ==> IsWhitespace(s[k])
    requires forall k :: q <= k < |s| ==> IsWhitespace(s[k])
    requires !IsWhitespace(s[p]) && !IsWhitespace(s[q - 1])
    ensures Strip(s) == s[p..q]
  {
    TrimStartAt(s, p);
    TrimEndAt(s, p, q);
  }

  /** A line strips to the empty name exactly when it is all whitespace. */
  lemma StripEmptyIffBlank(s: string)
    ensures Strip(s) == [] <==> forall k :: 0 <= k < |s| ==> IsWhitespace(s[k])
  {
    TrimStartFacts(s);
    var t := TrimStart(s);
    TrimEndFacts(t);
    if t != [] {
      assert t[0] == s[|s| - |t|];
      assert TrimEnd(t) != [];
    }
  }

  /** The node one line becomes (tools/toc_to_html.py lines 21-28): the line
      with its leading spaces removed, then stripped, at level spaces / 4. */
  function ParseLine(index: nat, l: string): (r: Result<Node>)
    ensures r.Err? ==> r == Err(MalformedIndentation(index))
    ensures r.Ok? ==> r.value.level * InputSpacesPerLevel + |r.value.name| <= |l|
    ensures r.Ok? && r.value.name != [] ==>
      !IsWhitespace(r.value.name[0]) && !IsWhitespace(r.value.name[|r.value.name| - 1])
  {
    var spaces := LeadingSpaces(l);
    if spaces % InputSpacesPerLevel != 0 then Err(MalformedIndentation(index))
    else Ok(Node(Strip(l[spaces..]), spaces / InputSpacesPerLevel))
  }

  /** ParseLine in terms of an independently described space count `n`. */
  lemma ParseLineMeaning(index: nat, l: string, n: nat)
    requires n <= |l|
    requires forall k :: 0 <= k < n ==> l[k] == ' '
    requires n < |l| ==> l[n] != ' '
    ensures ParseLine(index, l).Err? <==> n % InputSpacesPerLevel != 0
    ensures ParseLine(index, l).Err? ==> ParseLine(index, l).error == MalformedIndentation(index)
    ensures ParseLine(index, l).Ok? ==>
      && ParseLine(index, l).value.level * InputSpacesPerLevel == n
      && ParseLine(index, l).value.name == Strip(l[n..])
  {
    LeadingSpacesUnique(l, n);
  }

  /** What `parse` returns for the first |text| lines, built as its loop
      builds it: one node appended per line, stopping at the first line
      whose indentation is malformed. */
  function ParseSpec(text: seq<string>): (r: Result<seq<Node>>)
    ensures r.Ok? ==> |r.value| == |text|
    ensures r.Err? ==> r.error.MalformedIndentation? && r.error.index < |text|
  {
    if text == [] then Ok([])
    else
      var last := |text| - 1;
      match ParseSpec(text[..last])
      case Err(e) => Err(e)
      case Ok(nodes) =>
        match ParseLine(last, text[last])
        case Err(e) => Err(e)
        case Ok(node) => Ok(nodes + [node])
  }

  /** Every line of `text` has a multiple of four leading spaces. */
  predicate WellIndented(text: seq<string>) {
    forall k :: 0 <= k < |text| ==> ParseLine(k, text[k]).Ok?
  }

  /** parse keeps one node per line, in order, with no filtering, and
      succeeds exactly when every line is well indented. */
  lemma {:induction false} ParseSpecOk(text: seq<string>)
    ensures ParseSpec(text).Ok? <==> WellIndented(text)
    ensures ParseSpec(text).Ok? ==>
      && |ParseSpec(text).value| == |text|
      && forall k :: 0 <= k < |text| ==> ParseSpec(text).value[k] == ParseLine(k, text[k]).value
  {
    if text != [] {
      var last := |text| - 1;
      var init := text[..last];
      ParseSpecOk(init);
      if ParseSpec(init).Err? {
        var k :| 0 <= k < last && ParseLine(k, init[k]).Err?;
        assert init[k] == text[k];
      } else if ParseLine(last, text[last]).Ok? {
        var nodes := ParseSpec(init).value;
        assert ParseSpec(text) == Ok(nodes + [ParseLine(last, text[last]).value]);
        forall k | 0 <= k < |text|
          ensures ParseLine(k, text[k]).Ok?
          ensures ParseSpec(text).value[k] == ParseLine(k, text[k]).value
        {
          if k < last {
            assert init[k] == text[k];
          }
        }
      }
    }
  }

  /** When parse fails, it names the first malformed line. */
  lemma {:induction false} ParseSpecErr(text: seq<string>)
    requires ParseSpec(text).Err?
    ensures ParseSpec(text).error.MalformedIndentation?
    ensures ParseSpec(text).error.index < |text|
    ensures ParseLine(ParseSpec(text).error.index, text[ParseSpec(text).error.index]).Err?
    ensures forall j :: 0 <= j < ParseSpec(text).error.index ==> ParseLine(j, text[j]).Ok?
  {
    var last := |text| - 1;
    var init := text[..last];
    assert forall k :: 0 <= k < last ==> init[k] == text[k];
    if ParseSpec(init).Err? {
      ParseSpecErr(init);
    } else {
      ParseSpecOk(init);
    }
  }

  /** Once a prefix of the input fails, the whole input fails the same way. */
  lemma {:induction false} ParseSpecErrSticks(text: seq<string>, j: nat)
    requires j <= |text|
    requires ParseSpec(text[..j]).Err?
    ensures ParseSpec(text) == ParseSpec(text[..j])
    decreases |text| - j
  {
    if j == |text| {
      assert text[..j] == text;
    } else {
      assert text[..j + 1][..j] == text[..j];
      ParseSpecErrSticks(text, j + 1);
    }
  }

  /** A blank line is kept, as a node with an empty name. */
  lemma BlankLineKept()
    ensures ParseLine(1, "\n") == Ok(Node("", 0))
  {
    StripEmptyIffBlank("\n");
  }

  /** Four spaces make one level, and the trailing newline is stripped. */
  lemma IndentedLine()
    ensures ParseLine(1, "    b\n") == Ok(Node("b", 1))
  {
    var l := "    b\n";
    LeadingSpacesUnique(l, 4);
    var rest := l[4..];
    assert rest == "b\n";
    StripKeepsCore(rest, 0, 1);
    assert rest[0..1] == "b";
  }

  /** A tab is not indentation: the line stays at level 0 and the tab is
      stripped from its name. */
  lemma TabIsNotIndentation()
    ensures ParseLine(0, "\tb") == Ok(Node("b", 0))
  {
    var l := "\tb";
    LeadingSpacesUnique(l, 0);
    StripKeepsCore(l, 1, 2);
  }

  /** Three spaces are not a level, and parsing stops at that line. */
  lemma MisIndentedLine()
    ensures ParseSpec(["a", "   b"]) == Err(MalformedIndentation(1))
  {
    var text := ["a", "   b"];
    LeadingSpacesUnique(text[1], 3);
    assert text[..1] == ["a"];
  }

  /** `parse` (tools/toc_to_html.py lines 16-30). */
  method Parse(text: seq<string>) returns (r: Result<seq<Node>>)
    ensures r == ParseSpec(text)
  {
    var nodes: seq<Node> := [];
    for k := 0 to |text|
      invariant ParseSpec(text[..k]) == Ok(nodes)
    {
      var l := text[k];
      var stripped := l[LeadingSpaces(l)..];
      var numSpaces := |l| - |stripped|;
      assert text[..k + 1][..k] == text[..k];
      if numSpaces % InputSpacesPerLevel != 0 {
        ParseSpecErrSticks(text, k + 1);
        return Err(MalformedIndentation(k));
      }
      var level := numSpaces / InputSpacesPerLevel;
      nodes := nodes + [Node(Strip(stripped), level)];
    }
    assert text[..|text|] == text;
    return Ok(nodes);
  }
}
