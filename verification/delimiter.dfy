/** The delimiter splitter of `functions.py`: every plain (`Text`) node is cut
    on a delimiter; the sections between a pair of delimiters take the
    requested type, the others stay plain, empty sections are dropped and
    nodes of any other type pass through as they are. */
module Delimiter {
  import opened Wrappers
  import opened Strings
  import opened TextNodes

  /** Why a split fails. `EmptySeparator` is what Python's `str.split` raises
      for an empty delimiter; `UnmatchedDelimiter` is the splitter's own error. */
  datatype SplitError = UnmatchedDelimiter(delimiter: string) | EmptySeparator

  /** The one error a call with delimiter `d` can report. */
  function ErrorFor(d: string): SplitError {
    if |d| == 0 then EmptySeparator else UnmatchedDelimiter(d)
  }

  /** The type of the section at position `i`: odd positions lie between an
      opening and a closing delimiter. */
  function SectionType(i: nat, textType: TextType): TextType {
    if i % 2 == 1 then textType else Text
  }

  /** A node the splitter accepts: anything that is not plain text, or plain
      text holding an even number of delimiters. */
  predicate Balanced(node: TextNode, d: string) {
    node.textType != Text || (|d| > 0 && Count(node.text, d) % 2 == 0)
  }

  /** The nodes built from `sections[i..]`, in order, skipping empty sections. */
  function SectionNodes(sections: seq<string>, textType: TextType, i: nat): (r: seq<TextNode>)
    requires i <= |sections|
    decreases |sections| - i
    ensures |r| <= |sections| - i
    ensures forall k :: 0 <= k < |r| ==>
      r[k].text != "" && r[k].url == None && (r[k].textType == Text || r[k].textType == textType)
    ensures Texts(r) == Concat(sections[i..])
  {
    if i == |sections| then []
    else
      var rest := SectionNodes(sections, textType, i + 1);
      assert sections[i..][1..] == sections[i + 1..];
      if sections[i] == "" then rest
      else
        var node := TextNode(sections[i], SectionType(i, textType), None);
        assert ([node] + rest)[1..] == rest;
        [node] + rest
  }

  /** Splits one node. */
  function SplitNode(node: TextNode, d: string, textType: TextType): (r: Result<seq<TextNode>, SplitError>)
    ensures r.Failure? ==> node.textType == Text && r.error == ErrorFor(d)
    ensures r.Success? && node.textType == Text ==> forall k :: 0 <= k < |r.value| ==>
      r.value[k].text != "" && r.value[k].url == None && (r.value[k].textType == Text || r.value[k].textType == textType)
  {
    if node.textType != Text then Success([node])
    else if |d| == 0 then Failure(EmptySeparator)
    else
      var sections := Split(node.text, d);
      if |sections| % 2 == 0 then Failure(UnmatchedDelimiter(d))
      else Success(SectionNodes(sections, textType, 0))
  }

  /** When splitting one node succeeds: typed nodes pass through; a plain
      node is accepted exactly when it holds an even number of delimiters;
      a failure always carries the delimiter's error. */
  lemma SplitNodeAccepts(node: TextNode, d: string, textType: TextType)
    ensures node.textType != Text ==> SplitNode(node, d, textType) == Success([node])
    ensures SplitNode(node, d, textType).Success? <==> Balanced(node, d)
    ensures SplitNode(node, d, textType).Failure? ==> SplitNode(node, d, textType).error == ErrorFor(d)
  {
    if node.textType == Text && |d| > 0 {
      EvenCountOddSections(node.text, d);
    }
  }

  /** An even number of delimiters is exactly an odd number of sections. */
  lemma EvenCountOddSections(text: string, d: string)
    requires |d| > 0
    ensures Count(text, d) % 2 == 0 <==> |Split(text, d)| % 2 == 1
  {
    SplitLength(text, d);
  }

  /** What an accepted plain node yields: at most one node per section,
      none empty, none with a url, each plain or of the requested type, whose
      texts glue back to the node's text with every delimiter removed. */
  lemma SplitNodeOutput(node: TextNode, d: string, textType: TextType)
    requires node.textType == Text && |d| > 0
    requires SplitNode(node, d, textType).Success?
    ensures var out := SplitNode(node, d, textType).value;
      && Texts(out) == RemoveAll(node.text, d)
      && |out| <= Count(node.text, d) + 1
      && forall k :: 0 <= k < |out| ==>
        out[k].text != "" && out[k].url == None && (out[k].textType == Text || out[k].textType == textType)
  {
    var sections := Split(node.text, d);
    SplitLength(node.text, d);
    var out := SectionNodes(sections, textType, 0);
    assert SplitNode(node, d, textType) == Success(out);
    assert sections[0..] == sections;
    ConcatSplit(node.text, d);
  }

  /** `split_nodes_delimiter`: split every node, in order; the first node that
      fails makes the whole call fail, and no partial list is returned. */
  function SplitNodesDelimiter(nodes: seq<TextNode>, d: string, textType: TextType): (r: Result<seq<TextNode>, SplitError>)
    ensures r.Failure? ==> r.error == ErrorFor(d)
    ensures r.Failure? ==> exists k :: 0 <= k < |nodes| && nodes[k].textType == Text
  {
    if |nodes| == 0 then Success([])
    else Then(SplitNode(nodes[0], d, textType), SplitNodesDelimiter(nodes[1..], d, textType))
  }

  /** Sequencing of two splits: the first failure wins, otherwise the outputs
      are appended. */
  function Then(first: Result<seq<TextNode>, SplitError>, second: Result<seq<TextNode>, SplitError>): (r: Result<seq<TextNode>, SplitError>)
    ensures r.Success? <==> first.Success? && second.Success?
  {
    if first.Failure? then first
    else if second.Failure? then second
    else Success(first.value + second.value)
  }

  /** Sequencing of splits is associative. */
  lemma ThenAssociative(x: Result<seq<TextNode>, SplitError>, y: Result<seq<TextNode>, SplitError>, z: Result<seq<TextNode>, SplitError>)
    ensures Then(Then(x, y), z) == Then(x, Then(y, z))
  {
    if x.Success? && y.Success? && z.Success? {
      assert (x.value + y.value) + z.value == x.value + (y.value + z.value);
    }
  }

  /** The call succeeds exactly when every node is balanced; otherwise it
      reports the delimiter's error. */
  lemma {:induction false} SplitNodesOutcome(nodes: seq<TextNode>, d: string, textType: TextType)
    ensures SplitNodesDelimiter(nodes, d, textType).Success? <==> forall k :: 0 <= k < |nodes| ==> Balanced(nodes[k], d)
    ensures SplitNodesDelimiter(nodes, d, textType).Failure? ==> SplitNodesDelimiter(nodes, d, textType).error == ErrorFor(d)
  {
    if |nodes| > 0 {
      SplitNodeAccepts(nodes[0], d, textType);
      SplitNodesOutcome(nodes[1..], d, textType);
      assert forall k :: 1 <= k < |nodes| ==> nodes[k] == nodes[1..][k - 1];
    }
  }

  /** Every section labelled by the parity of its position, empty ones included. */
  function Labelled(sections: seq<string>, textType: TextType): (r: seq<TextNode>)
    ensures |r| == |sections|
  {
    seq(|sections|, k requires 0 <= k < |sections| => TextNode(sections[k], SectionType(k, textType), None))
  }

  /** The nodes with non-empty text, in their original order. */
  function DropEmpty(nodes: seq<TextNode>): seq<TextNode> {
    if |nodes| == 0 then []
    else if nodes[0].text == "" then DropEmpty(nodes[1..])
    else [nodes[0]] + DropEmpty(nodes[1..])
  }

  /** Dropping empty nodes distributes over concatenation. */
  lemma {:induction false} DropEmptyAppend(a: seq<TextNode>, b: seq<TextNode>)
    ensures DropEmpty(a + b) == DropEmpty(a) + DropEmpty(b)
  {
    if |a| == 0 {
      assert a + b == b;
    } else {
      assert (a + b)[1..] == a[1..] + b;
      DropEmptyAppend(a[1..], b);
    }
  }

  /** Nodes that all carry text lose nothing to `DropEmpty`. */
  lemma {:induction false} DropEmptyNoneEmpty(nodes: seq<TextNode>)
    requires forall k :: 0 <= k < |nodes| ==> nodes[k].text != ""
    ensures DropEmpty(nodes) == nodes
  {
    if |nodes| > 0 {
      DropEmptyNoneEmpty(nodes[1..]);
      assert [nodes[0]] + nodes[1..] == nodes;
    }
  }

  /** The parity rule: the splitter's output is exactly "label each section by
      the parity of its position, then drop the empty ones". */
  lemma {:induction false} SectionNodesLabelled(sections: seq<string>, textType: TextType, i: nat)
    requires i <= |sections|
    decreases |sections| - i
    ensures SectionNodes(sections, textType, i) == DropEmpty(Labelled(sections, textType)[i..])
  {
    var l := Labelled(sections, textType);
    if i < |sections| {
      SectionNodesLabelled(sections, textType, i + 1);
      assert l[i..][0] == l[i];
      assert l[i..][1..] == l[i + 1..];
    }
  }

  /** A one-node call is a call of `SplitNode`. */
  lemma SplitNodesSingle(node: TextNode, d: string, textType: TextType)
    ensures SplitNodesDelimiter([node], d, textType) == SplitNode(node, d, textType)
  {
    assert [node][1..] == [];
    var h := SplitNode(node, d, textType);
    if h.Success? {
      assert h.value + [] == h.value;
    }
  }

  /** Output order follows input order: the nodes derived from `a` come before
      those derived from `b`, and the first failure wins. */
  lemma {:induction false} SplitNodesAppend(a: seq<TextNode>, b: seq<TextNode>, d: string, textType: TextType)
    ensures SplitNodesDelimiter(a + b, d, textType) ==
      Then(SplitNodesDelimiter(a, d, textType), SplitNodesDelimiter(b, d, textType))
  {
    var rb := SplitNodesDelimiter(b, d, textType);
    if |a| == 0 {
      assert a + b == b;
      if rb.Success? {
        assert [] + rb.value == rb.value;
      }
    } else {
      var ab := a + b;
      assert ab[0] == a[0];
      assert ab[1..] == a[1..] + b;
      SplitNodesAppend(a[1..], b, d, textType);
      ThenAssociative(SplitNode(a[0], d, textType), SplitNodesDelimiter(a[1..], d, textType), rb);
    }
  }

  /** The text a node leaves in the output: a typed node all of it, a plain
      node its text with every delimiter removed. */
  function Residue(node: TextNode, d: string): string {
    if node.textType != Text || |d| == 0 then node.text else RemoveAll(node.text, d)
  }

  /** The residues of the nodes, glued together in order. */
  function Residues(nodes: seq<TextNode>, d: string): string {
    if |nodes| == 0 then "" else Residue(nodes[0], d) + Residues(nodes[1..], d)
  }

  /** Reconstruction for the whole call: on success, the output's texts glue
      together to the input's texts, in order, with every delimiter in a
      plain node removed and typed nodes left whole. */
  lemma {:induction false} SplitNodesTexts(nodes: seq<TextNode>, d: string, textType: TextType)
    requires SplitNodesDelimiter(nodes, d, textType).Success?
    ensures Texts(SplitNodesDelimiter(nodes, d, textType).value) == Residues(nodes, d)
  {
    if |nodes| > 0 {
      var node := nodes[0];
      var head := SplitNode(node, d, textType);
      var tail := SplitNodesDelimiter(nodes[1..], d, textType);
      assert head.Success? && tail.Success?;
      SplitNodesTexts(nodes[1..], d, textType);
      TextsAppend(head.value, tail.value);
      if node.textType != Text {
        assert head.value == [node];
        assert [node][1..] == [];
      } else {
        SplitNodeOutput(node, d, textType);
      }
    }
  }

  /** A sequence with no plain node comes out unchanged. */
  lemma {:induction false} TypedNodesPassThrough(nodes: seq<TextNode>, d: string, textType: TextType)
    requires forall k :: 0 <= k < |nodes| ==> nodes[k].textType != Text
    ensures SplitNodesDelimiter(nodes, d, textType) == Success(nodes)
  {
    if |nodes| > 0 {
      TypedNodesPassThrough(nodes[1..], d, textType);
      assert [nodes[0]] + nodes[1..] == nodes;
    }
  }

  /** A node that is not plain text keeps its value and its place: it sits
      between whatever its left and right neighbours produce. */
  lemma TypedNodeKeepsPlace(a: seq<TextNode>, node: TextNode, b: seq<TextNode>, d: string, textType: TextType)
    requires node.textType != Text
    requires SplitNodesDelimiter(a + [node] + b, d, textType).Success?
    ensures SplitNodesDelimiter(a, d, textType).Success?
    ensures SplitNodesDelimiter(b, d, textType).Success?
    ensures SplitNodesDelimiter(a + [node] + b, d, textType).value ==
      SplitNodesDelimiter(a, d, textType).value + [node] + SplitNodesDelimiter(b, d, textType).value
  {
    SplitNodesAppend(a + [node], b, d, textType);
    SplitNodesAppend(a, [node], d, textType);
    TypedNodesPassThrough([node], d, textType);
  }

  /** A plain node with non-empty text and no delimiter in it comes out as a
      single plain node with the same text (and no url). */
  lemma NoDelimiterSingleNode(node: TextNode, d: string, textType: TextType)
    requires node.textType == Text && node.text != "" && |d| > 0
    requires !Contains(node.text, d)
    ensures SplitNode(node, d, textType) == Success([TextNode(node.text, Text, None)])
    ensures node.url == None ==> SplitNodesDelimiter([node], d, textType) == Success([node])
  {
    NoOccurrenceSplit(node.text, d);
    var sections := Split(node.text, d);
    assert sections == [node.text];
    assert |sections| % 2 == 1;
    assert SectionType(0, textType) == Text;
    assert SectionNodes(sections, textType, 1) == [];
    assert SectionNodes(sections, textType, 0) == [TextNode(node.text, Text, None)];
    SplitNodesSingle(node, d, textType);
  }

  /** Cutting `before`, the delimiter, `inside`, the delimiter again, then
      `after` gives the three sections in order, provided no piece holds the
      delimiter's first character. */
  lemma SplitOneSpan(before: string, inside: string, after: string, d: string)
    requires |d| > 0 && d[0] !in before && d[0] !in inside && d[0] !in after
    ensures Split(before + d + (inside + d + after), d) == [before, inside, after]
  {
    SplitAfterFree(before, d, inside + d + after);
    SplitAfterFree(inside, d, after);
    SplitNoHead(after, d);
    ConsThree(before, inside, after);
  }

  /** A plain node with an odd number of sections becomes its labelled,
      non-empty sections. */
  lemma SplitIntoSections(node: TextNode, d: string, textType: TextType)
    requires node.textType == Text && |d| > 0 && |Split(node.text, d)| % 2 == 1
    ensures SplitNodesDelimiter([node], d, textType) == Success(DropEmpty(Labelled(Split(node.text, d), textType)))
  {
    var sections := Split(node.text, d);
    SectionNodesLabelled(sections, textType, 0);
    assert Labelled(sections, textType)[0..] == Labelled(sections, textType);
    SplitNodesSingle(node, d, textType);
  }

  /** A plain node whose text is already known to split into an odd number
      of `sections` becomes those sections, labelled, empty ones dropped. */
  lemma KnownSections(text: string, url: Option<string>, d: string, textType: TextType, sections: seq<string>)
    requires |d| > 0 && Split(text, d) == sections && |sections| % 2 == 1
    ensures SplitNodesDelimiter([TextNode(text, Text, url)], d, textType) == Success(DropEmpty(Labelled(sections, textType)))
  {
    SplitIntoSections(TextNode(text, Text, url), d, textType);
  }

  /** Solver step: the parity of a short section list, proved apart from the
      string facts that make it expensive in context. */
  lemma OddCount<T>(xs: seq<T>)
    requires |xs| == 3 || |xs| == 5
    ensures |xs| % 2 == 1
  {
  }

  /** One delimited span in a plain node: the text before it, the span with
      the target type and the text after it, in that order, empty pieces
      dropped. */
  lemma OneSpan(before: string, inside: string, after: string, d: string, textType: TextType, url: Option<string>)
    requires |d| > 0 && d[0] !in before && d[0] !in inside && d[0] !in after
    ensures SplitNodesDelimiter([TextNode(before + d + (inside + d + after), Text, url)], d, textType)
      == Success(DropEmpty([TextNode(before, Text, None), TextNode(inside, textType, None), TextNode(after, Text, None)]))
  {
    SplitOneSpan(before, inside, after, d);
    OddCount([before, inside, after]);
    KnownSections(before + d + (inside + d + after), url, d, textType, [before, inside, after]);
    LabelledThree(before, inside, after, textType);
  }

  /** Two delimited spans: the sections alternate plain, typed, plain, typed,
      plain, by position. */
  lemma TwoSpans(s0: string, s1: string, s2: string, s3: string, s4: string, d: string, textType: TextType, url: Option<string>)
    requires |d| > 0 && d[0] !in s0 && d[0] !in s1 && d[0] !in s2 && d[0] !in s3 && d[0] !in s4
    ensures SplitNodesDelimiter([TextNode(s0 + d + (s1 + d + (s2 + d + (s3 + d + s4))), Text, url)], d, textType)
      == Success(DropEmpty([TextNode(s0, Text, None), TextNode(s1, textType, None), TextNode(s2, Text, None),
                            TextNode(s3, textType, None), TextNode(s4, Text, None)]))
  {
    SplitTwoSpans(s0, s1, s2, s3, s4, d);
    OddCount([s0, s1, s2, s3, s4]);
    KnownSections(s0 + d + (s1 + d + (s2 + d + (s3 + d + s4))), url, d, textType, [s0, s1, s2, s3, s4]);
    LabelledFive(s0, s1, s2, s3, s4, textType);
  }

  /** Labelling three sections: plain, typed, plain. */
  lemma LabelledThree(s0: string, s1: string, s2: string, textType: TextType)
    ensures Labelled([s0, s1, s2], textType) == [TextNode(s0, Text, None), TextNode(s1, textType, None), TextNode(s2, Text, None)]
  {
    var l := Labelled([s0, s1, s2], textType);
    assert l[0] == TextNode(s0, Text, None);
    assert l[1] == TextNode(s1, textType, None);
    assert l[2] == TextNode(s2, Text, None);
  }

  /** Labelling five sections: plain and typed, alternating. */
  lemma LabelledFive(s0: string, s1: string, s2: string, s3: string, s4: string, textType: TextType)
    ensures Labelled([s0, s1, s2, s3, s4], textType)
      == [TextNode(s0, Text, None), TextNode(s1, textType, None), TextNode(s2, Text, None), TextNode(s3, textType, None), TextNode(s4, Text, None)]
  {
    var l := Labelled([s0, s1, s2, s3, s4], textType);
    assert l[0] == TextNode(s0, Text, None);
    assert l[1] == TextNode(s1, textType, None);
    assert l[2] == TextNode(s2, Text, None);
    assert l[3] == TextNode(s3, textType, None);
    assert l[4] == TextNode(s4, Text, None);
  }

  /** Splitting text with two delimited spans gives its five sections. */
  lemma SplitTwoSpans(s0: string, s1: string, s2: string, s3: string, s4: string, d: string)
    requires |d| > 0 && d[0] !in s0 && d[0] !in s1 && d[0] !in s2 && d[0] !in s3 && d[0] !in s4
    ensures Split(s0 + d + (s1 + d + (s2 + d + (s3 + d + s4))), d) == [s0, s1, s2, s3, s4]
  {
    SplitAfterFree(s0, d, s1 + d + (s2 + d + (s3 + d + s4)));
    SplitFourPieces(s1, s2, s3, s4, d);
    ConsFive(s0, s1, s2, s3, s4);
  }

  /** Splitting text with three delimiters gives its four sections. */
  lemma SplitFourPieces(s1: string, s2: string, s3: string, s4: string, d: string)
    requires |d| > 0 && d[0] !in s1 && d[0] !in s2 && d[0] !in s3 && d[0] !in s4
    ensures Split(s1 + d + (s2 + d + (s3 + d + s4)), d) == [s1, s2, s3, s4]
  {
    SplitAfterFree(s1, d, s2 + d + (s3 + d + s4));
    SplitOneSpan(s2, s3, s4, d);
    ConsFour(s1, s2, s3, s4);
  }

  /** Solver step: building a three-element display, stated generically
      because the same fact about strings is expensive. */
  lemma ConsThree<T>(a: T, b: T, c: T)
    ensures [a] + ([b] + [c]) == [a, b, c]
  {
  }

  /** Solver step: building a four-element display from one element and three. */
  lemma ConsFour<T>(a: T, b: T, c: T, e: T)
    ensures [a] + [b, c, e] == [a, b, c, e]
  {
  }

  /** Solver step: building a five-element display from one element and four. */
  lemma ConsFive<T>(a: T, b: T, c: T, e: T, f: T)
    ensures [a] + [b, c, e, f] == [a, b, c, e, f]
  {
  }

  /** A plain node in which the delimiter cannot start comes out as one plain
      node with the same text. */
  lemma NoHeadSingleNode(node: TextNode, d: string, textType: TextType)
    requires node.textType == Text && node.text != "" && |d| > 0 && d[0] !in node.text
    ensures SplitNodesDelimiter([node], d, textType) == Success([TextNode(node.text, Text, None)])
  {
    SplitNoHead(node.text, d);
    SplitIntoSections(node, d, textType);
    assert Labelled([node.text], textType) == [TextNode(node.text, Text, None)];
  }

  /** An opening delimiter with no closing one fails the call. */
  lemma UnclosedSpan(before: string, after: string, d: string, textType: TextType, url: Option<string>)
    requires |d| > 0 && d[0] !in before && d[0] !in after
    ensures SplitNodesDelimiter([TextNode(before + d + after, Text, url)], d, textType)
      == Failure(UnmatchedDelimiter(d))
  {
    SplitAfterFree(before, d, after);
    SplitNoHead(after, d);
    SplitNodesSingle(TextNode(before + d + after, Text, url), d, textType);
  }

  /** The inner loop of `split_nodes_delimiter`: walk the sections by index,
      skip the empty ones, and type each by the parity of its index. */
  method SectionsToNodes(sections: seq<string>, textType: TextType) returns (out: seq<TextNode>)
    ensures out == DropEmpty(Labelled(sections, textType))
  {
    out := [];
    ghost var labelled := Labelled(sections, textType);
    for i := 0 to |sections|
      invariant out == DropEmpty(labelled[..i])
    {
      assert labelled[..i + 1] == labelled[..i] + [labelled[i]];
      DropEmptyAppend(labelled[..i], [labelled[i]]);
      assert DropEmpty([labelled[i]]) == if sections[i] == "" then [] else [labelled[i]];
      if sections[i] == "" {
        continue;
      }
      if i % 2 == 1 {
        out := out + [TextNode(sections[i], textType, None)];
      } else {
        out := out + [TextNode(sections[i], Text, None)];
      }
    }
    assert labelled[..|sections|] == labelled;
  }

  /** `split_nodes_delimiter` as the source writes it: a loop that appends to
      a list and raises on the first unbalanced plain node. */
  method SplitNodesDelimiterLoop(nodes: seq<TextNode>, d: string, textType: TextType)
    returns (r: Result<seq<TextNode>, SplitError>)
    ensures r == SplitNodesDelimiter(nodes, d, textType)
  {
    var newNodes: seq<TextNode> := [];
    for i := 0 to |nodes|
      invariant SplitNodesDelimiter(nodes[..i], d, textType) == Success(newNodes)
    {
      var node := nodes[i];
      assert nodes[..i + 1] == nodes[..i] + [node];
      if node.textType != Text {
        assert SplitNodesDelimiter(nodes[..i + 1], d, textType) == Success(newNodes + [node]) by {
          SplitNodesAppend(nodes[..i], [node], d, textType);
          SplitNodesSingle(node, d, textType);
        }
        newNodes := newNodes + [node];
        continue;
      }
      if |d| == 0 {
        FailureSpreads(nodes, i, d, textType);
        return Failure(EmptySeparator);
      }
      var sections := Split(node.text, d);
      if |sections| % 2 == 0 {
        SplitLength(node.text, d);
        FailureSpreads(nodes, i, d, textType);
        return Failure(UnmatchedDelimiter(d));
      }
      var produced := SectionsToNodes(sections, textType);
      assert SplitNodesDelimiter(nodes[..i + 1], d, textType) == Success(newNodes + produced) by {
        SplitIntoSections(node, d, textType);
        SplitNodesAppend(nodes[..i], [node], d, textType);
      }
      newNodes := newNodes + produced;
    }
    assert nodes[..|nodes|] == nodes;
    r := Success(newNodes);
  }

  /** One unbalanced node anywhere makes the whole call fail. */
  lemma FailureSpreads(nodes: seq<TextNode>, i: nat, d: string, textType: TextType)
    requires i < |nodes|
    requires !Balanced(nodes[i], d)
    ensures SplitNodesDelimiter(nodes, d, textType) == Failure(ErrorFor(d))
  {
    SplitNodesOutcome(nodes, d, textType);
  }
}
