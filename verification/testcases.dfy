/** Cases taken from the repository's unit tests, stated against the model:
    each lemma named after a test is that test's input and the output it
    expects; the smaller lemmas are the steps of the computation. */
module TestCases {
  import opened Wrappers
  import opened Strings
  import opened TextNodes
  import opened Delimiter
  import opened Attributes
  import opened HtmlNodes

  // ---- split_nodes_delimiter ----

  /** One span with nothing empty around it: three nodes, plain, typed, plain. */
  lemma SpanNoneEmpty(before: string, inside: string, after: string, d: string, textType: TextType)
    requires |d| > 0 && d[0] !in before && d[0] !in inside && d[0] !in after
    requires before != "" && inside != "" && after != ""
    ensures SplitNodesDelimiter([TextNode(before + d + (inside + d + after), Text, None)], d, textType)
      == Success([TextNode(before, Text, None), TextNode(inside, textType, None), TextNode(after, Text, None)])
  {
    var nodes := [TextNode(before, Text, None), TextNode(inside, textType, None), TextNode(after, Text, None)];
    OneSpan(before, inside, after, d, textType, None);
    assert nodes[0].text == before && nodes[1].text == inside && nodes[2].text == after;
    DropEmptyNoneEmpty(nodes);
  }

  /** One span at the very start: the empty first section is dropped. */
  lemma SpanAtStart(inside: string, after: string, d: string, textType: TextType)
    requires |d| > 0 && d[0] !in inside && d[0] !in after
    requires inside != "" && after != ""
    ensures SplitNodesDelimiter([TextNode("" + d + (inside + d + after), Text, None)], d, textType)
      == Success([TextNode(inside, textType, None), TextNode(after, Text, None)])
  {
    var nodes := [TextNode("", Text, None), TextNode(inside, textType, None), TextNode(after, Text, None)];
    var kept := [TextNode(inside, textType, None), TextNode(after, Text, None)];
    OneSpan("", inside, after, d, textType, None);
    assert nodes[1..] == kept;
    assert kept[0].text == inside && kept[1].text == after;
    DropEmptyNoneEmpty(kept);
  }

  /** Two spans with nothing empty around them: five alternating nodes. */
  lemma TwoSpansNoneEmpty(s0: string, s1: string, s2: string, s3: string, s4: string, d: string, textType: TextType)
    requires |d| > 0 && d[0] !in s0 && d[0] !in s1 && d[0] !in s2 && d[0] !in s3 && d[0] !in s4
    requires s0 != "" && s1 != "" && s2 != "" && s3 != "" && s4 != ""
    ensures SplitNodesDelimiter([TextNode(s0 + d + (s1 + d + (s2 + d + (s3 + d + s4))), Text, None)], d, textType)
      == Success([TextNode(s0, Text, None), TextNode(s1, textType, None), TextNode(s2, Text, None),
                  TextNode(s3, textType, None), TextNode(s4, Text, None)])
  {
    var nodes := [TextNode(s0, Text, None), TextNode(s1, textType, None), TextNode(s2, Text, None),
                  TextNode(s3, textType, None), TextNode(s4, Text, None)];
    TwoSpans(s0, s1, s2, s3, s4, d, textType, None);
    assert nodes[0].text == s0 && nodes[1].text == s1 && nodes[2].text == s2 && nodes[3].text == s3 && nodes[4].text == s4;
    DropEmptyNoneEmpty(nodes);
  }

  /** Solver step: the test sentence assembled from its pieces; long string
      literals are proved equal in small lemmas of their own. */
  lemma SentenceText()
    ensures "This is text with a " + "`" + ("code block" + "`" + " word") == "This is text with a `code block` word"
  {
  }

  /** A code span in the middle of a sentence: plain, code, plain. */
  lemma SplitSingleNode()
    ensures SplitNodesDelimiter([TextNode("This is text with a `code block` word", Text, None)], "`", Code)
      == Success([TextNode("This is text with a ", Text, None), TextNode("code block", Code, None), TextNode(" word", Text, None)])
  {
    SentenceText();
    SpanNoneEmpty("This is text with a ", "code block", " word", "`", Code);
  }

  /** Solver step: the bold test sentence assembled from its pieces. */
  lemma BoldSentenceText()
    ensures "This is text with a " + "**" + ("bold" + "**" + " word") == "This is text with a **bold** word"
  {
  }

  /** A node whose text holds no `**` is left whole; the code span in it is
      not touched by a bold split. */
  lemma CodeSentenceUnderBold()
    ensures SplitNodesDelimiter([TextNode("This is text with a `code block` word", Text, None)], "**", Bold)
      == Success([TextNode("This is text with a `code block` word", Text, None)])
  {
    NoStarInSentence();
    NoHeadSingleNode(TextNode("This is text with a " + "`" + ("code block" + "`" + " word"), Text, None), "**", Bold);
    SentenceText();
  }

  /** Solver step: no `*` in the code sentence, checked piece by piece. */
  lemma NoStarInSentence()
    ensures '*' !in "This is text with a " + "`" + ("code block" + "`" + " word")
  {
    assert '*' !in "This is text with a ";
    assert '*' !in "code block";
  }

  /** Solver step: a two-node display. */
  lemma ConsTwoNodes(a: TextNode, b: TextNode)
    ensures [a] + [b] == [a, b]
  {
  }

  /** Two nodes split one after the other, their outputs in input order. */
  lemma PairInOrder(first: TextNode, second: TextNode, d: string, textType: TextType, out1: seq<TextNode>, out2: seq<TextNode>)
    requires SplitNodesDelimiter([first], d, textType) == Success(out1)
    requires SplitNodesDelimiter([second], d, textType) == Success(out2)
    ensures SplitNodesDelimiter([first, second], d, textType) == Success(out1 + out2)
  {
    SplitNodesAppend([first], [second], d, textType);
    ConsTwoNodes(first, second);
  }

  /** Several nodes, split one after the other, their outputs in input order. */
  lemma SplitMultipleNodes()
    ensures SplitNodesDelimiter([TextNode("This is text with a `code block` word", Text, None),
                                 TextNode("This is text with a **bold** word", Text, None)], "**", Bold)
      == Success([TextNode("This is text with a `code block` word", Text, None),
                  TextNode("This is text with a ", Text, None), TextNode("bold", Bold, None), TextNode(" word", Text, None)])
  {
    CodeSentenceUnderBold();
    BoldSentenceText();
    SpanNoneEmpty("This is text with a ", "bold", " word", "**", Bold);
    PairInOrder(TextNode("This is text with a `code block` word", Text, None), TextNode("This is text with a **bold** word", Text, None),
                "**", Bold, [TextNode("This is text with a `code block` word", Text, None)],
                [TextNode("This is text with a ", Text, None), TextNode("bold", Bold, None), TextNode(" word", Text, None)]);
    ConsFour(TextNode("This is text with a `code block` word", Text, None),
             TextNode("This is text with a ", Text, None), TextNode("bold", Bold, None), TextNode(" word", Text, None));
  }

  /** Solver step: regrouping the five-piece text into two halves that are
      cheap to compare with literals. */
  lemma Regroup<T>(s0: seq<T>, d: seq<T>, s1: seq<T>, s2: seq<T>, s3: seq<T>, s4: seq<T>)
    ensures s0 + d + (s1 + d + (s2 + d + (s3 + d + s4))) == (s0 + d + s1 + d + s2) + (d + s3 + d + s4)
  {
  }

  /** Solver step: the first half of the two-span sentence. */
  lemma TwoSpansFront()
    ensures "This is text with a " + "`" + "code block" + "`" + " and another " == "This is text with a `code block` and another "
  {
  }

  /** Solver step: the second half of the two-span sentence. */
  lemma TwoSpansBack()
    ensures "`" + "other code block" + "`" + " phrase" == "`other code block` phrase"
  {
  }

  /** Solver step: both halves give the whole two-span sentence. */
  lemma TwoSpansJoin()
    ensures "This is text with a `code block` and another " + "`other code block` phrase"
      == "This is text with a `code block` and another `other code block` phrase"
  {
  }

  /** Solver step: the two-span sentence assembled from its pieces. */
  lemma TwoSpansText()
    ensures "This is text with a " + "`" + ("code block" + "`" + (" and another " + "`" + ("other code block" + "`" + " phrase")))
      == "This is text with a `code block` and another `other code block` phrase"
  {
    Regroup("This is text with a ", "`", "code block", " and another ", "other code block", " phrase");
    TwoSpansFront();
    TwoSpansBack();
    TwoSpansJoin();
  }

  /** Two code spans in one node: the sections alternate plain and code. */
  lemma SplitNodeWithMultipleDelimitedStrings()
    ensures SplitNodesDelimiter([TextNode("This is text with a `code block` and another `other code block` phrase", Text, None)], "`", Code)
      == Success([TextNode("This is text with a ", Text, None), TextNode("code block", Code, None), TextNode(" and another ", Text, None),
                  TextNode("other code block", Code, None), TextNode(" phrase", Text, None)])
  {
    TwoSpansText();
    TwoSpansNoneEmpty("This is text with a ", "code block", " and another ", "other code block", " phrase", "`", Code);
  }

  /** Solver step: a four-element display from three elements and one. */
  lemma SnocFour<T>(a: T, b: T, c: T, e: T)
    ensures [a, b, c] + [e] == [a, b, c, e]
  {
  }

  /** A node of another type after it is passed through, in place. */
  lemma ReturnNonTextNodesUnchanged()
    ensures SplitNodesDelimiter([TextNode("This is text with a `code block` word", Text, None), TextNode("This is a bold node", Bold, None)], "`", Code)
      == Success([TextNode("This is text with a ", Text, None), TextNode("code block", Code, None), TextNode(" word", Text, None),
                  TextNode("This is a bold node", Bold, None)])
  {
    SnocFour(TextNode("This is text with a ", Text, None), TextNode("code block", Code, None), TextNode(" word", Text, None),
             TextNode("This is a bold node", Bold, None));
    SplitSingleNode();
    TypedNodesPassThrough([TextNode("This is a bold node", Bold, None)], "`", Code);
    PairInOrder(TextNode("This is text with a `code block` word", Text, None), TextNode("This is a bold node", Bold, None),
                "`", Code, [TextNode("This is text with a ", Text, None), TextNode("code block", Code, None), TextNode(" word", Text, None)],
                [TextNode("This is a bold node", Bold, None)]);
  }

  /** Solver step: the sentence that starts with a delimiter, from its pieces. */
  lemma LeadingText()
    ensures "" + "`" + ("code block" + "`" + " with additional text") == "`code block` with additional text"
  {
    LeadingTail();
    LeadingJoin();
  }

  /** Solver step: the part of that sentence after the first delimiter. */
  lemma LeadingTail()
    ensures "code block" + "`" + " with additional text" == "code block` with additional text"
  {
  }

  /** Solver step: the first delimiter in front of the rest of the sentence. */
  lemma LeadingJoin()
    ensures "" + "`" + "code block` with additional text" == "`code block` with additional text"
  {
    assert "" + "`" == "`";
  }

  /** A leading delimiter leaves an empty first section, which is dropped. */
  lemma SplitNodeStartingWithDelimiter()
    ensures SplitNodesDelimiter([TextNode("`code block` with additional text", Text, None)], "`", Code)
      == Success([TextNode("code block", Code, None), TextNode(" with additional text", Text, None)])
  {
    LeadingText();
    SpanAtStart("code block", " with additional text", "`", Code);
  }

  /** Solver step: the unclosed sentence assembled from its pieces. */
  lemma UnclosedText()
    ensures "This is text with a " + "`" + "code block word" == "This is text with a `code block word"
  {
  }

  /** A missing closing delimiter fails the call. */
  lemma RaiseExceptionIfNoClosingDelimiter()
    ensures SplitNodesDelimiter([TextNode("This is text with a `code block word", Text, None)], "`", Code)
      == Failure(UnmatchedDelimiter("`"))
  {
    UnclosedText();
    UnclosedSpan("This is text with a ", "code block word", "`", Code, None);
  }

  // ---- props_to_html and to_html ----

  /** Two attributes render as the first, a space, then the second. */
  lemma TwoProps(first: (string, string), second: (string, string))
    ensures RenderProps([first, second]) == Attribute(first) + " " + Attribute(second)
  {
    RenderPropsCons(second, []);
    assert [second] + [] == [second];
    RenderPropsCons(first, [second]);
    assert [first] + [second] == [first, second];
  }

  /** Attributes in insertion order, one space apart. */
  lemma PropsToHtmlInOrder()
    ensures RenderProps([("href", "https://foo.bar"), ("target", "_blank")])
      == "href=\"https://foo.bar\" target=\"_blank\""
  {
    TwoProps(("href", "https://foo.bar"), ("target", "_blank"));
    LinkText();
  }

  /** Solver step: the expected attribute text, from its pieces. */
  lemma LinkText()
    ensures "href" + "=\"" + "https://foo.bar" + "\"" + " " + ("target" + "=\"" + "_blank" + "\"")
      == "href=\"https://foo.bar\" target=\"_blank\""
  {
  }

  /** Solver step: the leaf test's expected string, from its pieces. */
  lemma AttributesText()
    ensures "<" + "tag" + " " + ("foo" + "=\"" + "bar" + "\"" + " " + ("baz" + "=\"" + "qux" + "\"")) + ">" + "value" + "</" + "tag" + ">"
      == "<tag foo=\"bar\" baz=\"qux\">value</tag>"
  {
  }

  /** A leaf with attributes renders them after its tag name. */
  lemma LeafWithAttributes()
    ensures ToHtml(NewLeafNode(Some("tag"), Some("value"), Some([("foo", "bar"), ("baz", "qux")])))
      == Success("<tag foo=\"bar\" baz=\"qux\">value</tag>")
  {
    AttributesText();
    TwoProps(("foo", "bar"), ("baz", "qux"));
    LeafRendering("tag", "value", [("foo", "bar"), ("baz", "qux")]);
  }

  /** One rendered child renders as itself. */
  lemma RenderOne(x: HtmlNode)
    requires ToHtml(x).Success?
    ensures RenderChildren([x]) == Success(ToHtml(x).value)
  {
    assert [x][1..] == [];
    assert ToHtml(x).value + "" == ToHtml(x).value;
  }

  /** A rendered child in front of rendered children renders first. */
  lemma RenderCons(x: HtmlNode, rest: seq<HtmlNode>)
    requires ToHtml(x).Success? && RenderChildren(rest).Success?
    ensures RenderChildren([x] + rest) == Success(ToHtml(x).value + RenderChildren(rest).value)
  {
    assert ([x] + rest)[0] == x;
    assert ([x] + rest)[1..] == rest;
  }

  /** A parent of one child renders as that child between its tags. */
  lemma ParentOfOne(tag: string, x: HtmlNode)
    requires ToHtml(x).Success?
    ensures ToHtml(NewParentNode(Some(tag), Children([x])))
      == Success("<" + tag + ">" + ToHtml(x).value + "</" + tag + ">")
  {
    RenderOne(x);
  }

  /** Four rendered children, glued in order. */
  lemma RenderFour(w: HtmlNode, x: HtmlNode, y: HtmlNode, z: HtmlNode)
    requires ToHtml(w).Success? && ToHtml(x).Success? && ToHtml(y).Success? && ToHtml(z).Success?
    ensures RenderChildren([w, x, y, z]) == Success(ToHtml(w).value + ToHtml(x).value + ToHtml(y).value + ToHtml(z).value)
  {
    var a, b, c, d := ToHtml(w).value, ToHtml(x).value, ToHtml(y).value, ToHtml(z).value;
    RenderOne(z);
    RenderCons(y, [z]);
    assert [y] + [z] == [y, z];
    RenderCons(x, [y, z]);
    assert [x] + [y, z] == [x, y, z];
    RenderCons(w, [x, y, z]);
    assert [w] + [x, y, z] == [w, x, y, z];
    assert a + (b + (c + d)) == a + b + c + d;
  }

  /** A parent of four children renders them in order between its tags. */
  lemma ParentOfFour(tag: string, w: HtmlNode, x: HtmlNode, y: HtmlNode, z: HtmlNode)
    requires ToHtml(w).Success? && ToHtml(x).Success? && ToHtml(y).Success? && ToHtml(z).Success?
    ensures ToHtml(NewParentNode(Some(tag), Children([w, x, y, z])))
      == Success("<" + tag + ">" + (ToHtml(w).value + ToHtml(x).value + ToHtml(y).value + ToHtml(z).value) + "</" + tag + ">")
  {
    RenderFour(w, x, y, z);
  }

  /** Five rendered children, glued in order. */
  lemma RenderFive(v: HtmlNode, w: HtmlNode, x: HtmlNode, y: HtmlNode, z: HtmlNode)
    requires ToHtml(v).Success? && ToHtml(w).Success? && ToHtml(x).Success? && ToHtml(y).Success? && ToHtml(z).Success?
    ensures RenderChildren([v, w, x, y, z])
      == Success(ToHtml(v).value + ToHtml(w).value + ToHtml(x).value + ToHtml(y).value + ToHtml(z).value)
  {
    var a, b, c, d, e := ToHtml(v).value, ToHtml(w).value, ToHtml(x).value, ToHtml(y).value, ToHtml(z).value;
    var rest := [w, x, y, z];
    RenderFour(w, x, y, z);
    RenderCons(v, rest);
    assert [v] + rest == [v, w, x, y, z];
    GlueFive(a, b, c, d, e);
  }

  /** Solver step: regrouping five glued strings, proved apart from the
      rendering facts. */
  lemma GlueFive(a: string, b: string, c: string, d: string, e: string)
    ensures a + (b + c + d + e) == a + b + c + d + e
  {
  }

  /** A parent of five children renders them in order between its tags. */
  lemma ParentOfFive(tag: string, v: HtmlNode, w: HtmlNode, x: HtmlNode, y: HtmlNode, z: HtmlNode)
    requires ToHtml(v).Success? && ToHtml(w).Success? && ToHtml(x).Success? && ToHtml(y).Success? && ToHtml(z).Success?
    ensures ToHtml(NewParentNode(Some(tag), Children([v, w, x, y, z])))
      == Success("<" + tag + ">" + (ToHtml(v).value + ToHtml(w).value + ToHtml(x).value + ToHtml(y).value + ToHtml(z).value) + "</" + tag + ">")
  {
    RenderFive(v, w, x, y, z);
  }

  /** Solver step: the list item's expected string, from its pieces. */
  lemma ListText()
    ensures "<" + "ul" + ">" + ("<" + "li" + ">" + "list item" + "</" + "li" + ">") + "</" + "ul" + ">" == "<ul><li>list item</li></ul>"
  {
  }

  /** A list parent of one leaf, the child of the nested-parent test. */
  lemma NestedList()
    ensures ToHtml(NewParentNode(Some("ul"), Children([NewLeafNode(Some("li"), Some("list item"))])))
      == Success("<ul><li>list item</li></ul>")
  {
    ListText();
    LeafRendering("li", "list item", []);
    ParentOfOne("ul", NewLeafNode(Some("li"), Some("list item")));
  }

  /** Solver step: the bold and italic leaves' expected strings. */
  lemma InlineTexts()
    ensures "<" + "b" + ">" + "bold text" + "</" + "b" + ">" == "<b>bold text</b>"
    ensures "<" + "i" + ">" + "italic text" + "</" + "i" + ">" == "<i>italic text</i>"
  {
  }

  /** Solver step: the paragraph tags around any inner text. */
  lemma ParagraphTags(inner: string)
    ensures "<" + "p" + ">" + inner + "</" + "p" + ">" == "<p>" + inner + "</p>"
  {
  }

  /** The leaves of the paragraph in the parent-node tests. */
  lemma ParagraphLeaves()
    ensures ToHtml(NewLeafNode(Some("b"), Some("bold text"))) == Success("<b>bold text</b>")
    ensures ToHtml(NewLeafNode(None, Some("normal text"))) == Success("normal text")
    ensures ToHtml(NewLeafNode(Some("i"), Some("italic text"))) == Success("<i>italic text</i>")
  {
    InlineTexts();
    LeafRendering("b", "bold text", []);
    LeafRendering("b", "normal text", []);
    LeafRendering("i", "italic text", []);
  }

  /** Leaves with and without tags, rendered in order inside the parent's tags. */
  lemma ParentWithLeafChildren()
    ensures ToHtml(NewParentNode(Some("p"), Children([
        NewLeafNode(Some("b"), Some("bold text")),
        NewLeafNode(None, Some("normal text")),
        NewLeafNode(Some("i"), Some("italic text")),
        NewLeafNode(None, Some("normal text"))])))
      == Success("<p>" + ("<b>bold text</b>" + "normal text" + "<i>italic text</i>" + "normal text") + "</p>")
  {
    ParagraphLeaves();
    ParagraphTags("<b>bold text</b>" + "normal text" + "<i>italic text</i>" + "normal text");
    ParentOfFour("p", NewLeafNode(Some("b"), Some("bold text")), NewLeafNode(None, Some("normal text")),
      NewLeafNode(Some("i"), Some("italic text")), NewLeafNode(None, Some("normal text")));
  }

  /** A parent nested inside a parent renders in place. */
  lemma ParentWithNestedParent()
    ensures ToHtml(NewParentNode(Some("p"), Children([
        NewLeafNode(Some("b"), Some("bold text")),
        NewLeafNode(None, Some("normal text")),
        NewLeafNode(Some("i"), Some("italic text")),
        NewLeafNode(None, Some("normal text")),
        NewParentNode(Some("ul"), Children([NewLeafNode(Some("li"), Some("list item"))]))])))
      == Success("<p>" + ("<b>bold text</b>" + "normal text" + "<i>italic text</i>" + "normal text" + "<ul><li>list item</li></ul>") + "</p>")
  {
    ParagraphLeaves();
    NestedList();
    ParagraphTags("<b>bold text</b>" + "normal text" + "<i>italic text</i>" + "normal text" + "<ul><li>list item</li></ul>");
    ParentOfFive("p", NewLeafNode(Some("b"), Some("bold text")), NewLeafNode(None, Some("normal text")),
      NewLeafNode(Some("i"), Some("italic text")), NewLeafNode(None, Some("normal text")),
      NewParentNode(Some("ul"), Children([NewLeafNode(Some("li"), Some("list item"))])));
  }
}
