# Inline text splitting and HTML node rendering

A Dafny model of two small, pure parts of a static site generator written
in Python:

- **The delimiter splitter** `split_nodes_delimiter` (`src/functions.py`).
  It takes a list of typed text nodes. Each plain (`TEXT`) node is cut on a
  delimiter such as `` ` `` or `**`. Sections between an opening and a
  closing delimiter take the requested type, the other sections stay plain,
  empty sections are dropped, and nodes of any other type pass through as
  they are. A plain node with an odd number of delimiters makes the whole
  call fail.
- **The HTML node tree** (`src/htmlnode.py`, `src/parentnode.py`). It covers
  the four fields of `HTMLNode`, the rendering of attributes by
  `props_to_html`, the base class's `to_html` (which always fails) and
  `ParentNode.to_html`. That method checks for a tag first, then for a child
  list, and then wraps the children's renderings in `<tag>…</tag>`.

Module layout:

| module | file | content |
|---|---|---|
| `Wrappers` | wrappers.dfy | `Option` and `Result` |
| `Strings` | strings.dfy | Python's `str.find`, `str.split`, `str.count`, `str.replace(d, "")` and `join` for a non-empty separator, with their laws |
| `TextNodes` | textnodes.dfy | `TextType` and `TextNode(text, textType, url)` |
| `Delimiter` | delimiter.dfy | the splitter as a function and as a loop, with its properties |
| `Attributes` | attributes.dfy | `props_to_html`, and a reader for its output used as the round-trip partner |
| `HtmlNodes` | htmlnodes.dfy | the node tree, the constructors and `to_html` for base, leaf and parent nodes |
| `TestCases` | testcases.dfy | the repository's unit-test cases, stated as lemmas over the model |

Modelling choices:

- Python's `str.split(d)` is written as "cut at the leftmost occurrence,
  then split the rest" (`Strings.Split`). That is CPython's non-overlapping,
  left-to-right scan.
- An exception becomes a `Failure` of a `Result`. The splitter's errors are
  `UnmatchedDelimiter(d)` and `EmptySeparator`. `EmptySeparator` is the
  `ValueError` that `str.split("")` raises, and it is only reached when a
  plain node is met. The renderer's errors are `NotImplemented`,
  `LeafWithoutValue`, `ParentWithoutTag` and `ParentWithoutChildren`.
- A node's `children` field is `ChildList = NoChildren | Children(nodes)`.
  `NoChildren` stands for Python's `None`, and `Children([])` is an empty
  list. The two are different, exactly as in the source.
- A node's `kind` records the class that built it (`Base`, `Leaf` or
  `Parent`), and with it which `to_html` applies.
- `leafnode.py` and `textnode.py` are not part of this model. The leaf
  rendering is the one that `src/test_leafnode.py` fixes, and it is an
  assumption: no value is an error, no tag returns the value, otherwise
  `<tag attrs>value</tag>`, with a space before the attributes when there
  are any. `TextNode` is a datatype, so its equality is field by field,
  which is what `src/test_textnode.py` expects.
- Only `None` is rejected as a child list (`src/parentnode.py:11-12`), so
  an empty list renders as `<tag></tag>`; the model follows the code
  (`HtmlNodes.ParentChecks`).
- A plain node's url is dropped, as in `src/functions.py:16-18`: the
  splitter builds fresh nodes without one (`Delimiter.SplitNodeOutput`).

## Model

| member | source | states |
|---|---|---|
| Strings.Split | src/functions.py:9 | a split yields at least one piece, and at least two when the separator occurs in the text |
| Strings.FindFrom | src/functions.py:9 | the index found is an occurrence of the separator, at or after the start, and no earlier position holds one; no result means no occurrence at all |
| Strings.SplitJoin | src/functions.py:9 | the pieces of a split, joined with the separator, give back the original text |
| Strings.SplitLength | src/functions.py:9-10 | a split yields exactly one more piece than there are non-overlapping occurrences of the separator |
| Strings.CountZero | src/functions.py:9-10 | no occurrence is counted exactly when the separator does not occur in the text |
| Strings.SplitPiecesFree | src/functions.py:9 | no piece of a split contains the separator |
| Strings.ConcatSplit | src/functions.py:9-18 | gluing the pieces together equals the text with every occurrence of the separator deleted |
| Strings.NoOccurrenceSplit | src/functions.py:9 | a text without the separator is a single piece |
| Strings.SplitAfterFree | src/functions.py:9 | when the separator cannot start inside `first`, splitting `first + d + rest` gives `first` followed by the pieces of `rest` |
| Delimiter.SplitNode | src/functions.py:6-18 | only a plain node can be rejected, and the rejection carries the delimiter's error; an accepted plain node yields nodes that are non-empty, have no url and are plain or of the target type |
| Delimiter.SplitNodesDelimiter | src/functions.py:3-19 | a failure always carries the delimiter's error and needs a plain node in the input |
| Delimiter.SplitNodesTexts | src/functions.py:3-19 | the texts of the output glue back to the input's texts, with every delimiter removed from the plain nodes and the other nodes' texts kept |
| Delimiter.SplitIntoSections | src/functions.py:9-18 | a plain node with an odd number of sections becomes those sections labelled by position parity, with the empty ones dropped |
| Delimiter.SectionNodes | src/functions.py:12-18 | the nodes made from sections have non-empty text and no url, each is plain or of the target type, there are at most as many as sections, and their texts glue back to the sections |
| Delimiter.SplitNodeAccepts | src/functions.py:6-11 | a node of another type is returned as the one-node list `[node]`; a plain node is accepted exactly when it holds an even number of delimiters; a rejection carries the delimiter's error |
| Delimiter.SplitNodeOutput | src/functions.py:9-18 | an accepted plain node with k delimiters yields at most k+1 nodes, none empty, none with a url, each plain or of the target type, whose texts glue back to its text with every delimiter removed |
| Delimiter.SplitNodesOutcome | src/functions.py:5-11 | the call succeeds exactly when every node is balanced; otherwise the whole call fails with the delimiter's error and returns no partial list |
| Delimiter.FailureSpreads | src/functions.py:10-11 | one unbalanced plain node anywhere in the input makes the whole call fail |
| Delimiter.SectionNodesLabelled | src/functions.py:12-18 | the parity rule: the output is every section labelled by the parity of its position (odd: target type, even: plain), with the empty ones dropped |
| Delimiter.DropEmptyNoneEmpty | src/functions.py:13-14 | when no section is empty, nothing is dropped |
| Delimiter.SplitNodesAppend | src/functions.py:5-19 | output order follows input order: the result for `a + b` is the result for `a` followed by the result for `b`, and the first failure wins |
| Delimiter.TypedNodesPassThrough | src/functions.py:6-8 | a list with no plain node comes out unchanged |
| Delimiter.TypedNodeKeepsPlace | src/functions.py:6-8 | a node of another type keeps its value and its place between what its neighbours produce |
| Delimiter.NoDelimiterSingleNode | src/functions.py:9-18 | a plain node with non-empty text and no delimiter comes out as one plain node with the same text |
| Delimiter.SplitOneSpan | src/functions.py:9 | `before`, delimiter, `inside`, delimiter, `after` splits into those three sections when the delimiter cannot start inside any of them |
| Delimiter.OneSpan | src/functions.py:9-18 | one delimited span gives the text before it (plain), the span (target type) and the text after it (plain), with empty pieces dropped |
| Delimiter.TwoSpans | src/functions.py:9-18 | two delimited spans give five sections alternating plain and target type, with empty pieces dropped |
| Delimiter.UnclosedSpan | src/functions.py:9-11 | a single delimiter with no partner makes the call fail with the unmatched-delimiter error |
| Delimiter.NoHeadSingleNode | src/functions.py:9-18 | a plain node in which the delimiter cannot start comes out as one plain node with the same text |
| Delimiter.SectionsToNodes | src/functions.py:12-18 | the loop over the sections builds the labelled, non-empty sections in order |
| Delimiter.SplitNodesDelimiterLoop | src/functions.py:3-19 | the loop with early exit on the first unbalanced node computes the same result as the functional definition |
| TextNodes.TextsAppend | src/functions.py:4-19 | the texts of two node lists glue together as the texts of their concatenation |
| Attributes.RenderProps | src/htmlnode.py:14-15 | no attributes render as the empty string (and only then); otherwise the text ends with the closing quote of the last value |
| Attributes.RenderPropsCons | src/htmlnode.py:15 | one more attribute in front renders as its `key="value"`, a single space, then the rest |
| Attributes.RenderPropsRoundTrip | src/htmlnode.py:15 | in insertion order and verbatim: when no key holds `=` and no value holds `"`, the rendered text reads back to exactly the pairs it came from |
| Attributes.ParseOnePair | src/htmlnode.py:15 | one rendered `key="value"` followed by a space-led remainder reads back as that pair, then the remainder |
| Attributes.NoEscaping | src/htmlnode.py:15 | nothing is escaped: a value holding `" b="` renders to the same text as two separate attributes |
| HtmlNodes.PropsToHtml | src/htmlnode.py:14-15 | requires props to be present (the source crashes on None); the result is empty exactly when there are no attributes |
| HtmlNodes.NewHtmlNode | src/htmlnode.py:2-6 | `HTMLNode` stores its four fields as given (each defaults to None) and is a base node |
| HtmlNodes.NewParentNode | src/parentnode.py:5-6 | `ParentNode` keeps its tag and children and has no value and no attributes |
| HtmlNodes.ToHtml | src/parentnode.py:8-14 | rendering succeeds only for a leaf with a value or a parent with a tag and a child list; a parent without a tag fails on the tag; a rendered parent is at least as long as its opening and closing tags |
| HtmlNodes.RenderChildren | src/parentnode.py:13 | no children render as the empty string; a failing first child gives its error; on success the first child's rendering begins the text |
| HtmlNodes.BaseNeverRenders | src/htmlnode.py:11-12 | the base class never renders, whatever its fields |
| HtmlNodes.ParentChecks | src/parentnode.py:8-14 | a parent without a tag fails on the tag whatever its children; with a tag but children None it fails on the children; an empty child list renders `<tag></tag>` |
| HtmlNodes.RenderSucceedsIffRenderable | src/parentnode.py:8-14 | rendering succeeds exactly on trees with no base node, no leaf without a value and no parent without a tag or children |
| HtmlNodes.ChildrenSucceedIffRenderable | src/parentnode.py:13 | a child list renders exactly when every child renders |
| HtmlNodes.RenderChildrenConcat | src/parentnode.py:13 | rendered children glue together in order |
| HtmlNodes.RenderChildrenFirstFailure | src/parentnode.py:13 | the first child that fails decides the error |
| HtmlNodes.ParentRendering | src/parentnode.py:13-14 | a parent with a tag and rendering children is `<tag>`, the children's renderings in order, then `</tag>`, with no attributes even if props are set |
| HtmlNodes.ParentChildFailure | src/parentnode.py:13 | if a child fails, the parent fails with that child's error |
| HtmlNodes.LeafRendering | src/test_leafnode.py:5-25 | (assumed leaf behaviour) no value fails, with or without attributes; no tag returns the value; a tag wraps the value, with a space and the attributes when there are any |
| TextNodes.StructuralEquality | src/test_textnode.py:5-18 | nodes are equal when all fields match, and differ when the url or the text differs |
| TestCases.SplitSingleNode | src/test_functions.py:6-14 | a code span in the middle of a sentence gives plain, code, plain |
| TestCases.SplitMultipleNodes | src/test_functions.py:16-26 | a node without the delimiter is kept whole, and the nodes' outputs follow input order |
| TestCases.SplitNodeWithMultipleDelimitedStrings | src/test_functions.py:28-38 | two code spans give five nodes alternating plain and code |
| TestCases.SplitNodeStartingWithDelimiter | src/test_functions.py:40-47 | a leading delimiter's empty first section is dropped |
| TestCases.ReturnNonTextNodesUnchanged | src/test_functions.py:49-59 | a bold node after a plain one is passed through in place |
| TestCases.RaiseExceptionIfNoClosingDelimiter | src/test_functions.py:61-65 | a missing closing delimiter fails with the delimiter's error |
| TestCases.PropsToHtmlInOrder | src/test_htmlnode.py:5-18 | two attributes render in insertion order, one space apart |
| TestCases.LeafWithAttributes | src/test_leafnode.py:15-19 | a leaf with two attributes renders them after its tag name |
| TestCases.NestedList | src/test_parentnode.py:33-38 | a list parent of one leaf renders as `<ul><li>list item</li></ul>` |
| TestCases.ParentWithLeafChildren | src/test_parentnode.py:18-30 | four leaves, with and without tags, render in order inside `<p>…</p>` |
| TestCases.ParentWithNestedParent | src/test_parentnode.py:32-51 | a parent nested as the fifth child renders its whole subtree in place |

## Left out

- `__repr__` of `HTMLNode` (src/htmlnode.py:8-9) and of `TextNode`: string formatting of Python dicts and enums, with no logic to verify.
- `extract_markdown_images`, `extract_markdown_links`, `split_nodes_image` and `split_nodes_link`: they are exercised by tests, but their definitions are not part of this model.
- Exception classes and message texts: each error is a constructor of an error datatype. `UnmatchedDelimiter` carries the delimiter that the message names.
- The `reduce`/`list`/`''.join` plumbing of `ParentNode.to_html` (src/parentnode.py:13) is modelled as plain left-to-right string concatenation.
- `leafnode.py` and `textnode.py` are not part of this model: the leaf and text-node behaviour is taken from their tests.
- HtmlNodes.PropsToHtml: `props_to_html` with props None crashes in the source; the model requires props to be present instead of modelling the crash.
- The leaf's handling of an empty attribute map: taken to render no attribute text and no space, like props None; its tests only fix the no-props case.
- A node whose text is None, which would crash `str.split`, cannot be expressed: text is always a string.
- Python's `str.split` with an empty separator raises `ValueError`; the model returns `EmptySeparator` instead of modelling the exception.
