/** The HTML node tree of `htmlnode.py` and `parentnode.py`. Every node has
    the four fields of `HTMLNode` (tag, value, children, props); the `kind`
    says which class built it, and with it which `to_html` applies: the base
    class always refuses, a leaf wraps its value, a parent wraps its
    children's renderings. `leafnode.py` is not part of this model: the leaf
    behaviour here is the one its tests pin down. */
module HtmlNodes {
  import opened Wrappers
  import opened Strings
  import opened Attributes

  /** The class a node was built by. */
  datatype Kind = Base | Leaf | Parent

  /** A node's `children` field: Python's `None`, or a list of nodes. */
  datatype ChildList = NoChildren | Children(nodes: seq<HtmlNode>)

  datatype HtmlNode = HtmlNode(kind: Kind, tag: Option<string>, value: Option<string>, children: ChildList, props: Option<Props>)

  /** Why `to_html` raises. */
  datatype RenderError =
    | NotImplemented          // the base class has no rendering
    | LeafWithoutValue        // a leaf whose value is None
    | ParentWithoutTag        // "parent node must have a tag"
    | ParentWithoutChildren   // "parent node must have a child"

  /** `HTMLNode.__init__`: every field stored as given, each defaulting to None. */
  function NewHtmlNode(tag: Option<string> := None, value: Option<string> := None,
                       children: ChildList := NoChildren, props: Option<Props> := None): (r: HtmlNode)
    ensures r.kind == Base
    ensures r.tag == tag && r.value == value && r.children == children && r.props == props
  {
    HtmlNode(Base, tag, value, children, props)
  }

  /** `ParentNode.__init__`: tag and children; value and props are left None. */
  function NewParentNode(tag: Option<string>, children: ChildList): (r: HtmlNode)
    ensures r.kind == Parent && r.tag == tag && r.children == children
    ensures r.value.None? && r.props.None?
  {
    HtmlNode(Parent, tag, None, children, None)
  }

  /** `LeafNode(tag, value, props=None)`, as its tests construct it; a leaf
      is taken to have no children. */
  function NewLeafNode(tag: Option<string>, value: Option<string>, props: Option<Props> := None): HtmlNode {
    HtmlNode(Leaf, tag, value, NoChildren, props)
  }

  /** `HTMLNode.props_to_html`; with props None the source crashes, so the
      model asks for props to be present. */
  function PropsToHtml(node: HtmlNode): (r: string)
    requires node.props.Some?
    ensures r == "" <==> |node.props.value| == 0
  {
    RenderProps(node.props.value)
  }

  /** The text between a leaf's tag name and its `>`: nothing without
      attributes, otherwise a space and the attributes. */
  function LeafAttributes(node: HtmlNode): string {
    if node.props.None? || |node.props.value| == 0 then "" else " " + PropsToHtml(node)
  }

  /** `to_html` for every kind of node. */
  function ToHtml(node: HtmlNode): (r: Result<string, RenderError>)
    decreases node, 1
    ensures r.Success? ==>
      (node.kind == Leaf && node.value.Some?) || (node.kind == Parent && node.tag.Some? && node.children.Children?)
    ensures node.kind == Parent && node.tag.None? ==> r == Failure(ParentWithoutTag)
    ensures r.Success? && node.kind == Parent ==> |r.value| >= 2 * |node.tag.value| + 5
  {
    match node.kind
    case Base => Failure(NotImplemented)
    case Leaf =>
      if node.value.None? then Failure(LeafWithoutValue)
      else if node.tag.None? then Success(node.value.value)
      else
        var tag := node.tag.value;
        Success("<" + tag + LeafAttributes(node) + ">" + node.value.value + "</" + tag + ">")
    case Parent =>
      if node.tag.None? then Failure(ParentWithoutTag)
      else if node.children.NoChildren? then Failure(ParentWithoutChildren)
      else
        match RenderChildren(node.children.nodes)
        case Failure(e) => Failure(e)
        case Success(inner) => Success("<" + node.tag.value + ">" + inner + "</" + node.tag.value + ">")
  }

  /** The children's renderings glued together, left to right; the first
      child that fails stops the rendering with its error. */
  function RenderChildren(children: seq<HtmlNode>): (r: Result<string, RenderError>)
    decreases children, 0
    ensures |children| == 0 ==> r == Success("")
    ensures |children| > 0 && ToHtml(children[0]).Failure? ==> r == Failure(ToHtml(children[0]).error)
    ensures r.Success? && |children| > 0 ==>
      ToHtml(children[0]).Success? && ToHtml(children[0]).value <= r.value
  {
    if |children| == 0 then Success("")
    else
      match ToHtml(children[0])
      case Failure(e) => Failure(e)
      case Success(first) =>
        match RenderChildren(children[1..])
        case Failure(e) => Failure(e)
        case Success(rest) => Success(first + rest)
  }

  /** A tree that renders: no base-class node anywhere, every leaf has a
      value, every parent has a tag and a (possibly empty) child list. */
  predicate Renderable(node: HtmlNode)
    decreases node, 1
  {
    match node.kind
    case Base => false
    case Leaf => node.value.Some?
    case Parent => node.tag.Some? && node.children.Children? && AllRenderable(node.children.nodes)
  }

  predicate AllRenderable(children: seq<HtmlNode>)
    decreases children, 0
  {
    |children| == 0 || (Renderable(children[0]) && AllRenderable(children[1..]))
  }

  /** Rendering succeeds exactly on renderable trees. */
  lemma {:induction false} RenderSucceedsIffRenderable(node: HtmlNode)
    decreases node, 1
    ensures ToHtml(node).Success? <==> Renderable(node)
  {
    if node.kind == Parent && node.tag.Some? && node.children.Children? {
      ChildrenSucceedIffRenderable(node.children.nodes);
    }
  }

  lemma {:induction false} ChildrenSucceedIffRenderable(children: seq<HtmlNode>)
    decreases children, 0
    ensures RenderChildren(children).Success? <==> AllRenderable(children)
  {
    if |children| > 0 {
      RenderSucceedsIffRenderable(children[0]);
      ChildrenSucceedIffRenderable(children[1..]);
    }
  }

  /** When every child renders, the children render to the concatenation of
      their renderings, in order. */
  lemma {:induction false} RenderChildrenConcat(children: seq<HtmlNode>)
    requires forall i :: 0 <= i < |children| ==> ToHtml(children[i]).Success?
    ensures RenderChildren(children) ==
      Success(Concat(seq(|children|, i requires 0 <= i < |children| => ToHtml(children[i]).value)))
  {
    if |children| > 0 {
      RenderChildrenConcat(children[1..]);
      var all := seq(|children|, i requires 0 <= i < |children| => ToHtml(children[i]).value);
      var rest := seq(|children| - 1, i requires 0 <= i < |children| - 1 => ToHtml(children[1..][i]).value);
      assert all[1..] == rest;
    }
  }

  /** The first child that fails decides the error: every child before it
      rendered, and its error is the one reported. */
  lemma {:induction false} RenderChildrenFirstFailure(children: seq<HtmlNode>, k: nat)
    requires k < |children|
    requires forall i :: 0 <= i < k ==> ToHtml(children[i]).Success?
    requires ToHtml(children[k]).Failure?
    ensures RenderChildren(children) == Failure(ToHtml(children[k]).error)
  {
    if k > 0 {
      RenderChildrenFirstFailure(children[1..], k - 1);
    }
  }

  /** A parent with a tag renders as `<tag>`, its children's renderings in
      order, then `</tag>`, with no attributes even if props are set. */
  lemma ParentRendering(node: HtmlNode)
    requires node.kind == Parent && node.tag.Some? && node.children.Children?
    requires forall i :: 0 <= i < |node.children.nodes| ==> ToHtml(node.children.nodes[i]).Success?
    ensures var cs := node.children.nodes;
      ToHtml(node) == Success("<" + node.tag.value + ">"
        + Concat(seq(|cs|, i requires 0 <= i < |cs| => ToHtml(cs[i]).value))
        + "</" + node.tag.value + ">")
  {
    RenderChildrenConcat(node.children.nodes);
  }

  /** A parent with a tag whose `k`-th child is the first to fail reports
      that child's error. */
  lemma ParentChildFailure(node: HtmlNode, k: nat)
    requires node.kind == Parent && node.tag.Some? && node.children.Children?
    requires k < |node.children.nodes|
    requires forall i :: 0 <= i < k ==> ToHtml(node.children.nodes[i]).Success?
    requires ToHtml(node.children.nodes[k]).Failure?
    ensures ToHtml(node) == Failure(ToHtml(node.children.nodes[k]).error)
  {
    RenderChildrenFirstFailure(node.children.nodes, k);
  }

  /** The two checks of `ParentNode.to_html`, tag first: a parent without a
      tag fails on the tag whatever its children, one with a tag but no
      child list fails on the children, and an empty child list is fine. */
  lemma ParentChecks(tag: string, children: ChildList)
    ensures ToHtml(NewParentNode(None, children)) == Failure(ParentWithoutTag)
    ensures ToHtml(NewParentNode(Some(tag), NoChildren)) == Failure(ParentWithoutChildren)
    ensures ToHtml(NewParentNode(Some(tag), Children([]))) == Success("<" + tag + "></" + tag + ">")
  {
    assert "<" + tag + ">" + "" + "</" + tag + ">" == "<" + tag + "></" + tag + ">";
  }

  /** The base class never renders, whatever its fields. */
  lemma BaseNeverRenders(tag: Option<string>, value: Option<string>, children: ChildList, props: Option<Props>)
    ensures ToHtml(NewHtmlNode(tag, value, children, props)) == Failure(NotImplemented)
  {
  }

  /** The leaf cases its tests fix: no value fails, no tag gives the value
      back as it is, and a tag wraps the value, with a space and the
      attributes before `>` when there are any. */
  lemma LeafRendering(tag: string, value: string, props: Props)
    ensures ToHtml(NewLeafNode(Some(tag), None)) == Failure(LeafWithoutValue)
    ensures ToHtml(NewLeafNode(Some(tag), None, Some(props))) == Failure(LeafWithoutValue)
    ensures ToHtml(NewLeafNode(None, Some(value))) == Success(value)
    ensures ToHtml(NewLeafNode(Some(tag), Some(value))) == Success("<" + tag + ">" + value + "</" + tag + ">")
    ensures |props| > 0 ==>
      ToHtml(NewLeafNode(Some(tag), Some(value), Some(props))) ==
      Success("<" + tag + " " + RenderProps(props) + ">" + value + "</" + tag + ">")
  {
    assert "<" + tag + "" + ">" + value + "</" + tag + ">" == "<" + tag + ">" + value + "</" + tag + ">";
    if |props| > 0 {
      var leaf := NewLeafNode(Some(tag), Some(value), Some(props));
      assert LeafAttributes(leaf) == " " + RenderProps(props);
      assert "<" + tag + (" " + RenderProps(props)) + ">" + value + "</" + tag + ">"
          == "<" + tag + " " + RenderProps(props) + ">" + value + "</" + tag + ">";
    }
  }
}
