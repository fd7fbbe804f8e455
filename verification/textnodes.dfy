/** Typed inline text spans. The defining file (`textnode.py`) is not part of
    this model; the shape below is the one its tests exercise: a text, a
    type and an optional url, compared field by field. */
module TextNodes {
  import opened Wrappers

  /** The inline kinds a span can carry; `Text` is plain, not yet split, text. */
  datatype TextType = Text | Bold | Italic | Code | Link | Image

  /** Equality of two nodes is datatype equality: all three fields must match. */
  datatype TextNode = TextNode(text: string, textType: TextType, url: Option<string>)

  /** The texts of a node sequence, glued together in order. */
  function Texts(nodes: seq<TextNode>): string {
    if |nodes| == 0 then "" else nodes[0].text + Texts(nodes[1..])
  }

  lemma TextsAppend(a: seq<TextNode>, b: seq<TextNode>)
    ensures Texts(a + b) == Texts(a) + Texts(b)
  {
    if |a| > 0 {
      assert (a + b)[1..] == a[1..] + b;
      TextsAppend(a[1..], b);
    } else {
      assert a + b == b;
    }
  }

  /** Equal text and type but different url makes two nodes different, and
      so does different text with the same type and url. */
  lemma StructuralEquality(t: string, t': string, ty: TextType, u: string)
    requires t != t'
    ensures TextNode(t, ty, Some(u)) != TextNode(t, ty, None)
    ensures TextNode(t, ty, None) != TextNode(t', ty, None)
    ensures TextNode(t, ty, None) == TextNode(t, ty, None)
  {
  }
}
