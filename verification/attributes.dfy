/** HTML attribute rendering (`HTMLNode.props_to_html`): each key/value pair
    of an insertion-ordered dictionary becomes `key="value"`, and the pairs
    are joined by single spaces. Nothing is escaped. */
module Attributes {
  import opened Wrappers
  import opened Strings

  /** A Python dict of attributes, in insertion order. Rendering never looks
      at whether keys repeat, so the model does not insist that they do not. */
  type Props = seq<(string, string)>

  /** One attribute, `key="value"`, with key and value copied verbatim. */
  function Attribute(pair: (string, string)): string {
    pair.0 + "=\"" + pair.1 + "\""
  }

  /** `props_to_html`: each pair as `key="value"`, in insertion order, joined
      by single spaces. */
  function RenderProps(props: Props): (r: string)
    ensures r == "" <==> |props| == 0
    ensures |props| > 0 ==> r[|r| - 1] == '"'
  {
    var attrs := seq(|props|, i requires 0 <= i < |props| => Attribute(props[i]));
    JoinNonEmpty(attrs, " ");
    Join(attrs, " ")
  }

  /** Joining non-empty pieces gives the empty string only for no pieces, and
      ends with the last piece. */
  lemma {:induction false} JoinNonEmpty(pieces: seq<string>, d: string)
    requires forall i :: 0 <= i < |pieces| ==> |pieces[i]| > 0
    ensures Join(pieces, d) == "" <==> |pieces| == 0
    ensures |pieces| > 0 ==> |Join(pieces, d)| >= |pieces[|pieces| - 1]|
    ensures |pieces| > 0 ==> Join(pieces, d)[|Join(pieces, d)| - 1] == pieces[|pieces| - 1][|pieces[|pieces| - 1]| - 1]
  {
    if |pieces| > 1 {
      var tail := pieces[1..];
      JoinNonEmpty(tail, d);
      var rest := Join(tail, d);
      var whole := pieces[0] + d + rest;
      assert Join(pieces, d) == whole;
      assert tail[|tail| - 1] == pieces[|pieces| - 1];
      assert whole[|whole| - 1] == rest[|rest| - 1];
    }
  }

  /** Rendering with one more attribute in front: its text, a space, then the rest. */
  lemma RenderPropsCons(pair: (string, string), props: Props)
    ensures RenderProps([pair] + props) ==
      if |props| == 0 then Attribute(pair) else Attribute(pair) + " " + RenderProps(props)
  {
    var all := [pair] + props;
    var attrs := seq(|all|, i requires 0 <= i < |all| => Attribute(all[i]));
    var rest := seq(|props|, i requires 0 <= i < |props| => Attribute(props[i]));
    assert attrs[1..] == rest;
  }

  /** The part of `s` before the first `c`, and the rest of `s` from that `c` on. */
  function TakeUntil(s: string, c: char): (r: (string, string))
    ensures r.0 + r.1 == s
    ensures c !in r.0
    ensures r.1 == "" || r.1[0] == c
  {
    if |s| == 0 then ("", "")
    else if s[0] == c then ("", s)
    else
      var (p, q) := TakeUntil(s[1..], c);
      ([s[0]] + p, q)
  }

  /** Reads back attribute text in the shape `RenderProps` writes: a key up to
      `=`, a value between double quotes, pairs separated by one space. */
  function ParseProps(s: string): Option<Props> {
    if s == "" then Some([]) else ParsePairs(s)
  }

  function ParsePairs(s: string): Option<Props>
    decreases |s|
  {
    var (key, afterKey) := TakeUntil(s, '=');
    if |afterKey| < 2 || afterKey[1] != '"' then None
    else
      var (value, afterValue) := TakeUntil(afterKey[2..], '"');
      if afterValue == "" then None
      else
        var rest := afterValue[1..];
        if rest == "" then Some([(key, value)])
        else if rest[0] != ' ' then None
        else
          match ParsePairs(rest[1..])
          case None => None
          case Some(more) => Some([(key, value)] + more)
  }

  /** Keys free of `=` and values free of `"`: the attributes whose rendering
      can be read back, given that nothing is escaped. */
  predicate Unambiguous(props: Props) {
    forall i :: 0 <= i < |props| ==> '=' !in props[i].0 && '"' !in props[i].1
  }

  /** Cutting `x + y` at the first `c` gives back `x` and `y` when `c` is not
      in `x` and `y` is empty or starts with it. */
  lemma {:induction false} TakeUntilSplits(x: string, y: string, c: char)
    requires c !in x
    requires y == "" || y[0] == c
    ensures TakeUntil(x + y, c) == (x, y)
  {
    if |x| > 0 {
      assert (x + y)[1..] == x[1..] + y;
      TakeUntilSplits(x[1..], y, c);
      assert [x[0]] + x[1..] == x;
    } else {
      assert x + y == y;
    }
  }

  /** Insertion order and verbatim content: when no key holds `=` and no value
      holds `"`, the rendered text reads back to exactly the pairs it came from. */
  lemma {:induction false} RenderPropsRoundTrip(props: Props)
    requires Unambiguous(props)
    ensures ParseProps(RenderProps(props)) == Some(props)
  {
    if |props| > 0 {
      ParsePairsRoundTrip(props);
    }
  }

  /** A rendered attribute followed by `gap`, regrouped from the right. */
  lemma AttributeShape(key: string, value: string, gap: string)
    ensures Attribute((key, value)) + gap == key + ("=\"" + (value + ("\"" + gap)))
  {
  }

  /** Reading one rendered attribute followed by `gap`, the text after it. */
  lemma ParseOnePair(key: string, value: string, gap: string)
    requires '=' !in key && '"' !in value
    requires gap == "" || gap[0] == ' '
    ensures ParsePairs(Attribute((key, value)) + gap) ==
      if gap == "" then Some([(key, value)])
      else match ParsePairs(gap[1..])
        case None => None
        case Some(more) => Some([(key, value)] + more)
  {
    var afterValue := "\"" + gap;
    var afterKey := "=\"" + (value + afterValue);
    AttributeShape(key, value, gap);
    TakeUntilSplits(key, afterKey, '=');
    assert |afterKey| >= 2 && afterKey[1] == '"';
    assert afterKey[2..] == value + afterValue;
    TakeUntilSplits(value, afterValue, '"');
    assert afterValue[1..] == gap;
  }

  /** One readable attribute reads back to itself. */
  lemma RoundTripOne(pair: (string, string))
    requires '=' !in pair.0 && '"' !in pair.1
    ensures ParsePairs(RenderProps([pair])) == Some([pair])
  {
    assert RenderProps([pair]) == Attribute(pair) by {
      RenderPropsCons(pair, []);
      assert [pair] + [] == [pair];
    }
    ParseOnePair(pair.0, pair.1, "");
    assert Attribute(pair) + "" == Attribute(pair);
  }

  /** A readable attribute in front of attributes that read back reads back
      in front of them. */
  lemma RoundTripCons(pair: (string, string), tail: Props)
    requires '=' !in pair.0 && '"' !in pair.1
    requires |tail| > 0 && ParsePairs(RenderProps(tail)) == Some(tail)
    ensures ParsePairs(RenderProps([pair] + tail)) == Some([pair] + tail)
  {
    var rest := RenderProps(tail);
    assert RenderProps([pair] + tail) == Attribute(pair) + (" " + rest) by {
      RenderPropsCons(pair, tail);
    }
    ParseOnePair(pair.0, pair.1, " " + rest);
    assert (" " + rest)[1..] == rest;
  }

  /** The round trip for a non-empty attribute list. */
  lemma {:induction false} ParsePairsRoundTrip(props: Props)
    requires |props| > 0 && Unambiguous(props)
    decreases |props|
    ensures ParsePairs(RenderProps(props)) == Some(props)
  {
    var pair := props[0];
    var tail := props[1..];
    assert [pair] + tail == props;
    if |tail| == 0 {
      assert [pair] == props;
      RoundTripOne(pair);
    } else {
      forall i | 0 <= i < |tail|
        ensures '=' !in tail[i].0 && '"' !in tail[i].1
      {
        assert tail[i] == props[i + 1];
      }
      ParsePairsRoundTrip(tail);
      RoundTripCons(pair, tail);
    }
  }

  /** Nothing is escaped: a value holding `" b="` renders to the same text as
      two separate attributes, so the rendering alone cannot tell them apart. */
  lemma NoEscaping()
    ensures RenderProps([("a", "x\" b=\"y")]) == RenderProps([("a", "x"), ("b", "y")])
    ensures [("a", "x\" b=\"y")] != [("a", "x"), ("b", "y")]
  {
    var one: Props := [("a", "x\" b=\"y")];
    var two: Props := [("a", "x"), ("b", "y")];
    RenderPropsCons(("a", "x"), [("b", "y")]);
    assert [("a", "x")] + [("b", "y")] == two;
    RenderPropsCons(("b", "y"), []);
    assert [("b", "y")] + [] == [("b", "y")];
    RenderPropsCons(("a", "x\" b=\"y"), []);
    assert [("a", "x\" b=\"y")] + [] == one;
    assert Attribute(("a", "x\" b=\"y")) == "a=\"x\" b=\"y\"";
    assert Attribute(("a", "x")) + " " + Attribute(("b", "y")) == "a=\"x\" b=\"y\"";
  }
}
