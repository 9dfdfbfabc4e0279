/** The HTML tree (`HTMLNode`, `LeafNode`, `ParentNode`) and its serialisation. */
module Html {
  import opened Wrappers
  import opened PyStr

  /** Attributes in insertion order, as a Python dict iterates them. */
  type Props = seq<(string, string)>

  /** The children of a parent node; `NoChildren` is Python's `children=None`. */
  datatype ChildList = NoChildren | ChildSeq(nodes: seq<Node>)

  /** The two node shapes. A leaf has no children field at all and a parent has
      no value field, which is what the two Python subclasses pass to the base
      constructor. */
  datatype Node =
    | Leaf(tag: Option<string>, value: Option<string>, props: Option<Props>)
    | Parent(tag: Option<string>, children: ChildList, props: Option<Props>)

  /** The `ValueError`s rendering raises. */
  datatype HtmlError = MissingValue | MissingTag | MissingChildren

  // ---------------------------------------------------------------------------
  // attributes

  /** One attribute as `props_to_html` writes it: a space, the key, `=` and the
      value in single quotes, with no escaping. */
  function Attribute(key: string, value: string): string {
    " " + key + "='" + value + "'"
  }

  /** The attributes of a dict, left to right. */
  function Attributes(ps: Props): string {
    if ps == [] then "" else Attributes(ps[..|ps| - 1]) + Attribute(ps[|ps| - 1].0, ps[|ps| - 1].1)
  }

  /** What `props_to_html` returns: nothing for `props=None`. */
  function AttributeText(props: Option<Props>): string {
    match props
    case None => ""
    case Some(ps) => Attributes(ps)
  }

  /** Attributes render independently, in insertion order: the rendering of a
      concatenation is the concatenation of the renderings. */
  lemma {:induction false} AttributesAppend(a: Props, b: Props)
    ensures Attributes(a + b) == Attributes(a) + Attributes(b)
    decreases |b|
  {
    if b == [] {
      assert a + b == a;
    } else {
      var front, last := b[..|b| - 1], b[|b| - 1];
      AttributesAppend(a, front);
      assert (a + b)[..|a + b| - 1] == a + front && (a + b)[|a + b| - 1] == last;
      assert Attributes(a + b) == Attributes(a + front) + Attribute(last.0, last.1);
      assert Attributes(b) == Attributes(front) + Attribute(last.0, last.1);
    }
  }

  /** `HTMLNode.props_to_html`: accumulates one attribute per key in a loop. */
  method PropsToHtml(props: Option<Props>) returns (result: string)
    ensures result == AttributeText(props)
  {
    result := "";
    if props.Some? {
      var ps := props.value;
      for i := 0 to |ps|
        invariant result == Attributes(ps[..i])
      {
        assert ps[..i + 1][..i] == ps[..i];
        result := result + Attribute(ps[i].0, ps[i].1);
      }
      assert ps[..|ps|] == ps;
      return result;
    } else {
      return "";
    }
  }

  // ---------------------------------------------------------------------------
  // rendering

  function OpenTag(tag: string, props: Option<Props>): string {
    "<" + tag + AttributeText(props) + ">"
  }

  function CloseTag(tag: string): string {
    "</" + tag + ">"
  }

  /** A tree renders without error exactly when every leaf in it has a value and
      every parent in it has a tag and a children list. */
  predicate WellFormed(n: Node)
    decreases n
  {
    match n
    case Leaf(_, value, _) => value.Some?
    case Parent(tag, children, _) =>
      && tag.Some?
      && children.ChildSeq?
      && forall i :: 0 <= i < |children.nodes| ==> WellFormed(children.nodes[i])
  }

  /** `LeafNode.to_html`: no value is an error, no tag gives the raw value, and
      otherwise the value is wrapped in the element's opening and closing tags. */
  function LeafToHtml(tag: Option<string>, value: Option<string>, props: Option<Props>): (r: Result<string, HtmlError>)
    ensures r.Failure? <==> value.None?
    ensures r.Failure? ==> r.error == MissingValue
    ensures value.Some? && tag.None? ==> r.value == value.value
    ensures value.Some? && tag.Some? ==> r.value == OpenTag(tag.value, props) + value.value + CloseTag(tag.value)
  {
    if value.None? then Failure(MissingValue)
    else if tag.None? then Success(value.value)
    else Success("<" + tag.value + AttributeText(props) + ">" + value.value + "</" + tag.value + ">")
  }

  /** The string a node renders to, or the error rendering raises. */
  function Markup(n: Node): (r: Result<string, HtmlError>)
    ensures r.Success? <==> WellFormed(n)
    decreases n
  {
    match n
    case Leaf(tag, value, props) => LeafToHtml(tag, value, props)
    case Parent(tag, children, props) =>
      if tag.None? then Failure(MissingTag)
      else if children.NoChildren? then Failure(MissingChildren)
      else
        match ChildrenMarkup(children.nodes)
        case Failure(e) => Failure(e)
        case Success(inner) => Success(OpenTag(tag.value, props) + inner + CloseTag(tag.value))
  }

  /** The children rendered in order and concatenated; the first child that fails
      decides the error. */
  function ChildrenMarkup(cs: seq<Node>): (r: Result<string, HtmlError>)
    ensures r.Success? <==> forall i :: 0 <= i < |cs| ==> WellFormed(cs[i])
    decreases cs
  {
    if cs == [] then Success("")
    else
      match ChildrenMarkup(cs[..|cs| - 1])
      case Failure(e) => Failure(e)
      case Success(front) =>
        match Markup(cs[|cs| - 1])
        case Failure(e) => Failure(e)
        case Success(last) => Success(front + last)
  }

  /** Rendering children is compositional: the rendering of `a + b` is the
      rendering of `a` followed by that of `b`, and an error in `a` wins over
      anything in `b`. */
  lemma {:induction false} ChildrenMarkupAppend(a: seq<Node>, b: seq<Node>)
    ensures ChildrenMarkup(a).Failure? ==> ChildrenMarkup(a + b) == ChildrenMarkup(a)
    ensures ChildrenMarkup(a).Success? && ChildrenMarkup(b).Failure? ==> ChildrenMarkup(a + b) == ChildrenMarkup(b)
    ensures ChildrenMarkup(a).Success? && ChildrenMarkup(b).Success? ==>
      ChildrenMarkup(a + b) == Success(ChildrenMarkup(a).value + ChildrenMarkup(b).value)
    decreases |b|
  {
    if b == [] {
      assert a + b == a;
      if ChildrenMarkup(a).Success? {
        assert ChildrenMarkup(a).value + "" == ChildrenMarkup(a).value;
      }
    } else {
      var b' := b[..|b| - 1];
      ChildrenMarkupAppend(a, b');
      assert (a + b)[..|a + b| - 1] == a + b';
      assert (a + b)[|a + b| - 1] == b[|b| - 1];
      if ChildrenMarkup(a).Success? && ChildrenMarkup(b).Success? {
        var x, y, z := ChildrenMarkup(a).value, ChildrenMarkup(b').value, Markup(b[|b| - 1]).value;
        assert x + y + z == x + (y + z);
      }
    }
  }

  /** Once a prefix of the children fails, rendering them all fails the same way. */
  lemma {:induction false} ChildrenPrefixFailure(cs: seq<Node>, n: nat)
    requires n <= |cs| && ChildrenMarkup(cs[..n]).Failure?
    ensures ChildrenMarkup(cs) == ChildrenMarkup(cs[..n])
    decreases |cs| - n
  {
    if n == |cs| {
      assert cs[..n] == cs;
    } else {
      assert cs[..n + 1][..n] == cs[..n];
      ChildrenPrefixFailure(cs, n + 1);
    }
  }

  /** The error of a failing parent is the error of its first ill-formed child. */
  lemma FirstChildErrorWins(cs: seq<Node>, j: nat)
    requires j < |cs| && !WellFormed(cs[j])
    requires forall i :: 0 <= i < j ==> WellFormed(cs[i])
    ensures ChildrenMarkup(cs) == Failure(Markup(cs[j]).error)
  {
    assert ChildrenMarkup(cs[..j + 1]) == Failure(Markup(cs[j]).error) by {
      var front := cs[..j];
      assert cs[..j + 1][..j] == front && cs[..j + 1][j] == cs[j];
      assert ChildrenMarkup(front).Success? by {
        assert forall i :: 0 <= i < |front| ==> front[i] == cs[i];
      }
    }
    ChildrenPrefixFailure(cs, j + 1);
  }

  /** A parent with a tag and an empty children list renders as an empty element. */
  lemma EmptyParent(tag: string, props: Option<Props>)
    ensures Markup(Parent(Some(tag), ChildSeq([]), props)) == Success(OpenTag(tag, props) + CloseTag(tag))
  {
    assert OpenTag(tag, props) + "" == OpenTag(tag, props);
  }

  /** `ParentNode.to_html` (and, for a leaf, `LeafNode.to_html`): the opening tag,
      then each child's rendering appended in a loop, then the closing tag. */
  method ToHtml(n: Node) returns (r: Result<string, HtmlError>)
    ensures r == Markup(n)
    decreases n
  {
    match n {
      case Leaf(tag, value, props) =>
        r := LeafToHtml(tag, value, props);
      case Parent(tag, children, props) =>
        if tag.None? {
          return Failure(MissingTag);
        }
        if children.NoChildren? {
          return Failure(MissingChildren);
        }
        var attrs := PropsToHtml(props);
        var result := "<" + tag.value + attrs + ">";
        ghost var open := result;
        var cs := children.nodes;
        var i := 0;
        while i < |cs|
          invariant 0 <= i <= |cs|
          invariant ChildrenMarkup(cs[..i]).Success?
          invariant result == open + ChildrenMarkup(cs[..i]).value
        {
          var child := ToHtml(cs[i]);
          assert cs[..i + 1][..i] == cs[..i];
          if child.Failure? {
            ChildrenMarkupAppend(cs[..i + 1], cs[i + 1..]);
            assert cs[..i + 1] + cs[i + 1..] == cs;
            return Failure(child.error);
          }
          result := result + child.value;
          i := i + 1;
        }
        assert cs[..|cs|] == cs;
        assert open == OpenTag(tag.value, props);
        r := Success(result + "</" + tag.value + ">");
        assert r.value == OpenTag(tag.value, props) + ChildrenMarkup(cs).value + CloseTag(tag.value);
    }
  }
}
