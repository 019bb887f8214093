/** `mapArrayToNode`: the nested list becomes a node. Its first entry must be an
    opening tag, which gives the node's name and attributes; every further entry
    becomes a child: nested lists recursively, opening tags as childless nodes, and
    everything else (text, comments, blank strings, markers) as it is. The recursive
    method follows the source's loop and is proved against the function `ToNode`. */
module Assembler {
  import opened Wrappers
  import opened JsText
  import opened Classify
  import opened Values
  import opened Attributes
  import opened Nester

  /** `isHtmlComment` applied to an array: `indexOf` and `lastIndexOf` compare the
      elements with `===`, so only string entries can match. */
  predicate ArrayIsComment(g: seq<Item>) {
    && |g| >= 1 && g[0] == Leaf(Str("<!--"))
    && |g| >= 3 && g[|g| - 3] == Leaf(Str("-->"))
    && g[|g| - 2] != Leaf(Str("-->")) && g[|g| - 1] != Leaf(Str("-->"))
  }

  /** What `isHtmlTag(first)` does with a first entry that is not a string: for an
      array it is false when the array "is a comment" or is shorter than three, and
      otherwise `charAt` is missing; for anything else `indexOf` is missing. */
  function NonStringRoot(first: Item): ParseError
    requires !(first.Leaf? && first.part.Str?)
  {
    match first
    case Group(g) => if ArrayIsComment(g) || |g| < 3 then RootNotElement else NotAString
    case Leaf(_) => NotAString
  }

  /** The node for a nested list. */
  function ToNode(parts: seq<Item>): (r: Result<HtmlNode, ParseError>)
    decreases parts, 2
    ensures r.Ok? ==> |parts| >= 1 && parts[0].Leaf? && parts[0].part.Str? && IsHtmlTag(parts[0].part.s)
    ensures |parts| >= 1 && parts[0].Leaf? && parts[0].part.Str? && !IsHtmlTag(parts[0].part.s) ==>
              r == Err(RootNotElement)
    ensures r.Ok? ==> (r.value.children.None? <==> |parts| == 1)
  {
    if parts == [] then Err(NotAString)
    else if !(parts[0].Leaf? && parts[0].part.Str?) then Err(NonStringRoot(parts[0]))
    else if !IsHtmlTag(parts[0].part.s) then Err(RootNotElement)
    else
      match TagMap(parts[0].part.s)
      case Err(e) => Err(e)
      case Ok(root) =>
        if |parts| == 1 then Ok(root)
        else
          match ChildrenOf(parts[1..])
          case Err(e) => Err(e)
          case Ok(children) => Ok(root.(children := Some(children)))
  }

  /** The children for the entries after the first, left to right; the first error
      wins. */
  function ChildrenOf(items: seq<Item>): Result<seq<Child>, ParseError>
    decreases items, 1
  {
    if items == [] then Ok([])
    else
      match ChildOf(items[0])
      case Err(e) => Err(e)
      case Ok(c) =>
        match ChildrenOf(items[1..])
        case Err(e) => Err(e)
        case Ok(cs) => Ok([c] + cs)
  }

  /** The child for one entry. */
  function ChildOf(item: Item): Result<Child, ParseError>
    decreases item, 0
  {
    match item
    case Group(g) =>
      (match ToNode(g)
       case Err(e) => Err(e)
       case Ok(n) => Ok(NodeChild(n)))
    case Leaf(Marker(m)) => Ok(ValueChild(m))
    case Leaf(Str(s)) =>
      if IsWhitespace(s) then Ok(TextChild(s))
      else if IsHtmlTag(s) then
        (match TagMap(s)
         case Err(e) => Err(e)
         case Ok(n) => Ok(NodeChild(n)))
      else Ok(TextChild(s))
  }

  /** `cs` put in front of the children of a successful rest. */
  function Prepend(cs: seq<Child>, rest: Result<seq<Child>, ParseError>): Result<seq<Child>, ParseError> {
    match rest
    case Err(e) => Err(e)
    case Ok(more) => Ok(cs + more)
  }

  /** One entry of the children loop that maps to `c`. */
  lemma PrependCons(children: seq<Child>, rest: seq<Item>, c: Child)
    requires rest != [] && ChildOf(rest[0]) == Ok(c)
    ensures Prepend(children, ChildrenOf(rest)) == Prepend(children + [c], ChildrenOf(rest[1..]))
  {
    if ChildrenOf(rest[1..]).Ok? {
      var more := ChildrenOf(rest[1..]).value;
      assert children + ([c] + more) == children + [c] + more;
    }
  }

  /** One entry of the children loop that fails. */
  lemma PrependErr(children: seq<Child>, rest: seq<Item>, e: ParseError)
    requires rest != [] && ChildOf(rest[0]) == Err(e)
    ensures Prepend(children, ChildrenOf(rest)) == Err(e)
  {
  }

  /** `mapArrayToNode`. */
  method MapArrayToNode(parts: seq<Item>) returns (r: Result<HtmlNode, ParseError>)
    ensures r == ToNode(parts)
    decreases parts, 2
  {
    if parts == [] {
      return Err(NotAString);
    }
    var first := parts[0];
    if !(first.Leaf? && first.part.Str?) {
      return Err(NonStringRoot(first));
    }
    if !IsHtmlTag(first.part.s) {
      return Err(RootNotElement);
    }
    var mapped := MapHtmlTagToArray(first.part.s);
    if mapped.Err? {
      return Err(mapped.error);
    }
    var root := mapped.value;
    if |parts| == 1 {
      return Ok(root);
    }

    var children: seq<Child> := [];
    assert Prepend(children, ChildrenOf(parts[1..])) == ChildrenOf(parts[1..]) by {
      if ChildrenOf(parts[1..]).Ok? {
        assert children + ChildrenOf(parts[1..]).value == ChildrenOf(parts[1..]).value;
      }
    }
    for i := 1 to |parts|
      invariant ChildrenOf(parts[1..]) == Prepend(children, ChildrenOf(parts[i..]))
    {
      assert parts[i..][1..] == parts[i + 1..];
      assert parts[i..][0] == parts[i];
      var item := parts[i];
      var result: Child;
      match item {
        case Group(g) =>
          var node := MapArrayToNode(g);
          if node.Err? {
            PrependErr(children, parts[i..], node.error);
            return Err(node.error);
          }
          result := NodeChild(node.value);
        case Leaf(Marker(m)) =>
          result := ValueChild(m);
        case Leaf(Str(s)) =>
          if IsWhitespace(s) {
            result := TextChild(s);
          } else if IsHtmlTag(s) {
            var node := MapHtmlTagToArray(s);
            if node.Err? {
              PrependErr(children, parts[i..], node.error);
              return Err(node.error);
            }
            result := NodeChild(node.value);
          } else {
            result := TextChild(s);
          }
      }
      PrependCons(children, parts[i..], result);
      children := children + [result];
    }
    assert parts[|parts|..] == [];
    assert children + [] == children;
    return Ok(root.(children := Some(children)));
  }

  /** The children in detail: one per entry, in order; nested lists become their
      nodes, opening tags (that are not blank) become childless nodes, and every other
      entry is kept as it is. */
  lemma {:induction false} ChildrenOfSpec(items: seq<Item>)
    requires ChildrenOf(items).Ok?
    ensures var cs := ChildrenOf(items).value;
            && |cs| == |items|
            && forall k :: 0 <= k < |items| ==> ChildOf(items[k]).Ok? && cs[k] == ChildOf(items[k]).value
    decreases items
  {
    if items != [] {
      ChildrenOfSpec(items[1..]);
      var cs := ChildrenOf(items).value;
      assert forall k :: 1 <= k < |items| ==> items[k] == items[1..][k - 1];
    }
  }

  /** An entry that is not an opening tag and not a nested list is kept verbatim. */
  lemma ChildVerbatim(item: Item)
    requires item.Leaf? && !(item.part.Str? && !IsWhitespace(item.part.s) && IsHtmlTag(item.part.s))
    ensures ChildOf(item) == Ok(if item.part.Str? then TextChild(item.part.s) else ValueChild(item.part.m))
  {
  }

  /** An opening tag among the children becomes a node without children. */
  lemma ChildTagHasNoChildren(s: string)
    requires IsHtmlTag(s) && ChildOf(Leaf(Str(s))).Ok?
    ensures ChildOf(Leaf(Str(s))).value.NodeChild?
    ensures ChildOf(Leaf(Str(s))).value.node.children == None
  {
    TagMapSpec(s);
    NotBlankTag(s);
  }

  /** An opening tag is never blank. */
  lemma NotBlankTag(s: string)
    requires IsHtmlTag(s)
    ensures !IsWhitespace(s)
  {
    assert !IsJsSpace(s[0]);
  }

  /** The root node is the first entry's tag map, with the other entries as children
      when there are any. */
  lemma ToNodeRoot(parts: seq<Item>)
    requires ToNode(parts).Ok?
    ensures TagMap(parts[0].part.s).Ok?
    ensures var n := ToNode(parts).value; var root := TagMap(parts[0].part.s).value;
            && n.name == root.name && n.attributes == root.attributes
            && (|parts| > 1 ==> ChildrenOf(parts[1..]).Ok? && n.children == Some(ChildrenOf(parts[1..]).value))
  {
    assert IsHtmlTag(parts[0].part.s);
  }

  /** A single opening tag is a node without children. */
  lemma SingleTag(s: string)
    requires IsHtmlTag(s) && TagMap(s).Ok?
    ensures ToNode([Leaf(Str(s))]) == TagMap(s)
  {
  }
}
