/** The parser `getParser` returns, with the identity callback: the template's literals
    and values go through the shared converter, the nester and the node builder. The
    converter is one object for the whole module, so its `previous` character carries
    over from one call to the next; `ParseTree` takes it as a parameter. */
module Parser {
  import opened Wrappers
  import opened JsText
  import opened Classify
  import opened Values
  import opened Attributes
  import opened Converter
  import opened Nester
  import opened Assembler

  /** The tree for a template, given the last character the converter saw before. An
      unclosed element fails before any node is built. */
  function ParseTree(literals: seq<string>, values: seq<JsValue>, previous: Option<char>): (r: Result<HtmlNode, ParseError>)
    ensures var tokens := ConvertTokens(literals, values, previous);
            |tokens| > 1 && !EndsWithCloser(tokens) ==> r == Err(MissingClosingTag)
    ensures r.Ok? ==> |ConvertTokens(literals, values, previous)| >= 1
  {
    match Nest(ConvertTokens(literals, values, previous))
    case Err(e) => Err(e)
    case Ok(parts) => ToNode(parts)
  }

  /** The function `getParser(identity)` returns, called on the shared converter. */
  method ParseNodeTree(converter: Converter, literals: seq<string>, values: seq<JsValue>)
    returns (r: Result<HtmlNode, ParseError>)
    modifies converter
    ensures r == ParseTree(literals, values, old(converter.previous))
    ensures converter.previous == ConvertState(literals, values, old(converter.previous)).previous
  {
    var tokens := converter.Convert(literals, values);
    var nested := NestNodeArray(tokens);
    if nested.Err? {
      return Err(nested.error);
    }
    r := MapArrayToNode(nested.value);
  }

  /** The opening and closing tags of an element named `n`, as the nester and the
      node builder see them. */
  lemma ElementTags(n: string)
    requires IsTagNameText(n) && n[0] != '!'
    ensures var open := "<" + n + ">"; var close := "</" + n + ">";
            && IsHtmlTag(open) && !IsCloser(open) && IsCloser(close)
            && ParseTagName(open) == n && ParseTagName(close) == n
            && TagMap(open) == Ok(HtmlNode(Some(n), None, None))
  {
    OpeningTag(n);
    ClosingTag(n);
    ParseClosingTagName(n);
    PlainTagMap(n);
  }

  lemma OpeningTag(n: string)
    requires IsTagNameText(n) && n[0] != '!'
    ensures IsHtmlTag("<" + n + ">") && !IsCloser("<" + n + ">") && ParseTagName("<" + n + ">") == n
  {
    var open := "<" + n + ">";
    assert open[1] == n[0];
    NotCommentWithoutBang(open);
    IndexOfIsZero(open, "</");
    assert n[0] != '/';
    ParseOpeningTagName(n, ">");
  }

  lemma ClosingTag(n: string)
    ensures IsCloser("</" + n + ">")
  {
    var close := "</" + n + ">";
    IndexOfIsZero(close, "</");
    assert close[..2] == "</";
  }

  /** Scanning the opening tag `<n>` flushes the buffered text. */
  lemma ScanTag(st: State, n: string)
    requires !st.inAttributeValue && !st.inComment
    requires IsTagNameText(n) && forall k :: 0 <= k < |n| ==> PlainInTag(n[k])
    ensures ScanLiteral(st, "<" + n + ">") ==
              st.(inTag := false, result := "", tags := Flushed(st) + [Str("<" + n + ">")], previous := Some('>'))
  {
    assert NoDoubleSlash(Some('<'), n) by {
      assert forall k :: 0 <= k < |n| ==> n[k] != '/';
    }
    assert !IsJsSpace(n[0]);
    TagToken(st, n);
  }

  /** Scanning the opening tag `<n>` from a blank state. */
  lemma ScanOpen(st: State, n: string)
    requires st == State(false, false, false, None, "", [])
    requires IsTagNameText(n) && forall k :: 0 <= k < |n| ==> PlainInTag(n[k])
    ensures ScanLiteral(st, "<" + n + ">") ==
              State(false, false, false, Some('>'), "", [Str("<" + n + ">")])
  {
    ScanTag(st, n);
  }

  /** Scanning the closing tag `</n>` outside tags and comments flushes the buffer. */
  lemma ScanClose(st: State, n: string)
    requires !st.inTag && !st.inAttributeValue && !st.inComment
    requires IsTagNameText(n) && forall k :: 0 <= k < |n| ==> PlainInTag(n[k])
    ensures ScanLiteral(st, "</" + n + ">") ==
              st.(result := "", tags := Flushed(st) + [Str("</" + n + ">")], previous := Some('>'))
  {
    ClosingBody(n);
    TagToken(st, "/" + n);
    ClosingText(n);
  }

  /** The text of a closing tag between `<` and `>` is plain and holds no `//`. */
  lemma ClosingBody(n: string)
    requires IsTagNameText(n) && forall k :: 0 <= k < |n| ==> PlainInTag(n[k])
    ensures forall k :: 0 <= k < |"/" + n| ==> PlainInTag(("/" + n)[k])
    ensures NoDoubleSlash(Some('<'), "/" + n)
  {
    var body := "/" + n;
    assert forall k :: 1 <= k < |body| ==> body[k] == n[k - 1] && body[k] != '/';
  }

  lemma ClosingText(n: string)
    ensures "<" + ("/" + n) + ">" == "</" + n + ">"
  {
  }

  /** One literal and no values: the tokens are those of the scanned literal. */
  lemma OneLiteral(s: string, previous: Option<char>)
    ensures ConvertTokens([s], [], previous) == ScanLiteral(State(false, false, false, previous, "", []), s).tags
  {
    var init := State(false, false, false, previous, "", []);
    assert [s][..|[s]| - 1] == [];
    assert [s][|[s]| - 1] == s;
    assert ConvertLiterals(init, [], []) == (init, []);
    assert ConvertLiterals(init, [], [s]) == EndLiteral(ScanLiteral(init, s), []);
  }

  /** The tokens of one literal `<n>` + mid + `</n>`, given the state after `<n>` and
      the middle part. */
  lemma ElementLiteral(n: string, mid: string)
    requires IsTagNameText(n) && forall k :: 0 <= k < |n| ==> PlainInTag(n[k])
    requires var st := ScanLiteral(State(false, false, false, None, "", []), "<" + n + ">" + mid);
             !st.inTag && !st.inAttributeValue && !st.inComment
    ensures ConvertTokens(["<" + n + ">" + mid + "</" + n + ">"], [], None) ==
              Flushed(ScanLiteral(State(false, false, false, None, "", []), "<" + n + ">" + mid)) +
              [Str("</" + n + ">")]
  {
    var init := State(false, false, false, None, "", []);
    var st2 := ScanLiteral(init, "<" + n + ">" + mid);
    ScanClose(st2, n);
    ScanLiteralAppend(init, "<" + n + ">" + mid, "</" + n + ">");
    assert ("<" + n + ">" + mid) + ("</" + n + ">") == "<" + n + ">" + mid + "</" + n + ">";
    OneLiteral("<" + n + ">" + mid + "</" + n + ">", None);
  }

  /** A template whose tokens are one opening tag parses as that tag's node. */
  lemma ParseSingleTag(literals: seq<string>, values: seq<JsValue>, previous: Option<char>, s: string)
    requires ConvertTokens(literals, values, previous) == [Str(s)]
    requires IsHtmlTag(s) && !IsCloser(s)
    ensures ParseTree(literals, values, previous) == TagMap(s)
  {
    NestSingle(Str(s));
  }

  /** A template whose tokens are a well-formed element parses as the node built from
      the element's shape. */
  lemma ParseElement(literals: seq<string>, values: seq<JsValue>, previous: Option<char>,
                     o: string, body: seq<Tree>, c: string)
    requires ConvertTokens(literals, values, previous) == Tokens(Element(o, body, c))
    requires WellFormed(Element(o, body, c), None)
    ensures ParseTree(literals, values, previous) == ToNode([Leaf(Str(o))] + ShapeOf(body))
  {
    NestTree(o, body, c);
  }

  /** The tokens of `<n>t</n>`. */
  lemma TextElementTokens(n: string, t: string)
    requires IsTagNameText(n) && forall k :: 0 <= k < |n| ==> PlainInTag(n[k])
    requires |t| >= 1 && !IsJsSpace(t[0]) && !IsJsSpace(t[|t| - 1])
    requires forall k :: 0 <= k < |t| ==> t[k] != '<'
    requires NoDoubleSlash(Some('>'), t)
    ensures ConvertTokens(["<" + n + ">" + t + "</" + n + ">"], [], None) ==
              [Str("<" + n + ">"), Str(t), Str("</" + n + ">")]
  {
    var open := "<" + n + ">";
    var init := State(false, false, false, None, "", []);
    TextAfterOpen(n, t);
    var st2 := ScanLiteral(init, open + t);
    TrimUntouched(t);
    assert !IsWhitespace(t);
    assert Flushed(st2) == [Str(open), Str(t)];
    ElementLiteral(n, t);
  }

  /** The state after `<n>` and a text. */
  lemma TextAfterOpen(n: string, t: string)
    requires IsTagNameText(n) && forall k :: 0 <= k < |n| ==> PlainInTag(n[k])
    requires |t| >= 1
    requires forall k :: 0 <= k < |t| ==> t[k] != '<'
    requires NoDoubleSlash(Some('>'), t)
    ensures ScanLiteral(State(false, false, false, None, "", []), "<" + n + ">" + t) ==
              State(false, false, false, Some(t[|t| - 1]), t, [Str("<" + n + ">")])
  {
    var open := "<" + n + ">";
    var init := State(false, false, false, None, "", []);
    ScanOpen(init, n);
    var st1 := ScanLiteral(init, open);
    TextRun(st1, t);
    ScanLiteralAppend(init, open, t);
    assert "" + t == t;
  }

  /** An element holding one text: `<n>t</n>` is the node `n` whose only child is the
      text `t` (the unit test on text nodes). */
  lemma TextElement(n: string, t: string)
    requires IsTagNameText(n) && n[0] != '!' && forall k :: 0 <= k < |n| ==> PlainInTag(n[k])
    requires |t| >= 1 && !IsJsSpace(t[0]) && !IsJsSpace(t[|t| - 1])
    requires forall k :: 0 <= k < |t| ==> t[k] != '<'
    requires NoDoubleSlash(Some('>'), t)
    ensures ParseTree(["<" + n + ">" + t + "</" + n + ">"], [], None) ==
              Ok(HtmlNode(Some(n), None, Some([TextChild(t)])))
  {
    var open := "<" + n + ">";
    var close := "</" + n + ">";
    var body := [Atom(Str(t))];
    TextElementTokens(n, t);
    TextElementTree(n, t);
    ParseElement(["<" + n + ">" + t + "</" + n + ">"], [], None, open, body, close);
    ElementTags(n);
    assert !IsHtmlTag(t) by {
      assert t[0] != '<';
    }
    TextRoot(open, t);
  }

  /** `<n>t</n>` read as a tree: an element holding one text. */
  lemma TextElementTree(n: string, t: string)
    requires IsTagNameText(n) && n[0] != '!'
    requires |t| >= 1 && t[0] != '<'
    ensures var tree := Element("<" + n + ">", [Atom(Str(t))], "</" + n + ">");
            && WellFormed(tree, None)
            && Tokens(tree) == [Str("<" + n + ">"), Str(t), Str("</" + n + ">")]
            && ShapeOf([Atom(Str(t))]) == [Leaf(Str(t))]
  {
    ElementTags(n);
    TextAtom(t, Some(n));
  }

  /** A text that does not start with `<` is a well-formed single token. */
  lemma TextAtom(t: string, context: Option<string>)
    requires |t| >= 1 && t[0] != '<'
    ensures WellFormedAll([Atom(Str(t))], context)
    ensures TokensOf([Atom(Str(t))]) == [Str(t)]
    ensures ShapeOf([Atom(Str(t))]) == [Leaf(Str(t))]
  {
    IndexOfIsZero(t, "</");
    var body := [Atom(Str(t))];
    assert body[1..] == [];
    assert WellFormed(body[0], context);
  }

  /** An opening tag followed by one text entry. */
  lemma TextRoot(open: string, t: string)
    requires IsHtmlTag(open) && TagMap(open).Ok? && !IsHtmlTag(t)
    ensures ToNode([Leaf(Str(open))] + [Leaf(Str(t))]) ==
              Ok(TagMap(open).value.(children := Some([TextChild(t)])))
  {
    var parts := [Leaf(Str(open))] + [Leaf(Str(t))];
    assert parts[0] == Leaf(Str(open));
    assert parts[1..] == [Leaf(Str(t))];
    OneTextChild(t);
  }

  /** A lone text child. */
  lemma OneTextChild(t: string)
    requires !IsHtmlTag(t)
    ensures ChildrenOf([Leaf(Str(t))]) == Ok([TextChild(t)])
  {
    ChildVerbatim(Leaf(Str(t)));
    assert [Leaf(Str(t))][1..] == [];
    assert ChildrenOf([]) == Ok([]);
    assert [TextChild(t)] + [] == [TextChild(t)];
  }

  /** The tokens of `<n>//body` + line feed + `</n>`. */
  lemma LineCommentTokens(n: string, body: string)
    requires IsTagNameText(n) && forall k :: 0 <= k < |n| ==> PlainInTag(n[k])
    requires forall k :: 0 <= k < |body| ==> body[k] != '<' && body[k] != '\n'
    ensures ConvertTokens(["<" + n + ">//" + body + "\n</" + n + ">"], [], None) ==
              [Str("<" + n + ">"), Str("</" + n + ">")]
  {
    var open := "<" + n + ">";
    var comment := "//" + body + "\n";
    var init := State(false, false, false, None, "", []);
    ScanOpen(init, n);
    var st1 := ScanLiteral(init, open);
    LineCommentDropped(st1, body);
    ScanLiteralAppend(init, open, comment);
    assert Flushed(ScanLiteral(init, open + comment)) == [Str(open)];
    ElementLiteral(n, comment);
    assert "<" + n + ">" + comment + "</" + n + ">" == "<" + n + ">//" + body + "\n</" + n + ">";
  }

  /** A line comment is dropped: `<n>//body` + line feed + `</n>` is the node `n`
      without children (the unit test on line comments). */
  lemma LineCommentElement(n: string, body: string)
    requires IsTagNameText(n) && n[0] != '!' && forall k :: 0 <= k < |n| ==> PlainInTag(n[k])
    requires forall k :: 0 <= k < |body| ==> body[k] != '<' && body[k] != '\n'
    ensures ParseTree(["<" + n + ">//" + body + "\n</" + n + ">"], [], None) ==
              Ok(HtmlNode(Some(n), None, None))
  {
    var open := "<" + n + ">";
    var close := "</" + n + ">";
    LineCommentTokens(n, body);
    ElementTags(n);
    assert Tokens(Element(open, [], close)) == [Str(open), Str(close)];
    ParseElement(["<" + n + ">//" + body + "\n</" + n + ">"], [], None, open, [], close);
    assert [Leaf(Str(open))] + ShapeOf([]) == [Leaf(Str(open))];
    SingleTag(open);
  }

  /** The state after `<n>//pre<m>` + line feed. */
  lemma TagInLineCommentState(n: string, pre: string, m: string)
    requires IsTagNameText(n) && forall k :: 0 <= k < |n| ==> PlainInTag(n[k])
    requires forall k :: 0 <= k < |pre| ==> pre[k] != '<' && pre[k] != '\n'
    requires forall k :: 0 <= k < |m| ==> m[k] != '<' && m[k] != '>' && m[k] != '\n'
    ensures ScanLiteral(State(false, false, false, None, "", []), "<" + n + ">" + ("//" + pre + "<" + m + ">\n")) ==
              State(false, false, false, Some('\n'), "", [Str("<" + n + ">"), Str("/"), Str("<>")])
  {
    var init := State(false, false, false, None, "", []);
    ScanOpen(init, n);
    CommentAfterOpen("<" + n + ">", pre, m);
    ScanLiteralAppend(init, "<" + n + ">", "//" + pre + "<" + m + ">\n");
  }

  /** The line comment of `TagInLineCommentState`, read after the opening tag. */
  lemma CommentAfterOpen(open: string, pre: string, m: string)
    requires forall k :: 0 <= k < |pre| ==> pre[k] != '<' && pre[k] != '\n'
    requires forall k :: 0 <= k < |m| ==> m[k] != '<' && m[k] != '>' && m[k] != '\n'
    ensures ScanLiteral(State(false, false, false, Some('>'), "", [Str(open)]), "//" + pre + "<" + m + ">\n") ==
              State(false, false, false, Some('\n'), "", [Str(open), Str("/"), Str("<>")])
  {
    var st1 := State(false, false, false, Some('>'), "", [Str(open)]);
    TagInsideLineCommentEmpty(st1, pre, m);
    assert [Str(open)] + [Str("/"), Str("<>")] == [Str(open), Str("/"), Str("<>")];
  }

  /** The tokens of `<n>//pre<m>` + line feed + `</n>`: a `<` inside a line comment
      still opens a tag, so the first `/` is emitted as text and the skipped tag
      as `<>`. */
  lemma TagInLineCommentTokens(n: string, pre: string, m: string)
    requires IsTagNameText(n) && forall k :: 0 <= k < |n| ==> PlainInTag(n[k])
    requires forall k :: 0 <= k < |pre| ==> pre[k] != '<' && pre[k] != '\n'
    requires forall k :: 0 <= k < |m| ==> m[k] != '<' && m[k] != '>' && m[k] != '\n'
    ensures ConvertTokens(["<" + n + ">" + ("//" + pre + "<" + m + ">\n") + "</" + n + ">"], [], None) ==
              [Str("<" + n + ">"), Str("/"), Str("<>"), Str("</" + n + ">")]
  {
    TagInLineCommentState(n, pre, m);
    ElementLiteral(n, "//" + pre + "<" + m + ">\n");
  }

  /** The text `<>`: not a tag, not a closing tag, not blank. */
  lemma EmptyTagAtom(context: Option<string>)
    ensures WellFormedAll([Atom(Str("<>"))], context)
    ensures ChildOf(Leaf(Str("<>"))) == Ok(TextChild("<>"))
  {
    var body := [Atom(Str("<>"))];
    assert body[1..] == [];
    IndexOfIsZero("<>", "</");
    assert !StartsWith("<>", "</") by {
      assert "<>"[1] != '/';
    }
    assert WellFormed(body[0], context);
    TrimUntouched("<>");
    assert !IsWhitespace("<>");
  }

  /** Two single-token trees side by side. */
  lemma AtomPair(a: Part, b: Part, context: Option<string>)
    requires WellFormed(Atom(a), context) && WellFormed(Atom(b), context)
    ensures WellFormedAll([Atom(a), Atom(b)], context)
    ensures TokensOf([Atom(a), Atom(b)]) == [a, b]
    ensures ShapeOf([Atom(a), Atom(b)]) == [Leaf(a), Leaf(b)]
  {
    var body := [Atom(a), Atom(b)];
    var tail := [Atom(b)];
    assert body[1..] == tail;
    assert tail[1..] == [];
    assert WellFormedAll(tail, context);
    assert TokensOf(tail) == [b] + [];
    assert TokensOf(body) == [a] + TokensOf(tail);
    assert ShapeOf(tail) == [Leaf(b)] + [];
    assert ShapeOf(body) == [Leaf(a)] + ShapeOf(tail);
  }

  /** Two children side by side. */
  lemma ChildPair(x: Item, y: Item, cx: Child, cy: Child)
    requires ChildOf(x) == Ok(cx) && ChildOf(y) == Ok(cy)
    ensures ChildrenOf([x, y]) == Ok([cx, cy])
  {
    var items := [x, y];
    PrependCons([], items, cx);
    assert items[1..] == [y];
    PrependCons([cx], [y], cy);
    assert [y][1..] == [];
    assert ChildrenOf([]) == Ok([]);
    assert [cx] + [cy] + [] == [cx, cy];
    match ChildrenOf(items)
    case Ok(more) =>
      assert [] + more == more;
    case Err(_) =>
  }

  /** The text `/` and the text `<>` as the body of an element. */
  lemma SlashAndEmptyTag(context: Option<string>)
    ensures WellFormedAll([Atom(Str("/")), Atom(Str("<>"))], context)
    ensures TokensOf([Atom(Str("/")), Atom(Str("<>"))]) == [Str("/"), Str("<>")]
    ensures ShapeOf([Atom(Str("/")), Atom(Str("<>"))]) == [Leaf(Str("/")), Leaf(Str("<>"))]
    ensures ChildrenOf([Leaf(Str("/")), Leaf(Str("<>"))]) == Ok([TextChild("/"), TextChild("<>")])
  {
    TextAtom("/", context);
    assert [Atom(Str("/"))][0] == Atom(Str("/"));
    EmptyTagAtom(context);
    assert [Atom(Str("<>"))][0] == Atom(Str("<>"));
    AtomPair(Str("/"), Str("<>"), context);
    assert !IsHtmlTag("/");
    TrimUntouched("/");
    assert !IsWhitespace("/");
    ChildPair(Leaf(Str("/")), Leaf(Str("<>")), TextChild("/"), TextChild("<>"));
  }

  /** An opening tag followed by entries that all become children. */
  lemma RootWithChildren(open: string, items: seq<Item>, cs: seq<Child>)
    requires IsHtmlTag(open) && TagMap(open).Ok?
    requires items != [] && ChildrenOf(items) == Ok(cs)
    ensures ToNode([Leaf(Str(open))] + items) == Ok(TagMap(open).value.(children := Some(cs)))
  {
    var parts := [Leaf(Str(open))] + items;
    assert parts[0] == Leaf(Str(open));
    assert parts[1..] == items;
  }

  /** `<n>/<></n>` read as a tree: an element holding the texts `/` and `<>`. */
  lemma TagInLineCommentTree(n: string)
    requires IsTagNameText(n) && n[0] != '!'
    ensures var tree := Element("<" + n + ">", [Atom(Str("/")), Atom(Str("<>"))], "</" + n + ">");
            && WellFormed(tree, None)
            && Tokens(tree) == [Str("<" + n + ">"), Str("/"), Str("<>"), Str("</" + n + ">")]
  {
    SlashAndEmptyTag(Some(n));
    ElementOfTwo(n, Str("/"), Str("<>"));
  }

  /** A tag inside a line comment is not dropped with it: `<n>//pre<m>` + line feed +
      `</n>` is the node `n` with the text children `/` and `<>`. */
  lemma TagInLineComment(n: string, pre: string, m: string)
    requires IsTagNameText(n) && n[0] != '!' && forall k :: 0 <= k < |n| ==> PlainInTag(n[k])
    requires forall k :: 0 <= k < |pre| ==> pre[k] != '<' && pre[k] != '\n'
    requires forall k :: 0 <= k < |m| ==> m[k] != '<' && m[k] != '>' && m[k] != '\n'
    ensures ParseTree(["<" + n + ">" + ("//" + pre + "<" + m + ">\n") + "</" + n + ">"], [], None) ==
              Ok(HtmlNode(Some(n), None, Some([TextChild("/"), TextChild("<>")])))
  {
    var open := "<" + n + ">";
    var body := [Atom(Str("/")), Atom(Str("<>"))];
    var literal := "<" + n + ">" + ("//" + pre + "<" + m + ">\n") + "</" + n + ">";
    TagInLineCommentTokens(n, pre, m);
    TagInLineCommentTree(n);
    ParseElement([literal], [], None, open, body, "</" + n + ">");
    ElementTags(n);
    SlashAndEmptyTag(None);
    RootWithChildren(open, [Leaf(Str("/")), Leaf(Str("<>"))], [TextChild("/"), TextChild("<>")]);
  }

  lemma TagInLineCommentText()
    ensures "<" + "p" + ">" + ("//" + " " + "<" + "b" + ">\n") + "</" + "p" + ">" == "<p>// <b>\n</p>"
  {
    assert "<" + "p" + ">" == "<p>";
    assert "//" + " " + "<" + "b" + ">\n" == "// <b>\n";
    assert "</" + "p" + ">" == "</p>";
  }

  /** `<p>// <b>` + line feed + `</p>` is `<p>` with the children `/` and `<>`. */
  lemma TagInLineCommentExample()
    ensures ParseTree(["<p>// <b>\n</p>"], [], None) ==
              Ok(HtmlNode(Some("p"), None, Some([TextChild("/"), TextChild("<>")])))
  {
    assert IsTagNameText("p") && PlainInTag('p');
    TagInLineCommentText();
    TagInLineComment("p", " ", "b");
  }

  /** After `<n><head"` and the value `s` interpolated after it: the tag is still open
      and `s` is already a token. */
  lemma ValueAtLiteralEndState(n: string, head: string, s: string)
    requires IsTagNameText(n) && forall k :: 0 <= k < |n| ==> PlainInTag(n[k])
    requires |head| > 0 && head[|head| - 1] == '='
    requires forall k :: 0 <= k < |head| ==> PlainInTag(head[k])
    requires NoDoubleSlash(Some('<'), head)
    requires !IsCharWhitespace([head[0]])
    requires s == [] || s[0] != '$'
    ensures ConvertLiterals(State(false, false, false, None, "", []), [JsString(s)],
                            ["<" + n + ">" + ("<" + head + "\"")]) ==
              (State(true, false, true, Some('"'), "<" + head + "\"", [Str("<" + n + ">"), Str(s)]), [])
  {
    var open := "<" + n + ">";
    var init := State(false, false, false, None, "", []);
    var literals := [open + ("<" + head + "\"")];
    ScanOpen(init, n);
    var st1 := State(false, false, false, Some('>'), "", [Str(open)]);
    ValueOpenAtEnd(st1, head);
    ScanLiteralAppend(init, open, "<" + head + "\"");
    var st2 := ScanLiteral(init, literals[0]);
    assert st2 == State(true, false, true, Some('"'), "<" + head + "\"", [Str(open)]);
    PlainStringUnchanged(s);
    assert [JsString(s)][1..] == [];
    assert EndLiteral(st2, [JsString(s)]) == (st2.(tags := st2.tags + [Str(s)]), []);
    assert st2.tags + [Str(s)] == [Str(open), Str(s)];
    FirstLiteral(init, [JsString(s)], literals,
                 State(true, false, true, Some('"'), "<" + head + "\"", [Str(open), Str(s)]), []);
    assert literals[..1] == literals;
  }

  /** Reading `"></n>` with the value open right after its opening quote. */
  lemma ClosingLiteralState(st: State, n: string)
    requires st.inTag && st.inAttributeValue && !st.inComment && st.previous == Some('"')
    requires IsTagNameText(n) && forall k :: 0 <= k < |n| ==> PlainInTag(n[k])
    ensures ScanLiteral(st, "\"></" + n + ">") ==
              State(false, false, false, Some('>'), "", st.tags + [Str(st.result + "\">"), Str("</" + n + ">")])
  {
    var close := "</" + n + ">";
    QuoteThenClose(st);
    var st3 := st.(inAttributeValue := false, inTag := false, tags := st.tags + [Str(st.result + "\">")],
                   result := "", previous := Some('>'));
    ScanClose(st3, n);
    ScanLiteralAppend(st, "\">", close);
    assert "\">" + close == "\"></" + n + ">";
    assert st.tags + [Str(st.result + "\">")] + [Str(close)] == st.tags + [Str(st.result + "\">"), Str(close)];
  }

  /** The tokens of the two literals `<n><head"` and `"></n>` around the value `s`:
      `s` comes before the tag, whose value is empty. */
  lemma ValueBeforeTagTokens(n: string, head: string, s: string)
    requires IsTagNameText(n) && forall k :: 0 <= k < |n| ==> PlainInTag(n[k])
    requires |head| > 0 && head[|head| - 1] == '='
    requires forall k :: 0 <= k < |head| ==> PlainInTag(head[k])
    requires NoDoubleSlash(Some('<'), head)
    requires !IsCharWhitespace([head[0]])
    requires s == [] || s[0] != '$'
    ensures ConvertTokens(["<" + n + ">" + ("<" + head + "\""), "\"></" + n + ">"], [JsString(s)], None) ==
              [Str("<" + n + ">"), Str(s), Str("<" + head + "\"\">"), Str("</" + n + ">")]
  {
    var open := "<" + n + ">";
    var init := State(false, false, false, None, "", []);
    var literals := ["<" + n + ">" + ("<" + head + "\""), "\"></" + n + ">"];
    ValueAtLiteralEndState(n, head, s);
    assert literals[..1] == ["<" + n + ">" + ("<" + head + "\"")];
    SecondLiteral(init, [JsString(s)], literals);
    var st2 := State(true, false, true, Some('"'), "<" + head + "\"", [Str(open), Str(s)]);
    ClosingLiteralState(st2, n);
    assert "<" + head + "\"" + "\">" == "<" + head + "\"\">";
  }

  /** A name followed by one attribute name and `=`, as the scanner needs it. */
  lemma AttributeHead(t: string, a: string)
    requires IsTagNameText(t) && forall k :: 0 <= k < |t| ==> PlainInTag(t[k])
    requires forall k :: 0 <= k < |a| ==> !EndsName(a[k]) && PlainInTag(a[k])
    ensures var head := t + " " + a + "=";
            && |head| > 0 && head[|head| - 1] == '='
            && (forall k :: 0 <= k < |head| ==> PlainInTag(head[k]))
            && NoDoubleSlash(Some('<'), head)
            && !IsCharWhitespace([head[0]])
  {
    var head := t + " " + a + "=";
    assert forall k :: 0 <= k < |head| ==> head[k] != '/' && PlainInTag(head[k]) by {
      forall k | 0 <= k < |head|
        ensures head[k] != '/' && PlainInTag(head[k])
      {
        if k < |t| {
          assert head[k] == t[k];
        } else if |t| < k < |t| + 1 + |a| {
          assert head[k] == a[k - |t| - 1];
        }
      }
    }
    assert head[0] == t[0];
    assert [head[0]] != " " && [head[0]] != "\t" && [head[0]] != "\n" by {
      assert EndsName(' ') && EndsName('\t') && EndsName('\n');
    }
  }

  /** The tag `<t a="">` the scanner emits: a tag named `t` whose attribute `a` is
      empty. */
  lemma EmptyValueTag(t: string, a: string)
    requires IsTagNameText(t) && t[0] != '!' && forall k :: 0 <= k < |t| ==> PlainInTag(t[k])
    requires forall k :: 0 <= k < |a| ==> !EndsName(a[k]) && PlainInTag(a[k]) && a[k] != '='
    requires a !in InheritedNames
    ensures var tag := "<" + (t + " " + a + "=") + "\"\">";
            && IsHtmlTag(tag) && !IsCloser(tag) && !IsWhitespace(tag) && ParseTagName(tag) == t
            && TagMap(tag) == Ok(HtmlNode(Some(t), Some(map[a := Some("")]), None))
  {
    EmptyValueTagShape(t, a);
    EmptyValueTagName(t, a);
    assert "<" + (t + " " + a + "=") + "\"\">" == "<" + t + " " + a + "=\"" + "" + "\">";
    OneAttributeTagMap(t, a, "");
  }

  lemma EmptyValueTagShape(t: string, a: string)
    requires IsTagNameText(t) && t[0] != '!'
    ensures var tag := "<" + (t + " " + a + "=") + "\"\">";
            IsHtmlTag(tag) && !IsCloser(tag) && !IsWhitespace(tag)
  {
    var tag := "<" + (t + " " + a + "=") + "\"\">";
    assert tag[1] == t[0] && tag[0] == '<' && tag[|tag| - 1] == '>';
    assert EndsName(' ') && EndsName('\t') && EndsName('\n') && EndsName('/');
    TagShape(tag);
    IndexOfIsZero(tag, "</");
    assert !AllSpace(tag) by {
      assert !IsJsSpace(tag[0]);
    }
  }

  lemma EmptyValueTagName(t: string, a: string)
    requires IsTagNameText(t) && t[0] != '/'
    requires forall k :: 0 <= k < |a| ==> !EndsName(a[k])
    ensures ParseTagName("<" + (t + " " + a + "=") + "\"\">") == t
  {
    var rest := " " + a + "=\"\">";
    assert "<" + (t + " " + a + "=") + "\"\">" == "<" + t + rest;
    assert forall k :: 0 <= k < |rest| ==> !IsLineTerminator(rest[k]) by {
      forall k | 0 <= k < |rest|
        ensures !IsLineTerminator(rest[k])
      {
        if 1 <= k < 1 + |a| {
          assert rest[k] == a[k - 1];
        }
      }
    }
    assert EndsName(rest[0]);
    ParseOpeningTagName(t, rest);
  }

  /** An element `n` holding two single-token trees. */
  lemma ElementOfTwo(n: string, x: Part, y: Part)
    requires IsTagNameText(n) && n[0] != '!'
    requires WellFormed(Atom(x), Some(n)) && WellFormed(Atom(y), Some(n))
    ensures var tree := Element("<" + n + ">", [Atom(x), Atom(y)], "</" + n + ">");
            && WellFormed(tree, None)
            && Tokens(tree) == [Str("<" + n + ">"), x, y, Str("</" + n + ">")]
            && ShapeOf([Atom(x), Atom(y)]) == [Leaf(x), Leaf(y)]
  {
    var open := "<" + n + ">";
    var close := "</" + n + ">";
    var body := [Atom(x), Atom(y)];
    OpeningTag(n);
    ClosingTag(n);
    ParseClosingTagName(n);
    AtomPair(x, y, Some(n));
  }

  /** The text `s` and the tag `<t a="">` as the body of the element `n`. */
  lemma ValueBeforeTagTree(n: string, t: string, a: string, s: string)
    requires IsTagNameText(n) && n[0] != '!'
    requires IsTagNameText(t) && t[0] != '!' && t != n && forall k :: 0 <= k < |t| ==> PlainInTag(t[k])
    requires forall k :: 0 <= k < |a| ==> !EndsName(a[k]) && PlainInTag(a[k]) && a[k] != '='
    requires a !in InheritedNames
    requires |s| >= 1 && s[0] != '<'
    ensures var tag := "<" + (t + " " + a + "=") + "\"\">";
            var tree := Element("<" + n + ">", [Atom(Str(s)), Atom(Str(tag))], "</" + n + ">");
            && WellFormed(tree, None)
            && Tokens(tree) == [Str("<" + n + ">"), Str(s), Str(tag), Str("</" + n + ">")]
            && ShapeOf([Atom(Str(s)), Atom(Str(tag))]) == [Leaf(Str(s)), Leaf(Str(tag))]
  {
    var tag := "<" + (t + " " + a + "=") + "\"\">";
    TextAtom(s, Some(n));
    assert [Atom(Str(s))][0] == Atom(Str(s));
    EmptyValueTag(t, a);
    assert WellFormed(Atom(Str(tag)), Some(n));
    ElementOfTwo(n, Str(s), Str(tag));
  }

  /** The children of `n` in `ValueBeforeTagTree`: the text `s` and the node `t`. */
  lemma ValueBeforeTagChildren(t: string, a: string, s: string)
    requires IsTagNameText(t) && t[0] != '!' && forall k :: 0 <= k < |t| ==> PlainInTag(t[k])
    requires forall k :: 0 <= k < |a| ==> !EndsName(a[k]) && PlainInTag(a[k]) && a[k] != '='
    requires a !in InheritedNames
    requires |s| >= 1 && s[0] != '<'
    ensures ChildrenOf([Leaf(Str(s)), Leaf(Str("<" + (t + " " + a + "=") + "\"\">"))]) ==
              Ok([TextChild(s), NodeChild(HtmlNode(Some(t), Some(map[a := Some("")]), None))])
  {
    var tag := "<" + (t + " " + a + "=") + "\"\">";
    EmptyValueTag(t, a);
    assert !IsHtmlTag(s);
    assert ChildOf(Leaf(Str(s))) == Ok(TextChild(s));
    ChildPair(Leaf(Str(s)), Leaf(Str(tag)), TextChild(s), NodeChild(HtmlNode(Some(t), Some(map[a := Some("")]), None)));
  }

  /** A value interpolated inside a quoted attribute value is not that attribute's
      value: the template `<n><t a="${s}"></n>` is the node `n` whose children are the
      text `s` and then the node `t`, whose attribute `a` is empty. */
  lemma ValueBeforeTag(n: string, t: string, a: string, s: string)
    requires IsTagNameText(n) && n[0] != '!' && forall k :: 0 <= k < |n| ==> PlainInTag(n[k])
    requires IsTagNameText(t) && t[0] != '!' && t != n && forall k :: 0 <= k < |t| ==> PlainInTag(t[k])
    requires forall k :: 0 <= k < |a| ==> !EndsName(a[k]) && PlainInTag(a[k]) && a[k] != '='
    requires a !in InheritedNames
    requires |s| >= 1 && s[0] != '<' && s[0] != '$'
    ensures ParseTree(["<" + n + ">" + ("<" + (t + " " + a + "=") + "\""), "\"></" + n + ">"], [JsString(s)], None) ==
              Ok(HtmlNode(Some(n), None, Some([TextChild(s), NodeChild(HtmlNode(Some(t), Some(map[a := Some("")]), None))])))
  {
    var head := t + " " + a + "=";
    var tag := "<" + head + "\"\">";
    var open := "<" + n + ">";
    var body := [Atom(Str(s)), Atom(Str(tag))];
    AttributeHead(t, a);
    ValueBeforeTagTokens(n, head, s);
    ValueBeforeTagTree(n, t, a, s);
    ParseElement(["<" + n + ">" + ("<" + head + "\""), "\"></" + n + ">"], [JsString(s)], None,
                 open, body, "</" + n + ">");
    ElementTags(n);
    ValueBeforeTagChildren(t, a, s);
    RootWithChildren(open, [Leaf(Str(s)), Leaf(Str(tag))],
                     [TextChild(s), NodeChild(HtmlNode(Some(t), Some(map[a := Some("")]), None))]);
  }

  lemma FieldsetNames()
    ensures IsTagNameText("fieldset") && forall k :: 0 <= k < |"fieldset"| ==> PlainInTag("fieldset"[k])
    ensures IsTagNameText("input") && forall k :: 0 <= k < |"input"| ==> PlainInTag("input"[k])
    ensures forall k :: 0 <= k < |"value"| ==> !EndsName("value"[k]) && PlainInTag("value"[k]) && "value"[k] != '='
    ensures "value" !in InheritedNames && "input" != "fieldset"
  {
  }

  lemma FieldsetText()
    ensures "<" + "fieldset" + ">" + ("<" + ("input" + " " + "value" + "=") + "\"") == "<fieldset><input value=\""
    ensures "\"></" + "fieldset" + ">" == "\"></fieldset>"
  {
    assert "<" + "fieldset" + ">" == "<fieldset>";
    assert "input" + " " + "value" + "=" == "input value=";
  }

  /** The template `<fieldset><input value="${s}"></fieldset>`, as in the example
      beside `getParser`, where `s` is a record's artist: `s` becomes a text child
      of `fieldset` before the `input`, whose `value` is empty. */
  lemma ValueBeforeTagExample(s: string)
    requires |s| >= 1 && s[0] != '<' && s[0] != '$'
    ensures ParseTree(["<fieldset><input value=\"", "\"></fieldset>"], [JsString(s)], None) ==
              Ok(HtmlNode(Some("fieldset"), None,
                          Some([TextChild(s), NodeChild(HtmlNode(Some("input"), Some(map["value" := Some("")]), None))])))
  {
    FieldsetNames();
    FieldsetText();
    ValueBeforeTag("fieldset", "input", "value", s);
  }

  /** A template whose tokens are one text that is not a tag fails: its root is not
      an element. */
  lemma ParseSingleText(literals: seq<string>, values: seq<JsValue>, previous: Option<char>, s: string)
    requires ConvertTokens(literals, values, previous) == [Str(s)]
    requires !IsHtmlTag(s) && !IsCloser(s)
    ensures ParseTree(literals, values, previous) == Err(RootNotElement)
  {
    NestSingle(Str(s));
  }

  /** A template that is only an interpolated text fails: its root is not an element
      (the first unit test on errors). */
  lemma InterpolationAloneFails(s: string)
    requires s == [] || (s[0] != '$' && s[0] != '<')
    ensures ParseTree(["", ""], [JsString(s)], None) == Err(RootNotElement)
  {
    InterpolationTokens(s);
    IndexOfIsZero(s, "</");
    ParseSingleText(["", ""], [JsString(s)], None, s);
  }

  lemma InterpolationTokens(s: string)
    requires s == [] || s[0] != '$'
    ensures ConvertTokens(["", ""], [JsString(s)], None) == [Str(s)]
  {
    var init := State(false, false, false, None, "", []);
    var literals := ["", ""];
    PlainStringUnchanged(s);
    assert ScanLiteral(init, "") == init;
    assert [JsString(s)][1..] == [];
    assert init.tags + [Str(s)] == [Str(s)];
    FirstLiteral(init, [JsString(s)], literals, init.(tags := [Str(s)]), []);
    SecondLiteral(init, [JsString(s)], literals);
  }

  /** A template that is only a comment fails as well (the second unit test on
      errors). */
  lemma CommentAloneFails(body: string)
    requires forall k :: 0 <= k < |body| ==> PlainInTag(body[k]) && body[k] != '/'
    ensures ParseTree(["<!--" + body + "-->"], [], None) == Err(RootNotElement)
  {
    CommentTokens(body);
    CommentIsNoTag(body);
    ParseSingleText(["<!--" + body + "-->"], [], None, "<!--" + body + "-->");
  }

  lemma CommentTokens(body: string)
    requires forall k :: 0 <= k < |body| ==> PlainInTag(body[k]) && body[k] != '/'
    ensures ConvertTokens(["<!--" + body + "-->"], [], None) == [Str("<!--" + body + "-->")]
  {
    var inner := "!--" + body + "--";
    assert forall k :: 0 <= k < |inner| ==> PlainInTag(inner[k]) && inner[k] != '/' by {
      assert forall k :: 3 <= k < 3 + |body| ==> inner[k] == body[k - 3];
    }
    TagToken(State(false, false, false, None, "", []), inner);
    CommentText(body);
    OneLiteral("<!--" + body + "-->", None);
  }

  lemma CommentText(body: string)
    ensures "<" + ("!--" + body + "--") + ">" == "<!--" + body + "-->"
  {
  }

  /** A comment is neither an opening nor a closing tag. */
  lemma CommentIsNoTag(body: string)
    ensures !IsHtmlTag("<!--" + body + "-->") && !IsCloser("<!--" + body + "-->")
  {
    var s := "<!--" + body + "-->";
    IndexOfIsZero(s, "</");
    assert s[..2] == "<!";
    IsHtmlCommentIff(s);
    assert s[..4] == "<!--";
    assert s[|s| - 3..] == "-->";
  }

  /** `/` and a line feed after a carried `/`: a line comment opens and closes. */
  lemma SlashLineCarried(st: State)
    requires st == State(false, false, false, Some('/'), "", [])
    ensures ScanLiteral(st, "/\n") == st.(previous := Some('\n'))
  {
    assert "/\n"[..1] == "/" && "/"[..0] == [];
    assert ScanLiteral(st, "/") == st.(inComment := true);
  }

  /** `/` and a line feed on a blank converter: both are buffered. */
  lemma SlashLineBlank(st: State)
    requires st == State(false, false, false, None, "", [])
    ensures ScanLiteral(st, "/\n") == st.(result := "/\n", previous := Some('\n'))
    ensures Flushed(ScanLiteral(st, "/\n")) == [Str("/")]
  {
    assert "/\n"[..1] == "/" && "/"[..0] == [];
    assert ScanLiteral(st, "/") == st.(result := "/", previous := Some('/'));
    SlashTrim();
  }

  /** The converter's `previous` outlives a call: after a template that ended with
      `/`, a template of `/`, a line feed and `<n>` opens and closes a line comment
      and parses as the node `n`. */
  lemma CarriedSlash(n: string)
    requires IsTagNameText(n) && n[0] != '!' && forall k :: 0 <= k < |n| ==> PlainInTag(n[k])
    ensures ParseTree(["/\n" + ("<" + n + ">")], [], Some('/')) == Ok(HtmlNode(Some(n), None, None))
  {
    CarriedSlashTokens(n);
    ElementTags(n);
    ParseSingleTag(["/\n" + ("<" + n + ">")], [], Some('/'), "<" + n + ">");
  }

  lemma CarriedSlashTokens(n: string)
    requires IsTagNameText(n) && forall k :: 0 <= k < |n| ==> PlainInTag(n[k])
    ensures ConvertTokens(["/\n" + ("<" + n + ">")], [], Some('/')) == [Str("<" + n + ">")]
  {
    SlashLineCarried(State(false, false, false, Some('/'), "", []));
    TagAfter("/\n", n, Some('/'));
  }

  /** The tokens of one literal made of a prefix and the tag `<n>`. */
  lemma TagAfter(prefix: string, n: string, previous: Option<char>)
    requires IsTagNameText(n) && forall k :: 0 <= k < |n| ==> PlainInTag(n[k])
    requires var st := ScanLiteral(State(false, false, false, previous, "", []), prefix);
             !st.inAttributeValue && !st.inComment
    ensures ConvertTokens([prefix + ("<" + n + ">")], [], previous) ==
              Flushed(ScanLiteral(State(false, false, false, previous, "", []), prefix)) + [Str("<" + n + ">")]
  {
    var init := State(false, false, false, previous, "", []);
    ScanTag(ScanLiteral(init, prefix), n);
    ScanLiteralAppend(init, prefix, "<" + n + ">");
    OneLiteral(prefix + ("<" + n + ">"), previous);
  }

  /** The same template on a converter that did not just see `/` keeps the `/` as
      text and fails. */
  lemma BlankSlash(n: string)
    requires IsTagNameText(n) && n[0] != '!' && forall k :: 0 <= k < |n| ==> PlainInTag(n[k])
    ensures ParseTree(["/\n" + ("<" + n + ">")], [], None) == Err(MissingClosingTag)
  {
    BlankSlashTokens(n);
    var tokens := [Str("/"), Str("<" + n + ">")];
    ElementTags(n);
    assert !EndsWithCloser(tokens);
  }

  lemma BlankSlashTokens(n: string)
    requires IsTagNameText(n) && forall k :: 0 <= k < |n| ==> PlainInTag(n[k])
    ensures ConvertTokens(["/\n" + ("<" + n + ">")], [], None) == [Str("/"), Str("<" + n + ">")]
  {
    SlashLineBlank(State(false, false, false, None, "", []));
    TagAfter("/\n", n, None);
  }

  lemma SlashTrim()
    ensures Trim("/\n") == "/" && !IsWhitespace("/\n")
  {
    assert SkipSpaces("/\n", 0) == 0;
    assert SkipSpacesBack("/\n", 2) == 1;
  }

  /** A `//` inside a quoted attribute value opens a line comment that swallows the
      rest of the tag; with nothing left, the node builder has no first entry and
      fails on it. */
  lemma SlashesInQuotedValueFails()
    ensures ParseTree(["<a h=\"//\">"], [], None) == Err(NotAString)
  {
    SlashesInQuotedValueTokens();
    assert Final([]) == Init(None);
    assert Nest([]) == Ok([]);
  }
}
