/** `mapHtmlTagToArray` and `extractAttributeValue`: an opening tag's text becomes its
    name and its attribute map. The method follows the source's two loops; the
    functions beside it say what they compute (a split at the spaces outside quotes,
    and a map built from the fragments), and the lemmas what that means. */
module Attributes {
  import opened Wrappers
  import opened JsText
  import opened Classify
  import opened Values

  /** The tag's text between `<` and `>` (or `/>`): `html.slice(1, end)`. */
  function TagBody(html: string): string {
    var end := if LastIndexOf(html, "/>") == |html| - 2 then |html| - 2 else |html| - 1;
    Slice(html, 1, end)
  }

  /** For a tag, the body drops `<` and either `/>` or `>`. */
  lemma TagBodyOfTag(html: string)
    requires |html| >= 2 && html[0] == '<' && html[|html| - 1] == '>'
    ensures TagBody(html) == if |html| >= 3 && html[|html| - 2] == '/' then html[1..|html| - 2]
                             else html[1..|html| - 1]
  {
    SelfClosingAtEnd(html);
    var end := if |html| >= 3 && html[|html| - 2] == '/' then |html| - 2 else |html| - 1;
    SliceFromOne(html, end);
  }

  /** `lastIndexOf('/>')` finds the end of the tag exactly when the tag is
      self-closing. */
  lemma SelfClosingAtEnd(html: string)
    requires |html| >= 2 && html[0] == '<' && html[|html| - 1] == '>'
    ensures LastIndexOf(html, "/>") == |html| - 2 <==> |html| >= 3 && html[|html| - 2] == '/'
  {
    var n := |html|;
    LastIndexOfAtEnd(html, "/>");
    assert html[n - 2..] == [html[n - 2], html[n - 1]];
    assert EndsWith(html, "/>") <==> html[n - 2] == '/';
  }

  lemma SliceFromOne(s: string, end: int)
    requires 1 <= end <= |s|
    ensures Slice(s, 1, end) == s[1..end]
  {
  }

  /** Whether the character at `j` flips the "inside a quoted value" flag: a `"` not
      preceded by a backslash. */
  predicate TogglesQuote(s: string, j: nat)
    requires j < |s|
  {
    s[j] == '"' && (j == 0 || s[j - 1] != '\\')
  }

  function QuoteToggles(s: string): nat
    decreases |s|
  {
    if s == [] then 0
    else QuoteToggles(s[..|s| - 1]) + (if TogglesQuote(s, |s| - 1) then 1 else 0)
  }

  /** Whether the text after `s` lies inside a quoted attribute value. */
  predicate InQuotes(s: string) {
    QuoteToggles(s) % 2 == 1
  }

  /** The pieces of `s` between the spaces that lie outside quotes (empty pieces
      included). */
  function Pieces(s: string): (r: seq<string>)
    decreases |s|
    ensures |r| >= 1
  {
    if s == [] then [""]
    else
      var t := s[..|s| - 1];
      var p := Pieces(t);
      if s[|s| - 1] == ' ' && !InQuotes(t) then p + [""]
      else p[..|p| - 1] + [p[|p| - 1] + [s[|s| - 1]]]
  }

  /** The pieces, joined back with spaces, are the text: splitting loses nothing. */
  lemma {:induction false} PiecesJoin(s: string)
    ensures Join(Pieces(s), ' ') == s
  {
    if s != [] {
      var t := s[..|s| - 1];
      var p := Pieces(t);
      PiecesJoin(t);
      if s[|s| - 1] == ' ' && !InQuotes(t) {
        JoinSnoc(p, "", ' ');
      } else {
        JoinExtendLast(p, [s[|s| - 1]], ' ');
      }
      assert s == t + [s[|s| - 1]];
    }
  }

  /** One more character: a space outside quotes starts a new, empty piece; any
      other character (a space inside quotes too) extends the last piece. */
  lemma PiecesSnoc(s: string, c: char)
    ensures Pieces(s + [c]) ==
              if c == ' ' && !InQuotes(s) then Pieces(s) + [""]
              else Pieces(s)[..|Pieces(s)| - 1] + [Pieces(s)[|Pieces(s)| - 1] + [c]]
  {
    assert (s + [c])[..|s|] == s;
  }

  /** One more character flips the quote flag exactly when it is an unescaped `"`. */
  lemma InQuotesSnoc(s: string, c: char)
    ensures InQuotes(s + [c]) <==> (InQuotes(s) != (c == '"' && (s == [] || s[|s| - 1] != '\\')))
  {
    var t := s + [c];
    assert t[..|s|] == s;
    assert TogglesQuote(t, |s|) <==> c == '"' && (s == [] || s[|s| - 1] != '\\');
  }

  function NonEmpty(ps: seq<string>): (r: seq<string>)
    ensures forall k :: 0 <= k < |r| ==> r[k] != ""
    ensures |r| <= |ps|
  {
    if ps == [] then [] else (if ps[0] == "" then [] else [ps[0]]) + NonEmpty(ps[1..])
  }

  lemma {:induction false} NonEmptyAppend(a: seq<string>, b: seq<string>)
    ensures NonEmpty(a + b) == NonEmpty(a) + NonEmpty(b)
  {
    if a == [] {
      assert a + b == b;
    } else {
      var h: seq<string> := if a[0] == "" then [] else [a[0]];
      assert (a + b)[1..] == a[1..] + b;
      assert NonEmpty(a + b) == h + NonEmpty(a[1..] + b);
      NonEmptyAppend(a[1..], b);
      assert NonEmpty(a) == h + NonEmpty(a[1..]);
    }
  }

  lemma NonEmptySingle(x: string)
    ensures NonEmpty([x]) == if x == "" then [] else [x]
  {
    assert [x][1..] == [];
  }

  /** The tag's fragments: the non-empty pieces, in order. */
  function Fragments(reduced: string): seq<string> {
    NonEmpty(Pieces(reduced))
  }

  /** `extractAttributeValue`: no parts is an error, one part is `null`, otherwise the
      parts after the first are joined with `=`, and a value that starts with `"`
      loses its first and last characters. */
  function ExtractAttributeValue(parts: seq<string>): (r: Result<Option<string>, ParseError>)
    ensures r.Err? <==> parts == []
    ensures r.Err? ==> r.error == MissingAttributeValue
  {
    if |parts| == 0 then Err(MissingAttributeValue)
    else if |parts| == 1 then Ok(None)
    else
      var value := if |parts| == 2 then parts[1] else Join(parts[1..], '=');
      if |value| > 0 && value[0] == '"' then Ok(Some(Slice(value, 1, |value| - 1)))
      else Ok(Some(value))
  }

  /** The name an attribute fragment declares: the text before its first `=`. */
  function AttributeName(fragment: string): string {
    Split(fragment, '=')[0]
  }

  /** The value an attribute fragment gives. */
  function AttributeValue(fragment: string): Option<string> {
    ExtractAttributeValue(Split(fragment, '=')).value
  }

  /** A value with its surrounding quotes removed, as `extractAttributeValue` does. */
  function Unquote(v: string): string {
    if |v| > 0 && v[0] == '"' then (if |v| >= 2 then v[1..|v| - 1] else "") else v
  }

  /** A fragment without `=` is a name whose value is `null`. */
  lemma AttributeWithoutValue(fragment: string)
    requires '=' !in fragment
    ensures AttributeName(fragment) == fragment
    ensures AttributeValue(fragment) == None
  {
    SplitAtFirst(fragment, '=');
  }

  /** `name=value` gives `name` and the whole of `value` (which may itself hold `=`),
      unquoted. */
  lemma AttributeWithValue(name: string, value: string)
    requires '=' !in name
    ensures AttributeName(name + "=" + value) == name
    ensures AttributeValue(name + "=" + value) == Some(Unquote(value))
  {
    SplitAfter(name, '=', value);
    var rest := Split(value, '=');
    JoinSplit(value, '=');
    assert Split(name + "=" + value, '=')[1..] == rest;
    if |rest| == 1 {
      assert Join(rest, '=') == rest[0];
    }
  }

  /** The names `name in object` finds on every plain object, through its prototype. */
  const InheritedNames: set<string> :=
    {"constructor", "hasOwnProperty", "isPrototypeOf", "propertyIsEnumerable",
     "toLocaleString", "toString", "valueOf", "__proto__", "__defineGetter__",
     "__defineSetter__", "__lookupGetter__", "__lookupSetter__"}

  /** `name in map.attributes`. */
  predicate HasAttribute(attributes: AttributeMap, name: string) {
    name in attributes || name in InheritedNames
  }

  /** The attribute loop: fragments are added from the last to the first; a name
      already present is an error. */
  function AddAttributes(fragments: seq<string>, attributes: AttributeMap): Result<AttributeMap, ParseError>
    decreases |fragments|
  {
    if fragments == [] then Ok(attributes)
    else
      var parts := Split(fragments[|fragments| - 1], '=');
      var name := parts[0];
      match ExtractAttributeValue(parts)
      case Err(e) => Err(e)
      case Ok(value) =>
        if HasAttribute(attributes, name) then Err(DuplicateAttribute(name))
        else AddAttributes(fragments[..|fragments| - 1], attributes[name := value])
  }

  /** The names the fragments declare. */
  function NameSet(fragments: seq<string>): set<string>
    decreases |fragments|
  {
    if fragments == [] then {}
    else NameSet(fragments[..|fragments| - 1]) + {AttributeName(fragments[|fragments| - 1])}
  }

  /** A name is in the set exactly when some fragment declares it. */
  lemma {:induction false} NameSetIff(fragments: seq<string>, x: string)
    ensures x in NameSet(fragments) <==> exists k :: 0 <= k < |fragments| && AttributeName(fragments[k]) == x
  {
    if fragments != [] {
      var n := |fragments| - 1;
      NameSetIff(fragments[..n], x);
      assert forall k :: 0 <= k < n ==> fragments[..n][k] == fragments[k];
      if AttributeName(fragments[n]) == x {
        assert exists k :: 0 <= k < |fragments| && AttributeName(fragments[k]) == x;
      }
    }
  }

  /** The names the fragments declare are new to `attributes`, not inherited, and
      pairwise distinct. */
  predicate FreshNames(fragments: seq<string>, attributes: AttributeMap) {
    && (forall k :: 0 <= k < |fragments| ==> !HasAttribute(attributes, AttributeName(fragments[k])))
    && (forall j, k :: 0 <= j < k < |fragments| ==>
          AttributeName(fragments[j]) != AttributeName(fragments[k]))
  }

  /** Peeling off the last fragment: the rest must be fresh for the map that already
      holds the last one's name. */
  lemma FreshNamesStep(fragments: seq<string>, attributes: AttributeMap)
    requires fragments != []
    ensures var n := |fragments| - 1;
            var name := AttributeName(fragments[n]);
            FreshNames(fragments, attributes) <==>
              !HasAttribute(attributes, name) &&
              FreshNames(fragments[..n], attributes[name := AttributeValue(fragments[n])])
  {
    var n := |fragments| - 1;
    var init := fragments[..n];
    var name := AttributeName(fragments[n]);
    var next := attributes[name := AttributeValue(fragments[n])];
    assert forall k :: 0 <= k < n ==> init[k] == fragments[k];
    if !HasAttribute(attributes, name) && FreshNames(init, next) {
      forall j, k | 0 <= j < k < |fragments|
        ensures AttributeName(fragments[j]) != AttributeName(fragments[k])
      {
        if k < n {
          assert AttributeName(init[j]) != AttributeName(init[k]);
        } else {
          assert !HasAttribute(next, AttributeName(init[j]));
        }
      }
      forall k | 0 <= k < |fragments| ensures !HasAttribute(attributes, AttributeName(fragments[k])) {
        if k < n {
          assert !HasAttribute(next, AttributeName(init[k]));
        }
      }
    }
    if FreshNames(fragments, attributes) {
      forall k | 0 <= k < n ensures !HasAttribute(next, AttributeName(init[k])) {
        assert AttributeName(fragments[k]) != AttributeName(fragments[n]);
      }
    }
  }

  /** Adding succeeds exactly when no name repeats or is inherited, and a failure is
      always a duplicate. */
  lemma {:induction false} AddAttributesOk(fragments: seq<string>, attributes: AttributeMap)
    ensures AddAttributes(fragments, attributes).Ok? <==> FreshNames(fragments, attributes)
    ensures AddAttributes(fragments, attributes).Err? ==>
              AddAttributes(fragments, attributes).error.DuplicateAttribute?
  {
    if fragments != [] {
      var n := |fragments| - 1;
      var name := AttributeName(fragments[n]);
      FreshNamesStep(fragments, attributes);
      if !HasAttribute(attributes, name) {
        AddAttributesOk(fragments[..n], attributes[name := AttributeValue(fragments[n])]);
      }
    }
  }

  /** A successful add keeps the earlier entries, adds exactly the declared names, and
      maps each to its fragment's value. */
  lemma {:induction false} AddAttributesResult(fragments: seq<string>, attributes: AttributeMap)
    requires AddAttributes(fragments, attributes).Ok?
    ensures var m := AddAttributes(fragments, attributes).value;
            && m.Keys == attributes.Keys + NameSet(fragments)
            && (forall x :: x in attributes ==> m[x] == attributes[x])
            && (forall k :: 0 <= k < |fragments| ==>
                  AttributeName(fragments[k]) in m &&
                  m[AttributeName(fragments[k])] == AttributeValue(fragments[k]))
  {
    if fragments != [] {
      var n := |fragments| - 1;
      var init := fragments[..n];
      var name := AttributeName(fragments[n]);
      var next := attributes[name := AttributeValue(fragments[n])];
      assert AddAttributes(fragments, attributes) == AddAttributes(init, next);
      AddAttributesResult(init, next);
      assert forall k :: 0 <= k < n ==> init[k] == fragments[k];
    }
  }

  /** One iteration of the attribute loop: fragment `j` is added to the map unless
      its name is already there. */
  lemma AddStep(fragments: seq<string>, j: nat, attributes: AttributeMap)
    requires 1 <= j < |fragments|
    ensures var name := AttributeName(fragments[j]);
            AddAttributes(fragments[1..j + 1], attributes) ==
              if HasAttribute(attributes, name) then Err(DuplicateAttribute(name))
              else AddAttributes(fragments[1..j], attributes[name := AttributeValue(fragments[j])])
  {
    assert fragments[1..j + 1][..j - 1] == fragments[1..j];
    assert fragments[1..j + 1][j - 1] == fragments[j];
  }

  /** The whole of `mapHtmlTagToArray`, as a function of the tag's text. */
  function TagMap(html: string): Result<HtmlNode, ParseError> {
    var fragments := Fragments(CollapseSpaces(TagBody(html)));
    var name := if |fragments| > 0 then Some(fragments[0]) else None;
    if |fragments| <= 1 then Ok(HtmlNode(name, None, None))
    else
      match AddAttributes(fragments[1..], map[])
      case Err(e) => Err(e)
      case Ok(attributes) => Ok(HtmlNode(name, Some(attributes), None))
  }

  /** The name is the first fragment of the collapsed body; the `attributes` key is
      there exactly when a second fragment is; parsing fails (always with a duplicate)
      exactly when a name repeats or is inherited; otherwise every further fragment
      maps its name to its value, and nothing else is in the map. */
  lemma TagMapSpec(html: string)
    ensures var fragments := Fragments(CollapseSpaces(TagBody(html)));
            var r := TagMap(html);
            && (r.Ok? <==> |fragments| <= 1 || FreshNames(fragments[1..], map[]))
            && (r.Err? ==> r.error.DuplicateAttribute?)
            && (r.Ok? ==>
                  && r.value.name == (if fragments == [] then None else Some(fragments[0]))
                  && r.value.children == None
                  && (r.value.attributes.Some? <==> |fragments| >= 2)
                  && (r.value.attributes.Some? ==>
                        && r.value.attributes.value.Keys == NameSet(fragments[1..])
                        && forall k :: 1 <= k < |fragments| ==>
                             AttributeName(fragments[k]) in r.value.attributes.value &&
                             r.value.attributes.value[AttributeName(fragments[k])] ==
                               AttributeValue(fragments[k])))
  {
    var fragments := Fragments(CollapseSpaces(TagBody(html)));
    if |fragments| >= 2 {
      var rest := fragments[1..];
      AddAttributesOk(rest, map[]);
      if AddAttributes(rest, map[]).Ok? {
        AddAttributesResult(rest, map[]);
        assert forall k :: 1 <= k < |fragments| ==> fragments[k] == rest[k - 1];
      }
    }
  }

  /** Text without `\s` is left alone by the whitespace collapse. */
  lemma {:induction false} CollapseNoSpace(s: string)
    requires forall k :: 0 <= k < |s| ==> !IsJsSpace(s[k])
    ensures CollapseSpaces(s) == s
    decreases |s|
  {
    if s != [] {
      CollapseNoSpace(s[1..]);
      assert s == [s[0]] + s[1..];
    }
  }

  /** Text without spaces is a single piece. */
  lemma {:induction false} PiecesNoSpace(s: string)
    requires ' ' !in s
    ensures Pieces(s) == [s]
    decreases |s|
  {
    if s != [] {
      var t := s[..|s| - 1];
      assert ' ' !in t by {
        assert forall k :: 0 <= k < |t| ==> t[k] == s[k];
      }
      PiecesNoSpace(t);
      assert t + [s[|s| - 1]] == s;
    }
  }

  /** A single space between two words is left alone by the whitespace collapse. */
  lemma {:induction false} CollapseOneSpace(x: string, y: string)
    requires forall k :: 0 <= k < |x| ==> !IsJsSpace(x[k])
    requires forall k :: 0 <= k < |y| ==> !IsJsSpace(y[k])
    ensures CollapseSpaces(x + " " + y) == x + " " + y
    decreases |x|
  {
    var s := x + " " + y;
    if x == [] {
      assert s == " " + y;
      assert SkipSpaces(s, 1) == 1;
      assert s[1..] == y;
      CollapseNoSpace(y);
    } else {
      CollapseOneSpace(x[1..], y);
      assert s[1..] == x[1..] + " " + y;
      assert s == [x[0]] + (x[1..] + " " + y);
    }
  }

  /** Without `"`, no character opens a quoted value. */
  lemma {:induction false} QuoteTogglesNone(s: string)
    requires '"' !in s
    ensures QuoteToggles(s) == 0
    decreases |s|
  {
    if s != [] {
      var t := s[..|s| - 1];
      assert '"' !in t by {
        assert forall k :: 0 <= k < |t| ==> t[k] == s[k];
      }
      QuoteTogglesNone(t);
    }
  }

  /** Text without spaces extends the last piece. */
  lemma {:induction false} PiecesAppendNoSpace(s: string, t: string)
    requires ' ' !in t
    ensures var p := Pieces(s); Pieces(s + t) == p[..|p| - 1] + [p[|p| - 1] + t]
    decreases |t|
  {
    var p := Pieces(s);
    if t == [] {
      assert s + t == s;
      assert p[|p| - 1] + t == p[|p| - 1];
      assert p[..|p| - 1] + [p[|p| - 1]] == p;
    } else {
      var u := t[..|t| - 1];
      var c := t[|t| - 1];
      assert ' ' !in u by {
        assert forall k :: 0 <= k < |u| ==> u[k] == t[k];
      }
      PiecesAppendNoSpace(s, u);
      assert (s + t)[..|s + t| - 1] == s + u;
      assert (s + t)[|s + t| - 1] == c;
      assert p[|p| - 1] + u + [c] == p[|p| - 1] + t;
    }
  }

  /** A word without spaces or `"` followed by a space is the word and an empty piece. */
  lemma PiecesWordSpace(x: string)
    requires ' ' !in x && '"' !in x
    ensures Pieces(x + " ") == [x, ""]
  {
    PiecesNoSpace(x);
    QuoteTogglesNone(x);
    var xs := x + " ";
    assert xs[..|xs| - 1] == x;
    assert xs[|xs| - 1] == ' ';
  }

  /** Two words without spaces, the first also without `"`, joined by one space are
      two pieces. */
  lemma PiecesTwoWords(x: string, y: string)
    requires ' ' !in x && '"' !in x && ' ' !in y
    ensures Pieces(x + " " + y) == [x, y]
  {
    PiecesWordSpace(x);
    PiecesAppendNoSpace(x + " ", y);
    assert [x, ""][..1] == [x];
    assert "" + y == y;
  }

  /** A tag with one attribute whose value is quoted, `<t a="v">` with no `\s` in t, a
      or v, maps to the node `t` whose only attribute `a` has the value `v`. */
  lemma OneAttributeTagMap(t: string, a: string, v: string)
    requires |t| >= 1 && forall k :: 0 <= k < |t| ==> !IsJsSpace(t[k]) && t[k] != '"'
    requires forall k :: 0 <= k < |a| ==> !IsJsSpace(a[k]) && a[k] != '='
    requires a !in InheritedNames
    requires forall k :: 0 <= k < |v| ==> !IsJsSpace(v[k])
    ensures TagMap("<" + t + " " + a + "=\"" + v + "\">") == Ok(HtmlNode(Some(t), Some(map[a := Some(v)]), None))
  {
    var quoted := "\"" + v + "\"";
    var attr := a + "=" + quoted;
    OneAttributeFragments(t, a, v);
    OneAttribute(a, quoted);
    assert Unquote(quoted) == v;
    assert [t, attr][1..] == [attr];
  }

  /** The fragments of `<t a="v">`: the name and the attribute. */
  lemma OneAttributeFragments(t: string, a: string, v: string)
    requires |t| >= 1 && forall k :: 0 <= k < |t| ==> !IsJsSpace(t[k]) && t[k] != '"'
    requires forall k :: 0 <= k < |a| ==> !IsJsSpace(a[k])
    requires forall k :: 0 <= k < |v| ==> !IsJsSpace(v[k])
    ensures Fragments(CollapseSpaces(TagBody("<" + t + " " + a + "=\"" + v + "\">"))) ==
              [t, a + "=" + ("\"" + v + "\"")]
  {
    var attr := a + "=" + ("\"" + v + "\"");
    OneAttributeBody(t, a, v);
    assert forall k :: 0 <= k < |attr| ==> !IsJsSpace(attr[k]);
    CollapseOneSpace(t, attr);
    assert ' ' !in t && '"' !in t && ' ' !in attr;
    PiecesTwoWords(t, attr);
    NonEmptyAppend([t], [attr]);
    NonEmptySingle(t);
    NonEmptySingle(attr);
    assert [t] + [attr] == [t, attr];
  }

  /** The body of `<t a="v">`. */
  lemma OneAttributeBody(t: string, a: string, v: string)
    ensures TagBody("<" + t + " " + a + "=\"" + v + "\">") == t + " " + (a + "=" + ("\"" + v + "\""))
  {
    var body := t + " " + (a + "=" + ("\"" + v + "\""));
    var html := "<" + t + " " + a + "=\"" + v + "\">";
    assert html == "<" + body + ">";
    TagBodyOfTag(html);
    assert html[|html| - 2] == '"';
    assert html[1..|html| - 1] == body;
  }

  /** Every `\s` is a plain space, and none is followed by another `\s`. */
  predicate SingleSpaced(v: string)
    decreases |v|
  {
    v == [] ||
    ((IsJsSpace(v[0]) ==> v[0] == ' ' && (|v| >= 2 ==> !IsJsSpace(v[1]))) && SingleSpaced(v[1..]))
  }

  /** Text the whitespace collapse leaves alone is single-spaced. */
  lemma {:induction false} KeptIsSingleSpaced(v: string)
    requires CollapseSpaces(v) == v
    ensures SingleSpaced(v)
    decreases |v|
  {
    if v != [] {
      CollapseKeptTail(v);
      KeptIsSingleSpaced(v[1..]);
    }
  }

  /** Single-spaced text is left alone by the collapse. */
  lemma {:induction false} SingleSpacedKept(v: string)
    requires SingleSpaced(v)
    ensures CollapseSpaces(v) == v
    decreases |v|
  {
    if v != [] {
      SingleSpacedKept(v[1..]);
      CollapseStep(v);
    }
  }

  /** Two single-spaced texts joined where no `\s` meets another `\s` are
      single-spaced. */
  lemma {:induction false} SingleSpacedAppend(v: string, w: string)
    requires SingleSpaced(v) && SingleSpaced(w)
    requires v == [] || w == [] || !IsJsSpace(v[|v| - 1]) || !IsJsSpace(w[0])
    ensures SingleSpaced(v + w)
    decreases |v|
  {
    if v == [] {
      assert v + w == w;
    } else {
      var v1 := v[1..];
      assert v1 == [] || w == [] || !IsJsSpace(v1[|v1| - 1]) || !IsJsSpace(w[0]) by {
        if v1 != [] {
          assert v1[|v1| - 1] == v[|v| - 1];
        }
      }
      SingleSpacedAppend(v1, w);
      var s := v + w;
      assert s[1..] == v1 + w;
      assert s[0] == v[0];
      if |v| >= 2 {
        assert s[1] == v[1];
      } else if w != [] {
        assert s[1] == w[0];
      }
    }
  }

  /** One step of the collapse at a character not followed by more `\s`. */
  lemma CollapseStep(s: string)
    requires s != [] && (IsJsSpace(s[0]) ==> s[0] == ' ' && (|s| == 1 || !IsJsSpace(s[1])))
    ensures CollapseSpaces(s) == [s[0]] + CollapseSpaces(s[1..])
  {
    if IsJsSpace(s[0]) {
      assert SkipSpaces(s, 1) == 1;
      assert s[1..][0..] == s[1..];
    }
  }

  /** What the collapse leaves alone, it leaves alone after the first character too;
      a leading space is a plain space and is not followed by another `\s`. */
  lemma CollapseKeptTail(v: string)
    requires v != [] && CollapseSpaces(v) == v
    ensures CollapseSpaces(v[1..]) == v[1..]
    ensures IsJsSpace(v[0]) ==> v[0] == ' ' && (|v| >= 2 ==> !IsJsSpace(v[1]))
  {
    if IsJsSpace(v[0]) {
      var j := SkipSpaces(v, 1);
      var rest := CollapseSpaces(v[j..]);
      assert v == [' '] + rest;
      assert |rest| <= |v| - j;
      assert j == 1;
      assert v[j..] == v[1..];
    } else {
      assert v == [v[0]] + CollapseSpaces(v[1..]);
    }
  }

  /** Text without `\s` is single-spaced. */
  lemma {:induction false} NoSpaceSingleSpaced(s: string)
    requires forall k :: 0 <= k < |s| ==> !IsJsSpace(s[k])
    ensures SingleSpaced(s)
    decreases |s|
  {
    if s != [] {
      NoSpaceSingleSpaced(s[1..]);
    }
  }

  /** The attribute `a="v"` is single-spaced when `v` is. */
  lemma QuotedAttrSpacing(a: string, v: string)
    requires forall k :: 0 <= k < |a| ==> !IsJsSpace(a[k])
    requires SingleSpaced(v)
    ensures SingleSpaced(a + "=" + ("\"" + v + "\""))
  {
    var head := a + "=\"";
    ValueQuoteSpacing(v);
    HeadSpacing(a);
    SingleSpacedAppend(head, v + "\"");
    assert head + (v + "\"") == a + "=" + ("\"" + v + "\"");
  }

  /** A single-spaced value followed by its closing quote. */
  lemma ValueQuoteSpacing(v: string)
    requires SingleSpaced(v)
    ensures SingleSpaced(v + "\"")
  {
    NoSpaceSingleSpaced("\"");
    SingleSpacedAppend(v, "\"");
  }

  /** `a="`, with no `\s` in `a`, is single-spaced and ends in no `\s`. */
  lemma HeadSpacing(a: string)
    requires forall k :: 0 <= k < |a| ==> !IsJsSpace(a[k])
    ensures var head := a + "=\""; SingleSpaced(head) && !IsJsSpace(head[|head| - 1])
  {
    var head := a + "=\"";
    assert forall k :: 0 <= k < |head| ==> !IsJsSpace(head[k]);
    NoSpaceSingleSpaced(head);
  }

  /** A word, one space and single-spaced text that starts with no `\s`. */
  lemma WordSpaceSpacing(t: string, attr: string)
    requires |t| >= 1 && forall k :: 0 <= k < |t| ==> !IsJsSpace(t[k])
    requires |attr| >= 1 && !IsJsSpace(attr[0]) && SingleSpaced(attr)
    ensures SingleSpaced(t + " " + attr)
  {
    assert SingleSpaced(" ") by {
      assert " "[1..] == [];
    }
    SingleSpacedAppend(" ", attr);
    NoSpaceSingleSpaced(t);
    SingleSpacedAppend(t, " " + attr);
    assert t + (" " + attr) == t + " " + attr;
  }

  /** The body of `<t a="v">` is single-spaced when `v` is. */
  lemma QuotedValueSpacing(t: string, a: string, v: string)
    requires |t| >= 1 && forall k :: 0 <= k < |t| ==> !IsJsSpace(t[k])
    requires forall k :: 0 <= k < |a| ==> !IsJsSpace(a[k])
    requires SingleSpaced(v)
    ensures SingleSpaced(t + " " + (a + "=" + ("\"" + v + "\"")))
  {
    var attr := a + "=" + ("\"" + v + "\"");
    QuotedAttrSpacing(a, v);
    assert !IsJsSpace(attr[0]);
    WordSpaceSpacing(t, attr);
  }

  /** The body of `<t a="v">` survives the whitespace collapse when `v` does. */
  lemma QuotedValueCollapse(t: string, a: string, v: string)
    requires |t| >= 1 && forall k :: 0 <= k < |t| ==> !IsJsSpace(t[k])
    requires forall k :: 0 <= k < |a| ==> !IsJsSpace(a[k])
    requires CollapseSpaces(v) == v
    ensures var attr := a + "=" + ("\"" + v + "\"");
            CollapseSpaces(t + " " + attr) == t + " " + attr
  {
    KeptIsSingleSpaced(v);
    QuotedValueSpacing(t, a, v);
    SingleSpacedKept(t + " " + (a + "=" + ("\"" + v + "\"")));
  }

  /** Text without `"` never changes the quote flag. */
  lemma {:induction false} QuoteTogglesAppendNone(s: string, u: string)
    requires '"' !in u
    ensures QuoteToggles(s + u) == QuoteToggles(s)
    decreases |u|
  {
    if u != [] {
      var w := u[..|u| - 1];
      assert '"' !in w by {
        assert forall k :: 0 <= k < |w| ==> w[k] == u[k];
      }
      QuoteTogglesAppendNone(s, w);
      var su := s + u;
      assert su[..|su| - 1] == s + w;
      assert !TogglesQuote(su, |su| - 1) by {
        assert su[|su| - 1] == u[|u| - 1];
        assert u[|u| - 1] in u;
      }
      assert QuoteToggles(su) == QuoteToggles(su[..|su| - 1]);
    } else {
      assert s + u == s;
    }
  }

  /** Inside a quoted value, text without `"` extends the last piece, spaces
      included. */
  lemma {:induction false} PiecesAppendInQuotes(s: string, u: string)
    requires InQuotes(s) && '"' !in u
    ensures var p := Pieces(s); Pieces(s + u) == p[..|p| - 1] + [p[|p| - 1] + u]
    decreases |u|
  {
    var p := Pieces(s);
    if u == [] {
      assert s + u == s;
      assert p[|p| - 1] + u == p[|p| - 1];
      assert p[..|p| - 1] + [p[|p| - 1]] == p;
    } else {
      var w := u[..|u| - 1];
      var c := u[|u| - 1];
      assert '"' !in w by {
        assert forall k :: 0 <= k < |w| ==> w[k] == u[k];
      }
      PiecesAppendInQuotes(s, w);
      QuoteTogglesAppendNone(s, w);
      assert (s + u)[..|s + u| - 1] == s + w;
      assert (s + u)[|s + u| - 1] == c;
      assert p[|p| - 1] + w + [c] == p[|p| - 1] + u;
    }
  }

  /** After `t a="` the scan is inside a quoted value. */
  lemma OpenValueInQuotes(t: string, a: string)
    requires '"' !in t && '"' !in a
    ensures InQuotes(t + " " + (a + "=\""))
  {
    var s := t + " " + (a + "=\"");
    assert s[..|s| - 1] == t + " " + a + "=";
    QuoteTogglesNone(t + " " + a + "=");
    assert TogglesQuote(s, |s| - 1);
  }

  /** The pieces of the body of `<t a="v">`: a value without `"` keeps its spaces. */
  lemma QuotedValuePieces(t: string, a: string, v: string)
    requires ' ' !in t && '"' !in t && ' ' !in a && '"' !in a && '"' !in v
    ensures Pieces(t + " " + (a + "=" + ("\"" + v + "\""))) == [t, a + "=" + ("\"" + v + "\"")]
  {
    var open := t + " " + (a + "=\"") + v;
    var attr := a + "=" + ("\"" + v + "\"");
    assert open + "\"" == t + " " + attr;
    assert a + "=\"" + v + "\"" == attr;
    OpenValuePieces(t, a, v);
    PiecesAppendNoSpace(open, "\"");
    assert [t, a + "=\"" + v][..1] == [t];
  }

  /** Up to the closing quote, the value extends the attribute's piece. */
  lemma OpenValuePieces(t: string, a: string, v: string)
    requires ' ' !in t && '"' !in t && ' ' !in a && '"' !in a && '"' !in v
    ensures Pieces(t + " " + (a + "=\"") + v) == [t, a + "=\"" + v]
  {
    var head := a + "=\"";
    assert ' ' !in head;
    PiecesTwoWords(t, head);
    var s := t + " " + head;
    OpenValueInQuotes(t, a);
    PiecesAppendInQuotes(s, v);
    assert [t, head][..1] == [t];
  }

  /** The fragments of `<t a="v">` when `v` may hold single spaces. */
  lemma QuotedValueFragments(t: string, a: string, v: string)
    requires |t| >= 1 && forall k :: 0 <= k < |t| ==> !IsJsSpace(t[k]) && t[k] != '"'
    requires forall k :: 0 <= k < |a| ==> !IsJsSpace(a[k]) && a[k] != '"'
    requires '"' !in v && CollapseSpaces(v) == v
    ensures Fragments(CollapseSpaces(TagBody("<" + t + " " + a + "=\"" + v + "\">"))) ==
              [t, a + "=" + ("\"" + v + "\"")]
  {
    var attr := a + "=" + ("\"" + v + "\"");
    OneAttributeBody(t, a, v);
    QuotedValueCollapse(t, a, v);
    assert ' ' !in t && '"' !in t && ' ' !in a && '"' !in a;
    QuotedValuePieces(t, a, v);
    NonEmptyAppend([t], [attr]);
    NonEmptySingle(t);
    NonEmptySingle(attr);
    assert [t] + [attr] == [t, attr];
  }

  /** A tag with one quoted attribute value, `<t a="v">`, maps to the node `t` whose
      only attribute `a` has the value `v`: single spaces and `=` inside the quotes
      stay in the value. */
  lemma QuotedValueTagMap(t: string, a: string, v: string)
    requires |t| >= 1 && forall k :: 0 <= k < |t| ==> !IsJsSpace(t[k]) && t[k] != '"'
    requires forall k :: 0 <= k < |a| ==> !IsJsSpace(a[k]) && a[k] != '=' && a[k] != '"'
    requires a !in InheritedNames
    requires '"' !in v && CollapseSpaces(v) == v
    ensures TagMap("<" + t + " " + a + "=\"" + v + "\">") == Ok(HtmlNode(Some(t), Some(map[a := Some(v)]), None))
  {
    var quoted := "\"" + v + "\"";
    var attr := a + "=" + quoted;
    QuotedValueFragments(t, a, v);
    OneAttribute(a, quoted);
    assert Unquote(quoted) == v;
    assert [t, attr][1..] == [attr];
  }

  lemma SumSingleSpaced(v: string)
    requires v == "2 + 2 = 4"
    ensures SingleSpaced(v)
  {
    forall k | 0 <= k < |v| && IsJsSpace(v[k])
      ensures v[k] == ' ' && (k + 1 < |v| ==> !IsJsSpace(v[k + 1]))
    {
      assert k % 2 == 1;
    }
    SpacesSingleSpaced(v);
  }

  /** Text whose every `\s` is a plain space followed by no `\s` is single-spaced. */
  lemma {:induction false} SpacesSingleSpaced(v: string)
    requires forall k :: 0 <= k < |v| && IsJsSpace(v[k]) ==>
               v[k] == ' ' && (k + 1 < |v| ==> !IsJsSpace(v[k + 1]))
    ensures SingleSpaced(v)
    decreases |v|
  {
    if v != [] {
      var v1 := v[1..];
      assert forall k :: 0 <= k < |v1| ==> v1[k] == v[k + 1];
      SpacesSingleSpaced(v1);
    }
  }

  /** `<input value="2 + 2 = 4">` gives `input` with the value `2 + 2 = 4`. */
  lemma QuotedValueExample(html: string)
    requires html == "<input value=\"2 + 2 = 4\">"
    ensures TagMap(html) == Ok(HtmlNode(Some("input"), Some(map["value" := Some("2 + 2 = 4")]), None))
  {
    InputValueText(html);
    InputValueNames();
    SumKept("2 + 2 = 4");
    QuotedValueTagMap("input", "value", "2 + 2 = 4");
  }

  lemma InputValueNames()
    ensures |"input"| >= 1 && forall k :: 0 <= k < |"input"| ==> !IsJsSpace("input"[k]) && "input"[k] != '"'
    ensures forall k :: 0 <= k < |"value"| ==> !IsJsSpace("value"[k]) && "value"[k] != '=' && "value"[k] != '"'
    ensures "value" !in InheritedNames
  {
  }

  lemma SumKept(v: string)
    requires v == "2 + 2 = 4"
    ensures '"' !in v && CollapseSpaces(v) == v
  {
    SumSingleSpaced(v);
    SingleSpacedKept(v);
  }

  lemma InputValueText(html: string)
    requires html == "<input value=\"2 + 2 = 4\">"
    ensures html == "<" + "input" + " " + "value" + "=\"" + "2 + 2 = 4" + "\">"
  {
  }

  /** A single fragment `a=value` adds `a` to an empty map. */
  lemma OneAttribute(a: string, value: string)
    requires '=' !in a && a !in InheritedNames
    ensures AddAttributes([a + "=" + value], map[]) == Ok(map[a := Some(Unquote(value))])
  {
    var attr := a + "=" + value;
    AttributeWithValue(a, value);
    var parts := Split(attr, '=');
    assert ExtractAttributeValue(parts) == Ok(AttributeValue(attr));
    assert [attr][..0] == [];
  }

  /** A tag with a bare name and no attributes, `<n>`, maps to a node named `n` with
      neither attributes nor children. */
  lemma PlainTagMap(n: string)
    requires |n| >= 1 && n[|n| - 1] != '/'
    requires forall k :: 0 <= k < |n| ==> !IsJsSpace(n[k])
    ensures TagMap("<" + n + ">") == Ok(HtmlNode(Some(n), None, None))
  {
    var html := "<" + n + ">";
    TagBodyOfTag(html);
    assert html[|html| - 2] == n[|n| - 1];
    assert html[1..|html| - 1] == n;
    CollapseNoSpace(n);
    assert ' ' !in n by {
      assert forall k :: 0 <= k < |n| ==> n[k] != ' ';
    }
    PiecesNoSpace(n);
    NonEmptySingle(n);
  }

  /** The loop state after some characters, given their pieces: `current` is the last
      piece, `previous` the one before it ("" standing for `undefined`), and
      `fragments` the non-empty pieces before those two. */
  ghost predicate ScanState(pieces: seq<string>, fragments: seq<string>, previous: string, current: string)
    requires |pieces| >= 1
  {
    && current == pieces[|pieces| - 1]
    && (|pieces| == 1 ==> previous == "" && fragments == [])
    && (|pieces| >= 2 ==> previous == pieces[|pieces| - 2] &&
                          fragments == NonEmpty(pieces[..|pieces| - 2]))
  }

  /** A space outside quotes: `previous` is pushed when non-empty and moves up. */
  lemma ScanStateSplit(p: seq<string>, fragments: seq<string>, previous: string, current: string)
    requires |p| >= 1 && ScanState(p, fragments, previous, current)
    ensures ScanState(p + [""], if previous != "" then fragments + [previous] else fragments, current, "")
  {
    var q := p + [""];
    assert q[..|q| - 2] == p[..|p| - 1];
    if |p| >= 2 {
      assert p[..|p| - 1] == p[..|p| - 2] + [p[|p| - 2]];
      NonEmptyAppend(p[..|p| - 2], [p[|p| - 2]]);
      NonEmptySingle(p[|p| - 2]);
    } else {
      assert p[..0] == [];
    }
  }

  /** Any other character extends `current`. */
  lemma ScanStateExtend(p: seq<string>, fragments: seq<string>, previous: string, current: string, c: char)
    requires |p| >= 1 && ScanState(p, fragments, previous, current)
    ensures ScanState(p[..|p| - 1] + [p[|p| - 1] + [c]], fragments, previous, current + [c])
  {
    var q := p[..|p| - 1] + [p[|p| - 1] + [c]];
    if |p| >= 2 {
      assert q[..|q| - 2] == p[..|p| - 2];
      assert q[|q| - 2] == p[|p| - 2];
    }
  }

  /** The quote flag after index `i` of `s`. */
  lemma InQuotesAt(s: string, i: nat)
    requires i < |s|
    ensures InQuotes(s[..i + 1]) <==> (InQuotes(s[..i]) != (s[i] == '"' && (i == 0 || s[i - 1] != '\\')))
  {
    assert s[..i + 1] == s[..i] + [s[i]];
    InQuotesSnoc(s[..i], s[i]);
  }

  /** One iteration of the first loop, at index `i` of `s`, keeps the loop state in
      step with `Pieces`. */
  lemma ScanStep(s: string, i: nat, fragments: seq<string>, previous: string, current: string)
    requires i < |s|
    requires ScanState(Pieces(s[..i]), fragments, previous, current)
    ensures s[i] == ' ' && !InQuotes(s[..i]) ==>
              ScanState(Pieces(s[..i + 1]), if previous != "" then fragments + [previous] else fragments,
                        current, "")
    ensures !(s[i] == ' ' && !InQuotes(s[..i])) ==>
              ScanState(Pieces(s[..i + 1]), fragments, previous, current + [s[i]])
  {
    var t := s[..i];
    var c := s[i];
    var p := Pieces(t);
    assert s[..i + 1] == t + [c];
    PiecesSnoc(t, c);
    if c == ' ' && !InQuotes(t) {
      assert Pieces(s[..i + 1]) == p + [""];
      ScanStateSplit(p, fragments, previous, current);
    } else {
      assert Pieces(s[..i + 1]) == p[..|p| - 1] + [p[|p| - 1] + [c]];
      ScanStateExtend(p, fragments, previous, current, c);
    }
  }

  /** A list of at least two entries is its front and its last two entries. */
  lemma LastTwo(p: seq<string>)
    requires |p| >= 2
    ensures p == p[..|p| - 2] + [p[|p| - 2]] + [p[|p| - 1]]
  {
  }

  /** The non-empty pieces of a list ending in two known entries. */
  lemma NonEmptyLastTwo(init: seq<string>, a: string, b: string)
    ensures NonEmpty(init + [a] + [b]) ==
            NonEmpty(init) + (if a != "" then [a] else []) + (if b != "" then [b] else [])
  {
    NonEmptyAppend(init + [a], [b]);
    NonEmptyAppend(init, [a]);
    NonEmptySingle(a);
    NonEmptySingle(b);
  }

  /** After the loop the pushed `previous` and `current` complete the fragments. */
  lemma ScanStateEnd(p: seq<string>, fragments: seq<string>, previous: string, current: string)
    requires |p| >= 1 && ScanState(p, fragments, previous, current)
    ensures NonEmpty(p) == fragments + (if previous != "" then [previous] else []) +
                           (if current != "" then [current] else [])
  {
    if |p| >= 2 {
      LastTwo(p);
      NonEmptyLastTwo(p[..|p| - 2], previous, current);
    } else {
      assert p == [current];
      NonEmptySingle(current);
    }
  }

  /** The first loop of `mapHtmlTagToArray`: the collapsed tag body becomes its
      fragments, split at the spaces outside quotes. */
  method SplitFragments(reduced: string) returns (fragments: seq<string>)
    ensures fragments == Fragments(reduced)
  {
    fragments := [];
    var inAttribute := false;
    var current := "";
    var previous := "";
    var ch: Option<char> := None;
    var previousChar: Option<char> := None;

    for i := 0 to |reduced|
      invariant ch == (if i == 0 then None else Some(reduced[i - 1]))
      invariant i == 0 ==> previousChar == None
      invariant inAttribute == InQuotes(reduced[..i])
      invariant ScanState(Pieces(reduced[..i]), fragments, previous, current)
    {
      ScanStep(reduced, i, fragments, previous, current);
      InQuotesAt(reduced, i);
      if ch.Some? {
        previousChar := ch;
      }
      ch := Some(reduced[i]);
      var c := reduced[i];
      if c == ' ' {
        if inAttribute {
          current := current + [c];
        } else {
          if previous != "" {
            fragments := fragments + [previous];
          }
          previous := current;
          current := "";
        }
      } else {
        if c == '"' && previousChar != Some('\\') {
          inAttribute := !inAttribute;
        }
        current := current + [c];
      }
    }
    assert reduced[..|reduced|] == reduced;
    ScanStateEnd(Pieces(reduced), fragments, previous, current);
    if previous != "" {
      fragments := fragments + [previous];
    }
    if current != "" {
      fragments := fragments + [current];
    }
  }

  /** `mapHtmlTagToArray`: the name and attribute map of an opening tag. */
  method MapHtmlTagToArray(html: string) returns (r: Result<HtmlNode, ParseError>)
    ensures r == TagMap(html)
  {
    var end := if LastIndexOf(html, "/>") == |html| - 2 then |html| - 2 else |html| - 1;
    var stripped := Slice(html, 1, end);
    var reduced := CollapseSpaces(stripped);
    var fragments := SplitFragments(reduced);

    var name: Option<string> := if |fragments| > 0 then Some(fragments[0]) else None;
    if |fragments| <= 1 {
      return Ok(HtmlNode(name, None, None));
    }
    var attributes := CollectAttributes(fragments);
    match attributes
    case Err(e) => return Err(e);
    case Ok(m) => return Ok(HtmlNode(name, Some(m), None));
  }

  /** The second loop of `mapHtmlTagToArray`: the fragments after the name are added
      from the last to the first, and a name already present is an error. */
  method CollectAttributes(fragments: seq<string>) returns (r: Result<AttributeMap, ParseError>)
    requires |fragments| >= 2
    ensures r == AddAttributes(fragments[1..], map[])
  {
    var attributes: AttributeMap := map[];
    var j := |fragments| - 1;
    assert fragments[1..j + 1] == fragments[1..];
    while j >= 1
      invariant 0 <= j <= |fragments| - 1
      invariant AddAttributes(fragments[1..j + 1], attributes) == AddAttributes(fragments[1..], map[])
    {
      AddStep(fragments, j, attributes);
      var attrParts := Split(fragments[j], '=');
      var attrName := attrParts[0];
      var value := ExtractAttributeValue(attrParts).value;
      if HasAttribute(attributes, attrName) {
        return Err(DuplicateAttribute(attrName));
      }
      attributes := attributes[attrName := value];
      j := j - 1;
    }
    assert fragments[1..1] == [];
    return Ok(attributes);
  }
}
