/** `nestNodeArray`: the flat token list, read from right to left, becomes nested
    arrays. A closing tag opens a new level and becomes the expected name; an opening
    tag with that name closes the level, which is folded into its parent as one array
    headed by that tag. The method follows the source's loop and is proved against
    the step function `Step`; the lemmas say that nothing is reordered and that a
    well-formed tree of tokens nests back into its shape. */
module Nester {
  import opened Wrappers
  import opened JsText
  import opened Classify
  import opened Values

  /** An entry of a nested list: a token, or a nested array. */
  datatype Item = Leaf(part: Part) | Group(items: seq<Item>)

  /** `part.indexOf('</') === 0`. */
  predicate IsCloser(s: string) {
    IndexOf(s, "</") == 0
  }

  /** The loop state: the levels (the last is `current`), the stack of names to
      restore, and the name the current level waits for. */
  datatype NestState = NestState(levels: seq<seq<Item>>, closers: seq<Option<string>>, expected: Option<string>)
  {
    ghost predicate Valid() {
      |levels| == |closers| + 1
    }
  }

  function Init(expected: Option<string>): NestState {
    NestState([[]], [], expected)
  }

  /** `current.unshift(item)`. */
  function Unshift(st: NestState, item: Item): NestState
    requires st.Valid()
  {
    var n := |st.levels| - 1;
    st.(levels := st.levels[n := [item] + st.levels[n]])
  }

  /** One iteration of the loop over a part. */
  function Step(st: NestState, part: Part): (r: NestState)
    requires st.Valid()
    ensures r.Valid()
  {
    if !part.Str? then Unshift(st, Leaf(part))
    else if IsCloser(part.s) then
      NestState(st.levels + [[]], st.closers + [st.expected], Some(ParseTagName(part.s)))
    else if IsHtmlTag(part.s) && Some(ParseTagName(part.s)) == st.expected then
      var n := |st.levels| - 1;
      var current := [Leaf(part)] + st.levels[n];
      if n > 0 then
        NestState(st.levels[..n - 1] + [[Group(current)] + st.levels[n - 1]],
                  st.closers[..n - 1], st.closers[n - 1])
      else st.(levels := [current])
    else Unshift(st, Leaf(part))
  }

  /** The loop over `parts`, from the last part to the first. */
  function Run(parts: seq<Part>, st: NestState): (r: NestState)
    requires st.Valid()
    ensures r.Valid()
    decreases |parts|
  {
    if parts == [] then st else Run(parts[..|parts| - 1], Step(st, parts[|parts| - 1]))
  }

  /** Whether the list ends with a closing tag. */
  predicate EndsWithCloser(parts: seq<Part>) {
    |parts| > 0 && parts[|parts| - 1].Str? && IsCloser(parts[|parts| - 1].s)
  }

  /** The loop's final state: with more than one part the last one (a closing tag)
      sets the expected name and is not itself scanned. */
  function Final(parts: seq<Part>): (r: NestState)
    ensures r.Valid()
  {
    if |parts| > 1 && EndsWithCloser(parts) then
      Run(parts[..|parts| - 1], Init(Some(ParseTagName(parts[|parts| - 1].s))))
    else Run(parts, Init(None))
  }

  /** `nestNodeArray`: more than one part and no closing tag at the end is an error;
      otherwise the outermost level. */
  function Nest(parts: seq<Part>): (r: Result<seq<Item>, ParseError>)
    ensures r.Err? <==> |parts| > 1 && !EndsWithCloser(parts)
    ensures r.Err? ==> r.error == MissingClosingTag
  {
    if |parts| > 1 && !EndsWithCloser(parts) then Err(MissingClosingTag)
    else Ok(Final(parts).levels[0])
  }

  method NestNodeArray(parts: seq<Part>) returns (r: Result<seq<Item>, ParseError>)
    ensures r == Nest(parts)
  {
    var closingTags: seq<Option<string>> := [];
    var nested: seq<seq<Item>> := [];
    var current: seq<Item> := [];
    var i := |parts| - 1;
    var nestLevel := 0;
    var currentClosingTag: Option<string> := None;

    if |parts| > 1 {
      var part := parts[i];
      if !part.Str? || !IsCloser(part.s) {
        return Err(MissingClosingTag);
      }
      currentClosingTag := Some(ParseTagName(part.s));
      i := i - 1;
    }

    ghost var final := Final(parts);
    assert nested + [current] == [[]];
    assert final == Run(parts[..i + 1], Init(currentClosingTag)) by {
      assert |parts| <= 1 ==> parts[..i + 1] == parts;
    }
    while i >= 0
      invariant -1 <= i < |parts|
      invariant nestLevel == |nested| == |closingTags|
      invariant Run(parts[..i + 1], NestState(nested + [current], closingTags, currentClosingTag)) == final
    {
      ghost var st := NestState(nested + [current], closingTags, currentClosingTag);
      assert parts[..i + 1][..i] == parts[..i];
      assert Run(parts[..i], Step(st, parts[i])) == final;
      var part := parts[i];
      if !part.Str? {
        UnshiftStep(nested, current, closingTags, currentClosingTag, part);
        current := [Leaf(part)] + current;
      } else if IsCloser(part.s) {
        assert Step(st, part) == NestState(nested + [current] + [[]], closingTags + [currentClosingTag],
                                           Some(ParseTagName(part.s)));
        closingTags := closingTags + [currentClosingTag];
        nestLevel := nestLevel + 1;
        nested := nested + [current];
        current := [];
        currentClosingTag := Some(ParseTagName(part.s));
      } else if IsHtmlTag(part.s) {
        if Some(ParseTagName(part.s)) == currentClosingTag {
          ghost var before := current;
          current := [Leaf(part)] + current;
          if nestLevel > 0 {
            FoldStep(nested, before, closingTags, currentClosingTag, part);
            nestLevel := nestLevel - 1;
            var parent := nested[nestLevel];
            nested := nested[..nestLevel];
            current := [Group(current)] + parent;
            currentClosingTag := closingTags[nestLevel];
            closingTags := closingTags[..nestLevel];
          } else {
            TopStep(nested, before, closingTags, currentClosingTag, part);
          }
        } else {
          UnshiftStep(nested, current, closingTags, currentClosingTag, part);
          current := [Leaf(part)] + current;
        }
      } else {
        UnshiftStep(nested, current, closingTags, currentClosingTag, part);
        current := [Leaf(part)] + current;
      }
      assert NestState(nested + [current], closingTags, currentClosingTag) == Step(st, part);
      i := i - 1;
    }
    assert parts[..0] == [];
    return Ok((nested + [current])[0]);
  }

  /** The loop steps that only put the part in front of the current level. */
  lemma UnshiftStep(nested: seq<seq<Item>>, current: seq<Item>, closers: seq<Option<string>>,
                    expected: Option<string>, part: Part)
    requires |nested| == |closers|
    requires !part.Str? || (!IsCloser(part.s) && !(IsHtmlTag(part.s) && Some(ParseTagName(part.s)) == expected))
    ensures Step(NestState(nested + [current], closers, expected), part) ==
              NestState(nested + [[Leaf(part)] + current], closers, expected)
  {
    var levels := nested + [current];
    assert levels[|levels| - 1 := [Leaf(part)] + current] == nested + [[Leaf(part)] + current];
  }

  /** The loop step that closes an inner element: the finished level becomes a group
      in front of its parent, and the parent's expected name comes back. */
  lemma FoldStep(nested: seq<seq<Item>>, current: seq<Item>, closers: seq<Option<string>>,
                 expected: Option<string>, part: Part)
    requires |nested| == |closers| > 0
    requires part.Str? && !IsCloser(part.s) && IsHtmlTag(part.s) && Some(ParseTagName(part.s)) == expected
    ensures var k := |nested| - 1;
            Step(NestState(nested + [current], closers, expected), part) ==
              NestState(nested[..k] + [[Group([Leaf(part)] + current)] + nested[k]], closers[..k], closers[k])
  {
    var levels := nested + [current];
    var k := |nested| - 1;
    assert levels[..k] == nested[..k];
    assert levels[k] == nested[k];
  }

  /** The loop step that closes the outermost element. */
  lemma TopStep(nested: seq<seq<Item>>, current: seq<Item>, closers: seq<Option<string>>,
                expected: Option<string>, part: Part)
    requires nested == [] && closers == []
    requires part.Str? && !IsCloser(part.s) && IsHtmlTag(part.s) && Some(ParseTagName(part.s)) == expected
    ensures Step(NestState(nested + [current], closers, expected), part) ==
              NestState(nested + [[Leaf(part)] + current], closers, expected)
  {
    assert nested + [current] == [current];
    assert nested + [[Leaf(part)] + current] == [[Leaf(part)] + current];
  }

  /** Running over `a + b` is running over `b`, then over `a`. */
  lemma {:induction false} RunAppend(a: seq<Part>, b: seq<Part>, st: NestState)
    requires st.Valid()
    ensures Run(a + b, st) == Run(a, Run(b, st))
    decreases |b|
  {
    if b == [] {
      assert a + b == a;
    } else {
      var n := |b| - 1;
      assert (a + b)[..|a + b| - 1] == a + b[..n];
      assert (a + b)[|a + b| - 1] == b[n];
      RunAppend(a, b[..n], Step(st, b[n]));
    }
  }

  /** The tokens of a nested list, in order. */
  function Flat(items: seq<Item>): seq<Part>
    decreases items
  {
    if items == [] then []
    else
      (match items[0]
       case Leaf(p) => [p]
       case Group(g) => Flat(g)) + Flat(items[1..])
  }

  lemma {:induction false} FlatAppend(a: seq<Item>, b: seq<Item>)
    ensures Flat(a + b) == Flat(a) + Flat(b)
    decreases a
  {
    if a == [] {
      assert a + b == b;
    } else {
      var h := match a[0] case Leaf(p) => [p] case Group(g) => Flat(g);
      assert (a + b)[0] == a[0];
      assert (a + b)[1..] == a[1..] + b;
      assert Flat(a + b) == h + Flat(a[1..] + b);
      FlatAppend(a[1..], b);
    }
  }

  /** The tokens of all levels, the innermost (leftmost in the input) first. */
  function FlatLevels(levels: seq<seq<Item>>): seq<Part>
    decreases |levels|
  {
    if levels == [] then [] else Flat(levels[|levels| - 1]) + FlatLevels(levels[..|levels| - 1])
  }

  /** The parts that are not closing tags, in order. */
  function Strip(parts: seq<Part>): seq<Part>
    decreases |parts|
  {
    if parts == [] then []
    else
      var last := parts[|parts| - 1];
      Strip(parts[..|parts| - 1]) + (if last.Str? && IsCloser(last.s) then [] else [last])
  }

  /** Putting an item in front of the current level puts its tokens in front. */
  lemma UnshiftFlat(st: NestState, item: Item)
    requires st.Valid()
    ensures FlatLevels(Unshift(st, item).levels) == Flat([item]) + FlatLevels(st.levels)
  {
    var n := |st.levels| - 1;
    var ls := Unshift(st, item).levels;
    assert ls[..n] == st.levels[..n];
    FlatAppend([item], st.levels[n]);
  }

  /** A closing tag opens an empty level: no tokens are added. */
  lemma OpenLevelFlat(levels: seq<seq<Item>>)
    ensures FlatLevels(levels + [[]]) == FlatLevels(levels)
  {
    var ls := levels + [[]];
    assert ls[..|ls| - 1] == levels;
  }

  lemma FlatLevelsSnoc(levels: seq<seq<Item>>, x: seq<Item>)
    ensures FlatLevels(levels + [x]) == Flat(x) + FlatLevels(levels)
  {
    var ls := levels + [x];
    assert ls[..|ls| - 1] == levels;
  }

  lemma FlatCons(item: Item, rest: seq<Item>)
    ensures Flat([item] + rest) == Flat([item]) + Flat(rest)
    ensures item.Leaf? ==> Flat([item]) == [item.part]
    ensures item.Group? ==> Flat([item]) == Flat(item.items)
  {
    FlatAppend([item], rest);
    assert [item][1..] == [];
  }

  /** Folding the current level into its parent keeps the tokens in order. */
  lemma FoldFlat(below: seq<seq<Item>>, parent: seq<Item>, top: seq<Item>, part: Part)
    ensures FlatLevels(below + [[Group([Leaf(part)] + top)] + parent]) ==
              [part] + FlatLevels(below + [parent] + [top])
  {
    var current := [Leaf(part)] + top;
    calc {
      FlatLevels(below + [[Group(current)] + parent]);
      { FlatLevelsSnoc(below, [Group(current)] + parent); }
      Flat([Group(current)] + parent) + FlatLevels(below);
      { FlatCons(Group(current), parent); }
      Flat(current) + Flat(parent) + FlatLevels(below);
      { FlatCons(Leaf(part), top); }
      [part] + Flat(top) + Flat(parent) + FlatLevels(below);
      { FlatLevelsSnoc(below, parent); }
      [part] + (Flat(top) + FlatLevels(below + [parent]));
      { FlatLevelsSnoc(below + [parent], top); }
      [part] + FlatLevels(below + [parent] + [top]);
    }
  }

  /** One step puts its part (unless it is a closing tag) in front of all tokens kept
      so far, and loses or reorders nothing. */
  lemma StepFlat(st: NestState, part: Part)
    requires st.Valid()
    ensures FlatLevels(Step(st, part).levels) ==
              (if part.Str? && IsCloser(part.s) then [] else [part]) + FlatLevels(st.levels)
  {
    var n := |st.levels| - 1;
    assert Flat([Leaf(part)]) == [part] by {
      assert [Leaf(part)][1..] == [];
    }
    if !part.Str? {
      UnshiftFlat(st, Leaf(part));
    } else if IsCloser(part.s) {
      OpenLevelFlat(st.levels);
    } else if IsHtmlTag(part.s) && Some(ParseTagName(part.s)) == st.expected {
      if n > 0 {
        assert st.levels == st.levels[..n - 1] + [st.levels[n - 1]] + [st.levels[n]];
        FoldFlat(st.levels[..n - 1], st.levels[n - 1], st.levels[n], part);
      } else {
        var ls := Step(st, part).levels;
        assert ls == [[Leaf(part)] + st.levels[0]];
        assert ls[..0] == [] && st.levels[..0] == [];
        FlatAppend([Leaf(part)], st.levels[0]);
      }
    } else {
      UnshiftFlat(st, Leaf(part));
    }
  }

  /** A run keeps every part that is not a closing tag, in order, in front of what
      was already there. */
  lemma {:induction false} RunFlat(parts: seq<Part>, st: NestState)
    requires st.Valid()
    ensures FlatLevels(Run(parts, st).levels) == Strip(parts) + FlatLevels(st.levels)
    decreases |parts|
  {
    if parts != [] {
      var n := |parts| - 1;
      var last := parts[n];
      var kept := if last.Str? && IsCloser(last.s) then [] else [last];
      var st1 := Step(st, last);
      StepFlat(st, last);
      RunFlat(parts[..n], st1);
      assert Run(parts, st) == Run(parts[..n], st1);
      assert Strip(parts) == Strip(parts[..n]) + kept;
      assert Strip(parts[..n]) + (kept + FlatLevels(st.levels)) == Strip(parts) + FlatLevels(st.levels);
    }
  }

  /** How many closing tags were never matched by an opening tag. */
  function Unclosed(parts: seq<Part>): nat {
    |Final(parts).levels| - 1
  }

  /** Nesting reorders nothing: the result's tokens are the parts without the
      closing tags, except that tokens left of a closing tag that was never matched
      are lost; when every closing tag is matched, nothing is lost. */
  lemma NestKeepsOrder(parts: seq<Part>)
    requires Nest(parts).Ok?
    ensures var kept := Flat(Nest(parts).value);
            && |kept| <= |Strip(parts)|
            && kept == Strip(parts)[|Strip(parts)| - |kept|..]
            && (Unclosed(parts) == 0 ==> kept == Strip(parts))
  {
    var f := Final(parts);
    var n := |parts|;
    FlatLevelsSplit(f.levels);
    if n > 1 && EndsWithCloser(parts) {
      RunFlat(parts[..n - 1], Init(Some(ParseTagName(parts[n - 1].s))));
      assert parts == parts[..n - 1] + [parts[n - 1]];
      StripSnocCloser(parts);
    } else {
      RunFlat(parts, Init(None));
    }
    var empty: seq<seq<Item>> := [[]];
    assert FlatLevels(empty) == [] by {
      assert empty[..0] == [];
    }
  }

  /** The outermost level's tokens come last. */
  lemma {:induction false} FlatLevelsSplit(levels: seq<seq<Item>>)
    requires |levels| >= 1
    ensures FlatLevels(levels) == FlatLevels(levels[1..]) + Flat(levels[0])
    ensures |levels| == 1 ==> FlatLevels(levels) == Flat(levels[0])
    decreases |levels|
  {
    if |levels| == 1 {
      assert levels[..0] == [];
      assert levels[1..] == [];
    } else {
      var n := |levels| - 1;
      FlatLevelsSplit(levels[..n]);
      assert levels[..n][1..] == levels[1..][..n - 1];
      assert levels[1..][n - 1] == levels[n];
      assert levels[..n][0] == levels[0];
    }
  }

  lemma StripSnocCloser(parts: seq<Part>)
    requires EndsWithCloser(parts)
    ensures Strip(parts) == Strip(parts[..|parts| - 1])
  {
  }

  /** A tree of tokens: an element (opening tag, children, closing tag) or a single
      token. */
  datatype Tree = Element(open: string, body: seq<Tree>, close: string) | Atom(token: Part)

  function Tokens(t: Tree): seq<Part>
    decreases t
  {
    match t
    case Atom(p) => [p]
    case Element(o, body, c) => [Str(o)] + TokensOf(body) + [Str(c)]
  }

  function TokensOf(ts: seq<Tree>): seq<Part>
    decreases ts
  {
    if ts == [] then [] else Tokens(ts[0]) + TokensOf(ts[1..])
  }

  /** The nested list a tree should become: an element is an array headed by its
      opening tag; the closing tag is dropped. */
  function Shape(t: Tree): Item
    decreases t
  {
    match t
    case Atom(p) => Leaf(p)
    case Element(o, body, _) => Group([Leaf(Str(o))] + ShapeOf(body))
  }

  function ShapeOf(ts: seq<Tree>): seq<Item>
    decreases ts
  {
    if ts == [] then [] else [Shape(ts[0])] + ShapeOf(ts[1..])
  }

  /** A tree the nester reads back correctly inside an element whose closing name is
      `context`: every element's opening tag is a tag with the name of its closing
      tag, and no single token is a closing tag or an opening tag with the name of
      the element around it. */
  predicate WellFormed(t: Tree, context: Option<string>)
    decreases t
  {
    match t
    case Atom(p) => !(p.Str? && (IsCloser(p.s) || (IsHtmlTag(p.s) && Some(ParseTagName(p.s)) == context)))
    case Element(o, body, c) =>
      && IsHtmlTag(o) && !IsCloser(o) && IsCloser(c) && ParseTagName(o) == ParseTagName(c)
      && WellFormedAll(body, Some(ParseTagName(c)))
  }

  predicate WellFormedAll(ts: seq<Tree>, context: Option<string>)
    decreases ts
  {
    ts == [] || (WellFormed(ts[0], context) && WellFormedAll(ts[1..], context))
  }

  /** The tokens of a well-formed tree are read back as its shape, put in front of
      the current level; the rest of the state is unchanged. */
  lemma {:induction false} RunTree(t: Tree, st: NestState)
    requires st.Valid() && WellFormed(t, st.expected)
    ensures Run(Tokens(t), st) == Unshift(st, Shape(t))
    decreases t, 1
  {
    match t
    case Atom(p) =>
      assert Tokens(t)[..0] == [];
    case Element(o, body, c) =>
      var n := |st.levels| - 1;
      var st1 := Step(st, Str(c));
      assert st1 == NestState(st.levels + [[]], st.closers + [st.expected], Some(ParseTagName(c)));
      RunTrees(body, st1);
      var st2 := Run(TokensOf(body), st1);
      assert st2 == st1.(levels := st.levels + [ShapeOf(body)]) by {
        assert ShapeOf(body) + [] == ShapeOf(body);
      }
      RunAppend([Str(o)] + TokensOf(body), [Str(c)], st);
      assert Run([Str(c)], st) == st1 by {
        assert [Str(c)][..0] == [];
      }
      RunAppend([Str(o)], TokensOf(body), st1);
      assert Run([Str(o)], st2) == Step(st2, Str(o)) by {
        assert [Str(o)][..0] == [];
      }
      var ls := st.levels + [ShapeOf(body)];
      assert ls[..n] == st.levels[..n];
      assert ls[n] == st.levels[n];
  }

  /** The same for a sequence of well-formed trees. */
  lemma {:induction false} RunTrees(ts: seq<Tree>, st: NestState)
    requires st.Valid() && WellFormedAll(ts, st.expected)
    ensures Run(TokensOf(ts), st) ==
              st.(levels := st.levels[|st.levels| - 1 := ShapeOf(ts) + st.levels[|st.levels| - 1]])
    decreases ts, 2
  {
    var n := |st.levels| - 1;
    if ts == [] {
      assert ShapeOf(ts) + st.levels[n] == st.levels[n];
      assert st.levels[n := st.levels[n]] == st.levels;
    } else {
      RunTrees(ts[1..], st);
      var st1 := Run(TokensOf(ts[1..]), st);
      RunTree(ts[0], st1);
      RunAppend(Tokens(ts[0]), TokensOf(ts[1..]), st);
      assert [Shape(ts[0])] + (ShapeOf(ts[1..]) + st.levels[n]) == ShapeOf(ts) + st.levels[n];
    }
  }

  /** A well-formed element nests back into its shape: the result is its opening tag
      followed by the shapes of its children, every closing tag matched. */
  lemma NestTree(o: string, body: seq<Tree>, c: string)
    requires WellFormed(Element(o, body, c), None)
    ensures Nest(Tokens(Element(o, body, c))) == Ok([Leaf(Str(o))] + ShapeOf(body))
    ensures Unclosed(Tokens(Element(o, body, c))) == 0
  {
    var parts := Tokens(Element(o, body, c));
    var n := |parts|;
    assert parts[n - 1] == Str(c);
    assert parts[..n - 1] == [Str(o)] + TokensOf(body);
    var st := Init(Some(ParseTagName(c)));
    RunTrees(body, st);
    RunAppend([Str(o)], TokensOf(body), st);
    var st2 := Run(TokensOf(body), st);
    assert Run([Str(o)], st2) == Step(st2, Str(o)) by {
      assert [Str(o)][..0] == [];
    }
    assert ShapeOf(body) + [] == ShapeOf(body);
  }

  /** A single part nests as itself, unless it is a closing tag, which leaves
      nothing. */
  lemma NestSingle(p: Part)
    ensures Nest([p]) == if p.Str? && IsCloser(p.s) then Ok([]) else Ok([Leaf(p)])
  {
    assert [p][..0] == [];
    assert Init(None).Valid();
    assert Run([p], Init(None)) == Run([], Step(Init(None), p));
    assert Final([p]) == Step(Init(None), p);
    if !(p.Str? && IsCloser(p.s)) {
      assert Step(Init(None), p) == Unshift(Init(None), Leaf(p));
      assert [Leaf(p)] + [] == [Leaf(p)];
    }
  }
}
