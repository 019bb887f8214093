/** The parser's string predicates (`isCharWhitespace`, `isWhitespace`,
    `isHtmlComment`, `isHtmlTag`, `isInterpolationValue`), the tag-name extraction
    `parseTagName` and `escapeHtml`. Each predicate is written the way the source
    writes it (with `indexOf`/`lastIndexOf`), and a lemma says what it means. */
module Classify {
  import opened JsText

  /** `isCharWhitespace`: the empty string, a space, a tab or a line feed. */
  predicate IsCharWhitespace(s: string) {
    s == "" || s == " " || s == "\t" || s == "\n"
  }

  /** `BLANK_PATTERN.test(s)` for `/^\s+$/`. */
  predicate MatchesBlankPattern(s: string) {
    |s| >= 1 && AllSpace(s)
  }

  /** `isWhitespace`: the single-character fast path or the regular expression; the
      two together accept exactly the strings made only of `\s` (the empty one too). */
  predicate IsWhitespace(s: string): (b: bool)
    ensures b <==> AllSpace(s)
  {
    IsCharWhitespace(s) || MatchesBlankPattern(s)
  }

  /** `isHtmlComment`: `indexOf('<!--') === 0 && lastIndexOf('-->') === length - 3`. */
  predicate IsHtmlComment(s: string) {
    IndexOf(s, "<!--") == 0 && LastIndexOf(s, "-->") == |s| - 3
  }

  /** A comment is exactly a string that starts with `<!--` and ends with `-->`; the
      two delimiters may overlap, so `<!-->` is a comment. */
  lemma IsHtmlCommentIff(s: string)
    ensures IsHtmlComment(s) <==> StartsWith(s, "<!--") && EndsWith(s, "-->")
  {
    IndexOfIsZero(s, "<!--");
    LastIndexOfAtEnd(s, "-->");
  }

  /** `isHtmlTag`: not a comment, at least three characters, `<` first, `>` last, and
      the character after `<` is not a space, tab or line feed. */
  predicate IsHtmlTag(s: string) {
    !IsHtmlComment(s) && |s| >= 3 && s[0] == '<' && s[|s| - 1] == '>' &&
    !IsCharWhitespace([s[1]])
  }

  lemma IsHtmlTagIff(s: string)
    ensures IsHtmlTag(s) <==>
              && |s| >= 3 && s[0] == '<' && s[|s| - 1] == '>'
              && s[1] != ' ' && s[1] != '\t' && s[1] != '\n'
              && !(StartsWith(s, "<!--") && EndsWith(s, "-->"))
  {
    IsHtmlCommentIff(s);
  }

  /** The strings the unit tests reject. */
  lemma IsHtmlTagRejects()
    ensures !IsHtmlTag("") && !IsHtmlTag("<>") && !IsHtmlTag("div") && !IsHtmlTag("<div")
    ensures !IsHtmlTag("div>") && !IsHtmlTag("< div>") && !IsHtmlTag("<\ndiv>")
    ensures !IsHtmlTag("<\tdiv>")
  {
  }

  /** Only a string whose second character is `!` can be a comment. */
  lemma NotCommentWithoutBang(s: string)
    requires |s| < 2 || s[1] != '!'
    ensures !IsHtmlComment(s)
  {
    IsHtmlCommentIff(s);
    assert |s| >= 4 ==> s[..4][1] == s[1];
  }

  /** `<`, a second character that is neither `\s`-like nor `!`, and `>` last make a tag. */
  lemma TagShape(s: string)
    requires |s| >= 3 && s[0] == '<' && s[|s| - 1] == '>'
    requires s[1] != ' ' && s[1] != '\t' && s[1] != '\n' && s[1] != '!'
    ensures IsHtmlTag(s)
  {
    NotCommentWithoutBang(s);
  }

  /** The strings the unit tests accept. */
  lemma IsHtmlTagAccepts()
    ensures IsHtmlTag("<div>") && IsHtmlTag("<random:value>") && IsHtmlTag("<random-value>")
  {
    TagShape("<div>");
    TagShape("<random:value>");
    TagShape("<random-value>");
  }

  /** The accepted test string that carries an attribute. */
  lemma IsHtmlTagAcceptsAttribute()
    ensures IsHtmlTag("<div class=\"Component-element--modifier\">")
  {
    TagShape("<div class=\"Component-element--modifier\">");
  }

  /** `isInterpolationValue`: a non-empty string starting with `$[` or `$![` whose last
      `]` is its last character. */
  predicate IsInterpolationValue(s: string) {
    |s| > 0 && (IndexOf(s, "$[") == 0 || IndexOf(s, "$![") == 0) &&
    LastIndexOf(s, "]") == |s| - 1
  }

  lemma IsInterpolationValueIff(s: string)
    ensures IsInterpolationValue(s) <==>
              (StartsWith(s, "$[") || StartsWith(s, "$![")) && EndsWith(s, "]")
  {
    IndexOfIsZero(s, "$[");
    IndexOfIsZero(s, "$![");
    LastIndexOfAtEnd(s, "]");
  }

  /** A character that ends the name captured by `TAG_NAME_PATTERN`'s `[^\s\/>]+`. */
  predicate EndsName(c: char) {
    IsJsSpace(c) || c == '/' || c == '>'
  }

  /** The end of the run of name characters starting at `i`. */
  function NameEnd(s: string, i: nat): (r: nat)
    requires i <= |s|
    decreases |s| - i
    ensures i <= r <= |s|
    ensures forall k :: i <= k < r ==> !EndsName(s[k])
    ensures r < |s| ==> EndsName(s[r])
  {
    if i < |s| && !EndsName(s[i]) then NameEnd(s, i + 1) else i
  }

  /** Where `.*` stops: the first line terminator at or after `i`, or the end. */
  function LineEnd(s: string, i: nat): (r: nat)
    requires i <= |s|
    decreases |s| - i
    ensures i <= r <= |s|
    ensures forall k :: i <= k < r ==> !IsLineTerminator(s[k])
    ensures r < |s| ==> IsLineTerminator(s[r])
  {
    if i < |s| && !IsLineTerminator(s[i]) then LineEnd(s, i + 1) else i
  }

  /** `parseTagName`: replaces the match of `^<\/?([^\s\/>]+).*` with the captured
      name. The match runs from the start to the first line terminator; a tag that
      does not match is returned unchanged. */
  function ParseTagName(tag: string): string {
    if |tag| == 0 || tag[0] != '<' then tag
    else
      var start := if |tag| >= 2 && tag[1] == '/' then 2 else 1;
      var e := NameEnd(tag, start);
      if e == start then tag else tag[start..e] + tag[LineEnd(tag, e)..]
  }

  predicate IsTagNameText(n: string) {
    |n| >= 1 && forall k :: 0 <= k < |n| ==> !EndsName(n[k])
  }

  /** The name of a closing tag `</n>` is `n`. */
  lemma ParseClosingTagName(n: string)
    requires IsTagNameText(n)
    ensures ParseTagName("</" + n + ">") == n
  {
    var tag := "</" + n + ">";
    assert tag[2..2 + |n|] == n;
    assert tag[2 + |n|] == '>';
    assert NameEnd(tag, 2) == 2 + |n| by {
      NameEndAt(tag, 2, 2 + |n|);
    }
    assert LineEnd(tag, 2 + |n|) == |tag|;
  }

  /** Where the name run ends when the name text is known. */
  lemma NameEndAt(s: string, i: nat, e: nat)
    requires i <= e <= |s|
    requires forall k :: i <= k < e ==> !EndsName(s[k])
    requires e < |s| ==> EndsName(s[e])
    ensures NameEnd(s, i) == e
  {
  }

  /** On a single-line opening tag `<n rest`, where `rest` starts with a space, `/` or
      `>`, the name is `n`. */
  lemma ParseOpeningTagName(n: string, rest: string)
    requires IsTagNameText(n) && n[0] != '/'
    requires |rest| >= 1 && EndsName(rest[0])
    requires forall k :: 0 <= k < |rest| ==> !IsLineTerminator(rest[k])
    ensures ParseTagName("<" + n + rest) == n
  {
    var tag := "<" + n + rest;
    assert tag[1] == n[0];
    assert tag[1..1 + |n|] == n;
    assert tag[1 + |n|] == rest[0];
    NameEndAt(tag, 1, 1 + |n|);
    assert LineEnd(tag, 1 + |n|) == |tag| by {
      assert forall k :: 1 + |n| <= k < |tag| ==> tag[k] == rest[k - 1 - |n|];
    }
  }

  /** An opening tag that spans lines keeps everything from its first line break:
      `<n rest` + line break + `more` yields `n` + line break + `more`, which never
      equals the name of its closing tag. */
  lemma ParseMultiLineTagName(n: string, rest: string, brk: char, more: string)
    requires IsTagNameText(n) && n[0] != '/'
    requires |rest| >= 1 && rest[0] == ' '
    requires forall k :: 0 <= k < |rest| ==> !IsLineTerminator(rest[k])
    requires IsLineTerminator(brk)
    ensures ParseTagName("<" + n + rest + [brk] + more) == n + [brk] + more
  {
    var head := "<" + n + rest;
    var tag := head + [brk] + more;
    var e := 1 + |n|;
    HeadOfTag(n, rest, [brk] + more);
    assert tag == head + ([brk] + more);
    NameEndAt(tag, 1, e);
    LineEndAt(tag, e, |head|);
    assert tag[|head|..] == [brk] + more;
  }

  /** The first characters of `<n rest tail` are `<`, then `n`, then `rest`. */
  lemma HeadOfTag(n: string, rest: string, tail: string)
    requires |n| >= 1 && |rest| >= 1
    ensures var tag := "<" + n + rest + tail;
            && tag[0] == '<' && tag[1] == n[0] && tag[1..1 + |n|] == n
            && (forall k :: 1 + |n| <= k < 1 + |n| + |rest| ==> tag[k] == rest[k - 1 - |n|])
  {
  }

  /** Where the line ends when the line's text is known. */
  lemma LineEndAt(s: string, i: nat, e: nat)
    requires i <= e <= |s|
    requires forall k :: i <= k < e ==> !IsLineTerminator(s[k])
    requires e < |s| ==> IsLineTerminator(s[e])
    ensures LineEnd(s, i) == e
  {
  }

  /** The replacement text `escapeHtml` gives one character. */
  function EscapeChar(c: char): string {
    if c == '<' then "&lt;" else if c == '>' then "&gt;" else if c == '&' then "&amp;" else [c]
  }

  /** `s` has one of the entities `&lt;`, `&gt;`, `&amp;` at position `k`. */
  predicate EntityAt(s: string, k: nat)
    requires k <= |s|
  {
    StartsWith(s[k..], "&lt;") || StartsWith(s[k..], "&gt;") || StartsWith(s[k..], "&amp;")
  }

  /** `escapeHtml`: `text.replace(/[<>&]/g, ...)` with the three entities. The result
      holds no `<` and no `>`, and every `&` in it begins one of the entities. */
  function EscapeHtml(text: string): (r: string)
    ensures '<' !in r && '>' !in r
    ensures forall k :: 0 <= k < |r| && r[k] == '&' ==> EntityAt(r, k)
  {
    if text == [] then []
    else
      var rest := EscapeHtml(text[1..]);
      EscapeCharEntities(text[0], rest);
      EscapeChar(text[0]) + rest
  }

  /** Prefixing an escaped character keeps every `&` at the start of an entity. */
  lemma EscapeCharEntities(c: char, rest: string)
    requires forall k :: 0 <= k < |rest| && rest[k] == '&' ==> EntityAt(rest, k)
    ensures forall k :: 0 <= k < |EscapeChar(c) + rest| && (EscapeChar(c) + rest)[k] == '&' ==>
      EntityAt(EscapeChar(c) + rest, k)
  {
    var e := EscapeChar(c);
    var s := e + rest;
    forall k | 0 <= k < |s| && s[k] == '&'
      ensures EntityAt(s, k)
    {
      if k < |e| {
        assert k == 0;
        assert s[..|e|] == e;
      } else {
        assert s[k..] == rest[k - |e|..];
        assert rest[k - |e|] == '&';
      }
    }
  }

  /** The decoding that undoes `escapeHtml`: `&lt;`, `&gt;` and `&amp;` become the
      character they stand for; everything else is kept. */
  function UnescapeHtml(s: string): string
    decreases |s|
  {
    if s == [] then []
    else if StartsWith(s, "&lt;") then "<" + UnescapeHtml(s[4..])
    else if StartsWith(s, "&gt;") then ">" + UnescapeHtml(s[4..])
    else if StartsWith(s, "&amp;") then "&" + UnescapeHtml(s[5..])
    else [s[0]] + UnescapeHtml(s[1..])
  }

  /** Escaping loses nothing: every character comes back, in order. */
  lemma {:induction false} EscapeHtmlRoundTrip(text: string)
    ensures UnescapeHtml(EscapeHtml(text)) == text
  {
    if text != [] {
      EscapeHtmlRoundTrip(text[1..]);
      UnescapeChar(text[0], EscapeHtml(text[1..]));
      assert text == [text[0]] + text[1..];
    }
  }

  /** Unescaping one escaped character gives it back and goes on with the rest. */
  lemma UnescapeChar(c: char, rest: string)
    ensures UnescapeHtml(EscapeChar(c) + rest) == [c] + UnescapeHtml(rest)
  {
    var e := EscapeChar(c) + rest;
    if c == '<' {
      assert e[..4] == "&lt;" && e[4..] == rest;
    } else if c == '>' {
      assert e[..4] == "&gt;" && e[4..] == rest;
    } else if c == '&' {
      UnescapeAmp(rest);
    } else {
      assert e[0] == c && e[1..] == rest;
    }
  }

  lemma UnescapeAmp(rest: string)
    ensures UnescapeHtml("&amp;" + rest) == "&" + UnescapeHtml(rest)
  {
    var e := "&amp;" + rest;
    assert e[1] == 'a';
    assert e[..5] == "&amp;" && e[5..] == rest;
  }

  /** Text without `<`, `>` and `&` is left as it is. */
  lemma {:induction false} EscapeHtmlPlain(text: string)
    requires '<' !in text && '>' !in text && '&' !in text
    ensures EscapeHtml(text) == text
  {
    if text != [] {
      EscapeHtmlPlain(text[1..]);
      assert text == [text[0]] + text[1..];
    }
  }
}
