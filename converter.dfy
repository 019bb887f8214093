/** The `converter`: a character-level state machine that turns the literals of a
    tagged template, and the values between them, into a flat list of tokens (tags,
    comments, trimmed text and mapped values). Each of its operations is a method of
    the `Converter` class proved against a step function on `State`; the lemmas
    below say what a run of steps does to tags, text and line comments. */
module Converter {
  import opened Wrappers
  import opened JsText
  import opened Classify
  import opened Values

  /** The converter's fields. `previous` is `None` before the first character ever
      seen; `reset` leaves it alone. */
  datatype State = State(inAttributeValue: bool, inComment: bool, inTag: bool,
                         previous: Option<char>, result: string, tags: seq<Part>)

  /** The tags after `openTag` flushes the buffer: buffered text is emitted trimmed,
      unless it is empty or only whitespace. */
  function Flushed(st: State): seq<Part> {
    if st.result != "" && !IsWhitespace(st.result) then st.tags + [Str(Trim(st.result))]
    else st.tags
  }

  function CloseCommentStep(st: State): State {
    st.(inComment := false, result := "")
  }

  function CloseTagStep(st: State, c: char): State {
    st.(inTag := false, tags := st.tags + [Str(st.result + [c])], result := "")
  }

  function OpenCommentStep(st: State): State {
    st.(inComment := true)
  }

  function OpenTagStep(st: State, c: char): State {
    st.(tags := Flushed(st), inTag := true, result := [c])
  }

  /** `processChar`: the character is buffered; inside a tag a `"` opens a value
      after `=` and keeps an open value after a backslash, and a space, tab or line
      feed right after `<` means the `<` did not start a tag. */
  function ProcessCharStep(st: State, c: char): State {
    var buffered := st.(result := st.result + [c]);
    if !st.inTag then buffered
    else
      var inValue := if c == '"' then st.previous == Some('=') ||
                                      (st.inAttributeValue && st.previous == Some('\\'))
                     else st.inAttributeValue;
      var closes := st.previous == Some('<') && !st.inAttributeValue && IsCharWhitespace([c]);
      buffered.(inAttributeValue := inValue, inTag := if closes then false else st.inTag)
  }

  function ResetStep(st: State): State {
    State(false, false, false, st.previous, "", [])
  }

  /** One iteration of the loop over a literal's characters. */
  function CharStep(st: State, c: char): State {
    var next :=
      if c == '<' && !st.inAttributeValue then OpenTagStep(st, c)
      else if st.inTag && c == '>' && !st.inAttributeValue then CloseTagStep(st, c)
      else if c == '/' && st.previous == Some('/') then OpenCommentStep(st)
      else if st.inComment && c == '\n' then CloseCommentStep(st)
      else if !st.inComment then ProcessCharStep(st, c)
      else st;
    next.(previous := Some(c))
  }

  /** The state after the characters of `s`, one by one. */
  function ScanLiteral(st: State, s: string): State
    decreases |s|
  {
    if s == [] then st else CharStep(ScanLiteral(st, s[..|s| - 1]), s[|s| - 1])
  }

  /** The end of a literal: the next value is mapped and pushed, unless there is none
      or a line comment is still open. */
  function EndLiteral(st: State, values: seq<JsValue>): (State, seq<JsValue>) {
    if |values| > 0 && !st.inComment then (st.(tags := st.tags + [MapTaggedValue(values[0])]), values[1..])
    else (st, values)
  }

  /** The state and the values not yet consumed after the literals, in order. */
  function ConvertLiterals(st: State, values: seq<JsValue>, literals: seq<string>): (State, seq<JsValue>)
    decreases |literals|
  {
    if literals == [] then (st, values)
    else
      var run := ConvertLiterals(st, values, literals[..|literals| - 1]);
      EndLiteral(ScanLiteral(run.0, literals[|literals| - 1]), run.1)
  }

  /** What `convert` leaves in the converter, given the `previous` it starts with. */
  function ConvertState(literals: seq<string>, values: seq<JsValue>, previous: Option<char>): State {
    ConvertLiterals(State(false, false, false, previous, "", []), values, literals).0
  }

  /** The tokens `convert` returns. */
  function ConvertTokens(literals: seq<string>, values: seq<JsValue>, previous: Option<char>): seq<Part> {
    ConvertState(literals, values, previous).tags
  }

  class Converter {
    var inAttributeValue: bool
    var inComment: bool
    var inTag: bool
    var previous: Option<char>
    var result: string
    var tags: seq<Part>

    function Snapshot(): State
      reads this
    {
      State(inAttributeValue, inComment, inTag, previous, result, tags)
    }

    constructor ()
      ensures Snapshot() == State(false, false, false, None, "", [])
    {
      inAttributeValue := false;
      inComment := false;
      inTag := false;
      previous := None;
      result := "";
      tags := [];
    }

    method CloseComment()
      modifies this
      ensures Snapshot() == CloseCommentStep(old(Snapshot()))
    {
      inComment := false;
      result := "";
    }

    method CloseTag(c: char)
      modifies this
      ensures Snapshot() == CloseTagStep(old(Snapshot()), c)
    {
      var closed := result + [c];
      inTag := false;
      tags := tags + [Str(closed)];
      result := "";
    }

    method OpenComment()
      modifies this
      ensures Snapshot() == OpenCommentStep(old(Snapshot()))
    {
      inComment := true;
    }

    method OpenTag(c: char)
      modifies this
      ensures Snapshot() == OpenTagStep(old(Snapshot()), c)
    {
      var text := result;
      if text != "" {
        if !IsWhitespace(text) {
          text := Trim(text);
          tags := tags + [Str(text)];
        }
        result := "";
      }
      inTag := true;
      result := result + [c];
    }

    method ProcessChar(c: char)
      modifies this
      ensures Snapshot() == ProcessCharStep(old(Snapshot()), c)
    {
      var wasInValue := inAttributeValue;
      var before := previous;
      result := result + [c];
      if !inTag {
        return;
      }
      if c == '"' {
        inAttributeValue := before == Some('=') || (wasInValue && before == Some('\\'));
      }
      if before == Some('<') && !wasInValue && IsCharWhitespace([c]) {
        inTag := false;
      }
    }

    method Reset()
      modifies this
      ensures Snapshot() == ResetStep(old(Snapshot()))
    {
      inAttributeValue := false;
      inComment := false;
      inTag := false;
      result := "";
      tags := [];
    }

    /** One iteration of `convert`'s loop over a literal's characters. */
    method ScanChar(c: char)
      modifies this
      ensures Snapshot() == CharStep(old(Snapshot()), c)
    {
      if c == '<' && !inAttributeValue {
        OpenTag(c);
      } else if inTag && c == '>' && !inAttributeValue {
        CloseTag(c);
      } else if c == '/' && previous == Some('/') {
        OpenComment();
      } else if inComment && c == '\n' {
        CloseComment();
      } else if !inComment {
        ProcessChar(c);
      }
      previous := Some(c);
    }

    /** `convert`: reset, scan every literal, and after each one push the next value. */
    method Convert(literals: seq<string>, values: seq<JsValue>) returns (r: seq<Part>)
      modifies this
      ensures Snapshot() == ConvertState(literals, values, old(previous))
      ensures r == ConvertTokens(literals, values, old(previous))
    {
      Reset();
      ghost var start := Snapshot();
      var remaining := values;
      for k := 0 to |literals|
        invariant (Snapshot(), remaining) == ConvertLiterals(start, values, literals[..k])
      {
        ConvertLiteralsSnoc(start, values, literals, k);
        var literal := literals[k];
        ghost var before := Snapshot();
        var index := 0;
        while index < |literal|
          invariant 0 <= index <= |literal|
          invariant Snapshot() == ScanLiteral(before, literal[..index])
        {
          ScanLiteralSnoc(before, literal, index);
          ScanChar(literal[index]);
          index := index + 1;
        }
        assert literal[..|literal|] == literal;
        if |remaining| > 0 && !inComment {
          var next := remaining[0];
          remaining := remaining[1..];
          tags := tags + [MapTaggedValue(next)];
        }
      }
      assert literals[..|literals|] == literals;
      r := tags;
    }
  }

  /** Scanning one more character of a text. */
  lemma ScanLiteralSnoc(st: State, s: string, i: nat)
    requires i < |s|
    ensures ScanLiteral(st, s[..i + 1]) == CharStep(ScanLiteral(st, s[..i]), s[i])
  {
    assert s[..i + 1][..i] == s[..i];
  }

  /** Converting one more literal. */
  lemma ConvertLiteralsSnoc(st: State, values: seq<JsValue>, literals: seq<string>, k: nat)
    requires k < |literals|
    ensures var run := ConvertLiterals(st, values, literals[..k]);
            ConvertLiterals(st, values, literals[..k + 1]) == EndLiteral(ScanLiteral(run.0, literals[k]), run.1)
  {
    assert literals[..k + 1][..k] == literals[..k];
  }

  /** Scanning two pieces of text one after the other is scanning their
      concatenation. */
  lemma {:induction false} ScanLiteralAppend(st: State, a: string, b: string)
    ensures ScanLiteral(st, a + b) == ScanLiteral(ScanLiteral(st, a), b)
  {
    if b == [] {
      assert a + b == a;
    } else {
      ScanLiteralAppend(st, a, b[..|b| - 1]);
      assert (a + b)[..|a + b| - 1] == a + b[..|b| - 1];
    }
  }

  /** The character before position `k` of `s`, when `s` follows `previous`. */
  function CharBefore(previous: Option<char>, s: string, k: nat): Option<char>
    requires k <= |s|
  {
    if k == 0 then previous else Some(s[k - 1])
  }

  /** No `//` in `s` (counting the character before it), so no line comment opens. */
  predicate NoDoubleSlash(previous: Option<char>, s: string) {
    forall k :: 0 <= k < |s| && s[k] == '/' ==> CharBefore(previous, s, k) != Some('/')
  }

  /** Characters that change no flag inside a tag. */
  predicate PlainInTag(c: char) {
    c != '<' && c != '>' && c != '"'
  }

  /** Inside a tag and outside quotes, a run of plain characters (no `<`, `>`, `"`,
      no `//`, and not starting with a space right after `<`) is only buffered. */
  lemma {:induction false} TagRun(st: State, s: string)
    requires st.inTag && !st.inAttributeValue && !st.inComment
    requires forall k :: 0 <= k < |s| ==> PlainInTag(s[k])
    requires NoDoubleSlash(st.previous, s)
    requires |s| > 0 && st.previous == Some('<') ==> !IsCharWhitespace([s[0]])
    ensures ScanLiteral(st, s) == st.(result := st.result + s, previous := CharBefore(st.previous, s, |s|))
    decreases |s|
  {
    if s != [] {
      var n := |s| - 1;
      var t := s[..n];
      assert forall k :: 0 <= k < |t| ==> t[k] == s[k];
      assert NoDoubleSlash(st.previous, t) by {
        forall k | 0 <= k < |t| && t[k] == '/' ensures CharBefore(st.previous, t, k) != Some('/') {
          assert CharBefore(st.previous, s, k) != Some('/');
        }
      }
      TagRun(st, t);
      assert s[n] == '/' ==> CharBefore(st.previous, s, n) != Some('/');
      assert n > 0 ==> CharBefore(st.previous, t, n) == Some(s[n - 1]);
      assert st.result + t + [s[n]] == st.result + s;
    }
  }

  /** Inside a quoted attribute value, a run without `"` and without `//` is only
      buffered: `<` and `>` do not end the tag there. */
  lemma {:induction false} QuotedRun(st: State, s: string)
    requires st.inTag && st.inAttributeValue && !st.inComment
    requires forall k :: 0 <= k < |s| ==> s[k] != '"'
    requires NoDoubleSlash(st.previous, s)
    ensures ScanLiteral(st, s) == st.(result := st.result + s, previous := CharBefore(st.previous, s, |s|))
    decreases |s|
  {
    if s != [] {
      var n := |s| - 1;
      var t := s[..n];
      assert forall k :: 0 <= k < |t| ==> t[k] == s[k];
      assert NoDoubleSlash(st.previous, t) by {
        forall k | 0 <= k < |t| && t[k] == '/' ensures CharBefore(st.previous, t, k) != Some('/') {
          assert CharBefore(st.previous, s, k) != Some('/');
        }
      }
      QuotedRun(st, t);
      assert s[n] == '/' ==> CharBefore(st.previous, s, n) != Some('/');
      assert n > 0 ==> CharBefore(st.previous, t, n) == Some(s[n - 1]);
      assert st.result + t + [s[n]] == st.result + s;
    }
  }

  /** Outside tags and comments, text without `<` and without `//` is only buffered. */
  lemma {:induction false} TextRun(st: State, s: string)
    requires !st.inTag && !st.inAttributeValue && !st.inComment
    requires forall k :: 0 <= k < |s| ==> s[k] != '<'
    requires NoDoubleSlash(st.previous, s)
    ensures ScanLiteral(st, s) == st.(result := st.result + s, previous := CharBefore(st.previous, s, |s|))
    decreases |s|
  {
    if s != [] {
      var n := |s| - 1;
      var t := s[..n];
      assert forall k :: 0 <= k < |t| ==> t[k] == s[k];
      assert NoDoubleSlash(st.previous, t) by {
        forall k | 0 <= k < |t| && t[k] == '/' ensures CharBefore(st.previous, t, k) != Some('/') {
          assert CharBefore(st.previous, s, k) != Some('/');
        }
      }
      TextRun(st, t);
      assert s[n] == '/' ==> CharBefore(st.previous, s, n) != Some('/');
      assert n > 0 ==> CharBefore(st.previous, t, n) == Some(s[n - 1]);
      assert st.result + t + [s[n]] == st.result + s;
    }
  }

  /** A tag without quotes is one token: scanning `<` + body + `>` first emits the
      buffered text (trimmed, unless blank) and then the whole tag. */
  lemma TagToken(st: State, body: string)
    requires !st.inAttributeValue && !st.inComment
    requires forall k :: 0 <= k < |body| ==> PlainInTag(body[k])
    requires NoDoubleSlash(Some('<'), body)
    requires |body| > 0 ==> !IsCharWhitespace([body[0]])
    ensures ScanLiteral(st, "<" + body + ">") ==
              st.(inTag := false, result := "", tags := Flushed(st) + [Str("<" + body + ">")],
                  previous := Some('>'))
  {
    var s1 := ScanLiteral(st, "<");
    assert s1 == OpenTagStep(st, '<').(previous := Some('<')) by {
      assert "<"[..0] == [];
    }
    TagRun(s1, body);
    ScanLiteralAppend(st, "<", body);
    var inside := ScanLiteral(st, "<" + body);
    ScanLiteralAppend(st, "<" + body, ">");
    assert ScanLiteral(inside, ">") == CharStep(inside, '>') by {
      assert ">"[..0] == [];
    }
    assert inside.inTag;
  }

  /** A `>` inside a quoted attribute value does not end the tag: scanning
      `<` + head + `"` + value + `"` + `>`, where head ends with `=`, emits the whole
      text as one token. The value must not end with `=` or a backslash, either of
      which keeps the quote open. */
  lemma QuotedTagToken(st: State, head: string, value: string)
    requires !st.inAttributeValue && !st.inComment
    requires |head| > 0 && head[|head| - 1] == '='
    requires forall k :: 0 <= k < |head| ==> PlainInTag(head[k])
    requires NoDoubleSlash(Some('<'), head)
    requires !IsCharWhitespace([head[0]])
    requires forall k :: 0 <= k < |value| ==> value[k] != '"'
    requires NoDoubleSlash(Some('"'), value)
    requires |value| > 0 ==> value[|value| - 1] != '=' && value[|value| - 1] != '\\'
    ensures ScanLiteral(st, "<" + head + "\"" + value + "\">") ==
              st.(inTag := false, result := "", tags := Flushed(st) + [Str("<" + head + "\"" + value + "\">")],
                  previous := Some('>'))
  {
    var quoted := "\"" + value + "\"";
    OpenHead(st, head);
    var s2 := ScanLiteral(st, "<" + head);
    QuotedValue(s2, value);
    var s5 := ScanLiteral(s2, quoted);
    assert ScanLiteral(s5, ">") == CharStep(s5, '>') by {
      assert ">"[..0] == [];
    }
    ScanLiteralAppend(st, "<" + head, quoted);
    ScanLiteralAppend(st, "<" + head + quoted, ">");
    QuotedTagText(head, value);
  }

  lemma QuotedTagText(head: string, value: string)
    ensures "<" + head + ("\"" + value + "\"") + ">" == "<" + head + "\"" + value + "\">"
  {
  }

  /** `<` and the text of a tag up to a `=` open the tag and buffer the text. */
  lemma OpenHead(st: State, head: string)
    requires !st.inAttributeValue && !st.inComment
    requires |head| > 0 && head[|head| - 1] == '='
    requires forall k :: 0 <= k < |head| ==> PlainInTag(head[k])
    requires NoDoubleSlash(Some('<'), head)
    requires !IsCharWhitespace([head[0]])
    ensures ScanLiteral(st, "<" + head) ==
              st.(tags := Flushed(st), inTag := true, result := "<" + head, previous := Some('='))
  {
    var s1 := ScanLiteral(st, "<");
    assert s1 == OpenTagStep(st, '<').(previous := Some('<')) by {
      assert "<"[..0] == [];
    }
    TagRun(s1, head);
    ScanLiteralAppend(st, "<", head);
  }

  /** A quoted value right after `=` is buffered, and the closing quote ends it. */
  lemma QuotedValue(st: State, value: string)
    requires st.inTag && !st.inAttributeValue && !st.inComment && st.previous == Some('=')
    requires forall k :: 0 <= k < |value| ==> value[k] != '"'
    requires NoDoubleSlash(Some('"'), value)
    requires |value| > 0 ==> value[|value| - 1] != '=' && value[|value| - 1] != '\\'
    ensures ScanLiteral(st, "\"" + value + "\"") ==
              st.(result := st.result + ("\"" + value + "\""), previous := Some('"'))
  {
    var s3 := ScanLiteral(st, "\"");
    assert s3 == CharStep(st, '"') by {
      assert "\""[..0] == [];
    }
    assert s3.inAttributeValue && s3.inTag;
    QuotedRun(s3, value);
    var s4 := ScanLiteral(s3, value);
    assert s4.previous != Some('=') && s4.previous != Some('\\');
    var s5 := ScanLiteral(s4, "\"");
    assert s5 == CharStep(s4, '"') by {
      assert "\""[..0] == [];
    }
    ScanLiteralAppend(st, "\"", value);
    ScanLiteralAppend(st, "\"" + value, "\"");
    Regroup(st.result, "\"", value, "\"");
  }

  /** A quoted attribute value and the plain tag text after its closing quote, up to
      the next value or the end of the tag. */
  datatype QuotedPart = QuotedPart(value: string, after: string)

  function QuotedText(q: QuotedPart): string {
    "\"" + q.value + "\"" + q.after
  }

  function QuotedParts(qs: seq<QuotedPart>): string
    decreases |qs|
  {
    if qs == [] then "" else QuotedText(qs[0]) + QuotedParts(qs[1..])
  }

  /** A value that its next quote closes: no `"`, no `//`, and not ending with `=`
      or a backslash. */
  predicate ClosedValue(v: string) {
    && (forall k :: 0 <= k < |v| ==> v[k] != '"')
    && NoDoubleSlash(Some('"'), v)
    && (|v| > 0 ==> v[|v| - 1] != '=' && v[|v| - 1] != '\\')
  }

  /** Tag text with no quote-sensitive character and no `//` after a closing quote. */
  predicate PlainAfterQuote(a: string) {
    (forall k :: 0 <= k < |a| ==> PlainInTag(a[k])) && NoDoubleSlash(Some('"'), a)
  }

  /** Every value is closed by its own quote, the text after it changes no flag, and
      every part but the last ends with the `=` that opens the next value. */
  predicate QuotedPartsOk(qs: seq<QuotedPart>)
    decreases |qs|
  {
    qs == [] ||
    (&& ClosedValue(qs[0].value)
     && PlainAfterQuote(qs[0].after)
     && (|qs| > 1 ==> |qs[0].after| > 0 && qs[0].after[|qs[0].after| - 1] == '=')
     && QuotedPartsOk(qs[1..]))
  }

  /** The character last read after the parts. */
  function PartsEnd(previous: Option<char>, qs: seq<QuotedPart>): Option<char>
    decreases |qs|
  {
    if qs == [] then previous
    else PartsEnd(CharBefore(Some('"'), qs[0].after, |qs[0].after|), qs[1..])
  }

  /** One quoted value and the plain text after it are only buffered. */
  lemma QuotedPartStep(st: State, q: QuotedPart)
    requires st.inTag && !st.inAttributeValue && !st.inComment && st.previous == Some('=')
    requires ClosedValue(q.value) && PlainAfterQuote(q.after)
    ensures ScanLiteral(st, QuotedText(q)) ==
              st.(result := st.result + QuotedText(q), previous := CharBefore(Some('"'), q.after, |q.after|))
  {
    var quoted := "\"" + q.value + "\"";
    QuotedValue(st, q.value);
    var s1 := st.(result := st.result + quoted, previous := Some('"'));
    TagRun(s1, q.after);
    ScanLiteralAppend(st, quoted, q.after);
    AppendAssoc(st.result, quoted, q.after);
  }

  /** Inside a tag, right after a `=`, any number of quoted values with plain text
      between them are only buffered: a `>` inside a value does not end the tag. */
  lemma {:induction false} QuotedPartsRun(st: State, qs: seq<QuotedPart>)
    requires st.inTag && !st.inAttributeValue && !st.inComment
    requires qs != [] ==> st.previous == Some('=')
    requires QuotedPartsOk(qs)
    ensures ScanLiteral(st, QuotedParts(qs)) ==
              st.(result := st.result + QuotedParts(qs), previous := PartsEnd(st.previous, qs))
    decreases |qs|
  {
    if qs == [] {
      assert st.result + [] == st.result;
    } else {
      var q, rest := qs[0], qs[1..];
      QuotedPartStep(st, q);
      var s2 := st.(result := st.result + QuotedText(q), previous := CharBefore(Some('"'), q.after, |q.after|));
      QuotedPartsRun(s2, rest);
      ScanLiteralAppend(st, QuotedText(q), QuotedParts(rest));
      AppendAssoc(st.result, QuotedText(q), QuotedParts(rest));
    }
  }

  /** A tag whose attributes carry quoted values is one token, ending at the first
      `>` outside the quotes: scanning `<` + head + the quoted parts + `>`, where head
      ends with the `=` of the first value, emits the buffered text (trimmed, unless
      blank) and then the whole tag. */
  lemma QuotedAttributesToken(st: State, head: string, qs: seq<QuotedPart>)
    requires !st.inAttributeValue && !st.inComment
    requires |head| > 0 && head[|head| - 1] == '='
    requires forall k :: 0 <= k < |head| ==> PlainInTag(head[k])
    requires NoDoubleSlash(Some('<'), head)
    requires !IsCharWhitespace([head[0]])
    requires qs != [] && QuotedPartsOk(qs)
    ensures ScanLiteral(st, "<" + head + QuotedParts(qs) + ">") ==
              st.(inTag := false, result := "", tags := Flushed(st) + [Str("<" + head + QuotedParts(qs) + ">")],
                  previous := Some('>'))
  {
    OpenHead(st, head);
    var s2 := ScanLiteral(st, "<" + head);
    QuotedPartsRun(s2, qs);
    var s3 := ScanLiteral(s2, QuotedParts(qs));
    assert ScanLiteral(s3, ">") == CharStep(s3, '>') by {
      assert ">"[..0] == [];
    }
    ScanLiteralAppend(st, "<" + head, QuotedParts(qs));
    ScanLiteralAppend(st, "<" + head + QuotedParts(qs), ">");
  }

  /** The parts of `<input type="text" name="x">` after its first `=` are well-formed. */
  lemma InputTagPartsOk()
    ensures QuotedPartsOk([QuotedPart("text", " name="), QuotedPart("x", "")])
  {
    var qs := [QuotedPart("text", " name="), QuotedPart("x", "")];
    assert ClosedValue("text") && ClosedValue("x");
    assert PlainAfterQuote(" name=") && PlainAfterQuote("");
    assert QuotedPartsOk(qs[1..]) by {
      assert qs[1..][1..] == [];
    }
  }

  lemma InputTagText()
    ensures "<" + "input type=" + QuotedParts([QuotedPart("text", " name="), QuotedPart("x", "")]) + ">" ==
            "<input type=\"text\" name=\"x\">"
  {
    var qs := [QuotedPart("text", " name="), QuotedPart("x", "")];
    assert QuotedParts(qs[1..]) == "\"x\"" by {
      assert qs[1..][1..] == [];
      assert QuotedText(qs[1]) == "\"x\"";
    }
    assert QuotedText(qs[0]) == "\"text\" name=";
  }

  /** A tag with two quoted attribute values is one token. */
  lemma InputTagToken(st: State)
    requires !st.inAttributeValue && !st.inComment
    ensures ScanLiteral(st, "<input type=\"text\" name=\"x\">") ==
              st.(inTag := false, result := "", tags := Flushed(st) + [Str("<input type=\"text\" name=\"x\">")],
                  previous := Some('>'))
  {
    InputTagPartsOk();
    InputTagText();
    QuotedAttributesToken(st, "input type=", [QuotedPart("text", " name="), QuotedPart("x", "")]);
  }

  /** A line comment outside tags disappears together with the text buffered before
      it: scanning `//` + body + line feed emits nothing and empties the buffer. */
  lemma LineCommentDropped(st: State, body: string)
    requires !st.inTag && !st.inAttributeValue && !st.inComment
    requires st.previous != Some('/')
    requires forall k :: 0 <= k < |body| ==> body[k] != '<' && body[k] != '\n'
    ensures ScanLiteral(st, "//" + body + "\n") == st.(result := "", previous := Some('\n'))
  {
    var s2 := ScanLiteral(st, "//");
    assert s2 == CharStep(CharStep(st, '/'), '/') by {
      assert "//"[..1] == "/";
      assert "/"[..0] == [];
    }
    assert s2.inComment && !s2.inTag && !s2.inAttributeValue && s2.tags == st.tags;
    CommentRun(s2, body);
    ScanLiteralAppend(st, "//", body);
    var s3 := ScanLiteral(st, "//" + body);
    ScanLiteralAppend(st, "//" + body, "\n");
    assert ScanLiteral(s3, "\n") == CharStep(s3, '\n') by {
      assert "\n"[..0] == [];
    }
  }

  /** A literal that ends with `="` leaves the tag and its value open: the text so far
      stays in the buffer, so the value interpolated next is emitted before the tag. */
  lemma ValueOpenAtEnd(st: State, head: string)
    requires !st.inAttributeValue && !st.inComment
    requires |head| > 0 && head[|head| - 1] == '='
    requires forall k :: 0 <= k < |head| ==> PlainInTag(head[k])
    requires NoDoubleSlash(Some('<'), head)
    requires !IsCharWhitespace([head[0]])
    ensures ScanLiteral(st, "<" + head + "\"") ==
              st.(tags := Flushed(st), inTag := true, inAttributeValue := true,
                  result := "<" + head + "\"", previous := Some('"'))
  {
    OpenHead(st, head);
    var s2 := ScanLiteral(st, "<" + head);
    assert ScanLiteral(s2, "\"") == CharStep(s2, '"') by {
      assert "\""[..0] == [];
    }
    ScanLiteralAppend(st, "<" + head, "\"");
  }

  /** A `"` read right after another `"` does not reopen the value, even inside it:
      the value closes empty and the `>` after it ends the tag. */
  lemma QuoteThenClose(st: State)
    requires st.inTag && st.inAttributeValue && !st.inComment && st.previous == Some('"')
    ensures ScanLiteral(st, "\">") ==
              st.(inAttributeValue := false, inTag := false, tags := st.tags + [Str(st.result + "\">")],
                  result := "", previous := Some('>'))
  {
    assert ScanLiteral(st, "\">") == CharStep(CharStep(st, '"'), '>') by {
      assert "\">"[..1] == "\"";
      assert "\""[..0] == [];
    }
    assert st.result + ['"'] + ['>'] == st.result + "\">";
  }

  /** A `<` ends a line comment's text early: scanning `//` + pre + `<` + m + `>` +
      line feed, where pre and m hold no `<` and no line feed, emits the text
      buffered so far with the first `/` (`openTag` is tried before the comment flag),
      then the token `<>`, since the tag's characters were skipped as comment. */
  lemma TagInsideLineComment(st: State, pre: string, m: string)
    requires !st.inTag && !st.inAttributeValue && !st.inComment
    requires st.previous != Some('/')
    requires forall k :: 0 <= k < |pre| ==> pre[k] != '<' && pre[k] != '\n'
    requires forall k :: 0 <= k < |m| ==> m[k] != '<' && m[k] != '>' && m[k] != '\n'
    ensures ScanLiteral(st, "//" + pre + "<" + m + ">\n") ==
              st.(tags := Flushed(st.(result := st.result + "/")) + [Str("<>")], result := "",
                  previous := Some('\n'))
  {
    var head := "//" + pre + "<";
    CommentThenOpen(st, pre);
    var s4 := ScanLiteral(st, head);
    TagClosedInComment(s4, m);
    ScanLiteralAppend(st, head, m + ">\n");
    AppendAssoc(head, m, ">\n");
  }

  /** `TagInsideLineComment` with nothing buffered: the tokens `/` and `<>`. */
  lemma TagInsideLineCommentEmpty(st: State, pre: string, m: string)
    requires !st.inTag && !st.inAttributeValue && !st.inComment && st.result == ""
    requires st.previous != Some('/')
    requires forall k :: 0 <= k < |pre| ==> pre[k] != '<' && pre[k] != '\n'
    requires forall k :: 0 <= k < |m| ==> m[k] != '<' && m[k] != '>' && m[k] != '\n'
    ensures ScanLiteral(st, "//" + pre + "<" + m + ">\n") ==
              st.(tags := st.tags + [Str("/"), Str("<>")], previous := Some('\n'))
  {
    var tags := st.tags + [Str("/"), Str("<>")];
    FlushedSlash(st);
    assert Flushed(st.(result := st.result + "/")) + [Str("<>")] == tags;
    TagInsideLineComment(st, pre, m);
    assert st.(tags := tags, result := "", previous := Some('\n')) == st.(tags := tags, previous := Some('\n'));
  }

  /** An empty buffer with a `/` added is flushed as the text `/`. */
  lemma FlushedSlash(st: State)
    requires st.result == ""
    ensures Flushed(st.(result := st.result + "/")) == st.tags + [Str("/")]
  {
    TrimUntouched("/");
    assert !IsWhitespace("/");
    assert "" + "/" == "/";
  }

  /** The part of `TagInsideLineComment` up to the `<`. */
  lemma CommentThenOpen(st: State, pre: string)
    requires !st.inTag && !st.inAttributeValue && !st.inComment
    requires st.previous != Some('/')
    requires forall k :: 0 <= k < |pre| ==> pre[k] != '<' && pre[k] != '\n'
    ensures ScanLiteral(st, "//" + pre + "<") ==
              st.(tags := Flushed(st.(result := st.result + "/")), inComment := true, inTag := true,
                  result := "<", previous := Some('<'))
  {
    var s2 := ScanLiteral(st, "//");
    assert s2 == CharStep(CharStep(st, '/'), '/') by {
      assert "//"[..1] == "/";
      assert "/"[..0] == [];
    }
    assert s2 == st.(result := st.result + "/", inComment := true, previous := Some('/'));
    CommentRun(s2, pre);
    var s3 := ScanLiteral(s2, pre);
    assert ScanLiteral(s3, "<") == CharStep(s3, '<') by {
      assert "<"[..0] == [];
    }
    ScanLiteralAppend(st, "//", pre);
    ScanLiteralAppend(st, "//" + pre, "<");
  }

  /** The part of `TagInsideLineComment` after the `<`: the tag's characters are
      skipped, `>` emits `<>` and the line feed ends the comment. */
  lemma TagClosedInComment(st: State, m: string)
    requires st.inComment && st.inTag && !st.inAttributeValue && st.result == "<"
    requires forall k :: 0 <= k < |m| ==> m[k] != '<' && m[k] != '>' && m[k] != '\n'
    ensures ScanLiteral(st, m + ">\n") ==
              st.(tags := st.tags + [Str("<>")], inComment := false, inTag := false, result := "",
                  previous := Some('\n'))
  {
    CommentTagRun(st, m);
    var s5 := ScanLiteral(st, m);
    assert ScanLiteral(s5, ">\n") == CharStep(CharStep(s5, '>'), '\n') by {
      assert ">\n"[..1] == ">";
      assert ">"[..0] == [];
    }
    assert "<" + ['>'] == "<>";
    ScanLiteralAppend(st, m, ">\n");
  }

  /** Inside a line comment and a tag, characters other than `<`, `>` and line feed
      are skipped. */
  lemma {:induction false} CommentTagRun(st: State, s: string)
    requires st.inComment && st.inTag && !st.inAttributeValue
    requires forall k :: 0 <= k < |s| ==> s[k] != '<' && s[k] != '>' && s[k] != '\n'
    ensures ScanLiteral(st, s) == st.(previous := CharBefore(st.previous, s, |s|))
    decreases |s|
  {
    if s != [] {
      var t := s[..|s| - 1];
      assert forall k :: 0 <= k < |t| ==> t[k] == s[k];
      CommentTagRun(st, t);
    }
  }

  /** Inside a line comment, characters other than `<` and line feed are skipped. */
  lemma {:induction false} CommentRun(st: State, s: string)
    requires st.inComment && !st.inTag && !st.inAttributeValue
    requires forall k :: 0 <= k < |s| ==> s[k] != '<' && s[k] != '\n'
    ensures ScanLiteral(st, s) == st.(previous := CharBefore(st.previous, s, |s|))
    decreases |s|
  {
    if s != [] {
      var t := s[..|s| - 1];
      assert forall k :: 0 <= k < |t| ==> t[k] == s[k];
      CommentRun(st, t);
    }
  }

  /** Two states that differ at most in their tokens. */
  predicate SameButTags(x: State, y: State) {
    && x.inAttributeValue == y.inAttributeValue && x.inComment == y.inComment
    && x.inTag == y.inTag && x.previous == y.previous && x.result == y.result
  }

  /** The tokens already emitted never steer the scan. */
  lemma {:induction false} ScanIgnoresTags(x: State, y: State, s: string)
    requires SameButTags(x, y)
    ensures SameButTags(ScanLiteral(x, s), ScanLiteral(y, s))
    decreases |s|
  {
    if s != [] {
      ScanIgnoresTags(x, y, s[..|s| - 1]);
      CharStepIgnoresTags(ScanLiteral(x, s[..|s| - 1]), ScanLiteral(y, s[..|s| - 1]), s[|s| - 1]);
    }
  }

  lemma CharStepIgnoresTags(x: State, y: State, c: char)
    requires SameButTags(x, y)
    ensures SameButTags(CharStep(x, c), CharStep(y, c))
  {
  }

  /** The values placed between the literals never steer the scan either: the run
      with values and the run with none differ only in their tokens. */
  lemma {:induction false} ConvertIgnoresValues(st: State, values: seq<JsValue>, literals: seq<string>)
    ensures SameButTags(ConvertLiterals(st, values, literals).0, ConvertLiterals(st, [], literals).0)
    ensures ConvertLiterals(st, [], literals).1 == []
    decreases |literals|
  {
    if literals != [] {
      var init := literals[..|literals| - 1];
      var last := literals[|literals| - 1];
      ConvertIgnoresValues(st, values, init);
      var run := ConvertLiterals(st, values, init);
      var bare := ConvertLiterals(st, [], init);
      ScanIgnoresTags(run.0, bare.0, last);
    }
  }

  /** How many of the literals end outside a line comment: the ends at which a value,
      if one is left, is placed. */
  function OpenEnds(st: State, literals: seq<string>): nat
    decreases |literals|
  {
    if literals == [] then 0
    else OpenEnds(st, literals[..|literals| - 1]) +
         (if ConvertLiterals(st, [], literals).0.inComment then 0 else 1)
  }

  /** Values go between literals in order: after each literal at most one value is
      consumed, always the first one left, and none while a line comment is open, so
      the number consumed is the number of literal ends outside a comment, or all the
      values if there are fewer. */
  ghost predicate ConsumedInOrder(st: State, values: seq<JsValue>, literals: seq<string>) {
    var run := ConvertLiterals(st, values, literals);
    var used := |values| - |run.1|;
    && SuffixLeft(values, run.1, |literals|)
    && used == if OpenEnds(st, literals) < |values| then OpenEnds(st, literals) else |values|
  }

  /** `rest` is what is left of `values` after at most `n` were taken from the front. */
  ghost predicate SuffixLeft(values: seq<JsValue>, rest: seq<JsValue>, n: nat) {
    |values| - n <= |rest| <= |values| && rest == values[|values| - |rest|..]
  }

  lemma {:induction false} ValuesConsumed(st: State, values: seq<JsValue>, literals: seq<string>)
    ensures ConsumedInOrder(st, values, literals)
    decreases |literals|
  {
    if literals != [] {
      ValuesConsumed(st, values, literals[..|literals| - 1]);
      ConsumedStep(st, values, literals);
    }
  }

  /** Both facts after one more literal, from both before it. */
  lemma ConsumedStep(st: State, values: seq<JsValue>, literals: seq<string>)
    requires literals != []
    requires ConsumedInOrder(st, values, literals[..|literals| - 1])
    ensures ConsumedInOrder(st, values, literals)
  {
    BoundStep(st, values, literals);
    CountStep(st, values, literals);
  }

  /** The bounds after one more literal, from the bounds before it. */
  lemma BoundStep(st: State, values: seq<JsValue>, literals: seq<string>)
    requires literals != []
    requires SuffixLeft(values, ConvertLiterals(st, values, literals[..|literals| - 1]).1, |literals| - 1)
    ensures SuffixLeft(values, ConvertLiterals(st, values, literals).1, |literals|)
  {
    var vs := ConvertLiterals(st, values, literals[..|literals| - 1]).1;
    var sc := LastLiteralEnds(st, values, literals);
    EndLiteralBounds(sc, vs, values, |literals|);
  }

  /** The last literal ends the run: whatever its scan leaves, `EndLiteral` follows. */
  lemma LastLiteralEnds(st: State, values: seq<JsValue>, literals: seq<string>) returns (sc: State)
    requires literals != []
    ensures ConvertLiterals(st, values, literals) ==
              EndLiteral(sc, ConvertLiterals(st, values, literals[..|literals| - 1]).1)
  {
    var run := ConvertLiterals(st, values, literals[..|literals| - 1]);
    sc := ScanLiteral(run.0, literals[|literals| - 1]);
  }

  /** The end of a literal drops at most the first of the values left. */
  lemma EndLiteralBounds(sc: State, vs: seq<JsValue>, values: seq<JsValue>, n: nat)
    requires n >= 1 && SuffixLeft(values, vs, n - 1)
    ensures SuffixLeft(values, EndLiteral(sc, vs).1, n)
  {
    if |vs| > 0 && !sc.inComment {
      assert values[|values| - |vs[1..]|..] == vs[1..];
    }
  }

  /** The count after one more literal, from the count before it. */
  lemma CountStep(st: State, values: seq<JsValue>, literals: seq<string>)
    requires literals != []
    requires var init := literals[..|literals| - 1];
             var used := |values| - |ConvertLiterals(st, values, init).1|;
             && |ConvertLiterals(st, values, init).1| <= |values|
             && used == if OpenEnds(st, init) < |values| then OpenEnds(st, init) else |values|
    ensures var used := |values| - |ConvertLiterals(st, values, literals).1|;
            used == if OpenEnds(st, literals) < |values| then OpenEnds(st, literals) else |values|
  {
    ConvertIgnoresValues(st, values, literals);
  }

  /** A tag followed by a letter: the letter waits in the buffer. */
  lemma TagThenLetter(init: State)
    requires init == State(false, false, false, None, "", [])
    ensures ScanLiteral(init, "<p>a") == State(false, false, false, Some('a'), "a", [Str("<p>")])
  {
    TagToken(init, "p");
    assert "<" + "p" + ">" == "<p>";
    ScanLiteralAppend(init, "<p>", "a");
    assert "<p>" + "a" == "<p>a";
    var st1 := ScanLiteral(init, "<p>");
    assert ScanLiteral(st1, "a") == CharStep(st1, 'a') by { assert "a"[..0] == []; }
  }

  /** A closing tag flushes the buffered letter first. */
  lemma CloseAfterText(st: State)
    requires st == State(false, false, false, Some('a'), "a", [Str("<p>"), Str("x")])
    ensures ScanLiteral(st, "</p>") ==
              State(false, false, false, Some('>'), "", [Str("<p>"), Str("x"), Str("a"), Str("</p>")])
  {
    assert NoDoubleSlash(Some('<'), "/p") by {
      assert forall k :: 0 <= k < |"/p"| && "/p"[k] == '/' ==> k == 0;
    }
    TagToken(st, "/p");
    assert "<" + "/p" + ">" == "</p>";
    assert Trim("a") == "a";
  }

  /** Text still in the buffer when a literal ends is emitted only at the next `<`,
      so the value that follows the literal comes first. */
  lemma ValueBeforeBufferedText()
    ensures ConvertTokens(["<p>a", "</p>"], [JsString("x")], None) ==
              [Str("<p>"), Str("x"), Str("a"), Str("</p>")]
  {
    var init := State(false, false, false, None, "", []);
    TagThenLetter(init);
    var st2 := ScanLiteral(init, "<p>a");
    var lits := ["<p>a", "</p>"];
    var vs: seq<JsValue> := [JsString("x")];
    PlainStringUnchanged("x");
    var st3 := st2.(tags := [Str("<p>"), Str("x")]);
    assert vs[1..] == [] && lits[0] == "<p>a" && vs[0] == JsString("x");
    assert st2.tags + [MapTaggedValue(vs[0])] == [Str("<p>"), Str("x")];
    assert EndLiteral(st2, vs) == (st3, []);
    FirstLiteral(init, vs, lits, st3, []);
    CloseAfterText(st3);
    SecondLiteral(init, vs, lits);
  }

  /** Unfolding `ConvertLiterals` on the first literal. */
  lemma FirstLiteral(st: State, values: seq<JsValue>, literals: seq<string>, st1: State, rest: seq<JsValue>)
    requires |literals| >= 1
    requires EndLiteral(ScanLiteral(st, literals[0]), values) == (st1, rest)
    ensures ConvertLiterals(st, values, literals[..1]) == (st1, rest)
  {
    assert literals[..1][..0] == [];
  }

  /** Unfolding `ConvertLiterals` on the second literal. */
  lemma SecondLiteral(st: State, values: seq<JsValue>, literals: seq<string>)
    requires |literals| == 2
    ensures var run := ConvertLiterals(st, values, literals[..1]);
            ConvertLiterals(st, values, literals) == EndLiteral(ScanLiteral(run.0, literals[1]), run.1)
  {
    assert literals[..2] == literals;
  }

  /** A tag followed by text: the text waits in the buffer. */
  lemma TagThenText(init: State)
    requires init == State(false, false, false, None, "", [])
    ensures ScanLiteral(init, "<p>a ") == State(false, false, false, Some(' '), "a ", [Str("<p>")])
  {
    TagToken(init, "p");
    assert "<" + "p" + ">" == "<p>";
    var st1 := ScanLiteral(init, "<p>");
    assert NoDoubleSlash(Some('>'), "a ") by {
      assert forall k :: 0 <= k < |"a "| ==> "a "[k] != '/';
    }
    TextRun(st1, "a ");
    ScanLiteralAppend(init, "<p>", "a ");
    assert "<p>" + "a " == "<p>a ";
    assert st1.result + "a " == "a ";
  }

  /** The first literal of `ValueSkippedInComment` ends inside a line comment. */
  lemma CommentAtLiteralEnd(init: State)
    requires init == State(false, false, false, None, "", [])
    ensures ScanLiteral(init, "<p>a //") == State(false, true, false, Some('/'), "a /", [Str("<p>")])
  {
    TagThenText(init);
    var st2 := ScanLiteral(init, "<p>a ");
    ScanLiteralAppend(init, "<p>a ", "//");
    assert ScanLiteral(st2, "//") == CharStep(CharStep(st2, '/'), '/') by {
      assert "//"[..1] == "/";
      assert "/"[..0] == [];
    }
    assert "<p>a " + "//" == "<p>a //";
  }

  /** The second literal of `ValueSkippedInComment`: the line feed closes the
      comment, dropping the buffered text, and the closing tag follows. */
  lemma CommentClosedThenTag(st: State)
    requires st == State(false, true, false, Some('/'), "a /", [Str("<p>")])
    ensures ScanLiteral(st, "\n</p>") == State(false, false, false, Some('>'), "", [Str("<p>"), Str("</p>")])
  {
    var st4 := ScanLiteral(st, "\n");
    assert st4 == CharStep(st, '\n') by { assert "\n"[..0] == []; }
    assert st4 == State(false, false, false, Some('\n'), "", [Str("<p>")]);
    assert NoDoubleSlash(Some('<'), "/p") by {
      assert forall k :: 0 <= k < |"/p"| && "/p"[k] == '/' ==> k == 0;
    }
    TagToken(st4, "/p");
    ScanLiteralAppend(st, "\n", "</p>");
    assert "<" + "/p" + ">" == "</p>";
    assert "\n" + "</p>" == "\n</p>";
  }

  /** A tag up to the opening quote of an attribute value. */
  lemma QuoteOpened(init: State)
    requires init == State(false, false, false, None, "", [])
    ensures ScanLiteral(init, "<a h=\"") == State(true, false, true, Some('"'), "<a h=\"", [])
  {
    assert forall k :: 0 <= k < |"a h="| ==> PlainInTag("a h="[k]) && "a h="[k] != '/';
    ValueOpenAtEnd(init, "a h=");
    assert "<" + "a h=" + "\"" == "<a h=\"";
  }

  /** Inside a quoted value `//` still opens a line comment, and the comment swallows
      the closing quote and the `>`: the tag stays open. */
  lemma SlashesInQuotedValue(st: State)
    requires st == State(true, false, true, Some('"'), "<a h=\"", [])
    ensures ScanLiteral(st, "//\">") == State(true, true, true, Some('>'), "<a h=\"/", [])
  {
    assert ScanLiteral(st, "//") == CharStep(CharStep(st, '/'), '/') by {
      assert "//"[..1] == "/";
      assert "/"[..0] == [];
    }
    var st2 := ScanLiteral(st, "//");
    assert ScanLiteral(st2, "\">") == CharStep(CharStep(st2, '"'), '>') by {
      assert "\">"[..1] == "\"";
      assert "\""[..0] == [];
    }
    ScanLiteralAppend(st, "//", "\">");
    assert "//" + "\">" == "//\">";
  }

  /** So a template made of the single tag `<a h="//">` yields no token at all. */
  lemma SlashesInQuotedValueTokens()
    ensures ConvertTokens(["<a h=\"//\">"], [], None) == []
  {
    var init := State(false, false, false, None, "", []);
    var st2 := State(true, true, true, Some('>'), "<a h=\"/", []);
    SlashesTagState(init);
    var lits := ["<a h=\"//\">"];
    assert EndLiteral(st2, []) == (st2, []);
    FirstLiteral(init, [], lits, st2, []);
    assert lits[..1] == lits;
  }

  /** The whole literal `<a h="//">` leaves the converter in a comment, inside the tag. */
  lemma SlashesTagState(init: State)
    requires init == State(false, false, false, None, "", [])
    ensures ScanLiteral(init, "<a h=\"//\">") == State(true, true, true, Some('>'), "<a h=\"/", [])
  {
    QuoteOpened(init);
    var st1 := ScanLiteral(init, "<a h=\"");
    SlashesInQuotedValue(st1);
    ScanLiteralAppend(init, "<a h=\"", "//\">");
    assert "<a h=\"" + "//\">" == "<a h=\"//\">";
  }

  /** A literal that ends inside a line comment consumes no value; the value it
      skips goes after the next literal instead. */
  lemma ValueSkippedInComment()
    ensures ConvertTokens(["<p>a //", "\n</p>"], [JsString("x"), JsString("y")], None) ==
              [Str("<p>"), Str("</p>"), Str("x")]
  {
    var init := State(false, false, false, None, "", []);
    CommentAtLiteralEnd(init);
    var st3 := ScanLiteral(init, "<p>a //");
    var lits := ["<p>a //", "\n</p>"];
    var vs := [JsString("x"), JsString("y")];
    FirstLiteral(init, vs, lits, st3, vs);
    CommentClosedThenTag(st3);
    PlainStringUnchanged("x");
    SecondLiteral(init, vs, lits);
  }
}
