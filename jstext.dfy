/** The JavaScript string built-ins the parser relies on, over `string` (= `seq<char>`):
    the `\s` character class, `indexOf`/`lastIndexOf`, `trim`, `split`/`join` on one
    character, and `replace(/\s+/g, ' ')`. */
module JsText {

  /** The characters matched by the regular-expression class `\s` (WhiteSpace and
      LineTerminator of ECMAScript); `String.prototype.trim` strips the same set. */
  predicate IsJsSpace(c: char) {
    var n := c as int;
    n == 0x09 || n == 0x0A || n == 0x0B || n == 0x0C || n == 0x0D || n == 0x20 ||
    n == 0xA0 || n == 0x1680 || (0x2000 <= n <= 0x200A) || n == 0x2028 || n == 0x2029 ||
    n == 0x202F || n == 0x205F || n == 0x3000 || n == 0xFEFF
  }

  /** The characters that the regular-expression wildcard `.` does not match. */
  predicate IsLineTerminator(c: char) {
    var n := c as int;
    n == 0x0A || n == 0x0D || n == 0x2028 || n == 0x2029
  }

  predicate AllSpace(s: string) {
    forall k :: 0 <= k < |s| ==> IsJsSpace(s[k])
  }

  predicate StartsWith(s: string, p: string) {
    |p| <= |s| && s[..|p|] == p
  }

  predicate EndsWith(s: string, p: string) {
    |p| <= |s| && s[|s| - |p|..] == p
  }

  predicate OccursAt(s: string, p: string, k: int) {
    0 <= k && k + |p| <= |s| && s[k..k + |p|] == p
  }

  /** `s.indexOf(p, i)`: the first occurrence at or after `i`, or -1. */
  function IndexOfFrom(s: string, p: string, i: nat): (r: int)
    decreases |s| - i
    ensures r == -1 || (i <= r && OccursAt(s, p, r))
    ensures r != -1 ==> forall k :: i <= k < r ==> !OccursAt(s, p, k)
    ensures r == -1 ==> forall k :: i <= k ==> !OccursAt(s, p, k)
  {
    if i + |p| > |s| then -1
    else if OccursAt(s, p, i) then i
    else IndexOfFrom(s, p, i + 1)
  }

  function IndexOf(s: string, p: string): int {
    IndexOfFrom(s, p, 0)
  }

  /** `s.lastIndexOf(p)` searching downwards from position `k`: the last occurrence at
      or before `k`, or -1. */
  function LastIndexOfFrom(s: string, p: string, k: int): (r: int)
    decreases if k < 0 then 0 else k + 1
    ensures r == -1 || (0 <= r <= k && OccursAt(s, p, r))
    ensures r != -1 ==> forall j :: r < j <= k ==> !OccursAt(s, p, j)
    ensures r == -1 ==> forall j :: j <= k ==> !OccursAt(s, p, j)
  {
    if k < 0 then -1
    else if OccursAt(s, p, k) then k
    else LastIndexOfFrom(s, p, k - 1)
  }

  function LastIndexOf(s: string, p: string): int {
    LastIndexOfFrom(s, p, |s| - |p|)
  }

  /** `s.indexOf(p) === 0` is exactly "s starts with p". */
  lemma IndexOfIsZero(s: string, p: string)
    ensures IndexOf(s, p) == 0 <==> StartsWith(s, p)
  {
  }

  /** `s.lastIndexOf(p) === s.length - p.length` is "s ends with p", except that it
      also holds when `s` is one character shorter than `p` (both sides are -1). */
  lemma LastIndexOfAtEnd(s: string, p: string)
    ensures LastIndexOf(s, p) == |s| - |p| <==> EndsWith(s, p) || |s| + 1 == |p|
  {
    if |s| < |p| {
      assert !OccursAt(s, p, |s| - |p|);
    }
  }

  /** The position of the first non-`\s` character at or after `i` (or `|s|`). */
  function SkipSpaces(s: string, i: nat): (r: nat)
    requires i <= |s|
    decreases |s| - i
    ensures i <= r <= |s|
    ensures forall k :: i <= k < r ==> IsJsSpace(s[k])
    ensures r < |s| ==> !IsJsSpace(s[r])
  {
    if i < |s| && IsJsSpace(s[i]) then SkipSpaces(s, i + 1) else i
  }

  /** The position just after the last non-`\s` character before `j` (or 0). */
  function SkipSpacesBack(s: string, j: nat): (r: nat)
    requires j <= |s|
    ensures r <= j
    ensures forall k :: r <= k < j ==> IsJsSpace(s[k])
    ensures r > 0 ==> !IsJsSpace(s[r - 1])
  {
    if j > 0 && IsJsSpace(s[j - 1]) then SkipSpacesBack(s, j - 1) else j
  }

  /** `s.trim()`: the text between the leading and the trailing run of `\s`. It is
      empty exactly when the text is all `\s`, and otherwise neither starts nor ends
      with `\s`. */
  function Trim(s: string): (r: string)
    ensures r == [] <==> AllSpace(s)
    ensures r != [] ==> !IsJsSpace(r[0]) && !IsJsSpace(r[|r| - 1])
    ensures !AllSpace(s) ==>
              exists i, j :: 0 <= i < j <= |s| && r == s[i..j] && AllSpace(s[..i]) && AllSpace(s[j..])
  {
    var i := SkipSpaces(s, 0);
    var j := SkipSpacesBack(s, |s|);
    if j <= i then []
    else
      assert AllSpace(s[..i]) && AllSpace(s[j..]);
      s[i..j]
  }

  /** A string that neither starts nor ends with `\s` is its own trim. */
  lemma TrimUntouched(s: string)
    requires |s| >= 1 && !IsJsSpace(s[0]) && !IsJsSpace(s[|s| - 1])
    ensures Trim(s) == s
  {
    assert SkipSpaces(s, 0) == 0;
    assert SkipSpacesBack(s, |s|) == |s|;
    assert s[0..|s|] == s;
  }

  /** Regrouping a concatenation of four texts. */
  lemma Regroup(a: string, b: string, c: string, d: string)
    ensures a + b + c + d == a + (b + c + d)
  {
  }

  lemma AppendAssoc(a: string, b: string, c: string)
    ensures a + b + c == a + (b + c)
  {
  }

  /** `s.slice(start, end)`: negative positions count from the end, positions are
      clamped to the string, and an empty range gives the empty string. */
  function Slice(s: string, start: int, end: int): (r: string)
    ensures |r| <= |s|
  {
    var from := if start < 0 then (if |s| + start < 0 then 0 else |s| + start)
                else if start > |s| then |s| else start;
    var to := if end < 0 then (if |s| + end < 0 then 0 else |s| + end)
              else if end > |s| then |s| else end;
    if from < to then s[from..to] else ""
  }

  /** `s.split(c)` for a one-character separator: the pieces between the
      separators, always at least one. */
  function Split(s: string, c: char): (r: seq<string>)
    ensures |r| >= 1
  {
    if s == [] then [""]
    else if s[0] == c then [""] + Split(s[1..], c)
    else
      var rest := Split(s[1..], c);
      [[s[0]] + rest[0]] + rest[1..]
  }

  /** `parts.join(c)`. */
  function Join(parts: seq<string>, c: char): string
    requires |parts| >= 1
  {
    if |parts| == 1 then parts[0] else parts[0] + [c] + Join(parts[1..], c)
  }

  /** Joining the pieces of a split with the separator gives back the string. */
  lemma {:induction false} JoinSplit(s: string, c: char)
    ensures Join(Split(s, c), c) == s
  {
    if s == [] {
    } else if s[0] == c {
      JoinSplit(s[1..], c);
      assert s == [c] + s[1..];
    } else {
      var rest := Split(s[1..], c);
      JoinSplit(s[1..], c);
      if |rest| == 1 {
        assert s == [s[0]] + s[1..];
      } else {
        assert Join(rest, c) == rest[0] + [c] + Join(rest[1..], c);
        assert ([[s[0]] + rest[0]] + rest[1..])[1..] == rest[1..];
        assert s == [s[0]] + s[1..];
      }
    }
  }

  /** Splitting at a first separator: the text before it is the first piece. */
  lemma {:induction false} SplitAfter(a: string, c: char, b: string)
    requires c !in a
    ensures Split(a + [c] + b, c) == [a] + Split(b, c)
  {
    if a == [] {
      assert a + [c] + b == [c] + b;
      assert ([c] + b)[1..] == b;
    } else {
      SplitAfter(a[1..], c, b);
      var s := a + [c] + b;
      assert s[0] == a[0] && s[1..] == a[1..] + [c] + b;
      assert [a[0]] + a[1..] == a;
    }
  }

  lemma {:induction false} JoinSnoc(parts: seq<string>, x: string, c: char)
    requires |parts| >= 1
    ensures Join(parts + [x], c) == Join(parts, c) + [c] + x
  {
    if |parts| > 1 {
      JoinSnoc(parts[1..], x, c);
      assert (parts + [x])[1..] == parts[1..] + [x];
    }
  }

  lemma {:induction false} JoinExtendLast(parts: seq<string>, x: string, c: char)
    requires |parts| >= 1
    ensures Join(parts[..|parts| - 1] + [parts[|parts| - 1] + x], c) == Join(parts, c) + x
  {
    if |parts| > 1 {
      var q := parts[..|parts| - 1] + [parts[|parts| - 1] + x];
      JoinExtendLast(parts[1..], x, c);
      assert q[0] == parts[0];
      assert q[1..] == parts[1..][..|parts| - 2] + [parts[1..][|parts| - 2] + x];
    }
  }

  /** The first piece of a split holds no separator, and the other pieces joined back
      are exactly the text after the first separator. */
  lemma {:induction false} SplitAtFirst(s: string, c: char)
    ensures c !in Split(s, c)[0]
    ensures c !in s ==> Split(s, c) == [s]
    ensures c in s ==> |Split(s, c)| >= 2 &&
                       s == Split(s, c)[0] + [c] + Join(Split(s, c)[1..], c)
  {
    if s == [] {
    } else if s[0] == c {
      JoinSplit(s[1..], c);
      assert s == [c] + s[1..];
    } else {
      var rest := Split(s[1..], c);
      SplitAtFirst(s[1..], c);
      assert s == [s[0]] + s[1..];
      if c in s {
        assert c in s[1..];
        assert ([[s[0]] + rest[0]] + rest[1..])[1..] == rest[1..];
      }
    }
  }

  /** The text with every `\s` character removed. */
  function NonSpace(s: string): string
    decreases |s|
  {
    if s == [] then [] else (if IsJsSpace(s[0]) then [] else [s[0]]) + NonSpace(s[1..])
  }

  /** Skipping a run of `\s` removes nothing but whitespace. */
  lemma {:induction false} SkipKeepsText(s: string, i: nat)
    requires i <= |s|
    ensures NonSpace(s[i..]) == NonSpace(s[SkipSpaces(s, i)..])
    decreases |s| - i
  {
    if i < |s| && IsJsSpace(s[i]) {
      assert s[i..][1..] == s[i + 1..];
      SkipKeepsText(s, i + 1);
    }
  }

  /** `s.replace(/\s+/g, ' ')`: every maximal run of `\s` becomes one space, and the
      other characters are kept, in order (`CollapseRun` and `CollapseAppend` below
      state this case by case). */
  function CollapseSpaces(s: string): (r: string)
    decreases |s|
    ensures |r| <= |s|
    ensures r != [] <==> s != []
    ensures r != [] ==> (r[0] == ' ' <==> IsJsSpace(s[0]))
    ensures forall k :: 0 <= k < |r| && IsJsSpace(r[k]) ==> r[k] == ' '
    ensures forall k :: 0 <= k < |r| - 1 && r[k] == ' ' ==> r[k + 1] != ' '
    ensures NonSpace(r) == NonSpace(s)
  {
    if s == [] then []
    else if IsJsSpace(s[0]) then
      var rest := CollapseSpaces(s[SkipSpaces(s, 1)..]);
      SkipKeepsText(s, 1);
      assert s[1..] == s[1..][0..];
      assert ([' '] + rest)[1..] == rest;
      [' '] + rest
    else
      var rest := CollapseSpaces(s[1..]);
      assert ([s[0]] + rest)[1..] == rest;
      [s[0]] + rest
  }

  /** `SkipSpaces` stops where the run of `\s` starting at `i` ends. */
  lemma {:induction false} SkipSpacesTo(s: string, i: nat, j: nat)
    requires i <= j <= |s|
    requires forall k :: i <= k < j ==> IsJsSpace(s[k])
    requires j < |s| ==> !IsJsSpace(s[j])
    ensures SkipSpaces(s, i) == j
    decreases j - i
  {
    if i < j {
      SkipSpacesTo(s, i + 1, j);
    }
  }

  /** A run of `\s` followed by text that does not start with `\s` collapses to one
      space in front of that text's collapse. */
  lemma CollapseLeadingRun(w: string, y: string)
    requires w != [] && AllSpace(w)
    requires y == [] || !IsJsSpace(y[0])
    ensures CollapseSpaces(w + y) == " " + CollapseSpaces(y)
  {
    var s := w + y;
    SkipSpacesTo(s, 1, |w|);
    assert s[|w|..] == y;
  }

  /** The collapse of text starting with `\s`: one space, then the collapse of what
      follows the run. */
  lemma CollapseSpaceHead(s: string, j: nat)
    requires s != [] && IsJsSpace(s[0]) && j == SkipSpaces(s, 1)
    ensures CollapseSpaces(s) == " " + CollapseSpaces(s[j..])
  {
  }

  /** The collapse of text starting with another character keeps that character. */
  lemma CollapseCharHead(s: string)
    requires s != [] && !IsJsSpace(s[0])
    ensures CollapseSpaces(s) == [s[0]] + CollapseSpaces(s[1..])
  {
  }

  /** A run of `\s` at the start of text that does not end in `\s` stops inside it. */
  lemma SkipInside(x: string)
    requires x != [] && IsJsSpace(x[0]) && !IsJsSpace(x[|x| - 1])
    ensures 1 <= SkipSpaces(x, 1) < |x|
  {
  }

  /** Text that does not end in `\s` collapses independently of what follows it. */
  lemma {:induction false} CollapseAppend(x: string, z: string)
    requires x == [] || !IsJsSpace(x[|x| - 1])
    ensures CollapseSpaces(x + z) == CollapseSpaces(x) + CollapseSpaces(z)
    decreases |x|
  {
    if x == [] {
      assert x + z == z;
    } else if IsJsSpace(x[0]) {
      var j := SkipSpaces(x, 1);
      SkipInside(x);
      CollapseAppend(x[j..], z);
      CollapseAppendSpace(x, z, j);
    } else {
      CollapseAppend(x[1..], z);
      CollapseAppendChar(x, z);
    }
  }

  /** Dropping a prefix of `x` from `x + z`. */
  lemma DropFromConcat(x: string, z: string, j: nat)
    requires j <= |x|
    ensures (x + z)[j..] == x[j..] + z
    ensures j < |x| ==> (x + z)[j] == x[j]
  {
  }

  /** The step of `CollapseAppend` where `x` starts with a run of `\s` ending at `j`. */
  lemma CollapseAppendSpace(x: string, z: string, j: nat)
    requires x != [] && IsJsSpace(x[0]) && j == SkipSpaces(x, 1) && j < |x|
    requires CollapseSpaces(x[j..] + z) == CollapseSpaces(x[j..]) + CollapseSpaces(z)
    ensures CollapseSpaces(x + z) == CollapseSpaces(x) + CollapseSpaces(z)
  {
    DropFromConcat(x, z, 0);
    DropFromConcat(x, z, j);
    SkipSpacesTo(x + z, 1, j);
    CollapseSpaceHead(x, j);
    CollapseSpaceHead(x + z, j);
    ConcatAssoc(" ", CollapseSpaces(x[j..]), CollapseSpaces(z));
  }

  /** The step of `CollapseAppend` where `x` starts with another character. */
  lemma CollapseAppendChar(x: string, z: string)
    requires x != [] && !IsJsSpace(x[0])
    requires CollapseSpaces(x[1..] + z) == CollapseSpaces(x[1..]) + CollapseSpaces(z)
    ensures CollapseSpaces(x + z) == CollapseSpaces(x) + CollapseSpaces(z)
  {
    DropFromConcat(x, z, 0);
    DropFromConcat(x, z, 1);
    CollapseCharHead(x);
    CollapseCharHead(x + z);
    ConcatAssoc([x[0]], CollapseSpaces(x[1..]), CollapseSpaces(z));
  }

  /** Concatenation is associative. */
  lemma ConcatAssoc(a: string, b: string, c: string)
    ensures a + (b + c) == (a + b) + c
  {
  }

  /** `replace(/\s+/g, ' ')` puts one space where each maximal run of `\s` was: with
      `w` such a run between `x` and `y`, the result is the collapse of `x`, one space,
      and the collapse of `y`. With `CollapseAppend` over text without `\s`, this fixes
      the result for every input. */
  lemma CollapseRun(x: string, w: string, y: string)
    requires x == [] || !IsJsSpace(x[|x| - 1])
    requires w != [] && AllSpace(w)
    requires y == [] || !IsJsSpace(y[0])
    ensures CollapseSpaces(x + w + y) == CollapseSpaces(x) + " " + CollapseSpaces(y)
  {
    ConcatAssoc(x, w, y);
    CollapseAppend(x, w + y);
    CollapseLeadingRun(w, y);
    ConcatAssoc(CollapseSpaces(x), " ", CollapseSpaces(y));
  }
}
