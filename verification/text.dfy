/** String helpers with the semantics of the Rust standard-library calls the tool
    makes: `contains`, `starts_with`, `trim`, `split(',')`, `join` and `lines`.
    Whitespace is the ASCII part of Rust's notion of whitespace. */
module Text {

  /** ASCII whitespace as Rust's `char::is_whitespace` and the regex class `\s` see it:
      space, tab, line feed, vertical tab, form feed, carriage return. */
  predicate IsSpace(c: char) {
    c == ' ' || c == '\t' || c == '\n' || c == '\U{000B}' || c == '\U{000C}' || c == '\r'
  }

  predicate AllSpace(s: string) {
    forall k :: 0 <= k < |s| ==> IsSpace(s[k])
  }

  predicate StartsWith(s: string, p: string) {
    |p| <= |s| && s[..|p|] == p
  }

  predicate EndsWith(s: string, p: string) {
    |p| <= |s| && s[|s| - |p|..] == p
  }

  /** `t` occurs in `s` starting at index `i`. */
  predicate OccursAt(s: string, t: string, i: int) {
    0 <= i && i + |t| <= |s| && s[i..i + |t|] == t
  }

  /** `str::contains` with a string pattern. */
  predicate Contains(s: string, t: string) {
    exists i | 0 <= i <= |s| - |t| :: OccursAt(s, t, i)
  }

  lemma ContainsAt(s: string, t: string, i: int)
    requires OccursAt(s, t, i)
    ensures Contains(s, t)
  {
  }

  /** A pattern holding a character the text lacks does not occur in it. */
  lemma MissingChar(s: string, t: string, c: char)
    requires c in t && c !in s
    ensures !Contains(s, t)
  {
    var k :| 0 <= k < |t| && t[k] == c;
    forall i | 0 <= i <= |s| - |t| ensures !OccursAt(s, t, i) {
      assert s[i + k] in s;
    }
  }

  /** A pattern is found wherever it is placed. */
  lemma ContainsInfix(a: string, t: string, b: string)
    ensures Contains(a + t + b, t)
  {
    assert (a + t + b)[|a|..|a| + |t|] == t;
    ContainsAt(a + t + b, t, |a|);
  }

  /** Adding text around a string keeps every pattern it contains. */
  lemma ContainsExtend(a: string, s: string, b: string, t: string)
    requires Contains(s, t)
    ensures Contains(a + s + b, t)
  {
    var i :| 0 <= i <= |s| - |t| && OccursAt(s, t, i);
    assert (a + s + b)[|a| + i..|a| + i + |t|] == s[i..i + |t|];
    ContainsAt(a + s + b, t, |a| + i);
  }

  /** Appending text keeps every pattern. */
  lemma ContainsAppend(a: string, b: string, t: string)
    requires Contains(a, t)
    ensures Contains(a + b, t)
  {
    var i :| 0 <= i <= |a| - |t| && OccursAt(a, t, i);
    assert (a + b)[i..i + |t|] == a[i..i + |t|];
    ContainsAt(a + b, t, i);
  }

  /** Prepending text keeps every pattern. */
  lemma ContainsPrepend(a: string, b: string, t: string)
    requires Contains(b, t)
    ensures Contains(a + b, t)
  {
    var i :| 0 <= i <= |b| - |t| && OccursAt(b, t, i);
    assert (a + b)[|a| + i..|a| + i + |t|] == b[i..i + |t|];
    ContainsAt(a + b, t, |a| + i);
  }

  /** No leading and no trailing whitespace. */
  predicate IsTrimmed(s: string) {
    s == [] || (!IsSpace(s[0]) && !IsSpace(s[|s| - 1]))
  }

  /** The end of the whitespace run starting at `i`. */
  function SkipSpace(s: string, i: nat): (j: nat)
    requires i <= |s|
    ensures i <= j <= |s|
    ensures forall k :: i <= k < j ==> IsSpace(s[k])
    ensures j == |s| || !IsSpace(s[j])
    decreases |s| - i
  {
    if i < |s| && IsSpace(s[i]) then SkipSpace(s, i + 1) else i
  }

  /** The start of the whitespace run ending at `j`. */
  function SkipSpaceBack(s: string, j: nat): (i: nat)
    requires j <= |s|
    ensures i <= j
    ensures forall k :: i <= k < j ==> IsSpace(s[k])
    ensures i == 0 || !IsSpace(s[i - 1])
    decreases j
  {
    if j > 0 && IsSpace(s[j - 1]) then SkipSpaceBack(s, j - 1) else j
  }

  /** `str::trim_start`: what follows the leading whitespace. */
  function TrimStart(s: string): string {
    s[SkipSpace(s, 0)..]
  }

  /** `str::trim_end`: what precedes the trailing whitespace. */
  function TrimEnd(s: string): string {
    s[..SkipSpaceBack(s, |s|)]
  }

  /** `str::trim`: the maximal infix of `s` without surrounding whitespace. */
  function Trim(s: string): (r: string)
    ensures IsTrimmed(r)
    ensures |r| <= |s|
    ensures exists a, b :: 0 <= a <= b <= |s| && r == s[a..b] && AllSpace(s[..a]) && AllSpace(s[b..])
  {
    var a := SkipSpace(s, 0);
    var t := TrimStart(s);
    assert t != [] ==> !IsSpace(t[0]);
    var n := SkipSpaceBack(t, |t|);
    assert t[..n] == s[a..a + n] && t[n..] == s[a + n..];
    assert AllSpace(s[..a]) && AllSpace(s[a + n..]);
    TrimEnd(t)
  }

  /** What trimming keeps is a piece of the text, and it keeps nothing exactly when
      the text is all whitespace. */
  lemma TrimInside(s: string)
    ensures Contains(s, Trim(s))
    ensures Trim(s) == [] <==> AllSpace(s)
  {
    var a := SkipSpace(s, 0);
    var t := s[a..];
    var b := SkipSpaceBack(t, |t|);
    assert Trim(s) == t[..b] == s[a..a + b];
    ContainsAt(s, Trim(s), a);
    if b == 0 {
      assert a == |s|;
    }
  }

  /** Trimming text that has no surrounding whitespace changes nothing. */
  lemma TrimTrimmed(s: string)
    requires IsTrimmed(s)
    ensures Trim(s) == s
  {
  }

  /** Index of the first occurrence of `c`. */
  function IndexOf(s: string, c: char): (i: nat)
    requires c in s
    ensures i < |s| && s[i] == c && c !in s[..i]
  {
    if s[0] == c then 0
    else
      var i := 1 + IndexOf(s[1..], c);
      assert s[..i] == [s[0]] + s[1..][..i - 1];
      i
  }

  /** `str::split` on a single character: every separator cuts, so there is
      always at least one piece and no piece holds the separator. */
  function Split(s: string, c: char): (r: seq<string>)
    ensures |r| >= 1
    ensures forall k :: 0 <= k < |r| ==> c !in r[k]
    decreases |s|
  {
    if c in s then
      var i := IndexOf(s, c);
      [s[..i]] + Split(s[i + 1..], c)
    else [s]
  }

  /** `[String]::join`: the parts with `sep` between neighbours. */
  function Join(parts: seq<string>, sep: string): string
  {
    if |parts| == 0 then ""
    else if |parts| == 1 then parts[0]
    else parts[0] + sep + Join(parts[1..], sep)
  }

  /** Joining the pieces of a split with the same separator gives the text back. */
  lemma {:induction false} JoinSplit(s: string, c: char)
    ensures Join(Split(s, c), [c]) == s
    decreases |s|
  {
    if c in s {
      var i := IndexOf(s, c);
      var rest := Split(s[i + 1..], c);
      JoinSplit(s[i + 1..], c);
      SplitAtFirst(s, c);
      JoinCons(s[..i], rest, [c]);
      AroundIndex(s, i);
    }
  }

  /** Splitting text that holds the separator gives the text before its first occurrence,
      then the split of the rest. */
  lemma SplitAtFirst(s: string, c: char)
    requires c in s
    ensures Split(s, c) == [s[..IndexOf(s, c)]] + Split(s[IndexOf(s, c) + 1..], c)
  {
  }

  /** In `a + [c] + b` with no `c` in `a`, the first `c` is the one after `a`. */
  lemma FirstSeparator(a: string, c: char, b: string)
    requires c !in a
    ensures var s := a + [c] + b;
      c in s && IndexOf(s, c) == |a| && s[..|a|] == a && s[|a| + 1..] == b
  {
    var s := a + [c] + b;
    assert s[|a|] == c;
    var i := IndexOf(s, c);
    assert s[..|a|] == a;
    forall j | 0 <= j < |a| ensures s[j] != c {
      assert s[j] == a[j];
    }
    forall j | |a| < j <= |s| ensures c in s[..j] {
      assert s[..j][|a|] == c;
    }
    assert s[|a| + 1..] == b;
  }

  /** A text is the part before a position, the character there, and the part after. */
  lemma AroundIndex(s: string, i: nat)
    requires i < |s|
    ensures s == s[..i] + [s[i]] + s[i + 1..]
  {
  }

  /** Splitting a join of separator-free parts gives the parts back. */
  lemma {:induction false} SplitJoin(parts: seq<string>, c: char)
    requires |parts| >= 1
    requires forall k :: 0 <= k < |parts| ==> c !in parts[k]
    ensures Split(Join(parts, [c]), c) == parts
    decreases |parts|
  {
    if |parts| > 1 {
      var s := Join(parts, [c]);
      assert s == parts[0] + [c] + Join(parts[1..], [c]);
      FirstSeparator(parts[0], c, Join(parts[1..], [c]));
      SplitAtFirst(s, c);
      var tail := parts[1..];
      forall k | 0 <= k < |tail| ensures c !in tail[k] {
        assert tail[k] == parts[k + 1];
      }
      SplitJoin(tail, c);
      assert parts == [parts[0]] + tail;
    } else {
      assert Join(parts, [c]) == parts[0];
    }
  }

  /** Joining two non-empty lists is joining their joins. */
  lemma {:induction false} JoinAppend(a: seq<string>, b: seq<string>, sep: string)
    requires |a| > 0 && |b| > 0
    ensures Join(a + b, sep) == Join(a, sep) + sep + Join(b, sep)
    decreases |a|
  {
    if |a| > 1 {
      assert (a + b)[1..] == a[1..] + b;
      JoinAppend(a[1..], b, sep);
    } else {
      assert (a + b)[1..] == b;
    }
  }

  /** Every part appears in the joined text. */
  lemma {:induction false} JoinContains(parts: seq<string>, sep: string, k: int)
    requires 0 <= k < |parts|
    ensures Contains(Join(parts, sep), parts[k])
    decreases |parts|
  {
    if |parts| == 1 {
      ContainsInfix([], parts[0], []);
      assert [] + parts[0] + [] == parts[0];
    } else if k == 0 {
      ContainsInfix([], parts[0], sep + Join(parts[1..], sep));
      assert [] + parts[0] + (sep + Join(parts[1..], sep)) == Join(parts, sep);
    } else {
      JoinContains(parts[1..], sep, k - 1);
      ContainsExtend(parts[0] + sep, Join(parts[1..], sep), [], parts[k]);
      assert parts[0] + sep + Join(parts[1..], sep) + [] == Join(parts, sep);
    }
  }

  /** Joined text ends with the last part. */
  lemma {:induction false} JoinEndsWithLast(parts: seq<string>, sep: string)
    requires |parts| > 0
    ensures EndsWith(Join(parts, sep), parts[|parts| - 1])
    decreases |parts|
  {
    if |parts| > 1 {
      JoinEndsWithLast(parts[1..], sep);
    }
  }

  /** Removes one carriage return ending a line. */
  function StripCr(line: string): (r: string)
    ensures |r| <= |line| && r == line[..|r|]
  {
    if |line| > 0 && line[|line| - 1] == '\r' then line[..|line| - 1] else line
  }

  /** `str::lines`: lines end at `\n` or `\r\n`; a final line ending is optional and
      does not start an extra empty line; a bare `\r` ending the text is kept. */
  function Lines(s: string): (r: seq<string>)
    ensures forall k :: 0 <= k < |r| ==> '\n' !in r[k]
    ensures s == [] <==> r == []
    decreases |s|
  {
    if s == [] then []
    else if '\n' in s then
      var i := IndexOf(s, '\n');
      assert StripCr(s[..i]) == s[..i][..|StripCr(s[..i])|];
      [StripCr(s[..i])] + Lines(s[i + 1..])
    else [s]
  }

  /** The text without its final line feed, if it has one. */
  function DropFinalNewline(s: string): string {
    if EndsWith(s, "\n") then s[..|s| - 1] else s
  }

  /** Re-joining the lines of carriage-return-free text loses only the final line feed. */
  lemma {:induction false} LinesJoin(s: string)
    requires '\r' !in s
    ensures Join(Lines(s), "\n") == DropFinalNewline(s)
    decreases |s|
  {
    if s != [] && '\n' in s {
      var i := IndexOf(s, '\n');
      var rest := s[i + 1..];
      LinesCons(s, i);
      DropCons(s, i);
      LinesJoin(rest);
      JoinCons(s[..i], Lines(rest), "\n");
    } else if s != [] {
      assert s[|s| - 1..] == [s[|s| - 1]];
      assert s[|s| - 1] in s;
    }
  }

  /** The first line of carriage-return-free text is the text up to its first line feed. */
  lemma LinesCons(s: string, i: nat)
    requires '\r' !in s && '\n' in s && i == IndexOf(s, '\n')
    ensures Lines(s) == [s[..i]] + Lines(s[i + 1..])
    ensures '\r' !in s[i + 1..]
  {
    NoCrInSlice(s, 0, i);
    NoCrInSlice(s, i + 1, |s|);
    assert s[0..i] == s[..i] && s[i + 1..|s|] == s[i + 1..];
    if i > 0 {
      assert s[..i][i - 1] != '\r';
    }
  }

  /** A slice of carriage-return-free text is carriage-return-free. */
  lemma NoCrInSlice(s: string, lo: nat, hi: nat)
    requires '\r' !in s && lo <= hi <= |s|
    ensures '\r' !in s[lo..hi]
  {
    forall k | 0 <= k < hi - lo ensures s[lo..hi][k] != '\r' { assert s[lo..hi][k] == s[lo + k]; }
  }

  /** Dropping the final line feed only affects what follows the first line feed. */
  lemma DropCons(s: string, i: nat)
    requires i < |s| && s[i] == '\n'
    ensures var rest := s[i + 1..];
      DropFinalNewline(s) == if rest == [] then s[..i] else s[..i] + "\n" + DropFinalNewline(rest)
  {
    var rest := s[i + 1..];
    assert s == s[..i] + "\n" + rest;
    if rest != [] {
      assert s[|s| - 1..] == rest[|rest| - 1..];
    }
  }

  /** Joining a first part in front of further parts. */
  lemma JoinCons(a: string, rest: seq<string>, sep: string)
    ensures Join([a] + rest, sep) == if rest == [] then a else a + sep + Join(rest, sep)
  {
    assert ([a] + rest)[1..] == rest;
  }
}
