/** The entry-point patcher (`src/lib/patcher.rs`) as pure functions over the text of
    the program's `src/main.rs`: `Patch` injects the loader import and the
    `init_features();` call, `EnsureMod` declares the `features` module. Reading and
    writing the file are left to the caller. */
module Patcher {
  import opened Wrappers
  import opened Text
  import opened Seqs

  /** The call whose presence marks the file as patched. */
  const InitCall := "init_features();"
  /** The import whose presence in front of `main` suppresses a second import block. */
  const UseLoader := "use feature_loader::init_features;"
  /** The declaration and import block, `mod feature_loader;` then the import line. */
  const LoaderImport := "mod feature_loader;\n" + UseLoader + "\n"
  /** The marker comment placed in front of the import block. */
  const Banner := "\n// AUTO-GENERATED\n"
  /** What is inserted right after the opening brace of `main`. */
  const InjectedCall := "\n    " + InitCall
  const ModFeatures := "mod features;"

  datatype PatchError = MainNotFound

  /** Marker-based state of the entry file, as the patcher's guards read it. */
  datatype EntryState = Unpatched | ModuleDeclared | FullyPatched

  function StateOf(content: string): EntryState {
    if Contains(content, InitCall) then FullyPatched
    else if Contains(content, UseLoader) then ModuleDeclared
    else Unpatched
  }

  // ---------------------------------------------------------------------------
  // The pattern `fn\s+main\s*\(\s*\)\s*\{`
  // ---------------------------------------------------------------------------

  /** The end of the match of the entry-function pattern that starts at `i`, if there is
      one. Every whitespace run of the pattern is followed by a literal that is not
      whitespace, so reading each run greedily is the only way to match from `i`. */
  function MatchAt(s: string, i: nat): (r: Option<nat>)
    requires i <= |s|
    ensures r.Some? ==> i + 2 < r.value <= |s|
    ensures r.Some? ==> s[i] == 'f' && s[i + 1] == 'n' && s[r.value - 1] == '{'
  {
    if !OccursAt(s, "fn", i) then None
    else
      assert s[i..i + 2][0] == s[i] && s[i..i + 2][1] == s[i + 1];
      AfterFn(s, i + 2)
  }

  /** The rest of a match after `fn`: `\s+main`, then the parentheses and the brace. */
  function AfterFn(s: string, p: nat): (r: Option<nat>)
    requires p <= |s|
    ensures r.Some? ==> p < r.value <= |s| && s[r.value - 1] == '{'
  {
    var a := SkipSpace(s, p);
    if a == p || !OccursAt(s, "main", a) then None else AfterName(s, a + 4)
  }

  /** The rest of a match after `main`: `\s*\(`. */
  function AfterName(s: string, p: nat): (r: Option<nat>)
    requires p <= |s|
    ensures r.Some? ==> p < r.value <= |s| && s[r.value - 1] == '{'
  {
    var b := SkipSpace(s, p);
    if !OccursAt(s, "(", b) then None else AfterOpen(s, b + 1)
  }

  /** The rest of a match after `(`: `\s*\)`. */
  function AfterOpen(s: string, p: nat): (r: Option<nat>)
    requires p <= |s|
    ensures r.Some? ==> p < r.value <= |s| && s[r.value - 1] == '{'
  {
    var c := SkipSpace(s, p);
    if !OccursAt(s, ")", c) then None else AfterClose(s, c + 1)
  }

  /** The rest of a match after `)`: `\s*\{`. */
  function AfterClose(s: string, p: nat): (r: Option<nat>)
    requires p <= |s|
    ensures r.Some? ==> p < r.value <= |s| && s[r.value - 1] == '{'
  {
    var d := SkipSpace(s, p);
    if !OccursAt(s, "{", d) then None
    else
      assert s[d..d + 1][0] == s[d];
      Some(d + 1)
  }

  /** The text of a match: `fn`, whitespace, `main`, `(`, `)`, `{`, with optional
      whitespace between the last four. */
  function Signature(w1: string, w2: string, w3: string, w4: string): string {
    "fn" + (w1 + ("main" + (w2 + ("(" + (w3 + (")" + (w4 + "{")))))))
  }

  /** `m` is, as a whole, a match of `fn\s+main\s*\(\s*\)\s*\{`. */
  ghost predicate IsMainSignature(m: string) {
    exists w1, w2, w3, w4 ::
      |w1| > 0 && AllSpace(w1) && AllSpace(w2) && AllSpace(w3) && AllSpace(w4)
      && m == Signature(w1, w2, w3, w4)
  }

  /** Two adjacent slices make one. */
  lemma Glue(s: string, x: nat, y: nat, z: nat)
    requires x <= y <= z <= |s|
    ensures s[x..z] == s[x..y] + s[y..z]
  {
  }

  /** Splitting a slice that is known to be `a + b`. */
  lemma Peel(s: string, x: nat, z: nat, a: string, b: string)
    requires x <= z <= |s| && s[x..z] == a + b
    ensures x + |a| <= z && s[x..x + |a|] == a && s[x + |a|..z] == b
  {
    assert s[x..x + |a|] == s[x..z][..|a|];
    assert s[x + |a|..z] == s[x..z][|a|..];
  }

  /** A slice that is all whitespace, read character by character. */
  lemma SpaceRun(s: string, x: nat, y: nat)
    requires x <= y <= |s| && AllSpace(s[x..y])
    ensures forall k :: x <= k < y ==> IsSpace(s[k])
  {
    forall k | x <= k < y ensures IsSpace(s[k]) {
      assert s[x..y][k - x] == s[k];
    }
  }

  /** What the scanner matches is a signature. */
  lemma MatchAtSound(s: string, i: nat)
    requires i <= |s| && MatchAt(s, i).Some?
    ensures IsMainSignature(s[i..MatchAt(s, i).value])
  {
    var e := MatchAt(s, i).value;
    assert OccursAt(s, "fn", i) && AfterFn(s, i + 2) == Some(e);
    var w1, w2, w3, w4 := FnSound(s, i + 2);
    Glue(s, i, i + 2, e);
    assert s[i..e] == Signature(w1, w2, w3, w4);
  }

  /** A match after `fn` reads as whitespace, `main` and the rest of a signature. */
  lemma FnSound(s: string, p: nat) returns (w1: string, w2: string, w3: string, w4: string)
    requires p <= |s| && AfterFn(s, p).Some?
    ensures |w1| > 0 && AllSpace(w1) && AllSpace(w2) && AllSpace(w3) && AllSpace(w4)
    ensures s[p..AfterFn(s, p).value] == w1 + ("main" + (w2 + ("(" + (w3 + (")" + (w4 + "{"))))))
  {
    var e := AfterFn(s, p).value;
    var a := FnPart(s, p);
    w1 := s[p..a];
    w2, w3, w4 := NameSound(s, a + 4);
    var back := w2 + ("(" + (w3 + (")" + (w4 + "{"))));
    assert s[a + 4..e] == back;
    Glue(s, a, a + 4, e);
    assert s[a..e] == "main" + back;
    Glue(s, p, a, e);
  }

  /** Where `main` starts in a match after `fn`: behind a non-empty whitespace run. */
  lemma FnPart(s: string, p: nat) returns (a: nat)
    requires p <= |s| && AfterFn(s, p).Some?
    ensures p < a && a + 4 <= |s| && AllSpace(s[p..a]) && s[a..a + 4] == "main"
    ensures AfterName(s, a + 4) == AfterFn(s, p)
  {
    a := SkipSpace(s, p);
    RunIsSpace(s, p, a);
  }

  /** A match after `main` reads as whitespace, `(` and the rest of a signature. */
  lemma NameSound(s: string, p: nat) returns (w2: string, w3: string, w4: string)
    requires p <= |s| && AfterName(s, p).Some?
    ensures AllSpace(w2) && AllSpace(w3) && AllSpace(w4)
    ensures s[p..AfterName(s, p).value] == w2 + ("(" + (w3 + (")" + (w4 + "{"))))
  {
    var e, b := AfterName(s, p).value, SkipSpace(s, p);
    assert OccursAt(s, "(", b) && AfterOpen(s, b + 1) == Some(e);
    w2 := s[p..b];
    RunIsSpace(s, p, b);
    w3, w4 := OpenSound(s, b + 1);
    Glue(s, b, b + 1, e);
    Glue(s, p, b, e);
  }

  /** A match after `(` reads as whitespace, `)` and the rest of a signature. */
  lemma OpenSound(s: string, p: nat) returns (w3: string, w4: string)
    requires p <= |s| && AfterOpen(s, p).Some?
    ensures AllSpace(w3) && AllSpace(w4)
    ensures s[p..AfterOpen(s, p).value] == w3 + (")" + (w4 + "{"))
  {
    var e, c := AfterOpen(s, p).value, SkipSpace(s, p);
    assert OccursAt(s, ")", c) && AfterClose(s, c + 1) == Some(e);
    w3 := s[p..c];
    RunIsSpace(s, p, c);
    w4 := CloseSound(s, c + 1);
    Glue(s, c, c + 1, e);
    Glue(s, p, c, e);
  }

  /** A match after `)` reads as whitespace and `{`. */
  lemma CloseSound(s: string, p: nat) returns (w4: string)
    requires p <= |s| && AfterClose(s, p).Some?
    ensures AllSpace(w4) && s[p..AfterClose(s, p).value] == w4 + "{"
  {
    var d := SkipSpace(s, p);
    assert OccursAt(s, "{", d) && AfterClose(s, p) == Some(d + 1);
    w4 := s[p..d];
    RunIsSpace(s, p, d);
    Glue(s, p, d, d + 1);
  }

  lemma RunIsSpace(s: string, x: nat, y: nat)
    requires x <= y <= |s|
    requires forall k :: x <= k < y ==> IsSpace(s[k])
    ensures AllSpace(s[x..y])
  {
  }

  /** A whitespace run ending before a non-space character is skipped exactly. */
  lemma SkipSpaceTo(s: string, p: nat, q: nat)
    requires p <= q < |s|
    requires forall k :: p <= k < q ==> IsSpace(s[k])
    requires !IsSpace(s[q])
    ensures SkipSpace(s, p) == q
    decreases q - p
  {
    if p < q {
      SkipSpaceTo(s, p + 1, q);
    }
  }

  /** Every signature starting at `i` is the one the scanner finds. */
  lemma MatchAtComplete(s: string, i: nat, j: nat)
    requires i <= j <= |s|
    requires IsMainSignature(s[i..j])
    ensures MatchAt(s, i) == Some(j)
  {
    var w1, w2, w3, w4 :| |w1| > 0 && AllSpace(w1) && AllSpace(w2) && AllSpace(w3) && AllSpace(w4)
      && s[i..j] == Signature(w1, w2, w3, w4);
    MatchAtCompleteW(s, i, j, w1, w2, w3, w4);
  }

  lemma MatchAtCompleteW(s: string, i: nat, j: nat, w1: string, w2: string, w3: string, w4: string)
    requires i <= j <= |s|
    requires |w1| > 0 && AllSpace(w1) && AllSpace(w2) && AllSpace(w3) && AllSpace(w4)
    requires s[i..j] == Signature(w1, w2, w3, w4)
    ensures MatchAt(s, i) == Some(j)
  {
    var back := "(" + (w3 + (")" + (w4 + "{")));
    var o1 := i + 2;
    var o2 := o1 + |w1|;
    var o3 := o2 + 4;
    var o4 := o3 + |w2|;
    Peel(s, i, j, "fn" + (w1 + ("main" + w2)), back);
    assert "fn" + (w1 + ("main" + (w2 + back))) == "fn" + (w1 + ("main" + w2)) + back;
    BackMatches(s, o4, j, w3, w4);
    FrontMatches(s, i, j, w1, w2, back);
  }

  /** A signature is matched from its start once its part from `(` on is. */
  lemma FrontMatches(s: string, i: nat, j: nat, w1: string, w2: string, back: string)
    requires i <= j <= |s|
    requires |w1| > 0 && AllSpace(w1) && AllSpace(w2)
    requires s[i..j] == "fn" + (w1 + ("main" + (w2 + back)))
    requires var p := i + 2 + |w1| + 4 + |w2|;
      p < |s| && s[p] == '(' && AfterOpen(s, p + 1) == Some(j)
    ensures MatchAt(s, i) == Some(j)
  {
    LiteralThenRun(s, i, j, "fn", w1, "main" + (w2 + back));
    var q := i + 2 + |w1|;
    MainMatches(s, q, j, w2, back);
    FnStep(s, i + 2, q, j);
    assert OccursAt(s, "fn", i);
  }

  /** `main`, a run and `(` in place: the scanner's stage after `main` reaches the end. */
  lemma MainMatches(s: string, q: nat, j: nat, w2: string, back: string)
    requires q <= j <= |s| && AllSpace(w2)
    requires s[q..j] == "main" + (w2 + back)
    requires var o := q + 4 + |w2|;
      o < |s| && s[o] == '(' && AfterOpen(s, o + 1) == Some(j)
    ensures q + 4 <= |s| && s[q..q + 4] == "main" && AfterName(s, q + 4) == Some(j)
  {
    LiteralThenRun(s, q, j, "main", w2, back);
    NameStep(s, q + 4, q + 4 + |w2|, j);
  }

  /** The part of a signature from `(` on is matched by the scanner's last stages. */
  lemma BackMatches(s: string, p: nat, j: nat, w3: string, w4: string)
    requires p <= j <= |s|
    requires AllSpace(w3) && AllSpace(w4)
    requires s[p..j] == "(" + (w3 + (")" + (w4 + "{")))
    ensures p < |s| && s[p] == '(' && AfterOpen(s, p + 1) == Some(j)
  {
    LayoutBack(s, p, j, w3, w4);
    var o5 := p + 1;
    var o6 := o5 + |w3|;
    var o7 := o6 + 1;
    var o8 := o7 + |w4|;
    CloseStep(s, o7, o8);
    OpenStep(s, o5, o6, j);
  }

  /** A slice that reads as a literal, a whitespace run and a rest, cut at those three. */
  lemma LiteralThenRun(s: string, x: nat, z: nat, lit: string, w: string, rest: string)
    requires x <= z <= |s| && AllSpace(w) && s[x..z] == lit + (w + rest)
    ensures x + |lit| + |w| <= z && s[x..x + |lit|] == lit
    ensures AllSpace(s[x + |lit|..x + |lit| + |w|])
    ensures s[x + |lit| + |w|..z] == rest
  {
    Peel(s, x, z, lit, w + rest);
    Peel(s, x + |lit|, z, w, rest);
  }

  /** Where `(`, the third run, `)`, the fourth run and `{` of a signature sit. */
  lemma LayoutBack(s: string, p: nat, j: nat, w3: string, w4: string)
    requires p <= j <= |s|
    requires AllSpace(w3) && AllSpace(w4)
    requires s[p..j] == "(" + (w3 + (")" + (w4 + "{")))
    ensures j == p + 1 + |w3| + 1 + |w4| + 1
    ensures s[p] == '('
    ensures forall k :: p + 1 <= k < p + 1 + |w3| ==> IsSpace(s[k])
    ensures s[p + 1 + |w3|] == ')'
    ensures forall k :: p + 1 + |w3| + 1 <= k < j - 1 ==> IsSpace(s[k])
    ensures s[j - 1] == '{'
  {
    var t7 := w4 + "{";
    var t6 := ")" + t7;
    var t5 := w3 + t6;
    Peel(s, p, j, "(", t5);
    var o5 := p + 1;
    Peel(s, o5, j, w3, t6);
    var o6 := o5 + |w3|;
    Peel(s, o6, j, ")", t7);
    var o7 := o6 + 1;
    Peel(s, o7, j, w4, "{");
    var o8 := o7 + |w4|;
    SpaceRun(s, o5, o6);
    SpaceRun(s, o7, o8);
    assert s[p] == s[p..p + 1][0];
    assert s[o6] == s[o6..o6 + 1][0];
    assert s[o8] == s[o8..o8 + 1][0];
  }

  lemma CloseStep(s: string, p: nat, q: nat)
    requires p <= q < |s|
    requires forall k :: p <= k < q ==> IsSpace(s[k])
    requires s[q] == '{'
    ensures AfterClose(s, p) == Some(q + 1)
  {
    SkipSpaceTo(s, p, q);
  }

  lemma OpenStep(s: string, p: nat, q: nat, j: nat)
    requires p <= q < |s|
    requires forall k :: p <= k < q ==> IsSpace(s[k])
    requires s[q] == ')'
    requires AfterClose(s, q + 1) == Some(j)
    ensures AfterOpen(s, p) == Some(j)
  {
    SkipSpaceTo(s, p, q);
  }

  lemma NameStep(s: string, p: nat, q: nat, j: nat)
    requires p <= q < |s|
    requires AllSpace(s[p..q])
    requires s[q] == '('
    requires AfterOpen(s, q + 1) == Some(j)
    ensures AfterName(s, p) == Some(j)
  {
    SpaceRun(s, p, q);
    SkipSpaceTo(s, p, q);
  }

  lemma FnStep(s: string, p: nat, q: nat, j: nat)
    requires p < q && q + 4 <= |s|
    requires AllSpace(s[p..q])
    requires s[q..q + 4] == "main"
    requires AfterName(s, q + 4) == Some(j)
    ensures AfterFn(s, p) == Some(j)
  {
    SpaceRun(s, p, q);
    assert !IsSpace(s[q]) by { assert s[q] == s[q..q + 4][0]; }
    SkipSpaceTo(s, p, q);
    AfterFnAt(s, p, q);
  }

  /** Past the whitespace after `fn`, `main` leads on to the parentheses. */
  lemma AfterFnAt(s: string, p: nat, q: nat)
    requires p < q && q + 4 <= |s| && SkipSpace(s, p) == q && s[q..q + 4] == "main"
    ensures AfterFn(s, p) == AfterName(s, q + 4)
  {
    assert OccursAt(s, "main", q);
  }

  // ---------------------------------------------------------------------------
  // Leftmost match
  // ---------------------------------------------------------------------------

  /** The leftmost match starting at or after `i`, as (start, end). */
  function FindMainFrom(s: string, i: nat): (r: Option<(nat, nat)>)
    requires i <= |s|
    ensures r.Some? ==> i <= r.value.0 <= |s| && MatchAt(s, r.value.0) == Some(r.value.1)
    ensures r.Some? ==> forall k :: i <= k < r.value.0 ==> MatchAt(s, k).None?
    ensures r.None? ==> forall k :: i <= k <= |s| ==> MatchAt(s, k).None?
  {
    var f := (k: nat) => MatchAtOrNone(s, k);
    var hit := FirstHit(f, i, |s| + 1);
    assert forall k :: i <= k <= |s| ==> f(k) == MatchAt(s, k);
    match hit
    case None => None
    case Some(k) => Some((k, MatchAt(s, k).value))
  }

  /** `MatchAt` at every position, nothing past the end of the text. */
  function MatchAtOrNone(s: string, k: nat): Option<nat> {
    if k <= |s| then MatchAt(s, k) else None
  }

  /** `Regex::find` of the entry-function pattern on the whole text. */
  function FindMain(s: string): Option<(nat, nat)> {
    FindMainFrom(s, 0)
  }

  /** `s[st..en]` is the leftmost match of the entry-function pattern. */
  ghost predicate LeftmostMain(s: string, st: int, en: int) {
    && 0 <= st <= en <= |s|
    && IsMainSignature(s[st..en])
    && forall k, l :: 0 <= k < st && k <= l <= |s| ==> !IsMainSignature(s[k..l])
  }

  /** No part of the text matches the entry-function pattern. */
  ghost predicate NoMain(s: string) {
    forall k, l :: 0 <= k <= l <= |s| ==> !IsMainSignature(s[k..l])
  }

  /** The search finds exactly the leftmost signature, and fails exactly when there is none. */
  lemma FindMainLeftmost(s: string)
    ensures FindMain(s).Some? ==> LeftmostMain(s, FindMain(s).value.0, FindMain(s).value.1)
    ensures FindMain(s).None? <==> NoMain(s)
  {
    match FindMain(s)
    case Some((st, en)) =>
      MatchAtSound(s, st);
      forall k, l | 0 <= k < st && k <= l <= |s| ensures !IsMainSignature(s[k..l]) {
        if IsMainSignature(s[k..l]) {
          MatchAtComplete(s, k, l);
        }
      }
      assert !NoMain(s);
    case None =>
      forall k, l | 0 <= k <= l <= |s| ensures !IsMainSignature(s[k..l]) {
        if IsMainSignature(s[k..l]) {
          MatchAtComplete(s, k, l);
        }
      }
  }

  // ---------------------------------------------------------------------------
  // patch_main_rs
  // ---------------------------------------------------------------------------

  /** The text in front of `main` after patching: unchanged when it already imports
      the loader, otherwise followed by the marker comment and the import block. */
  function PatchedHead(head: string): string {
    if Contains(head, UseLoader) then head else head + Banner + LoaderImport
  }

  /** `patch_main_rs` on the text of the entry file, with the splice it evidently means:
      the text after the signature is taken from the end of the match. `Success` carries
      the text to write, or the unchanged text when the call is already there. The
      program itself is `PatchAsWritten` below. */
  function Patch(content: string): (r: Result<string, PatchError>)
    ensures Contains(content, InitCall) ==> r == Success(content)
  {
    if Contains(content, InitCall) then Success(content)
    else
      match FindMain(content)
      case None => Failure(MainNotFound)
      case Some((st, en)) =>
        Success(PatchedHead(content[..st]) + content[st..en] + InjectedCall + content[en..])
  }

  /** An unpatched file without an entry function is an error. */
  lemma PatchFailsIffNoMain(content: string)
    requires !Contains(content, InitCall)
    ensures Patch(content).Failure? <==> NoMain(content)
  {
    FindMainLeftmost(content);
  }

  /** A successful patch of an unpatched file splices the import block (unless the text in
      front of `main` already imports the loader) before the leftmost signature and the
      call after it; the corrected patch keeps the text on either side unchanged. */
  lemma PatchSplice(content: string)
    requires !Contains(content, InitCall) && Patch(content).Success?
    ensures exists st, en :: (LeftmostMain(content, st, en) &&
      (Contains(content[..st], UseLoader) ==>
        Patch(content).value == content[..st] + content[st..en] + InjectedCall + content[en..]) &&
      (!Contains(content[..st], UseLoader) ==>
        Patch(content).value == content[..st] + Banner + LoaderImport + content[st..en] + InjectedCall + content[en..]))
  {
    FindMainLeftmost(content);
    var (st, en) := FindMain(content).value;
    assert LeftmostMain(content, st, en);
  }

  /** The original head is a prefix and the original text after the signature a suffix
      of every patched file. */
  lemma PatchKeepsSurroundings(content: string)
    requires !Contains(content, InitCall) && Patch(content).Success?
    ensures exists st, en :: (LeftmostMain(content, st, en) &&
      StartsWith(Patch(content).value, content[..st]) &&
      EndsWith(Patch(content).value, content[st..en] + InjectedCall + content[en..]))
  {
    FindMainLeftmost(content);
    var (st, en) := FindMain(content).value;
    SpliceShape(content[..st], content[st..en], content[en..]);
    assert LeftmostMain(content, st, en);
  }

  lemma SpliceShape(head: string, m: string, tail: string)
    ensures StartsWith(PatchedHead(head) + m + InjectedCall + tail, head)
    ensures EndsWith(PatchedHead(head) + m + InjectedCall + tail, m + InjectedCall + tail)
  {
    var h, rest := PatchedHead(head), m + InjectedCall + tail;
    assert h + rest == PatchedHead(head) + m + InjectedCall + tail;
    assert StartsWith(h, head) by {
      if !Contains(head, UseLoader) {
        assert (head + (Banner + LoaderImport))[..|head|] == head;
      }
    }
    assert (h + rest)[..|head|] == h[..|head|];
    assert (h + rest)[|h + rest| - |rest|..] == rest;
  }

  /** A spliced file holds the call. */
  lemma SpliceHasCall(head: string, m: string, tail: string)
    ensures Contains(PatchedHead(head) + m + InjectedCall + tail, InitCall)
  {
    var indent := "\n    ";
    var pre := PatchedHead(head) + m;
    Regroup(pre, indent, InitCall, tail);
    ContainsInfix(pre + indent, InitCall, tail);
  }

  lemma Regroup(a: string, b: string, c: string, d: string)
    ensures a + (b + c) + d == a + b + c + d
  {
    assert a + (b + c) == a + b + c;
  }

  /** A spliced file holds the loader import. */
  lemma SpliceHasImport(head: string, m: string, tail: string)
    ensures Contains(PatchedHead(head) + m + InjectedCall + tail, UseLoader)
  {
    if Contains(head, UseLoader) {
      ImportAlreadyThere(head, m + InjectedCall + tail);
    } else {
      ImportInserted(head, m + InjectedCall + tail);
    }
    assert PatchedHead(head) + (m + InjectedCall + tail) == PatchedHead(head) + m + InjectedCall + tail;
  }

  lemma ImportAlreadyThere(head: string, rest: string)
    requires Contains(head, UseLoader)
    ensures Contains(head + rest, UseLoader)
  {
    ContainsExtend([], head, rest, UseLoader);
    assert [] + head + rest == head + rest;
  }

  lemma ImportInserted(head: string, rest: string)
    ensures Contains(head + Banner + LoaderImport + rest, UseLoader)
  {
    var pre := head + Banner + "mod feature_loader;\n";
    var post := "\n" + rest;
    assert head + Banner + LoaderImport + rest == pre + UseLoader + post;
    ContainsInfix(pre, UseLoader, post);
  }

  /** Every successful patch leaves a file that carries the call; one that had to
      insert it also carries the loader import. */
  lemma PatchReachesFullyPatched(content: string)
    requires Patch(content).Success?
    ensures StateOf(Patch(content).value) == FullyPatched
    ensures StateOf(content) != FullyPatched ==> Contains(Patch(content).value, UseLoader)
  {
    if !Contains(content, InitCall) {
      var (st, en) := FindMain(content).value;
      SpliceHasCall(content[..st], content[st..en], content[en..]);
      SpliceHasImport(content[..st], content[st..en], content[en..]);
    }
  }

  /** Patching is idempotent: a patched file is a fixed point. */
  lemma PatchIdempotent(content: string)
    requires Patch(content).Success?
    ensures Patch(Patch(content).value) == Patch(content)
  {
    PatchReachesFullyPatched(content);
  }

  /** Neither a `{` nor an `f` followed by `n` occurs in `t`, so no occurrence of `t`
      can straddle either end of a signature. */
  predicate CannotStraddle(t: string) {
    && '{' !in t
    && forall q :: 0 <= q < |t| && t[q] == 'f' ==> q + 1 < |t| && t[q + 1] != 'n'
  }

  /** An occurrence inside a slice is an occurrence in the slice. */
  lemma OccursInSlice(s: string, t: string, p: nat, lo: nat, hi: nat)
    requires OccursAt(s, t, p) && lo <= p && p + |t| <= hi <= |s|
    ensures Contains(s[lo..hi], t)
  {
    var u := s[lo..hi];
    forall k | 0 <= k < |t| ensures u[p - lo + k] == t[k] {
      assert u[p - lo + k] == s[p + k] == s[p..p + |t|][k];
    }
    assert u[p - lo..p - lo + |t|] == t;
    ContainsAt(u, t, p - lo);
  }

  /** Where an occurrence of such a pattern can lie relative to a match. */
  lemma NoStraddle(s: string, t: string, p: nat, st: nat, en: nat)
    requires st <= |s| && MatchAt(s, st) == Some(en)
    requires OccursAt(s, t, p) && CannotStraddle(t)
    ensures p + |t| <= st || (st <= p && p + |t| <= en) || en <= p
  {
  }

  lemma KeptInHead(head: string, m: string, tail: string, t: string)
    requires Contains(head, t)
    ensures Contains(PatchedHead(head) + m + InjectedCall + tail, t)
  {
    if !Contains(head, UseLoader) {
      ContainsAppend(head, Banner, t);
      ContainsAppend(head + Banner, LoaderImport, t);
    }
    ContainsAppend(PatchedHead(head), m, t);
    ContainsAppend(PatchedHead(head) + m, InjectedCall, t);
    ContainsAppend(PatchedHead(head) + m + InjectedCall, tail, t);
  }

  lemma KeptInMatch(head: string, m: string, tail: string, t: string)
    requires Contains(m, t)
    ensures Contains(PatchedHead(head) + m + InjectedCall + tail, t)
  {
    ContainsPrepend(PatchedHead(head), m, t);
    ContainsAppend(PatchedHead(head) + m, InjectedCall, t);
    ContainsAppend(PatchedHead(head) + m + InjectedCall, tail, t);
  }

  lemma KeptInTail(head: string, m: string, tail: string, t: string)
    requires Contains(tail, t)
    ensures Contains(PatchedHead(head) + m + InjectedCall + tail, t)
  {
    ContainsPrepend(PatchedHead(head) + m + InjectedCall, tail, t);
  }

  /** Patching keeps every pattern of the file that cannot straddle the signature. */
  lemma PatchKeepsPattern(content: string, t: string)
    requires Patch(content).Success? && Contains(content, t) && CannotStraddle(t)
    ensures Contains(Patch(content).value, t)
  {
    if !Contains(content, InitCall) {
      var (st, en) := FindMain(content).value;
      assert Patch(content).value == PatchedHead(content[..st]) + content[st..en] + InjectedCall + content[en..];
      var p :| 0 <= p <= |content| - |t| && OccursAt(content, t, p);
      NoStraddle(content, t, p, st, en);
      KeptAround(content, t, p, st, en);
    }
  }

  /** An occurrence wholly in front of, inside or behind the signature survives the splice. */
  lemma KeptAround(s: string, t: string, p: nat, st: nat, en: nat)
    requires st <= en <= |s| && OccursAt(s, t, p)
    requires p + |t| <= st || (st <= p && p + |t| <= en) || en <= p
    ensures Contains(PatchedHead(s[..st]) + s[st..en] + InjectedCall + s[en..], t)
  {
    var head, m, tail := s[..st], s[st..en], s[en..];
    if p + |t| <= st {
      OccursInSlice(s, t, p, 0, st);
      assert s[0..st] == head;
      KeptInHead(head, m, tail, t);
    } else if p + |t| <= en {
      OccursInSlice(s, t, p, st, en);
      KeptInMatch(head, m, tail, t);
    } else {
      OccursInSlice(s, t, p, en, |s|);
      assert s[en..|s|] == tail;
      KeptInTail(head, m, tail, t);
    }
  }

  lemma ModFeaturesCannotStraddle()
    ensures CannotStraddle(ModFeatures)
  {
    forall q | 0 <= q < |ModFeatures| && ModFeatures[q] == 'f'
      ensures q + 1 < |ModFeatures| && ModFeatures[q + 1] != 'n'
    {
      assert q == 4;
    }
  }

  /** In particular patching keeps the `mod features;` declaration. */
  lemma PatchKeepsModFeatures(content: string)
    requires Patch(content).Success? && Contains(content, ModFeatures)
    ensures Contains(Patch(content).value, ModFeatures)
  {
    ModFeaturesCannotStraddle();
    PatchKeepsPattern(content, ModFeatures);
  }

  // ---------------------------------------------------------------------------
  // patch_main_rs as written
  // ---------------------------------------------------------------------------

  /** How `patch_main_rs` ends: the text the file then holds, the error it returns, or a
      panic. */
  datatype PatchRun = Wrote(text: string) | Failed(error: PatchError) | Panicked

  /** A result of the corrected patch, read as a run. */
  function RunOf(r: Result<string, PatchError>): (run: PatchRun)
    ensures run.Wrote? <==> r.Success?
    ensures r.Success? ==> run.text == r.value
    ensures r.Failure? ==> run == Failed(r.error)
  {
    match r
    case Success(text) => Wrote(text)
    case Failure(e) => Failed(e)
  }

  /** `patch_main_rs` exactly as written. `tail` is the text from the match on, but it is
      cut at the end of the match measured in the whole text, so what follows the call
      is the text from `st + en` on, and the cut panics when that lies past the end. A
      file that already holds the call is not written at all; `Wrote` then carries the
      text it keeps. */
  function PatchAsWritten(content: string): (r: PatchRun)
    ensures Contains(content, InitCall) ==> r == Wrote(content)
  {
    if Contains(content, InitCall) then Wrote(content)
    else
      match FindMain(content)
      case None => Failed(MainNotFound)
      case Some((st, en)) =>
        var tail := content[st..];
        if en > |tail| then Panicked
        else Wrote(PatchedHead(content[..st]) + content[st..en] + InjectedCall + tail[en..])
  }

  /** The leftmost signature is the one the search reports. */
  lemma LeftmostIsFound(s: string, st: nat, en: nat)
    requires LeftmostMain(s, st, en)
    ensures FindMain(s) == Some((st, en))
  {
    FindMainLeftmost(s);
    var (st', en') := FindMain(s).value;
    MatchAtComplete(s, st, en);
    MatchAtComplete(s, st', en');
  }

  /** As written, an unpatched file fails with an error exactly when it has no signature,
      panics exactly when the end of the signature plus its start lies past the end of
      the text, and otherwise loses the `st` characters right after the brace, where the
      corrected patch keeps everything after the signature. */
  lemma AsWrittenSplice(content: string, st: nat, en: nat)
    requires !Contains(content, InitCall) && LeftmostMain(content, st, en)
    ensures st + en > |content| ==> PatchAsWritten(content) == Panicked
    ensures st + en <= |content| ==>
      PatchAsWritten(content) == Wrote(PatchedHead(content[..st]) + content[st..en] + InjectedCall + content[st + en..])
    ensures Patch(content) == Success(PatchedHead(content[..st]) + content[st..en] + InjectedCall + content[en..])
  {
    LeftmostIsFound(content, st, en);
    SpliceFound(content, st, en);
  }

  /** Both patches once the search has reported `(st, en)`. */
  lemma SpliceFound(content: string, st: nat, en: nat)
    requires !Contains(content, InitCall)
    requires FindMain(content).Some? && FindMain(content).value.0 == st && FindMain(content).value.1 == en
    ensures st + en > |content| ==> PatchAsWritten(content) == Panicked
    ensures st + en <= |content| ==>
      PatchAsWritten(content) == Wrote(PatchedHead(content[..st]) + content[st..en] + InjectedCall + content[st + en..])
    ensures Patch(content) == Success(PatchedHead(content[..st]) + content[st..en] + InjectedCall + content[en..])
  {
    if st + en <= |content| {
      assert content[st..][en..] == content[st + en..];
    }
  }

  /** Whatever the program writes holds the call. */
  lemma AsWrittenReachesFullyPatched(content: string)
    requires PatchAsWritten(content).Wrote?
    ensures StateOf(PatchAsWritten(content).text) == FullyPatched
  {
    if !Contains(content, InitCall) {
      var (st, en) := FindMain(content).value;
      SpliceHasCall(content[..st], content[st..en], content[st..][en..]);
    }
  }

  /** As written, an unpatched file fails with an error exactly when it has no signature. */
  lemma AsWrittenFailsIffNoMain(content: string)
    requires !Contains(content, InitCall)
    ensures PatchAsWritten(content).Failed? <==> NoMain(content)
  {
    FindMainLeftmost(content);
  }

  /** The program's patch and the corrected one agree exactly when the file is already
      patched, has no signature, or has its leftmost signature at the very start. */
  lemma AsWrittenAgreesIff(content: string)
    ensures PatchAsWritten(content) == RunOf(Patch(content)) <==>
      Contains(content, InitCall) || FindMain(content).None? || FindMain(content).value.0 == 0
  {
    if !Contains(content, InitCall) && FindMain(content).Some? {
      var (st, en) := FindMain(content).value;
      var h := PatchedHead(content[..st]) + content[st..en] + InjectedCall;
      assert Patch(content) == Success(h + content[en..]);
      if st == 0 {
        assert content[st..] == content;
      } else if st + en <= |content| {
        assert PatchAsWritten(content) == Wrote(h + content[st..][en..]);
        assert |h + content[st..][en..]| < |h + content[en..]|;
      }
    }
  }

  /** A text with no `fn` in front of position `st`: no `f` before `p` and no `n` from
      `p + 1` up to `st`. */
  lemma NoFnBefore(s: string, st: nat, p: nat)
    requires p <= st < |s| && 'f' !in s[..p] && 'n' !in s[p + 1..st + 1]
    ensures forall k :: 0 <= k < st ==> !OccursAt(s, "fn", k)
  {
    forall k | 0 <= k < st ensures !OccursAt(s, "fn", k) {
      if k < p {
        assert s[k] == s[..p][k];
      } else {
        assert s[k + 1] == s[p + 1..st + 1][k - p];
      }
    }
  }

  /** A signature with no `fn` in front of it is the one the search reports. */
  lemma FoundAt(s: string, st: nat, en: nat)
    requires st <= |s| && MatchAt(s, st) == Some(en)
    requires forall k :: 0 <= k < st ==> !OccursAt(s, "fn", k)
    ensures FindMain(s) == Some((st, en))
  {
    forall k | 0 <= k < st ensures MatchAt(s, k).None? {
      assert !OccursAt(s, "fn", k);
    }
    var r := FindMainFrom(s, 0);
    assert r.Some? && r.value.0 == st;
  }

  /** The signature `fn main() {`, with one blank between `fn` and `main`. */
  const PlainSignature := Signature(" ", "", "", " ")

  lemma PlainSignatureLength()
    ensures |PlainSignature| == 11 && PlainSignature[0] == 'f' && '_' !in PlainSignature
  {
    var blank, none := " ", "";
    assert |Signature(blank, none, none, blank)| == 2 + |blank| + 4 + 2 * |none| + 3 + |blank|;
    assert '_' !in blank && '_' !in none && '_' !in "fn" && '_' !in "main";
  }

  lemma PlainSignatureMatches(s: string, st: nat)
    requires st + |PlainSignature| <= |s| && s[st..st + |PlainSignature|] == PlainSignature
    ensures MatchAt(s, st) == Some(st + |PlainSignature|)
  {
    assert AllSpace(" ") && AllSpace("");
    MatchAtCompleteW(s, st, st + |PlainSignature|, " ", "", "", " ");
  }

  /** A file `head + fn main() { + body` without underscores, whose head has no `fn`
      (no `f` in `h1`, no `n` in `h3`): the corrected patch keeps the body, while the
      program keeps only the body past its first `|head|` characters, and panics when the
      body is shorter than the head. */
  lemma AsWrittenOnPlainMain(h1: string, c: char, h3: string, body: string)
    requires '_' !in h1 && c != '_' && '_' !in h3 && '_' !in body
    requires 'f' !in h1 && 'n' !in h3
    ensures var head := h1 + [c] + h3;
      Patch(head + PlainSignature + body) ==
        Success(head + Banner + LoaderImport + PlainSignature + InjectedCall + body)
    ensures var head := h1 + [c] + h3;
      |head| > |body| ==> PatchAsWritten(head + PlainSignature + body) == Panicked
    ensures var head := h1 + [c] + h3;
      |head| <= |body| ==>
      PatchAsWritten(head + PlainSignature + body)
        == Wrote(head + Banner + LoaderImport + PlainSignature + InjectedCall + body[|head|..])
  {
    var head := h1 + [c] + h3;
    var s := head + PlainSignature + body;
    var st := |head|;
    PlainMainFound(h1, c, h3, body);
    SpliceFound(s, st, st + 11);
    ThreeParts(head, PlainSignature, body);
  }

  /** The slices of `head + m + body` that the splice takes apart. */
  lemma ThreeParts(head: string, m: string, body: string)
    ensures var s := head + m + body;
      && s[..|head|] == head && s[|head|..|head| + |m|] == m && s[|head| + |m|..] == body
      && (|head| <= |body| ==> s[|head| + (|head| + |m|)..] == body[|head|..])
  {
    var s := head + m + body;
    if |head| <= |body| {
      assert s[|head| + |m|..][|head|..] == s[|head| + (|head| + |m|)..];
    }
  }

  /** The search finds the signature right after such a head, and neither the call nor
      the import is there yet. */
  lemma PlainMainFound(h1: string, c: char, h3: string, body: string)
    requires '_' !in h1 && c != '_' && '_' !in h3 && '_' !in body
    requires 'f' !in h1 && 'n' !in h3
    ensures |PlainSignature| == 11
    ensures var head := h1 + [c] + h3; var s := head + PlainSignature + body;
      && FindMain(s).Some? && FindMain(s).value.0 == |head| && FindMain(s).value.1 == |head| + 11
      && !Contains(s, InitCall) && !Contains(head, UseLoader)
  {
    var head := h1 + [c] + h3;
    var s := head + PlainSignature + body;
    PlainSignatureLength();
    PlainMainAt(h1, c, h3, body);
    MissingChar(s, InitCall, '_');
    MissingChar(head, UseLoader, '_');
  }

  lemma PlainMainAt(h1: string, c: char, h3: string, body: string)
    requires 'f' !in h1 && 'n' !in h3
    ensures var r := FindMain(h1 + [c] + h3 + PlainSignature + body);
      r.Some? && r.value.0 == |h1| + 1 + |h3| && r.value.1 == |h1| + 12 + |h3|
  {
    var head := h1 + [c] + h3;
    var s := head + PlainSignature + body;
    PlainSignatureAfter(head, body);
    PlainSignatureLength();
    NoFnInHead(h1, c, h3, PlainSignature, body);
    FoundAt(s, |head|, |head| + 11);
  }

  lemma PlainSignatureAfter(head: string, body: string)
    ensures MatchAt(head + PlainSignature + body, |head|) == Some(|head| + |PlainSignature|)
  {
    var s := head + PlainSignature + body;
    assert s[|head|..|head| + |PlainSignature|] == PlainSignature;
    PlainSignatureMatches(s, |head|);
  }

  /** A head with no `f` in front of some character and no `n` after it holds no `fn`,
      not even one ending in what follows it, unless that starts with `n`. */
  lemma NoFnInHead(h1: string, c: char, h3: string, next: string, body: string)
    requires 'f' !in h1 && 'n' !in h3 && 0 < |next| && next[0] != 'n'
    ensures forall k :: 0 <= k < |h1 + [c] + h3| ==> !OccursAt(h1 + [c] + h3 + next + body, "fn", k)
  {
    var s := h1 + [c] + h3 + next + body;
    var st := |h1 + [c] + h3|;
    assert s[..|h1|] == h1;
    assert s[|h1| + 1..st + 1] == h3 + [next[0]];
    NoFnBefore(s, st, |h1|);
  }

  /** The head of the `src/main.rs` skeleton that `keiros init` writes (init.rs lines
      32-40), up to `fn main`. It is split before the `m` of `mod features;`, so the part before holds no `f` and the part after no `n`. */
  const SkeletonMods := "\nmod agent;\n"
  const SkeletonFeatures := "od features;" + "\n\n"
  const SkeletonHead := SkeletonMods + ['m'] + SkeletonFeatures
  /** The first 27 characters after the brace of the skeleton's `main`. */
  const SkeletonCut := "\n    println!(\"[*] Keiros a"
  /** The rest of the skeleton. */
  const SkeletonRest := "gent starting...\");\n    agent::run();\n}\n"
  const SkeletonBody := SkeletonCut + SkeletonRest
  const Skeleton := SkeletonHead + PlainSignature + SkeletonBody

  /** On the skeleton, `main` starts at 27, so the program drops the 27 characters after
      the brace and writes the call into the middle of the `println!`; the corrected
      patch keeps them. */
  lemma AsWrittenBreaksSkeleton()
    ensures PatchAsWritten(Skeleton) ==
      Wrote(SkeletonHead + Banner + LoaderImport + PlainSignature + InjectedCall + SkeletonRest)
    ensures Patch(Skeleton) ==
      Success(SkeletonHead + Banner + LoaderImport + PlainSignature + InjectedCall + SkeletonCut + SkeletonRest)
  {
    var body := SkeletonBody;
    SkeletonShape();
    SkeletonLetters();
    AsWrittenOnPlainMain(SkeletonMods, 'm', SkeletonFeatures, body);
    var patched := SkeletonHead + Banner + LoaderImport + PlainSignature + InjectedCall;
    assert patched + body == patched + SkeletonCut + SkeletonRest;
  }

  /** The facts about the skeleton's text that its patch depends on. */
  lemma SkeletonShape()
    ensures |SkeletonHead| == 27 <= |SkeletonBody|
    ensures SkeletonBody[|SkeletonHead|..] == SkeletonRest
  {
    SkeletonLengths();
    DropPrefix(SkeletonCut, SkeletonRest);
  }

  /** The skeleton declares `mod features;`, so declaring the module leaves it as it is. */
  lemma SkeletonDeclaresFeatures()
    ensures Contains(Skeleton, ModFeatures) && EnsureMod(Skeleton) == Skeleton
  {
    var rest := "\n\n" + PlainSignature + SkeletonBody;
    SkeletonAroundFeatures();
    ContainsInfix(SkeletonMods, ModFeatures, rest);
  }

  lemma SkeletonAroundFeatures()
    ensures Skeleton == SkeletonMods + ModFeatures + ("\n\n" + PlainSignature + SkeletonBody)
  {
    assert ['m'] + "od features;" == ModFeatures;
    Regroup(SkeletonMods, ['m'], "od features;", "\n\n");
  }

  lemma DropPrefix(a: string, b: string)
    ensures (a + b)[|a|..] == b
  {
  }

  /** The skeleton has no underscore, and no `fn` in front of its `main`. */
  lemma SkeletonLetters()
    ensures '_' !in SkeletonMods && '_' !in SkeletonFeatures && '_' !in SkeletonBody
    ensures 'f' !in SkeletonMods && 'n' !in SkeletonFeatures
  {
    assert '_' !in SkeletonCut && '_' !in SkeletonRest;
  }

  lemma SkeletonLengths()
    ensures |SkeletonHead| == 27 == |SkeletonCut|
  {
    assert |SkeletonMods| == 12 && |SkeletonFeatures| == 14;
  }

  /** A file holding just `fn main() {}` two lines down is short enough for the cut to
      fall past its end: the program panics where the corrected patch succeeds. */
  const ShortMain := "\n\n" + PlainSignature + "}"

  lemma AsWrittenPanicsOnShortFile()
    ensures PatchAsWritten(ShortMain) == Panicked
    ensures Patch(ShortMain) == Success("\n\n" + Banner + LoaderImport + PlainSignature + InjectedCall + "}")
  {
    assert "\n\n" == [] + ['\n'] + "\n";
    AsWrittenOnPlainMain([], '\n', "\n", "}");
  }

  // ---------------------------------------------------------------------------
  // ensure_mod_features_declared
  // ---------------------------------------------------------------------------

  /** A line that starts `main`: after trimming it begins with `fn main`. */
  predicate IsMainLine(line: string) {
    StartsWith(Trim(line), "fn main")
  }

  /** The index of the first line that starts `main`, if any. */
  function FirstMainLine(lines: seq<string>): (r: Option<nat>)
    ensures r.Some? ==> r.value < |lines| && IsMainLine(lines[r.value])
    ensures r.Some? ==> forall k :: 0 <= k < r.value ==> !IsMainLine(lines[k])
    ensures r.None? ==> forall k :: 0 <= k < |lines| ==> !IsMainLine(lines[k])
  {
    FirstIndex(lines, IsMainLine, 0)
  }

  /** Where the declaration goes: at the first line that starts `main`, else at the top. */
  function InsertIndex(lines: seq<string>): (i: nat)
    ensures i <= |lines|
  {
    FirstMainLine(lines).GetOr(0)
  }

  /** The lines with `mod features;` inserted: one line more, and taking the new line
      out again gives back the original lines in their order. */
  function InsertModLine(lines: seq<string>): (r: seq<string>)
    ensures |r| == |lines| + 1
    ensures r[InsertIndex(lines)] == ModFeatures
    ensures r[..InsertIndex(lines)] + r[InsertIndex(lines) + 1..] == lines
  {
    InsertAt(lines, InsertIndex(lines), ModFeatures)
  }

  /** The new line sits right in front of the first line that starts `main`, or at the
      top when no line does. */
  lemma InsertModLinePosition(lines: seq<string>)
    ensures var r, i := InsertModLine(lines), InsertIndex(lines);
      && (forall k :: 0 <= k < i ==> !IsMainLine(r[k]))
      && (FirstMainLine(lines).Some? ==> IsMainLine(r[i + 1]))
      && (FirstMainLine(lines).None? ==> r[0] == ModFeatures)
  {
    var r, i := InsertModLine(lines), InsertIndex(lines);
    forall k | 0 <= k < i ensures !IsMainLine(r[k]) {
      assert r[k] == r[..i][k] == lines[k];
    }
    if FirstMainLine(lines).Some? {
      assert r[i + 1] == r[i + 1..][0] == lines[i];
    }
  }

  /** `ensure_mod_features_declared` on the text of the entry file. */
  function EnsureMod(content: string): (r: string)
    ensures Contains(content, ModFeatures) ==> r == content
    ensures Contains(r, ModFeatures)
  {
    if Contains(content, ModFeatures) then content
    else
      var lines := InsertModLine(Lines(content));
      JoinContains(lines, "\n", InsertIndex(Lines(content)));
      Join(lines, "\n")
  }

  /** Declaring the module twice is declaring it once. */
  lemma EnsureModIdempotent(content: string)
    ensures EnsureMod(EnsureMod(content)) == EnsureMod(content)
  {
  }

  /** On carriage-return-free text the declaration is spliced in at the start of a line
      (the first `main` line, or the top when there is none); the only other change is
      that a final line feed is dropped. */
  lemma EnsureModSplice(content: string)
    requires !Contains(content, ModFeatures) && '\r' !in content
    ensures var d := DropFinalNewline(content);
      exists p :: 0 <= p <= |d| && (p == 0 || d[p - 1] == '\n')
        && (FirstMainLine(Lines(content)).None? ==> p == 0)
        && EnsureMod(content) == d[..p] + ModFeatures + (if content == [] then "" else "\n") + d[p..]
  {
    var ls := Lines(content);
    var i := InsertIndex(ls);
    LinesJoin(content);
    var p := JoinInsert(ls, i, ModFeatures);
    assert ls[..i] + [ModFeatures] + ls[i..] == InsertModLine(ls);
  }

  /** Inserting a line into a list of lines inserts its text, and a line feed, at the
      offset where the old line started. */
  lemma JoinInsert(ls: seq<string>, i: nat, x: string) returns (p: nat)
    requires i == 0 || i < |ls|
    ensures var d := Join(ls, "\n");
      && p <= |d| && (p == 0 || d[p - 1] == '\n') && (i == 0 ==> p == 0)
      && Join(ls[..i] + [x] + ls[i..], "\n") == d[..p] + x + (if ls == [] then "" else "\n") + d[p..]
  {
    var d := Join(ls, "\n");
    if ls == [] {
      p := 0;
      assert ls[..i] + [x] + ls[i..] == [x];
    } else if i == 0 {
      p := 0;
      assert ls[..i] + [x] + ls[i..] == [x] + ls;
      JoinAppend([x], ls, "\n");
    } else {
      var a, b := ls[..i], ls[i..];
      JoinSplice(a, b, x);
      assert a + b == ls;
      p := |Join(a, "\n")| + 1;
    }
  }

  lemma JoinSplice(a: seq<string>, b: seq<string>, x: string)
    requires |a| > 0 && |b| > 0
    ensures var d, p := Join(a + b, "\n"), |Join(a, "\n")| + 1;
      && p <= |d| && d[p - 1] == '\n'
      && Join(a + [x] + b, "\n") == d[..p] + x + "\n" + d[p..]
  {
    var ja, jb := Join(a, "\n"), Join(b, "\n");
    JoinAppend(a, b, "\n");
    var d, p := Join(a + b, "\n"), |ja| + 1;
    assert d == (ja + "\n") + jb;
    assert d[..p] == ja + "\n" && d[p..] == jb;
    JoinAppend([x], b, "\n");
    assert Join([x], "\n") == x;
    JoinAppend(a, [x] + b, "\n");
    assert a + [x] + b == a + ([x] + b);
    assert Join(a + [x] + b, "\n") == ja + "\n" + (x + "\n" + jb);
  }
}
