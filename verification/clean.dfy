/** The `clean` command of `src/main.rs` (`handle_clean`): parsing `--keep`, choosing the
    images to delete from the output of `docker images`, and what is then removed.
    Running docker and deleting the output directory are left to the caller. */
module Clean {
  import opened Wrappers
  import opened Text
  import opened Seqs

  /** Only images whose repository name starts with this are ever deleted. */
  const ImagePrefix := "keiros-"

  /** Every piece trimmed, in order. */
  function TrimAll(pieces: seq<string>): (r: seq<string>)
    ensures |r| == |pieces|
    ensures forall k :: 0 <= k < |pieces| ==> r[k] == Trim(pieces[k])
  {
    seq(|pieces|, k requires 0 <= k < |pieces| => Trim(pieces[k]))
  }

  /** Trims every piece and drops the pieces that are then empty: what is kept is
      exactly the non-empty trimmed pieces, in the order of the pieces. */
  function TrimNonEmpty(pieces: seq<string>): (r: seq<string>)
    ensures |r| <= |pieces|
    ensures forall x :: x in r <==> exists k :: 0 <= k < |pieces| && x == Trim(pieces[k]) && x != []
    ensures Subsequence(r, TrimAll(pieces))
    decreases |pieces|
  {
    if pieces == [] then []
    else
      var t := Trim(pieces[0]);
      var tail := pieces[1..];
      var rest := TrimNonEmpty(tail);
      assert TrimAll(pieces)[1..] == TrimAll(tail);
      assert forall k :: 0 <= k < |tail| ==> tail[k] == pieces[k + 1];
      if t == [] then rest else [t] + rest
  }

  /** What survives is non-empty and trimmed, and comma-free when the pieces were. */
  lemma {:induction false} TrimNonEmptyShape(pieces: seq<string>)
    ensures forall x :: x in TrimNonEmpty(pieces) ==> x != [] && IsTrimmed(x)
    ensures (forall x :: x in pieces ==> ',' !in x) ==> forall x :: x in TrimNonEmpty(pieces) ==> ',' !in x
    decreases |pieces|
  {
    if pieces != [] {
      TrimKeepsOut(pieces[0], ',');
      TrimNonEmptyShape(pieces[1..]);
      assert forall x :: x in pieces[1..] ==> x in pieces;
    }
  }

  /** Trimming cannot bring in a character the text lacks. */
  lemma TrimKeepsOut(s: string, c: char)
    ensures c !in s ==> c !in Trim(s)
  {
    TrimInside(s);
    NotInInfix(s, Trim(s), c);
  }

  /** A character missing from a text is missing from every piece of it. */
  lemma NotInInfix(s: string, t: string, c: char)
    requires Contains(s, t)
    ensures c !in s ==> c !in t
  {
    var i :| 0 <= i <= |s| - |t| && OccursAt(s, t, i);
    if c in t {
      var k :| 0 <= k < |t| && t[k] == c;
      assert s[i + k] == s[i..i + |t|][k];
    }
  }

  /** The `--keep` prefixes: the comma-separated pieces, trimmed, empty ones dropped;
      none without the option. Every prefix is non-empty, has no surrounding whitespace and
      holds no comma. */
  function KeepPrefixes(keep: Option<string>): (r: seq<string>)
    ensures keep.None? ==> r == []
    ensures forall x :: x in r ==> x != [] && IsTrimmed(x) && ',' !in x
  {
    var pieces := Split(keep.GetOr(""), ',');
    var r := TrimNonEmpty(pieces);
    assert forall x :: x in pieces ==> ',' !in x;
    TrimNonEmptyShape(pieces);
    assert keep.None? ==> r == [] by {
      if keep.None? {
        assert pieces == [""];
        assert Trim("") == [];
        assert r == TrimNonEmpty([]);
      }
    }
    r
  }

  lemma {:induction false} TrimNonEmptyKeeps(ps: seq<string>)
    requires forall k :: 0 <= k < |ps| ==> ps[k] != [] && IsTrimmed(ps[k])
    ensures TrimNonEmpty(ps) == ps
    decreases |ps|
  {
    if ps != [] {
      TrimTrimmed(ps[0]);
      var tail := ps[1..];
      forall k | 0 <= k < |tail| ensures tail[k] != [] && IsTrimmed(tail[k]) {
        assert tail[k] == ps[k + 1];
      }
      TrimNonEmptyKeeps(tail);
      assert ps == [ps[0]] + tail;
      TrimNonEmptyCons(ps[0], tail);
    }
  }

  /** A piece that trimming leaves as it is and non-empty is kept in front. */
  lemma TrimNonEmptyCons(p: string, rest: seq<string>)
    requires p != [] && Trim(p) == p
    ensures TrimNonEmpty([p] + rest) == [p] + TrimNonEmpty(rest)
  {
    assert ([p] + rest)[0] == p && ([p] + rest)[1..] == rest;
  }

  /** The keep prefixes of `--keep s` are exactly the non-empty trimmed comma-separated
      pieces of `s`, in the order they are written. */
  lemma KeepPrefixesContents(s: string)
    ensures forall x :: x in KeepPrefixes(Some(s)) <==>
      exists k :: 0 <= k < |Split(s, ',')| && x == Trim(Split(s, ',')[k]) && x != []
    ensures Subsequence(KeepPrefixes(Some(s)), TrimAll(Split(s, ',')))
  {
    assert KeepPrefixes(Some(s)) == TrimNonEmpty(Split(s, ','));
  }

  /** A keep list written with a blank after the comma gives the bare prefixes:
      `--keep "a, b"` protects `a` and `b`. */
  lemma PaddedKeepList(a: string, b: string)
    requires a != [] && IsTrimmed(a) && ',' !in a
    requires b != [] && IsTrimmed(b) && ',' !in b
    ensures KeepPrefixes(Some(a + ", " + b)) == [a, b]
  {
    var padded := " " + b;
    assert a + ", " + b == a + [','] + padded;
    SplitTwo(a, padded);
    TrimTwo(a, b);
  }

  /** Two comma-free pieces joined by a comma split back into them. */
  lemma SplitTwo(a: string, b: string)
    requires ',' !in a && ',' !in b
    ensures Split(a + [','] + b, ',') == [a, b]
  {
    SplitJoin([a, b], ',');
    assert Join([a, b], [',']) == a + [','] + b;
  }

  /** A trimmed piece and a blank-prefixed trimmed piece trim to the two names. */
  lemma TrimTwo(a: string, b: string)
    requires a != [] && IsTrimmed(a) && b != [] && IsTrimmed(b)
    ensures TrimNonEmpty([a, " " + b]) == [a, b]
  {
    TrimTrimmed(a);
    TrimBlankFront(b);
    assert [a, " " + b][1..] == [" " + b] && [" " + b][1..] == [];
    assert TrimNonEmpty([" " + b]) == [b];
  }

  /** Trimming a blank followed by text without surrounding whitespace drops the blank. */
  lemma TrimBlankFront(name: string)
    requires name != [] && IsTrimmed(name)
    ensures Trim(" " + name) == name
  {
    var s := " " + name;
    var r := Trim(s);
    var a, b :| 0 <= a <= b <= |s| && r == s[a..b] && AllSpace(s[..a]) && AllSpace(s[b..]);
    forall j | 2 <= j <= |s| ensures !AllSpace(s[..j]) {
      assert s[..j][1] == name[0];
    }
    forall j | 0 <= j < |s| ensures !AllSpace(s[j..]) {
      assert s[j..][|s| - 1 - j] == name[|name| - 1];
    }
    assert b == |s|;
    assert IsSpace(s[0]) && s[0..|s|] == s;
    assert a == 1;
    assert s[1..] == name;
  }

  /** An empty `--keep` protects nothing, just as a missing one. */
  lemma NothingToKeep()
    ensures KeepPrefixes(Some("")) == [] && KeepPrefixes(None) == []
  {
    assert Split("", ',') == [""];
    assert Trim("") == [];
    assert TrimNonEmpty([""]) == TrimNonEmpty([]);
  }

  /** Writing prefixes as a comma-separated list and parsing them gives them back, when
      each is non-empty, has no surrounding whitespace and no comma. */
  lemma KeepPrefixesRoundTrip(ps: seq<string>)
    requires forall k :: 0 <= k < |ps| ==> ps[k] != [] && IsTrimmed(ps[k]) && ',' !in ps[k]
    ensures KeepPrefixes(Some(Join(ps, ","))) == ps
  {
    if ps == [] {
      NothingToKeep();
    } else {
      SplitJoin(ps, ',');
      TrimNonEmptyKeeps(ps);
    }
  }

  /** An image is deleted when it is a keiros image and no keep prefix protects it. */
  predicate Selected(image: string, keep: seq<string>) {
    StartsWith(image, ImagePrefix) && !(exists p :: p in keep && StartsWith(image, p))
  }

  /** The images to delete, in the order `docker images` listed them. */
  function SelectImages(images: seq<string>, keep: seq<string>): (r: seq<string>)
    ensures |r| <= |images|
    ensures forall k :: 0 <= k < |r| ==> r[k] in images && Selected(r[k], keep)
    decreases |images|
  {
    if images == [] then []
    else
      var rest := SelectImages(images[1..], keep);
      if Selected(images[0], keep) then [images[0]] + rest else rest
  }

  /** Each selected image is chosen as often as it is listed, any other never, and the
      choice keeps the listing order. */
  lemma {:induction false} SelectImagesCounts(images: seq<string>, keep: seq<string>)
    ensures forall x :: (multiset(SelectImages(images, keep))[x] ==
      if Selected(x, keep) then multiset(images)[x] else 0)
    ensures Subsequence(SelectImages(images, keep), images)
    decreases |images|
  {
    if images != [] {
      var tail := images[1..];
      SelectImagesCounts(tail, keep);
      assert images == [images[0]] + tail;
      assert multiset(images) == multiset([images[0]]) + multiset(tail);
    }
  }

  /** An image is chosen exactly when it was listed and is selected. */
  lemma SelectImagesMembers(images: seq<string>, keep: seq<string>, x: string)
    ensures x in SelectImages(images, keep) <==> x in images && Selected(x, keep)
  {
    SelectImagesCounts(images, keep);
    assert x in SelectImages(images, keep) <==> multiset(SelectImages(images, keep))[x] > 0;
    assert x in images <==> multiset(images)[x] > 0;
  }

  /** Why `clean` stops early: `docker images` could not be run. */
  datatype CleanError = DockerUnavailable

  /** What `clean` does: the images chosen, the `docker` commands that remove them, and
      whether the output directory is removed. */
  datatype CleanPlan = CleanPlan(selected: seq<string>, removals: seq<seq<string>>, removeOutput: bool)

  /** `docker rmi -f <image>` for each chosen image, in order. */
  function RemovalCommands(images: seq<string>): (r: seq<seq<string>>)
    ensures |r| == |images|
    ensures forall k :: 0 <= k < |r| ==> r[k] == ["rmi", "-f", images[k]]
  {
    seq(|images|, k requires 0 <= k < |images| => ["rmi", "-f", images[k]])
  }

  /** The images `handle_clean` chooses from a listing. */
  function Choose(out: string, keep: Option<string>): seq<string> {
    SelectImages(Lines(out), KeepPrefixes(keep))
  }

  /** What is done with the chosen images and the output directory. */
  function Plan(chosen: seq<string>, all: bool, dryRun: bool, outputExists: bool): CleanPlan {
    CleanPlan(chosen, if dryRun then [] else RemovalCommands(chosen), all && outputExists && !dryRun)
  }

  /** `handle_clean`: `listing` is the standard output of `docker images --format
      {{.Repository}}` (one repository per line), or `None` when docker could not be run;
      `outputExists` says whether `./target_output` exists. */
  function HandleClean(all: bool, dryRun: bool, keep: Option<string>, listing: Option<string>,
                       outputExists: bool): (r: Result<CleanPlan, CleanError>)
    ensures r.Success? <==> listing.Some?
    ensures r.Success? ==> r.value == Plan(Choose(listing.value, keep), all, dryRun, outputExists)
  {
    match listing
    case None => Failure(DockerUnavailable)
    case Some(out) => Success(Plan(Choose(out, keep), all, dryRun, outputExists))
  }

  /** A dry run chooses the same images as a full one but removes nothing; both fail
      exactly when docker could not be run. */
  lemma DryRunChoosesSame(all: bool, keep: Option<string>, listing: Option<string>, outputExists: bool)
    ensures var dry := HandleClean(all, true, keep, listing, outputExists);
      var full := HandleClean(all, false, keep, listing, outputExists);
      && (dry.Success? <==> listing.Some?) && (full.Success? <==> listing.Some?)
      && (dry.Success? ==> dry.value.selected == full.value.selected)
      && (dry.Success? ==> dry.value.removals == [] && !dry.value.removeOutput)
  {
  }

  /** A full run removes exactly the chosen images, in order, and the output directory
      exactly when asked to and it exists. */
  lemma FullRunRemovesChosen(chosen: seq<string>, all: bool, outputExists: bool)
    ensures var plan := Plan(chosen, all, false, outputExists);
      && plan.selected == chosen
      && |plan.removals| == |chosen|
      && (forall k :: 0 <= k < |chosen| ==> plan.removals[k] == ["rmi", "-f", chosen[k]])
      && (plan.removeOutput <==> all && outputExists)
  {
  }

  /** Every chosen image is a listed keiros image that no keep prefix protects, and every
      such image is chosen. */
  lemma HandleCleanChoice(out: string, keep: Option<string>, x: string)
    ensures x in Choose(out, keep) <==>
      x in Lines(out) && StartsWith(x, ImagePrefix) && forall p :: p in KeepPrefixes(keep) ==> !StartsWith(x, p)
  {
    var lines, prefixes := Lines(out), KeepPrefixes(keep);
    assert Choose(out, keep) == SelectImages(lines, prefixes);
    SelectImagesMembers(lines, prefixes, x);
    assert Selected(x, prefixes) <==> StartsWith(x, ImagePrefix) && forall p :: p in prefixes ==> !StartsWith(x, p);
  }
}
