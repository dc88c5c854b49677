/** The feature-map scanner of `src/lib/feature_map_gen.rs`. The directory walk and the
    file reads are inputs: the walk is the sequence of entries it yields under `src`, in
    walk order, each carrying what the scanner would read from the file system. */
module FeatureMap {
  import opened Wrappers
  import opened Text
  import opened Seqs

  /** A feature: its module path and, when it has one, the call that initialises it. */
  datatype FeatureEntry = FeatureEntry(path: string, call: Option<string>)

  type FeaturesMap = map<string, FeatureEntry>

  /** One entry of the walk under `src`:
      - `isFile`: whether the entry is a regular file;
      - `extension`: the file-name extension, if any;
      - `relative`: the path components below `src` with the extension removed from the
        last one, or `None` when the path cannot be made relative to `src`;
      - `content`: the text of the file, or `None` when reading it fails. */
  datatype WalkEntry = WalkEntry(
    isFile: bool,
    extension: Option<string>,
    relative: Option<seq<string>>,
    content: Option<string>)

  /** Why a scan is abandoned: a path outside `src`, a file that cannot be read, or a
      path with no components. The program panics in that last case
      (`parts.last().unwrap()`, feature_map_gen.rs line 32), but no `.rs` file found
      below `src` has an empty relative path, so it never arises there. */
  datatype ScanError = OutsideRoot | NoFileName | Unreadable

  /** The text whose presence marks a module as having an initialiser. */
  const InitMarker := "pub fn init"
  /** The call recorded for such a module. */
  const ScannedCall := "init()"
  const PathSeparator := "::"

  /** Only regular files with extension `rs` take part in the scan. */
  predicate IsRustFile(e: WalkEntry) {
    e.isFile && e.extension == Some("rs")
  }

  /** Everything the scanner needs from a file is available. */
  predicate Readable(e: WalkEntry) {
    e.relative.Some? && |e.relative.value| > 0 && e.content.Some?
  }

  /** The key of a file: its last path component, the file name without extension. */
  function KeyOf(e: WalkEntry): string
    requires Readable(e)
  {
    e.relative.value[|e.relative.value| - 1]
  }

  /** The entry recorded for a file. Its path ends with the key, behind the joined
      directory components, and it has the call exactly when the text holds the marker. */
  function EntryOf(e: WalkEntry): (r: FeatureEntry)
    requires Readable(e)
    ensures r.call == Some(ScannedCall) <==> Contains(e.content.value, InitMarker)
    ensures r.call.None? <==> !Contains(e.content.value, InitMarker)
    ensures EndsWith(r.path, KeyOf(e))
    ensures var parts := e.relative.value;
      |parts| > 1 ==> r.path == Join(parts[..|parts| - 1], PathSeparator) + PathSeparator + KeyOf(e)
    ensures |e.relative.value| == 1 ==> r.path == KeyOf(e)
  {
    var parts := e.relative.value;
    JoinEndsWithLast(parts, PathSeparator);
    JoinLast(parts, PathSeparator);
    FeatureEntry(
      Join(parts, PathSeparator),
      if Contains(e.content.value, InitMarker) then Some(ScannedCall) else None)
  }

  /** A join is the join of all but the last part, the separator, and the last part. */
  lemma JoinLast(parts: seq<string>, sep: string)
    requires |parts| > 0
    ensures |parts| > 1 ==> Join(parts, sep) == Join(parts[..|parts| - 1], sep) + sep + parts[|parts| - 1]
  {
    if |parts| > 1 {
      JoinAppend(parts[..|parts| - 1], [parts[|parts| - 1]], sep);
      assert parts[..|parts| - 1] + [parts[|parts| - 1]] == parts;
    }
  }

  /** The body of the scan loop for one `.rs` file: the key and the entry, or the error
      that abandons the scan. */
  function ScanFile(e: WalkEntry): (r: Result<(string, FeatureEntry), ScanError>)
    requires IsRustFile(e)
    ensures r.Success? <==> Readable(e)
    ensures r.Success? ==> r.value == (KeyOf(e), EntryOf(e))
  {
    match e.relative
    case None => Failure(OutsideRoot)
    case Some(parts) =>
      if |parts| == 0 then Failure(NoFileName)
      else
        match e.content
        case None => Failure(Unreadable)
        case Some(_) => Success((KeyOf(e), EntryOf(e)))
  }

  /** `generate_feature_map` without the final write: the walk entries are inserted into
      the map in walk order, and the first failing `.rs` file abandons the scan. */
  function Scan(files: seq<WalkEntry>): (r: Result<FeaturesMap, ScanError>)
    ensures r.Failure? ==> exists i :: 0 <= i < |files| && IsRustFile(files[i]) && !Readable(files[i])
    decreases |files|
  {
    if files == [] then Success(map[])
    else
      var m :- Scan(files[..|files| - 1]);
      var e := files[|files| - 1];
      if !IsRustFile(e) then Success(m)
      else
        var kv :- ScanFile(e);
        Success(m[kv.0 := kv.1])
  }

  /** A `.rs` file whose key no later `.rs` file repeats. */
  ghost predicate LastWithKey(files: seq<WalkEntry>, i: int)
    requires 0 <= i < |files| && IsRustFile(files[i]) && Readable(files[i])
  {
    forall j :: i < j < |files| && IsRustFile(files[j]) && Readable(files[j]) ==> KeyOf(files[j]) != KeyOf(files[i])
  }

  /** The keys of all readable `.rs` files. */
  ghost function RustKeys(files: seq<WalkEntry>): set<string> {
    set i | 0 <= i < |files| && IsRustFile(files[i]) && Readable(files[i]) :: KeyOf(files[i])
  }

  /** The number of `.rs` files in the walk. */
  function RustFileCount(files: seq<WalkEntry>): nat
    decreases |files|
  {
    if files == [] then 0
    else RustFileCount(files[..|files| - 1]) + (if IsRustFile(files[|files| - 1]) then 1 else 0)
  }

  /** The scan is all or nothing: it fails exactly when some `.rs` file cannot be read
      or placed, and other entries never make it fail. */
  lemma {:induction false} ScanFailsIff(files: seq<WalkEntry>)
    ensures Scan(files).Failure? <==>
      exists i :: 0 <= i < |files| && IsRustFile(files[i]) && !Readable(files[i])
    decreases |files|
  {
    if files != [] {
      var init := files[..|files| - 1];
      ScanFailsIff(init);
      forall i | 0 <= i < |init| ensures init[i] == files[i] {}
      if exists i :: 0 <= i < |init| && IsRustFile(init[i]) && !Readable(init[i]) {
        var i :| 0 <= i < |init| && IsRustFile(init[i]) && !Readable(init[i]);
        assert IsRustFile(files[i]) && !Readable(files[i]);
      }
    }
  }

  /** The keys of a successful scan are exactly the base names of the `.rs` files. */
  lemma {:induction false} ScanKeys(files: seq<WalkEntry>)
    requires Scan(files).Success?
    ensures Scan(files).value.Keys == RustKeys(files)
    decreases |files|
  {
    if files != [] {
      var init, e := files[..|files| - 1], files[|files| - 1];
      ScanKeys(init);
      forall i | 0 <= i < |init| ensures init[i] == files[i] {}
      if IsRustFile(e) {
        assert RustKeys(files) == RustKeys(init) + {KeyOf(e)};
      } else {
        assert RustKeys(files) == RustKeys(init);
      }
    }
  }

  /** Last write wins: a key maps to the entry of the last `.rs` file with that base name. */
  lemma {:induction false} ScanLastWins(files: seq<WalkEntry>, i: int)
    requires Scan(files).Success?
    requires 0 <= i < |files| && IsRustFile(files[i]) && Readable(files[i]) && LastWithKey(files, i)
    ensures KeyOf(files[i]) in Scan(files).value
    ensures Scan(files).value[KeyOf(files[i])] == EntryOf(files[i])
    decreases |files|
  {
    var init, e := files[..|files| - 1], files[|files| - 1];
    if i < |files| - 1 {
      assert init[i] == files[i];
      assert LastWithKey(init, i) by {
        forall j | i < j < |init| && IsRustFile(init[j]) && Readable(init[j])
          ensures KeyOf(init[j]) != KeyOf(init[i])
        {
          assert init[j] == files[j];
        }
      }
      ScanLastWins(init, i);
      if IsRustFile(e) {
        assert KeyOf(e) != KeyOf(files[i]);
      }
    }
  }

  /** A successful scan has one entry per distinct base name, so no more entries than
      there are `.rs` files. */
  lemma {:induction false} ScanSize(files: seq<WalkEntry>)
    requires Scan(files).Success?
    ensures |Scan(files).value| <= RustFileCount(files)
    decreases |files|
  {
    if files != [] {
      var init := files[..|files| - 1];
      ScanSize(init);
    }
  }

  /** The marker is found as a substring, so `pub fn initialize` counts as an initialiser. */
  lemma InitMarkerIsSubstring()
    ensures EntryOf(WalkEntry(true, Some("rs"), Some(["features", "beacon"]), Some("pub fn initialize() {}"))).call
      == Some(ScannedCall)
  {
    var text := "pub fn initialize() {}";
    assert text[..|InitMarker|] == InitMarker;
    ContainsAt(text, InitMarker, 0);
  }

  /** A tree with one module that has an initialiser and one that does not: two entries,
      paths joined from `src`, the call only on the first. */
  lemma ScanExample()
    ensures var files := [
        WalkEntry(true, Some("rs"), Some(["features", "shell"]), Some("pub fn init() {}")),
        WalkEntry(true, Some("toml"), Some(["Cargo"]), None),
        WalkEntry(true, Some("rs"), Some(["features", "mod"]), Some("mod x;"))];
      Scan(files) == Success(map[
        "shell" := FeatureEntry("features::shell", Some(ScannedCall)),
        "mod" := FeatureEntry("features::mod", None)])
  {
    var files := [
        WalkEntry(true, Some("rs"), Some(["features", "shell"]), Some("pub fn init() {}")),
        WalkEntry(true, Some("toml"), Some(["Cargo"]), None),
        WalkEntry(true, Some("rs"), Some(["features", "mod"]), Some("mod x;"))];
    var t := "pub fn init() {}";
    assert t[..|InitMarker|] == InitMarker;
    ContainsAt(t, InitMarker, 0);
    assert !Contains("mod x;", InitMarker);
    var shell := FeatureEntry("features::shell", Some(ScannedCall));
    var md := FeatureEntry("features::mod", None);
    assert EntryOf(files[0]) == shell;
    assert EntryOf(files[2]) == md;
    assert files[..2][..1] == files[..1] && files[..1][..0] == [];
    assert Scan(files[..1]) == Success(map["shell" := shell]);
    assert Scan(files[..2]) == Success(map["shell" := shell]);
    assert files[..3] == files;
  }
}
