# keiros build pipeline, in Dafny

keiros is a command-line tool that assembles implant agents from a catalogue of
features. This project models its core as pure functions over text, and proves properties
of those functions:

- **Patching the entry file.** This is `src/lib/patcher.rs`.
  - `patch_main_rs` injects the loader import and the `init_features();` call around the
    first `fn main() {` signature.
  - `ensure_mod_features_declared` inserts `mod features;` in front of the first line that
    starts `fn main`.
- **Scanning features into a feature map.** This is `src/lib/feature_map_gen.rs`. Every
  `.rs` file below `src` becomes an entry:
  - the key is the file's base name;
  - the path is its `::`-joined module path;
  - the call is `init()` when the file's text holds `pub fn init`.
- **Reconciling a profile.** This is `src/main.rs`:
  - the listener override of `build`;
  - the profile-driven feature map;
  - the keep-prefix parsing and image selection of `clean`.
- **Building in docker.** This is `src/lib/compiler.rs`:
  - the exact `docker build` and `docker run` arguments;
  - the decision `compile` takes from what docker reports.
- **The `build` command.** This is `handle_build`, which chains the steps above.

All file-system and process effects are inputs to the model:

- the text of `src/main.rs`;
- the entries of the directory walk, each carrying its file's text;
- the standard output of `docker images`;
- the exit status of each docker command;
- whether loader generation succeeds.

Each outcome comes back as a value: the text to write, the map, the commands issued, or
the error.

Modules, one per file:

- `Wrappers`: `Option` and `Result`.
- `Text`: the string operations of Rust's standard library that the code relies on:
  - `contains`, `starts_with`, `ends_with`;
  - `trim`, `split`, `join`;
  - `lines`.
- `Seqs`: subsequences and distinctness.
- `Patcher`.
- `FeatureMap`.
- `Profile`: the `BuildProfile` record.
- `Reconcile`: the listener override and `generate_feature_map_from_vec`.
- `Clean`.
- `Compiler`.
- `Build`.

The signature pattern `fn\s+main\s*\(\s*\)\s*\{` is a staged scanner, `Patcher.MatchAt`.
It is proved sound and complete against a declarative description, `IsMainSignature`:
`fn`, whitespace, `main`, whitespace, `(`, whitespace, `)`, whitespace, `{`. Each
whitespace run in the pattern is followed by a non-space literal, so at each start there is
at most one match. The leftmost search, `FindMain`, therefore yields the span that
`Regex::find` reports. Whitespace is the ASCII part of `\s`: space, tab, line feed,
vertical tab, form feed and carriage return.

Two parts of the code record the initialiser call differently, and the model keeps both
as written. The scanner records `init()` (src/lib/feature_map_gen.rs:41). The
profile-driven map of `build` records `init` (src/main.rs:196).

The splice of `patch_main_rs` is modelled twice:

- `Patcher.PatchAsWritten` is the program. It cuts the text after the signature at the
  signature's end measured in the whole text, but applies the cut to the text from the
  signature on (src/lib/patcher.rs:19 and 28). It therefore keeps the text from `start +
  end` on, and panics when that lies past the end of the text.
- `Patcher.Patch` is the evident intent: it keeps everything after the signature.

The two agree exactly when the signature starts the file (`Patcher.AsWrittenAgreesIff`).
The skeleton that `keiros init` writes has its signature at offset 27, so building a fresh
project loses 27 characters of its `main` (`Patcher.AsWrittenBreaksSkeleton`,
`Build.BuildCorruptsSkeleton`). `Build.HandleBuildAsWritten` runs the program's patch.
`Build.HandleBuild` runs the corrected patch and also checks the verdict of `compile`.

`compile` builds `keiros-builder` only when no image of that name exists
(src/lib/compiler.rs:25-53). The Dockerfile that `keiros init` writes
(src/lib/init.rs:126-188) turns the build arguments into the image's environment
(lines 140-146) and copies `build_profiles`, `src` and `Cargo.toml` into the image
(lines 164-166). Its command compiles from that environment and those copies (lines
168-186). `docker run` passes no `-e` and mounts only the output directory
(src/lib/compiler.rs:61-68). A cached image therefore holds stale source and stale
settings: every later build compiles the first build's profile and sources.
`Compiler.CachedImageIgnoresProfile` proves that `compile` then behaves the same for every
profile. `Compiler.CachedRunKeepsBuildSettings` proves that the container reads the
settings of the profile the image was built for. This is recorded under "## Findings".
`Compiler.CompileFresh` is the corrected `compile`: its run passes the profile's settings as
`-e KEY=VALUE` and mounts the project directory over the copies. `Build.HandleBuild` uses
it.

## Model

| member | source | states |
|---|---|---|
| Patcher.MatchAtSound | src/lib/patcher.rs:15 | every span the scanner accepts at a position is an `fn main() {` signature with arbitrary whitespace runs where the pattern allows them |
| Patcher.MatchAtComplete | src/lib/patcher.rs:15 | every signature occurring at a position is found there by the scanner, ending where the signature ends |
| Patcher.FindMainLeftmost | src/lib/patcher.rs:18-19 | the search reports the leftmost signature (no signature starts earlier), and reports none exactly when the text has no signature |
| Patcher.Patch | src/lib/patcher.rs:10-13 | text that already holds `init_features();` is returned unchanged as a success (the corrected patch) |
| Patcher.PatchFailsIffNoMain | src/lib/patcher.rs:18-35 | the corrected patch fails on an unpatched file exactly when it contains no `fn main() {` signature; it never panics |
| Patcher.PatchSplice | src/lib/patcher.rs:18-28 | the corrected splice: the head, then the import block with its marker comment unless the head already imports the loader, then the signature, the indented call, and the text after the signature, around the leftmost signature |
| Patcher.PatchKeepsSurroundings | src/lib/patcher.rs:19-28 | with the corrected splice, the text before the signature is a prefix, and the signature with everything after it (behind the call) a suffix, of the patched text |
| Patcher.PatchReachesFullyPatched | src/lib/patcher.rs:21-28 | a successful patch always holds the call, and holds the loader import whenever the input was not already patched |
| Patcher.PatchIdempotent | src/lib/patcher.rs:10-13 | patching a patched result changes nothing |
| Patcher.PatchKeepsPattern | src/lib/patcher.rs:19-28 | with the corrected splice, any text that holds no `{`, no `fn` and does not end in `f` and that occurs in the input still occurs in the patched output |
| Patcher.PatchKeepsModFeatures | src/lib/patcher.rs:19-28 | with the corrected splice, a `mod features;` declaration survives patching |
| Patcher.PatchAsWritten | src/lib/patcher.rs:10-13 | the program's patch leaves a file that already holds `init_features();` unchanged: it returns without writing, so the file keeps its text |
| Patcher.AsWrittenSplice | src/lib/patcher.rs:18-28 | the program's patch of an unpatched file with leftmost signature `[st, en)` panics exactly when `st + en` lies past the end of the text, and otherwise keeps the text from `st + en` on, where the corrected patch keeps it from `en` on |
| Patcher.AsWrittenFailsIffNoMain | src/lib/patcher.rs:18-35 | the program's patch returns the error on an unpatched file exactly when the file has no signature |
| Patcher.AsWrittenAgreesIff | src/lib/patcher.rs:19-28 | the program's patch and the corrected one agree exactly when the file is already patched, has no signature, or has its leftmost signature at offset 0 |
| Patcher.AsWrittenReachesFullyPatched | src/lib/patcher.rs:21-28 | whatever the program's patch writes holds the call |
| Patcher.AsWrittenOnPlainMain | src/lib/patcher.rs:19-28 | for a file `head + fn main() { + body` with no underscore, whose head holds no `fn`, the corrected patch keeps the body, while the program keeps only the body past its first `\|head\|` characters and panics when the body is shorter than the head |
| Patcher.AsWrittenBreaksSkeleton | src/lib/patcher.rs:28 | on the `main.rs` that `keiros init` writes (signature at 27), the program drops the 27 characters after the brace, cutting into the `println!`; the corrected patch keeps them |
| Patcher.AsWrittenPanicsOnShortFile | src/lib/patcher.rs:28 | on `\n\nfn main() {}` the program panics, while the corrected patch succeeds |
| Patcher.SkeletonDeclaresFeatures | src/lib/patcher.rs:42-44 | the skeleton already declares `mod features;`, so declaring the module leaves it unchanged |
| Patcher.FirstMainLine | src/lib/patcher.rs:47-48 | the index found is of a line whose trimmed text starts `fn main`, with no such line before it; none is found only when no line qualifies |
| Patcher.InsertModLine | src/lib/patcher.rs:49-50 | one line more; the new line is `mod features;`, and removing it gives back the original lines in order |
| Patcher.InsertModLinePosition | src/lib/patcher.rs:47-50 | the declaration sits right in front of the first `fn main` line, or first when there is none |
| Patcher.EnsureMod | src/lib/patcher.rs:42-52 | the result always declares `mod features;`, and text that already declares it is left unchanged |
| Patcher.EnsureModIdempotent | src/lib/patcher.rs:42-44 | declaring the module twice is declaring it once |
| Patcher.EnsureModSplice | src/lib/patcher.rs:46-52 | on text without carriage returns, the declaration and a line feed are spliced in at the start of a line (the top when no line starts `main`), and the only other change is that a final line feed is dropped |
| Text.Trim | src/lib/patcher.rs:48 | the trimmed text is what is left after removing a whitespace-only prefix and a whitespace-only suffix, and it neither starts nor ends with whitespace |
| Text.TrimInside | src/main.rs:139 | trimming keeps an infix of the text, and keeps nothing exactly when the text is all whitespace |
| Text.Split | src/main.rs:138 | splitting gives at least one piece, and no piece holds the separator |
| Text.JoinSplit | src/main.rs:138 | joining the pieces of a split with the separator gives back the text |
| Text.SplitJoin | src/lib/compiler.rs:23 | splitting a join of at least one separator-free part gives back the parts |
| Text.Lines | src/main.rs:151 | no line holds a line feed, and the text has no lines exactly when it is empty |
| Text.LinesJoin | src/lib/patcher.rs:46-52 | on text without carriage returns, joining its lines with line feeds gives back the text without its final line feed |
| FeatureMap.EntryOf | src/lib/feature_map_gen.rs:26-43 | the entry has the call `init()` exactly when the file's text contains `pub fn init`; its path ends with the key and is the directory components and the key joined by `::` |
| FeatureMap.ScanFile | src/lib/feature_map_gen.rs:23-34 | one file gives its key and entry exactly when its path lies below `src`, has a component, and the file reads |
| FeatureMap.Scan | src/lib/feature_map_gen.rs:18-43 | a scan fails only when some `.rs` file of the walk cannot be read or placed |
| FeatureMap.ScanFailsIff | src/lib/feature_map_gen.rs:24-34 | the scan fails exactly when some `.rs` file cannot be placed or read; other walk entries never make it fail |
| FeatureMap.ScanKeys | src/lib/feature_map_gen.rs:18-43 | the keys of a successful scan are exactly the base names of the readable `.rs` files |
| FeatureMap.ScanLastWins | src/lib/feature_map_gen.rs:37-43 | a key maps to the entry of the last `.rs` file in walk order with that base name |
| FeatureMap.ScanSize | src/lib/feature_map_gen.rs:37-43 | a successful scan has no more entries than there are `.rs` files |
| FeatureMap.InitMarkerIsSubstring | src/lib/feature_map_gen.rs:35 | the marker is matched as a substring, so `pub fn initialize` also records the call |
| FeatureMap.ScanExample | src/lib/feature_map_gen.rs:18-43 | a walk with an initialising module, a non-`.rs` file and a plain module gives two entries with `::` paths, and the call only on the first |
| Seqs.ElementsCount | src/main.rs:188-202 | a list has at most as many distinct elements as entries, and exactly as many when no entry repeats |
| Reconcile.DropListeners | src/main.rs:119 | removing `http` and `socket` keeps every other feature in order and as often as before, and nothing else |
| Reconcile.OverrideListener | src/main.rs:117-121 | without a listener the features are unchanged; with one, it is the last feature |
| Reconcile.OverrideListenerContents | src/main.rs:117-121 | in front of the new listener stand exactly the non-listener features, in their original order, and the length is their count plus one |
| Reconcile.OverrideProfile | src/main.rs:117-121 | the override touches only the feature list of the profile |
| Reconcile.OverrideExample | src/main.rs:117-121 | `[http, execute_command]` overridden with `socket` becomes `[execute_command, socket]` |
| Reconcile.FromNames | src/main.rs:188-202 | the synthesized map has exactly the listed names as keys, each mapped to its own name as path and the call `init` |
| Reconcile.FromNamesSize | src/main.rs:188-202 | the synthesized map has one entry per distinct name, and as many entries as names exactly when no name repeats |
| Reconcile.FromNamesExample | src/main.rs:188-202 | two feature names give exactly two entries, each with its own name as path |
| Clean.KeepPrefixes | src/main.rs:136-141 | the `--keep` option gives no prefix when it is absent, and every prefix it gives is non-empty, has no surrounding whitespace and holds no comma |
| Clean.TrimNonEmpty | src/main.rs:138-140 | the kept pieces are exactly the non-empty trimmed pieces, in the order of the pieces, and no more than there were pieces |
| Clean.KeepPrefixesContents | src/main.rs:136-141 | the prefixes of `--keep s` are exactly the non-empty trimmed comma-separated pieces of `s`, in the order they are written |
| Clean.PaddedKeepList | src/main.rs:136-141 | for non-empty, trimmed, comma-free `a` and `b`, `--keep "a, b"` with a blank after the comma gives exactly the prefixes `a` and `b` |
| Clean.NothingToKeep | src/main.rs:136-141 | an empty or missing keep list protects nothing |
| Clean.KeepPrefixesRoundTrip | src/main.rs:136-141 | writing non-empty, trimmed, comma-free prefixes as a comma-separated list and parsing it gives them back |
| Clean.SelectImages | src/main.rs:151-155 | every chosen image was listed, starts `keiros-` and no keep prefix starts it, and there are no more chosen images than listed ones |
| Clean.SelectImagesCounts | src/main.rs:151-155 | each listed image is chosen as often as listed when it starts `keiros-` and no keep prefix starts it, and otherwise never; the choice keeps the listing order |
| Clean.SelectImagesMembers | src/main.rs:151-155 | an image is chosen exactly when it was listed, starts `keiros-`, and no keep prefix starts it |
| Clean.RemovalCommands | src/main.rs:163-167 | one `rmi -f` command per chosen image, in order |
| Clean.DryRunChoosesSame | src/main.rs:143-182 | a dry run chooses the same images as a full run but removes neither images nor the output directory; without docker both fail |
| Clean.FullRunRemovesChosen | src/main.rs:157-182 | a full run issues one `rmi -f` per chosen image, in order, and removes the output directory exactly when `--all` is given and it exists |
| Clean.HandleClean | src/main.rs:143-150 | `clean` fails exactly when `docker images` cannot be run; otherwise it acts on the images chosen from the listing |
| Clean.HandleCleanChoice | src/main.rs:143-155 | the images `clean` chooses are exactly the listed `keiros-` images that no keep prefix protects |
| Compiler.BoolText | src/lib/compiler.rs:21-22 | a boolean renders as `true` exactly when it is true, else `false` |
| Compiler.FlagText | src/lib/compiler.rs:21-22 | an optional flag renders as `true` exactly when it is set to true; absent counts as `false` |
| Compiler.TargetOf | src/lib/compiler.rs:17-20 | the target is the profile's, or `x86_64-unknown-linux-musl` when it names none |
| Compiler.BuildArgs | src/lib/compiler.rs:27-43 | `docker build` gets fourteen arguments, starting `build` and ending `-t keiros-builder .` |
| Compiler.RunArgs | src/lib/compiler.rs:61-68 | `docker run` gets five arguments: `run`, `--rm`, `-v`, the output directory mounted at `/output`, and the image `keiros-builder` |
| Compiler.SplitSetting | src/lib/compiler.rs:31-39 | a `KEY=VALUE` argument with an `=`-free key reads back as that key and value |
| Compiler.DecodeEncode | src/lib/compiler.rs:29-39 | reading `flag KEY=VALUE` pairs back from settings encoded with that flag gives the settings in order; the flag is `--build-arg` for the build and `-e` for the corrected run |
| Compiler.BuildArgsRead | src/lib/compiler.rs:14-43 | docker reads exactly five build arguments, in the order PROFILE, TARGET, RELEASE, STRIP, FEATURES: the trimmed name, the target or the musl default, `true` only for flags set to true, and the comma-joined features |
| Compiler.FeaturesArgRoundTrip | src/lib/compiler.rs:23 | the FEATURES value splits back into the enabled features when there is at least one and none holds a comma; no features give an empty value |
| Compiler.Compile | src/lib/compiler.rs:6-79 | `compile` returns true exactly when the daemon is up and accessible, the image exists or builds, and the container run succeeds; a down daemon returns false with no command issued; an inaccessible one ends the process; the image is built exactly when it is missing, and run exactly when it exists or was built, after the build |
| Compiler.CachedImageIgnoresProfile | src/lib/compiler.rs:25-53 | once `keiros-builder` exists, `compile` behaves the same for every profile and only runs the image |
| Compiler.ContainerValue | src/lib/init.rs:132-146 | the container of an image built for a profile reads that profile's settings, unless `docker run` sets the variable with `-e` |
| Compiler.CachedRunKeepsBuildSettings | src/lib/compiler.rs:61-68 | the program's `docker run` sets no variable, so the container reads every setting of the profile the image was built for |
| Compiler.CachedImageBuildsStaleFeatures | src/lib/compiler.rs:25-68 | with the image built for a profile enabling `http`, building the profile with `socket` instead only runs the image, reports success, and the container compiles FEATURES `http` |
| Compiler.FreshRunArgs | src/lib/compiler.rs:61-68 | the corrected `docker run` gets seventeen arguments: `run`, `--rm`, the settings, the output directory at `/output`, the project directory at `/app`, and the image |
| Compiler.FreshRunArgsRead | src/lib/compiler.rs:61-68 | the corrected run hands the container, as `-e` pairs, exactly the settings `docker build` gets, in the same order |
| Compiler.CompileFresh | src/lib/compiler.rs:6-79 | the corrected `compile` returns true and ends the process under the same conditions as `compile`, and every container run it issues carries the profile's settings |
| Compiler.CompileFreshAgrees | src/lib/compiler.rs:6-79 | the corrected `compile` ends the process exactly when `compile` does, returns the same verdict, issues the build exactly when `compile` does, and issues its run exactly when `compile` issues its own |
| Compiler.FreshRunUsesProfile | src/lib/compiler.rs:61-68 | with the corrected run the container reads each setting of the profile being built, whatever profile the cached image was built for |
| Compiler.FreshCompileDependsOnProfile | src/lib/compiler.rs:25-68 | once the container runs, the corrected `compile` acts differently for two profiles whose settings differ |
| Build.ExitCode | src/main.rs:66-98 | an error returned from the command gives status 1, a panic 101, `compile` ending the process 1, and status 0 means the command returned normally |
| Build.HandleBuildAsWritten | src/main.rs:111-131 | the profile is the loaded one with the listener override applied; the map handed to the loader generator has exactly that profile's features as keys, each recorded with the synthesized `init` call; the command succeeds exactly when the loader is generated and the program's patch writes, and panics exactly when the loader is generated and that patch panics; status 0 exactly when it succeeds and `compile` does not end the process, whatever `compile` returns; on success `main.rs` is what the program's patch writes from the text with `mod features;` declared, and holds the call; otherwise it is the text with `mod features;` declared |
| Build.AsWrittenIgnoresCompile | src/main.rs:128-130 | with the loader and the program's patch succeeding and the daemon down, `compile` returns false yet the command ends with status 0 |
| Build.DaemonDownStillSucceeds | src/main.rs:128-130 | an already patched `main.rs`, an empty profile and no docker daemon give status 0 although nothing was built |
| Build.BuildCorruptsSkeleton | src/main.rs:125-128 | building the project `keiros init` creates succeeds as written but leaves a `main.rs` missing the 27 characters after the brace, which the corrected build keeps |
| Build.HandleBuild | src/main.rs:111-131 | with the corrected patch, the corrected `compile`, and its verdict checked: the profile is the loaded one with the listener override applied; the map has exactly that profile's features as keys, each with the synthesized `init` call; `main.rs` is the corrected patch of the text with `mod features;` declared when the loader is generated and the patch succeeds, and that declared text otherwise; it always declares `mod features;` and holds the call on success; status 0 exactly when the loader is generated, the patch succeeds, and docker is up, accessible, has or builds the image, and runs it; the compile error arises exactly when `compile` returns false; every container run it issues carries the profile's settings |
| Build.HandleBuildKeepsEffects | src/main.rs:111-131 | the corrected command has the same profile and feature map as the original |
| Build.HandleBuildAgreesWhenPatchesAgree | src/main.rs:111-131 | where the two patches agree, the corrected command leaves the same `main.rs` as the original, and it succeeds only when the original does |
| Build.BuildSettlesMain | src/main.rs:125-128 | once a build gets past the patch, any later build with any profile, listener, loader or docker leaves `main.rs` as it is |
| Build.BuildRerunStable | src/main.rs:125-128 | running the same build again leaves `main.rs` as the first run left it, whatever that run did |
| Build.BuildMapsListener | src/main.rs:117-126 | with a listener, the map given to the loader generator holds that listener with call `init`, holds no other listener, and holds every other feature of the profile |

## Left out

- Reading and writing files, the directory walk and running `docker` are not modelled as
  effects. Their results are inputs, and the text to write is an output.
- Patcher.Patch: `fs::write` at src/lib/patcher.rs:30 discards its error. The model
  returns the text to write and does not model a failed write.
- Patcher.PatchAsWritten: offsets here count characters, while Rust's count bytes. The two
  agree on ASCII text. On other text the program's cut lands elsewhere, and it panics when
  the cut falls inside a character; neither is modelled.
- Build.HandleBuildAsWritten: does not promise that `main.rs` declares `mod features;`
  after a successful build. The program's splice can drop a declaration that lies among
  the characters it loses. `Build.HandleBuild` makes that promise.
- Patcher.EnsureModSplice: stated only for text without carriage returns. `str::lines`
  strips a `\r` before a line feed, and the join writes a bare line feed back, so on CRLF
  text the function also drops those carriage returns. `Lines` models that case, but no
  lemma describes its output.
- FeatureMap.Scan: the walk is given as a finite list of entries. Entries the walker could
  not read are dropped by `filter_map(Result::ok)`, so they are absent from the list.
  Writing `feature_map.yml` as YAML and the count message are not modelled.
- The `FeaturesMap` type and `generate_loader` come from `feature_loader.rs`, which is not
  part of this model. Loader generation is the input `loaderOk`.
- `list_registered_features`, `create_feature` and `register_feature_in_mod_rs` come from
  `features.rs`, which is not part of this model, so `handle_new_feature` is left out.
- `init_agent_structure` (src/lib/init.rs) is not part of this model. It only writes
  skeleton files.
- Profile loading (`BuildProfile::from_file`) is left out: it reads YAML. The loaded
  profile is an input to `Build.HandleBuild`. Argument parsing with clap is left out too.
- Compiler.CompileFresh: the corrected run mounts the project directory over `/app`.
  What the container then reads from it is not modelled, only the mount argument. Neither
  run passes SERVER_IP or LISTENER_PORT, which the Dockerfile declares but `compile` never
  sets; the model leaves them out. `projectDir` is an input, like `outputDir`.
- Compiler.Compile: the two `docker info` probes and `docker images -q` are inputs. So are
  the exit statuses of `docker build` and `docker run`.
  - Panics from `.expect` and `unwrap` when docker cannot be spawned are not modelled.
  - Creating `./target_output` is not modelled, and neither is its canonical path, which is
    the input `outputDir`.
- Clean.HandleClean: `String::from_utf8_lossy` is not modelled; the listing is given as
  text. A failing `docker rmi` is ignored by the source and so not modelled. A failing
  `remove_dir_all` is not modelled; the plan only says whether the directory is removed.
- Text.IsSpace: covers ASCII whitespace only. Rust's `trim` and the regex `\s` also accept
  Unicode spaces.
- Console messages are not modelled.

## Findings

| source | as written | input that shows it | evidently intended | confidence | as-written member | corrected member |
|---|---|---|---|---|---|---|
| src/lib/patcher.rs:28 | `&tail[main_match.end()..]` indexes the text from the signature on with the signature's end measured in the whole text, so the text kept after the call starts `start` characters too late, and the slice panics when `start + end` exceeds the length | the `main.rs` written by `keiros init` (signature at 27): the 27 characters after `{` are lost, cutting into the `println!`; and `\n\nfn main() {}`, where the slice panics | the text after the signature is kept whole: `&content[main_match.end()..]` | not executed | Patcher.AsWrittenBreaksSkeleton | Patcher.Patch |
| src/main.rs:129 | `compile(&profile);` discards the boolean verdict, and `handle_build` then returns `Ok(())`, so the process exits with status 0 | a `main.rs` already holding `mod features;` and `init_features();`, a profile with no features, and the docker daemon not running: `compile` returns false and nothing is built, yet the command succeeds | a failed compilation makes `build` fail with a non-zero exit status, as every other stage of the command does | not executed | Build.AsWrittenIgnoresCompile | Build.HandleBuild |
| src/lib/compiler.rs:61-68 | `docker run --rm -v <out>:/output keiros-builder` passes no setting and mounts no source, and the image is built only when missing, so the container compiles the settings and the sources copied in when the image was built (src/lib/init.rs:140-146, 164-166) | build a profile enabling `http`, then the same profile enabling `socket`: the second `compile` only runs the cached image, reports success, and the container compiles FEATURES `http` | every build compiles the current sources with the current profile's settings, while the image caches only the toolchain | not executed | Compiler.CachedImageBuildsStaleFeatures | Compiler.CompileFresh |
