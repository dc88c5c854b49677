/** `src/lib/compiler.rs`: the arguments handed to `docker build` and `docker run`, and
    the decision `compile` takes from what docker reports. Every docker invocation is an
    input here (`Docker`); the model records which build and run commands are issued. */
module Compiler {
  import opened Wrappers
  import opened Text
  import opened Profile

  /** The target used when the profile names none. */
  const DefaultTarget := "x86_64-unknown-linux-musl"

  /** The one image every profile is built into and run from. */
  const ImageName := "keiros-builder"

  /** The flag that introduces a `KEY=VALUE` build argument. */
  const BuildArgFlag := "--build-arg"

  /** The Rust rendering of a boolean, `bool::to_string`. */
  function BoolText(b: bool): (r: string)
    ensures r == "true" || r == "false"
    ensures r == "true" <==> b
  {
    if b then "true" else "false"
  }

  /** An optional flag of the profile, absent meaning `false`. */
  function FlagText(flag: Option<bool>): (r: string)
    ensures r == "true" <==> flag == Some(true)
    ensures r == "false" <==> flag != Some(true)
  {
    BoolText(flag.GetOr(false))
  }

  function TargetOf(p: BuildProfile): (t: string)
    ensures p.target.None? ==> t == DefaultTarget
    ensures p.target.Some? ==> t == p.target.value
  {
    p.target.GetOr(DefaultTarget)
  }

  /** The build arguments of a profile, in the order they are passed. */
  function BuildSettings(p: BuildProfile): seq<(string, string)> {
    [("PROFILE", Trim(p.name)),
     ("TARGET", TargetOf(p)),
     ("RELEASE", FlagText(p.release)),
     ("STRIP", FlagText(p.strip)),
     ("FEATURES", Join(p.enabledFeatures, ","))]
  }

  /** Each setting as `flag KEY=VALUE`: `--build-arg` for `docker build`, `-e` for the
      corrected `docker run`. */
  function EncodeSettings(flag: string, settings: seq<(string, string)>): (args: seq<string>)
    ensures |args| == 2 * |settings|
  {
    if settings == [] then []
    else [flag, settings[0].0 + "=" + settings[0].1] + EncodeSettings(flag, settings[1..])
  }

  /** The arguments of `docker build` (compiler.rs lines 28-43). */
  function BuildArgs(p: BuildProfile): (args: seq<string>)
    ensures |args| == 14 && args[0] == "build"
    ensures args[11..] == ["-t", ImageName, "."]
  {
    ["build"] + EncodeSettings(BuildArgFlag, BuildSettings(p)) + ["-t", ImageName, "."]
  }

  /** The arguments of `docker run`, mounting the output directory at `/output`. */
  function RunArgs(outputDir: string): (args: seq<string>)
    ensures |args| == 5 && args[0] == "run" && args[4] == ImageName
    ensures args[1..4] == ["--rm", "-v", outputDir + ":/output"]
  {
    ["run", "--rm", "-v", outputDir + ":/output", ImageName]
  }

  // ---------------------------------------------------------------------------
  // Reading the build arguments back, as docker does

  /** The key of `KEY=VALUE`: the text before the first `=`. */
  function ArgKey(arg: string): string {
    if '=' in arg then arg[..IndexOf(arg, '=')] else arg
  }

  /** The value of `KEY=VALUE`: the text after the first `=`. */
  function ArgValue(arg: string): string {
    if '=' in arg then arg[IndexOf(arg, '=') + 1..] else ""
  }

  /** The `KEY=VALUE` pairs introduced by `flag`, in order. */
  function FlagPairs(flag: string, args: seq<string>): seq<(string, string)>
    decreases |args|
  {
    if |args| < 2 then []
    else if args[0] == flag then [(ArgKey(args[1]), ArgValue(args[1]))] + FlagPairs(flag, args[2..])
    else FlagPairs(flag, args[1..])
  }

  /** The build arguments docker reads from a `docker build` command line. */
  function BuildArgPairs(args: seq<string>): seq<(string, string)> {
    FlagPairs(BuildArgFlag, args)
  }

  /** A key without `=` is read back from `KEY=VALUE` whatever the value holds. */
  lemma SplitSetting(key: string, value: string)
    requires '=' !in key
    ensures ArgKey(key + "=" + value) == key
    ensures ArgValue(key + "=" + value) == value
  {
    var s := key + "=" + value;
    assert s[|key|] == '=';
    var i := IndexOf(s, '=');
    assert s[..|key|] == key;
    assert s[|key| + 1..] == value;
  }

  /** Reading encoded settings gives them back, when no key holds `=`. */
  lemma {:induction false} DecodeEncode(flag: string, settings: seq<(string, string)>, rest: seq<string>)
    requires forall k :: 0 <= k < |settings| ==> '=' !in settings[k].0
    ensures FlagPairs(flag, EncodeSettings(flag, settings) + rest) == settings + FlagPairs(flag, rest)
    decreases |settings|
  {
    if settings == [] {
      assert EncodeSettings(flag, settings) + rest == rest;
    } else {
      var tail := settings[1..];
      forall k | 0 <= k < |tail| ensures '=' !in tail[k].0 {
        assert tail[k] == settings[k + 1];
      }
      DecodeEncode(flag, tail, rest);
      DecodeFront(flag, settings, rest);
    }
  }

  /** One step of the round trip: the first setting is read back in front of the rest. */
  lemma DecodeFront(flag: string, settings: seq<(string, string)>, rest: seq<string>)
    requires settings != [] && '=' !in settings[0].0
    requires FlagPairs(flag, EncodeSettings(flag, settings[1..]) + rest) == settings[1..] + FlagPairs(flag, rest)
    ensures FlagPairs(flag, EncodeSettings(flag, settings) + rest) == settings + FlagPairs(flag, rest)
  {
    var s0, tail := settings[0], settings[1..];
    var arg, later := s0.0 + "=" + s0.1, EncodeSettings(flag, tail) + rest;
    calc {
      FlagPairs(flag, EncodeSettings(flag, settings) + rest);
      { EncodeFront(flag, settings, rest); }
      FlagPairs(flag, [flag, arg] + later);
      { PairsAfterFlag(flag, arg, later); }
      [(ArgKey(arg), ArgValue(arg))] + FlagPairs(flag, later);
      { SplitSetting(s0.0, s0.1); }
      [s0] + (tail + FlagPairs(flag, rest));
      { assert settings == [s0] + tail; }
      settings + FlagPairs(flag, rest);
    }
  }

  /** The first setting is encoded in front of the others. */
  lemma EncodeFront(flag: string, settings: seq<(string, string)>, rest: seq<string>)
    requires settings != []
    ensures EncodeSettings(flag, settings) + rest ==
      [flag, settings[0].0 + "=" + settings[0].1] + (EncodeSettings(flag, settings[1..]) + rest)
  {
  }

  /** A flag and its argument are read as one pair in front of the rest. */
  lemma PairsAfterFlag(flag: string, arg: string, later: seq<string>)
    ensures FlagPairs(flag, [flag, arg] + later) == [(ArgKey(arg), ArgValue(arg))] + FlagPairs(flag, later)
  {
    assert ([flag, arg] + later)[2..] == later;
  }

  /** The image tag and build context follow the build arguments and are not read as one. */
  lemma TrailerHasNoBuildArgs()
    ensures BuildArgPairs(["-t", ImageName, "."]) == []
  {
    assert "-t" != BuildArgFlag && ImageName != BuildArgFlag;
    assert ["-t", ImageName, "."][1..] == [ImageName, "."];
    assert [ImageName, "."][1..] == ["."];
    assert BuildArgPairs(["."]) == [];
    assert BuildArgPairs([ImageName, "."]) == [];
  }

  /** Docker reads exactly five build arguments, in the order PROFILE, TARGET, RELEASE,
      STRIP, FEATURES: the trimmed profile name, the target (the musl target when none
      is given), `true` only for a flag set to true, and the comma-joined features. */
  lemma BuildArgsRead(p: BuildProfile)
    ensures var pairs := BuildArgPairs(BuildArgs(p));
      && |pairs| == 5
      && pairs[0] == ("PROFILE", Trim(p.name))
      && pairs[1] == ("TARGET", if p.target.Some? then p.target.value else DefaultTarget)
      && pairs[2] == ("RELEASE", if p.release == Some(true) then "true" else "false")
      && pairs[3] == ("STRIP", if p.strip == Some(true) then "true" else "false")
      && pairs[4] == ("FEATURES", Join(p.enabledFeatures, ","))
  {
    ReadBackSettings(p);
  }

  lemma ReadBackSettings(p: BuildProfile)
    ensures BuildArgPairs(BuildArgs(p)) == BuildSettings(p)
  {
    var settings := BuildSettings(p);
    var args := BuildArgs(p);
    assert args[1..] == EncodeSettings(BuildArgFlag, settings) + ["-t", ImageName, "."];
    assert "build" != BuildArgFlag;
    assert BuildArgPairs(args) == BuildArgPairs(args[1..]);
    SettingKeysPlain(p);
    DecodeEncode(BuildArgFlag, settings, ["-t", ImageName, "."]);
    TrailerHasNoBuildArgs();
    assert settings + [] == settings;
  }

  lemma SettingKeysPlain(p: BuildProfile)
    ensures forall k :: 0 <= k < |BuildSettings(p)| ==> '=' !in BuildSettings(p)[k].0
  {
    var keys := ["PROFILE", "TARGET", "RELEASE", "STRIP", "FEATURES"];
    forall k | 0 <= k < 5 ensures BuildSettings(p)[k].0 == keys[k] {}
    forall k | 0 <= k < 5 ensures '=' !in keys[k] {
      NoEqualsIn(keys[k]);
    }
  }

  /** No build-argument key holds `=`: each is written in capitals. */
  lemma NoEqualsIn(key: string)
    requires forall c :: c in key ==> 'A' <= c <= 'Z'
    ensures '=' !in key
  {
  }

  /** The FEATURES build argument gives back the enabled features, one per comma-separated
      piece, when there is at least one and none holds a comma; no features give an
      empty value. */
  lemma FeaturesArgRoundTrip(p: BuildProfile)
    ensures var pairs := BuildArgPairs(BuildArgs(p));
      && |pairs| == 5 && pairs[4].0 == "FEATURES"
      && (p.enabledFeatures == [] ==> pairs[4].1 == "")
      && (|p.enabledFeatures| >= 1 && (forall k :: 0 <= k < |p.enabledFeatures| ==> ',' !in p.enabledFeatures[k]) ==>
            Split(pairs[4].1, ',') == p.enabledFeatures)
  {
    BuildArgsRead(p);
    if |p.enabledFeatures| >= 1 && (forall k :: 0 <= k < |p.enabledFeatures| ==> ',' !in p.enabledFeatures[k]) {
      SplitJoin(p.enabledFeatures, ',');
    }
  }

  // ---------------------------------------------------------------------------
  // The compile decision

  /** What docker reports to `compile`, in the order it asks: `docker info` (twice: the
      daemon check and the access check), `docker images -q keiros-builder`, the exit
      status of `docker build` and that of `docker run`. */
  datatype Docker = Docker(running: bool, accessible: bool, imageExists: bool,
                           buildSucceeds: bool, runSucceeds: bool)

  /** `compile` either returns its verdict, having issued the recorded docker commands,
      or ends the process (`std::process::exit(1)`). */
  datatype CompileOutcome = Returned(ok: bool, commands: seq<seq<string>>) | Exited

  /** `compile`: `outputDir` is the canonical path of `./target_output`. */
  function Compile(p: BuildProfile, docker: Docker, outputDir: string): (r: CompileOutcome)
    ensures (r.Returned? && r.ok) <==>
      docker.running && docker.accessible && (docker.imageExists || docker.buildSucceeds) && docker.runSucceeds
    ensures !docker.running ==> r == Returned(false, [])
    ensures r.Exited? <==> docker.running && !docker.accessible
    ensures r.Returned? ==> (BuildArgs(p) in r.commands <==> docker.running && !docker.imageExists)
    ensures r.Returned? ==>
      (RunArgs(outputDir) in r.commands <==> docker.running && (docker.imageExists || docker.buildSucceeds))
    ensures r.Returned? && |r.commands| == 2 ==> r.commands == [BuildArgs(p), RunArgs(outputDir)]
    ensures r.Returned? ==> |r.commands| <= 2
  {
    CompileWith(p, docker, RunArgs(outputDir))
  }

  /** The decisions of `compile`, whatever the arguments of its `docker run` are: those
      of the program (`RunArgs`) or the corrected ones (`FreshRunArgs`). */
  function CompileWith(p: BuildProfile, docker: Docker, run: seq<string>): (r: CompileOutcome)
    requires |run| >= 1 && run[0] == "run"
    ensures (r.Returned? && r.ok) <==>
      docker.running && docker.accessible && (docker.imageExists || docker.buildSucceeds) && docker.runSucceeds
    ensures !docker.running ==> r == Returned(false, [])
    ensures r.Exited? <==> docker.running && !docker.accessible
    ensures r.Returned? ==> (BuildArgs(p) in r.commands <==> docker.running && !docker.imageExists)
    ensures r.Returned? ==> (run in r.commands <==> docker.running && (docker.imageExists || docker.buildSucceeds))
    ensures r.Returned? && docker.running && docker.imageExists ==> r.commands == [run]
    ensures r.Returned? && |r.commands| == 2 ==> r.commands == [BuildArgs(p), run]
    ensures r.Returned? ==> |r.commands| <= 2
    ensures r.Returned? ==> forall c :: c in r.commands ==> c == BuildArgs(p) || c == run
  {
    if !docker.running then Returned(false, [])
    else if !docker.accessible then Exited
    else
      var build := if docker.imageExists then [] else [BuildArgs(p)];
      if !docker.imageExists && !docker.buildSucceeds then Returned(false, build)
      else Returned(docker.runSucceeds, build + [run])
  }

  /** Once `keiros-builder` exists it is run as it is: what `compile` does no longer
      depends on the profile at all. */
  lemma CachedImageIgnoresProfile(p: BuildProfile, q: BuildProfile, docker: Docker, outputDir: string)
    requires docker.imageExists
    ensures Compile(p, docker, outputDir) == Compile(q, docker, outputDir)
    ensures Compile(p, docker, outputDir).Returned? ==>
      forall c :: c in Compile(p, docker, outputDir).commands ==> c == RunArgs(outputDir)
  {
  }

  // ---------------------------------------------------------------------------
  // What the container compiles

  /** The flag that sets an environment variable of `docker run`. */
  const EnvFlag := "-e"

  /** The environment variables set on a `docker run` command line, in order. */
  function EnvPairs(args: seq<string>): seq<(string, string)> {
    FlagPairs(EnvFlag, args)
  }

  /** The value the last pair for `key` gives it, if any pair names it. */
  function Lookup(pairs: seq<(string, string)>, key: string): (v: Option<string>)
    ensures v.None? <==> forall k :: 0 <= k < |pairs| ==> pairs[k].0 != key
    ensures v.Some? ==> (key, v.value) in pairs
    decreases |pairs|
  {
    if pairs == [] then None
    else if pairs[|pairs| - 1].0 == key then Some(pairs[|pairs| - 1].1)
    else
      var earlier := pairs[..|pairs| - 1];
      assert forall k :: 0 <= k < |earlier| ==> earlier[k] == pairs[k];
      Lookup(earlier, key)
  }

  /** A later pair for the same key overrides an earlier one: the value found is that of
      the last pair naming the key. */
  lemma {:induction false} LookupLast(pairs: seq<(string, string)>, key: string, k: int)
    requires 0 <= k < |pairs| && pairs[k].0 == key
    requires forall j :: k < j < |pairs| ==> pairs[j].0 != key
    ensures Lookup(pairs, key) == Some(pairs[k].1)
    decreases |pairs|
  {
    if k < |pairs| - 1 {
      var earlier := pairs[..|pairs| - 1];
      assert earlier[k] == pairs[k];
      forall j | k < j < |earlier| ensures earlier[j].0 != key {
        assert earlier[j] == pairs[j];
      }
      LookupLast(earlier, key, k);
    }
  }

  /** What the build inside the container reads for `key`, when the image was built for
      the profile `built`. The image keeps its build arguments as its environment (the
      Dockerfile's `ENV KEY=${KEY}`, init.rs lines 140-146), and a `-e` of `docker run`
      overrides them. */
  function ContainerValue(built: BuildProfile, run: seq<string>, key: string): (v: Option<string>)
    ensures Lookup(EnvPairs(run), key).Some? ==> v == Lookup(EnvPairs(run), key)
    ensures Lookup(EnvPairs(run), key).None? ==> v == Lookup(BuildSettings(built), key)
    ensures EnvPairs(run) == [] ==> v == Lookup(BuildSettings(built), key)
  {
    ReadBackSettings(built);
    var given := Lookup(EnvPairs(run), key);
    if given.Some? then given else Lookup(BuildArgPairs(BuildArgs(built)), key)
  }

  /** Arguments none of which is `flag` are read as no pair at all. */
  lemma NoFlagNoPairs(flag: string, args: seq<string>)
    requires forall k :: 0 <= k < |args| ==> args[k] != flag
    ensures FlagPairs(flag, args) == []
    decreases |args|
  {
    if |args| >= 2 {
      NoFlagNoPairs(flag, args[1..]);
    }
  }

  /** As written, `docker run` sets no environment variable, so the container of a
      cached image compiles with the settings of the profile the image was built for. */
  lemma CachedRunKeepsBuildSettings(built: BuildProfile, outputDir: string, key: string)
    ensures EnvPairs(RunArgs(outputDir)) == []
    ensures ContainerValue(built, RunArgs(outputDir), key) == Lookup(BuildSettings(built), key)
  {
    var args := RunArgs(outputDir);
    assert |args[3]| == |outputDir| + 8;
    NoFlagNoPairs(EnvFlag, args);
  }

  /** The concrete case: the image was built for a profile enabling `http`, and the same
      profile now enables `socket`. `compile` only runs the cached image and reports
      success, and the container compiles FEATURES `http`. */
  lemma CachedImageBuildsStaleFeatures()
    ensures var first := BuildProfile("linux_agent", None, None, None, ["http"]);
      var now := BuildProfile("linux_agent", None, None, None, ["socket"]);
      var docker := Docker(true, true, true, true, true);
      && Compile(now, docker, "/out") == Returned(true, [RunArgs("/out")])
      && ContainerValue(first, RunArgs("/out"), "FEATURES") == Some("http")
      && Lookup(BuildSettings(now), "FEATURES") == Some("socket")
  {
    var first := BuildProfile("linux_agent", None, None, None, ["http"]);
    CachedRunKeepsBuildSettings(first, "/out", "FEATURES");
  }

  /** Where the project directory is mounted in the corrected run: over the copies of
      `build_profiles`, `src` and `Cargo.toml` the image took when it was built. */
  const AppDir := "/app"

  /** The corrected arguments of `docker run`: the profile's settings as `-e KEY=VALUE`,
      the output directory at `/output` and the project directory at `/app`. */
  function FreshRunArgs(p: BuildProfile, outputDir: string, projectDir: string): (args: seq<string>)
    ensures |args| == 17 && args[0] == "run" && args[1] == "--rm" && args[16] == ImageName
    ensures args[12..16] == ["-v", outputDir + ":/output", "-v", projectDir + ":" + AppDir]
  {
    ["run", "--rm"] + EncodeSettings(EnvFlag, BuildSettings(p)) + FreshTrailer(outputDir, projectDir)
  }

  /** The corrected run hands the container exactly the settings `docker build` gets. */
  lemma FreshRunArgsRead(p: BuildProfile, outputDir: string, projectDir: string)
    ensures EnvPairs(FreshRunArgs(p, outputDir, projectDir)) == BuildSettings(p)
  {
    var settings := BuildSettings(p);
    var trailer := FreshTrailer(outputDir, projectDir);
    var middle := EncodeSettings(EnvFlag, settings) + trailer;
    assert FreshRunArgs(p, outputDir, projectDir) == ["run", "--rm"] + middle;
    SkipTwo(EnvFlag, "run", "--rm", middle);
    SettingKeysPlain(p);
    DecodeEncode(EnvFlag, settings, trailer);
    TrailerSetsNothing(outputDir, projectDir);
    assert settings + [] == settings;
  }

  /** The mounts and the image that end the corrected run. */
  function FreshTrailer(outputDir: string, projectDir: string): seq<string> {
    ["-v", outputDir + ":/output", "-v", projectDir + ":" + AppDir, ImageName]
  }

  lemma TrailerSetsNothing(outputDir: string, projectDir: string)
    ensures EnvPairs(FreshTrailer(outputDir, projectDir)) == []
  {
    var trailer := FreshTrailer(outputDir, projectDir);
    assert |trailer[1]| == |outputDir| + 8 && |trailer[3]| == |projectDir| + 5;
    NoFlagNoPairs(EnvFlag, trailer);
  }

  /** Two arguments that are not `flag` are skipped. */
  lemma SkipTwo(flag: string, a: string, b: string, rest: seq<string>)
    requires a != flag && b != flag
    ensures FlagPairs(flag, [a, b] + rest) == FlagPairs(flag, rest)
  {
    assert ([a, b] + rest)[1..] == [b] + rest;
    assert ([b] + rest)[1..] == rest;
    if rest == [] {
      assert FlagPairs(flag, [b] + rest) == [];
    }
  }

  /** The corrected `compile`: the same decisions, with the corrected run. */
  function CompileFresh(p: BuildProfile, docker: Docker, outputDir: string, projectDir: string): (r: CompileOutcome)
    ensures (r.Returned? && r.ok) <==>
      docker.running && docker.accessible && (docker.imageExists || docker.buildSucceeds) && docker.runSucceeds
    ensures r.Exited? <==> docker.running && !docker.accessible
    ensures r.Returned? ==> forall c :: c in r.commands && |c| > 0 && c[0] == "run" ==> EnvPairs(c) == BuildSettings(p)
  {
    FreshRunArgsRead(p, outputDir, projectDir);
    CompileWith(p, docker, FreshRunArgs(p, outputDir, projectDir))
  }

  /** The corrected `compile` takes the decisions of `compile` and issues the same build;
      only the run differs. */
  lemma CompileFreshAgrees(p: BuildProfile, docker: Docker, outputDir: string, projectDir: string)
    ensures var a, b := Compile(p, docker, outputDir), CompileFresh(p, docker, outputDir, projectDir);
      && (a.Exited? <==> b.Exited?)
      && (a.Returned? ==>
            && b.Returned? && b.ok == a.ok
            && (BuildArgs(p) in a.commands <==> BuildArgs(p) in b.commands)
            && (RunArgs(outputDir) in a.commands <==> FreshRunArgs(p, outputDir, projectDir) in b.commands))
  {
  }

  /** With the corrected run the container compiles the profile being built, whichever
      profile the cached image was built for: each setting the profile gives wins over
      the image's. */
  lemma FreshRunUsesProfile(built: BuildProfile, p: BuildProfile, outputDir: string, projectDir: string, key: string)
    ensures var now := Lookup(BuildSettings(p), key);
      ContainerValue(built, FreshRunArgs(p, outputDir, projectDir), key)
        == if now.Some? then now else Lookup(BuildSettings(built), key)
  {
    FreshRunArgsRead(p, outputDir, projectDir);
    ReadBackSettings(built);
  }

  /** Unlike `compile` with a cached image, the corrected `compile` tells apart two
      profiles whose settings differ whenever it runs the container. */
  lemma FreshCompileDependsOnProfile(p: BuildProfile, q: BuildProfile, docker: Docker,
                                     outputDir: string, projectDir: string)
    requires docker.running && docker.accessible && (docker.imageExists || docker.buildSucceeds)
    requires BuildSettings(p) != BuildSettings(q)
    ensures CompileFresh(p, docker, outputDir, projectDir) != CompileFresh(q, docker, outputDir, projectDir)
  {
    FreshRunArgsRead(p, outputDir, projectDir);
    FreshRunArgsRead(q, outputDir, projectDir);
    FreshRunIsLast(p, docker, outputDir, projectDir);
    FreshRunIsLast(q, docker, outputDir, projectDir);
  }

  /** Once the container runs, the corrected run is the last command issued. */
  lemma FreshRunIsLast(p: BuildProfile, docker: Docker, outputDir: string, projectDir: string)
    requires docker.running && docker.accessible && (docker.imageExists || docker.buildSucceeds)
    ensures var r := CompileFresh(p, docker, outputDir, projectDir);
      r.Returned? && |r.commands| > 0 && r.commands[|r.commands| - 1] == FreshRunArgs(p, outputDir, projectDir)
  {
  }
}
