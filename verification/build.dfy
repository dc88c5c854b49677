/** The `build` command of `src/main.rs` (`handle_build`): override the listener, make
    sure `mod features;` is declared, synthesize the feature map, generate the loader,
    patch `main.rs`, compile. The text of `src/main.rs` is threaded through; generating
    the loader and docker are inputs. */
module Build {
  import opened Wrappers
  import opened Seqs
  import opened Text
  import opened Profile
  import opened Patcher
  import opened FeatureMap
  import opened Reconcile
  import opened Compiler

  /** Why a `build` fails: the loader could not be generated, `main.rs` has no `main`,
      the splice of the patch panicked (as written), or (in the corrected command) the
      compilation failed. */
  datatype BuildError = LoaderFailed | PatchFailed(reason: PatchError) | PatchPanicked | CompileFailed

  /** What a `build` leaves behind: the profile after the listener override, the feature
      map handed to the loader generator, the final text of `src/main.rs`, and how the
      command ended. */
  datatype BuildRun = BuildRun(profile: BuildProfile, featureMap: FeaturesMap, mainRs: string,
                               outcome: Result<CompileOutcome, BuildError>)

  /** The exit status of the process: an error returned from `main` gives 1, a panic 101,
      `compile` ending the process 1, and a command that returns normally 0. */
  function ExitCode(outcome: Result<CompileOutcome, BuildError>): (code: int)
    ensures outcome == Failure(PatchPanicked) ==> code == 101
    ensures outcome.Failure? && outcome.error != PatchPanicked ==> code == 1
    ensures outcome == Success(Exited) ==> code == 1
    ensures code == 0 <==> outcome.Success? && outcome.value.Returned?
  {
    match outcome
    case Failure(PatchPanicked) => 101
    case Failure(_) => 1
    case Success(Exited) => 1
    case Success(Returned(_, _)) => 0
  }

  /** `handle_build` as written: `loaderOk` says whether `generate_loader` succeeds. The
      patch is the program's own (`PatchAsWritten`), and the verdict of `compile` is
      dropped (main.rs line 129). */
  function HandleBuildAsWritten(loaded: BuildProfile, listener: Option<string>, mainRs: string,
                                loaderOk: bool, docker: Docker, outputDir: string): (run: BuildRun)
    ensures run.profile == OverrideProfile(loaded, listener)
    ensures run.featureMap.Keys == Elements(run.profile.enabledFeatures)
    ensures forall k :: k in run.featureMap ==> run.featureMap[k] == FeatureEntry(k, Some(SynthesizedCall))
    ensures run.outcome.Success? <==> loaderOk && PatchAsWritten(EnsureMod(mainRs)).Wrote?
    ensures run.outcome == Failure(PatchPanicked) <==> loaderOk && PatchAsWritten(EnsureMod(mainRs)).Panicked?
    ensures ExitCode(run.outcome) == 0 <==>
      loaderOk && PatchAsWritten(EnsureMod(mainRs)).Wrote? && !(docker.running && !docker.accessible)
    ensures run.outcome.Success? ==> run.mainRs == PatchAsWritten(EnsureMod(mainRs)).text
    ensures run.outcome.Success? ==> StateOf(run.mainRs) == FullyPatched
    ensures !run.outcome.Success? ==> run.mainRs == EnsureMod(mainRs) && Contains(run.mainRs, ModFeatures)
  {
    var profile := OverrideProfile(loaded, listener);
    var declared := EnsureMod(mainRs);
    var featureMap := FromNames(profile.enabledFeatures);
    if !loaderOk then BuildRun(profile, featureMap, declared, Failure(LoaderFailed))
    else
      match PatchAsWritten(declared)
      case Failed(e) => BuildRun(profile, featureMap, declared, Failure(PatchFailed(e)))
      case Panicked => BuildRun(profile, featureMap, declared, Failure(PatchPanicked))
      case Wrote(patched) =>
        AsWrittenReachesFullyPatched(declared);
        BuildRun(profile, featureMap, patched, Success(Compile(profile, docker, outputDir)))
  }

  /** As written, a build whose compilation fails still ends with exit status 0 once the
      loader and the patch succeed: with the docker daemon down, say. */
  lemma AsWrittenIgnoresCompile(loaded: BuildProfile, listener: Option<string>, mainRs: string,
                                docker: Docker, outputDir: string)
    requires PatchAsWritten(EnsureMod(mainRs)).Wrote? && !docker.running
    ensures var run := HandleBuildAsWritten(loaded, listener, mainRs, true, docker, outputDir);
      run.outcome == Success(Returned(false, [])) && ExitCode(run.outcome) == 0
  {
  }

  /** A `main.rs` that is already fully set up for the loader. */
  const PatchedMain := ModFeatures + "\nfn main() {\n    " + InitCall + "\n}\n"

  /** The concrete case: an already patched `main.rs`, a profile with no features, and
      no docker daemon: nothing is built and the command still succeeds. */
  lemma DaemonDownStillSucceeds()
    ensures var run := HandleBuildAsWritten(BuildProfile("linux_agent", None, None, None, []), None,
                                            PatchedMain, true, Docker(false, false, false, false, false), "/out");
      Compile(run.profile, Docker(false, false, false, false, false), "/out") == Returned(false, [])
      && ExitCode(run.outcome) == 0
  {
    ContainsInfix([], ModFeatures, "\nfn main() {\n    " + InitCall + "\n}\n");
    assert [] + ModFeatures + ("\nfn main() {\n    " + InitCall + "\n}\n") == PatchedMain;
    ContainsInfix(ModFeatures + "\nfn main() {\n    ", InitCall, "\n}\n");
    AsWrittenIgnoresCompile(BuildProfile("linux_agent", None, None, None, []), None, PatchedMain,
                            Docker(false, false, false, false, false), "/out");
  }

  /** Building the project `keiros init` creates: the build as written succeeds, but
      leaves a `main.rs` that has lost the start of its `println!`, where the corrected
      build keeps it. */
  lemma BuildCorruptsSkeleton(loaded: BuildProfile, listener: Option<string>, docker: Docker, outputDir: string,
                              projectDir: string)
    ensures var run := HandleBuildAsWritten(loaded, listener, Skeleton, true, docker, outputDir);
      run.outcome.Success?
      && run.mainRs == SkeletonHead + Banner + LoaderImport + PlainSignature + InjectedCall + SkeletonRest
    ensures HandleBuild(loaded, listener, Skeleton, true, docker, outputDir, projectDir).mainRs
      == SkeletonHead + Banner + LoaderImport + PlainSignature + InjectedCall + SkeletonCut + SkeletonRest
  {
    SkeletonDeclaresFeatures();
    AsWrittenBreaksSkeleton();
  }

  /** `handle_build` with its defects mended: the patch keeps the text after the
      signature (`Patch`), the container is run with the profile's settings and the
      project's sources (`CompileFresh`; `projectDir` is the canonical path of the project
      directory), and a failed compilation is an error of the command. */
  function HandleBuild(loaded: BuildProfile, listener: Option<string>, mainRs: string,
                       loaderOk: bool, docker: Docker, outputDir: string, projectDir: string): (run: BuildRun)
    ensures run.profile == OverrideProfile(loaded, listener)
    ensures run.featureMap.Keys == Elements(run.profile.enabledFeatures)
    ensures forall k :: k in run.featureMap ==> run.featureMap[k] == FeatureEntry(k, Some(SynthesizedCall))
    ensures Contains(run.mainRs, ModFeatures)
    ensures loaderOk && Patch(EnsureMod(mainRs)).Success? ==> run.mainRs == Patch(EnsureMod(mainRs)).value
    ensures !(loaderOk && Patch(EnsureMod(mainRs)).Success?) ==> run.mainRs == EnsureMod(mainRs)
    ensures run.outcome.Success? ==> StateOf(run.mainRs) == FullyPatched
    ensures ExitCode(run.outcome) == 0 <==>
      && loaderOk && Patch(EnsureMod(mainRs)).Success?
      && docker.running && docker.accessible && (docker.imageExists || docker.buildSucceeds) && docker.runSucceeds
    ensures run.outcome.Success? && run.outcome.value.Returned? ==>
      forall c :: c in run.outcome.value.commands && |c| > 0 && c[0] == "run" ==> EnvPairs(c) == BuildSettings(run.profile)
    ensures run.outcome == Failure(CompileFailed) <==>
      && loaderOk && Patch(EnsureMod(mainRs)).Success?
      && (!docker.running || (docker.accessible && !((docker.imageExists || docker.buildSucceeds) && docker.runSucceeds)))
  {
    var profile := OverrideProfile(loaded, listener);
    var declared := EnsureMod(mainRs);
    var featureMap := FromNames(profile.enabledFeatures);
    if !loaderOk then BuildRun(profile, featureMap, declared, Failure(LoaderFailed))
    else
      match Patch(declared)
      case Failure(e) => BuildRun(profile, featureMap, declared, Failure(PatchFailed(e)))
      case Success(patched) =>
        PatchReachesFullyPatched(declared);
        PatchKeepsModFeatures(declared);
        var compiled := CompileFresh(profile, docker, outputDir, projectDir);
        var outcome := if compiled.Returned? && !compiled.ok then Failure(CompileFailed) else Success(compiled);
        BuildRun(profile, featureMap, patched, outcome)
  }

  /** The corrected command computes the same profile and feature map as the original. */
  lemma HandleBuildKeepsEffects(loaded: BuildProfile, listener: Option<string>, mainRs: string,
                                loaderOk: bool, docker: Docker, outputDir: string, projectDir: string)
    ensures var fixed := HandleBuild(loaded, listener, mainRs, loaderOk, docker, outputDir, projectDir);
      var orig := HandleBuildAsWritten(loaded, listener, mainRs, loaderOk, docker, outputDir);
      fixed.profile == orig.profile && fixed.featureMap == orig.featureMap
  {
  }

  /** Where the two patches agree, the corrected command leaves the same `main.rs` as the
      original, and it succeeds only when the original does. */
  lemma HandleBuildAgreesWhenPatchesAgree(loaded: BuildProfile, listener: Option<string>, mainRs: string,
                                          loaderOk: bool, docker: Docker, outputDir: string, projectDir: string)
    requires PatchAsWritten(EnsureMod(mainRs)) == RunOf(Patch(EnsureMod(mainRs)))
    ensures var fixed := HandleBuild(loaded, listener, mainRs, loaderOk, docker, outputDir, projectDir);
      var orig := HandleBuildAsWritten(loaded, listener, mainRs, loaderOk, docker, outputDir);
      fixed.mainRs == orig.mainRs && (ExitCode(fixed.outcome) == 0 ==> ExitCode(orig.outcome) == 0)
  {
    if loaderOk && Patch(EnsureMod(mainRs)).Success? {
      CompileFreshAgrees(OverrideProfile(loaded, listener), docker, outputDir, projectDir);
    }
  }

  /** Once a build has got past the patch, `main.rs` is final: any later build, with any
      profile, listener, loader or docker, leaves it as it is. */
  lemma BuildSettlesMain(loaded: BuildProfile, listener: Option<string>, mainRs: string,
                         docker: Docker, outputDir: string, projectDir: string,
                         loaded2: BuildProfile, listener2: Option<string>, loaderOk2: bool,
                         docker2: Docker, outputDir2: string, projectDir2: string)
    requires Patch(EnsureMod(mainRs)).Success?
    ensures var first := HandleBuild(loaded, listener, mainRs, true, docker, outputDir, projectDir).mainRs;
      HandleBuild(loaded2, listener2, first, loaderOk2, docker2, outputDir2, projectDir2).mainRs == first
  {
    var declared := EnsureMod(mainRs);
    var first := Patch(declared).value;
    PatchKeepsModFeatures(declared);
    PatchIdempotent(declared);
    assert EnsureMod(first) == first;
  }

  /** Running the same build again changes `main.rs` no further, whatever the first run
      did. */
  lemma BuildRerunStable(loaded: BuildProfile, listener: Option<string>, mainRs: string,
                         loaderOk: bool, docker: Docker, outputDir: string, projectDir: string)
    ensures var first := HandleBuild(loaded, listener, mainRs, loaderOk, docker, outputDir, projectDir).mainRs;
      HandleBuild(loaded, listener, first, loaderOk, docker, outputDir, projectDir).mainRs == first
  {
    var declared := EnsureMod(mainRs);
    EnsureModIdempotent(mainRs);
    if loaderOk && Patch(declared).Success? {
      var first := Patch(declared).value;
      PatchKeepsModFeatures(declared);
      PatchIdempotent(declared);
      assert EnsureMod(first) == first;
    }
  }

  /** With a listener given, the map handed to the loader generator holds that listener
      and no other listener, and every other feature of the profile. */
  lemma BuildMapsListener(loaded: BuildProfile, l: string, mainRs: string,
                          loaderOk: bool, docker: Docker, outputDir: string, projectDir: string, f: string)
    ensures var m := HandleBuild(loaded, Some(l), mainRs, loaderOk, docker, outputDir, projectDir).featureMap;
      && l in m && m[l] == FeatureEntry(l, Some(SynthesizedCall))
      && (f in m <==> f == l || (f in loaded.enabledFeatures && !IsListener(f)))
  {
    OverrideListenerContents(loaded.enabledFeatures, l);
  }
}
