/** Reconciling a profile with the command line and the feature map (`src/main.rs`):
    the listener override of `handle_build` and `generate_feature_map_from_vec`. */
module Reconcile {
  import opened Wrappers
  import opened Seqs
  import opened Profile
  import opened FeatureMap

  /** The features that act as network listeners; only one is compiled in. */
  predicate IsListener(f: string) {
    f == "http" || f == "socket"
  }

  /** `retain(|f| f != "http" && f != "socket")`: the non-listener features in their order,
      each as often as before. */
  function DropListeners(fs: seq<string>): (r: seq<string>)
    ensures forall x :: multiset(r)[x] == if IsListener(x) then 0 else multiset(fs)[x]
    ensures |r| == |fs| - multiset(fs)["http"] - multiset(fs)["socket"]
    ensures Subsequence(r, fs)
    decreases |fs|
  {
    if fs == [] then []
    else
      assert fs == [fs[0]] + fs[1..];
      var rest := DropListeners(fs[1..]);
      if IsListener(fs[0]) then rest else [fs[0]] + rest
  }

  /** The override of `handle_build`: with a listener, every listener feature is removed
      and the given one appended; without one, the list is left alone. */
  function OverrideListener(fs: seq<string>, listener: Option<string>): (r: seq<string>)
    ensures listener.None? ==> r == fs
    ensures listener.Some? ==> |r| > 0 && r[|r| - 1] == listener.value
  {
    match listener
    case None => fs
    case Some(l) => DropListeners(fs) + [l]
  }

  /** What the override leaves in front of the new listener: exactly the non-listener
      features, in their original order and multiplicity; the length is their count plus
      one even when the listener was already in the list. */
  lemma OverrideListenerContents(fs: seq<string>, l: string)
    ensures var r := OverrideListener(fs, Some(l));
      && r[..|r| - 1] == DropListeners(fs)
      && (forall x :: x in r[..|r| - 1] <==> x in fs && !IsListener(x))
      && Subsequence(r[..|r| - 1], fs)
      && |r| == |fs| - multiset(fs)["http"] - multiset(fs)["socket"] + 1
  {
    var r := OverrideListener(fs, Some(l));
    var kept := DropListeners(fs);
    assert r[..|r| - 1] == kept;
    forall x ensures x in kept <==> x in fs && !IsListener(x) {
      assert x in kept <==> multiset(kept)[x] > 0;
      assert x in fs <==> multiset(fs)[x] > 0;
    }
  }

  /** The profile as `handle_build` hands it on after the override. */
  function OverrideProfile(p: BuildProfile, listener: Option<string>): (q: BuildProfile)
    ensures q.name == p.name && q.target == p.target && q.release == p.release && q.strip == p.strip
    ensures q.enabledFeatures == OverrideListener(p.enabledFeatures, listener)
  {
    p.(enabledFeatures := OverrideListener(p.enabledFeatures, listener))
  }

  /** The override example: `[http, execute_command]` with listener `socket`. */
  lemma OverrideExample()
    ensures OverrideListener(["http", "execute_command"], Some("socket")) == ["execute_command", "socket"]
  {
    assert ["http", "execute_command"][1..] == ["execute_command"];
    assert ["execute_command"][1..] == [];
  }

  /** The call recorded for every feature of a profile-driven map. */
  const SynthesizedCall := "init"

  /** `generate_feature_map_from_vec`: one `(name, entry)` pair per name, collected into
      a map in list order, so a repeated name overwrites its earlier (equal) entry. */
  function FromNames(names: seq<string>): (m: FeaturesMap)
    ensures m.Keys == Elements(names)
    ensures forall k :: k in m ==> m[k] == FeatureEntry(k, Some(SynthesizedCall))
    decreases |names|
  {
    if names == [] then map[]
    else
      var n := names[|names| - 1];
      var m := FromNames(names[..|names| - 1]);
      assert names == names[..|names| - 1] + [n];
      m[n := FeatureEntry(n, Some(SynthesizedCall))]
  }

  /** The synthesized map has one entry per distinct name: at most as many as names,
      and exactly as many when no name repeats. */
  lemma FromNamesSize(names: seq<string>)
    ensures |FromNames(names)| <= |names|
    ensures |FromNames(names)| == |names| <==> Distinct(names)
  {
    ElementsCount(names);
    assert |FromNames(names)| == |FromNames(names).Keys|;
  }

  /** The synthesis example: two features, two entries, each its own path with the call. */
  lemma FromNamesExample()
    ensures FromNames(["register_agent", "report_result"]) == map[
      "register_agent" := FeatureEntry("register_agent", Some("init")),
      "report_result" := FeatureEntry("report_result", Some("init"))]
  {
    assert ["register_agent", "report_result"][..1] == ["register_agent"];
    assert ["register_agent"][..0] == [];
  }
}
