/** The build profile record of `src/lib/profile.rs`, as read from
    `build_profiles/<name>.yml`. Absent optional fields are `None`. */
module Profile {
  import opened Wrappers

  datatype BuildProfile = BuildProfile(
    name: string,
    target: Option<string>,
    release: Option<bool>,
    strip: Option<bool>,
    enabledFeatures: seq<string>)
}
