/**
 * The `name@version` package specification accepted on the command line
 * (`impl From<String> for PackageVer`). Semantic-version parsing belongs to the semver
 * crate and is not modelled: `parsesAsVersion` says which texts it accepts, and a
 * version keeps only its text. A text it rejects is a panic in the program and an
 * `InvalidVersion` error here.
 */
module Cli {
  import opened Wrappers
  import Text

  datatype Version = Version(text: string)

  datatype PackageVer = PackageVer(name: string, version: Option<Version>)

  datatype CliError = InvalidVersion(text: string)

  predicate IsAt(c: char)
  {
    c == '@'
  }

  /**
   * The name is the text before the first `@` (all of it when there is none); the version,
   * when there is an `@`, is the text between the first and the second `@`, and whatever
   * follows a second `@` is dropped.
   */
  function FromString(s: string, parsesAsVersion: string -> bool): (r: Result<PackageVer, CliError>)
    ensures r.Ok? ==> '@' !in r.value.name
    ensures r.Ok? ==> r.value.name <= s && (|r.value.name| < |s| ==> s[|r.value.name|] == '@')
    ensures '@' !in s ==> r == Ok(PackageVer(s, None))
    ensures '@' in s && r.Ok? ==> r.value.version.Some?
  {
    var pieces := Text.Split(s, IsAt);
    var name := pieces[0];
    assert Text.NoSeparator(name, IsAt);
    assert '@' !in s ==> Text.NoSeparator(s, IsAt) && |name| == |s| && name == s && |pieces| == 1;
    if |pieces| == 1 then
      Ok(PackageVer(name, None))
    else if parsesAsVersion(pieces[1]) then
      Ok(PackageVer(name, Some(Version(pieces[1]))))
    else
      Err(InvalidVersion(pieces[1]))
  }

  /** The empty specification never fails: it names the empty package, without a version. */
  lemma FromEmptyString(parsesAsVersion: string -> bool)
    ensures FromString("", parsesAsVersion) == Ok(PackageVer("", None))
  {
  }

  /**
   * `name@version`, optionally followed by `@` and anything: the name and the version are
   * recovered exactly, and the version is accepted exactly when it parses.
   */
  lemma FromStringWithVersion(name: string, version: string, tail: string, parsesAsVersion: string -> bool)
    requires '@' !in name && '@' !in version
    requires tail == [] || tail[0] == '@'
    ensures FromString(name + "@" + version + tail, parsesAsVersion)
         == if parsesAsVersion(version) then Ok(PackageVer(name, Some(Version(version))))
            else Err(InvalidVersion(version))
  {
    var s := name + "@" + version + tail;
    assert s == name + ['@'] + (version + tail);
    Text.SplitAtFirst(name, '@', version + tail, IsAt);
    Text.SplitFirstPiece(version, tail, IsAt);
  }
}
