/** SSH3 version identification: the local identity, the wire announcement,
    its parser, and the verdict on whether a peer's parsed version can be
    talked to. Mirrors version.go of package ssh3. */
module Ssh3 {
  import opened Options
  import opened GoStrconv
  import opened GoStrings

  const ProtocolName: string := "SSH"
  const ProtocolMajor: int64 := 3
  const ProtocolMinor: int64 := 0
  const ProtocolExperimentalSpecVersion: string := "alpha-00"

  const SoftwareImplementationName: string := "francoismichel/ssh3"
  const SoftwareMajor: int64 := 0
  const SoftwareMinor: int64 := 1
  const SoftwarePatch: int64 := 5

  /** Release-candidate number appended to the displayed software version. */
  const SoftwareRc: int64 := 5

  /** Key of the trailing `key=value` field that carries the spec tag. */
  const SpecVersionKey: string := "experimental_spec_version"

  /** The build that produced an announcement. */
  datatype SoftwareVersion = SoftwareVersion(implementationName: string, major: int64, minor: int64, patch: int64)
  {
    /** `major.minor.patch`; the implementation name is not part of it. */
    function String(): string {
      FormatInt(major) + "." + FormatInt(minor) + "." + FormatInt(patch)
    }
  }

  /** The protocol dialect and the experimental-specification tag. An empty
      tag marks a build from before tags were announced. */
  datatype ProtocolVersion = ProtocolVersion(major: int64, minor: int64, experimentalSpecVersion: string)
  {
    /** `major.minor_tag`; the underscore is written even for an empty tag. */
    function String(): string {
      FormatInt(major) + "." + FormatInt(minor) + "_" + experimentalSpecVersion
    }
  }

  /** The identity one endpoint announces. */
  datatype Version = Version(protocolName: string, protocolVersion: ProtocolVersion, softwareVersion: SoftwareVersion)

  /** The parse errors, each carrying the text that was rejected. */
  datatype VersionError =
    | InvalidSoftwareVersion(softwareVersionString: string)
    | InvalidProtocolVersion(protocolVersionString: string)
    | InvalidSSHVersion(versionString: string)

  datatype Result<T> = Ok(value: T) | Err(error: VersionError)

  /** This endpoint's identity: SSH, protocol 3.0 with tag `alpha-00`,
      software 0.1.5. The implementation name is left empty. */
  function ThisVersion(): (v: Version)
    ensures v.protocolName == "SSH"
    ensures v.protocolVersion == ProtocolVersion(3, 0, "alpha-00")
    ensures v.softwareVersion == SoftwareVersion("", 0, 1, 5)
  {
    Version(
      ProtocolName,
      ProtocolVersion(ProtocolMajor, ProtocolMinor, ProtocolExperimentalSpecVersion),
      SoftwareVersion("", SoftwareMajor, SoftwareMinor, SoftwarePatch))
  }

  /** Whether this endpoint accepts a peer announcing `other`. The protocol
      name is not looked at; the protocol version must be exactly 3.0; then
      either the peer sends the current tag, or it is one of this
      implementation's own tag-less releases 0.1.4 and 0.1.5. */
  function IsVersionSupported(other: Version): (supported: bool)
    ensures supported <==>
      other.protocolVersion.major == 3 && other.protocolVersion.minor == 0 &&
      (other.protocolVersion.experimentalSpecVersion == "alpha-00" ||
       (other.protocolVersion.experimentalSpecVersion == "" &&
        other.softwareVersion.implementationName == "francoismichel/ssh3" &&
        other.softwareVersion.major == 0 && other.softwareVersion.minor == 1 &&
        4 <= other.softwareVersion.patch <= 5))
  {
    var current := ThisVersion();
    if other.protocolVersion.major != current.protocolVersion.major || other.protocolVersion.minor != current.protocolVersion.minor then
      false
    else if other.protocolVersion.experimentalSpecVersion == "" && other.softwareVersion.implementationName == SoftwareImplementationName &&
            other.softwareVersion.major == 0 && other.softwareVersion.minor == 1 && other.softwareVersion.patch <= 5 then
      other.softwareVersion.patch >= 4
    else
      other.protocolVersion.experimentalSpecVersion == "alpha-00"
  }

  /** Reads `major.minor.patch`. Anything but three dot-separated integers is
      rejected with the whole text. */
  function ParseSoftwareVersion(implementationName: string, versionString: string): (r: Result<SoftwareVersion>)
    ensures r.Err? ==> r.error == InvalidSoftwareVersion(versionString)
    ensures r.Ok? ==> r.value.implementationName == implementationName
    ensures multiset(versionString)['.'] != 2 ==> r.Err?
  {
    var majorDotMinor := Split(versionString, '.');
    if |majorDotMinor| != 3 then Err(InvalidSoftwareVersion(versionString))
    else
      var major := Atoi(majorDotMinor[0]);
      if major.None? then Err(InvalidSoftwareVersion(versionString))
      else
        var minor := Atoi(majorDotMinor[1]);
        if minor.None? then Err(InvalidSoftwareVersion(versionString))
        else
          var patch := Atoi(majorDotMinor[2]);
          if patch.None? then Err(InvalidSoftwareVersion(versionString))
          else Ok(SoftwareVersion(implementationName, major.value, minor.value, patch.value))
  }

  /** Reads `major.minor` optionally followed by `_tag`. More than one
      underscore, or a head that is not two dot-separated pieces, is an
      InvalidProtocolVersion; a piece that is not an integer is an
      InvalidSSHVersion. The first test also rejects an empty split, which
      cannot occur since a split always has at least one piece. */
  function ParseProtocolVersion(versionString: string): (r: Result<ProtocolVersion>)
    ensures multiset(versionString)['_'] > 1 ==> r == Err(InvalidProtocolVersion(versionString))
    ensures r.Err? ==> r.error in {InvalidProtocolVersion(versionString), InvalidSSHVersion(versionString)}
    ensures r.Ok? ==> '_' !in r.value.experimentalSpecVersion
    ensures r.Ok? && '_' !in versionString ==> r.value.experimentalSpecVersion == ""
  {
    var fields := Split(versionString, '_');
    if |fields| == 0 || |fields| > 2 then Err(InvalidProtocolVersion(versionString))
    else
      var majorDotMinor := Split(fields[0], '.');
      if |majorDotMinor| != 2 then Err(InvalidProtocolVersion(versionString))
      else
        var major := Atoi(majorDotMinor[0]);
        if major.None? then Err(InvalidSSHVersion(versionString))
        else
          var minor := Atoi(majorDotMinor[1]);
          if minor.None? then Err(InvalidSSHVersion(versionString))
          else
            var experimentalSpecVersion := if |fields| == 2 then fields[1] else "";
            Ok(ProtocolVersion(major.value, minor.value, experimentalSpecVersion))
  }

  /** Go returns a pointer to a fresh Version; here it is the value itself.
      Its accessors give back the parts it was built from. */
  function NewVersion(protocolName: string, protocolVersion: ProtocolVersion, softwareVersion: SoftwareVersion): (v: Version)
    ensures v.protocolName == protocolName
    ensures v.protocolVersion == protocolVersion && v.softwareVersion == softwareVersion
  {
    Version(protocolName, protocolVersion, softwareVersion)
  }

  /** The announcement sent to the peer. The tag travels in a trailing
      `experimental_spec_version=` field, not after an underscore, so that
      peers which insist on a protocol field of exactly `3.0` still accept it. */
  function GetCurrentVersionString(): string {
    ProtocolName + " " + FormatInt(ProtocolMajor) + "." + FormatInt(ProtocolMinor) + " " +
    SoftwareImplementationName + " " +
    FormatInt(SoftwareMajor) + "." + FormatInt(SoftwareMinor) + "." + FormatInt(SoftwarePatch) +
    " " + SpecVersionKey + "=" + ProtocolExperimentalSpecVersion
  }

  /** The tag a trailing field sets: a field that splits on `=` into exactly
      the key and one value sets it to that value; any other field sets
      nothing. */
  function SpecVersionOverride(field: string): Option<string> {
    var subfields := Split(field, '=');
    if |subfields| == 2 && subfields[0] == SpecVersionKey then Some(subfields[1]) else None
  }

  /** The tag after the trailing fields are applied one after another to
      `tag`, in order. */
  function OverriddenSpecVersion(tag: string, fields: seq<string>): string
    decreases |fields|
  {
    if |fields| == 0 then tag
    else OverriddenSpecVersion(SpecVersionOverride(fields[0]).GetOr(tag), fields[1..])
  }

  /** What ParseVersionString returns for `versionString`. Fewer than four
      fields is an InvalidSSHVersion of the whole text; an error of the
      protocol or software parser is passed on unchanged. */
  function DecodeVersionString(versionString: string): (r: Result<Version>)
    ensures |Fields(versionString)| < 4 ==> r == Err(InvalidSSHVersion(versionString))
    ensures r.Ok? ==> r.value.protocolName == Fields(versionString)[0]
  {
    var fields := Fields(versionString);
    if |fields| < 4 then Err(InvalidSSHVersion(versionString))
    else
      match ParseProtocolVersion(fields[1])
      case Err(e) => Err(e)
      case Ok(protocolVersion) =>
        match ParseSoftwareVersion(fields[2], fields[3])
        case Err(e) => Err(e)
        case Ok(softwareVersion) =>
          var tag := OverriddenSpecVersion(protocolVersion.experimentalSpecVersion, fields[4..]);
          Ok(NewVersion(fields[0], protocolVersion.(experimentalSpecVersion := tag), softwareVersion))
  }

  /** Appending one more trailing field applies it last. */
  lemma {:induction false} OverriddenSpecVersionSnoc(tag: string, fields: seq<string>, field: string)
    ensures OverriddenSpecVersion(tag, fields + [field]) ==
            SpecVersionOverride(field).GetOr(OverriddenSpecVersion(tag, fields))
    decreases |fields|
  {
    if |fields| > 0 {
      assert (fields + [field])[1..] == fields[1..] + [field];
      OverriddenSpecVersionSnoc(SpecVersionOverride(fields[0]).GetOr(tag), fields[1..], field);
    }
  }

  /** Parses a received announcement: field 0 is the protocol name, field 1
      the protocol version, fields 2 and 3 the software name and version. */
  method ParseVersionString(versionString: string) returns (r: Result<Version>)
    ensures r == DecodeVersionString(versionString)
  {
    var fields := Fields(versionString);
    if |fields| < 4 {
      return Err(InvalidSSHVersion(versionString));
    }
    var protocolName := fields[0];
    var protocolVersion := ParseProtocolVersion(fields[1]);
    if protocolVersion.Err? {
      return Err(protocolVersion.error);
    }
    var softwareVersion := ParseSoftwareVersion(fields[2], fields[3]);
    if softwareVersion.Err? {
      return Err(softwareVersion.error);
    }
    var withTag := protocolVersion.value;
    if |fields| > 4 {
      withTag := ApplySpecVersionFields(withTag, fields[4..]);
    }
    return Ok(NewVersion(protocolName, withTag, softwareVersion.value));
  }

  /** The loop over the trailing fields: each field that splits on `=` into
      the key and one value overwrites the tag in place. */
  method ApplySpecVersionFields(protocolVersion: ProtocolVersion, extra: seq<string>) returns (r: ProtocolVersion)
    ensures r == protocolVersion.(experimentalSpecVersion :=
      OverriddenSpecVersion(protocolVersion.experimentalSpecVersion, extra))
  {
    r := protocolVersion;
    var i := 0;
    while i < |extra|
      invariant 0 <= i <= |extra|
      invariant r == protocolVersion.(experimentalSpecVersion :=
        OverriddenSpecVersion(protocolVersion.experimentalSpecVersion, extra[..i]))
    {
      var subfields := Split(extra[i], '=');
      if |subfields| == 2 && subfields[0] == SpecVersionKey {
        r := r.(experimentalSpecVersion := subfields[1]);
      }
      assert extra[..i + 1] == extra[..i] + [extra[i]];
      OverriddenSpecVersionSnoc(protocolVersion.experimentalSpecVersion, extra[..i], extra[i]);
      i := i + 1;
    }
    assert extra[..i] == extra;
  }

  /** The software version shown to users: `major.minor.patch`, then `-rcN`
      while this is a release candidate. */
  method GetCurrentSoftwareVersion() returns (versionStr: string)
    ensures versionStr == "0.1.5-rc5"
  {
    versionStr := ThisVersion().softwareVersion.String();
    if SoftwareRc > 0 {
      versionStr := versionStr + "-rc" + FormatInt(SoftwareRc);
    }
  }
}
