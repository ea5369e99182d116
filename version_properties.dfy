/** What the parsers, the renderers and the verdict of module Ssh3 promise,
    stated for all inputs. */
module Ssh3Properties {
  import opened Options
  import opened GoStrconv
  import opened GoStrings
  import opened Ssh3

  // ---------------------------------------------------------------------
  // Software version

  /** A software version is read from three dot-free pieces joined by dots;
      it is accepted exactly when every piece is an integer, and otherwise
      rejected with the whole text. */
  lemma SoftwareVersionPieces(name: string, x: string, y: string, z: string)
    requires '.' !in x && '.' !in y && '.' !in z
    ensures var s := x + "." + y + "." + z;
      ParseSoftwareVersion(name, s) ==
        if Atoi(x).Some? && Atoi(y).Some? && Atoi(z).Some?
        then Ok(SoftwareVersion(name, Atoi(x).value, Atoi(y).value, Atoi(z).value))
        else Err(InvalidSoftwareVersion(s))
  {
    SplitTriple(x, y, z, '.');
  }

  /** A well-formed piece can still fail: a numeral of 20 or more digits
      without a leading zero is out of the 64-bit range, and the whole text
      is an InvalidSoftwareVersion. */
  lemma SoftwareVersionOutOfRange(name: string, x: string, y: string, z: string)
    requires '.' !in x && '.' !in y
    requires IsSignedDecimal(z) && DigitsOf(z)[0] != '0' && |DigitsOf(z)| >= 20
    ensures ParseSoftwareVersion(name, x + "." + y + "." + z) == Err(InvalidSoftwareVersion(x + "." + y + "." + z))
  {
    forall i | 0 <= i < |z|
      ensures z[i] != '.'
    {
      if i > 0 && (z[0] == '+' || z[0] == '-') {
        assert z[i] == DigitsOf(z)[i - 1];
      } else if z[0] != '+' && z[0] != '-' {
        assert z[i] == DigitsOf(z)[i];
      }
    }
    AtoiOutOfRange(z);
    SoftwareVersionPieces(name, x, y, z);
  }

  /** Rendering then parsing a software version gives it back, under the
      implementation name handed to the parser. */
  lemma SoftwareVersionRoundTrip(name: string, v: SoftwareVersion)
    ensures ParseSoftwareVersion(name, v.String()) == Ok(SoftwareVersion(name, v.major, v.minor, v.patch))
  {
    FormatIntPlain(v.major);
    FormatIntPlain(v.minor);
    FormatIntPlain(v.patch);
    AtoiFormatInt(v.major);
    AtoiFormatInt(v.minor);
    AtoiFormatInt(v.patch);
    SoftwareVersionPieces(name, FormatInt(v.major), FormatInt(v.minor), FormatInt(v.patch));
  }

  // ---------------------------------------------------------------------
  // Protocol version

  /** A protocol-version field: a head, and, when there is one, an underscore
      and a tag. */
  function Tagged(head: string, tag: Option<string>): string {
    match tag
    case None => head
    case Some(t) => head + "_" + t
  }

  lemma SplitTagged(head: string, tag: Option<string>)
    requires '_' !in head
    requires tag.Some? ==> '_' !in tag.value
    ensures Split(Tagged(head, tag), '_') == if tag.Some? then [head, tag.value] else [head]
  {
    if tag.Some? {
      SplitPair(head, tag.value, '_');
    } else {
      SplitWhole(head, '_');
    }
  }

  /** A head that is not two pieces around one dot is an
      InvalidProtocolVersion, whatever the tag. */
  lemma ProtocolVersionBadHead(head: string, tag: Option<string>)
    requires '_' !in head
    requires tag.Some? ==> '_' !in tag.value
    requires multiset(head)['.'] != 1
    ensures ParseProtocolVersion(Tagged(head, tag)) == Err(InvalidProtocolVersion(Tagged(head, tag)))
  {
    SplitTagged(head, tag);
  }

  /** A head of two pieces around one dot is accepted exactly when both
      pieces are integers, with the tag when there is one and the empty tag
      otherwise; a piece that is not an integer is an InvalidSSHVersion. */
  lemma ProtocolVersionPieces(x: string, y: string, tag: Option<string>)
    requires '_' !in x && '_' !in y && '.' !in x && '.' !in y
    requires tag.Some? ==> '_' !in tag.value
    ensures var s := Tagged(x + "." + y, tag);
      ParseProtocolVersion(s) ==
        if Atoi(x).Some? && Atoi(y).Some?
        then Ok(ProtocolVersion(Atoi(x).value, Atoi(y).value, tag.GetOr("")))
        else Err(InvalidSSHVersion(s))
  {
    SplitPair(x, y, '.');
    SplitTagged(x + "." + y, tag);
  }

  /** Rendering then parsing a protocol version gives it back whenever its
      tag has no underscore, the empty tag included. */
  lemma ProtocolVersionRoundTrip(v: ProtocolVersion)
    requires '_' !in v.experimentalSpecVersion
    ensures ParseProtocolVersion(v.String()) == Ok(v)
  {
    FormatIntPlain(v.major);
    FormatIntPlain(v.minor);
    AtoiFormatInt(v.major);
    AtoiFormatInt(v.minor);
    ProtocolVersionPieces(FormatInt(v.major), FormatInt(v.minor), Some(v.experimentalSpecVersion));
  }

  /** The renderer always writes exactly one underscore of its own, even for
      an empty tag, which then leaves the text ending in `_`. */
  lemma ProtocolVersionStringUnderscore(v: ProtocolVersion)
    ensures multiset(v.String())['_'] == multiset(v.experimentalSpecVersion)['_'] + 1
    ensures v.experimentalSpecVersion == "" ==> v.String()[|v.String()| - 1] == '_'
  {
    FormatIntPlain(v.major);
    FormatIntPlain(v.minor);
  }

  /** Without an underscore the tag is empty: `major.minor` alone reads back
      with tag "". */
  lemma ProtocolVersionUntagged(major: int64, minor: int64)
    ensures ParseProtocolVersion(FormatInt(major) + "." + FormatInt(minor)) == Ok(ProtocolVersion(major, minor, ""))
  {
    FormatIntPlain(major);
    FormatIntPlain(minor);
    AtoiFormatInt(major);
    AtoiFormatInt(minor);
    ProtocolVersionPieces(FormatInt(major), FormatInt(minor), None);
  }

  // ---------------------------------------------------------------------
  // Trailing key=value fields

  lemma KeyHasNoEquals()
    ensures '=' !in SpecVersionKey
  {
    forall i | 0 <= i < |SpecVersionKey|
      ensures SpecVersionKey[i] != '='
    {
    }
  }

  /** A trailing field that sets the tag reads `experimental_spec_version=v`
      where `v` has no further `=`. */
  lemma SpecVersionOverrideShape(field: string)
    requires SpecVersionOverride(field).Some?
    ensures field == SpecVersionKey + "=" + SpecVersionOverride(field).value
    ensures '=' !in SpecVersionOverride(field).value
  {
    TwoPieces(field, '=');
  }

  /** Conversely, `experimental_spec_version=v` with no `=` in `v` sets the
      tag to `v`. */
  lemma SpecVersionOverrideOfKeyValue(v: string)
    requires '=' !in v
    ensures SpecVersionOverride(SpecVersionKey + "=" + v) == Some(v)
  {
    KeyHasNoEquals();
    SplitPair(SpecVersionKey, v, '=');
  }

  /** A trailing field sets the tag to `v` exactly when it reads
      `experimental_spec_version=v` and `v` has no further `=`; so
      `foo=bar` and `experimental_spec_version=a=b` set nothing. */
  lemma SpecVersionOverrideIff(field: string, v: string)
    ensures SpecVersionOverride(field) == Some(v) <==> field == SpecVersionKey + "=" + v && '=' !in v
  {
    if SpecVersionOverride(field) == Some(v) {
      SpecVersionOverrideShape(field);
    }
    if field == SpecVersionKey + "=" + v && '=' !in v {
      SpecVersionOverrideOfKeyValue(v);
    }
  }

  /** A field whose key is not `experimental_spec_version` sets nothing,
      whatever its value. */
  lemma UnknownKeyIgnored(key: string, val: string)
    requires '=' !in key && key != SpecVersionKey
    ensures SpecVersionOverride(key + "=" + val) == None
  {
    SplitCons(key, '=', val);
  }

  lemma OverriddenBySingleUnknown(tag: string, field: string)
    requires SpecVersionOverride(field).None?
    ensures OverriddenSpecVersion(tag, [field]) == tag
  {
    assert [field][1..] == [];
  }

  /** When no trailing field sets the tag, the tag is left as it was. */
  lemma {:induction false} OverriddenWithoutMatch(tag: string, extra: seq<string>)
    requires forall j | 0 <= j < |extra| :: SpecVersionOverride(extra[j]).None?
    ensures OverriddenSpecVersion(tag, extra) == tag
    decreases |extra|
  {
    if |extra| > 0 {
      OverriddenWithoutMatch(tag, extra[1..]);
    }
  }

  /** The last trailing field that sets the tag wins. */
  lemma {:induction false} OverriddenByLastMatch(tag: string, extra: seq<string>, k: nat)
    requires k < |extra| && SpecVersionOverride(extra[k]).Some?
    requires forall j | k < j < |extra| :: SpecVersionOverride(extra[j]).None?
    ensures OverriddenSpecVersion(tag, extra) == SpecVersionOverride(extra[k]).value
    decreases |extra|
  {
    var next := SpecVersionOverride(extra[0]).GetOr(tag);
    var rest := extra[1..];
    assert forall j | k <= j < |rest| :: rest[j] == extra[j + 1];
    if k == 0 {
      assert next == SpecVersionOverride(extra[k]).value;
      OverriddenWithoutMatch(next, rest);
    } else {
      assert rest[k - 1] == extra[k];
      OverriddenByLastMatch(next, rest, k - 1);
    }
  }

  // ---------------------------------------------------------------------
  // The announcement

  /** The announcement GetCurrentVersionString writes, for any version: the
      protocol field is `major.minor` and the tag travels in the trailing
      `experimental_spec_version=` field. */
  function Announcement(v: Version): string {
    v.protocolName + " " + FormatInt(v.protocolVersion.major) + "." + FormatInt(v.protocolVersion.minor) + " " +
    v.softwareVersion.implementationName + " " + v.softwareVersion.String() + " " +
    SpecVersionKey + "=" + v.protocolVersion.experimentalSpecVersion
  }

  /** The version the current announcement describes: ThisVersion with the
      implementation name filled in. */
  function AnnouncedVersion(): Version {
    ThisVersion().(softwareVersion := ThisVersion().softwareVersion.(implementationName := SoftwareImplementationName))
  }

  /** Printable ASCII other than the space: no such character is white space. */
  predicate Visible(w: string) {
    |w| > 0 && forall i | 0 <= i < |w| :: '!' <= w[i] <= '~'
  }

  lemma VisibleIsWord(w: string)
    requires Visible(w)
    ensures IsWord(w)
  {
  }

  lemma NamesAreWords()
    ensures IsWord(ProtocolName) && IsWord(SoftwareImplementationName)
  {
    assert Visible(ProtocolName) && Visible(SoftwareImplementationName);
    VisibleIsWord(ProtocolName);
    VisibleIsWord(SoftwareImplementationName);
  }

  lemma KeyIsWord()
    ensures IsWord(SpecVersionKey)
  {
    assert Visible(SpecVersionKey);
    VisibleIsWord(SpecVersionKey);
  }

  /** The five fields of an announcement. */
  function AnnouncementWords(v: Version): seq<string> {
    [v.protocolName,
     FormatInt(v.protocolVersion.major) + "." + FormatInt(v.protocolVersion.minor),
     v.softwareVersion.implementationName,
     v.softwareVersion.String(),
     SpecVersionKey + "=" + v.protocolVersion.experimentalSpecVersion]
  }

  lemma JoinFive(a: string, b1: string, b2: string, c: string, d: string, k: string, t: string)
    ensures a + " " + b1 + "." + b2 + " " + c + " " + d + " " + k + "=" + t ==
            Join([a, b1 + "." + b2, c, d, k + "=" + t], ' ')
  {
    var b, e := b1 + "." + b2, k + "=" + t;
    var words := [a, b, c, d, e];
    assert words[1..] == [b, c, d, e] && words[1..][1..] == [c, d, e];
    assert [c, d, e][1..] == [d, e] && [d, e][1..] == [e];
    assert Join([d, e], ' ') == d + " " + e;
    assert Join([c, d, e], ' ') == c + " " + (d + " " + e);
    assert Join([b, c, d, e], ' ') == b + " " + (c + " " + (d + " " + e));
  }

  lemma AnnouncementIsJoin(v: Version)
    ensures Announcement(v) == Join(AnnouncementWords(v), ' ')
  {
    JoinFive(v.protocolName, FormatInt(v.protocolVersion.major), FormatInt(v.protocolVersion.minor),
      v.softwareVersion.implementationName, v.softwareVersion.String(),
      SpecVersionKey, v.protocolVersion.experimentalSpecVersion);
  }

  /** How a successful parse is assembled from the fields: field 0 is the
      protocol name, field 1 the protocol version, fields 2 and 3 the
      software version, and the fields after them only change the tag. */
  lemma DecodeFromFields(s: string, p: ProtocolVersion, q: SoftwareVersion)
    requires |Fields(s)| >= 4
    requires ParseProtocolVersion(Fields(s)[1]) == Ok(p)
    requires ParseSoftwareVersion(Fields(s)[2], Fields(s)[3]) == Ok(q)
    ensures DecodeVersionString(s) ==
      Ok(Version(Fields(s)[0], p.(experimentalSpecVersion := OverriddenSpecVersion(p.experimentalSpecVersion, Fields(s)[4..])), q))
  {
  }

  /** An error of the protocol parser, and then one of the software parser,
      is returned unchanged. */
  lemma DecodePassesErrors(s: string)
    requires |Fields(s)| >= 4
    ensures ParseProtocolVersion(Fields(s)[1]).Err? ==>
      DecodeVersionString(s) == Err(ParseProtocolVersion(Fields(s)[1]).error)
    ensures ParseProtocolVersion(Fields(s)[1]).Ok? && ParseSoftwareVersion(Fields(s)[2], Fields(s)[3]).Err? ==>
      DecodeVersionString(s) == Err(ParseSoftwareVersion(Fields(s)[2], Fields(s)[3]).error)
  {
  }

  /** Parsing an announcement gives back the version announced, provided the
      protocol name and the implementation name are single words and the tag
      has neither white space nor `=`. */
  lemma AnnouncementRoundTrip(v: Version)
    requires IsWord(v.protocolName) && IsWord(v.softwareVersion.implementationName)
    requires '=' !in v.protocolVersion.experimentalSpecVersion
    requires forall i | 0 <= i < |v.protocolVersion.experimentalSpecVersion| :: !IsSpace(v.protocolVersion.experimentalSpecVersion[i])
    ensures DecodeVersionString(Announcement(v)) == Ok(v)
  {
    var pv, sv := v.protocolVersion, v.softwareVersion;
    var tag := pv.experimentalSpecVersion;
    var words := AnnouncementWords(v);
    FormatIntPlain(pv.major);
    FormatIntPlain(pv.minor);
    FormatIntPlain(sv.major);
    FormatIntPlain(sv.minor);
    FormatIntPlain(sv.patch);
    KeyIsWord();
    assert IsWord(words[1]) && IsWord(words[3]) && IsWord(words[4]);
    AnnouncementIsJoin(v);
    FieldsJoin(words);
    ProtocolVersionUntagged(pv.major, pv.minor);
    SoftwareVersionRoundTrip(sv.implementationName, sv);
    DecodeFromFields(Announcement(v), ProtocolVersion(pv.major, pv.minor, ""), sv);
    SpecVersionOverrideOfKeyValue(tag);
    assert words[4..] == [words[4]] && [words[4]][1..] == [];
    assert OverriddenSpecVersion("", words[4..]) == tag;
  }

  /** On the wire the announcement is five fields: the protocol field is
      `major.minor` with no underscore, so no tag rides on it, and the tag
      is the value of the trailing `experimental_spec_version=` field. */
  lemma AnnouncementFields(v: Version)
    requires IsWord(v.protocolName) && IsWord(v.softwareVersion.implementationName)
    requires forall i | 0 <= i < |v.protocolVersion.experimentalSpecVersion| :: !IsSpace(v.protocolVersion.experimentalSpecVersion[i])
    ensures Fields(Announcement(v)) == AnnouncementWords(v)
    ensures '_' !in Fields(Announcement(v))[1]
    ensures Fields(Announcement(v))[4] == SpecVersionKey + "=" + v.protocolVersion.experimentalSpecVersion
  {
    var pv, sv := v.protocolVersion, v.softwareVersion;
    var words := AnnouncementWords(v);
    FormatIntPlain(pv.major);
    FormatIntPlain(pv.minor);
    FormatIntPlain(sv.major);
    FormatIntPlain(sv.minor);
    FormatIntPlain(sv.patch);
    KeyIsWord();
    assert IsWord(words[1]) && IsWord(words[3]) && IsWord(words[4]);
    AnnouncementIsJoin(v);
    FieldsJoin(words);
  }

  /** The current announcement is the announcement of this endpoint's
      identity with the implementation name filled in. */
  lemma CurrentVersionStringIsAnnouncement()
    ensures GetCurrentVersionString() == Announcement(AnnouncedVersion())
  {
  }

  /** The current announcement's protocol field carries no tag: it is the
      rendering of 3.0 alone, and `alpha-00` travels in the last field. */
  lemma CurrentVersionStringFields()
    ensures |Fields(GetCurrentVersionString())| == 5
    ensures Fields(GetCurrentVersionString())[1] == FormatInt(3) + "." + FormatInt(0)
    ensures '_' !in Fields(GetCurrentVersionString())[1]
    ensures Fields(GetCurrentVersionString())[4] == SpecVersionKey + "=" + ProtocolExperimentalSpecVersion
  {
    var v := AnnouncedVersion();
    var f := Fields(Announcement(v));
    assert f == AnnouncementWords(v) && '_' !in f[1] by {
      NamesAreWords();
      AnnouncementFields(v);
    }
    assert v.protocolVersion == ProtocolVersion(3, 0, ProtocolExperimentalSpecVersion);
    CurrentVersionStringIsAnnouncement();
  }

  /** The current announcement reads back as this endpoint's identity, with
      the implementation name that ThisVersion leaves empty. */
  lemma CurrentVersionStringRoundTrip()
    ensures DecodeVersionString(GetCurrentVersionString()) == Ok(AnnouncedVersion())
  {
    var v := AnnouncedVersion();
    var s := GetCurrentVersionString();
    assert s == Announcement(v);
    assert DecodeVersionString(Announcement(v)) == Ok(v) by {
      NamesAreWords();
      AnnouncementRoundTrip(v);
    }
  }

  /** That identity is SSH 3.0 with tag alpha-00 from francoismichel/ssh3
      0.1.5, and it is supported; so is ThisVersion itself. */
  lemma AnnouncedVersionSupported()
    ensures AnnouncedVersion() ==
      Version("SSH", ProtocolVersion(3, 0, "alpha-00"), SoftwareVersion("francoismichel/ssh3", 0, 1, 5))
    ensures IsVersionSupported(AnnouncedVersion()) && IsVersionSupported(ThisVersion())
  {
  }

  // ---------------------------------------------------------------------
  // Concrete cases

  /** Two or four dot-separated numbers are not a software version. */
  lemma SoftwareVersionWrongCount(name: string)
    ensures ParseSoftwareVersion(name, "1.2") == Err(InvalidSoftwareVersion("1.2"))
    ensures ParseSoftwareVersion(name, "1.2.3.4") == Err(InvalidSoftwareVersion("1.2.3.4"))
  {
    assert multiset("1.2")['.'] == 1;
    assert multiset("1.2.3.4")['.'] == 3;
  }

  /** `3.0_` followed by an underscore-free tag reads as protocol 3.0 with
      that tag. */
  lemma ProtocolVersionTaggedCase(tag: string)
    requires '_' !in tag
    ensures ParseProtocolVersion("3.0_" + tag) == Ok(ProtocolVersion(3, 0, tag))
  {
    assert "3.0_" + tag == Tagged("3" + "." + "0", Some(tag));
    assert Atoi("3") == Some(3) && Atoi("0") == Some(0);
    ProtocolVersionPieces("3", "0", Some(tag));
  }

  /** A second underscore is rejected. */
  lemma ProtocolVersionTwoTagsCase()
    ensures ParseProtocolVersion("3.0_a_b") == Err(InvalidProtocolVersion("3.0_a_b"))
  {
    assert multiset("3.0_a_b")['_'] == 2;
  }

  /** A major that is not a number is an InvalidSSHVersion, not an
      InvalidProtocolVersion. */
  lemma ProtocolVersionNotNumberCase()
    ensures ParseProtocolVersion("x.0") == Err(InvalidSSHVersion("x.0"))
  {
    assert "x.0" == Tagged("x" + "." + "0", None);
    ProtocolVersionPieces("x", "0", None);
  }

  /** A field without a dot is rejected. */
  lemma ProtocolVersionNoDotCase()
    ensures ParseProtocolVersion("3") == Err(InvalidProtocolVersion("3"))
  {
    assert "3" == Tagged("3", None) && multiset("3")['.'] == 0;
    ProtocolVersionBadHead("3", None);
  }

  /** A value holding another `=` makes three or more pieces, so the field
      sets nothing even under the right key. */
  lemma ValueWithEqualsIgnored(a: string, b: string)
    ensures SpecVersionOverride(SpecVersionKey + "=" + a + "=" + b) == None
  {
    var field := SpecVersionKey + "=" + a + "=" + b;
    assert field == (SpecVersionKey + "=" + a) + "=" + b;
    assert multiset(field)['='] >= 2;
  }

  /** `foo=bar` sets nothing. */
  lemma UnknownKeyCase()
    ensures SpecVersionOverride("foo=bar") == None
  {
    assert "foo=bar" == "foo" + "=" + "bar";
    assert |"foo"| != |SpecVersionKey|;
    UnknownKeyIgnored("foo", "bar");
  }

  /** `experimental_spec_version=a=b` sets nothing. */
  lemma ValueWithEqualsCase()
    ensures SpecVersionOverride("experimental_spec_version=a=b") == None
  {
    assert "experimental_spec_version=a=b" == SpecVersionKey + "=" + "a" + "=" + "b";
    ValueWithEqualsIgnored("a", "b");
  }

  /** A single word is too few fields. */
  lemma DecodeGarbage()
    ensures DecodeVersionString("garbage") == Err(InvalidSSHVersion("garbage"))
  {
    FieldsWhole("garbage");
  }

  lemma DottedWord(a: string, b: string)
    requires IsWord(a) && IsWord(b)
    ensures IsWord(a + "." + b)
  {
  }

  /** The rendered version numbers are single words. */
  lemma VersionTextsAreWords(major: int64, minor: int64, sw: SoftwareVersion)
    ensures IsWord(FormatInt(major) + "." + FormatInt(minor))
    ensures IsWord(sw.String())
  {
    FormatIntPlain(major);
    FormatIntPlain(minor);
    FormatIntPlain(sw.major);
    FormatIntPlain(sw.minor);
    FormatIntPlain(sw.patch);
    DottedWord(FormatInt(major), FormatInt(minor));
    DottedWord(FormatInt(sw.major), FormatInt(sw.minor));
    DottedWord(FormatInt(sw.major) + "." + FormatInt(sw.minor), FormatInt(sw.patch));
  }

  /** A trailing field that sets nothing is tolerated: the announcement
      decodes as if it were absent, with the tag of field 1 (empty here). */
  lemma DecodeSkipsUnknownField(name: string, major: int64, minor: int64, sw: SoftwareVersion, field: string)
    requires IsWord(name) && IsWord(sw.implementationName) && IsWord(field)
    requires SpecVersionOverride(field).None?
    ensures DecodeVersionString(Join([name, FormatInt(major) + "." + FormatInt(minor), sw.implementationName, sw.String(), field], ' ')) ==
      Ok(Version(name, ProtocolVersion(major, minor, ""), sw))
  {
    var words := [name, FormatInt(major) + "." + FormatInt(minor), sw.implementationName, sw.String(), field];
    var s := Join(words, ' ');
    assert Fields(s) == words by {
      VersionTextsAreWords(major, minor, sw);
      FieldsJoin(words);
    }
    assert ParseProtocolVersion(words[1]) == Ok(ProtocolVersion(major, minor, "")) by {
      ProtocolVersionUntagged(major, minor);
    }
    assert ParseSoftwareVersion(words[2], words[3]) == Ok(sw) by {
      SoftwareVersionRoundTrip(sw.implementationName, sw);
    }
    assert OverriddenSpecVersion("", words[4..]) == "" by {
      assert words[4..] == [field];
      OverriddenBySingleUnknown("", field);
    }
    DecodeFromFields(s, ProtocolVersion(major, minor, ""), sw);
  }

  /** `%d` of the small numbers the concrete announcements use. */
  lemma SmallNumerals()
    ensures FormatInt(3) == "3" && FormatInt(0) == "0" && FormatInt(1) == "1" && FormatInt(5) == "5"
  {
  }

  /** The text `SSH 3.0 x 0.1.5 foo=bar` is its five fields joined by spaces. */
  lemma UnknownTrailingFieldText()
    ensures "SSH 3.0 x 0.1.5 foo=bar" ==
      Join(["SSH", FormatInt(3) + "." + FormatInt(0), "x", SoftwareVersion("x", 0, 1, 5).String(), "foo=bar"], ' ')
  {
    var sw := SoftwareVersion("x", 0, 1, 5);
    var words := ["SSH", FormatInt(3) + "." + FormatInt(0), "x", sw.String(), "foo=bar"];
    JoinFive("SSH", "3", "0", "x", "0.1.5", "foo", "bar");
    SmallNumerals();
    assert sw.String() == "0.1.5";
    assert "foo" + "=" + "bar" == "foo=bar";
    assert words[1] == "3" + "." + "0";
    assert words == ["SSH", "3" + "." + "0", "x", "0.1.5", "foo" + "=" + "bar"];
  }

  /** The announcement `SSH 3.0 x 0.1.5 foo=bar` decodes with the unknown
      field skipped. */
  lemma DecodeUnknownTrailingField()
    ensures DecodeVersionString("SSH 3.0 x 0.1.5 foo=bar") ==
      Ok(Version("SSH", ProtocolVersion(3, 0, ""), SoftwareVersion("x", 0, 1, 5)))
  {
    var sw := SoftwareVersion("x", 0, 1, 5);
    var words := ["SSH", FormatInt(3) + "." + FormatInt(0), "x", sw.String(), "foo=bar"];
    UnknownTrailingFieldText();
    assert DecodeVersionString(Join(words, ' ')) == Ok(Version("SSH", ProtocolVersion(3, 0, ""), sw)) by {
      assert IsWord("SSH") && IsWord("x") && IsWord("foo=bar");
      UnknownKeyCase();
      DecodeSkipsUnknownField("SSH", 3, 0, sw, "foo=bar");
    }
  }

  /** The protocol name never affects the verdict. */
  lemma VerdictIgnoresProtocolName(v: Version, name: string)
    ensures IsVersionSupported(v.(protocolName := name)) == IsVersionSupported(v)
  {
  }

  /** The verdict at the edges of its rules: a different minor, the legacy
      window of this implementation and its neighbours, another
      implementation at the same numbers, and a different tag. */
  lemma VerdictCases()
    ensures !IsVersionSupported(Version("SSH", ProtocolVersion(3, 1, "alpha-00"), SoftwareVersion("francoismichel/ssh3", 0, 1, 5)))
    ensures IsVersionSupported(Version("SSH", ProtocolVersion(3, 0, ""), SoftwareVersion("francoismichel/ssh3", 0, 1, 4)))
    ensures !IsVersionSupported(Version("SSH", ProtocolVersion(3, 0, ""), SoftwareVersion("francoismichel/ssh3", 0, 1, 3)))
    ensures !IsVersionSupported(Version("SSH", ProtocolVersion(3, 0, ""), SoftwareVersion("francoismichel/ssh3", 0, 1, 6)))
    ensures !IsVersionSupported(Version("SSH", ProtocolVersion(3, 0, ""), SoftwareVersion("other/ssh3", 0, 1, 4)))
    ensures IsVersionSupported(Version("QUIC-SSH", ProtocolVersion(3, 0, "alpha-00"), SoftwareVersion("other/ssh3", 9, 9, 9)))
    ensures !IsVersionSupported(Version("SSH", ProtocolVersion(3, 0, "alpha-01"), SoftwareVersion("francoismichel/ssh3", 0, 2, 0)))
  {
  }
}
