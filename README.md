# SSH3 version identification, modelled in Dafny

SSH3 endpoints exchange a one-line version announcement such as

    SSH 3.0 francoismichel/ssh3 0.1.5 experimental_spec_version=alpha-00

This line holds the following fields, separated by white space:
- the protocol name;
- the protocol version `major.minor`, with an optional `_tag`;
- the implementation name;
- the software version `major.minor.patch`;
- optional `key=value` fields.

Among the `key=value` fields, `experimental_spec_version=<tag>` carries the tag of the experimental specification. It travels there, not after an underscore, so that older peers see a protocol field of exactly `3.0`.

This project models `version.go` of package `ssh3`:
- the constants;
- this endpoint's identity (`ThisVersion`);
- the rendering and parsing of software versions, protocol versions and whole announcements;
- the loop that applies trailing fields;
- the compatibility verdict `IsVersionSupported`;
- the release-candidate display string.

The model proves the following:
- every parser fails exactly where the source's early returns fail, with the same error constructor carrying the same text;
- rendering and then parsing gives the value back;
- of the trailing fields, only `experimental_spec_version=<v>` with a `=`-free `v` changes the tag, and the last such field wins;
- the method that mirrors the source's loop computes that fold;
- the verdict follows the source's rules, and both the current announcement and this endpoint's identity are accepted.

Files:
- `options.dfy`: `Option`, which stands for a Go result paired with an error that the caller only compares with nil.
- `go_strconv.dfy`: the Go library behaviour the source relies on for integers. `strconv.Atoi` accepts an optional sign and one or more digits, and rejects values outside 64 bits. `%d` formats an integer.
- `go_strings.dfy`: `strings.Split` with a one-character separator, `strings.Fields` with Unicode white space, and `strings.Join`, which is used only in proofs.
- `version.dfy`: module `Ssh3`, the model of `version.go`.
- `version_properties.dfy`: module `Ssh3Properties`, the lemmas about it.

## Model

| member | source | states |
|---|---|---|
| `Ssh3.IsVersionSupported` | version.go:50-71 | A peer is supported exactly when its protocol version is 3.0 and either its tag is `alpha-00`, or it is tag-less `francoismichel/ssh3` 0.1.4 or 0.1.5. A different major or minor is rejected whatever the tag or name. |
| `Ssh3Properties.VerdictIgnoresProtocolName` | version.go:50-57 | The protocol name never affects the verdict. |
| `Ssh3Properties.VerdictCases` | version.go:55-70 | Boundary verdicts: protocol 3.1 is rejected, as are patches 0.1.3 and 0.1.6 of the legacy window, another implementation at 0.1.4 and tag `alpha-01`; tag-less 0.1.4 and any `alpha-00` peer are accepted. |
| `Ssh3.ThisVersion` | version.go:32-46 | This endpoint's identity is protocol SSH 3.0 with tag `alpha-00` and software 0.1.5, with an empty implementation name. |
| `Ssh3Properties.AnnouncedVersionSupported` | version.go:21-46 | The announced identity is SSH 3.0 with tag `alpha-00` from `francoismichel/ssh3` 0.1.5, and both it and `ThisVersion` (whose implementation name is empty) are supported. |
| `Ssh3.ParseSoftwareVersion` | version.go:88-115 | Every failure is `InvalidSoftwareVersion` of the whole input. On success the implementation name is kept. A text whose count of `.` is not 2 always fails. |
| `Ssh3Properties.SoftwareVersionPieces` | version.go:88-115 | `x.y.z` with dot-free pieces parses exactly when `Atoi` accepts all three pieces, giving their values. Otherwise it is `InvalidSoftwareVersion` of the whole text. |
| `Ssh3Properties.SoftwareVersionWrongCount` | version.go:89-93 | `1.2` and `1.2.3.4` are `InvalidSoftwareVersion`. |
| `Ssh3Properties.SoftwareVersionOutOfRange` | version.go:104-108 | A well-formed piece can still fail: a patch numeral of 20 or more digits without a leading zero is outside the 64-bit range, and the whole text is `InvalidSoftwareVersion`. |
| `Ssh3Properties.SoftwareVersionRoundTrip` | version.go:109-119 | Parsing `v.String()` with name `n` gives `v` with name `n`, for all 64-bit numbers, negative ones included. |
| `Ssh3.SoftwareVersion.String` | version.go:117-119 | No contract of its own. `SoftwareVersionRoundTrip` proves that its `major.minor.patch` text parses back to the same numbers. |
| `Ssh3.ParseProtocolVersion` | version.go:139-168 | More than one `_` is `InvalidProtocolVersion`. Every error is `InvalidProtocolVersion` or `InvalidSSHVersion` of the whole input. A parsed tag never holds `_`, and it is empty when the input has no `_`. |
| `GoStrings.Split` | version.go:140-143 | A split has one more piece than there are separators, so it is never empty and the `len(fields) == 0` test can never fire. No piece holds the separator. |
| `Ssh3Properties.ProtocolVersionBadHead` | version.go:144-148 | A head that does not have exactly one `.` is `InvalidProtocolVersion`, whatever the tag. |
| `Ssh3Properties.ProtocolVersionPieces` | version.go:144-167 | A head `x.y` (with an optional `_tag`) parses exactly when both pieces are integers. The parsed tag is the given one, or empty when there is none. A piece that is not an integer gives `InvalidSSHVersion`, not `InvalidProtocolVersion`. |
| `Ssh3Properties.ProtocolVersionRoundTrip` | version.go:127-129 | Parsing `v.String()` gives `v` back whenever the tag has no `_`. This includes the empty tag, which is rendered as a trailing `_`. |
| `Ssh3.ProtocolVersion.String` | version.go:127-129 | No contract of its own. `ProtocolVersionStringUnderscore` proves that it writes exactly one `_` of its own, so that an empty tag leaves the text ending in `_`. `ProtocolVersionRoundTrip` proves that the text parses back whenever the tag has no `_`. |
| `Ssh3Properties.ProtocolVersionStringUnderscore` | version.go:127-129 | The rendering holds one `_` more than the tag does, and with an empty tag its last character is `_`. |
| `Ssh3Properties.ProtocolVersionUntagged` | version.go:159-167 | `major.minor` with no underscore parses with the empty tag. |
| `Ssh3Properties.ProtocolVersionTaggedCase` | version.go:159-162 | `3.0_<tag>` parses as 3.0 with that tag. |
| `Ssh3Properties.ProtocolVersionTwoTagsCase` | version.go:140-143 | `3.0_a_b` is `InvalidProtocolVersion`. |
| `Ssh3Properties.ProtocolVersionNotNumberCase` | version.go:149-153 | `x.0` is `InvalidSSHVersion`. |
| `Ssh3Properties.ProtocolVersionNoDotCase` | version.go:144-148 | `3` is `InvalidProtocolVersion`. |
| `Ssh3.DecodeVersionString` | version.go:214-219 | Fewer than four white-space separated fields is `InvalidSSHVersion` of the whole text. On success the protocol name is field 0. |
| `Ssh3Properties.DecodeFromFields` | version.go:220-249 | A successful parse is made from field 0, the protocol version of field 1 with its tag overridden by fields 4 onwards, and the software version of fields 2 and 3. |
| `Ssh3.NewVersion` | version.go:176-190 | The accessors of the built version give back exactly the protocol name, protocol version and software version it was built from. |
| `Ssh3Properties.DecodePassesErrors` | version.go:222-232 | An error of the protocol parser, and then one of the software parser, is returned unchanged. |
| `Ssh3Properties.DecodeGarbage` | version.go:215-219 | `garbage` is `InvalidSSHVersion("garbage")`. |
| `Ssh3.ParseVersionString` | version.go:214-250 | The method that follows the source statement by statement returns what `DecodeVersionString` specifies. |
| `Ssh3.ApplySpecVersionFields` | version.go:238-247 | The loop over the trailing fields leaves the protocol version as it was, except that its tag is the fold `OverriddenSpecVersion` of the fields over the tag it started with. |
| `Ssh3.OverriddenSpecVersionSnoc` | version.go:239-246 | One more trailing field is applied after all earlier ones. This is the loop invariant's step. |
| `Ssh3.OverriddenSpecVersion` | version.go:239-246 | No contract of its own. `OverriddenByLastMatch` and `OverriddenWithoutMatch` prove that the last field that sets the tag wins and that without one the tag is kept. |
| `Ssh3.SpecVersionOverride` | version.go:240-242 | No contract of its own. `SpecVersionOverrideIff` proves that it yields `v` exactly for `experimental_spec_version=v` with a `=`-free `v`. |
| `Ssh3Properties.SpecVersionOverrideIff` | version.go:240-242 | A trailing field sets the tag to `v` exactly when it reads `experimental_spec_version=v` and `v` holds no `=`. |
| `Ssh3Properties.SpecVersionOverrideShape` | version.go:240-242 | A field that sets the tag has the key, one `=`, and a `=`-free value. |
| `Ssh3Properties.SpecVersionOverrideOfKeyValue` | version.go:240-242 | `experimental_spec_version=v` with a `=`-free `v` sets the tag to `v`. |
| `Ssh3Properties.UnknownKeyIgnored` | version.go:240-245 | `key=value` with any other `=`-free key sets nothing. |
| `Ssh3Properties.ValueWithEqualsIgnored` | version.go:240-245 | Under the right key, a value holding another `=` sets nothing. |
| `Ssh3Properties.UnknownKeyCase` | version.go:240-245 | `foo=bar` sets nothing. |
| `Ssh3Properties.ValueWithEqualsCase` | version.go:240-245 | `experimental_spec_version=a=b` sets nothing. |
| `Ssh3Properties.OverriddenWithoutMatch` | version.go:238-247 | When no trailing field sets the tag, the tag of field 1 is kept. |
| `Ssh3Properties.OverriddenByLastMatch` | version.go:238-247 | When several trailing fields set the tag, the last one wins. |
| `Ssh3Properties.DecodeSkipsUnknownField` | version.go:238-249 | An announcement whose only trailing field sets nothing parses as if the field were absent. |
| `Ssh3Properties.DecodeUnknownTrailingField` | version.go:238-249 | `SSH 3.0 x 0.1.5 foo=bar` parses as SSH 3.0 with the empty tag, from `x` 0.1.5. |
| `Ssh3Properties.AnnouncementRoundTrip` | version.go:210-250 | Parsing the announcement of any version gives that version back. This holds when both names are single words and the tag holds neither white space nor `=`. |
| `Ssh3Properties.CurrentVersionStringRoundTrip` | version.go:210-212 | Parsing the current announcement gives this endpoint's identity, with the implementation name that `ThisVersion` leaves empty filled in. |
| `Ssh3.GetCurrentVersionString` | version.go:210-212 | No contract of its own. `CurrentVersionStringIsAnnouncement` and `CurrentVersionStringFields` prove its wire form: five fields, a protocol field of exactly `3.0` with no `_`, and the tag in a trailing `experimental_spec_version=alpha-00` field. `CurrentVersionStringRoundTrip` proves that it parses back. |
| `Ssh3Properties.CurrentVersionStringIsAnnouncement` | version.go:210-212 | The current announcement is `Announcement` of this endpoint's identity with the implementation name filled in. |
| `Ssh3Properties.CurrentVersionStringFields` | version.go:211 | The current announcement has five fields. Field 1 is the rendering of 3.0 and holds no `_`. Field 4 is `experimental_spec_version=alpha-00`. |
| `Ssh3Properties.AnnouncementFields` | version.go:211 | For single-word names and a tag without white space, the announcement's fields are exactly its five parts. The protocol field is `major.minor` with no `_`, and the last field is `experimental_spec_version=` followed by the tag. |
| `Ssh3.GetCurrentSoftwareVersion` | version.go:254-260 | The displayed software version is `0.1.5-rc5`. |
| `GoStrconv.AtoiFormatInt` | version.go:117-129 | `Atoi` reads back every 64-bit integer that `%d` writes. |
| `GoStrconv.AtoiShortLiteral` | version.go:94-107 | Every signed decimal numeral of at most 18 digits is accepted, with the value its digits denote. |
| `GoStrconv.AtoiOutOfRange` | version.go:94-107 | Every signed decimal numeral of 20 or more digits without a leading zero is rejected, as outside the 64-bit range. |
| `GoStrconv.Atoi` | version.go:94-107 | A text is accepted exactly when it is an optional sign followed by one or more ASCII digits whose value fits in 64 bits, and then that value is returned. |
| `GoStrconv.FormatInt` | version.go:118 | `%d` writes ASCII digits, led by a minus sign exactly when the value is negative. The text has no leading zero: a non-zero value never starts its digits with `0`. `AtoiFormatInt` proves that `Atoi` reads the value back. |
| `GoStrings.Fields` | version.go:215 | Every field is a non-empty run of non-space characters, and a text that starts with a non-space character has at least one field. |
| `GoStrings.FieldsCons` | version.go:215 | A word followed by any one white-space character is the first field of the text. |
| `GoStrings.FieldsJoin` | version.go:215 | Single words joined by single spaces come back from `Fields` as those words. |
| `GoStrings.JoinSplit` | version.go:89 | Joining a split with its separator gives back the text. |
| `GoStrings.SplitJoin` | version.go:140 | Splitting a join of separator-free pieces gives back the pieces. |

## Left out

- Logging through zerolog is left out: it is output only and never affects a result.
- The `Error()` texts of the error types are left out. Each error is a constructor that carries the rejected string.
- `UnsupportedSSHVersion` is left out: it is declared but nothing in this file produces it.
- `NewVersion` and `ParseVersionString` return a pointer to a fresh `Version`, and `IsVersionSupported` takes a `*Version`. The model passes values, so pointer identity, aliasing and the nil-pointer panic of `IsVersionSupported` are not captured.
- The accessors `GetProtocolVersion` and `GetSoftwareVersion` are the datatype's field selectors. They have no members of their own.
- `GoStrconv.Atoi`: Go's `int` is taken to be 64 bits wide. The 32-bit range check of 32-bit platforms is not modelled.
- Strings are modelled as sequences of Unicode code points. Invalid UTF-8, which `strings.Fields` treats byte by byte, is not modelled.
- `GoStrings.Fields` uses the full Unicode White_Space set, as `unicode.IsSpace` does, not only ASCII white space.
- `ParseProtocolVersion` sets its local tag by reassignment in the source; the model computes the same value as a conditional expression.
