/** Names of stored files (artifact-identity/src/artifact_coordinates.rs and
    ecosystem_paths.rs) and how to read them back. */
module StoragePaths {
  import opened Wrappers
  import opened Strings

  // ----- Publication ids -----

  predicate Lower(c: char) { 'a' <= c <= 'z' }

  predicate Digit(c: char) { '0' <= c <= '9' }

  /** White space, control characters, ':' and '~' are all outside this set. */
  predicate PublicationChar(c: char) {
    Lower(c) || Digit(c) || c == '_' || c == '-' || c == '.' || c == '/'
  }

  predicate HasDoubleSlash(s: string) {
    |s| >= 2 && ((s[0] == '/' && s[1] == '/') || HasDoubleSlash(s[1..]))
  }

  predicate ValidAuthorityLabel(name: string) {
    && name != "" && name[0] != '-' && name[|name| - 1] != '-'
    && forall i :: 0 <= i < |name| ==> Lower(name[i]) || Digit(name[i]) || name[i] == '-'
  }

  predicate ValidLocalSegment(segment: string) {
    && segment != "" && Lower(segment[0]) && segment[|segment| - 1] != '-'
    && forall i :: 0 <= i < |segment| ==> Lower(segment[i]) || Digit(segment[i]) || segment[i] == '_' || segment[i] == '-'
  }

  predicate ValidPublicationId(value: string) {
    && value != "" && |value| <= 63 && value != "std"
    && value[0] != '/' && value[|value| - 1] != '/' && !HasDoubleSlash(value)
    && (forall i :: 0 <= i < |value| ==> PublicationChar(value[i]))
    && SplitOnce(value, '/').Some?
    && var (authority, local) := SplitOnce(value, '/').value;
       && |Split(authority, '.')| >= 2
       && (forall i :: 0 <= i < |Split(authority, '.')| ==> ValidAuthorityLabel(Split(authority, '.')[i]))
       && local != ""
       && (forall i :: 0 <= i < |Split(local, '/')| ==> ValidLocalSegment(Split(local, '/')[i]))
  }

  function StorageForm(value: string): string {
    Replace(Replace(value, '.', "~"), '/', "~~")
  }

  function PublicationStorageSegment(value: string): Option<string> {
    if ValidPublicationId(value) then Some(StorageForm(value)) else None
  }

  /** Reads two tildes as a slash wherever it can. */
  function ReadStorage(s: string): string {
    if s == "" then ""
    else if s[0] != '~' then [s[0]] + ReadStorage(s[1..])
    else if |s| > 1 && s[1] == '~' then "/" + ReadStorage(s[2..])
    else "." + ReadStorage(s[1..])
  }

  /** No dot is followed by a dot or a slash. */
  predicate DotsApart(s: string) {
    |s| < 2 || ((s[0] == '.' ==> s[1] != '.' && s[1] != '/') && DotsApart(s[1..]))
  }

  lemma StorageHead(s: string)
    requires s != ""
    ensures StorageForm(s) == (if s[0] == '.' then "~" else if s[0] == '/' then "~~" else [s[0]]) + StorageForm(s[1..])
  {
    ReplaceBoth(s, "~", "~~");
  }

  /** The form can be read back exactly where no dot is followed by a dot or a slash. */
  lemma {:induction false} StorageRoundTrip(s: string)
    requires '~' !in s
    ensures ReadStorage(StorageForm(s)) == s <==> DotsApart(s)
  {
    if s != "" {
      hide StorageForm;
      StorageRoundTrip(s[1..]);
      StorageHead(s);
      var form, rest := StorageForm(s), StorageForm(s[1..]);
      if s[0] == '/' {
        assert form[2..] == rest;
        assert s == "/" + s[1..];
      } else if s[0] != '.' {
        assert form[1..] == rest;
        assert s == [s[0]] + s[1..];
      } else if |s| == 1 {
        EmptyForm();
        assert form == "~" && form[1..] == "" && s == ".";
      } else {
        assert form[1..] == rest;
        StorageHead(s[1..]);
        assert s == "." + s[1..];
      }
    } else {
      EmptyForm();
    }
  }

  lemma EmptyForm()
    ensures StorageForm("") == ""
  {
  }

  lemma {:induction false} SplitOnceParts(s: string)
    requires SplitOnce(s, '/').Some?
    ensures var (before, after) := SplitOnce(s, '/').value; s == before + "/" + after && '/' !in before
  {
    if s[0] != '/' {
      SplitOnceParts(s[1..]);
    }
  }

  lemma {:induction false} PartsWithoutDot(s: string)
    requires forall i :: 0 <= i < |Split(s, '/')| ==> '.' !in Split(s, '/')[i]
    ensures '.' !in s
  {
    if s != "" {
      var rest, parts := Split(s[1..], '/'), Split(s, '/');
      forall i | 0 <= i < |rest|
        ensures '.' !in rest[i]
      {
        if s[0] == '/' {
          assert rest[i] == parts[i + 1];
        } else if i > 0 {
          assert rest[i] == parts[i];
        } else {
          assert parts[0] == [s[0]] + rest[0];
        }
      }
      PartsWithoutDot(s[1..]);
      assert s[0] != '/' ==> s[0] in parts[0];
    }
  }

  lemma {:induction false} DotlessApart(s: string)
    requires '.' !in s
    ensures DotsApart(s)
  {
    if |s| >= 2 {
      DotlessApart(s[1..]);
    }
  }

  /** Labels after the first that are not empty keep dots apart. */
  lemma {:induction false} LabelsApart(authority: string, tail: string)
    requires '/' !in authority && '.' !in tail
    requires forall i :: 1 <= i < |Split(authority, '.')| ==> Split(authority, '.')[i] != ""
    ensures DotsApart(authority + "/" + tail)
  {
    var s := authority + "/" + tail;
    if authority == "" {
      DotlessApart(s);
    } else {
      var rest, parts := Split(authority[1..], '.'), Split(authority, '.');
      assert s[1..] == authority[1..] + "/" + tail;
      if authority[0] == '.' {
        assert forall i :: 0 <= i < |rest| ==> rest[i] == parts[i + 1];
        assert rest[0] != "";
        FirstLabel(authority[1..]);
        assert s[1] == authority[1];
      } else {
        assert forall i :: 1 <= i < |rest| ==> rest[i] == parts[i];
      }
      LabelsApart(authority[1..], tail);
    }
  }

  lemma FirstLabel(s: string)
    requires Split(s, '.')[0] != ""
    ensures s != "" && s[0] != '.'
  {
  }

  /** Every valid publication id can be read back from its storage segment, so no two share one. */
  lemma StorageSegmentDecodes(value: string)
    requires ValidPublicationId(value)
    ensures PublicationStorageSegment(value).Some? && ReadStorage(PublicationStorageSegment(value).value) == value
  {
    var (authority, local) := SplitOnce(value, '/').value;
    SplitOnceParts(value);
    forall i | 0 <= i < |Split(local, '/')|
      ensures '.' !in Split(local, '/')[i]
    {
      assert ValidLocalSegment(Split(local, '/')[i]);
    }
    PartsWithoutDot(local);
    forall i | 1 <= i < |Split(authority, '.')|
      ensures Split(authority, '.')[i] != ""
    {
      assert ValidAuthorityLabel(Split(authority, '.')[i]);
    }
    LabelsApart(authority, local);
    StorageRoundTrip(value);
  }

  // ----- Segments of paths -----

  function CoordinateForm(value: string): string {
    Replace(Replace(value, '.', "~d"), '/', "~s")
  }

  function CoordinateSegment(value: string): Option<string> {
    if value == "" || |value| > 200 || HasDoubleSlash(value) || value[0] == '/' || value[|value| - 1] == '/'
       || exists i :: 0 <= i < |value| && !PublicationChar(value[i])
    then None
    else Some(CoordinateForm(value))
  }

  function ReadCoordinate(s: string): string {
    if s == "" then ""
    else if s[0] == '~' && |s| > 1 then (if s[1] == 'd' then "." else "/") + ReadCoordinate(s[2..])
    else [s[0]] + ReadCoordinate(s[1..])
  }

  predicate SafeChar(c: char) {
    Lower(c) || 'A' <= c <= 'Z' || Digit(c) || c == '_' || c == '-' || c == '.'
  }

  function SafeSegment(value: string): Option<string> {
    if value == "" || |value| > 200 || value == "." || value == ".." || exists i :: 0 <= i < |value| && !SafeChar(value[i])
    then None
    else Some(value)
  }

  predicate HexChar(c: char) { Digit(c) || 'a' <= c <= 'f' }

  predicate ValidSha256(value: string) {
    |value| == 64 && forall i :: 0 <= i < |value| ==> HexChar(value[i])
  }

  function IdentityHash(value: string, prefix: string): Option<string> {
    match StripPrefix(value, prefix + ":")
    case None => None
    case Some(hash) => if ValidSha256(hash) then Some(hash) else None
  }

  /** What a path may contain between slashes. */
  predicate SafePart(part: string) {
    part != "" && part != "." && part != ".." && '/' !in part && '\\' !in part && ':' !in part
  }

  lemma {:induction false} CoordinateRoundTrip(value: string)
    requires forall i :: 0 <= i < |value| ==> PublicationChar(value[i])
    ensures ReadCoordinate(CoordinateForm(value)) == value
    ensures |CoordinateForm(value)| >= |value|
    ensures forall i :: 0 <= i < |CoordinateForm(value)| ==>
      CoordinateForm(value)[i] != '/' && CoordinateForm(value)[i] != '.' && CoordinateForm(value)[i] != '\\' && CoordinateForm(value)[i] != ':'
  {
    if value != "" {
      CoordinateRoundTrip(value[1..]);
      ReplaceBoth(value, "~d", "~s");
      var form, rest := CoordinateForm(value), CoordinateForm(value[1..]);
      hide CoordinateForm;
      if value[0] == '.' || value[0] == '/' {
        assert form[2..] == rest;
      } else {
        assert form[1..] == rest;
      }
      assert value == [value[0]] + value[1..];
    }
  }

  lemma CoordinateSafe(value: string)
    requires CoordinateSegment(value).Some?
    ensures SafePart(CoordinateSegment(value).value) && ReadCoordinate(CoordinateSegment(value).value) == value
  {
    CoordinateRoundTrip(value);
    hide CoordinateForm;
  }

  lemma SegmentSafe(value: string)
    requires SafeSegment(value).Some?
    ensures SafePart(value) && SafePart(value + ".json")
  {
    assert (value + ".json")[0] == value[0];
  }

  lemma HashSafe(hash: string)
    requires ValidSha256(hash)
    ensures SafePart(hash) && SafePart(hash + ".json") && SafePart(hash + ".blob")
  {
    var json, blob := hash + ".json", hash + ".blob";
    assert hash[0] != '.';
  }

  // ----- Paths -----

  /** The fixed parts of paths. */
  datatype Word =
    | Records | Pointers
    | PackageArtifacts | PackageSchemaIndexes | PackageSchemaTypes | ServiceContracts | ServiceDeployments | Releases
    | FileIr | Bytecode | Resources | PackageJson

  function Text(w: Word): string {
    match w
    case Records => "records"
    case Pointers => "pointers"
    case PackageArtifacts => "package-artifacts"
    case PackageSchemaIndexes => "package-schema-indexes"
    case PackageSchemaTypes => "package-schema-types"
    case ServiceContracts => "service-contracts"
    case ServiceDeployments => "service-deployments"
    case Releases => "releases"
    case FileIr => "file-ir"
    case Bytecode => "bytecode"
    case Resources => "resources"
    case PackageJson => "package.json"
  }

  lemma WordSafe(w: Word)
    ensures SafePart(Text(w))
  {
    WordChars(w);
    hide Text, SafeChar;
    assert !SafeChar('/') && !SafeChar('\\') && !SafeChar(':') by {
      Separators();
    }
  }

  lemma Separators()
    ensures !SafeChar('/') && !SafeChar('\\') && !SafeChar(':')
  {
  }

  lemma WordChars(w: Word)
    ensures |Text(w)| > 2 && forall i :: 0 <= i < |Text(w)| ==> SafeChar(Text(w)[i])
  {
  }

  lemma WordsDiffer(v: Word, w: Word)
    ensures Text(v) == Text(w) ==> v == w
  {
    var s, t := Text(v), Text(w);
    assert s == t ==> |s| == |t| && s[0] == t[0] && s[|s| - 1] == t[|t| - 1];
  }
}
