/** The pure parts of the release script: checking a version string,
    rewriting the `version=` line of the build properties, and computing the
    next development version. Argument parsing, prompts, the file system,
    git and the build tool are not part of this model. */
module Release {
  import opened Wrappers
  import opened Text
  import opened Utils

  /** How the script's steps end when they do not return a value:
      `help_and_exit` for a rejected version, and the `IndexError` and
      `ValueError` the next-version computation can raise. */
  datatype ReleaseError = InvalidVersion(version: string) | IndexError | ValueError

  // ---------------------------------------------------------------- validate_version

  /** Stripping a matching version keeps its first five characters. */
  lemma StripKeepsVersion(version: string)
    requires IsVersion(version)
    ensures |Strip(version, Whitespace)| >= 5
    ensures forall k :: 0 <= k < 5 ==> Strip(version, Whitespace)[k] == version[k]
  {
    assert version[0] !in Whitespace;
    assert StripLeft(version, Whitespace) == version;
    var t := StripRight(version, Whitespace);
    assert version[4] !in Whitespace;
    assert |t| >= 5;
  }

  /** Upper-casing leaves digits and dots alone. */
  lemma UpperKeepsVersion(t: string, version: string)
    requires IsVersion(version)
    requires |t| >= 5 && forall k :: 0 <= k < 5 ==> t[k] == version[k]
    ensures |Upper(t)| >= 5 && forall k :: 0 <= k < 5 ==> Upper(t)[k] == version[k]
  {
    var u := Upper(t);
    forall k | 0 <= k < 5
      ensures u[k] == version[k]
    {
      assert t[k] == version[k];
    }
  }

  /** `version.strip().upper()` on a version the pattern accepts. */
  function Validated(version: string): (r: string)
    requires IsVersion(version)
    ensures |r| >= 5 && forall k :: 0 <= k < 5 ==> r[k] == version[k]
  {
    StripKeepsVersion(version);
    UpperKeepsVersion(Strip(version, Whitespace), version);
    Upper(Strip(version, Whitespace))
  }

  /** `validate_version`: a version matching the pattern comes back stripped
      and upper-cased, and still matches; any other ends the script through
      `help_and_exit`. */
  function ValidateVersion(version: string): (r: Result<string, ReleaseError>)
    ensures r.Ok? <==> IsVersion(version)
    ensures r.Err? ==> r.error == InvalidVersion(version)
    ensures r.Ok? ==> IsVersion(r.value) && forall k :: 0 <= k < 5 ==> r.value[k] == version[k]
  {
    if IsVersion(version) then Ok(Validated(version)) else Err(InvalidVersion(version))
  }

  lemma ToUpperKeepsNonSpace(c: char)
    requires c !in Whitespace
    ensures ToUpper(c) !in Whitespace
  {
  }

  /** A validated version is upper-case and does not end in whitespace. */
  lemma ValidatedShape(version: string)
    requires IsVersion(version)
    ensures Validated(version)[|Validated(version)| - 1] !in Whitespace
    ensures Upper(Validated(version)) == Validated(version)
  {
    var t := Strip(version, Whitespace);
    var r := Upper(t);
    var last := |r| - 1;
    assert r[last] == ToUpper(t[last]);
    ToUpperKeepsNonSpace(t[last]);
    UpperIdempotent(t);
  }

  /** An upper-case version without surrounding whitespace is left as it is. */
  lemma ValidatedFixed(version: string)
    requires IsVersion(version) && version[|version| - 1] !in Whitespace
    requires Upper(version) == version
    ensures Validated(version) == version
  {
    assert version[0] !in Whitespace;
    StripUnpadded(version, Whitespace);
  }

  /** A validated version validates to itself. */
  lemma ValidateVersionIdempotent(version: string)
    requires IsVersion(version)
    ensures ValidateVersion(ValidateVersion(version).value) == ValidateVersion(version)
  {
    var r := Validated(version);
    assert ValidateVersion(version) == Ok(r);
    ValidatedShape(version);
    ValidatedFixed(r);
    assert ValidateVersion(r) == Ok(r);
  }

  /** The accepted value is `version.strip().upper()`: trailing whitespace
      goes and letters are upper-cased, as in `0.1.0-rc ` becoming
      `0.1.0-RC`. */
  lemma ValidateVersionPadded(w: string, pad: string)
    requires IsVersion(w) && w[|w| - 1] !in Whitespace
    requires AllIn(pad, Whitespace)
    ensures ValidateVersion(w + pad) == Ok(Upper(w))
  {
    assert IsDigit(w[0]);
    assert (w + pad)[..5] == w[..5];
    StripPadded([], w, pad, Whitespace);
    assert [] + w + pad == w + pad;
  }

  lemma SameMajorMinor(a: string, b: string)
    requires IsVersion(a) && IsVersion(b)
    requires forall k :: 0 <= k < 5 ==> a[k] == b[k]
    ensures GetVersionMajorMinor(a) == GetVersionMajorMinor(b)
  {
    assert a[..3] == b[..3];
  }

  /** Validation does not change the `major.minor` part. */
  lemma ValidateKeepsMajorMinor(version: string)
    requires IsVersion(version)
    ensures GetVersionMajorMinor(ValidateVersion(version).value) == GetVersionMajorMinor(version)
  {
    var r := ValidateVersion(version).value;
    SameMajorMinor(r, version);
  }

  // ---------------------------------------------------------------- update_version

  const VersionKey: string := "version="

  /** The pattern `\s*version=`, matched at the start of a line. */
  predicate IsVersionLine(line: string)
  {
    StartsWith(StripLeft(line, Whitespace), VersionKey)
  }

  /** `version=` at index `i`, after whitespace only. */
  predicate KeyAt(line: string, i: int)
  {
    0 <= i <= |line| && AllIn(line[..i], Whitespace) && StartsWith(line[i..], VersionKey)
  }

  /** A line matches exactly when `version=` follows whitespace only. */
  lemma VersionLineKey(line: string)
    ensures IsVersionLine(line) <==> exists i :: KeyAt(line, i)
  {
    var t := StripLeft(line, Whitespace);
    if StartsWith(t, VersionKey) {
      StripLeftPrefix(line, Whitespace);
      assert KeyAt(line, |line| - |t|);
    }
    if exists i :: KeyAt(line, i) {
      var i :| KeyAt(line, i);
      assert line == line[..i] + line[i..];
      assert line[i..][0] == 'v';
      StripLeftPadded(line[..i], line[i..], Whitespace);
    }
  }

  /** The line written for `line`: a version line is replaced, and the
      replacement is a version line again; any other line is copied. */
  function RewriteLine(line: string, version: string): (r: string)
    ensures !IsVersionLine(line) ==> r == line
    ensures IsVersionLine(line) ==> r == VersionKey + version + "\n" && IsVersionLine(r)
  {
    if IsVersionLine(line) then
      IndentedVersionLine([], version + "\n");
      assert [] + VersionKey + (version + "\n") == VersionKey + version + "\n";
      VersionKey + version + "\n"
    else line
  }

  /** The properties file after the rewrite, line by line. */
  function RewriteLines(lines: seq<string>, version: string): (r: seq<string>)
    ensures |r| == |lines|
    ensures forall k :: 0 <= k < |lines| ==> r[k] == RewriteLine(lines[k], version)
  {
    seq(|lines|, k requires 0 <= k < |lines| => RewriteLine(lines[k], version))
  }

  /** Indentation before `version=` does not stop the match. */
  lemma IndentedVersionLine(indent: string, rest: string)
    requires forall k :: 0 <= k < |indent| ==> indent[k] in Whitespace
    ensures IsVersionLine(indent + VersionKey + rest)
  {
    assert indent + VersionKey + rest == indent + (VersionKey + rest);
    StripLeftPadded(indent, VersionKey + rest, Whitespace);
    assert (VersionKey + rest)[..|VersionKey|] == VersionKey;
  }

  /** The line the rewrite writes matches the pattern again, so it is
      rewritten to itself. */
  lemma RewriteLineIdempotent(line: string, version: string)
    ensures RewriteLine(RewriteLine(line, version), version) == RewriteLine(line, version)
  {
    if IsVersionLine(line) {
      IndentedVersionLine([], version + "\n");
      assert [] + VersionKey + (version + "\n") == VersionKey + version + "\n";
    }
  }

  /** Rewriting twice with one version is rewriting once. */
  lemma RewriteLinesIdempotent(lines: seq<string>, version: string)
    ensures RewriteLines(RewriteLines(lines, version), version) == RewriteLines(lines, version)
  {
    var once := RewriteLines(lines, version);
    forall k | 0 <= k < |lines|
      ensures RewriteLines(once, version)[k] == once[k]
    {
      RewriteLineIdempotent(lines[k], version);
    }
  }

  /** The rewrite keeps every line that is not a version line, and a version
      line stays a version line. */
  lemma RewriteLinesKeepsShape(lines: seq<string>, version: string)
    ensures |RewriteLines(lines, version)| == |lines|
    ensures forall k :: 0 <= k < |lines| && !IsVersionLine(lines[k]) ==> RewriteLines(lines, version)[k] == lines[k]
    ensures forall k :: 0 <= k < |lines| ==> (IsVersionLine(RewriteLines(lines, version)[k]) <==> IsVersionLine(lines[k]))
  {
    forall k | 0 <= k < |lines|
      ensures IsVersionLine(RewriteLines(lines, version)[k]) <==> IsVersionLine(lines[k])
    {
      var line := lines[k];
      assert RewriteLines(lines, version)[k] == RewriteLine(line, version);
    }
  }

  // ---------------------------------------------------------------- next version

  /** The characters `re.split('[\.\-]', version)` cuts at. */
  const VersionSeparators: set<char> := {'.', '-'}

  const SnapshotSuffix: string := ".0-SNAPSHOT"

  /** The version `update_version` returns: the first piece, a dot, the second
      piece read as an integer plus one, then `.0-SNAPSHOT`. Too few pieces
      raise `IndexError`; a second piece that is not an integer raises
      `ValueError`. */
  function NextVersion(version: string): (r: Result<string, ReleaseError>)
    ensures r.Ok? ==> EndsWith(r.value, SnapshotSuffix)
    ensures r.Err? ==> r.error == IndexError || r.error == ValueError
  {
    NextFromPieces(Split(version, VersionSeparators))
  }

  /** The next version from the pieces of the current one. */
  function NextFromPieces(pieces: seq<string>): (r: Result<string, ReleaseError>)
    ensures r.Ok? ==> |pieces| >= 2 && EndsWith(r.value, SnapshotSuffix)
    ensures r.Err? ==> r.error == IndexError || r.error == ValueError
    ensures r.Err? ==> (r.error == IndexError <==> |pieces| < 2)
    ensures r.Err? && r.error == ValueError ==> ParseInt(pieces[1]) == None
  {
    if |pieces| < 2 then Err(IndexError)
    else
      match ParseInt(pieces[1])
      case None => Err(ValueError)
      case Some(minor) =>
        var head := pieces[0] + "." + IntToString(minor + 1);
        assert (head + SnapshotSuffix)[|head|..] == SnapshotSuffix;
        Ok(head + SnapshotSuffix)
  }

  lemma DigitsHaveNoSeparator(ds: string)
    requires AllDigits(ds)
    ensures forall k :: 0 <= k < |ds| ==> ds[k] !in VersionSeparators
  {
    forall k | 0 <= k < |ds|
      ensures ds[k] !in VersionSeparators
    {
      assert IsDigit(ds[k]);
    }
  }

  /** The pieces of `major.minor` followed by a separator or nothing. */
  lemma SplitVersion(major: string, minor: string, tail: string)
    requires forall k :: 0 <= k < |major| ==> major[k] !in VersionSeparators
    requires forall k :: 0 <= k < |minor| ==> minor[k] !in VersionSeparators
    requires tail == [] || tail[0] in VersionSeparators
    ensures |Split(major + "." + minor + tail, VersionSeparators)| >= 2
    ensures Split(major + "." + minor + tail, VersionSeparators)[0] == major
    ensures Split(major + "." + minor + tail, VersionSeparators)[1] == minor
  {
    var v := major + "." + minor + tail;
    assert v == major + ['.'] + (minor + tail);
    SplitFromAtSeparator(major, '.', minor + tail, VersionSeparators, []);
    assert [] + major == major;
    assert [] + minor == minor;
    if tail == [] {
      assert minor + tail == minor;
      SplitFromNoSeparator(minor, VersionSeparators, []);
    } else {
      assert minor + tail == minor + [tail[0]] + tail[1..];
      SplitFromAtSeparator(minor, tail[0], tail[1..], VersionSeparators, []);
    }
  }

  /** A second piece that is the decimal form of `minor` gives `minor + 1`. */
  lemma NextFromMinor(pieces: seq<string>, minor: nat)
    requires |pieces| >= 2 && pieces[1] == NatToString(minor)
    ensures NextFromPieces(pieces) == Ok(pieces[0] + "." + NatToString(minor + 1) + SnapshotSuffix)
  {
    ParseIntRoundTrip(minor);
    assert IntToString(minor) == NatToString(minor);
    assert IntToString(minor + 1) == NatToString(minor + 1);
  }

  /** The second piece is the minor number, whatever follows it: the next
      version bumps it and resets the rest. */
  lemma NextVersionBumpsMinor(major: string, minor: nat, tail: string)
    requires forall k :: 0 <= k < |major| ==> major[k] !in VersionSeparators
    requires tail == [] || tail[0] in VersionSeparators
    ensures NextVersion(major + "." + NatToString(minor) + tail)
         == Ok(major + "." + NatToString(minor + 1) + SnapshotSuffix)
  {
    var ds := NatToString(minor);
    DigitsHaveNoSeparator(ds);
    SplitVersion(major, ds, tail);
    NextFromMinor(Split(major + "." + ds + tail, VersionSeparators), minor);
  }

  /** Every version the pattern accepts has a next version: its major digit,
      its minor digit plus one, then `.0-SNAPSHOT`. */
  lemma NextVersionOfValidVersion(version: string)
    requires IsVersion(version)
    ensures NextVersion(version)
         == Ok([version[0]] + "." + NatToString(version[2] as int - '0' as int + 1) + SnapshotSuffix)
  {
    var minor: nat := version[2] as int - '0' as int;
    assert NatToString(minor) == [version[2]];
    assert version == [version[0]] + "." + NatToString(minor) + version[3..];
    NextVersionBumpsMinor([version[0]], minor, version[3..]);
  }

  /** `IndexError` is raised exactly for a version with no dot and no
      dash: it has a single piece. */
  lemma NextVersionIndexError(version: string)
    ensures NextVersion(version) == Err(IndexError)
        <==> forall k :: 0 <= k < |version| ==> version[k] !in VersionSeparators
  {
    if forall k :: 0 <= k < |version| ==> version[k] !in VersionSeparators {
      SplitFromNoSeparator(version, VersionSeparators, []);
    } else {
      var k :| 0 <= k < |version| && version[k] in VersionSeparators;
      SplitFromSeparator(version, VersionSeparators, [], k);
    }
  }

  /** A second piece that is blank, or holds a character other than a digit,
      whitespace or `+`, is not an integer: `ValueError`, as for `1.x.0`. */
  lemma NextVersionNonIntegerMinor(major: string, minor: string, tail: string)
    requires forall k :: 0 <= k < |major| ==> major[k] !in VersionSeparators
    requires forall k :: 0 <= k < |minor| ==> minor[k] !in VersionSeparators
    requires tail == [] || tail[0] in VersionSeparators
    requires AllIn(minor, Whitespace)
          || exists k :: 0 <= k < |minor| && !IsDigit(minor[k]) && minor[k] !in Whitespace && minor[k] != '+'
    ensures NextVersion(major + "." + minor + tail) == Err(ValueError)
  {
    SplitVersion(major, minor, tail);
    if !AllIn(minor, Whitespace) {
      var k :| 0 <= k < |minor| && !IsDigit(minor[k]) && minor[k] !in Whitespace && minor[k] != '+';
      assert minor[k] != '-';
    }
    ParseIntRejects(minor);
  }

  /** The loop of `update_version`: every line of the properties file is
      copied, except that a version line becomes `version=<version>`. */
  method RewriteProperties(lines: seq<string>, version: string) returns (written: seq<string>)
    ensures written == RewriteLines(lines, version)
  {
    written := [];
    for i := 0 to |lines|
      invariant written == RewriteLines(lines[..i], version)
    {
      var line := lines[i];
      if IsVersionLine(line) {
        line := VersionKey + version + "\n";
      }
      RewriteLinesAppend(lines[..i], lines[i], version);
      assert lines[..i + 1] == lines[..i] + [lines[i]];
      written := written + [line];
    }
    assert lines[..|lines|] == lines;
  }

  /** One more line read is one more line written. */
  lemma RewriteLinesAppend(lines: seq<string>, line: string, version: string)
    ensures RewriteLines(lines + [line], version) == RewriteLines(lines, version) + [RewriteLine(line, version)]
  {
    var longer := RewriteLines(lines + [line], version);
    var shorter := RewriteLines(lines, version);
    forall k | 0 <= k < |lines|
      ensures longer[k] == shorter[k]
    {
      assert (lines + [line])[k] == lines[k];
    }
    assert longer == shorter + [longer[|lines|]];
  }

  /** `update_version`: splits the version, rewrites the properties file, then
      computes the next version from the pieces. The version is used as
      given: the script never validates it before this step. */
  method UpdateVersion(lines: seq<string>, version: string)
    returns (written: seq<string>, next: Result<string, ReleaseError>)
    ensures written == RewriteLines(lines, version)
    ensures next == NextVersion(version)
  {
    var pieces := Split(version, VersionSeparators);
    written := RewriteProperties(lines, version);
    next := NextFromPieces(pieces);
  }
}
