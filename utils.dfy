/** The pure helpers of the release tooling's utility module: value parsing,
    path and branch-name cleaning, the version pattern and the building of a
    `git` command line. Terminal output, the file system and subprocesses are
    not part of this model. */
module Utils {
  import opened Wrappers
  import opened Text

  // ---------------------------------------------------------------- to_bool

  /** A Python value as `to_bool` inspects it: its exact type decides. */
  datatype PyValue = PyBool(b: bool) | PyStr(s: string) | PyOther

  /** `to_bool`: a bool is returned as it is; a string whose stripped,
      lower-cased form is `true` or `false` gives that truth value; anything
      else gives nothing (Python's `None`). */
  function ToBool(x: PyValue): (r: Option<bool>)
    ensures x.PyOther? ==> r == None
    ensures x.PyBool? ==> r == Some(x.b)
  {
    match x
    case PyBool(b) => Some(b)
    case PyStr(s) =>
      var key := Lower(Strip(s, Whitespace));
      if key == "true" then Some(true)
      else if key == "false" then Some(false)
      else None
    case PyOther => None
  }

  /** Only those words are recognised: a string `to_bool` maps to a truth
      value is a word spelling it, in any case, between whitespace. */
  lemma ToBoolRecognised(s: string)
    requires ToBool(PyStr(s)).Some?
    ensures exists pre, word, post :: s == pre + word + post
              && AllIn(pre, Whitespace) && AllIn(post, Whitespace)
              && Lower(word) == (if ToBool(PyStr(s)).value then "true" else "false")
  {
    var pre, post := StripPieces(s, Whitespace);
    var word := Strip(s, Whitespace);
    assert Lower(word) == (if ToBool(PyStr(s)).value then "true" else "false");
  }

  /** Lower-casing keeps whitespace, so a word that lower-cases to `true` or
      `false` neither starts nor ends with whitespace. */
  lemma WordEndsNotBlank(word: string)
    requires Lower(word) == "true" || Lower(word) == "false"
    ensures word[0] !in Whitespace && word[|word| - 1] !in Whitespace
  {
    assert ToLower(word[0]) == Lower(word)[0];
    assert ToLower(word[|word| - 1]) == Lower(word)[|word| - 1];
  }

  /** `to_bool` ignores surrounding whitespace and letter case. */
  lemma ToBoolPadded(pre: string, word: string, post: string)
    requires AllIn(pre, Whitespace) && AllIn(post, Whitespace)
    requires Lower(word) == "true" || Lower(word) == "false"
    ensures ToBool(PyStr(pre + word + post)) == Some(Lower(word) == "true")
  {
    WordEndsNotBlank(word);
    StripPadded(pre, word, post, Whitespace);
  }

  /** `str(b)` for a bool. */
  function PyStrOfBool(b: bool): string
  {
    if b then "True" else "False"
  }

  /** `to_bool(str(b)) == b`. */
  lemma ToBoolOfStr(b: bool)
    ensures ToBool(PyStr(PyStrOfBool(b))) == Some(b)
  {
    var s := PyStrOfBool(b);
    var word := if b then "true" else "false";
    assert Lower(s) == word;
    WordEndsNotBlank(s);
    StripUnpadded(s, Whitespace);
    assert ToBool(PyStr(s)) == Some(word == "true");
  }

  // ---------------------------------------------------------------- get_search_path

  /** `bin/` starts at index `i`. */
  predicate BinAt(s: string, i: int)
  {
    0 <= i && i + 4 <= |s| && s[i..i + 4] == "bin/"
  }

  /** `py` starts at index `p`. */
  predicate PyAt(s: string, p: int)
  {
    0 <= p && p + 2 <= |s| && s[p..p + 2] == "py"
  }

  /** No newline among `s[a..b]`; the regex `.` never matches one. */
  predicate NoNewlineIn(s: string, a: int, b: int)
  {
    forall m :: a <= m < b && 0 <= m < |s| ==> s[m] != '\n'
  }

  // What the pattern `^.*/?bin/.*.py` finds when searched for: `bin/` and,
  // at least one character later, `py`, with no newline before the `py`.
  ghost predicate InBinDir(s: string)
  {
    exists i, p :: BinAt(s, i) && i + 5 <= p && PyAt(s, p) && NoNewlineIn(s, 0, p)
  }

  /** The first `bin/` at or after `i`, unless a newline comes first. */
  function FindBin(s: string, i: nat): (r: Option<nat>)
    ensures r.Some? ==> i <= r.value && BinAt(s, r.value) && NoNewlineIn(s, i, r.value)
    decreases |s| - i
  {
    if i + 4 > |s| || s[i] == '\n' then None
    else if s[i..i + 4] == "bin/" then Some(i)
    else FindBin(s, i + 1)
  }

  /** The first `py` after index `k`, unless a newline comes first. */
  function FindDotPy(s: string, k: nat): (r: Option<nat>)
    ensures r.Some? ==> k + 1 <= r.value && PyAt(s, r.value) && NoNewlineIn(s, k, r.value)
    decreases |s| - k
  {
    if k + 3 > |s| || s[k] == '\n' then None
    else if s[k + 1..k + 3] == "py" then Some(k + 1)
    else FindDotPy(s, k + 1)
  }

  /** The hand-written matcher for the search-path pattern. */
  predicate MatchesBinDir(s: string)
  {
    match FindBin(s, 0)
    case None => false
    case Some(i) => FindDotPy(s, i + 4).Some?
  }

  lemma {:induction false} FindBinComplete(s: string, i: nat, j: int)
    requires i <= j && BinAt(s, j) && NoNewlineIn(s, i, j)
    ensures FindBin(s, i).Some? && FindBin(s, i).value <= j
    decreases j - i
  {
    if i < j {
      assert s[i] != '\n';
      if s[i..i + 4] != "bin/" {
        FindBinComplete(s, i + 1, j);
      }
    } else {
      assert s[i] == 'b' by {
        assert s[i..i + 4][0] == s[i];
      }
    }
  }

  lemma {:induction false} FindDotPyComplete(s: string, k: nat, p: int)
    requires k + 1 <= p && PyAt(s, p) && NoNewlineIn(s, k, p)
    ensures FindDotPy(s, k).Some?
    decreases p - k
  {
    assert s[k] != '\n';
    if s[k + 1..k + 3] != "py" {
      FindDotPyComplete(s, k + 1, p);
    }
  }

  /** The matcher finds a match exactly when the pattern has one. */
  lemma MatchesBinDirCorrect(s: string)
    ensures MatchesBinDir(s) <==> InBinDir(s)
  {
    if MatchesBinDir(s) {
      var i := FindBin(s, 0).value;
      var p := FindDotPy(s, i + 4).value;
      assert NoNewlineIn(s, i, i + 4) by {
        forall m | i <= m < i + 4
          ensures s[m] != '\n'
        {
          assert s[m] == s[i..i + 4][m - i];
        }
      }
      assert NoNewlineIn(s, 0, p);
    }
    if InBinDir(s) {
      var i, p :| BinAt(s, i) && i + 5 <= p && PyAt(s, p) && NoNewlineIn(s, 0, p);
      FindBinComplete(s, 0, i);
      var first := FindBin(s, 0).value;
      FindDotPyComplete(s, first + 4, p);
    }
  }

  /** `get_search_path`: `./` when the executable lies under a `bin`
      directory as the pattern sees it, `../` otherwise. */
  function GetSearchPath(executable: string): (r: string)
    ensures r == "./" <==> InBinDir(executable)
    ensures r == "../" <==> !InBinDir(executable)
  {
    MatchesBinDirCorrect(executable);
    if MatchesBinDir(executable) then "./" else "../"
  }

  /** The release script as its usage text invokes it. */
  lemma SearchPathOfReleaseScript()
    ensures GetSearchPath("bin/release.py") == "./"
  {
    var s := "bin/release.py";
    assert BinAt(s, 0) && PyAt(s, 12) && NoNewlineIn(s, 0, 12);
  }

  // ---------------------------------------------------------------- strip_leading_dots

  const PathMarks: set<char> := {'/', '.', ' '}

  /** `strip_leading_dots`: despite the name, slashes, dots and spaces go from
      both ends. */
  function StripLeadingDots(filename: string): (r: string)
    ensures r == [] || (r[0] !in PathMarks && r[|r| - 1] !in PathMarks)
  {
    var r := Strip(filename, PathMarks);
    assert r == [] || (r[0] !in PathMarks && r[|r| - 1] !in PathMarks);
    r
  }

  lemma StripLeadingDotsIdempotent(filename: string)
    ensures StripLeadingDots(StripLeadingDots(filename)) == StripLeadingDots(filename)
  {
    StripIdempotent(filename, PathMarks);
  }

  /** Trailing marks are removed as well as leading ones. */
  lemma StripLeadingDotsTrailing(name: string, trail: string)
    requires name != [] && name[0] !in PathMarks && name[|name| - 1] !in PathMarks
    requires forall k :: 0 <= k < |trail| ==> trail[k] in PathMarks
    ensures StripLeadingDots("./" + name + trail) == name
  {
    StripPadded("./", name, trail, PathMarks);
  }

  // ---------------------------------------------------------------- to_set

  /** `to_set`: each distinct element once, in no particular order (the keys
      of a dictionary filled in a loop). */
  method ToSet<T(==)>(list: seq<T>) returns (keys: seq<T>)
    ensures forall x :: x in keys <==> x in list
    ensures forall i, j :: 0 <= i < j < |keys| ==> keys[i] != keys[j]
  {
    var tempDict: map<T, string> := map[];
    for i := 0 to |list|
      invariant forall x :: x in tempDict <==> x in list[..i]
    {
      tempDict := tempDict[list[i] := "dummy"];
      assert list[..i + 1] == list[..i] + [list[i]];
    }
    assert list[..|list|] == list;
    keys := [];
    var remaining := tempDict.Keys;
    while remaining != {}
      invariant forall x :: x in tempDict <==> x in keys || x in remaining
      invariant forall x :: x in keys ==> x !in remaining
      invariant forall i, j :: 0 <= i < j < |keys| ==> keys[i] != keys[j]
      decreases |remaining|
    {
      var k :| k in remaining;
      keys := keys + [k];
      remaining := remaining - {k};
    }
  }

  // ---------------------------------------------------------------- versions

  /** The release-version pattern `^([0-9]\.[0-9])\.[0-9]`, matched at the
      start: digit, dot, digit, dot, digit, then anything. The pattern is
      compiled to ignore case, which changes nothing: the characters it
      matches have no case. */
  predicate IsVersion(v: string)
    ensures IsVersion(v) ==> |v| >= 5 && forall k :: 0 <= k < 5 ==> ToUpper(v[k]) == v[k] && ToLower(v[k]) == v[k]
  {
    |v| >= 5 && IsDigit(v[0]) && v[1] == '.' && IsDigit(v[2]) && v[3] == '.' && IsDigit(v[4])
  }

  /** `get_version_major_minor`: the `major.minor` group of a matching
      version; without a match the source fails on `None.group`. */
  function GetVersionMajorMinor(fullVersion: string): (r: Option<string>)
    ensures r.Some? <==> IsVersion(fullVersion)
    ensures r.Some? ==> StartsWith(fullVersion, r.value) && |r.value| == 3
    ensures r.Some? ==> IsDigit(r.value[0]) && r.value[1] == '.' && IsDigit(r.value[2])
  {
    if IsVersion(fullVersion) then Some(fullVersion[..3]) else None
  }

  // ---------------------------------------------------------------- Git

  /** `Git.clean`: strip the line, then delete every space and every `*`.
      Every other character of the line that is not whitespace is kept. */
  function Clean(e: string): (r: string)
    ensures ' ' !in r && '*' !in r
    ensures forall c :: c in r ==> c in e
    ensures forall c :: c in e && c !in Whitespace && c != '*' ==> c in r
  {
    StripKeepsAll(e, Whitespace);
    RemoveAllChars(Strip(e, Whitespace), {' '});
    RemoveAllChars(RemoveAll(Strip(e, Whitespace), {' '}), {'*'});
    RemoveAll(RemoveAll(Strip(e, Whitespace), {' '}), {'*'})
  }

  /** A branch name as `git branch` lists it, indented or marked current
      with `* `, cleans to the bare name. */
  lemma CleanBranchName(pre: string, name: string, post: string)
    requires AllIn(pre, Whitespace) && AllIn(post, Whitespace)
    requires name != [] && forall k :: 0 <= k < |name| ==> name[k] !in Whitespace && name[k] != '*'
    ensures Clean(pre + name + post) == name
    ensures Clean(pre + "* " + name + post) == name
  {
    StripPadded(pre, name, post, Whitespace);
    BareNameClean(name);
    ConcatAssociates(pre, "* ", name);
    MarkedNameStrip(pre, name, post);
    MarkedNameClean(name);
  }

  lemma MarkedNameStrip(pre: string, name: string, post: string)
    requires AllIn(pre, Whitespace) && AllIn(post, Whitespace)
    requires name != [] && name[|name| - 1] !in Whitespace
    ensures Strip(pre + ("* " + name) + post, Whitespace) == "* " + name
  {
    var marked := "* " + name;
    assert marked[|marked| - 1] == name[|name| - 1];
    StripPadded(pre, marked, post, Whitespace);
  }

  lemma BareNameClean(name: string)
    requires forall k :: 0 <= k < |name| ==> name[k] != ' ' && name[k] != '*'
    ensures RemoveAll(RemoveAll(name, {' '}), {'*'}) == name
  {
    RemoveAllNone(name, {' '});
    RemoveAllNone(name, {'*'});
  }

  lemma MarkedNameClean(name: string)
    requires forall k :: 0 <= k < |name| ==> name[k] != ' ' && name[k] != '*'
    ensures RemoveAll(RemoveAll("* " + name, {' '}), {'*'}) == name
  {
    MarkedNameSpaces(name);
    RemoveAllNone(name, {'*'});
    RemoveAllCons('*', name, {'*'});
  }

  lemma MarkedNameSpaces(name: string)
    requires forall k :: 0 <= k < |name| ==> name[k] != ' '
    ensures RemoveAll("* " + name, {' '}) == ['*'] + name
  {
    var spaced := [' '] + name;
    assert "* " + name == ['*'] + spaced;
    LeadingSpaceGone(name);
    RemoveAllCons('*', spaced, {' '});
  }

  lemma LeadingSpaceGone(name: string)
    requires forall k :: 0 <= k < |name| ==> name[k] != ' '
    ensures RemoveAll([' '] + name, {' '}) == name
  {
    RemoveAllNone(name, {' '});
    RemoveAllCons(' ', name, {' '});
    assert [] + name == name;
  }

  /** `Git.non_empty`: a line is kept when it holds a character other than
      whitespace. */
  predicate NonEmpty(e: Option<string>)
    ensures NonEmpty(e) <==> e.Some? && !AllIn(e.value, Whitespace)
  {
    e.Some? && (StripEmpty(e.value, Whitespace); Strip(e.value, Whitespace) != [])
  }

  /** `Git.current`: the line `git branch` marks with `*`, which is its first
      character other than whitespace. */
  predicate Current(e: Option<string>)
    ensures Current(e) <==> e.Some? && exists i :: MarkAt(e.value, i)
  {
    e.Some? && (MarkedLine(e.value); StartsWith(RemoveAll(Strip(e.value, Whitespace), {' '}), "*"))
  }

  /** `*` at index `i`, after whitespace only. */
  predicate MarkAt(s: string, i: int)
  {
    0 <= i < |s| && s[i] == '*' && AllIn(s[..i], Whitespace)
  }

  lemma MarkedLine(s: string)
    ensures StartsWith(RemoveAll(Strip(s, Whitespace), {' '}), "*") <==> exists i :: MarkAt(s, i)
  {
    if StartsWith(RemoveAll(Strip(s, Whitespace), {' '}), "*") {
      MarkedLineFound(s);
    }
    if exists j :: MarkAt(s, j) {
      var j :| MarkAt(s, j);
      MarkedLineMarks(s, j);
    }
  }

  /** The strip never starts with a space, so deleting spaces keeps its
      first character. */
  lemma MarkIsStripHead(s: string)
    ensures StartsWith(RemoveAll(Strip(s, Whitespace), {' '}), "*")
        <==> Strip(s, Whitespace) != [] && Strip(s, Whitespace)[0] == '*'
  {
    var r := Strip(s, Whitespace);
    if r != [] {
      SplitAt(r, 1);
      RemoveAllCons(r[0], r[1..], {' '});
      var kept := RemoveAll(r, {' '});
      assert kept[..1] == [kept[0]];
    }
  }

  /** The first character the strip leaves, `*` once spaces are gone. */
  lemma MarkedLineFound(s: string)
    requires StartsWith(RemoveAll(Strip(s, Whitespace), {' '}), "*")
    ensures MarkAt(s, |s| - |StripLeft(s, Whitespace)|)
  {
    MarkIsStripHead(s);
    StripFirst(s, Whitespace);
  }

  /** A `*` after whitespace only is what the strip starts with. */
  lemma MarkedLineMarks(s: string, j: int)
    requires MarkAt(s, j)
    ensures StartsWith(RemoveAll(Strip(s, Whitespace), {' '}), "*")
  {
    StripStartsAt(s, j, Whitespace);
    MarkIsStripHead(s);
  }

  /** `filter(non_empty, raw)`, keeping the text of each line. */
  function NonEmptyLines(raw: seq<Option<string>>): (r: seq<string>)
    ensures |r| <= |raw|
  {
    if raw == [] then []
    else (if NonEmpty(raw[0]) then [raw[0].value] else []) + NonEmptyLines(raw[1..])
  }

  /** `Git.clean_branches`: `map(clean, filter(non_empty, raw))`. */
  function CleanBranches(raw: seq<Option<string>>): (r: seq<string>)
    ensures |r| <= |raw|
    ensures forall k :: 0 <= k < |r| ==> ' ' !in r[k] && '*' !in r[k]
  {
    var lines := NonEmptyLines(raw);
    seq(|lines|, k requires 0 <= k < |lines| => Clean(lines[k]))
  }

  /** Every non-blank line passes the filter. */
  lemma {:induction false} NonEmptyLinesKeeps(raw: seq<Option<string>>, k: nat)
    requires k < |raw| && NonEmpty(raw[k])
    ensures raw[k].value in NonEmptyLines(raw)
  {
    if k > 0 {
      assert raw[1..][k - 1] == raw[k];
      NonEmptyLinesKeeps(raw[1..], k - 1);
    }
  }

  /** Line `k` of `raw` is non-blank and its text is `line`. */
  predicate LineAt(raw: seq<Option<string>>, k: int, line: string)
  {
    0 <= k < |raw| && NonEmpty(raw[k]) && raw[k].value == line
  }

  /** Only non-blank lines pass the filter. */
  lemma {:induction false} NonEmptyLinesOnly(raw: seq<Option<string>>, line: string)
    requires line in NonEmptyLines(raw)
    ensures exists k :: LineAt(raw, k, line)
  {
    assert raw != [];
    if NonEmpty(raw[0]) && line == raw[0].value {
      assert LineAt(raw, 0, line);
    } else {
      assert line in NonEmptyLines(raw[1..]);
      NonEmptyLinesOnly(raw[1..], line);
      var k :| LineAt(raw[1..], k, line);
      assert raw[1..][k] == raw[k + 1];
      assert LineAt(raw, k + 1, line);
    }
  }

  /** Every non-blank line shows up, cleaned, in the branch list. */
  lemma CleanBranchesKeepsListed(raw: seq<Option<string>>, k: nat)
    requires k < |raw| && NonEmpty(raw[k])
    ensures Clean(raw[k].value) in CleanBranches(raw)
  {
    NonEmptyLinesKeeps(raw, k);
    var lines := NonEmptyLines(raw);
    var j :| 0 <= j < |lines| && lines[j] == raw[k].value;
    assert CleanBranches(raw)[j] == Clean(raw[k].value);
  }

  /** Line `k` of `raw` is non-blank and cleans to `b`. */
  predicate ListedAt(raw: seq<Option<string>>, k: int, b: string)
  {
    0 <= k < |raw| && NonEmpty(raw[k]) && b == Clean(raw[k].value)
  }

  /** Nothing else shows up in the branch list. */
  lemma CleanBranchesOnlyListed(raw: seq<Option<string>>, b: string)
    requires b in CleanBranches(raw)
    ensures exists k :: ListedAt(raw, k, b)
  {
    var lines := NonEmptyLines(raw);
    var j :| 0 <= j < |lines| && CleanBranches(raw)[j] == b;
    NonEmptyLinesOnly(raw, lines[j]);
    var k :| LineAt(raw, k, lines[j]);
    assert ListedAt(raw, k, b);
  }

  /** The line marked current is never blank, so the current branch is one
      of the cleaned branches. */
  lemma CurrentIsListed(raw: seq<Option<string>>, k: nat)
    requires k < |raw| && Current(raw[k])
    ensures NonEmpty(raw[k])
    ensures Clean(raw[k].value) in CleanBranches(raw)
  {
    CleanBranchesKeepsListed(raw, k);
  }

  /** What `run_git` accepts: a list of arguments or one string. */
  datatype GitOpts = ListOpts(items: seq<string>) | StrOpts(text: string) | OtherOpts

  datatype GitError = UnsupportedOpts

  const GitCmd: string := "git"

  /** The words of a command string, as `opts.split(' ')` gives them once
      the empty strings are removed. */
  function Words(text: string): seq<string>
  {
    NonEmptyPieces(Split(text, {' '}))
  }

  /** Every word is non-empty and free of spaces, and the words together are
      the text with its spaces removed. */
  lemma WordsOfText(text: string)
    ensures forall k :: 0 <= k < |Words(text)| ==> Words(text)[k] != [] && ' ' !in Words(text)[k]
    ensures Concat(Words(text)) == RemoveAll(text, {' '})
  {
    SplitFromPieces(text, {' '}, []);
    ConcatSplitFrom(text, {' '}, []);
  }

  /** The list branch of `run_git`: `git`, then the items in order. */
  method ListCall(items: seq<string>) returns (call: seq<string>)
    ensures call == [GitCmd] + items
  {
    call := [GitCmd];
    for i := 0 to |items|
      invariant call == [GitCmd] + items[..i]
    {
      call := call + [items[i]];
      assert items[..i + 1] == items[..i] + [items[i]];
    }
    assert items[..|items|] == items;
  }

  /** The string branch of `run_git`: `git`, then the string's words, the
      empty pieces between repeated spaces being removed one by one. */
  method StringCall(text: string) returns (call: seq<string>)
    ensures call == [GitCmd] + Words(text)
  {
    call := [GitCmd];
    var pieces := Split(text, {' '});
    for i := 0 to |pieces|
      invariant call == [GitCmd] + NonEmptyPieces(pieces[..i])
    {
      var piece := pieces[i];
      var before := NonEmptyPieces(pieces[..i]);
      NonEmptyPiecesAppend(pieces[..i], piece);
      assert pieces[..i + 1] == pieces[..i] + [piece];
      if piece != "" {
        call := call + [piece];
        assert call == [GitCmd] + (before + [piece]);
      } else {
        assert before + [] == before;
      }
    }
    assert pieces[..|pieces|] == pieces;
  }

  /** The argument vector `run_git` hands to the subprocess: `git`, then the
      list's items in order, or the string's space-separated words with the
      empty ones left out. Any other argument type is an error. */
  method GitCall(opts: GitOpts) returns (r: Result<seq<string>, GitError>)
    ensures opts.ListOpts? ==> r == Ok([GitCmd] + opts.items)
    ensures opts.StrOpts? ==> r == Ok([GitCmd] + Words(opts.text))
    ensures opts.StrOpts? ==> forall k :: 1 <= k < |r.value| ==> r.value[k] != [] && ' ' !in r.value[k]
    ensures opts.StrOpts? ==> Concat(r.value[1..]) == RemoveAll(opts.text, {' '})
    ensures opts.OtherOpts? ==> r == Err(UnsupportedOpts)
  {
    match opts
    case ListOpts(items) =>
      var call := ListCall(items);
      r := Ok(call);
    case StrOpts(text) =>
      var call := StringCall(text);
      WordsOfText(text);
      assert call[1..] == Words(text);
      r := Ok(call);
    case OtherOpts =>
      r := Err(UnsupportedOpts);
  }
}
