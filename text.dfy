/** The pieces of the Java and Python string libraries that the verticle
    factory and the release scripts rely on, written out over `seq<char>`.
    Python 2 `str` values are byte strings; here they are sequences of
    characters, and case mapping is the ASCII one. */
module Text {
  import opened Wrappers

  /** `String.startsWith` / `str.startswith`. */
  predicate StartsWith(s: string, p: string)
  {
    |p| <= |s| && s[..|p|] == p
  }

  /** `String.endsWith` / `str.endswith`. */
  predicate EndsWith(s: string, p: string)
  {
    |p| <= |s| && s[|s| - |p|..] == p
  }

  /** Python 2's `string.whitespace`: what `str.strip()` removes and what the
      regex class `\s` matches on a byte string. */
  const Whitespace: set<char> := {' ', '\t', '\n', '\r', 11 as char, 12 as char}

  /** Every character of `s` is one of `cs`. */
  predicate AllIn(s: string, cs: set<char>)
  {
    forall k :: 0 <= k < |s| ==> s[k] in cs
  }

  // ---------------------------------------------------------------- strip

  /** `str.lstrip(cs)`: drops the longest prefix made of characters of `cs`. */
  function StripLeft(s: string, cs: set<char>): (r: string)
    ensures |r| <= |s| && r == s[|s| - |r|..]
    ensures r == [] || r[0] !in cs
    ensures forall k :: 0 <= k < |s| - |r| ==> s[k] in cs
  {
    if s != [] && s[0] in cs then
      var r := StripLeft(s[1..], cs);
      assert forall k :: 1 <= k < |s| - |r| ==> s[k] == s[1..][k - 1];
      r
    else
      s
  }

  /** `str.rstrip(cs)`: drops the longest suffix made of characters of `cs`. */
  function StripRight(s: string, cs: set<char>): (r: string)
    ensures |r| <= |s| && r == s[..|r|]
    ensures r == [] || r[|r| - 1] !in cs
    ensures forall k :: |r| <= k < |s| ==> s[k] in cs
  {
    if s != [] && s[|s| - 1] in cs then
      var r := StripRight(s[..|s| - 1], cs);
      assert forall k :: |r| <= k < |s| - 1 ==> s[k] == s[..|s| - 1][k];
      r
    else
      s
  }

  /** `str.strip(cs)`: drops characters of `cs` from both ends. What is left
      neither starts nor ends with one of them, and it is a piece of `s`. */
  function Strip(s: string, cs: set<char>): (r: string)
    ensures r == [] || (r[0] !in cs && r[|r| - 1] !in cs)
    ensures forall k :: 0 <= k < |r| ==> r[k] in s
  {
    var t := StripLeft(s, cs);
    var r := StripRight(t, cs);
    PieceOf(s, t, r);
    r
  }

  /** A prefix of a suffix of `s` holds only characters of `s`. */
  lemma PieceOf(s: string, t: string, r: string)
    requires |t| <= |s| && t == s[|s| - |t|..]
    requires |r| <= |t| && r == t[..|r|]
    ensures forall k :: 0 <= k < |r| ==> r[k] in s
  {
    forall k | 0 <= k < |r|
      ensures r[k] in s
    {
      assert r[k] == s[|s| - |t| + k];
    }
  }

  lemma {:induction false} StripLeftPadded(pad: string, w: string, cs: set<char>)
    requires forall k :: 0 <= k < |pad| ==> pad[k] in cs
    requires w == [] || w[0] !in cs
    ensures StripLeft(pad + w, cs) == w
  {
    if pad != [] {
      assert (pad + w)[1..] == pad[1..] + w;
      StripLeftPadded(pad[1..], w, cs);
    }
  }

  lemma {:induction false} StripRightPadded(w: string, pad: string, cs: set<char>)
    requires forall k :: 0 <= k < |pad| ==> pad[k] in cs
    requires w == [] || w[|w| - 1] !in cs
    ensures StripRight(w + pad, cs) == w
  {
    if pad != [] {
      var last := |pad| - 1;
      assert (w + pad)[..|w + pad| - 1] == w + pad[..last];
      StripRightPadded(w, pad[..last], cs);
    }
  }

  /** Stripping undoes padding on both sides: `(pre + w + post).strip(cs) == w`
      when the padding is made of `cs` and `w` does not begin or end with it. */
  lemma StripPadded(pre: string, w: string, post: string, cs: set<char>)
    requires forall k :: 0 <= k < |pre| ==> pre[k] in cs
    requires forall k :: 0 <= k < |post| ==> post[k] in cs
    requires w != [] && w[0] !in cs && w[|w| - 1] !in cs
    ensures Strip(pre + w + post, cs) == w
  {
    assert pre + w + post == pre + (w + post);
    StripLeftPadded(pre, w + post, cs);
    StripRightPadded(w, post, cs);
  }

  /** Stripping twice is stripping once. */
  lemma StripIdempotent(s: string, cs: set<char>)
    ensures Strip(Strip(s, cs), cs) == Strip(s, cs)
  {
    var r := Strip(s, cs);
    if r != [] {
      StripPadded([], r, [], cs);
      assert [] + r + [] == r;
    }
  }

  /** A string that begins and ends with characters outside `cs` is its own strip. */
  lemma StripUnpadded(s: string, cs: set<char>)
    requires s != [] && s[0] !in cs && s[|s| - 1] !in cs
    ensures Strip(s, cs) == s
  {
    StripPadded([], s, [], cs);
    assert [] + s + [] == s;
  }

  /** A character outside `cs` survives the strip. */
  lemma StripKeeps(s: string, cs: set<char>, k: int)
    requires 0 <= k < |s| && s[k] !in cs
    ensures s[k] in Strip(s, cs)
  {
    var t := StripLeft(s, cs);
    var j := k - (|s| - |t|);
    assert 0 <= j && t[j] == s[k];
    var r := StripRight(t, cs);
    assert j < |r| && r[j] == t[j];
  }

  /** Every character outside `cs` survives the strip. */
  lemma StripKeepsAll(s: string, cs: set<char>)
    ensures forall c :: c in s && c !in cs ==> c in Strip(s, cs)
  {
    forall c | c in s && c !in cs
      ensures c in Strip(s, cs)
    {
      var k :| 0 <= k < |s| && s[k] == c;
      StripKeeps(s, cs, k);
    }
  }

  /** The strip is what remains between a prefix and a suffix made of `cs`. */
  lemma StripPieces(s: string, cs: set<char>) returns (pre: string, post: string)
    ensures s == pre + Strip(s, cs) + post
    ensures AllIn(pre, cs) && AllIn(post, cs)
  {
    var t := StripLeft(s, cs);
    var r := StripRight(t, cs);
    pre := s[..|s| - |t|];
    post := t[|r|..];
    StripLeftPrefix(s, cs);
    StripRightSuffix(t, cs);
    SplitAt(s, |s| - |t|);
    SplitAt(t, |r|);
    ConcatAssociates(pre, r, post);
  }

  lemma SplitAt(s: string, i: nat)
    requires i <= |s|
    ensures s == s[..i] + s[i..]
  {
  }

  lemma ConcatAssociates(a: string, b: string, c: string)
    ensures a + (b + c) == a + b + c
  {
  }

  lemma StripLeftPrefix(s: string, cs: set<char>)
    ensures AllIn(s[..|s| - |StripLeft(s, cs)|], cs)
  {
    var i := |s| - |StripLeft(s, cs)|;
    forall k | 0 <= k < i
      ensures s[..i][k] in cs
    {
      assert s[..i][k] == s[k];
    }
  }

  lemma StripRightSuffix(t: string, cs: set<char>)
    ensures AllIn(t[|StripRight(t, cs)|..], cs)
  {
    var j := |StripRight(t, cs)|;
    forall k | 0 <= k < |t| - j
      ensures t[j..][k] in cs
    {
      assert t[j..][k] == t[j + k];
    }
  }

  /** A text made only of `cs` strips to nothing. */
  lemma StripBlank(s: string, cs: set<char>)
    requires AllIn(s, cs)
    ensures Strip(s, cs) == []
  {
    StripLeftPadded(s, [], cs);
    assert s + [] == s;
  }

  /** The strip starts at the first character outside `cs`. */
  lemma StripStartsAt(s: string, j: int, cs: set<char>)
    requires 0 <= j < |s| && AllIn(s[..j], cs) && s[j] !in cs
    ensures Strip(s, cs) != [] && Strip(s, cs)[0] == s[j]
  {
    var t := s[j..];
    assert s == s[..j] + t;
    StripLeftPadded(s[..j], t, cs);
    var r := StripRight(t, cs);
    assert t[0] == s[j];
    assert r != [] && r[0] == t[0];
  }

  /** A non-empty strip starts at the first character outside `cs`. */
  lemma StripFirst(s: string, cs: set<char>)
    requires Strip(s, cs) != []
    ensures |s| - |StripLeft(s, cs)| < |s|
    ensures Strip(s, cs)[0] == s[|s| - |StripLeft(s, cs)|]
    ensures AllIn(s[..|s| - |StripLeft(s, cs)|], cs)
  {
    var t := StripLeft(s, cs);
    var r := StripRight(t, cs);
    assert r[0] == t[0];
    StripLeftPrefix(s, cs);
  }

  /** Only a text made entirely of `cs` strips to nothing. */
  lemma StripEmpty(s: string, cs: set<char>)
    ensures Strip(s, cs) == [] <==> AllIn(s, cs)
  {
    if AllIn(s, cs) {
      StripBlank(s, cs);
    } else {
      var k :| 0 <= k < |s| && s[k] !in cs;
      StripKeeps(s, cs, k);
    }
  }

  // ---------------------------------------------------------------- replace

  /** `s` with every character of `cs` deleted, as `replace(c, '')` does for one character. */
  function RemoveAll(s: string, cs: set<char>): (r: string)
    ensures |r| <= |s|
  {
    if s == [] then []
    else (if s[0] in cs then [] else [s[0]]) + RemoveAll(s[1..], cs)
  }

  /** Exactly the characters outside `cs` are left. */
  lemma {:induction false} RemoveAllChars(s: string, cs: set<char>)
    ensures forall c :: c in RemoveAll(s, cs) <==> c in s && c !in cs
  {
    if s != [] {
      RemoveAllChars(s[1..], cs);
      assert s == [s[0]] + s[1..];
    }
  }

  /** Deleting from a text that starts with `c`. */
  lemma RemoveAllCons(c: char, s: string, cs: set<char>)
    ensures RemoveAll([c] + s, cs) == (if c in cs then [] else [c]) + RemoveAll(s, cs)
  {
    assert ([c] + s)[1..] == s;
  }

  /** Nothing to delete: the text is unchanged. */
  lemma {:induction false} RemoveAllNone(s: string, cs: set<char>)
    requires forall k :: 0 <= k < |s| ==> s[k] !in cs
    ensures RemoveAll(s, cs) == s
  {
    if s != [] {
      RemoveAllNone(s[1..], cs);
      assert [s[0]] + s[1..] == s;
    }
  }

  /** `String.replaceFirst(pat, rep)` for a pattern without regex
      metacharacters: the leftmost occurrence of `pat` is replaced. */
  function ReplaceFirst(s: string, pat: string, rep: string): string
  {
    if StartsWith(s, pat) then rep + s[|pat|..]
    else if s == [] then []
    else [s[0]] + ReplaceFirst(s[1..], pat, rep)
  }

  // ---------------------------------------------------------------- case

  function ToUpper(c: char): char
  {
    if 'a' <= c <= 'z' then (c as int - 32) as char else c
  }

  function ToLower(c: char): char
  {
    if 'A' <= c <= 'Z' then (c as int + 32) as char else c
  }

  /** `str.upper()` on an ASCII string. */
  function Upper(s: string): string
  {
    seq(|s|, k requires 0 <= k < |s| => ToUpper(s[k]))
  }

  /** `str.lower()` on an ASCII string. */
  function Lower(s: string): string
  {
    seq(|s|, k requires 0 <= k < |s| => ToLower(s[k]))
  }

  /** Upper-casing is idempotent and leaves non-letters, whitespace among them, alone. */
  lemma UpperIdempotent(s: string)
    ensures Upper(Upper(s)) == Upper(s)
  {
    var u := Upper(s);
    assert forall k :: 0 <= k < |u| ==> Upper(u)[k] == u[k];
  }

  // ---------------------------------------------------------------- split

  /** Python's `str.split(c)` and `re.split` on a one-character class: the
      pieces between separator characters, empty pieces included. */
  function Split(s: string, seps: set<char>): (r: seq<string>)
    ensures |r| >= 1
  {
    SplitFrom(s, seps, [])
  }

  /** Splits `s` when `cur` has already been read into the current piece. */
  function SplitFrom(s: string, seps: set<char>, cur: string): (r: seq<string>)
    ensures |r| >= 1
    decreases |s|
  {
    if s == [] then [cur]
    else if s[0] in seps then [cur] + SplitFrom(s[1..], seps, [])
    else SplitFrom(s[1..], seps, cur + [s[0]])
  }

  /** No separator in the text: a single piece. */
  lemma {:induction false} SplitFromNoSeparator(s: string, seps: set<char>, cur: string)
    requires forall k :: 0 <= k < |s| ==> s[k] !in seps
    ensures SplitFrom(s, seps, cur) == [cur + s]
    decreases |s|
  {
    if s != [] {
      assert s[0] !in seps;
      assert forall k :: 0 <= k < |s[1..]| ==> s[1..][k] == s[k + 1];
      SplitFromNoSeparator(s[1..], seps, cur + [s[0]]);
      assert cur + [s[0]] + s[1..] == cur + s;
    } else {
      assert cur + s == cur;
    }
  }

  /** The first separator ends the first piece. */
  lemma {:induction false} SplitFromAtSeparator(a: string, sep: char, rest: string, seps: set<char>, cur: string)
    requires forall k :: 0 <= k < |a| ==> a[k] !in seps
    requires sep in seps
    ensures SplitFrom(a + [sep] + rest, seps, cur) == [cur + a] + SplitFrom(rest, seps, [])
    decreases |a|
  {
    if a == [] {
      assert a + [sep] + rest == [sep] + rest;
      assert ([sep] + rest)[1..] == rest;
      assert cur + a == cur;
    } else {
      assert (a + [sep] + rest)[1..] == a[1..] + [sep] + rest;
      assert forall k :: 0 <= k < |a[1..]| ==> a[1..][k] == a[k + 1];
      SplitFromAtSeparator(a[1..], sep, rest, seps, cur + [a[0]]);
      assert cur + [a[0]] + a[1..] == cur + a;
    }
  }

  /** A separator in the text: at least two pieces. */
  lemma {:induction false} SplitFromSeparator(s: string, seps: set<char>, cur: string, k: int)
    requires 0 <= k < |s| && s[k] in seps
    ensures |SplitFrom(s, seps, cur)| >= 2
    decreases |s|
  {
    if s[0] !in seps {
      assert s[1..][k - 1] == s[k];
      SplitFromSeparator(s[1..], seps, cur + [s[0]], k - 1);
    }
  }

  /** No piece contains a separator. */
  lemma {:induction false} SplitFromPieces(s: string, seps: set<char>, cur: string)
    requires forall c :: c in cur ==> c !in seps
    ensures forall p :: p in SplitFrom(s, seps, cur) ==> forall c :: c in p ==> c !in seps
    decreases |s|
  {
    if s != [] {
      if s[0] in seps {
        SplitFromPieces(s[1..], seps, []);
      } else {
        SplitFromPieces(s[1..], seps, cur + [s[0]]);
      }
    }
  }

  /** `sep.join(pieces)`. */
  function Join(pieces: seq<string>, sep: char): string
    requires |pieces| >= 1
  {
    if |pieces| == 1 then pieces[0] else pieces[0] + [sep] + Join(pieces[1..], sep)
  }

  /** Splitting on one character and joining with it gives the text back. */
  lemma {:induction false} JoinSplitFrom(s: string, sep: char, cur: string)
    ensures Join(SplitFrom(s, {sep}, cur), sep) == cur + s
    decreases |s|
  {
    if s != [] {
      if s[0] == sep {
        JoinSplitFrom(s[1..], sep, []);
        assert s == [sep] + s[1..];
      } else {
        JoinSplitFrom(s[1..], sep, cur + [s[0]]);
        assert cur + [s[0]] + s[1..] == cur + s;
      }
    }
  }

  /** The pieces that are not empty, in order. */
  function NonEmptyPieces(pieces: seq<string>): (r: seq<string>)
    ensures |r| <= |pieces|
    ensures forall k :: 0 <= k < |r| ==> r[k] != [] && r[k] in pieces
  {
    if pieces == [] then []
    else (if pieces[0] != [] then [pieces[0]] else []) + NonEmptyPieces(pieces[1..])
  }

  lemma {:induction false} NonEmptyPiecesAppend(pieces: seq<string>, p: string)
    ensures NonEmptyPieces(pieces + [p]) == NonEmptyPieces(pieces) + (if p != [] then [p] else [])
  {
    if pieces != [] {
      assert (pieces + [p])[1..] == pieces[1..] + [p];
      NonEmptyPiecesAppend(pieces[1..], p);
    } else {
      assert [] + [p] == [p];
    }
  }

  /** `''.join(pieces)`. */
  function Concat(pieces: seq<string>): string
  {
    if pieces == [] then [] else pieces[0] + Concat(pieces[1..])
  }

  /** The non-empty pieces hold exactly the characters that are not separators. */
  lemma {:induction false} ConcatSplitFrom(s: string, seps: set<char>, cur: string)
    ensures Concat(NonEmptyPieces(SplitFrom(s, seps, cur))) == cur + RemoveAll(s, seps)
    decreases |s|
  {
    if s == [] {
      assert NonEmptyPieces([cur]) == if cur != [] then [cur] else [];
    } else if s[0] in seps {
      var tail := SplitFrom(s[1..], seps, []);
      ConcatSplitFrom(s[1..], seps, []);
      assert ([cur] + tail)[1..] == tail;
      var ne := NonEmptyPieces(tail);
      if cur != [] {
        assert NonEmptyPieces([cur] + tail) == [cur] + ne;
        assert ([cur] + ne)[1..] == ne;
      } else {
        assert NonEmptyPieces([cur] + tail) == ne;
      }
    } else {
      ConcatSplitFrom(s[1..], seps, cur + [s[0]]);
      assert cur + [s[0]] + RemoveAll(s[1..], seps) == cur + RemoveAll(s, seps);
    }
  }

  // ---------------------------------------------------------------- numbers

  predicate IsDigit(c: char)
  {
    '0' <= c <= '9'
  }

  predicate AllDigits(s: string)
  {
    forall k :: 0 <= k < |s| ==> IsDigit(s[k])
  }

  function DigitChar(d: nat): char
    requires d < 10
  {
    (d + '0' as int) as char
  }

  /** The value of a run of decimal digits, most significant first. */
  function DigitsValue(s: string): nat
    requires AllDigits(s)
  {
    if s == [] then 0 else DigitsValue(s[..|s| - 1]) * 10 + (s[|s| - 1] as int - '0' as int)
  }

  /** `str(n)` for a natural number: its shortest decimal digits. */
  function NatToString(n: nat): (r: string)
    ensures r != [] && AllDigits(r)
    decreases n
  {
    if n < 10 then [DigitChar(n)] else NatToString(n / 10) + [DigitChar(n % 10)]
  }

  /** `str(i)` for an integer. */
  function IntToString(i: int): string
  {
    if i < 0 then "-" + NatToString(-i) else NatToString(i)
  }

  /** Python 2 `int(s)` on a byte string: optional surrounding whitespace, an
      optional sign, then one or more decimal digits; anything else raises. */
  function ParseInt(s: string): Option<int>
  {
    ParseSigned(Strip(s, Whitespace))
  }

  /** The stripped text: an optional sign, then the digits. */
  function ParseSigned(t: string): Option<int>
  {
    if t != [] && (t[0] == '+' || t[0] == '-') then
      match ParseDigits(t[1..])
      case None => None
      case Some(v) => Some(if t[0] == '-' then -v else v)
    else
      ParseDigits(t)
  }

  /** One or more decimal digits and nothing else. */
  function ParseDigits(ds: string): Option<int>
  {
    if ds != [] && AllDigits(ds) then Some(DigitsValue(ds)) else None
  }

  lemma {:induction false} DigitsRoundTrip(n: nat)
    ensures DigitsValue(NatToString(n)) == n
    decreases n
  {
    if n >= 10 {
      DigitsRoundTrip(n / 10);
      var s := NatToString(n);
      assert s[..|s| - 1] == NatToString(n / 10);
    }
  }

  lemma ParseIntDigits(ds: string)
    requires ds != [] && AllDigits(ds)
    ensures ParseInt(ds) == Some(DigitsValue(ds))
  {
    assert IsDigit(ds[0]) && IsDigit(ds[|ds| - 1]);
    StripUnpadded(ds, Whitespace);
  }

  lemma ParseIntUnpadded(s: string)
    requires s != [] && s[0] !in Whitespace && s[|s| - 1] !in Whitespace
    ensures ParseInt(s) == ParseSigned(s)
  {
    StripUnpadded(s, Whitespace);
  }

  lemma ParseSignedDigits(sign: char, ds: string)
    requires sign == '+' || sign == '-'
    requires ds != [] && AllDigits(ds)
    ensures ParseSigned([sign] + ds) == Some(if sign == '-' then -(DigitsValue(ds) as int) else DigitsValue(ds))
  {
    assert ([sign] + ds)[1..] == ds;
  }

  lemma ParseIntNegativeDigits(ds: string)
    requires ds != [] && AllDigits(ds)
    ensures ParseInt("-" + ds) == Some(-(DigitsValue(ds) as int))
  {
    var s := "-" + ds;
    assert s[|s| - 1] == ds[|ds| - 1];
    assert IsDigit(s[|s| - 1]);
    ParseIntUnpadded(s);
    ParseSignedDigits('-', ds);
  }

  /** A character that is neither a digit nor a sign rules the text out. */
  lemma ParseSignedRejects(t: string, j: int)
    requires 0 <= j < |t| && !IsDigit(t[j]) && t[j] != '+' && t[j] != '-'
    ensures ParseSigned(t) == None
  {
    if t[0] == '+' || t[0] == '-' {
      assert t[1..][j - 1] == t[j];
    }
  }

  /** A character that is neither a digit, whitespace nor a sign makes
      `int` fail, and so does a text made only of whitespace. */
  lemma ParseIntRejects(s: string)
    requires AllIn(s, Whitespace)
          || exists k :: 0 <= k < |s| && !IsDigit(s[k]) && s[k] !in Whitespace && s[k] != '+' && s[k] != '-'
    ensures ParseInt(s) == None
  {
    if AllIn(s, Whitespace) {
      StripBlank(s, Whitespace);
    } else {
      var k :| 0 <= k < |s| && !IsDigit(s[k]) && s[k] !in Whitespace && s[k] != '+' && s[k] != '-';
      StripKeeps(s, Whitespace, k);
      var t := Strip(s, Whitespace);
      var j :| 0 <= j < |t| && t[j] == s[k];
      ParseSignedRejects(t, j);
    }
  }

  /** `int(str(i)) == i`. */
  lemma ParseIntRoundTrip(i: int)
    ensures ParseInt(IntToString(i)) == Some(i)
  {
    var n: nat := if i < 0 then -i else i;
    var ds := NatToString(n);
    DigitsRoundTrip(n);
    if i < 0 {
      ParseIntNegativeDigits(ds);
      assert ParseInt("-" + ds) == Some(i);
    } else {
      ParseIntDigits(ds);
      assert ParseInt(ds) == Some(i);
    }
  }
}
