/** The factory that lets the host runtime deploy verticles written for the
    `scalaj` language: it claims deployment identifiers by a fixed prefix or
    suffix and strips the prefix before loading. */
module VerticleFactory {
  import opened Text

  const Language: string := "scalaj"
  const Prefix: string := "scalaj:"
  const Suffix: string := ".scalaj"

  /** The handle the factory gives back to the host. It carries no state of
      its own in this repository. */
  class ScalaVerticle {
    constructor ()
    {
    }
  }

  /** `getLanguage`: the language tag, the one that names both markers. */
  function GetLanguage(): (r: string)
    ensures Prefix == r + ":" && Suffix == "." + r
  {
    Language
  }

  /** `isFactoryFor`: the identifier is claimed exactly when it is the prefix
      followed by anything, or anything followed by the suffix. */
  function IsFactoryFor(main: string): (r: bool)
    ensures r <==> ((|main| >= |Prefix| && main == Prefix + main[|Prefix|..])
                    || (|main| >= |Suffix| && main == main[..|main| - |Suffix|] + Suffix))
  {
    if StartsWith(main, Prefix) then true
    else if EndsWith(main, Suffix) then true
    else false
  }

  /** The name `createVerticle` goes on with: a claimed prefix is removed by
      `replaceFirst`, anything else is kept as it is. */
  function ResolveMain(main: string): (r: string)
    ensures StartsWith(main, Prefix) ==> Prefix + r == main && r == main[|Prefix|..]
    ensures !StartsWith(main, Prefix) ==> r == main
  {
    if StartsWith(main, Prefix) then ReplaceFirst(main, Prefix, "") else main
  }

  /** Stripping after prefixing gives the name back. */
  lemma ResolvePrefixed(rest: string)
    ensures IsFactoryFor(Prefix + rest)
    ensures ResolveMain(Prefix + rest) == rest
  {
    assert (Prefix + rest)[..|Prefix|] == Prefix;
  }

  /** The prefix does not contain the suffix's leading dot, so a name that
      carries both markers is long enough to hold them side by side. */
  lemma MarkersDoNotOverlap(main: string)
    requires StartsWith(main, Prefix) && EndsWith(main, Suffix)
    ensures |main| >= |Prefix| + |Suffix|
  {
    var k := |main| - |Suffix|;
    assert main[k] == '.' by {
      assert main[k..] == Suffix;
    }
    assert main[..|Prefix|] == Prefix;
    assert forall m :: 0 <= m < |Prefix| ==> Prefix[m] != '.';
    if k < |Prefix| {
      assert false;
    }
  }

  /** Dropping a prefix that does not reach into the suffix keeps the
      suffix. */
  lemma DropKeepsSuffix(main: string, n: nat, suffix: string)
    requires n + |suffix| <= |main| && EndsWith(main, suffix)
    ensures EndsWith(main[n..], suffix)
  {
    var r := main[n..];
    assert r[|r| - |suffix|..] == main[|main| - |suffix|..];
  }

  /** A name carrying both markers still ends with the suffix once the prefix
      is stripped. */
  lemma ResolveKeepsSuffix(main: string)
    requires StartsWith(main, Prefix) && EndsWith(main, Suffix)
    ensures EndsWith(ResolveMain(main), Suffix)
  {
    MarkersDoNotOverlap(main);
    DropKeepsSuffix(main, |Prefix|, Suffix);
  }

  /** `createVerticle`: the suffix branch (where a compile step would go) is
      empty, the prefix is stripped, and a fresh verticle is returned whatever
      the name. The stripped name, which the source computes and then drops,
      is returned beside it. */
  method CreateVerticle(main: string) returns (verticle: ScalaVerticle, resolved: string)
    ensures fresh(verticle)
    ensures StartsWith(main, Prefix) ==> Prefix + resolved == main
    ensures !StartsWith(main, Prefix) ==> resolved == main
    ensures EndsWith(main, Suffix) ==> EndsWith(resolved, Suffix)
  {
    resolved := main;
    if EndsWith(resolved, Suffix) {
      // the compile step is a placeholder in the source
    }
    if StartsWith(resolved, Prefix) {
      resolved := ReplaceFirst(resolved, Prefix, "");
      if EndsWith(main, Suffix) {
        ResolveKeepsSuffix(main);
      }
    }
    verticle := new ScalaVerticle();
  }

  /** The identifier the compiled-verticle test deploys uses the tag `scala:`,
      which is not this factory's `scalaj:`, so the factory does not claim it. */
  lemma TestIdentifierNotClaimed()
    ensures !IsFactoryFor("scala:org.vertx.test.SimpleVerticle")
  {
    var id := "scala:org.vertx.test.SimpleVerticle";
    assert id[5] != Prefix[5];
    assert id[|id| - 1] != Suffix[|Suffix| - 1];
  }
}
