/** The inclusion predicate `is_included` of src/main.rs and the three
    constant tables it consults. */
module PathFilter {
  import opened Wrappers
  import opened Strings

  /** `STANDARD_EXCLUSIONS`: a path containing any of these is rejected.
      `"*.log"` is literal text; no character here is a wildcard. */
  const StandardExclusions: seq<string> :=
    ["node_modules/", ".git/", ".DS_Store", "dist/", "build/", "*.log"]

  /** `CUSTOM_INCLUDES`: a non-excluded path containing any of these is accepted. */
  const CustomIncludes: seq<string> := ["package.json", "../../README.md", "README.md"]

  /** `EXTENSIONS`: a non-excluded path ending in any of these is accepted. */
  const Extensions: seq<string> := [".ts", ".tsx"]

  /** A filesystem path as `Path::to_str` sees it: `Some(text)` when the path
      is valid UTF-8, `None` otherwise. */
  type OsPath = Option<string>

  /** `path.to_str().unwrap_or("")`: the text the predicate tests. */
  function PathText(path: OsPath): string {
    path.UnwrapOr("")
  }

  /** `patterns.iter().any(|p| s.contains(p))`, scanning left to right. */
  predicate ContainsAny(s: string, patterns: seq<string>) {
    if patterns == [] then false
    else Contains(s, patterns[0]) || ContainsAny(s, patterns[1..])
  }

  /** `patterns.iter().any(|p| s.ends_with(p))`, scanning left to right. */
  predicate EndsWithAny(s: string, patterns: seq<string>) {
    if patterns == [] then false
    else EndsWith(s, patterns[0]) || EndsWithAny(s, patterns[1..])
  }

  /** The exclusion test of `is_included`. */
  predicate Excluded(s: string) {
    ContainsAny(s, StandardExclusions)
  }

  /** `is_included`: rejected when an exclusion literal occurs in the path
      text; otherwise accepted when an include marker occurs in it or it ends
      in one of the extensions. */
  predicate IsIncluded(path: OsPath) {
    var s := PathText(path);
    if Excluded(s) then false
    else ContainsAny(s, CustomIncludes) || EndsWithAny(s, Extensions)
  }

  /** The decision with every table written out: rejected as soon as one of
      the six literals occurs, and otherwise accepted exactly when one of the
      three markers occurs or the text ends in `.ts` or `.tsx`. */
  lemma IsIncludedIff(path: OsPath)
    ensures var s := PathText(path);
      IsIncluded(path) <==>
        (!Contains(s, "node_modules/") && !Contains(s, ".git/") && !Contains(s, ".DS_Store")
         && !Contains(s, "dist/") && !Contains(s, "build/") && !Contains(s, "*.log"))
        && (Contains(s, "package.json") || Contains(s, "../../README.md") || Contains(s, "README.md")
            || EndsWith(s, ".ts") || EndsWith(s, ".tsx"))
  {
    var s := PathText(path);
    ContainsAnyLiterals(s);
  }

  /** `ContainsAny` over a list of three patterns, unrolled. */
  lemma ContainsAny3(s: string, a: string, b: string, c: string)
    ensures ContainsAny(s, [a, b, c]) <==> (Contains(s, a) || Contains(s, b) || Contains(s, c))
  {
    assert [a, b, c][1..] == [b, c] && [b, c][1..] == [c] && [c][1..] == [];
    assert ContainsAny(s, [c]) == Contains(s, c);
    assert ContainsAny(s, [b, c]) == (Contains(s, b) || ContainsAny(s, [c]));
  }

  /** `ContainsAny` over a list of six patterns, unrolled. */
  lemma ContainsAny6(s: string, a: string, b: string, c: string, d: string, e: string, f: string)
    ensures ContainsAny(s, [a, b, c, d, e, f]) <==>
      (Contains(s, a) || Contains(s, b) || Contains(s, c) || Contains(s, d) || Contains(s, e) || Contains(s, f))
  {
    assert [a, b, c, d, e, f][1..] == [b, c, d, e, f];
    assert [b, c, d, e, f][1..] == [c, d, e, f];
    assert [c, d, e, f][1..] == [d, e, f];
    ContainsAny3(s, d, e, f);
    assert ContainsAny(s, [c, d, e, f]) == (Contains(s, c) || ContainsAny(s, [d, e, f]));
    assert ContainsAny(s, [b, c, d, e, f]) == (Contains(s, b) || ContainsAny(s, [c, d, e, f]));
  }

  /** `EndsWithAny` over a list of two suffixes, unrolled. */
  lemma EndsWithAny2(s: string, a: string, b: string)
    ensures EndsWithAny(s, [a, b]) <==> (EndsWith(s, a) || EndsWith(s, b))
  {
    assert [a, b][1..] == [b] && [b][1..] == [];
    assert EndsWithAny(s, [b]) == EndsWith(s, b);
  }

  lemma ContainsAnyLiterals(s: string)
    ensures Excluded(s) <==>
      (Contains(s, "node_modules/") || Contains(s, ".git/") || Contains(s, ".DS_Store")
       || Contains(s, "dist/") || Contains(s, "build/") || Contains(s, "*.log"))
    ensures ContainsAny(s, CustomIncludes) <==>
      (Contains(s, "package.json") || Contains(s, "../../README.md") || Contains(s, "README.md"))
    ensures EndsWithAny(s, Extensions) <==> (EndsWith(s, ".ts") || EndsWith(s, ".tsx"))
  {
    EndsWithAny2(s, ".ts", ".tsx");
    ContainsAny3(s, "package.json", "../../README.md", "README.md");
    ContainsAny6(s, "node_modules/", ".git/", ".DS_Store", "dist/", "build/", "*.log");
  }

  /** `ContainsAny` holds exactly when some pattern of the list is contained. */
  lemma {:induction false} ContainsAnyIff(s: string, patterns: seq<string>)
    ensures ContainsAny(s, patterns) <==> exists k :: 0 <= k < |patterns| && Contains(s, patterns[k])
  {
    if patterns != [] {
      ContainsAnyIff(s, patterns[1..]);
      assert forall k :: 1 <= k < |patterns| ==> patterns[k] == patterns[1..][k - 1];
    }
  }

  /** `EndsWithAny` holds exactly when the text ends with some suffix of the list. */
  lemma {:induction false} EndsWithAnyIff(s: string, patterns: seq<string>)
    ensures EndsWithAny(s, patterns) <==> exists k :: 0 <= k < |patterns| && EndsWith(s, patterns[k])
  {
    if patterns != [] {
      EndsWithAnyIff(s, patterns[1..]);
      assert forall k :: 1 <= k < |patterns| ==> patterns[k] == patterns[1..][k - 1];
    }
  }

  /** Exclusion beats inclusion: a path whose text contains any exclusion
      literal is rejected, whatever markers or extension it also has. */
  lemma ExclusionWins(path: OsPath, k: nat)
    requires k < |StandardExclusions| && Contains(PathText(path), StandardExclusions[k])
    ensures !IsIncluded(path)
  {
    ContainsAnyIff(PathText(path), StandardExclusions);
  }

  /** A path that is not valid UTF-8 is tested as `""` and always rejected. */
  lemma NonUtf8Rejected()
    ensures PathText(None) == ""
    ensures !IsIncluded(None)
  {
  }

  /** No pattern occurs in `s` when each has a character, given in `missing`,
      that `s` lacks. */
  lemma {:induction false} NoneContained(s: string, patterns: seq<string>, missing: string)
    requires |missing| == |patterns|
    requires forall k :: 0 <= k < |patterns| ==> missing[k] in patterns[k] && missing[k] !in s
    ensures !ContainsAny(s, patterns)
  {
    if patterns != [] {
      MissingCharNotContained(s, patterns[0], missing[0]);
      NoneContained(s, patterns[1..], missing[1..]);
    }
  }

  /** `"*.log"` is compared as text, not as a glob: `run.log` is not excluded
      by it, and is rejected only because it has no include marker and no
      `.ts`/`.tsx` ending. */
  lemma RunLogNotExcludedButRejected()
    ensures !Excluded("run.log") && !IsIncluded(Some("run.log"))
  {
    RunLogNotExcluded();
    RunLogHasNoMarker();
  }

  lemma RunLogNotExcluded()
    ensures !Excluded("run.log")
  {
    NoneContained("run.log", StandardExclusions, "//D//*");
  }

  lemma RunLogHasNoMarker()
    ensures !ContainsAny("run.log", CustomIncludes)
  {
  }

  /** A `.log` name that ends in `.ts` is accepted: nothing in it contains the
      text `*.log`. */
  lemma LogNameWithTsAccepted()
    ensures IsIncluded(Some("src/a.log.ts"))
  {
    NoneContained("src/a.log.ts", StandardExclusions, "niDdb*");
  }

  /** Only a path holding the characters `*.log` is excluded by that entry,
      even when it ends in `.ts`. */
  lemma LiteralStarLogExcluded()
    ensures Excluded("src/*.log.ts") && !IsIncluded(Some("src/*.log.ts"))
  {
    StarLogContained();
    ContainsAnyIff("src/*.log.ts", StandardExclusions);
    assert StandardExclusions[5] == "*.log";
  }

  lemma StarLogContained()
    ensures Contains("src/*.log.ts", "*.log")
  {
  }

  /** The `../../README.md` marker never decides anything on its own: every
      text containing it also contains `README.md`. */
  lemma RelativeReadmeMarkerRedundant(s: string)
    ensures ContainsAny(s, CustomIncludes) <==> (Contains(s, "package.json") || Contains(s, "README.md"))
  {
    ContainsAnyLiterals(s);
    if Contains(s, "../../README.md") {
      EndsWithContains("../../README.md", "README.md");
      ContainsTransitive(s, "../../README.md", "README.md");
    }
  }

  /** A repository holding `src/app.ts`, `README.md` and
      `node_modules/lib.js`, walked from `repo`: the TypeScript file and the
      README are accepted; everything under `node_modules/` is rejected, a
      README there too. */
  // The paths below are parameters pinned by `requires s == "..."` rather
  // than literals in the contracts: this keeps the literals out of the
  // solver's context, where it would otherwise evaluate every `Contains` on
  // them at once.
  lemma ExampleRepository(app: string, readme: string, lib: string, nested: string)
    requires app == "repo/src/app.ts" && readme == "repo/README.md"
    requires lib == "repo/node_modules/lib.js" && nested == "repo/node_modules/pkg/README.md"
    ensures IsIncluded(Some(app)) && IsIncluded(Some(readme))
    ensures !IsIncluded(Some(lib)) && !IsIncluded(Some(nested))
  {
    AppTsAccepted(app);
    ReadmeAccepted(readme);
    UnderNodeModules(lib);
    UnderNodeModules(nested);
  }

  lemma AppTsAccepted(s: string)
    requires s == "repo/src/app.ts"
    ensures IsIncluded(Some(s))
  {
    NoneContained(s, StandardExclusions, "niDdb*");
  }

  lemma ReadmeAccepted(s: string)
    requires s == "repo/README.md"
    ensures IsIncluded(Some(s))
  {
    NoneContained(s, StandardExclusions, "ngSib*");
    assert s[5..14] == "README.md";
    assert OccursAt(s, "README.md", 5);
    ContainsIff(s, "README.md");
    ContainsAny3(s, "package.json", "../../README.md", "README.md");
  }

  lemma UnderNodeModules(s: string)
    requires StartsWith(s, "repo/node_modules/")
    ensures !IsIncluded(Some(s))
  {
    assert OccursAt(s, "node_modules/", 5) by {
      assert s[5..18] == s[..18][5..18];
    }
    ContainsIff(s, "node_modules/");
    ExclusionWins(Some(s), 0);
  }
}
