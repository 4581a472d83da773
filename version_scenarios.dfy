/**
 * The scenarios of `VersionCalculatorTest`, each stated as a lemma about
 * NextVersion on the test's own messages and versions.
 */
module VersionScenarios {
  import opened Optional
  import opened CommitPattern
  import opened VersionCalculator

  /** Every patch type is a run of at most 15 lower-case letters, so the pattern reads it as group 1. */
  lemma PatchTypesAreWords(t: string)
    requires t in PatchTypes
    ensures |t| <= MaxTypeLength && AllWordChars(t) && 'B' !in t
  {
  }

  /** No 'B' in any part of h, so the breaking-change literal cannot occur in it. */
  predicate FreeOfB(h: Header) {
    'B' !in h.commitType && (h.scope.Some? ==> 'B' !in h.scope.value) && 'B' !in h.description
  }

  /** A conventional header without a 'B' carries exactly the signals of its parts. */
  lemma HeaderSignals(h: Header)
    requires Conventional(h) && FreeOfB(h)
    ensures HasMajorChange(Render(h)) <==> h.breaking
    ensures HasMinorChange(Render(h)) <==> h.commitType == FeatureType
    ensures HasPatchChange(Render(h)) <==> h.commitType in PatchTypes
  {
    ConventionalHeaderSignals(h);
    assert 'B' !in ScopeText(h.scope);
    ContainsMarkerNeedsB(Render(h));
  }

  /** A batch of one such header moves the version by the rule its parts select. */
  lemma SingleHeaderNext(h: Header, v: SemanticVersion)
    requires Conventional(h) && FreeOfB(h)
    ensures NextVersion([Render(h)], Some(v)) ==
      if h.breaking then SemanticVersion(v.major + 1, 0, 0)
      else if h.commitType == FeatureType then SemanticVersion(v.major, v.minor + 1, 0)
      else if h.commitType in PatchTypes then SemanticVersion(v.major, v.minor, v.patch + 1)
      else v
  {
    HeaderSignals(h);
    SingleCommitNext(Render(h), v);
  }

  /** `withoutLastVersion_returnsFirstVersion`. */
  lemma WithoutLastVersionReturnsFirstVersion()
    ensures NextVersion(["fix(scope_1): some good fix"], None) == SemanticVersion(0, 1, 0)
  {
  }

  /** `withBreakingChange_raisesMajor`: the literal alone is enough. */
  lemma WithBreakingChangeRaisesMajor()
    ensures NextVersion(["fix(scope_1): BREAKING CHANGE"], Some(SemanticVersion(0, 1, 0))) == SemanticVersion(1, 0, 0)
  {
    var m := "fix(scope_1): BREAKING CHANGE";
    assert OccursAt(m, BreakingChangeMarker, 14);
    BreakingChangeLiteralIsMajor(m);
    MajorWins([m], SemanticVersion(0, 1, 0), m);
  }

  /** The message of `withShortcutBreakingChange_raisesMajor`, in parts. */
  const ShortcutHeader := Header("fix", Some("scope_1"), true, " something")

  lemma ShortcutHeaderFacts()
    ensures Conventional(ShortcutHeader) && FreeOfB(ShortcutHeader)
  {
  }

  lemma ShortcutHeaderRenders()
    ensures Render(ShortcutHeader) == "fix(scope_1)!: something"
  {
  }

  /** `withShortcutBreakingChange_raisesMajor`: a '!' after the scope. */
  lemma WithShortcutBreakingChangeRaisesMajor()
    ensures NextVersion(["fix(scope_1)!: something"], Some(SemanticVersion(0, 1, 0))) == SemanticVersion(1, 0, 0)
  {
    ShortcutHeaderFacts();
    ShortcutHeaderRenders();
    SingleHeaderNext(ShortcutHeader, SemanticVersion(0, 1, 0));
  }

  /** The message of `withShortcutBreakingChangeAndWithoutScope_raisesMajor`, in parts. */
  const UnscopedShortcutHeader := Header("fix", None, true, " something")

  lemma UnscopedShortcutHeaderFacts()
    ensures Conventional(UnscopedShortcutHeader) && FreeOfB(UnscopedShortcutHeader)
  {
  }

  lemma UnscopedShortcutHeaderRenders()
    ensures Render(UnscopedShortcutHeader) == "fix!: something"
  {
  }

  /** `withShortcutBreakingChangeAndWithoutScope_raisesMajor`: a '!' right after the type. */
  lemma WithShortcutBreakingChangeWithoutScopeRaisesMajor()
    ensures NextVersion(["fix!: something"], Some(SemanticVersion(0, 1, 0))) == SemanticVersion(1, 0, 0)
  {
    UnscopedShortcutHeaderFacts();
    UnscopedShortcutHeaderRenders();
    SingleHeaderNext(UnscopedShortcutHeader, SemanticVersion(0, 1, 0));
  }

  /** The message of `withFeature_raisesMinor`, in parts. */
  const FeatureHeader := Header("feat", Some("scope_1"), false, " best feature")

  lemma FeatureHeaderFacts()
    ensures Conventional(FeatureHeader) && FreeOfB(FeatureHeader)
  {
  }

  lemma FeatureHeaderRenders()
    ensures Render(FeatureHeader) == "feat(scope_1): best feature"
  {
  }

  /** `withFeature_raisesMinor`. */
  lemma WithFeatureRaisesMinor()
    ensures NextVersion(["feat(scope_1): best feature"], Some(SemanticVersion(0, 1, 0))) == SemanticVersion(0, 2, 0)
  {
    FeatureHeaderFacts();
    FeatureHeaderRenders();
    SingleHeaderNext(FeatureHeader, SemanticVersion(0, 1, 0));
  }

  /** The message of `withFix_raisesPatch`, in parts. */
  const FixHeader := Header("fix", Some("scope_1"), false, " ugh, i hate bugs")

  lemma FixHeaderFacts()
    ensures Conventional(FixHeader) && FreeOfB(FixHeader)
  {
  }

  lemma FixHeaderRenders()
    ensures Render(FixHeader) == "fix(scope_1): ugh, i hate bugs"
  {
  }

  /** `withFix_raisesPatch`. */
  lemma WithFixRaisesPatch()
    ensures NextVersion(["fix(scope_1): ugh, i hate bugs"], Some(SemanticVersion(0, 1, 0))) == SemanticVersion(0, 1, 1)
  {
    FixHeaderFacts();
    FixHeaderRenders();
    SingleHeaderNext(FixHeader, SemanticVersion(0, 1, 0));
  }

  /** The message of `withExclamationMark_raisesMajor`, in parts. */
  const ExclamationHeader := Header("fix", Some("scope_1"), true, " ugh, i hate bugs")

  lemma ExclamationHeaderFacts()
    ensures Conventional(ExclamationHeader) && FreeOfB(ExclamationHeader)
  {
  }

  lemma ExclamationHeaderRenders()
    ensures Render(ExclamationHeader) == "fix(scope_1)!: ugh, i hate bugs"
  {
  }

  /** `withExclamationMark_raisesMajor`. */
  lemma WithExclamationMarkRaisesMajor()
    ensures NextVersion(["fix(scope_1)!: ugh, i hate bugs"], Some(SemanticVersion(0, 1, 0))) == SemanticVersion(1, 0, 0)
  {
    ExclamationHeaderFacts();
    ExclamationHeaderRenders();
    SingleHeaderNext(ExclamationHeader, SemanticVersion(0, 1, 0));
  }

  /** The message the fold scenario commits for type t. */
  function AnotherOne(t: string): string {
    t + ": another one"
  }

  /** The fold of `withAllPatchTypes_raisesPatchForEach`: one release per type, one commit each. */
  function ReleaseEach(types: seq<string>, v: SemanticVersion): (r: SemanticVersion)
    ensures r == v || Below(v, r)
  {
    if types == [] then v else ReleaseEach(types[1..], NextVersion([AnotherOne(types[0])], Some(v)))
  }

  /** The description of the fold scenario fits group 5 and holds neither ')' nor 'B'. */
  lemma AnotherOneDescription()
    ensures DescriptionFits(" another one") && ')' !in " another one" && 'B' !in " another one"
  {
  }

  /** A lone "t: another one" commit with a patch type t bumps patch and nothing else. */
  lemma AnotherOneBumpsPatch(t: string, v: SemanticVersion)
    requires t in PatchTypes
    ensures NextVersion([AnotherOne(t)], Some(v)) == SemanticVersion(v.major, v.minor, v.patch + 1)
  {
    PatchTypesAreWords(t);
    AnotherOneDescription();
    var h := Header(t, None, false, " another one");
    assert Render(h) == AnotherOne(t);
    assert t != FeatureType;
    SingleHeaderNext(h, v);
  }

  /** Releasing once per patch type raises patch by the number of types and leaves major and minor alone. */
  lemma {:induction false} ReleaseEachCountsPatches(types: seq<string>, v: SemanticVersion)
    requires forall i :: 0 <= i < |types| ==> types[i] in PatchTypes
    ensures ReleaseEach(types, v) == SemanticVersion(v.major, v.minor, v.patch + |types|)
  {
    if types != [] {
      AnotherOneBumpsPatch(types[0], v);
      ReleaseEachCountsPatches(types[1..], NextVersion([AnotherOne(types[0])], Some(v)));
    }
  }

  /** `withAllPatchTypes_raisesPatchForEach`: from 1.0.0, the eight patch types in turn give 1.0.8. */
  lemma WithAllPatchTypesRaisesPatchForEach()
    ensures ReleaseEach(["fix", "build", "ci", "docs", "pref", "refactor", "style", "test"], SemanticVersion(1, 0, 0))
         == SemanticVersion(1, 0, 8)
  {
    ReleaseEachCountsPatches(["fix", "build", "ci", "docs", "pref", "refactor", "style", "test"], SemanticVersion(1, 0, 0));
  }
}
