/**
 * `VersionCalculator.calculateNextVersion`: the next semantic version from the
 * commit messages since the last release and the last released version.
 *
 * Each message is classified by three signals read off the commit pattern
 * (see CommitPattern); the batch then takes the first rule that fires:
 * a major signal anywhere bumps major, else a minor signal bumps minor, else
 * a patch signal bumps patch, else the version stays as it is. Without a last
 * version the result is always 0.1.0.
 */
module VersionCalculator {
  import opened Optional
  import opened CommitPattern

  /** `SemanticVersion(major, minor, patch)`; the fields are unbounded here. */
  datatype SemanticVersion = SemanticVersion(major: nat, minor: nat, patch: nat)

  /** The version produced when nothing has been released yet. */
  const FirstVersion := SemanticVersion(0, 1, 0)

  /** The literal whose presence anywhere in a message signals a breaking change. */
  const BreakingChangeMarker := "BREAKING CHANGE"

  /** The commit type that signals a new feature. */
  const FeatureType := "feat"

  /** `patchTypes`: the commit types that signal a patch ("pref" is spelled as in the source). */
  const PatchTypes: set<string> := {"fix", "build", "ci", "docs", "pref", "refactor", "style", "test"}

  predicate OccursAt(s: string, w: string, i: int) {
    0 <= i && i + |w| <= |s| && s[i..i + |w|] == w
  }

  /** Kotlin's `CharSequence.contains`: w occurs somewhere in s. */
  predicate Contains(s: string, w: string) {
    exists i | 0 <= i <= |s| - |w| :: OccursAt(s, w, i)
  }

  /**
   * `hasMajorChange`: group 4 of a whole-message match is "!", or the message
   * contains the breaking-change literal. The elvis operator binds tighter
   * than `||`, so the literal counts even when the pattern does not match.
   * Stated without the engine: the way of matching tried first has "!" as
   * group 4, or the literal occurs.
   */
  function HasMajorChange(message: string): (b: bool)
    ensures b <==> (exists p: Parse :: IsFirstParse(message, p) && GroupsOf(message, p).bang == "!")
                   || Contains(message, BreakingChangeMarker)
  {
    (match MatchEntire(message)
     case Some(g) => g.bang == "!"
     case None => false)
    || Contains(message, BreakingChangeMarker)
  }

  /** `hasMinorChange`: the message matches and its type (group 1) is exactly "feat". */
  function HasMinorChange(message: string): (b: bool)
    ensures b <==> exists p: Parse :: IsFirstParse(message, p) && GroupsOf(message, p).commitType == FeatureType
  {
    match MatchEntire(message)
    case Some(g) => g.commitType == FeatureType
    case None => false
  }

  /** `hasPatchChange`: the message matches and its type (group 1) is one of the patch types. */
  function HasPatchChange(message: string): (b: bool)
    ensures b <==> exists p: Parse :: IsFirstParse(message, p) && GroupsOf(message, p).commitType in PatchTypes
  {
    match MatchEntire(message)
    case Some(g) => g.commitType in PatchTypes
    case None => false
  }

  /** The message carries none of the three signals. */
  predicate NoSignal(message: string) {
    !HasMajorChange(message) && !HasMinorChange(message) && !HasPatchChange(message)
  }

  /** Kotlin's `Iterable.any`: some commit satisfies p. */
  function Any(commits: seq<string>, p: string -> bool): (b: bool)
    ensures b <==> exists m :: m in commits && p(m)
  {
    if commits == [] then false
    else
      assert forall m :: m in commits[1..] ==> m in commits;
      assert forall m :: m in commits ==> m == commits[0] || m in commits[1..];
      p(commits[0]) || Any(commits[1..], p)
  }

  /** The lexicographic order on (major, minor, patch). */
  predicate Below(a: SemanticVersion, b: SemanticVersion) {
    || a.major < b.major
    || (a.major == b.major && a.minor < b.minor)
    || (a.major == b.major && a.minor == b.minor && a.patch < b.patch)
  }

  /**
   * `calculateNextVersion`. Given a last version, the result never goes back,
   * and it moves forward exactly when some commit carries a signal.
   */
  function NextVersion(commits: seq<string>, lastVersion: Option<SemanticVersion>): (next: SemanticVersion)
    ensures lastVersion.None? ==> next == FirstVersion
    ensures lastVersion.Some? ==> next == lastVersion.value || Below(lastVersion.value, next)
    ensures lastVersion.Some? ==> (next == lastVersion.value <==> forall m :: m in commits ==> NoSignal(m))
  {
    match lastVersion
    case None => FirstVersion
    case Some(v) =>
      if Any(commits, HasMajorChange) then v.(major := v.major + 1, minor := 0, patch := 0)
      else if Any(commits, HasMinorChange) then v.(minor := v.minor + 1, patch := 0)
      else if Any(commits, HasPatchChange) then v.(patch := v.patch + 1)
      else v
  }

  // ---------------------------------------------------------------------------
  // The version rule

  /** Without a last version the result is 0.1.0, whatever the commits. */
  lemma NoLastVersionGivesFirstVersion(commits: seq<string>)
    ensures NextVersion(commits, None) == SemanticVersion(0, 1, 0)
  {
  }

  /** One commit with a major signal decides the batch, whatever the others say. */
  lemma MajorWins(commits: seq<string>, v: SemanticVersion, m: string)
    requires m in commits && HasMajorChange(m)
    ensures NextVersion(commits, Some(v)) == SemanticVersion(v.major + 1, 0, 0)
  {
  }

  /** Without a major signal, one "feat" commit bumps minor and resets patch. */
  lemma MinorBump(commits: seq<string>, v: SemanticVersion, m: string)
    requires m in commits && HasMinorChange(m)
    requires forall c :: c in commits ==> !HasMajorChange(c)
    ensures NextVersion(commits, Some(v)) == SemanticVersion(v.major, v.minor + 1, 0)
  {
  }

  /** Without a major or minor signal, one patch-type commit bumps patch. */
  lemma PatchBump(commits: seq<string>, v: SemanticVersion, m: string)
    requires m in commits && HasPatchChange(m)
    requires forall c :: c in commits ==> !HasMajorChange(c) && !HasMinorChange(c)
    ensures NextVersion(commits, Some(v)) == SemanticVersion(v.major, v.minor, v.patch + 1)
  {
  }

  /** Without any signal (an empty batch included) the last version is returned as it is. */
  lemma NoSignalKeepsVersion(commits: seq<string>, v: SemanticVersion)
    requires forall c :: c in commits ==> NoSignal(c)
    ensures NextVersion(commits, Some(v)) == v
  {
  }

  /** A batch of one commit: the first of its signals, in the order major, minor, patch, decides. */
  lemma SingleCommitNext(m: string, v: SemanticVersion)
    ensures NextVersion([m], Some(v)) ==
      if HasMajorChange(m) then SemanticVersion(v.major + 1, 0, 0)
      else if HasMinorChange(m) then SemanticVersion(v.major, v.minor + 1, 0)
      else if HasPatchChange(m) then SemanticVersion(v.major, v.minor, v.patch + 1)
      else v
  {
    assert forall c :: c in [m] <==> c == m;
  }

  /** Only which messages occur matters: reordering or repeating commits changes nothing. */
  lemma OrderIndependent(commits: seq<string>, others: seq<string>, lastVersion: Option<SemanticVersion>)
    requires forall m :: m in commits <==> m in others
    ensures NextVersion(commits, lastVersion) == NextVersion(others, lastVersion)
  {
  }

  // ---------------------------------------------------------------------------
  // The signals

  /** The breaking-change literal signals major even where the pattern does not match. */
  lemma BreakingChangeLiteralIsMajor(message: string)
    requires Contains(message, BreakingChangeMarker)
    ensures HasMajorChange(message)
  {
  }

  /** A message over several lines never matches, so only the breaking-change literal can signal. */
  lemma MultiLineMessageSignals(message: string)
    requires '\n' in message || '\r' in message
    ensures !HasMinorChange(message) && !HasPatchChange(message)
    ensures HasMajorChange(message) <==> Contains(message, BreakingChangeMarker)
  {
    MatchHasNoLineBreak(message);
  }

  /**
   * The signals of a header written the conventional way: major exactly when
   * it carries '!' or the literal, minor exactly for type "feat", patch
   * exactly for a patch type.
   */
  lemma ConventionalHeaderSignals(h: Header)
    requires Conventional(h)
    ensures HasMajorChange(Render(h)) <==> h.breaking || Contains(Render(h), BreakingChangeMarker)
    ensures HasMinorChange(Render(h)) <==> h.commitType == FeatureType
    ensures HasPatchChange(Render(h)) <==> h.commitType in PatchTypes
  {
    RenderedHeaderMatches(h);
  }

  /**
   * "fix(a)!: b): c" is only a patch: the greedy scope swallows the '!', so
   * group 4 is empty although the header reads as a breaking fix.
   */
  lemma SwallowedBangIsOnlyPatch()
    ensures !HasMajorChange(GreedyScopeExample)
    ensures !HasMinorChange(GreedyScopeExample) && HasPatchChange(GreedyScopeExample)
  {
    assert !Contains(GreedyScopeExample, BreakingChangeMarker) by {
      ContainsMarkerNeedsB(GreedyScopeExample);
    }
    ScopeRunsToLastParen();
  }

  /**
   * "fix: a)!: b" is a major change: group 2 without '(' closes at the ')' in
   * the description, and the '!' after it becomes group 4.
   */
  lemma LateParenIsMajor()
    ensures HasMajorChange(LateParenExample)
  {
    ParenInDescriptionMakesBang();
  }

  /** A message without a 'B' cannot contain the breaking-change literal. */
  lemma ContainsMarkerNeedsB(s: string)
    ensures Contains(s, BreakingChangeMarker) ==> 'B' in s
  {
    if Contains(s, BreakingChangeMarker) {
      var i :| 0 <= i <= |s| - |BreakingChangeMarker| && OccursAt(s, BreakingChangeMarker, i);
      assert s[i] == s[i..i + |BreakingChangeMarker|][0];
    }
  }
}
