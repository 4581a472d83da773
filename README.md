# Next semantic version from conventional commits

A model of `VersionCalculator` from the Gradle semver plugin. The plugin
reads the commit messages made since the last release and the last released
version, then computes the next semantic version:

- Without a last version, the result is `0.1.0`.
- Otherwise each message is checked for three signals, using the pattern
  `(\w{0,15})(\(?(.{0,40})\))?(!?):(.\S.*)` matched against the whole message:
  - major: group 4 is `!`, or the message contains `BREAKING CHANGE` anywhere;
  - minor: group 1 (the type) is `feat`;
  - patch: the type is one of `fix`, `build`, `ci`, `docs`, `pref`,
    `refactor`, `style`, `test`.
- If any message has a major signal, major goes up and minor and patch reset.
  Otherwise a minor signal bumps minor and resets patch. Otherwise a patch
  signal bumps patch. Otherwise the version is unchanged.

The project has four modules:

- `Optional` (`optional.dfy`): Kotlin's nullable values.
- `CommitPattern` (`commit_pattern.dfy`): the pattern as `java.util.regex`
  runs it for `Regex.matchEntire`.
  - `IsParse` describes declaratively every way the pattern can match a
    message. A way of matching is fixed by the engine's choices: the length
    of group 1; whether group 2 is taken, with or without its `(`; the length
    of group 3; and whether group 4 is `!`.
  - `TriedBefore` is the order in which the backtracking engine tries those
    choices: greedy quantifiers longest first, an optional group before it is
    skipped.
  - `FirstParse` is the engine itself. It starts greedy and backs off one
    step at a time. It is proved to return the first way of matching in that
    order, or `None` exactly when there is none.
  - `IsFirstParse` says that a way of matching comes before every other.
    `MatchEntire` reports the capture groups of that way of matching, and
    the three signals are stated through it as well, so their contracts do
    not depend on the engine.
- `VersionCalculator` (`version_calculator.dfy`): the three signal
  predicates and `calculateNextVersion`.
- `VersionScenarios` (`version_scenarios.dfy`): every scenario of
  `VersionCalculatorTest`, each stated as a lemma.

The code departs from the Conventional Commits convention in several places,
and the model follows the code in each. The convention says that a `!` right
before the first `:` marks a breaking change, as does a `BREAKING CHANGE:`
footer. The code instead reads group 4 of the first match and searches for the
literal anywhere:

- The greedy scope can swallow the `!`. In `fix(a)!: b): c` group 4 is empty,
  so that message is only a patch (`VersionCalculator.SwallowedBangIsOnlyPatch`).
- A `)` in the description can turn a later `!` into group 4. `fix: a)!: b`
  has no `!` before its first `:`, yet it is a major change
  (`VersionCalculator.LateParenIsMajor`).
- `BREAKING CHANGE` counts anywhere in the message, the description
  included, and not only as a footer
  (`VersionCalculator.BreakingChangeLiteralIsMajor`).
- A message with a body never matches, because neither `.` nor `\S` accepts
  a line break. Such a message has no minor and no patch signal, whatever its
  header says (`VersionCalculator.MultiLineMessageSignals`).

The major signal is `(group4 == "!" ?: false) || contains("BREAKING CHANGE")`.
The elvis operator binds tighter than `||`, so the literal counts even when
the pattern does not match. The model follows that reading.

## Model

| member | source | states |
|---|---|---|
| CommitPattern.WordRun | semver/src/main/kotlin/io/datalbry/plugin/semver/version/VersionCalculator.kt:52 | where greedy `\w*` stops: every character before it is a word character, and the next one is not |
| CommitPattern.DotRun | semver/src/main/kotlin/io/datalbry/plugin/semver/version/VersionCalculator.kt:52 | where greedy `.*` stops: no line terminator before it, and a line terminator or the end at it |
| CommitPattern.WordRunIsMaximal | semver/src/main/kotlin/io/datalbry/plugin/semver/version/VersionCalculator.kt:52 | any prefix of word characters is no longer than the greedy run |
| CommitPattern.DotRunIsMaximal | semver/src/main/kotlin/io/datalbry/plugin/semver/version/VersionCalculator.kt:52 | any prefix without a line terminator is no longer than the greedy run |
| CommitPattern.MatchTail | semver/src/main/kotlin/io/datalbry/plugin/semver/version/VersionCalculator.kt:52 | `(!?):(.\S.*)` from a given position: the result matches whenever some group 4 lets the tail match, and it is `!` whenever `!` works |
| CommitPattern.BackOffScope | semver/src/main/kotlin/io/datalbry/plugin/semver/version/VersionCalculator.kt:52 | with group 1 and the `(` choice fixed, the result matches; it is found whenever some scope length up to n matches, and it is the longest such length |
| CommitPattern.ScopeChoicesBounded | semver/src/main/kotlin/io/datalbry/plugin/semver/version/VersionCalculator.kt:52 | every scope that can match is within the greedy start of `.{0,40}`, and a scope after `(` needs the `(` in the message |
| CommitPattern.MatchAfterType | semver/src/main/kotlin/io/datalbry/plugin/semver/version/VersionCalculator.kt:52 | with group 1 fixed, the result is a match, and it comes first among all matches with that group 1: with `(`, then without, then group 2 skipped |
| CommitPattern.TypeLengthBounded | semver/src/main/kotlin/io/datalbry/plugin/semver/version/VersionCalculator.kt:52 | the greedy start of `\w{0,15}` is a valid group 1, and no match has a longer one |
| CommitPattern.BackOffType | semver/src/main/kotlin/io/datalbry/plugin/semver/version/VersionCalculator.kt:52 | among matches whose group 1 is at most k long, the result is the first in the engine's order, or None when there is no such match |
| CommitPattern.FirstParse | semver/src/main/kotlin/io/datalbry/plugin/semver/version/VersionCalculator.kt:52 | the result is a match of the whole message; any match means there is a result; and the result comes before every other match in backtracking order |
| CommitPattern.FirstParseIs | semver/src/main/kotlin/io/datalbry/plugin/semver/version/VersionCalculator.kt:52 | a match that no other match precedes is the one the engine returns |
| CommitPattern.FirstParseIsFirst | semver/src/main/kotlin/io/datalbry/plugin/semver/version/VersionCalculator.kt:52 | the engine's result is the way of matching tried first, and any way of matching that is tried first is the engine's result |
| CommitPattern.MatchEntire | semver/src/main/kotlin/io/datalbry/plugin/semver/version/VersionCalculator.kt:37 | `matchEntire` is None exactly when the pattern cannot match the whole message; otherwise it reports the groups of the way of matching tried first, and of no other. The groups are read off the match by `GroupsOf`, in which a group that took no part in the match is `""` |
| CommitPattern.MatchStructure | semver/src/main/kotlin/io/datalbry/plugin/semver/version/VersionCalculator.kt:52 | the groups of a match rebuild the message around the `:`; the type is at most 15 word characters; the scope is at most 40 characters without a line terminator; group 2 is empty, `(scope)` or `scope)`; group 4 is empty or `!`; the description is accepted by `.\S.*` |
| CommitPattern.GroupsStructure | semver/src/main/kotlin/io/datalbry/plugin/semver/version/VersionCalculator.kt:52 | the same shape for the groups of any match, not only the first |
| CommitPattern.MatchHasNoLineBreak | semver/src/main/kotlin/io/datalbry/plugin/semver/version/VersionCalculator.kt:52 | a message with a line feed or carriage return never matches, because neither `.` nor `\S` accepts them |
| CommitPattern.RenderedHeaderMatches | semver/src/main/kotlin/io/datalbry/plugin/semver/version/VersionCalculator.kt:52 | round trip: a header `type(scope)!: description` is written out and matched again, and gives back its type, scope, `!` and description, provided the type is at most 15 word characters, the scope is at most 40 characters on one line, the description fits `.\S.*` and has no `)` |
| CommitPattern.ScopeRunsToLastParen | semver/src/main/kotlin/io/datalbry/plugin/semver/version/VersionCalculator.kt:52 | `fix(a)!: b): c` matches with scope `a)!: b` and an empty group 4: the greedy scope runs to the last `)` that still lets the rest match |
| CommitPattern.ParenInDescriptionMakesBang | semver/src/main/kotlin/io/datalbry/plugin/semver/version/VersionCalculator.kt:52 | `fix: a)!: b` matches with group 2 `: a)` (taken without `(`) and group 4 `!` |
| VersionCalculator.HasMajorChange | semver/src/main/kotlin/io/datalbry/plugin/semver/version/VersionCalculator.kt:36-39 | major exactly when group 4 of the way of matching tried first is `!`, or the message contains `BREAKING CHANGE` (with or without a match) |
| VersionCalculator.HasMinorChange | semver/src/main/kotlin/io/datalbry/plugin/semver/version/VersionCalculator.kt:41-44 | minor exactly when the message matches and group 1 of the way of matching tried first is `feat` |
| VersionCalculator.HasPatchChange | semver/src/main/kotlin/io/datalbry/plugin/semver/version/VersionCalculator.kt:46-49 | patch exactly when the message matches and group 1 of the way of matching tried first is one of the eight patch types |
| VersionCalculator.Any | semver/src/main/kotlin/io/datalbry/plugin/semver/version/VersionCalculator.kt:24 | `commits.any { p }` holds exactly when some commit satisfies p |
| VersionCalculator.NextVersion | semver/src/main/kotlin/io/datalbry/plugin/semver/version/VersionCalculator.kt:21-34 | with no last version the result is 0.1.0; otherwise the version never goes back, and it stays the same exactly when no commit carries a signal |
| VersionCalculator.NoLastVersionGivesFirstVersion | semver/src/main/kotlin/io/datalbry/plugin/semver/version/VersionCalculator.kt:22 | without a last version the result is 0.1.0, whatever the commits |
| VersionCalculator.MajorWins | semver/src/main/kotlin/io/datalbry/plugin/semver/version/VersionCalculator.kt:24-25 | one commit with a major signal gives `major + 1`, `0`, `0`, whatever the other commits say |
| VersionCalculator.MinorBump | semver/src/main/kotlin/io/datalbry/plugin/semver/version/VersionCalculator.kt:27-28 | with no major signal, a `feat` commit gives `minor + 1` and resets patch |
| VersionCalculator.PatchBump | semver/src/main/kotlin/io/datalbry/plugin/semver/version/VersionCalculator.kt:30-31 | with no major or minor signal, a patch-type commit gives `patch + 1` |
| VersionCalculator.NoSignalKeepsVersion | semver/src/main/kotlin/io/datalbry/plugin/semver/version/VersionCalculator.kt:33 | with no signal at all, an empty batch included, the last version is returned |
| VersionCalculator.SingleCommitNext | semver/src/main/kotlin/io/datalbry/plugin/semver/version/VersionCalculator.kt:21-34 | for a batch of one commit, its first signal decides, checked in the order major, minor, patch |
| VersionCalculator.OrderIndependent | semver/src/main/kotlin/io/datalbry/plugin/semver/version/VersionCalculator.kt:24-31 | two batches with the same messages, in any order and with any repetition, give the same version |
| VersionCalculator.BreakingChangeLiteralIsMajor | semver/src/main/kotlin/io/datalbry/plugin/semver/version/VersionCalculator.kt:38 | a message containing `BREAKING CHANGE` is a major change, even when the pattern does not match it |
| VersionCalculator.MultiLineMessageSignals | semver/src/main/kotlin/io/datalbry/plugin/semver/version/VersionCalculator.kt:36-49 | a message over several lines has no minor and no patch signal, and has a major signal exactly when it contains `BREAKING CHANGE` |
| VersionCalculator.ConventionalHeaderSignals | semver/src/main/kotlin/io/datalbry/plugin/semver/version/VersionCalculator.kt:36-63 | for a well-formed header: major exactly when it has `!` or contains the literal; minor exactly for type `feat`; patch exactly for a patch type |
| VersionCalculator.SwallowedBangIsOnlyPatch | semver/src/main/kotlin/io/datalbry/plugin/semver/version/VersionCalculator.kt:36-49 | `fix(a)!: b): c` has no major and no minor signal, only a patch signal |
| VersionCalculator.LateParenIsMajor | semver/src/main/kotlin/io/datalbry/plugin/semver/version/VersionCalculator.kt:36-39 | `fix: a)!: b` has a major signal |
| VersionScenarios.PatchTypesAreWords | semver/src/main/kotlin/io/datalbry/plugin/semver/version/VersionCalculator.kt:54-63 | every patch type is at most 15 word characters, so group 1 can hold it |
| VersionScenarios.HeaderSignals | semver/src/main/kotlin/io/datalbry/plugin/semver/version/VersionCalculator.kt:36-49 | a well-formed header with no `B` anywhere: major exactly when it has `!`, minor exactly for `feat`, patch exactly for a patch type |
| VersionScenarios.SingleHeaderNext | semver/src/main/kotlin/io/datalbry/plugin/semver/version/VersionCalculator.kt:21-34 | for such a header alone in a batch, the next version follows from its `!` and its type |
| VersionScenarios.WithoutLastVersionReturnsFirstVersion | semver/src/test/kotlin/io/datalbry/plugin/semver/version/VersionCalculatorTest.kt:11-21 | `fix(scope_1): some good fix` with no last version gives 0.1.0 |
| VersionScenarios.WithBreakingChangeRaisesMajor | semver/src/test/kotlin/io/datalbry/plugin/semver/version/VersionCalculatorTest.kt:23-34 | `fix(scope_1): BREAKING CHANGE` from 0.1.0 gives 1.0.0 |
| VersionScenarios.WithShortcutBreakingChangeRaisesMajor | semver/src/test/kotlin/io/datalbry/plugin/semver/version/VersionCalculatorTest.kt:36-47 | `fix(scope_1)!: something` from 0.1.0 gives 1.0.0 |
| VersionScenarios.WithShortcutBreakingChangeWithoutScopeRaisesMajor | semver/src/test/kotlin/io/datalbry/plugin/semver/version/VersionCalculatorTest.kt:49-60 | `fix!: something` from 0.1.0 gives 1.0.0 |
| VersionScenarios.WithFeatureRaisesMinor | semver/src/test/kotlin/io/datalbry/plugin/semver/version/VersionCalculatorTest.kt:62-73 | `feat(scope_1): best feature` from 0.1.0 gives 0.2.0 |
| VersionScenarios.WithFixRaisesPatch | semver/src/test/kotlin/io/datalbry/plugin/semver/version/VersionCalculatorTest.kt:75-86 | `fix(scope_1): ugh, i hate bugs` from 0.1.0 gives 0.1.1 |
| VersionScenarios.AnotherOneBumpsPatch | semver/src/test/kotlin/io/datalbry/plugin/semver/version/VersionCalculatorTest.kt:92-94 | a lone commit `t: another one`, where t is any patch type, bumps patch and nothing else |
| VersionScenarios.ReleaseEach | semver/src/test/kotlin/io/datalbry/plugin/semver/version/VersionCalculatorTest.kt:92-95 | the test's `fold`, one release of one `t: another one` commit per type: the version never goes back along the fold |
| VersionScenarios.ReleaseEachCountsPatches | semver/src/test/kotlin/io/datalbry/plugin/semver/version/VersionCalculatorTest.kt:88-99 | folding releases over any list of patch types raises patch by the length of the list and keeps major and minor |
| VersionScenarios.WithAllPatchTypesRaisesPatchForEach | semver/src/test/kotlin/io/datalbry/plugin/semver/version/VersionCalculatorTest.kt:88-99 | the eight patch types in turn, from 1.0.0, give 1.0.8 |
| VersionScenarios.WithExclamationMarkRaisesMajor | semver/src/test/kotlin/io/datalbry/plugin/semver/version/VersionCalculatorTest.kt:101-112 | `fix(scope_1)!: ugh, i hate bugs` from 0.1.0 gives 1.0.0 |

## Left out

- `ProjectExtensions.kt` is not part of this model. It defines
  `propertyOrNull` and `propertyOrDefault`, typed lookups of Gradle project
  properties that throw `IllegalArgumentException` for an unsupported type.
  They touch neither the commits nor `VersionCalculator`; the model takes the
  commits and the last version as parameters.
- The `SemanticVersion` class is not part of this model beyond its three
  fields. Rendering and parsing version strings are left out.
- VersionCalculator.NextVersion: the fields are unbounded naturals, so the
  model does not capture the 32-bit wrap-around of `major + 1`, `minor + 1`
  or `patch + 1` at `Int.MAX_VALUE`.
- Only this one pattern is modelled, as a purpose-built backtracking search.
  `java.util.regex` in general is left out.
- The pattern is compiled again on every call in the source. This is not
  modelled, because it does not change the result.
- `groupValues.getOrNull(1)` and `getOrNull(4)` are read as plain group
  access. The pattern has five groups, so both indices always exist.
- Messages are sequences of Unicode code points, which the regex engine also
  iterates over. The UTF-16 representation of Kotlin strings is left out, and
  so are unpaired surrogates.
- `\S` is the complement of the ASCII whitespace set ` \t\n\x0B\f\r`, as in
  `java.util.regex` without flags. So `\u0085` counts as non-whitespace for
  `\S`, while `.` rejects it as a line terminator.
- The JUnit test runner is left out; each test is stated as a lemma about the
  model.
