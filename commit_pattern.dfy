/**
 * The commit-message pattern of the version calculator,
 *
 *     (\w{0,15})(\(?(.{0,40})\))?(!?):(.\S.*)
 *
 * matched against a WHOLE message the way java.util.regex matches it
 * (Kotlin's `Regex.matchEntire`, no flags): a backtracking search that takes
 * the first way of matching in priority order, with greedy quantifiers and
 * optional parts tried before they are skipped.
 *
 * The module gives
 *  - a declarative description of every way the pattern can match (`IsParse`)
 *    and of the order in which the engine tries them (`TriedBefore`);
 *  - the engine itself (`FirstParse`), greedy and backing off one step at a
 *    time, proved to return the first way of matching in that order;
 *  - the capture groups of that match (`MatchEntire`).
 *
 * Messages are sequences of Unicode code points, which is what the regex
 * engine iterates over.
 */
module CommitPattern {
  import opened Optional

  /** The bound of `\w{0,15}`, group 1 (the commit type). */
  const MaxTypeLength := 15
  /** The bound of `.{0,40}`, group 3 (the scope). */
  const MaxScopeLength := 40

  /** `\w`: ASCII letters, digits and underscore. */
  predicate IsWordChar(c: char) {
    ('a' <= c <= 'z') || ('A' <= c <= 'Z') || ('0' <= c <= '9') || c == '_'
  }

  /** The characters `.` does not match: the line terminators. */
  predicate IsLineTerminator(c: char) {
    c == '\n' || c == '\r' || c == '\U{0085}' || c == '\U{2028}' || c == '\U{2029}'
  }

  /** `\s`: space, tab, line feed, vertical tab, form feed, carriage return. `\S` is its complement. */
  predicate IsWhitespace(c: char) {
    c == ' ' || c == '\t' || c == '\n' || c == '\U{000B}' || c == '\U{000C}' || c == '\r'
  }

  predicate AllWordChars(s: string) {
    forall i :: 0 <= i < |s| ==> IsWordChar(s[i])
  }

  predicate NoLineTerminator(s: string) {
    forall i :: 0 <= i < |s| ==> !IsLineTerminator(s[i])
  }

  /** Group 5, `.\S.*`, which has to reach the end of the message. */
  predicate DescriptionFits(d: string) {
    |d| >= 2 && !IsLineTerminator(d[0]) && !IsWhitespace(d[1]) && NoLineTerminator(d[2..])
  }

  /*
   * One way of matching is fixed by the choices the engine makes, in the
   * order it makes them: the length of group 1, whether group 2 is taken
   * (and then whether its '(' is present and how long group 3 is), and
   * whether group 4 is '!'. Everything else is then determined.
   */

  /** Group 2, `(\(?(.{0,40})\))?`: skipped, or taken with or without '(' and a scope of some length. */
  datatype ScopeChoice = Skipped | Taken(openParen: bool, length: nat)

  datatype Parse = Parse(typeLength: nat, scope: ScopeChoice, bang: bool)

  /** Where group 3 starts, when group 1 has length k. */
  function ScopeStart(k: nat, g: ScopeChoice): nat {
    if g.Taken? && g.openParen then k + 1 else k
  }

  /** Where group 2 ends (just after its ')'), when group 1 has length k. */
  function ScopeEnd(k: nat, g: ScopeChoice): nat {
    match g
    case Skipped => k
    case Taken(_, n) => ScopeStart(k, g) + n + 1
  }

  /** The position of the ':' under a parse. */
  function ColonAt(p: Parse): nat {
    ScopeEnd(p.typeLength, p.scope) + (if p.bang then 1 else 0)
  }

  /** `(\w{0,15})` matches the first k characters. */
  predicate TypeFits(s: string, k: nat) {
    k <= MaxTypeLength && k <= |s| && AllWordChars(s[..k])
  }

  /** Group 2 matches as chosen by g, right after a group 1 of length k. */
  predicate ScopeFits(s: string, k: nat, g: ScopeChoice) {
    match g
    case Skipped => true
    case Taken(open, n) =>
      var q := ScopeStart(k, g);
      && n <= MaxScopeLength
      && q + n < |s|
      && (open ==> s[k] == '(')
      && NoLineTerminator(s[q..q + n])
      && s[q + n] == ')'
  }

  /** `(!?):(.\S.*)` matches from position r to the end, with group 4 equal to "!" exactly when bang. */
  predicate TailFits(s: string, r: nat, bang: bool) {
    var c := r + (if bang then 1 else 0);
    && c < |s|
    && (bang ==> s[r] == '!')
    && s[c] == ':'
    && DescriptionFits(s[c + 1..])
  }

  /** Everything after group 1 matches as p chooses. */
  predicate RestFits(s: string, p: Parse) {
    ScopeFits(s, p.typeLength, p.scope) && TailFits(s, ScopeEnd(p.typeLength, p.scope), p.bang)
  }

  /** p is a way for the pattern to match the whole of s. */
  predicate IsParse(s: string, p: Parse) {
    TypeFits(s, p.typeLength) && RestFits(s, p)
  }

  /** The engine tries group-2 choice g before h: taken before skipped, '(' before none, longer scope first. */
  predicate ScopeTriedBefore(g: ScopeChoice, h: ScopeChoice) {
    match (g, h)
    case (Taken(_, _), Skipped) => true
    case (Taken(o, n), Taken(o', n')) => (o && !o') || (o == o' && n > n')
    case _ => false
  }

  /**
   * The engine tries a before b: a longer group 1 first (greedy), then group 2
   * as ScopeTriedBefore says, then '!' before the empty group 4.
   */
  predicate TriedBefore(a: Parse, b: Parse) {
    || a.typeLength > b.typeLength
    || (a.typeLength == b.typeLength && ScopeTriedBefore(a.scope, b.scope))
    || (a.typeLength == b.typeLength && a.scope == b.scope && a.bang && !b.bang)
  }

  // ---------------------------------------------------------------------------
  // The engine

  function Min(a: nat, b: nat): nat {
    if a <= b then a else b
  }

  /** How many word characters s starts with: where greedy `\w*` stops. */
  function WordRun(s: string): (n: nat)
    ensures n <= |s| && AllWordChars(s[..n])
    ensures n < |s| ==> !IsWordChar(s[n])
  {
    if s != [] && IsWordChar(s[0]) then
      var n := 1 + WordRun(s[1..]);
      assert s[..n] == [s[0]] + s[1..][..n - 1];
      n
    else
      0
  }

  /** How many characters s starts with before a line terminator: where greedy `.*` stops. */
  function DotRun(s: string): (n: nat)
    ensures n <= |s| && NoLineTerminator(s[..n])
    ensures n < |s| ==> IsLineTerminator(s[n])
  {
    if s != [] && !IsLineTerminator(s[0]) then
      var n := 1 + DotRun(s[1..]);
      assert s[..n] == [s[0]] + s[1..][..n - 1];
      n
    else
      0
  }

  /**
   * `(!?):(.\S.*)` at position r: '!' is tried first, then the empty group 4.
   * The tail is found whenever it can match, and '!' is preferred.
   */
  function MatchTail(s: string, r: nat): (t: Option<bool>)
    ensures t.Some? ==> TailFits(s, r, t.value)
    ensures forall bang :: TailFits(s, r, bang) ==> t.Some? && (bang == t.value || (t.value && !bang))
  {
    if TailFits(s, r, true) then Some(true)
    else if TailFits(s, r, false) then Some(false)
    else None
  }

  /** The group-2 choices with group 1 of length k, '(' as open, and a scope of at most n characters. */
  predicate InScopeRange(p: Parse, k: nat, open: bool, n: nat) {
    p.typeLength == k && p.scope.Taken? && p.scope.openParen == open && p.scope.length <= n
  }

  /**
   * `\(?(.{0,40})\)` and the rest, with group 1 of length k and the '(' choice
   * fixed: `.{0,40}` gives back one character at a time, starting from n.
   * The result is the first choice in that range that lets the rest match.
   */
  function BackOffScope(s: string, k: nat, open: bool, n: nat): (r: Option<Parse>)
    ensures r.Some? ==> InScopeRange(r.value, k, open, n) && RestFits(s, r.value)
    ensures forall p: Parse :: InScopeRange(p, k, open, n) && RestFits(s, p) ==>
              r.Some? && (p == r.value || TriedBefore(r.value, p))
    decreases n
  {
    var g := Taken(open, n);
    var t := if ScopeFits(s, k, g) then MatchTail(s, ScopeEnd(k, g)) else None;
    assert forall p: Parse :: InScopeRange(p, k, open, n) && p.scope.length == n ==> p.scope == g;
    if t.Some? then Some(Parse(k, g, t.value))
    else if n == 0 then None
    else
      assert forall p: Parse :: InScopeRange(p, k, open, n) && p.scope.length < n ==> InScopeRange(p, k, open, n - 1);
      BackOffScope(s, k, open, n - 1)
  }

  /**
   * Greedy `\w*` stops no earlier than any run of word characters s starts
   * with. This also follows from WordRun's ensures alone, but the induction
   * is much cheaper for the solver.
   */
  lemma {:induction false} WordRunIsMaximal(s: string, k: nat)
    requires k <= |s| && AllWordChars(s[..k])
    ensures k <= WordRun(s)
  {
    if k > 0 {
      assert s[..k][0] == s[0];
      assert s[1..][..k - 1] == s[..k][1..];
      WordRunIsMaximal(s[1..], k - 1);
    }
  }

  /**
   * Greedy `.*` stops no earlier than any run without line terminators s
   * starts with; proved by induction for the same reason.
   */
  lemma {:induction false} DotRunIsMaximal(s: string, n: nat)
    requires n <= |s| && NoLineTerminator(s[..n])
    ensures n <= DotRun(s)
  {
    if n > 0 {
      assert s[..n][0] == s[0];
      assert s[1..][..n - 1] == s[..n][1..];
      DotRunIsMaximal(s[1..], n - 1);
    }
  }

  /**
   * Everything after a group 1 of length k, in the engine's order: group 2
   * with '(', then group 2 without it, then group 2 skipped.
   */
  function MatchAfterType(s: string, k: nat): (r: Option<Parse>)
    requires k <= |s|
    ensures r.Some? ==> r.value.typeLength == k && RestFits(s, r.value)
    ensures forall p: Parse :: p.typeLength == k && RestFits(s, p) ==>
              r.Some? && (p == r.value || TriedBefore(r.value, p))
  {
    var open := if k < |s| && s[k] == '(' then BackOffScope(s, k, true, Min(MaxScopeLength, DotRun(s[k + 1..]))) else None;
    var plain := BackOffScope(s, k, false, Min(MaxScopeLength, DotRun(s[k..])));
    var skipped := MatchTail(s, k);
    ScopeChoicesBounded(s, k);
    if open.Some? then open
    else if plain.Some? then plain
    else if skipped.Some? then Some(Parse(k, Skipped, skipped.value))
    else None
  }

  /** Every group-2 choice that can match lies in the range the engine searches. */
  lemma ScopeChoicesBounded(s: string, k: nat)
    requires k <= |s|
    ensures forall p: Parse :: p.typeLength == k && p.scope.Taken? && p.scope.openParen && RestFits(s, p) ==>
              k < |s| && s[k] == '(' && p.scope.length <= Min(MaxScopeLength, DotRun(s[k + 1..]))
    ensures forall p: Parse :: p.typeLength == k && p.scope.Taken? && !p.scope.openParen && RestFits(s, p) ==>
              p.scope.length <= Min(MaxScopeLength, DotRun(s[k..]))
  {
    forall p: Parse | p.typeLength == k && p.scope.Taken? && RestFits(s, p)
      ensures p.scope.openParen ==> k < |s| && s[k] == '(' && p.scope.length <= Min(MaxScopeLength, DotRun(s[k + 1..]))
      ensures !p.scope.openParen ==> p.scope.length <= Min(MaxScopeLength, DotRun(s[k..]))
    {
      var q := ScopeStart(k, p.scope);
      assert s[q..][..p.scope.length] == s[q..q + p.scope.length];
      DotRunIsMaximal(s[q..], p.scope.length);
    }
  }

  /**
   * `\w{0,15}` giving back one character at a time from k: the first way of
   * matching whose group 1 is at most k long.
   */
  function BackOffType(s: string, k: nat): (r: Option<Parse>)
    requires TypeFits(s, k)
    ensures r.Some? ==> r.value.typeLength <= k && IsParse(s, r.value)
    ensures forall p: Parse :: p.typeLength <= k && IsParse(s, p) ==>
              r.Some? && (p == r.value || TriedBefore(r.value, p))
    decreases k
  {
    var m := MatchAfterType(s, k);
    if m.Some? then m
    else if k == 0 then None
    else
      assert s[..k - 1] == s[..k][..k - 1];
      BackOffType(s, k - 1)
  }

  /** A group 1 that can match is no longer than the greedy start of `\w{0,15}`. */
  lemma TypeLengthBounded(s: string)
    ensures TypeFits(s, Min(MaxTypeLength, WordRun(s)))
    ensures forall p: Parse :: IsParse(s, p) ==> p.typeLength <= Min(MaxTypeLength, WordRun(s))
  {
    var w := WordRun(s);
    var m := Min(MaxTypeLength, w);
    assert s[..m] == s[..w][..m];
    forall p: Parse | IsParse(s, p) ensures p.typeLength <= m {
      WordRunIsMaximal(s, p.typeLength);
    }
  }

  /**
   * The engine: the first way for the pattern to match the whole of s, in the
   * order the backtracking engine tries them, or None when there is none.
   */
  function FirstParse(s: string): (r: Option<Parse>)
    ensures r.Some? ==> IsParse(s, r.value)
    ensures forall p: Parse :: IsParse(s, p) ==> r.Some? && (p == r.value || TriedBefore(r.value, p))
  {
    TypeLengthBounded(s);
    BackOffType(s, Min(MaxTypeLength, WordRun(s)))
  }

  /** A parse that no other parse precedes is the one the engine returns. */
  lemma FirstParseIs(s: string, p: Parse)
    requires IsParse(s, p)
    requires forall q: Parse :: IsParse(s, q) ==> !TriedBefore(q, p)
    ensures FirstParse(s) == Some(p)
  {
  }

  // ---------------------------------------------------------------------------
  // Capture groups

  /**
   * `groupValues[1..5]` of a match; a group that took no part in it (groups 2
   * and 3 when group 2 is skipped) is the empty string.
   */
  datatype Groups = Groups(commitType: string, scopeGroup: string, scope: string, bang: string, description: string)

  function GroupsOf(s: string, p: Parse): Groups
    requires IsParse(s, p)
  {
    var k := p.typeLength;
    var e := ScopeEnd(k, p.scope);
    var c := ColonAt(p);
    var q := ScopeStart(k, p.scope);
    Groups(s[..k], s[k..e], if p.scope.Taken? then s[q..q + p.scope.length] else "", s[e..c], s[c + 1..])
  }

  /** p is the way of matching s that the engine tries first: it matches, and every other match comes later. */
  ghost predicate IsFirstParse(s: string, p: Parse) {
    IsParse(s, p) && forall q: Parse :: IsParse(s, q) ==> q == p || TriedBefore(p, q)
  }

  /**
   * `Regex(REGEX_COMMIT_MESSAGE).matchEntire(message)`: the capture groups of
   * the engine's first parse, or None. Stated without the engine: None
   * exactly when the pattern cannot match the whole message, and otherwise
   * the groups of the way of matching that java.util.regex tries first.
   */
  function MatchEntire(s: string): (r: Option<Groups>)
    ensures r.None? <==> forall p: Parse :: !IsParse(s, p)
    ensures r.Some? ==> exists p: Parse :: IsFirstParse(s, p) && r.value == GroupsOf(s, p)
    ensures forall p: Parse :: IsFirstParse(s, p) ==> r == Some(GroupsOf(s, p))
  {
    FirstParseIsFirst(s);
    match FirstParse(s)
    case None => None
    case Some(p) => Some(GroupsOf(s, p))
  }

  /** The engine's parse is the first one, and the only first one. */
  lemma FirstParseIsFirst(s: string)
    ensures FirstParse(s).Some? ==> IsFirstParse(s, FirstParse(s).value)
    ensures forall p: Parse :: IsFirstParse(s, p) ==> FirstParse(s) == Some(p)
  {
    forall p: Parse | IsFirstParse(s, p) ensures FirstParse(s) == Some(p) {
      var r := FirstParse(s).value;
      assert p == r || TriedBefore(r, p);
      assert r == p || TriedBefore(p, r);
    }
  }

  /**
   * The shape of a match: the groups put the message back together around the
   * ':', the type is at most 15 word characters, the scope at most 40
   * characters without a line terminator, group 4 is "" or "!", and the
   * description is accepted by `.\S.*`.
   */
  lemma MatchStructure(s: string)
    ensures MatchEntire(s).Some? ==>
      var g := MatchEntire(s).value;
      && s == g.commitType + g.scopeGroup + g.bang + ":" + g.description
      && |g.commitType| <= MaxTypeLength && AllWordChars(g.commitType)
      && |g.scope| <= MaxScopeLength && NoLineTerminator(g.scope)
      && g.scopeGroup in {"", "(" + g.scope + ")", g.scope + ")"}
      && g.bang in {"", "!"}
      && DescriptionFits(g.description)
  {
    if FirstParse(s).Some? {
      GroupsStructure(s, FirstParse(s).value);
    }
  }

  /** The engine's first parse gives the groups MatchEntire reports. */
  lemma MatchEntireOfFirst(s: string, p: Parse)
    requires FirstParse(s) == Some(p)
    ensures IsParse(s, p) && MatchEntire(s) == Some(GroupsOf(s, p))
  {
  }

  /** The capture groups of a parse put the message back together and have the pattern's shapes. */
  lemma GroupsStructure(s: string, p: Parse)
    requires IsParse(s, p)
    ensures var g := GroupsOf(s, p);
      && s == g.commitType + g.scopeGroup + g.bang + ":" + g.description
      && |g.commitType| <= MaxTypeLength && AllWordChars(g.commitType)
      && |g.scope| <= MaxScopeLength && NoLineTerminator(g.scope)
      && g.scopeGroup in {"", "(" + g.scope + ")", g.scope + ")"}
      && g.bang in {"", "!"}
      && DescriptionFits(g.description)
  {
    var g := GroupsOf(s, p);
    var k := p.typeLength;
    SplitAtColon(s, k, ScopeEnd(k, p.scope), ColonAt(p));
    BangGroupShape(s, p);
    ScopeGroupShape(s, p);
    if p.scope.Taken? {
      if p.scope.openParen {
        assert g.scopeGroup == "(" + g.scope + ")";
      } else {
        assert g.scopeGroup == g.scope + ")";
      }
    }
  }

  /** A message cut at k, e and a ':' at c is the concatenation of its pieces. */
  lemma SplitAtColon(s: string, k: nat, e: nat, c: nat)
    requires k <= e <= c < |s| && s[c] == ':'
    ensures s == s[..k] + s[k..e] + s[e..c] + ":" + s[c + 1..]
  {
    assert s[..e] == s[..k] + s[k..e];
    assert s[..c] == s[..e] + s[e..c];
    assert s[..c + 1] == s[..c] + [s[c]];
    assert s == s[..c + 1] + s[c + 1..];
  }

  lemma BangGroupShape(s: string, p: Parse)
    requires IsParse(s, p)
    ensures GroupsOf(s, p).bang == (if p.bang then "!" else "")
  {
    var e := ScopeEnd(p.typeLength, p.scope);
    if p.bang {
      assert s[e..ColonAt(p)] == [s[e]];
    }
  }

  lemma ScopeGroupShape(s: string, p: Parse)
    requires IsParse(s, p)
    ensures var g := GroupsOf(s, p);
      match p.scope
      case Skipped => g.scopeGroup == "" && g.scope == ""
      case Taken(open, n) =>
        |g.scope| == n && NoLineTerminator(g.scope) &&
        g.scopeGroup == (if open then "(" else "") + g.scope + ")"
  {
    var k := p.typeLength;
    match p.scope
    case Skipped =>
    case Taken(open, n) =>
      var q := ScopeStart(k, p.scope);
      var e := ScopeEnd(k, p.scope);
      assert s[k..e] == s[k..q] + s[q..q + n] + [s[q + n]];
      if open {
        assert s[k..q] == [s[k]];
      }
  }

  // ---------------------------------------------------------------------------
  // What a match says about the message

  /** No character of a message a parse covers is a line feed or a carriage return. */
  lemma ParseHasNoLineBreak(s: string, p: Parse)
    requires IsParse(s, p)
    ensures forall i :: 0 <= i < |s| ==> s[i] != '\n' && s[i] != '\r'
  {
    var k := p.typeLength;
    var q := ScopeStart(k, p.scope);
    var c := ColonAt(p);
    var d := s[c + 1..];
    RegionHasNoLineBreak(s, 0, k);
    if p.scope.Taken? {
      RegionHasNoLineBreak(s, q, q + p.scope.length);
    }
    assert s[c + 3..] == d[2..];
    RegionHasNoLineBreak(s, c + 3, |s|);
    assert s[c + 1] == d[0] && s[c + 2] == d[1];
  }

  /** A stretch of word characters, or of characters `.` accepts, has no line feed and no carriage return. */
  lemma RegionHasNoLineBreak(s: string, a: nat, b: nat)
    requires a <= b <= |s| && (AllWordChars(s[a..b]) || NoLineTerminator(s[a..b]))
    ensures forall i :: a <= i < b ==> s[i] != '\n' && s[i] != '\r'
  {
    forall i | a <= i < b ensures s[i] != '\n' && s[i] != '\r' {
      assert s[a..b][i - a] == s[i];
    }
  }

  /** A message that matches has no line feed and no carriage return: neither `.` nor `\S` accepts them. */
  lemma MatchHasNoLineBreak(s: string)
    ensures MatchEntire(s).Some? ==> '\n' !in s && '\r' !in s
  {
    var r := FirstParse(s);
    if r.Some? {
      ParseHasNoLineBreak(s, r.value);
    }
  }

  // ---------------------------------------------------------------------------
  // Headers written the conventional way read back as written

  /** A conventional-commit header `type(scope)!:description`, scope and '!' optional. */
  datatype Header = Header(commitType: string, scope: Option<string>, breaking: bool, description: string)

  function ScopeText(scope: Option<string>): string {
    match scope
    case None => ""
    case Some(x) => "(" + x + ")"
  }

  function Render(h: Header): string {
    h.commitType + ScopeText(h.scope) + (if h.breaking then "!" else "") + ":" + h.description
  }

  /**
   * The headers the pattern reads back part for part: a type of at most 15
   * word characters, a scope of at most 40 characters on one line, a
   * description the pattern accepts, and no ')' in the description (a later
   * ')' would be taken as the end of the scope).
   */
  predicate Conventional(h: Header) {
    && |h.commitType| <= MaxTypeLength && AllWordChars(h.commitType)
    && (h.scope.Some? ==> |h.scope.value| <= MaxScopeLength && NoLineTerminator(h.scope.value))
    && DescriptionFits(h.description)
    && ')' !in h.description
  }

  /** The capture groups a header is expected to produce. */
  function HeaderGroups(h: Header): Groups {
    Groups(h.commitType, ScopeText(h.scope), if h.scope.Some? then h.scope.value else "",
           if h.breaking then "!" else "", h.description)
  }

  /** The parse that reads a header back: group 1 is the type, group 2 is taken with '(' exactly when there is a scope. */
  function HeaderParse(h: Header): Parse {
    Parse(|h.commitType|, if h.scope.Some? then Taken(true, |h.scope.value|) else Skipped, h.breaking)
  }

  /** Where the parts of a header stand in its rendering, under HeaderParse. */
  lemma RenderLayout(h: Header)
    ensures var s := Render(h);
      var p := HeaderParse(h);
      var k := p.typeLength;
      var e := ScopeEnd(k, p.scope);
      var c := ColonAt(p);
      && c < |s|
      && s[..k] == h.commitType
      && s[k..e] == ScopeText(h.scope)
      && s[e..c] == (if h.breaking then "!" else "")
      && s[c] == ':'
      && s[c + 1..] == h.description
  {
    var s := Render(h);
    var p := HeaderParse(h);
    var k := p.typeLength;
    var e := ScopeEnd(k, p.scope);
    var c := ColonAt(p);
    var scopeText := ScopeText(h.scope);
    var bangText := if h.breaking then "!" else "";
    assert |scopeText| == e - k;
    assert s == h.commitType + scopeText + bangText + ":" + h.description;
    assert s[..k] == h.commitType;
    assert s[k..e] == scopeText;
    assert s[e..c] == bangText;
    assert s[c + 1..] == h.description;
  }

  lemma HeaderIsParse(h: Header)
    requires Conventional(h)
    ensures IsParse(Render(h), HeaderParse(h))
  {
    var s := Render(h);
    var p := HeaderParse(h);
    var e := ScopeEnd(p.typeLength, p.scope);
    RenderLayout(h);
    if h.scope.Some? {
      RenderedScope(h);
    }
    if h.breaking {
      assert s[e] == s[e..e + 1][0];
    }
  }

  /**
   * No parse that the engine tries before p matches s, when group 1 of p
   * cannot grow, p passes over no '(' it could have taken, no ')' follows
   * group 2 of p, and p takes the '!' whenever there is one.
   */
  lemma NoParseBefore(s: string, p: Parse, q: Parse)
    requires IsParse(s, q)
    requires p.typeLength < |s| && !IsWordChar(s[p.typeLength])
    requires p.scope.Taken? && !p.scope.openParen ==> s[p.typeLength] != '('
    requires forall i :: ScopeEnd(p.typeLength, p.scope) <= i < |s| ==> s[i] != ')'
    requires ScopeEnd(p.typeLength, p.scope) < |s| && s[ScopeEnd(p.typeLength, p.scope)] == '!' ==> p.bang
    ensures !TriedBefore(q, p)
  {
    WordRunIsMaximal(s, q.typeLength);
  }

  /** What NoParseBefore needs to know about a rendered header. */
  lemma HeaderBoundaries(h: Header)
    requires Conventional(h)
    ensures var s := Render(h);
      var p := HeaderParse(h);
      var e := ScopeEnd(p.typeLength, p.scope);
      && p.typeLength < |s| && !IsWordChar(s[p.typeLength])
      && (e < |s| && s[e] == '!' ==> p.bang)
      && forall i :: e <= i < |s| ==> s[i] != ')'
  {
    var s := Render(h);
    var p := HeaderParse(h);
    var k := p.typeLength;
    var e := ScopeEnd(k, p.scope);
    var c := ColonAt(p);
    RenderLayout(h);
    assert !IsWordChar(s[k]) by {
      if h.scope.Some? {
        assert s[k] == s[k..e][0];
      } else if h.breaking {
        assert s[k] == s[e..c][0];
      } else {
        assert k == c;
      }
    }
    assert s[e] == '!' ==> h.breaking by {
      if !h.breaking { assert e == c; }
    }
    assert forall i :: c + 1 <= i < |s| ==> s[i] == h.description[i - c - 1];
    assert forall i :: e <= i < c ==> s[i] == s[e..c][i - e];
  }

  /** Nothing the engine tries before HeaderParse matches a rendered header. */
  lemma NoParseBeforeHeader(h: Header)
    requires Conventional(h)
    ensures forall q: Parse :: IsParse(Render(h), q) ==> !TriedBefore(q, HeaderParse(h))
  {
    var s := Render(h);
    var p := HeaderParse(h);
    HeaderBoundaries(h);
    forall q: Parse | IsParse(s, q) ensures !TriedBefore(q, p) {
      NoParseBefore(s, p, q);
    }
  }

  /** Under HeaderParse, the capture groups of a rendered header are its parts. */
  lemma HeaderGroupsRead(h: Header)
    requires Conventional(h)
    ensures IsParse(Render(h), HeaderParse(h))
    ensures GroupsOf(Render(h), HeaderParse(h)) == HeaderGroups(h)
  {
    RenderLayout(h);
    if h.scope.Some? {
      RenderedScope(h);
    }
    HeaderIsParse(h);
  }

  /** Group 3 of a rendered header with a scope sits between its parentheses. */
  lemma RenderedScope(h: Header)
    requires h.scope.Some?
    ensures var s := Render(h);
      var p := HeaderParse(h);
      var k := p.typeLength;
      var q := ScopeStart(k, p.scope);
      var n := |h.scope.value|;
      && q + n < |s|
      && s[k] == '('
      && s[q..q + n] == h.scope.value
      && s[q + n] == ')'
  {
    var s := Render(h);
    var p := HeaderParse(h);
    var k := p.typeLength;
    var e := ScopeEnd(k, p.scope);
    var x := h.scope.value;
    RenderLayout(h);
    assert s[k..e] == "(" + x + ")";
    assert s[k] == s[k..e][0];
    assert s[k + 1..e - 1] == s[k..e][1..|x| + 1];
    assert s[e - 1] == s[k..e][|x| + 1];
  }

  /**
   * A conventional header reads back as written: matched against the pattern,
   * its rendering gives back its type, scope, '!' and description.
   */
  lemma RenderedHeaderMatches(h: Header)
    requires Conventional(h)
    ensures MatchEntire(Render(h)) == Some(HeaderGroups(h))
  {
    var s := Render(h);
    var p := HeaderParse(h);
    assert FirstParse(s) == Some(p) by {
      HeaderIsParse(h);
      NoParseBeforeHeader(h);
      FirstParseIs(s, p);
    }
    HeaderGroupsRead(h);
  }

  // ---------------------------------------------------------------------------
  // How the greedy scope reads headers with a ')' after the scope

  const GreedyScopeExample := "fix(a)!: b): c"
  const GreedyScopeParse := Parse(3, Taken(true, 6), false)

  lemma GreedyScopeExampleParses()
    ensures IsParse(GreedyScopeExample, GreedyScopeParse)
  {
  }

  lemma GreedyScopeExampleFirst()
    ensures FirstParse(GreedyScopeExample) == Some(GreedyScopeParse)
  {
    var s, p := GreedyScopeExample, GreedyScopeParse;
    GreedyScopeExampleParses();
    assert forall i :: 11 <= i < |s| ==> s[i] != ')';
    forall q: Parse | IsParse(s, q) ensures !TriedBefore(q, p) {
      NoParseBefore(s, p, q);
    }
    FirstParseIs(s, p);
  }

  lemma GreedyScopeExampleGroups()
    ensures IsParse(GreedyScopeExample, GreedyScopeParse)
    ensures GroupsOf(GreedyScopeExample, GreedyScopeParse) == Groups("fix", "(a)!: b)", "a)!: b", "", " c")
  {
    GreedyScopeExampleParses();
  }

  /** `.{0,40}` is greedy: the scope runs to the last ')' that still lets the rest match, swallowing the '!'. */
  lemma ScopeRunsToLastParen()
    ensures MatchEntire(GreedyScopeExample) == Some(Groups("fix", "(a)!: b)", "a)!: b", "", " c"))
  {
    GreedyScopeExampleFirst();
    MatchEntireOfFirst(GreedyScopeExample, GreedyScopeParse);
    GreedyScopeExampleGroups();
  }

  const LateParenExample := "fix: a)!: b"
  const LateParenParse := Parse(3, Taken(false, 3), true)

  lemma LateParenExampleParses()
    ensures IsParse(LateParenExample, LateParenParse)
  {
  }

  lemma LateParenExampleFirst()
    ensures FirstParse(LateParenExample) == Some(LateParenParse)
  {
    var s, p := LateParenExample, LateParenParse;
    LateParenExampleParses();
    assert forall i :: 7 <= i < |s| ==> s[i] != ')';
    forall q: Parse | IsParse(s, q) ensures !TriedBefore(q, p) {
      NoParseBefore(s, p, q);
    }
    FirstParseIs(s, p);
  }

  lemma LateParenExampleGroups()
    ensures IsParse(LateParenExample, LateParenParse)
    ensures GroupsOf(LateParenExample, LateParenParse) == Groups("fix", ": a)", ": a", "!", " b")
  {
    LateParenExampleParses();
  }

  /** Without '(', group 2 still closes at a ')', so a '!' before a later ':' counts as group 4. */
  lemma ParenInDescriptionMakesBang()
    ensures MatchEntire(LateParenExample) == Some(Groups("fix", ": a)", ": a", "!", " b"))
  {
    LateParenExampleFirst();
    MatchEntireOfFirst(LateParenExample, LateParenParse);
    LateParenExampleGroups();
  }
}
