/** The image directive the model is told to emit, and the scanner the relay
    runs over the finished reply: the first match of the regular expression
    `/\[\[GENERATE_IMAGE:\s*(.*?)]\]/` (chat/routes.ts, line 145).

    Read as ECMAScript regular-expression semantics, a match at index `i` is
    the literal marker `[[GENERATE_IMAGE:`, then the longest run of
    white-space characters (line terminators included), then the shortest
    capture of characters other than line terminators that is followed by
    `]]`. The leftmost index with a match wins; an index whose marker is not
    closed on its line does not stop the search for a later marker. */
module Directive {
  import opened Wrappers
  import opened Text

  const Marker := "[[GENERATE_IMAGE:"

  /** The characters `.` does not match. */
  predicate IsLineTerminator(c: char) {
    c == '\n' || c == '\r' || c == '\U{2028}' || c == '\U{2029}'
  }

  /** The characters `\s` matches: white space and line terminators. */
  predicate IsSpace(c: char) {
    || c == '\t' || c == '\U{000B}' || c == '\U{000C}' || c == ' '
    || c == '\U{00A0}' || c == '\U{1680}' || ('\U{2000}' <= c <= '\U{200A}')
    || c == '\U{202F}' || c == '\U{205F}' || c == '\U{3000}' || c == '\U{FEFF}'
    || IsLineTerminator(c)
  }

  predicate MarkerAt(s: string, i: int) {
    OccursAt(s, Marker, i)
  }

  /** `]]` starts at index `k`. */
  predicate ClosesAt(s: string, k: int) {
    0 <= k && k + 1 < |s| && s[k] == ']' && s[k + 1] == ']'
  }

  /** `s[a..b]` is the longest run of white space starting at `a`. */
  predicate SpaceRun(s: string, a: int, b: int) {
    && 0 <= a <= b <= |s|
    && (forall m :: a <= m < b ==> IsSpace(s[m]))
    && (b == |s| || !IsSpace(s[b]))
  }

  /** `.*?` can consume `s[j..k]` without having met `]]` on the way. */
  predicate Clean(s: string, j: int, k: int) {
    && 0 <= j <= k <= |s|
    && (forall m :: j <= m < k ==> !IsLineTerminator(s[m]) && !ClosesAt(s, m))
  }

  /** The lazy capture starting at `j` is `p`. */
  predicate CaptureAt(s: string, j: int, p: string) {
    && 0 <= j && j + |p| <= |s|
    && s[j..j + |p|] == p
    && Clean(s, j, j + |p|)
    && ClosesAt(s, j + |p|)
  }

  /** The regular expression matches at index `i` with capture `p`. */
  ghost predicate DirectiveAt(s: string, i: int, p: string) {
    && MarkerAt(s, i)
    && exists j :: SpaceRun(s, i + |Marker|, j) && CaptureAt(s, j, p)
  }

  datatype Match = Match(start: nat, prompt: string)

  // ---------------------------------------------------------------------------
  // The scanner
  // ---------------------------------------------------------------------------

  /** Greedy `\s*` from index `k`. */
  function SkipSpace(s: string, k: nat): (j: nat)
    requires k <= |s|
    ensures SpaceRun(s, k, j)
    decreases |s| - k
  {
    if k < |s| && IsSpace(s[k]) then SkipSpace(s, k + 1) else k
  }

  /** Lazy `(.*?)]]` from `j`, having consumed `s[j..k]` already: the index
      of the closing `]]`, or `None` when a line terminator or the end of
      the text comes first. */
  function CloseFrom(s: string, j: nat, k: nat): (r: Option<nat>)
    requires Clean(s, j, k)
    ensures r.Some? ==> Clean(s, j, r.value) && ClosesAt(s, r.value)
    ensures r.None? ==> forall e :: k <= e <= |s| && Clean(s, j, e) ==> !ClosesAt(s, e)
    decreases |s| - k
  {
    if ClosesAt(s, k) then Some(k)
    else if k == |s| || IsLineTerminator(s[k]) then None
    else CloseFrom(s, j, k + 1)
  }

  /** The capture when the regular expression is tried at a marker. */
  function MatchAt(s: string, i: nat): Option<string>
    requires MarkerAt(s, i)
  {
    var j := SkipSpace(s, i + |Marker|);
    match CloseFrom(s, j, j)
    case Some(e) => Some(s[j..e])
    case None => None
  }

  lemma SpaceRunUnique(s: string, a: int, b1: int, b2: int)
    requires SpaceRun(s, a, b1) && SpaceRun(s, a, b2)
    ensures b1 == b2
  {
  }

  lemma CloseUnique(s: string, j: int, e1: int, e2: int)
    requires Clean(s, j, e1) && ClosesAt(s, e1)
    requires Clean(s, j, e2) && ClosesAt(s, e2)
    ensures e1 == e2
  {
  }

  /** Trying the expression at a marker succeeds exactly when it matches
      there, with the same capture. */
  lemma MatchAtSound(s: string, i: nat)
    requires MarkerAt(s, i)
    ensures forall p :: MatchAt(s, i) == Some(p) <==> DirectiveAt(s, i, p)
  {
    var j := SkipSpace(s, i + |Marker|);
    forall p
      ensures MatchAt(s, i) == Some(p) <==> DirectiveAt(s, i, p)
    {
      if MatchAt(s, i) == Some(p) {
        var e := CloseFrom(s, j, j).value;
        assert CaptureAt(s, j, p);
      }
      if DirectiveAt(s, i, p) {
        var j' :| SpaceRun(s, i + |Marker|, j') && CaptureAt(s, j', p);
        SpaceRunUnique(s, i + |Marker|, j, j');
        match CloseFrom(s, j, j)
        case Some(e) =>
          CloseUnique(s, j, e, j + |p|);
        case None =>
      }
    }
  }

  /** The leftmost match at or after index `i`. */
  function FindFrom(s: string, i: nat): (r: Option<Match>)
    requires i <= |s|
    ensures r.Some? ==> i <= r.value.start && DirectiveAt(s, r.value.start, r.value.prompt)
    ensures r.Some? ==> forall i', p :: i <= i' < r.value.start ==> !DirectiveAt(s, i', p)
    ensures r.None? ==> forall i', p :: i <= i' ==> !DirectiveAt(s, i', p)
    decreases |s| - i
  {
    if i + |Marker| > |s| then None
    else if MarkerAt(s, i) && MatchAt(s, i).Some? then
      MatchAtSound(s, i);
      Some(Match(i, MatchAt(s, i).value))
    else
      var r := FindFrom(s, i + 1);
      assert forall p :: !DirectiveAt(s, i, p) by {
        if MarkerAt(s, i) { MatchAtSound(s, i); }
      }
      r
  }

  /** `fullResponse.match(...)`: the first match in the text. */
  function FindDirective(s: string): Option<Match> {
    FindFrom(s, 0)
  }

  /** The prompt sent to the image model: the capture of the first match,
      when there is a match and its capture is not empty
      (`imageTrigger && imageTrigger[1]`). */
  function ImagePrompt(s: string): (r: Option<string>)
    ensures r.Some? <==> FindDirective(s).Some? && FindDirective(s).value.prompt != ""
    ensures r.Some? ==> r.value == FindDirective(s).value.prompt
  {
    match FindDirective(s)
    case Some(m) => if m.prompt != "" then Some(m.prompt) else None
    case None => None
  }

  // ---------------------------------------------------------------------------
  // Properties
  // ---------------------------------------------------------------------------

  /** At most one capture per index: the match is determined by where it
      starts. */
  lemma DirectiveDeterministic(s: string, i: int, p1: string, p2: string)
    requires DirectiveAt(s, i, p1) && DirectiveAt(s, i, p2)
    ensures p1 == p2
  {
    var j1 :| SpaceRun(s, i + |Marker|, j1) && CaptureAt(s, j1, p1);
    var j2 :| SpaceRun(s, i + |Marker|, j2) && CaptureAt(s, j2, p2);
    SpaceRunUnique(s, i + |Marker|, j1, j2);
    CloseUnique(s, j1, j1 + |p1|, j2 + |p2|);
  }

  /** Backtracking into `\s*` never finds another match: any shorter space
      prefix after which `.*?` reaches a `]]` implies the greedy prefix
      reaches the same `]]`, and the greedy prefix is the one tried first. */
  lemma GreedySpaceSuffices(s: string, i: int, j': int, e: int)
    requires MarkerAt(s, i)
    requires i + |Marker| <= j' <= |s| && (forall m :: i + |Marker| <= m < j' ==> IsSpace(s[m]))
    requires Clean(s, j', e) && ClosesAt(s, e)
    ensures var j := SkipSpace(s, i + |Marker|);
            j <= e && DirectiveAt(s, i, s[j..e])
  {
    var j := SkipSpace(s, i + |Marker|);
    assert CaptureAt(s, j, s[j..e]);
  }

  /** The prompt lies on one line, holds no `]]` and does not start with
      white space; `]]` follows it. */
  lemma PromptShape(s: string)
    requires FindDirective(s).Some?
    ensures var m := FindDirective(s).value;
            && (forall k :: 0 <= k < |m.prompt| ==> !IsLineTerminator(m.prompt[k]))
            && (forall k :: 0 <= k < |m.prompt| - 1 ==> !(m.prompt[k] == ']' && m.prompt[k + 1] == ']'))
            && (|m.prompt| > 0 ==> !IsSpace(m.prompt[0]))
  {
    var m := FindDirective(s).value;
    var j :| SpaceRun(s, m.start + |Marker|, j) && CaptureAt(s, j, m.prompt);
    CaptureShape(s, j, m.prompt);
    CaptureStart(s, m.start + |Marker|, j, m.prompt);
  }

  /** A capture lies on one line and holds no `]]`. */
  lemma CaptureShape(s: string, j: int, p: string)
    requires CaptureAt(s, j, p)
    ensures forall k :: 0 <= k < |p| ==> !IsLineTerminator(p[k])
    ensures forall k :: 0 <= k < |p| - 1 ==> !(p[k] == ']' && p[k + 1] == ']')
  {
    forall k | 0 <= k < |p|
      ensures !IsLineTerminator(p[k])
    {
      assert p[k] == s[j + k];
    }
    forall k | 0 <= k < |p| - 1
      ensures !(p[k] == ']' && p[k + 1] == ']')
    {
      assert p[k] == s[j + k] && p[k + 1] == s[j + k + 1];
      assert !ClosesAt(s, j + k);
    }
  }

  /** A capture after the longest space run does not start with space. */
  lemma CaptureStart(s: string, a: int, j: int, p: string)
    requires SpaceRun(s, a, j) && CaptureAt(s, j, p)
    ensures |p| > 0 ==> !IsSpace(p[0])
  {
    if |p| > 0 {
      assert p[0] == s[j];
    }
  }

  /** A directive that is never closed is no match at all. */
  lemma UnclosedNoMatch(s: string)
    requires forall k :: !ClosesAt(s, k)
    ensures FindDirective(s) == None
  {
  }

  /** A match with an empty capture is still the first match: it hides any
      later directive, and no image is requested. */
  lemma EmptyCaptureSuppresses(s: string, i: int)
    requires DirectiveAt(s, i, "")
    requires forall i', p :: 0 <= i' < i ==> !DirectiveAt(s, i', p)
    ensures ImagePrompt(s) == None
  {
    match FindDirective(s)
    case None =>
    case Some(m) =>
      if m.start < i {
      } else if m.start > i {
      } else {
        DirectiveDeterministic(s, i, m.prompt, "");
      }
  }
}
