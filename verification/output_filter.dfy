/**
  The two output-filtering semantics of the console manager: match
  extraction over whole stdout/stderr blobs (used for command results) and
  line selection over the rolling output buffer (used by buffer reads).
  The regular-expression engine is abstract: a pattern compiles either to
  `Invalid` (the `RegExp` constructor throws) or to a matcher that lists
  the matches in a text and tests a single line.
 */
module OutputFilter {
  import opened Strings

  /** A compiled pattern. */
  datatype Regex = Invalid | Valid(matchAll: string -> seq<string>, test: string -> bool)

  /** A pair of output streams. */
  datatype Streams = Streams(stdout: string, stderr: string)

  /** The annotation an invalid pattern leaves behind. */
  function InvalidFilterWarning(pattern: string): string {
    "[Warning: Invalid regex filter: " + pattern + "]"
  }

  /** Keeps the elements that satisfy `p`, in their original order. */
  function Select<T>(s: seq<T>, p: T -> bool): (r: seq<T>)
    ensures |r| <= |s|
    ensures forall i :: 0 <= i < |r| ==> p(r[i]) && r[i] in s
    ensures forall i :: 0 <= i < |s| && p(s[i]) ==> s[i] in r
    ensures (forall i :: 0 <= i < |s| ==> !p(s[i])) ==> r == []
  {
    if |s| == 0 then []
    else
      var init := Select(s[..|s| - 1], p);
      var last := s[|s| - 1];
      if p(last) then init + [last] else init
  }

  /** Selection distributes over concatenation, so relative order is kept. */
  lemma {:induction false} SelectAppend<T>(a: seq<T>, b: seq<T>, p: T -> bool)
    ensures Select(a + b, p) == Select(a, p) + Select(b, p)
    decreases |b|
  {
    if |b| == 0 {
      assert a + b == a;
    } else {
      var b' := b[..|b| - 1];
      assert (a + b)[..|a + b| - 1] == a + b';
      assert (a + b)[|a + b| - 1] == b[|b| - 1];
      SelectAppend(a, b', p);
    }
  }

  /** Selection of one element keeps it exactly when it satisfies `p`; with `SelectAppend` this fixes `Select` on every sequence. */
  lemma SelectOne<T>(x: T, p: T -> bool)
    ensures Select([x], p) == if p(x) then [x] else []
  {
    assert [x][..0] == [];
  }

  /** Nothing is dropped when every element satisfies `p`. */
  lemma {:induction false} SelectAll<T>(s: seq<T>, p: T -> bool)
    requires forall i :: 0 <= i < |s| ==> p(s[i])
    ensures Select(s, p) == s
    decreases |s|
  {
    if |s| > 0 {
      SelectAll(s[..|s| - 1], p);
      assert s[..|s| - 1] + [s[|s| - 1]] == s;
    }
  }

  /**
    Match extraction (`applyOutputFilter`): no pattern trims both streams;
    a valid pattern replaces each stream by its matches joined with
    newlines; an invalid one trims both and appends a warning to stderr.
   */
  function ApplyOutputFilter(stdout: string, stderr: string, pattern: string, compile: string -> Regex): (r: Streams)
    ensures pattern == "" ==> r == Streams(Trim(stdout), Trim(stderr))
    ensures pattern != "" && compile(pattern).Invalid? ==>
      r.stdout == Trim(stdout) && r.stderr == Trim(stderr) + "\n" + InvalidFilterWarning(pattern)
    ensures pattern != "" && compile(pattern).Valid? ==>
      var ms := compile(pattern).matchAll(stdout);
      var es := compile(pattern).matchAll(stderr);
      && r == Streams(Join(ms, "\n"), Join(es, "\n"))
      && (ms == [] ==> r.stdout == "") && (|ms| == 1 ==> r.stdout == ms[0])
      && (es == [] ==> r.stderr == "") && (|es| == 1 ==> r.stderr == es[0])
  {
    if pattern == "" then Streams(Trim(stdout), Trim(stderr))
    else
      match compile(pattern)
      case Invalid => Streams(Trim(stdout), Trim(stderr) + "\n" + InvalidFilterWarning(pattern))
      case Valid(matchAll, _) => Streams(Join(matchAll(stdout), "\n"), Join(matchAll(stderr), "\n"))
  }

  /**
    With a valid pattern, a stream with at least one match, none of which
    spans a line break, is exactly its list of matches: splitting the
    filtered stream on newlines recovers them, for stdout and stderr alike.
   */
  lemma ExtractedMatchesRecoverable(stdout: string, stderr: string, pattern: string, compile: string -> Regex)
    requires pattern != "" && compile(pattern).Valid?
    ensures var ms := compile(pattern).matchAll(stdout);
      |ms| >= 1 && (forall k :: 0 <= k < |ms| ==> '\n' !in ms[k]) ==>
        Split(ApplyOutputFilter(stdout, stderr, pattern, compile).stdout, '\n') == ms
    ensures var es := compile(pattern).matchAll(stderr);
      |es| >= 1 && (forall k :: 0 <= k < |es| ==> '\n' !in es[k]) ==>
        Split(ApplyOutputFilter(stdout, stderr, pattern, compile).stderr, '\n') == es
  {
    var ms := compile(pattern).matchAll(stdout);
    var es := compile(pattern).matchAll(stderr);
    if |ms| >= 1 && (forall k :: 0 <= k < |ms| ==> '\n' !in ms[k]) {
      SplitJoin(ms, '\n');
    }
    if |es| >= 1 && (forall k :: 0 <= k < |es| ==> '\n' !in es[k]) {
      SplitJoin(es, '\n');
    }
  }

  /**
    Line selection (the filter step of `getConsoleOutput`): a valid pattern
    keeps the lines it tests true on; an invalid one keeps every line and
    appends one warning line.
   */
  function SelectLines(lines: seq<string>, pattern: string, compile: string -> Regex): (r: seq<string>)
    requires pattern != ""
    ensures compile(pattern).Invalid? ==> r == lines + [InvalidFilterWarning(pattern)]
    ensures compile(pattern).Valid? ==> r == Select(lines, compile(pattern).test)
    ensures compile(pattern).Valid? ==>
      (forall i :: 0 <= i < |r| ==> r[i] in lines && compile(pattern).test(r[i]))
      && (forall i :: 0 <= i < |lines| && compile(pattern).test(lines[i]) ==> lines[i] in r)
  {
    match compile(pattern)
    case Invalid => lines + [InvalidFilterWarning(pattern)]
    case Valid(_, test) => Select(lines, test)
  }
}
