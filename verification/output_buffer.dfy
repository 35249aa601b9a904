/**
  The bounded per-session output log: every captured chunk is split into
  lines, blank lines are dropped, the rest are stamped and tagged, and the
  log keeps only the newest `MaxBufferSize` entries.
 */
module OutputBuffer {
  import opened Strings
  import opened OutputFilter

  /** The capacity every session is created with. */
  const MaxBufferSize: nat := 1000

  /** The last `n` elements of `s` (all of them when there are fewer). */
  function Last<T>(s: seq<T>, n: nat): (r: seq<T>)
    ensures |r| == if |s| < n then |s| else n
    ensures r == s[|s| - |r|..]
  {
    if |s| <= n then s else s[|s| - n..]
  }

  /** The stream tag of a buffered line. */
  function StreamTag(isError: bool): string {
    if isError then "[STDERR]" else "[STDOUT]"
  }

  /** The buffered form of one captured line. */
  function FormatLine(timestamp: string, isError: bool, line: string): string {
    timestamp + " " + StreamTag(isError) + " " + line
  }

  /** The lines of a chunk that survive: split on "\n", blank ones dropped, order kept. */
  function CapturedLines(output: string): (r: seq<string>)
    ensures forall i :: 0 <= i < |r| ==> !IsBlank(r[i]) && '\n' !in r[i]
  {
    JoinSplit(output, '\n');
    Select(Split(output, '\n'), NotBlank)
  }

  /** A line worth keeping: one with a non-whitespace character. */
  predicate NotBlank(line: string) {
    !IsBlank(line)
  }

  /**
    A chunk made of lines is captured as exactly its non-blank lines, in
    order: nothing is reordered, merged or dropped besides blank lines.
   */
  lemma CapturedLinesOfJoin(lines: seq<string>)
    requires |lines| >= 1
    requires forall k :: 0 <= k < |lines| ==> '\n' !in lines[k]
    ensures CapturedLines(Join(lines, "\n")) == Select(lines, NotBlank)
  {
    SplitJoin(lines, '\n');
  }

  /** Formats every captured line with one timestamp and one tag. */
  function FormatLines(timestamp: string, isError: bool, lines: seq<string>): (r: seq<string>)
    ensures |r| == |lines|
    ensures forall i :: 0 <= i < |r| ==> r[i] == FormatLine(timestamp, isError, lines[i])
  {
    seq(|lines|, i requires 0 <= i < |lines| => FormatLine(timestamp, isError, lines[i]))
  }

  /**
    One `push` followed by at most one `shift`, as the loop of
    `addToOutputBuffer` does per line: from within capacity, the newest
    `capacity` entries of the buffer and the new one.
   */
  function PushBounded(buffer: seq<string>, entry: string, capacity: nat): (r: seq<string>)
    ensures |buffer| <= capacity ==> r == Last(buffer + [entry], capacity)
    ensures capacity > 0 ==> |r| > 0 && r[|r| - 1] == entry
  {
    var pushed := buffer + [entry];
    if |pushed| > capacity then pushed[1..] else pushed
  }

  /** Pushes the entries one by one, evicting from the front after each push. */
  function PushAll(buffer: seq<string>, entries: seq<string>, capacity: nat): seq<string>
    decreases |entries|
  {
    if |entries| == 0 then buffer
    else PushAll(PushBounded(buffer, entries[0], capacity), entries[1..], capacity)
  }

  /** Push-and-shift keeps exactly the newest `capacity` entries of the whole history. */
  lemma {:induction false} PushAllKeepsNewest(buffer: seq<string>, entries: seq<string>, capacity: nat)
    requires |buffer| <= capacity
    ensures PushAll(buffer, entries, capacity) == Last(buffer + entries, capacity)
    decreases |entries|
  {
    if |entries| > 0 {
      var next := PushBounded(buffer, entries[0], capacity);
      PushAllKeepsNewest(next, entries[1..], capacity);
      PushBoundedThenRest(buffer, entries, capacity);
    }
  }

  /** After one bounded push the buffer is within capacity and the newest entries of the history are unchanged. */
  lemma PushBoundedThenRest(buffer: seq<string>, entries: seq<string>, capacity: nat)
    requires |buffer| <= capacity && |entries| > 0
    ensures |PushBounded(buffer, entries[0], capacity)| <= capacity
    ensures Last(PushBounded(buffer, entries[0], capacity) + entries[1..], capacity) == Last(buffer + entries, capacity)
  {
    var next := PushBounded(buffer, entries[0], capacity);
    var all := buffer + entries;
    assert buffer + [entries[0]] + entries[1..] == all;
    if |buffer| + 1 > capacity {
      assert next + entries[1..] == all[1..];
    } else {
      assert next + entries[1..] == all;
    }
  }

  /**
    `addToOutputBuffer`: the buffer after a chunk is the newest
    `MaxBufferSize` entries of the old buffer followed by the chunk's
    formatted non-blank lines.
   */
  function AddToOutputBuffer(buffer: seq<string>, output: string, isError: bool, timestamp: string): (r: seq<string>)
    ensures |buffer| <= MaxBufferSize ==> |r| <= MaxBufferSize
    ensures |buffer| <= MaxBufferSize ==>
      var added := FormatLines(timestamp, isError, CapturedLines(output));
      r == Last(buffer + added, MaxBufferSize)
  {
    var added := FormatLines(timestamp, isError, CapturedLines(output));
    assert |buffer| <= MaxBufferSize ==> PushAll(buffer, added, MaxBufferSize) == Last(buffer + added, MaxBufferSize) by {
      if |buffer| <= MaxBufferSize {
        PushAllKeepsNewest(buffer, added, MaxBufferSize);
      }
    }
    PushAll(buffer, added, MaxBufferSize)
  }

  /** A chunk of blank lines leaves the buffer as it was. */
  lemma BlankChunkIgnored(buffer: seq<string>, output: string, isError: bool, timestamp: string)
    requires |buffer| <= MaxBufferSize
    requires IsBlank(output)
    ensures AddToOutputBuffer(buffer, output, isError, timestamp) == buffer
  {
    JoinSplit(output, '\n');
    var pieces := Split(output, '\n');
    forall k | 0 <= k < |pieces| ensures IsBlank(pieces[k]) {
      PiecesOfBlankAreBlank(output, k);
    }
    assert CapturedLines(output) == [];
    assert buffer + [] == buffer;
  }

  lemma {:induction false} PiecesOfBlankAreBlank(s: string, k: int)
    requires IsBlank(s)
    requires 0 <= k < |Split(s, '\n')|
    ensures IsBlank(Split(s, '\n')[k])
    decreases |s|
  {
    if |s| > 0 {
      var p := Split(s[..|s| - 1], '\n');
      assert IsBlank(s[..|s| - 1]);
      if k < |p| {
        PiecesOfBlankAreBlank(s[..|s| - 1], k);
      }
      if s[|s| - 1] != '\n' && k == |p| - 1 {
        PiecesOfBlankAreBlank(s[..|s| - 1], k);
      }
    }
  }

  /** Eviction is oldest first: entries leave the front, newly added ones sit at the back. */
  lemma EvictsOldestFirst(buffer: seq<string>, output: string, isError: bool, timestamp: string)
    requires |buffer| <= MaxBufferSize
    ensures var r := AddToOutputBuffer(buffer, output, isError, timestamp);
      var added := FormatLines(timestamp, isError, CapturedLines(output));
      var evicted := |buffer| + |added| - |r|;
      && (|added| <= MaxBufferSize ==> r[|r| - |added|..] == added)
      && (evicted <= |buffer| ==> r[..|buffer| - evicted] == buffer[evicted..])
  {
  }

  /** The result of `getConsoleOutput` on a session's buffer. */
  datatype ConsoleOutput = ConsoleOutput(output: seq<string>, totalLines: nat)

  /**
    Reading the buffer: a positive `lines` keeps the newest `lines` entries
    (`slice(-lines)`), then a non-empty pattern selects lines; the total is
    the whole buffer's length whatever was kept.
   */
  function ReadOutput(buffer: seq<string>, lines: int, pattern: string, compile: string -> Regex): (r: ConsoleOutput)
    ensures r.totalLines == |buffer|
    ensures pattern == "" && lines > 0 ==> r.output == Last(buffer, lines)
    ensures pattern == "" && lines <= 0 ==> r.output == buffer
    ensures pattern != "" && compile(pattern).Invalid? ==>
      |r.output| >= 1 && r.output[..|r.output| - 1] == (if lines > 0 then Last(buffer, lines) else buffer)
      && r.output[|r.output| - 1] == InvalidFilterWarning(pattern)
    ensures pattern != "" && compile(pattern).Valid? ==>
      r.output == Select(if lines > 0 then Last(buffer, lines) else buffer, compile(pattern).test)
    ensures pattern != "" && compile(pattern).Valid? && lines > 0 ==> |r.output| <= lines
  {
    var tail := if lines > 0 then Last(buffer, lines) else buffer;
    var selected := if pattern != "" then SelectLines(tail, pattern, compile) else tail;
    ConsoleOutput(selected, |buffer|)
  }
}
