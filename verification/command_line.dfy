/**
  `parseCommandLineArgs`: a character-level tokenizer with three pieces
  of state (the token being built, whether a quote is open, and which
  quote character opened it). Outside quotes a space ends the token;
  quote characters toggle quoting and are dropped; a closing quote
  preceded by a backslash is kept together with the backslash. Tokens are
  trimmed and blank ones are never emitted.
 */
module CommandLine {
  import opened Results
  import opened Strings

  predicate IsQuote(c: char) {
    c == '"' || c == '\''
  }

  /** The tokenizer state: tokens emitted so far, the token being built, and the open quote if any. */
  datatype Lexer = Lexer(args: seq<string>, current: string, quote: Option<char>)

  const Start: Lexer := Lexer([], "", None)

  /** The token a non-blank `current` contributes, trimmed; nothing for a blank one. */
  function Emit(current: string): (r: seq<string>)
    ensures |r| <= 1
    ensures r != [] <==> !IsBlank(current)
  {
    TrimEmptyIffBlank(current);
    if Trim(current) != "" then [Trim(current)] else []
  }

  /** Ends the current token: emits it when not blank and only then starts a new one. */
  function Flush(lx: Lexer): Lexer {
    if Trim(lx.current) != "" then lx.(args := lx.args + [Trim(lx.current)], current := "") else lx
  }

  lemma FlushEmits(lx: Lexer)
    ensures Flush(lx).args == lx.args + Emit(lx.current)
  {
  }

  /**
    Processes `command[i]`; the escape test looks at the raw character
    before it. A quote character opens quoting when none is open and
    closes it when it matches the open one and is not escaped; a character
    that toggles quoting is dropped. Outside quotes a space ends the token.
    Every other character is appended.
   */
  function Step(lx: Lexer, command: string, i: nat): (r: Lexer)
    requires i < |command|
    ensures lx.quote.None? ==> r.quote == if IsQuote(command[i]) then Some(command[i]) else None
    ensures lx.quote.Some? ==>
      (r.quote.None? <==> lx.quote == Some(command[i]) && !(i > 0 && command[i - 1] == '\\'))
      && (r.quote.Some? ==> r.quote == lx.quote)
    ensures r.quote != lx.quote ==> r.current == lx.current && r.args == lx.args
    ensures lx.quote.None? && command[i] == ' ' ==> r.args == lx.args + Emit(lx.current) && r.quote.None?
    ensures r.quote == lx.quote && !(lx.quote.None? && command[i] == ' ') ==>
      r.args == lx.args && r.current == lx.current + [command[i]]
  {
    FlushEmits(lx);
    var c := command[i];
    if lx.quote.None? && IsQuote(c) then lx.(quote := Some(c))
    else if lx.quote == Some(c) then
      if i > 0 && command[i - 1] == '\\' then lx.(current := lx.current + [c])
      else lx.(quote := None)
    else if lx.quote.None? && c == ' ' then Flush(lx)
    else lx.(current := lx.current + [c])
  }

  /** Inside an open quote, a character that does not close it is appended as is. */
  lemma StepInsideQuote(lx: Lexer, command: string, i: nat, q: char)
    requires i < |command| && lx.quote == Some(q) && NotClosing(command, i, q)
    ensures Step(lx, command, i) == lx.(current := lx.current + [command[i]])
  {
  }

  /** Outside quotes, a character that is no quote either ends the token (a space) or is appended. */
  lemma StepOutsideQuote(lx: Lexer, command: string, i: nat)
    requires i < |command| && lx.quote.None? && !IsQuote(command[i])
    ensures Step(lx, command, i) == if command[i] == ' ' then Flush(lx) else lx.(current := lx.current + [command[i]])
  {
  }

  /** The state after the first `n` characters. */
  function Scan(command: string, n: nat): Lexer
    requires n <= |command|
    decreases n, 1
  {
    if n == 0 then Start else ScanStep(command, n)
  }

  /** One more character after `n - 1` of them (kept apart so that each unfolding of `Scan` is a single step). */
  function ScanStep(command: string, n: nat): Lexer
    requires 0 < n <= |command|
    decreases n, 0
  {
    Step(Scan(command, n - 1), command, n - 1)
  }

  /** `parseCommandLineArgs`: scan everything, then emit what is left. Every token returned is non-empty and trimmed. */
  function ParseCommandLineArgs(command: string): (r: seq<string>)
    ensures forall k :: 0 <= k < |r| ==> IsToken(r[k])
  {
    ScanEmitsTokens(command, |command|);
    FlushEmitsTokens(Scan(command, |command|));
    Flush(Scan(command, |command|)).args
  }

  /** A token the tokenizer can emit: non-empty and already trimmed. */
  predicate IsToken(t: string) {
    t != "" && Trim(t) == t
  }

  /** Every emitted token is non-empty and equal to its own trim. */
  lemma {:induction false} ScanEmitsTokens(command: string, n: nat)
    requires n <= |command|
    ensures forall k :: 0 <= k < |Scan(command, n).args| ==> IsToken(Scan(command, n).args[k])
    decreases n
  {
    if n > 0 {
      ScanEmitsTokens(command, n - 1);
      var lx := Scan(command, n - 1);
      assert Scan(command, n) == Step(lx, command, n - 1);
      FlushEmitsTokens(lx);
    }
  }

  /** Ending a token keeps every emitted token a token. */
  lemma FlushEmitsTokens(lx: Lexer)
    requires forall k :: 0 <= k < |lx.args| ==> IsToken(lx.args[k])
    ensures forall k :: 0 <= k < |Flush(lx).args| ==> IsToken(Flush(lx).args[k])
  {
    TrimIdempotent(lx.current);
  }

  /**
    `parseCommandLineArgs` as its TypeScript loop is written: a loop over
    the characters with mutable state, which computes the same tokens.
   */
  method ParseArgs(command: string) returns (args: seq<string>)
    ensures args == ParseCommandLineArgs(command)
    ensures forall k :: 0 <= k < |args| ==> IsToken(args[k])
  {
    args := [];
    var current := "";
    var inQuotes := false;
    var quoteChar: char := ' ';
    var i := 0;
    while i < |command|
      invariant 0 <= i <= |command|
      invariant Scan(command, i) == Lexer(args, current, if inQuotes then Some(quoteChar) else None)
    {
      var c := command[i];
      if !inQuotes && (c == '"' || c == '\'') {
        inQuotes := true;
        quoteChar := c;
      } else if inQuotes && c == quoteChar {
        if i > 0 && command[i - 1] == '\\' {
          current := current + [c];
        } else {
          inQuotes := false;
        }
      } else if !inQuotes && c == ' ' {
        if Trim(current) != "" {
          args := args + [Trim(current)];
          current := "";
        }
      } else {
        current := current + [c];
      }
      i := i + 1;
    }
    if Trim(current) != "" {
      args := args + [Trim(current)];
    }
  }

  // ---------------------------------------------------------------------
  // Inputs without quotes

  /** The trimmed non-blank pieces, in order. */
  function NonBlankTrimmed(pieces: seq<string>): seq<string> {
    if |pieces| == 0 then []
    else NonBlankTrimmed(pieces[..|pieces| - 1]) + Emit(pieces[|pieces| - 1])
  }

  lemma BlankTrimStart(s: string)
    ensures IsBlank(s) <==> TrimStart(s) == ""
  {
    var t := TrimStart(s);
    TrimStartShape(s);
    if t == "" {
      assert s[..|s|] == s;
    }
  }

  /**
    A quote-free scan state agrees with the pieces of its input split on
    spaces: the emitted tokens are the non-blank trimmed pieces before the
    last one, and the current token equals the last piece once leading
    whitespace is cut.
   */
  predicate Agrees(lx: Lexer, p: seq<string>)
    requires |p| >= 1
  {
    && lx.quote.None?
    && lx.args == NonBlankTrimmed(p[..|p| - 1])
    && TrimStart(lx.current) == TrimStart(p[|p| - 1])
  }

  /** Two strings that agree once leading whitespace is cut also agree once trimmed. */
  lemma SameTrimStartSameTrim(x: string, y: string)
    requires TrimStart(x) == TrimStart(y)
    ensures Trim(x) == Trim(y)
    ensures Emit(x) == Emit(y)
  {
  }

  /** A space outside quotes ends the current piece and the current token alike. */
  lemma AgreesAfterSpace(lx: Lexer, p: seq<string>)
    requires |p| >= 1 && Agrees(lx, p)
    ensures Agrees(Flush(lx), p + [""])
  {
    var last := p[|p| - 1];
    assert (p + [""])[..|p|] == p;
    assert p == p[..|p| - 1] + [last];
    SameTrimStartSameTrim(lx.current, last);
    FlushEmits(lx);
    if Trim(lx.current) == "" {
      TrimEmptyIffBlank(lx.current);
      BlankTrimStart(lx.current);
    }
  }

  /** Any other character outside quotes extends the current piece and the current token alike. */
  lemma AgreesAfterChar(lx: Lexer, p: seq<string>, c: char)
    requires |p| >= 1 && Agrees(lx, p)
    ensures Agrees(lx.(current := lx.current + [c]), p[..|p| - 1] + [p[|p| - 1] + [c]])
  {
    var last := p[|p| - 1];
    var p' := p[..|p| - 1] + [last + [c]];
    assert p'[..|p'| - 1] == p[..|p| - 1];
    TrimStartAppend(lx.current, [c]);
    TrimStartAppend(last, [c]);
    BlankTrimStart(lx.current);
    BlankTrimStart(last);
  }

  /** At the end of the input, the final flush emits the last piece as well. */
  lemma AgreesAtEnd(lx: Lexer, p: seq<string>)
    requires |p| >= 1 && Agrees(lx, p)
    ensures Flush(lx).args == NonBlankTrimmed(p)
  {
    SameTrimStartSameTrim(lx.current, p[|p| - 1]);
    FlushEmits(lx);
  }

  /** The scan of a quote-free prefix agrees with the split of that prefix. */
  lemma {:induction false} QuoteFreeScan(command: string, n: nat)
    requires n <= |command|
    requires forall j :: 0 <= j < |command| ==> !IsQuote(command[j])
    ensures Agrees(Scan(command, n), Split(command[..n], ' '))
    decreases n
  {
    if n > 0 {
      QuoteFreeScan(command, n - 1);
      var lx := Scan(command, n - 1);
      var p := Split(command[..n - 1], ' ');
      var c := command[n - 1];
      assert Scan(command, n) == Step(lx, command, n - 1);
      StepOutsideQuote(lx, command, n - 1);
      assert command[..n][..n - 1] == command[..n - 1];
      assert command[..n][n - 1] == c;
      if c == ' ' {
        assert Split(command[..n], ' ') == p + [""];
        AgreesAfterSpace(lx, p);
      } else {
        assert Split(command[..n], ' ') == p[..|p| - 1] + [p[|p| - 1] + [c]];
        AgreesAfterChar(lx, p, c);
      }
    }
  }

  /** For input without quote characters, the tokens are exactly the non-blank trimmed pieces between spaces. */
  lemma QuoteFreeTokens(command: string)
    requires forall j :: 0 <= j < |command| ==> !IsQuote(command[j])
    ensures ParseCommandLineArgs(command) == NonBlankTrimmed(Split(command, ' '))
  {
    QuoteFreeScan(command, |command|);
    assert command[..|command|] == command;
    AgreesAtEnd(Scan(command, |command|), Split(command, ' '));
  }

  // ---------------------------------------------------------------------
  // Quoting

  /** Inside a quote opened by `q`, the position is not an unescaped closing `q`. */
  predicate NotClosing(command: string, j: nat, q: char)
    requires j < |command|
  {
    command[j] == q ==> j > 0 && command[j - 1] == '\\'
  }

  /**
    While a quote is open, every character up to the closing quote is kept
    literally: spaces, the other quote character, backslashes and escaped
    quote characters alike; no token is emitted.
   */
  lemma {:induction false} InsideQuotesKeptLiterally(command: string, i: nat, k: nat, q: char)
    requires i <= k <= |command|
    requires Scan(command, i).quote == Some(q)
    requires forall j :: i <= j < k ==> NotClosing(command, j, q)
    ensures Scan(command, k) == Scan(command, i).(current := Scan(command, i).current + command[i..k])
    decreases k - i
  {
    if k == i {
      assert command[i..k] == [];
    } else {
      InsideQuotesKeptLiterally(command, i, k - 1, q);
      var lx := Scan(command, k - 1);
      assert Scan(command, k) == Step(lx, command, k - 1);
      StepInsideQuote(lx, command, k - 1, q);
      assert command[i..k] == command[i..k - 1] + [command[k - 1]];
    }
  }

  /**
    A quoted segment outside any quote: the opening and closing quotes are
    dropped, the text between them is appended verbatim, and quoting ends.
   */
  lemma QuotedSegment(command: string, i: nat, k: nat)
    requires i < k < |command|
    requires Scan(command, i).quote.None? && IsQuote(command[i])
    requires command[k] == command[i] && command[k - 1] != '\\'
    requires forall j :: i < j < k ==> NotClosing(command, j, command[i])
    ensures Scan(command, k + 1) == Scan(command, i).(current := Scan(command, i).current + command[i + 1..k])
  {
    var lx := Scan(command, i);
    assert Scan(command, i + 1) == Step(lx, command, i);
    assert Scan(command, i + 1) == lx.(quote := Some(command[i]));
    InsideQuotesKeptLiterally(command, i + 1, k, command[i]);
    assert Scan(command, k + 1) == Step(Scan(command, k), command, k);
  }

  /** A quote left open takes the rest of the input into the last token. */
  lemma UnterminatedQuote(command: string, i: nat)
    requires i < |command|
    requires Scan(command, i).quote.None? && IsQuote(command[i])
    requires forall j :: i < j < |command| ==> NotClosing(command, j, command[i])
    ensures ParseCommandLineArgs(command) == Scan(command, i).args + Emit(Scan(command, i).current + command[i + 1..])
  {
    var lx := Scan(command, i);
    assert Scan(command, i + 1) == Step(lx, command, i);
    assert Scan(command, i + 1) == lx.(quote := Some(command[i]));
    InsideQuotesKeptLiterally(command, i + 1, |command|, command[i]);
    assert command[i + 1..|command|] == command[i + 1..];
    var end := Scan(command, |command|);
    assert end == lx.(current := lx.current + command[i + 1..], quote := Some(command[i]));
    FlushEmits(end);
  }
}
