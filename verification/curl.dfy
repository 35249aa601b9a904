/**
  `parseCurlCommand`: the curl command line is tokenized, then a single
  left-to-right scan from the second token picks out the method, headers,
  body and URL. Flags that take a value consume the token after them
  (whatever it looks like); the first other token not starting with `-`
  is the URL and later ones are ignored. Default `Content-Type` and
  `User-Agent` headers are added at the end.
 */
module Curl {
  import opened Results
  import opened Strings
  import CommandLine

  const ContentType: string := "Content-Type"
  const UserAgent: string := "User-Agent"
  const DefaultUserAgent: string := "console-mcp-server/1.0.0"
  const JsonType: string := "application/json"
  const FormType: string := "application/x-www-form-urlencoded"
  const NoUrlMessage: string := "No URL found in curl command"

  /** The request the tool sends. `data` is `None` when no body was given or its flag had no value. */
  datatype CurlRequest = CurlRequest(url: string, httpMethod: string, headers: map<string, string>, data: Option<string>)

  /** The scan's state; an empty `url` means none has been seen yet. */
  datatype Parsed = Parsed(url: string, httpMethod: string, headers: map<string, string>, data: Option<string>)

  const Initial: Parsed := Parsed("", "GET", map[], None)

  predicate IsMethodFlag(arg: string) {
    arg == "-X" || arg == "--request"
  }

  predicate IsHeaderFlag(arg: string) {
    arg == "-H" || arg == "--header"
  }

  predicate IsDataFlag(arg: string) {
    arg == "-d" || arg == "--data" || arg == "--data-raw"
  }

  /** Flags that consume the following token as their value. */
  predicate TakesValue(arg: string) {
    IsMethodFlag(arg) || IsHeaderFlag(arg) || IsDataFlag(arg)
  }

  /** A token that becomes the URL when none has been seen yet. */
  predicate IsUrlCandidate(arg: string) {
    arg != "" && !StartsWith(arg, "-")
  }

  /** A header entry is truthy: present and not the empty string. */
  predicate HasValue(headers: map<string, string>, key: string) {
    key in headers && headers[key] != ""
  }

  /** The value after a flag, or `None` when the flag is the last token. */
  function ValueAfter(args: seq<string>, i: nat): (r: Option<string>)
    ensures r.Some? <==> i + 1 < |args|
    ensures r.Some? ==> r.value == args[i + 1]
  {
    if i + 1 < |args| then Some(args[i + 1]) else None
  }

  /** The method a `-X` value selects: its upper-case form, or GET when missing or empty. */
  function MethodValue(value: Option<string>): (r: string)
    ensures r != ""
    ensures value.Some? && value.value != "" ==> r == ToUpper(value.value)
    ensures value.None? || value.value == "" ==> r == "GET"
  {
    if value.Some? && ToUpper(value.value) != "" then ToUpper(value.value) else "GET"
  }

  /**
    A `-H` value: split at the FIRST colon, which must not be the first
    character; both sides are trimmed.
   */
  function ParseHeader(header: string): (r: Option<(string, string)>)
    ensures r.Some? <==> ':' in header && header[0] != ':'
    ensures r.Some? ==> exists ci :: (0 < ci < |header| && header[ci] == ':' && ':' !in header[..ci]
      && r.value == (Trim(header[..ci]), Trim(header[ci + 1..])))
  {
    var ci := IndexOf(header, ':');
    if ci > 0 then Some((Trim(header[..ci]), Trim(header[ci + 1..]))) else None
  }

  /** The start of the next token the scan looks at after the one at `i`. */
  function Next(args: seq<string>, i: nat): (r: nat)
    requires i < |args|
    ensures r == i + 1 || (r == i + 2 && TakesValue(args[i]))
  {
    if TakesValue(args[i]) then i + 2 else i + 1
  }

  /**
    The effect of the token at `i` (and of the value it consumes, if any):
    the URL is set only from a candidate while none is held; the body only
    by a data flag, which also turns GET into POST; headers only by a
    header flag; the method only by a method or data flag.
   */
  function StepArg(args: seq<string>, i: nat, acc: Parsed): (r: Parsed)
    requires i < |args|
    ensures r.url == acc.url || (acc.url == "" && IsUrlCandidate(args[i]) && r.url == args[i])
    ensures acc.url == "" && IsUrlCandidate(args[i]) ==> r.url == args[i]
    ensures IsDataFlag(args[i]) ==> r.data == ValueAfter(args, i)
    ensures !IsDataFlag(args[i]) ==> r.data == acc.data
    ensures IsHeaderFlag(args[i]) ==>
      if ValueAfter(args, i).Some? && args[i + 1] != "" && ParseHeader(args[i + 1]).Some? then
        r.headers == acc.headers[ParseHeader(args[i + 1]).value.0 := ParseHeader(args[i + 1]).value.1]
      else r.headers == acc.headers
    ensures !IsHeaderFlag(args[i]) ==> r.headers == acc.headers
    ensures IsMethodFlag(args[i]) ==> r.httpMethod == MethodValue(ValueAfter(args, i))
    ensures !IsMethodFlag(args[i]) && !IsDataFlag(args[i]) ==> r.httpMethod == acc.httpMethod
  {
    var arg := args[i];
    if IsMethodFlag(arg) then acc.(httpMethod := MethodValue(ValueAfter(args, i)))
    else if IsHeaderFlag(arg) then
      match ValueAfter(args, i)
      case Some(h) =>
        if h != "" && ParseHeader(h).Some? then
          acc.(headers := acc.headers[ParseHeader(h).value.0 := ParseHeader(h).value.1])
        else acc
      case None => acc
    else if IsDataFlag(arg) then
      acc.(data := ValueAfter(args, i), httpMethod := if acc.httpMethod == "GET" then "POST" else acc.httpMethod)
    else if !StartsWith(arg, "-") && acc.url == "" then acc.(url := arg)
    else acc
  }

  /**
    The scan from token `i` on: a URL already held is kept, and a URL found
    is a candidate token at or after `i`.
   */
  function Interpret(args: seq<string>, i: nat, acc: Parsed): (r: Parsed)
    ensures acc.url != "" ==> r.url == acc.url
    ensures r.url == acc.url || (acc.url == "" && IsUrlCandidate(r.url) && exists k :: i <= k < |args| && args[k] == r.url)
    decreases |args| - i, 1
  {
    if i >= |args| then acc else InterpretAt(args, i, acc)
  }

  /** The token at `i` and then the rest (kept apart so that each unfolding of `Interpret` is a single step). */
  function InterpretAt(args: seq<string>, i: nat, acc: Parsed): (r: Parsed)
    requires i < |args|
    ensures acc.url != "" ==> r.url == acc.url
    ensures r.url == acc.url || (acc.url == "" && IsUrlCandidate(r.url) && exists k :: i <= k < |args| && args[k] == r.url)
    decreases |args| - i, 0
  {
    Interpret(args, Next(args, i), StepArg(args, i, acc))
  }

  /** Adds `Content-Type` for a non-empty body and `User-Agent`, each only when not already truthy. */
  function WithDefaults(headers: map<string, string>, data: Option<string>): (r: map<string, string>)
    ensures HasValue(r, UserAgent)
    ensures HasValue(headers, UserAgent) ==> r[UserAgent] == headers[UserAgent]
    ensures !HasValue(headers, UserAgent) ==> r[UserAgent] == DefaultUserAgent
    ensures HasValue(headers, ContentType) ==> HasValue(r, ContentType) && r[ContentType] == headers[ContentType]
    ensures data.Some? && data.value != "" && !HasValue(headers, ContentType) ==>
      ContentType in r
      && (r[ContentType] == JsonType <==> StartsWith(Trim(data.value), "{") || StartsWith(Trim(data.value), "["))
      && (r[ContentType] == JsonType || r[ContentType] == FormType)
    ensures (data.None? || data.value == "") ==>
      (ContentType in r <==> ContentType in headers) && (ContentType in r ==> r[ContentType] == headers[ContentType])
    ensures forall k :: k != ContentType && k != UserAgent ==>
      (k in r <==> k in headers) && (k in r ==> r[k] == headers[k])
  {
    var withType :=
      if data.Some? && data.value != "" && !HasValue(headers, ContentType) then
        var body := Trim(data.value);
        headers[ContentType := if StartsWith(body, "{") || StartsWith(body, "[") then JsonType else FormType]
      else headers;
    if !HasValue(withType, UserAgent) then withType[UserAgent := DefaultUserAgent] else withType
  }

  /** The scan over already tokenized arguments; the first token (the program name) is skipped. */
  function ParseCurlArgs(args: seq<string>): (r: Result<CurlRequest, string>)
    ensures r.Err? <==> Interpret(args, 1, Initial).url == ""
    ensures r.Err? ==> r.error == NoUrlMessage
    ensures r.Ok? ==> var p := Interpret(args, 1, Initial);
      r.value == CurlRequest(p.url, p.httpMethod, WithDefaults(p.headers, p.data), p.data)
  {
    var p := Interpret(args, 1, Initial);
    if p.url == "" then Err(NoUrlMessage)
    else Ok(CurlRequest(p.url, p.httpMethod, WithDefaults(p.headers, p.data), p.data))
  }

  /**
    One pass of the loop body of `parseCurlCommand`: the token at `i`, and its value
    for a flag that takes one. Returns the index of the last token used.
   */
  method ScanToken(args: seq<string>, i: nat, acc: Parsed) returns (last: nat, r: Parsed)
    requires i < |args|
    ensures r == StepArg(args, i, acc)
    ensures last + 1 == Next(args, i)
  {
    var arg := args[i];
    last, r := i, acc;
    if arg == "-X" || arg == "--request" {
      last := last + 1;
      r := r.(httpMethod := if last < |args| && ToUpper(args[last]) != "" then ToUpper(args[last]) else "GET");
    } else if arg == "-H" || arg == "--header" {
      last := last + 1;
      if last < |args| && args[last] != "" {
        var header := args[last];
        var colonIndex := IndexOf(header, ':');
        if colonIndex > 0 {
          r := r.(headers := r.headers[Trim(header[..colonIndex]) := Trim(header[colonIndex + 1..])]);
        }
      }
    } else if arg == "-d" || arg == "--data" || arg == "--data-raw" {
      last := last + 1;
      r := r.(data := if last < |args| then Some(args[last]) else None);
      if r.httpMethod == "GET" {
        r := r.(httpMethod := "POST");
      }
    } else if !StartsWith(arg, "-") && r.url == "" {
      r := r.(url := arg);
    }
  }

  /** The loop of `parseCurlCommand` from the second token on, computing the same state as the scan. */
  method ScanArgs(args: seq<string>) returns (p: Parsed)
    ensures p == Interpret(args, 1, Initial)
  {
    p := Initial;
    var i := 1;
    while i < |args|
      invariant Interpret(args, i, p) == Interpret(args, 1, Initial)
      decreases |args| - i
    {
      var last;
      last, p := ScanToken(args, i, p);
      i := last + 1;
    }
  }

  /**
    `parseCurlCommand`: tokenize, then scan. It fails, with the one message
    it has, exactly when no token the scan looks at can be the URL; on
    success the URL is one of the command's tokens and a User-Agent is set.
   */
  function ParseCurlCommand(command: string): (r: Result<CurlRequest, string>)
    ensures var args := CommandLine.ParseCommandLineArgs(command);
      r.Err? <==> forall k: nat :: Visits(args, 1, k) ==> !IsUrlCandidate(args[k])
    ensures r.Err? ==> r.error == NoUrlMessage
    ensures r.Ok? ==>
      && IsUrlCandidate(r.value.url) && CommandLine.IsToken(r.value.url)
      && r.value.url in CommandLine.ParseCommandLineArgs(command)[1..]
      && HasValue(r.value.headers, UserAgent)
  {
    var args := CommandLine.ParseCommandLineArgs(command);
    ParseFailsIffNoCandidate(args);
    ParseCurlArgs(args)
  }

  /**
    The guard of the curl tool: after trimming and lower-casing, the command
    starts with `curl`. That is, after its leading whitespace the command
    starts with `curl` in any letter case; trailing whitespace is irrelevant.
   */
  function IsCurlCommand(command: string): (r: bool)
    ensures r <==>
      var t := TrimStart(command);
      |t| >= 4 && LowerChar(t[0]) == 'c' && LowerChar(t[1]) == 'u' && LowerChar(t[2]) == 'r' && LowerChar(t[3]) == 'l'
  {
    var t := TrimStart(command);
    TrimEndShape(t);
    LowerStartsWithCurl(TrimEnd(t));
    LowerStartsWithCurl(t);
    assert |t| >= 4 && !IsWhitespace(t[3]) ==> TrimEnd(t)[..4] == t[..4] by {
      if |t| >= 4 && !IsWhitespace(t[3]) {
        TrimEndKeepsUpToNonBlank(t, 3);
      }
    }
    StartsWith(ToLower(Trim(command)), "curl")
  }

  // ---------------------------------------------------------------------
  // Which tokens the scan looks at

  /** Starting at `i`, the scan looks at token `k` (it is not consumed as a flag's value). */
  predicate Visits(args: seq<string>, i: nat, k: nat)
    ensures Visits(args, i, k) ==> i <= k < |args|
    decreases |args| - i
  {
    if i >= |args| || i > k then false
    else i == k || Visits(args, Next(args, i), k)
  }

  /** A token is looked at when the one before it takes no value (or it is the first one). */
  lemma {:induction false} VisitedAfterPlainToken(args: seq<string>, i: nat, k: nat)
    requires i <= k < |args|
    requires k == i || !TakesValue(args[k - 1])
    ensures Visits(args, i, k)
    decreases k - i
  {
    if i < k {
      VisitedAfterPlainToken(args, Next(args, i), k);
    }
  }

  /** The state the scan reaches when it arrives at `k`. */
  function Before(args: seq<string>, i: nat, k: nat, acc: Parsed): Parsed
    requires Visits(args, i, k)
    decreases |args| - i
  {
    if i == k then acc else Before(args, Next(args, i), k, StepArg(args, i, acc))
  }

  lemma {:induction false} InterpretThrough(args: seq<string>, i: nat, k: nat, acc: Parsed)
    requires Visits(args, i, k)
    ensures Interpret(args, i, acc) == Interpret(args, k, Before(args, i, k, acc))
    decreases |args| - i
  {
    if i != k {
      InterpretThrough(args, Next(args, i), k, StepArg(args, i, acc));
    }
  }

  // ---------------------------------------------------------------------
  // The URL

  /** Once a URL is set, nothing later replaces it. */
  lemma {:induction false} UrlSticks(args: seq<string>, i: nat, acc: Parsed)
    requires acc.url != ""
    ensures Interpret(args, i, acc).url == acc.url
    decreases |args| - i
  {
    if i < |args| {
      UrlSticks(args, Next(args, i), StepArg(args, i, acc));
    }
  }

  /** The URL found is either the one already held or a candidate token the scan looked at. */
  lemma {:induction false} UrlComesFromVisitedCandidate(args: seq<string>, i: nat, acc: Parsed)
    requires acc.url == ""
    ensures var u := Interpret(args, i, acc).url;
      u == "" <==> forall k: nat :: Visits(args, i, k) ==> !IsUrlCandidate(args[k])
    ensures var u := Interpret(args, i, acc).url;
      u != "" ==> exists k: nat :: Visits(args, i, k) && IsUrlCandidate(args[k]) && u == args[k]
    decreases |args| - i
  {
    if i < |args| {
      var acc' := StepArg(args, i, acc);
      var n := Next(args, i);
      forall k: nat | Visits(args, i, k) && k != i
        ensures Visits(args, n, k)
      {
      }
      if acc'.url == "" {
        UrlComesFromVisitedCandidate(args, n, acc');
        assert !IsUrlCandidate(args[i]);
      } else {
        UrlSticks(args, n, acc');
        assert Visits(args, i, i);
      }
    }
  }

  /** The URL is the first candidate token the scan looks at. */
  lemma {:induction false} FirstCandidateIsUrl(args: seq<string>, i: nat, k: nat, acc: Parsed)
    requires acc.url == "" && Visits(args, i, k) && IsUrlCandidate(args[k])
    requires forall j: nat :: j < k && Visits(args, i, j) ==> !IsUrlCandidate(args[j])
    ensures Interpret(args, i, acc).url == args[k]
    decreases |args| - i
  {
    if i == k {
      UrlSticks(args, Next(args, i), StepArg(args, i, acc));
    } else {
      var n := Next(args, i);
      forall j: nat | j < k && Visits(args, n, j)
        ensures !IsUrlCandidate(args[j])
      {
        assert Visits(args, i, j);
      }
      assert !IsUrlCandidate(args[i]);
      FirstCandidateIsUrl(args, n, k, StepArg(args, i, acc));
    }
  }

  /** Parsing fails exactly when no token the scan looks at could be the URL. */
  lemma ParseFailsIffNoCandidate(args: seq<string>)
    ensures ParseCurlArgs(args).Err? <==> forall k: nat :: Visits(args, 1, k) ==> !IsUrlCandidate(args[k])
    ensures ParseCurlArgs(args).Ok? ==>
      exists k: nat :: 1 <= k < |args| && Visits(args, 1, k) && IsUrlCandidate(args[k]) && ParseCurlArgs(args).value.url == args[k]
  {
    UrlComesFromVisitedCandidate(args, 1, Initial);
  }

  /** A URL-like token right after the program name, or after a token taking no value, guarantees success. */
  lemma UrlAfterPlainTokenFound(args: seq<string>, k: nat)
    requires 1 <= k < |args| && IsUrlCandidate(args[k])
    requires k == 1 || !TakesValue(args[k - 1])
    ensures ParseCurlArgs(args).Ok?
  {
    VisitedAfterPlainToken(args, 1, k);
    ParseFailsIffNoCandidate(args);
  }

  // ---------------------------------------------------------------------
  // Method and headers

  /** The method is GET, POST, or the upper-cased value of some `-X`. */
  lemma {:induction false} MethodOrigin(args: seq<string>, i: nat, acc: Parsed)
    requires acc.httpMethod == "GET" || acc.httpMethod == "POST" || exists k :: 0 <= k < |args| && acc.httpMethod == ToUpper(args[k])
    ensures var m := Interpret(args, i, acc).httpMethod;
      m == "GET" || m == "POST" || exists k :: 0 <= k < |args| && m == ToUpper(args[k])
    decreases |args| - i
  {
    if i < |args| {
      var acc' := StepArg(args, i, acc);
      if IsMethodFlag(args[i]) && i + 1 < |args| && ToUpper(args[i + 1]) != "" {
        assert acc'.httpMethod == ToUpper(args[i + 1]);
      }
      MethodOrigin(args, Next(args, i), acc');
    }
  }

  /** Without any flag taking a value, the request is a GET without body and with only the default header. */
  lemma {:induction false} PlainArgsGet(args: seq<string>, i: nat, acc: Parsed)
    requires forall k :: i <= k < |args| ==> !TakesValue(args[k])
    ensures var p := Interpret(args, i, acc);
      p.httpMethod == acc.httpMethod && p.headers == acc.headers && p.data == acc.data
    decreases |args| - i
  {
    if i < |args| {
      PlainArgsGet(args, Next(args, i), StepArg(args, i, acc));
    }
  }

  lemma PlainCurlIsGet(args: seq<string>)
    requires forall k :: 1 <= k < |args| ==> !TakesValue(args[k])
    requires ParseCurlArgs(args).Ok?
    ensures var r := ParseCurlArgs(args).value;
      r.httpMethod == "GET" && r.data.None? && r.headers == map[UserAgent := DefaultUserAgent]
  {
    PlainArgsGet(args, 1, Initial);
  }

  /** Tokens appended after a token taking no value are looked at. */
  lemma AppendedTokenVisited(args: seq<string>, tail: seq<string>)
    requires |args| >= 1 && |tail| >= 1 && (|args| == 1 || !TakesValue(args[|args| - 1]))
    ensures Visits(args + tail, 1, |args|)
  {
    var all := args + tail;
    if |args| > 1 {
      assert all[|args| - 1] == args[|args| - 1];
    }
    VisitedAfterPlainToken(all, 1, |args|);
  }

  /** A `-H` looked at as the last flag sets its header, whatever came before. */
  lemma HeaderFlagAtEnd(all: seq<string>, k: nat, acc: Parsed)
    requires Visits(all, 1, k) && k + 2 == |all| && IsHeaderFlag(all[k])
    requires all[k + 1] != "" && ParseHeader(all[k + 1]).Some?
    ensures var (key, value) := ParseHeader(all[k + 1]).value;
      var p := Interpret(all, 1, acc);
      key in p.headers && p.headers[key] == value
  {
    InterpretThrough(all, 1, k, acc);
    var b := Before(all, 1, k, acc);
    assert ValueAfter(all, k) == Some(all[k + 1]);
    assert Interpret(all, k, b) == Interpret(all, |all|, StepArg(all, k, b));
  }

  /** A header given later overrides an earlier one with the same key. */
  lemma LaterHeaderWins(args: seq<string>, header: string)
    requires |args| >= 1 && (|args| == 1 || !TakesValue(args[|args| - 1]))
    requires header != "" && ParseHeader(header).Some?
    ensures var (key, value) := ParseHeader(header).value;
      var p := Interpret(args + ["-H", header], 1, Initial);
      key in p.headers && p.headers[key] == value
  {
    var all := args + ["-H", header];
    assert all[|args|] == "-H" && all[|args| + 1] == header;
    AppendedTokenVisited(args, ["-H", header]);
    HeaderFlagAtEnd(all, |args|, Initial);
  }

  // ---------------------------------------------------------------------
  // The body

  /**
    A data flag (`-d`, `--data`, `--data-raw`) takes the next token as the
    body, or no body when it is the last token, and makes the method POST
    exactly when it was GET or POST; any other method is kept.
   */
  lemma DataFlagPromotesGet(args: seq<string>, i: nat, acc: Parsed)
    requires i < |args| && IsDataFlag(args[i])
    ensures var r := StepArg(args, i, acc);
      && r.data == (if i + 1 < |args| then Some(args[i + 1]) else None)
      && (r.httpMethod == "POST" <==> acc.httpMethod == "GET" || acc.httpMethod == "POST")
      && (acc.httpMethod != "GET" ==> r.httpMethod == acc.httpMethod)
      && r.url == acc.url && r.headers == acc.headers
      && Next(args, i) == i + 2
  {
    assert !IsUrlCandidate(args[i]);
  }

  /** A data flag looked at last, with or without its value, decides the body, and the method is no longer GET. */
  lemma DataFlagLast(all: seq<string>, k: nat, acc: Parsed)
    requires Visits(all, 1, k) && IsDataFlag(all[k]) && |all| <= k + 2
    ensures var p := Interpret(all, 1, acc);
      p.data == ValueAfter(all, k) && p.httpMethod != "GET"
  {
    InterpretThrough(all, 1, k, acc);
    var b := Before(all, 1, k, acc);
    DataFlagPromotesGet(all, k, b);
    assert Interpret(all, k, b) == Interpret(all, Next(all, k), StepArg(all, k, b));
  }

  /** A body given later replaces an earlier one, and the request is no longer a GET. */
  lemma LaterDataWins(args: seq<string>, body: string)
    requires |args| >= 1 && (|args| == 1 || !TakesValue(args[|args| - 1]))
    ensures var p := Interpret(args + ["-d", body], 1, Initial);
      p.data == Some(body) && p.httpMethod != "GET"
  {
    var all := args + ["-d", body];
    assert all[|args|] == "-d" && all[|args| + 1] == body;
    AppendedTokenVisited(args, ["-d", body]);
    DataFlagLast(all, |args|, Initial);
  }

  /**
    A data flag at the very end has no value: it discards any body given
    earlier, and still turns GET into POST.
   */
  lemma DataFlagAtEnd(args: seq<string>)
    requires |args| >= 1 && (|args| == 1 || !TakesValue(args[|args| - 1]))
    ensures var p := Interpret(args + ["-d"], 1, Initial);
      p.data.None? && p.httpMethod != "GET"
  {
    var all := args + ["-d"];
    assert all[|args|] == "-d";
    AppendedTokenVisited(args, ["-d"]);
    DataFlagLast(all, |args|, Initial);
  }

  // ---------------------------------------------------------------------
  // The curl tool guard

  /** The lower-cased string starts with `curl` exactly when its first four characters lower-case to it. */
  lemma LowerStartsWithCurl(s: string)
    ensures StartsWith(ToLower(s), "curl") <==>
      |s| >= 4 && LowerChar(s[0]) == 'c' && LowerChar(s[1]) == 'u' && LowerChar(s[2]) == 'r' && LowerChar(s[3]) == 'l'
  {
    if |s| >= 4 {
      var l := ToLower(s);
      if l[..4] == "curl" {
        assert l[..4][3] == l[3];
      }
      if LowerChar(s[0]) == 'c' && LowerChar(s[1]) == 'u' && LowerChar(s[2]) == 'r' && LowerChar(s[3]) == 'l' {
        assert l[..4] == "curl";
      }
    }
  }

  /** Trimming the end keeps everything up to a non-whitespace character. */
  lemma TrimEndKeepsUpToNonBlank(t: string, j: nat)
    requires j < |t| && !IsWhitespace(t[j])
    ensures j < |TrimEnd(t)| && TrimEnd(t)[..j + 1] == t[..j + 1]
  {
    TrimEndShape(t);
  }
}
