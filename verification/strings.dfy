/**
  The JavaScript string primitives the modelled code relies on: `trim`,
  `split`, `join`, `startsWith`, `includes`, `indexOf` and the case
  conversions. Case conversion covers ASCII letters only.
 */
module Strings {

  /** The characters `String.prototype.trim` removes: ECMAScript WhiteSpace and LineTerminator. */
  predicate IsWhitespace(c: char) {
    || c == ' ' || c == '\t' || c == '\n' || c == '\r' || c == '\U{000B}' || c == '\U{000C}'
    || c == '\U{00A0}' || c == '\U{1680}' || ('\U{2000}' <= c <= '\U{200A}')
    || c == '\U{2028}' || c == '\U{2029}' || c == '\U{202F}' || c == '\U{205F}'
    || c == '\U{3000}' || c == '\U{FEFF}'
  }

  /** True when every character is whitespace (`s.trim()` is falsy). */
  predicate IsBlank(s: string) {
    forall i :: 0 <= i < |s| ==> IsWhitespace(s[i])
  }

  /** Removes leading whitespace. */
  function TrimStart(s: string): string {
    if |s| > 0 && IsWhitespace(s[0]) then TrimStart(s[1..]) else s
  }

  /** Removes trailing whitespace. */
  function TrimEnd(s: string): string {
    if |s| > 0 && IsWhitespace(s[|s| - 1]) then TrimEnd(s[..|s| - 1]) else s
  }

  /** `TrimStart` keeps a suffix, cuts only whitespace, and stops at the first non-whitespace character. */
  lemma {:induction false} TrimStartShape(s: string)
    ensures var r := TrimStart(s);
      && |r| <= |s| && r == s[|s| - |r|..]
      && IsBlank(s[..|s| - |r|])
      && (r == [] || !IsWhitespace(r[0]))
    decreases |s|
  {
    if |s| > 0 && IsWhitespace(s[0]) {
      var t := s[1..];
      TrimStartShape(t);
      var r := TrimStart(t);
      assert t[|t| - |r|..] == s[|s| - |r|..];
      var cut := s[..|s| - |r|];
      forall i | 0 <= i < |cut| ensures IsWhitespace(cut[i]) {
        if i > 0 {
          assert cut[i] == t[..|t| - |r|][i - 1];
        }
      }
    } else {
      assert s[..0] == [];
    }
  }

  /** `TrimEnd` keeps a prefix, cuts only whitespace, and stops at the last non-whitespace character. */
  lemma {:induction false} TrimEndShape(s: string)
    ensures var r := TrimEnd(s);
      && |r| <= |s| && r == s[..|r|]
      && IsBlank(s[|r|..])
      && (r == [] || !IsWhitespace(r[|r| - 1]))
    decreases |s|
  {
    if |s| > 0 && IsWhitespace(s[|s| - 1]) {
      var t := s[..|s| - 1];
      TrimEndShape(t);
      var r := TrimEnd(t);
      assert t[..|r|] == s[..|r|];
      var cut := s[|r|..];
      forall i | 0 <= i < |cut| ensures IsWhitespace(cut[i]) {
        if i < |s| - 1 - |r| {
          assert cut[i] == t[|r|..][i];
        }
      }
    } else {
      assert s[|s|..] == [];
    }
  }

  /** `String.prototype.trim`. */
  function Trim(s: string): string {
    TrimEnd(TrimStart(s))
  }

  /** Trim keeps a contiguous slice of its input, cutting only whitespace on both sides. */
  lemma TrimIsCore(s: string)
    ensures var r := Trim(s);
      exists k :: 0 <= k <= |s| - |r| && r == s[k..k + |r|] && IsBlank(s[..k]) && IsBlank(s[k + |r|..])
    ensures var r := Trim(s); r == [] || (!IsWhitespace(r[0]) && !IsWhitespace(r[|r| - 1]))
  {
    var t := TrimStart(s);
    var r := TrimEnd(t);
    TrimStartShape(s);
    TrimEndShape(t);
    var k := |s| - |t|;
    assert IsBlank(s[..k]);
    assert r == t[..|r|];
    assert r == s[k..k + |r|] by {
      assert t == s[k..];
    }
    assert IsBlank(s[k + |r|..]) by {
      assert s[k + |r|..] == t[|r|..];
    }
    if r != [] {
      assert r[0] == t[0];
    }
  }

  /** The trimmed string is empty exactly when the input is blank. */
  lemma TrimEmptyIffBlank(s: string)
    ensures Trim(s) == [] <==> IsBlank(s)
  {
    var t := TrimStart(s);
    TrimStartShape(s);
    TrimEndShape(t);
    if Trim(s) == [] {
      assert t[0..] == t;
      assert s[..|s|] == s;
    }
  }

  /** Trimming twice is trimming once. */
  lemma TrimIdempotent(s: string)
    ensures Trim(Trim(s)) == Trim(s)
  {
    var r := Trim(s);
    TrimIsCore(s);
    TrimEmptyIffBlank(s);
    if r != [] {
      assert TrimStart(r) == r;
      assert TrimEnd(r) == r;
    }
  }

  /** Leading whitespace of a concatenation: a blank head vanishes, otherwise only the head is trimmed. */
  lemma {:induction false} TrimStartAppend(x: string, y: string)
    ensures TrimStart(x + y) == if IsBlank(x) then TrimStart(y) else TrimStart(x) + y
    decreases |x|
  {
    if |x| == 0 {
      assert x + y == y;
    } else if IsWhitespace(x[0]) {
      var x' := x[1..];
      assert (x + y)[1..] == x' + y;
      assert TrimStart(x + y) == TrimStart(x' + y);
      assert TrimStart(x) == TrimStart(x');
      TrimStartAppend(x', y);
      assert IsBlank(x) <==> IsBlank(x') by {
        if IsBlank(x') {
          forall i | 0 <= i < |x| ensures IsWhitespace(x[i]) {
            if i > 0 { assert x[i] == x'[i - 1]; }
          }
        }
      }
    } else {
      assert (x + y)[0] == x[0];
      assert !IsBlank(x);
    }
  }

  /** Trailing whitespace after one more character: whitespace is dropped again, anything else is kept. */
  lemma TrimEndSnoc(x: string, c: char)
    ensures TrimEnd(x + [c]) == if IsWhitespace(c) then TrimEnd(x) else x + [c]
  {
    assert (x + [c])[..|x|] == x;
  }

  /** `s.split(sep)`, defined on prefixes: the pieces between separators, always at least one. */
  function Split(s: string, sep: char): (r: seq<string>)
    ensures |r| >= 1
  {
    if |s| == 0 then [""]
    else
      SplitStep(Split(s[..|s| - 1], sep), s[|s| - 1], sep)
  }

  /** One character of `split`: a separator opens a new piece, anything else extends the last one. */
  function SplitStep(p: seq<string>, c: char, sep: char): (r: seq<string>)
    requires |p| >= 1
    ensures |r| >= 1
  {
    if c == sep then p + [""] else p[..|p| - 1] + [p[|p| - 1] + [c]]
  }

  /** `parts.join(sep)`; joining nothing gives the empty string. */
  function Join(parts: seq<string>, sep: string): string
  {
    if |parts| == 0 then ""
    else if |parts| == 1 then parts[0]
    else Join(parts[..|parts| - 1], sep) + sep + parts[|parts| - 1]
  }

  lemma JoinSnocLast(q: seq<string>, x: string, c: char, sep: string)
    ensures Join(q + [x + [c]], sep) == Join(q + [x], sep) + [c]
  {
    var a := q + [x + [c]];
    var b := q + [x];
    if |q| > 0 {
      assert a[..|a| - 1] == q == b[..|b| - 1];
    }
  }

  /** Split and join are inverse: no character is lost or invented. */
  lemma {:induction false} JoinSplit(s: string, sep: char)
    ensures Join(Split(s, sep), [sep]) == s
    ensures forall k :: 0 <= k < |Split(s, sep)| ==> sep !in Split(s, sep)[k]
    decreases |s|
  {
    if |s| > 0 {
      var s' := s[..|s| - 1];
      var c := s[|s| - 1];
      JoinSplit(s', sep);
      assert s == s' + [c];
      SplitSnoc(s', c, sep);
      JoinSplitStep(Split(s', sep), s', c, sep);
    }
  }

  /** One step of `split` keeps the pieces joining back to the text read so far, none holding the separator. */
  lemma JoinSplitStep(p: seq<string>, s: string, c: char, sep: char)
    requires |p| >= 1 && Join(p, [sep]) == s
    requires forall k :: 0 <= k < |p| ==> sep !in p[k]
    ensures Join(SplitStep(p, c, sep), [sep]) == s + [c]
    ensures forall k :: 0 <= k < |SplitStep(p, c, sep)| ==> sep !in SplitStep(p, c, sep)[k]
  {
    if c == sep {
      assert (p + [""])[..|p|] == p;
    } else {
      var q := p[..|p| - 1];
      assert p == q + [p[|p| - 1]];
      JoinSnocLast(q, p[|p| - 1], c, [sep]);
      var r := q + [p[|p| - 1] + [c]];
      forall k | 0 <= k < |r| ensures sep !in r[k] {
        if k < |q| {
          assert r[k] == p[k];
        }
      }
    }
  }

  /** Joining pieces that do not contain the separator and splitting again gives the pieces back. */
  lemma {:induction false} SplitJoin(parts: seq<string>, sep: char)
    requires |parts| >= 1
    requires forall k :: 0 <= k < |parts| ==> sep !in parts[k]
    ensures Split(Join(parts, [sep]), sep) == parts
    decreases |parts|
  {
    if |parts| == 1 {
      SplitNoSep(parts[0], sep);
    } else {
      var init := parts[..|parts| - 1];
      var last := parts[|parts| - 1];
      SplitJoin(init, sep);
      SplitAppendNoSep(Join(init, [sep]) + [sep], last, sep);
      var j := Join(init, [sep]);
      assert (j + [sep])[..|j|] == j;
      var p := Split(j + [sep], sep);
      assert p == init + [""];
      assert p[..|p| - 1] == init;
      assert p[|p| - 1] + last == last;
      assert Join(parts, [sep]) == (Join(init, [sep]) + [sep]) + last;
      assert init + [last] == parts;
    }
  }

  /** A string without the separator splits into itself. */
  lemma {:induction false} SplitNoSep(s: string, sep: char)
    requires sep !in s
    ensures Split(s, sep) == [s]
    decreases |s|
  {
    if |s| > 0 {
      assert sep !in s[..|s| - 1];
      SplitNoSep(s[..|s| - 1], sep);
      assert s[..|s| - 1] + [s[|s| - 1]] == s;
    }
  }

  /** Splitting one more character takes one more step. */
  lemma SplitSnoc(s: string, c: char, sep: char)
    ensures Split(s + [c], sep) == SplitStep(Split(s, sep), c, sep)
  {
    assert (s + [c])[..|s|] == s;
  }

  /** Appending text without the separator extends the last piece. */
  lemma {:induction false} SplitAppendNoSep(s: string, t: string, sep: char)
    requires sep !in t
    ensures var p := Split(s, sep);
      Split(s + t, sep) == p[..|p| - 1] + [p[|p| - 1] + t]
    decreases |t|
  {
    if |t| == 0 {
      SplitAppendEmpty(s, t, sep);
    } else {
      var t', c := t[..|t| - 1], t[|t| - 1];
      assert sep !in t';
      SplitAppendNoSep(s, t', sep);
      SplitAppendStep(s + t', c, sep, Split(s, sep), t');
      AppendSnoc(s, t', c, t);
    }
  }

  /** The base case of `SplitAppendNoSep`: nothing appended. */
  lemma SplitAppendEmpty(s: string, t: string, sep: char)
    requires |t| == 0
    ensures var p := Split(s, sep);
      Split(s + t, sep) == p[..|p| - 1] + [p[|p| - 1] + t]
  {
    var p := Split(s, sep);
    assert s + t == s;
    assert p[|p| - 1] + t == p[|p| - 1];
    assert p[..|p| - 1] + [p[|p| - 1]] == p;
  }

  /** Appending `t` is appending its init, then its last character. */
  lemma AppendSnoc(s: string, t': string, c: char, t: string)
    requires t == t' + [c]
    ensures (s + t') + [c] == s + t
  {
  }

  /** The inductive step of `SplitAppendNoSep`: pieces whose last one was extended by `t` get one more non-separator character. */
  lemma SplitAppendStep(u: string, c: char, sep: char, p: seq<string>, t: string)
    requires c != sep && |p| >= 1
    requires Split(u, sep) == p[..|p| - 1] + [p[|p| - 1] + t]
    ensures Split(u + [c], sep) == p[..|p| - 1] + [p[|p| - 1] + (t + [c])]
  {
    SplitSnoc(u, c, sep);
    ExtendLastStep(p, Split(u, sep), t, c, sep);
  }

  /** A non-separator step on pieces whose last one was extended by `t` extends it by one more character. */
  lemma ExtendLastStep(p: seq<string>, q: seq<string>, t: string, c: char, sep: char)
    requires |p| >= 1 && c != sep
    requires q == p[..|p| - 1] + [p[|p| - 1] + t]
    ensures SplitStep(q, c, sep) == p[..|p| - 1] + [p[|p| - 1] + (t + [c])]
  {
    assert q[..|q| - 1] == p[..|p| - 1];
    assert q[|q| - 1] + [c] == p[|p| - 1] + (t + [c]);
  }

  /** `s.startsWith(p)`. */
  predicate StartsWith(s: string, p: string) {
    |p| <= |s| && s[..|p|] == p
  }

  /** `s.includes(sub)`. */
  predicate Contains(s: string, sub: string)
    decreases |s|
  {
    StartsWith(s, sub) || (|s| > 0 && Contains(s[1..], sub))
  }

  /** `sub` occurs in `s` starting at position `i`. */
  predicate OccursAt(s: string, sub: string, i: int) {
    0 <= i <= |s| - |sub| && s[i..i + |sub|] == sub
  }

  /** `includes` holds exactly when `sub` occurs at some position. */
  lemma {:induction false} ContainsIff(s: string, sub: string)
    ensures Contains(s, sub) <==> exists i :: OccursAt(s, sub, i)
    decreases |s|
  {
    if StartsWith(s, sub) {
      assert OccursAt(s, sub, 0);
    } else if |s| > 0 {
      ContainsIff(s[1..], sub);
      if Contains(s[1..], sub) {
        var i :| OccursAt(s[1..], sub, i);
        assert s[i + 1..i + 1 + |sub|] == s[1..][i..i + |sub|];
        assert OccursAt(s, sub, i + 1);
      }
      if exists i :: OccursAt(s, sub, i) {
        var i :| OccursAt(s, sub, i);
        assert i != 0;
        assert s[1..][i - 1..i - 1 + |sub|] == s[i..i + |sub|];
        assert OccursAt(s[1..], sub, i - 1);
      }
    }
  }

  /** A string that lacks the first character of `sub` does not include `sub`. */
  lemma {:induction false} MissingHeadNotContained(s: string, sub: string)
    requires |sub| > 0 && sub[0] !in s
    ensures !Contains(s, sub)
    decreases |s|
  {
    if |s| > 0 {
      assert sub[0] !in s[1..];
      MissingHeadNotContained(s[1..], sub);
      if |sub| <= |s| {
        assert s[..|sub|][0] == s[0];
      }
    }
  }

  /** `s.indexOf(c)`: the first position of `c`, or -1. */
  function IndexOf(s: string, c: char): (r: int)
    ensures -1 <= r < |s|
    ensures r == -1 <==> c !in s
    ensures r >= 0 ==> s[r] == c && c !in s[..r]
  {
    if |s| == 0 then -1
    else if s[0] == c then 0
    else
      var k := IndexOf(s[1..], c);
      assert c !in s[1..] ==> c !in s by {
        if c in s {
          var j :| 0 <= j < |s| && s[j] == c;
          assert s[1..][j - 1] == c;
        }
      }
      if k == -1 then -1
      else
        assert s[..k + 1] == [s[0]] + s[1..][..k];
        k + 1
  }

  function LowerChar(c: char): char {
    if 'A' <= c <= 'Z' then (c as int + 32) as char else c
  }

  function UpperChar(c: char): char {
    if 'a' <= c <= 'z' then (c as int - 32) as char else c
  }

  /** `toLowerCase` on ASCII letters. */
  function ToLower(s: string): (r: string)
    ensures |r| == |s|
    ensures forall i :: 0 <= i < |s| ==> r[i] == LowerChar(s[i])
  {
    seq(|s|, i requires 0 <= i < |s| => LowerChar(s[i]))
  }

  /** `toUpperCase` on ASCII letters. */
  function ToUpper(s: string): (r: string)
    ensures |r| == |s|
    ensures forall i :: 0 <= i < |s| ==> r[i] == UpperChar(s[i])
  {
    seq(|s|, i requires 0 <= i < |s| => UpperChar(s[i]))
  }
}
