/**
 * The JavaScript string primitives the services rely on: `trim`, `split`,
 * `startsWith` and `toLowerCase`, over strings as sequences of characters.
 */
module Strings {

  /** The characters `String.prototype.trim` removes: ECMAScript WhiteSpace and LineTerminator. */
  predicate IsSpace(c: char) {
    || c == '\t' || c == '\n' || c == '\U{000B}' || c == '\U{000C}' || c == '\r' || c == ' '
    || c == '\U{00A0}' || c == '\U{1680}' || ('\U{2000}' <= c <= '\U{200A}')
    || c == '\U{2028}' || c == '\U{2029}' || c == '\U{202F}' || c == '\U{205F}'
    || c == '\U{3000}' || c == '\U{FEFF}'
  }

  /** True when `s` neither starts nor ends with white space. */
  predicate IsTrimmed(s: string) {
    s == [] || (!IsSpace(s[0]) && !IsSpace(s[|s| - 1]))
  }

  /** True when every character of `s` is white space. */
  predicate AllSpace(s: string) {
    forall k :: 0 <= k < |s| ==> IsSpace(s[k])
  }

  /** The first position at or after `i` that does not hold white space, or `|s|`. */
  function SkipSpace(s: string, i: nat): (n: nat)
    requires i <= |s|
    ensures i <= n <= |s|
    ensures forall k :: i <= k < n ==> IsSpace(s[k])
    ensures n < |s| ==> !IsSpace(s[n])
    decreases |s| - i
  {
    if i < |s| && IsSpace(s[i]) then SkipSpace(s, i + 1) else i
  }

  /** The position after the last character in `s[lo..j]` that is not white space, or `lo`. */
  function SkipSpaceBack(s: string, lo: nat, j: nat): (n: nat)
    requires lo <= j <= |s|
    ensures lo <= n <= j
    ensures forall k :: n <= k < j ==> IsSpace(s[k])
    ensures n > lo ==> !IsSpace(s[n - 1])
  {
    if j > lo && IsSpace(s[j - 1]) then SkipSpaceBack(s, lo, j - 1) else j
  }

  /** `s.trimStart()`: `s` after its leading white space. */
  function TrimStart(s: string): (r: string)
    ensures |r| <= |s| && r == s[|s| - |r|..]
    ensures r == [] || !IsSpace(r[0])
    ensures AllSpace(s[..|s| - |r|])
  {
    s[SkipSpace(s, 0)..]
  }

  /** `s.trimEnd()`: `s` before its trailing white space. */
  function TrimEnd(s: string): (r: string)
    ensures |r| <= |s| && r == s[..|r|]
    ensures r == [] || !IsSpace(r[|r| - 1])
    ensures AllSpace(s[|r|..])
  {
    var n := SkipSpaceBack(s, 0, |s|);
    var tail := s[n..];
    assert forall k :: 0 <= k < |tail| ==> tail[k] == s[n + k];
    s[..n]
  }

  /** `s.trim()`: the slice of `s` left after dropping white space at both ends. */
  function Trim(s: string): (r: string)
    ensures IsTrimmed(r)
    ensures |r| <= |s|
  {
    var i := SkipSpace(s, 0);
    s[i..SkipSpaceBack(s, i, |s|)]
  }

  /**
   * `Trim(s)` is the slice `s[i..i + |Trim(s)|]` where `i` counts the leading
   * white space that `TrimStart` drops: everything before and after it is
   * white space, and it neither starts nor ends with white space.
   */
  lemma TrimSlice(s: string)
    ensures var r := Trim(s);
      var i := |s| - |TrimStart(s)|;
      && 0 <= i && i + |r| <= |s| && r == s[i..i + |r|] && IsTrimmed(r)
      && AllSpace(s[..i]) && AllSpace(s[i + |r|..])
  {
    var i := SkipSpace(s, 0);
    var j := SkipSpaceBack(s, i, |s|);
    assert |TrimStart(s)| == |s| - i;
    assert Trim(s) == s[i..j];
    var tail := s[j..];
    assert forall k :: 0 <= k < |tail| ==> tail[k] == s[j + k];
  }

  /** Trimming changes nothing on a string without white space at its ends. */
  lemma TrimOfTrimmed(s: string)
    requires IsTrimmed(s)
    ensures Trim(s) == s
  {
    if s != [] {
      assert SkipSpace(s, 0) == 0;
      assert SkipSpaceBack(s, 0, |s|) == |s|;
    }
  }

  /** Position of the first `c` in `s`, or `|s|` when there is none. */
  function IndexOf(s: string, c: char): (i: nat)
    ensures i <= |s|
    ensures i < |s| ==> s[i] == c
    ensures forall k :: 0 <= k < i ==> s[k] != c
  {
    if s == [] then 0 else if s[0] == c then 0 else 1 + IndexOf(s[1..], c)
  }

  /** `s.split(sep)` for a one-character separator: the pieces between separators, at least one. */
  function Split(s: string, sep: char): (parts: seq<string>)
    ensures |parts| >= 1
    ensures forall k :: 0 <= k < |parts| ==> sep !in parts[k]
    decreases |s|
  {
    var i := IndexOf(s, sep);
    if i == |s| then [s] else [s[..i]] + Split(s[i + 1..], sep)
  }

  /** `parts.join(sep)`. */
  function Join(parts: seq<string>, sep: char): string {
    if |parts| == 0 then ""
    else if |parts| == 1 then parts[0]
    else parts[0] + [sep] + Join(parts[1..], sep)
  }

  /** Joining the pieces of a split with the same separator gives the string back. */
  lemma {:induction false} JoinSplit(s: string, sep: char)
    ensures Join(Split(s, sep), sep) == s
    decreases |s|
  {
    var i := IndexOf(s, sep);
    if i < |s| {
      var rest := Split(s[i + 1..], sep);
      JoinSplit(s[i + 1..], sep);
      assert Split(s, sep) == [s[..i]] + rest;
      JoinCons(s[..i], rest, sep);
      assert s == s[..i] + [sep] + s[i + 1..];
    }
  }

  lemma JoinCons(x: string, rest: seq<string>, sep: char)
    requires rest != []
    ensures Join([x] + rest, sep) == x + [sep] + Join(rest, sep)
  {
    assert ([x] + rest)[1..] == rest;
  }

  /** Trims every piece and keeps the non-empty ones: `.map((s) => s.trim()).filter(Boolean)`. */
  function TrimmedNonEmpty(pieces: seq<string>): (r: seq<string>)
    ensures forall k :: 0 <= k < |r| ==> r[k] != "" && IsTrimmed(r[k])
    ensures |r| <= |pieces|
  {
    if pieces == [] then []
    else
      var t := Trim(pieces[0]);
      var rest := TrimmedNonEmpty(pieces[1..]);
      if t != "" then KeptCons(t, rest); [t] + rest else rest
  }

  lemma KeptCons(t: string, rest: seq<string>)
    requires t != "" && IsTrimmed(t)
    requires forall k :: 0 <= k < |rest| ==> rest[k] != "" && IsTrimmed(rest[k])
    ensures forall k :: 0 <= k < |[t] + rest| ==> ([t] + rest)[k] != "" && IsTrimmed(([t] + rest)[k])
  {
    forall k | 0 <= k < |[t] + rest| ensures ([t] + rest)[k] != "" && IsTrimmed(([t] + rest)[k]) {
      if k > 0 {
        assert ([t] + rest)[k] == rest[k - 1];
      }
    }
  }

  /** A character that no piece contains is in no kept piece either. */
  lemma {:induction false} TrimmedNonEmptyAvoids(pieces: seq<string>, c: char)
    requires forall k :: 0 <= k < |pieces| ==> c !in pieces[k]
    ensures forall k :: 0 <= k < |TrimmedNonEmpty(pieces)| ==> c !in TrimmedNonEmpty(pieces)[k]
  {
    if pieces != [] {
      var t := Trim(pieces[0]);
      var rest := pieces[1..];
      assert c !in pieces[0];
      TrimIsSlice(pieces[0]);
      assert forall k :: 0 <= k < |rest| ==> rest[k] == pieces[k + 1];
      TrimmedNonEmptyAvoids(rest, c);
      AvoidsCons(if t != "" then [t] else [], TrimmedNonEmpty(rest), c);
    }
  }

  lemma AvoidsCons(front: seq<string>, rest: seq<string>, c: char)
    requires forall k :: 0 <= k < |front| ==> c !in front[k]
    requires forall k :: 0 <= k < |rest| ==> c !in rest[k]
    ensures forall k :: 0 <= k < |front + rest| ==> c !in (front + rest)[k]
  {
    forall k | 0 <= k < |front + rest| ensures c !in (front + rest)[k] {
      if k >= |front| {
        assert (front + rest)[k] == rest[k - |front|];
      }
    }
  }

  /** A string is kept exactly when it is the non-empty trim of some piece. */
  lemma {:induction false} InTrimmedNonEmpty(pieces: seq<string>, x: string)
    ensures x in TrimmedNonEmpty(pieces) <==> x != "" && exists k :: 0 <= k < |pieces| && Trim(pieces[k]) == x
  {
    if pieces != [] {
      var rest := pieces[1..];
      InTrimmedNonEmpty(rest, x);
      var t := Trim(pieces[0]);
      var front := if t != "" then [t] else [];
      assert TrimmedNonEmpty(pieces) == front + TrimmedNonEmpty(rest);
      assert x in TrimmedNonEmpty(pieces) <==> x in front || x in TrimmedNonEmpty(rest);
      SomePieceTrims(pieces, x);
    }
  }

  /** Some piece trims to `x` exactly when the first does or some later one does. */
  lemma SomePieceTrims(pieces: seq<string>, x: string)
    requires pieces != []
    ensures (exists k :: 0 <= k < |pieces| && Trim(pieces[k]) == x)
        <==> Trim(pieces[0]) == x || exists k :: 0 <= k < |pieces[1..]| && Trim(pieces[1..][k]) == x
  {
    var rest := pieces[1..];
    if exists k :: 0 <= k < |pieces| && Trim(pieces[k]) == x {
      var k :| 0 <= k < |pieces| && Trim(pieces[k]) == x;
      if k > 0 {
        assert Trim(rest[k - 1]) == x;
      }
    }
    if exists k :: 0 <= k < |rest| && Trim(rest[k]) == x {
      var k :| 0 <= k < |rest| && Trim(rest[k]) == x;
      assert Trim(pieces[k + 1]) == x;
    }
  }

  /** `s.split(',').map((x) => x.trim()).filter(Boolean)`: a comma-separated list. */
  function CommaList(s: string): (r: seq<string>)
    ensures forall k :: 0 <= k < |r| ==> r[k] != "" && IsTrimmed(r[k]) && ',' !in r[k]
  {
    var pieces := Split(s, ',');
    TrimmedNonEmptyAvoids(pieces, ',');
    TrimmedNonEmpty(pieces)
  }

  /** Every character of `Trim(s)` occurs in `s`. */
  lemma TrimIsSlice(s: string)
    ensures forall c :: c in Trim(s) ==> c in s
  {
    var i := SkipSpace(s, 0);
    var j := SkipSpaceBack(s, i, |s|);
    assert forall c :: c in s[i..j] ==> c in s;
  }

  predicate StartsWith(s: string, prefix: string) {
    |prefix| <= |s| && s[..|prefix|] == prefix
  }

  /** `toLowerCase` on ASCII letters; other characters are kept. */
  function LowerChar(c: char): (d: char)
    ensures 'A' <= c <= 'Z' ==> 'a' <= d <= 'z'
    ensures !('A' <= c <= 'Z') ==> d == c
  {
    if 'A' <= c <= 'Z' then (c as int + 32) as char else c
  }

  function ToLower(s: string): (r: string)
    ensures |r| == |s|
    ensures forall k :: 0 <= k < |s| ==> r[k] == LowerChar(s[k])
  {
    if s == [] then [] else [LowerChar(s[0])] + ToLower(s[1..])
  }

  /** The default order of `Array.prototype.sort`: lexicographic by character. */
  predicate LexLe(a: string, b: string) {
    a == [] || (b != [] && (a[0] < b[0] || (a[0] == b[0] && LexLe(a[1..], b[1..]))))
  }
}
