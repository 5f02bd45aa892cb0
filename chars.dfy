/** Shared value types and the string primitives that the TypeScript and Rust
    sources take from their standard libraries (lower-casing, whitespace,
    `indexOf`/`find`, `trim`, `replace`). Characters are ASCII: lower-casing
    and whitespace are modelled on that range only. */
module Chars {

  datatype Option<T> = None | Some(value: T)

  datatype Result<T> = Ok(value: T) | Err(reason: string)

  /** `toLowerCase` / `to_lowercase` on one ASCII character. */
  function LowerChar(c: char): char
  {
    if 'A' <= c <= 'Z' then (c as int + 32) as char else c
  }

  /** `toLowerCase` / `to_lowercase` on an ASCII string: same length, char by char. */
  function Lower(s: string): (r: string)
    ensures |r| == |s|
    ensures forall i :: 0 <= i < |s| ==> r[i] == LowerChar(s[i])
  {
    seq(|s|, i requires 0 <= i < |s| => LowerChar(s[i]))
  }

  lemma LowerIdempotent(s: string)
    ensures Lower(Lower(s)) == Lower(s)
  {
    assert forall i :: 0 <= i < |s| ==> LowerChar(LowerChar(s[i])) == LowerChar(s[i]);
  }

  lemma LowerAppend(a: string, b: string)
    ensures Lower(a + b) == Lower(a) + Lower(b)
  {
    assert forall i :: 0 <= i < |a + b| ==> Lower(a + b)[i] == (Lower(a) + Lower(b))[i];
  }

  /** The ASCII part of JavaScript's `\s` and of Rust's `char::is_whitespace`. */
  predicate IsWhitespace(c: char)
  {
    c == ' ' || c == '\t' || c == '\n' || c == '\r' || c == '\U{000B}' || c == '\U{000C}'
  }

  /** `pat` occurs in `s` starting at index `i`. */
  predicate OccursAt(pat: string, s: string, i: int)
  {
    0 <= i && i + |pat| <= |s| && s[i..i + |pat|] == pat
  }

  /** Index of the first occurrence of `pat` in `s`, or -1: JavaScript's
      `indexOf` (with `includes` as `IndexOf(..) >= 0`) and Rust's `str::find`. */
  function IndexOf(pat: string, s: string): (r: int)
    ensures r >= -1
    ensures r >= 0 ==> OccursAt(pat, s, r) && forall j :: 0 <= j < r ==> !OccursAt(pat, s, j)
    ensures r == -1 ==> forall j :: !OccursAt(pat, s, j)
  {
    IndexFrom(pat, s, 0)
  }

  function IndexFrom(pat: string, s: string, from: nat): (r: int)
    ensures r == -1 || (from <= r && OccursAt(pat, s, r))
    ensures r >= 0 ==> forall j :: from <= j < r ==> !OccursAt(pat, s, j)
    ensures r == -1 ==> forall j :: from <= j ==> !OccursAt(pat, s, j)
    decreases |s| + 1 - from
  {
    if from + |pat| > |s| then -1
    else if s[from..from + |pat|] == pat then from
    else IndexFrom(pat, s, from + 1)
  }

  /** Index of the first `c` in `s`, or -1: Rust's `str::find` with a `char`. */
  function FindChar(c: char, s: string): (r: int)
    ensures -1 <= r < |s|
    ensures r >= 0 ==> s[r] == c && forall j :: 0 <= j < r ==> s[j] != c
    ensures r == -1 ==> c !in s
  {
    if s == [] then -1
    else if s[0] == c then 0
    else
      var k := FindChar(c, s[1..]);
      if k < 0 then -1 else k + 1
  }

  predicate StartsWith(s: string, prefix: string)
  {
    |prefix| <= |s| && s[..|prefix|] == prefix
  }

  /** Rust's `trim_start`: drops the leading whitespace. */
  function TrimStart(s: string): (r: string)
    ensures |r| <= |s| && r == s[|s| - |r|..]
    ensures forall i :: 0 <= i < |s| - |r| ==> IsWhitespace(s[i])
    ensures r == [] || !IsWhitespace(r[0])
  {
    if s != [] && IsWhitespace(s[0]) then TrimStart(s[1..]) else s
  }

  /** Rust's `trim_end`: drops the trailing whitespace. */
  function TrimEnd(s: string): (r: string)
    ensures |r| <= |s| && r == s[..|r|]
    ensures forall i :: |r| <= i < |s| ==> IsWhitespace(s[i])
    ensures r == [] || !IsWhitespace(r[|r| - 1])
  {
    if s != [] && IsWhitespace(s[|s| - 1]) then TrimEnd(s[..|s| - 1]) else s
  }

  /** `r` is the slice of `s` starting at `i`, with only whitespace before
      and after it. */
  predicate TrimsTo(s: string, i: int, r: string)
  {
    && OccursAt(r, s, i)
    && (forall k :: 0 <= k < i ==> IsWhitespace(s[k]))
    && (forall k :: i + |r| <= k < |s| ==> IsWhitespace(s[k]))
  }

  /** Rust's `trim`: the longest slice that neither starts nor ends with
      whitespace; what it drops at either end is whitespace only. */
  function Trim(s: string): (r: string)
    ensures r == [] || (!IsWhitespace(r[0]) && !IsWhitespace(r[|r| - 1]))
    ensures exists i :: TrimsTo(s, i, r)
  {
    var head := TrimStart(s);
    var r := TrimEnd(head);
    TrimEndOfSuffix(s, head, r);
    r
  }

  lemma TrimEndOfSuffix(s: string, head: string, r: string)
    requires |head| <= |s| && head == s[|s| - |head|..]
    requires forall k :: 0 <= k < |s| - |head| ==> IsWhitespace(s[k])
    requires |r| <= |head| && r == head[..|r|]
    requires forall k :: |r| <= k < |head| ==> IsWhitespace(head[k])
    ensures TrimsTo(s, |s| - |head|, r)
  {
    var i := |s| - |head|;
    SliceOfSuffix(s, i, |r|);
    forall k | i + |r| <= k < |s| ensures IsWhitespace(s[k]) {
      assert s[k] == head[k - i];
    }
  }

  /** Trimming leaves nothing exactly when there is nothing but whitespace. */
  lemma TrimEmpty(s: string)
    ensures Trim(s) == [] <==> forall k :: 0 <= k < |s| ==> IsWhitespace(s[k])
  {
    var r := Trim(s);
    var i :| TrimsTo(s, i, r);
    if r != [] {
      assert s[i..i + |r|][0] == s[i];
    }
  }

  lemma SliceOfSuffix(s: string, k: nat, n: nat)
    requires k + n <= |s|
    ensures s[k..][..n] == s[k..k + n]
  {
  }

  /** Rust's `str::replace` and JavaScript's `replaceAll` with a non-empty
      pattern: every occurrence, scanning left to right without overlaps. */
  function ReplaceAll(s: string, from: string, to: string): string
    requires from != []
    decreases |s|
  {
    if |s| < |from| then s
    else if s[..|from|] == from then to + ReplaceAll(s[|from|..], from, to)
    else [s[0]] + ReplaceAll(s[1..], from, to)
  }

  /** Replacing a pattern that does not occur changes nothing. */
  lemma {:induction false} ReplaceAllAbsent(s: string, from: string, to: string)
    requires from != []
    requires forall i :: !OccursAt(from, s, i)
    ensures ReplaceAll(s, from, to) == s
    decreases |s|
  {
    if |s| >= |from| {
      assert !OccursAt(from, s, 0);
      forall i ensures !OccursAt(from, s[1..], i) {
        if OccursAt(from, s[1..], i) {
          assert s[1..][i..i + |from|] == s[i + 1..i + 1 + |from|];
          assert OccursAt(from, s, i + 1);
        }
      }
      ReplaceAllAbsent(s[1..], from, to);
    }
  }

  /** A pattern whose first character is missing from `s` does not occur in it. */
  lemma ReplaceAllWithoutLead(s: string, from: string, to: string)
    requires from != [] && from[0] !in s
    ensures ReplaceAll(s, from, to) == s
  {
    forall i ensures !OccursAt(from, s, i) {
      if 0 <= i && i + |from| <= |s| {
        assert s[i..i + |from|][0] == s[i] && s[i] in s;
      }
    }
    ReplaceAllAbsent(s, from, to);
  }

  /** A character that cannot start the pattern is copied as is. */
  lemma ReplaceAllSkip(c: char, rest: string, from: string, to: string)
    requires from != [] && c != from[0]
    ensures ReplaceAll([c] + rest, from, to) == [c] + ReplaceAll(rest, from, to)
  {
    var s := [c] + rest;
    assert s[1..] == rest;
    if |s| >= |from| {
      assert s[..|from|][0] == c;
    }
  }

  /** A prefix that does not hold the pattern's first character is copied as is. */
  lemma {:induction false} ReplaceAllAfterPlain(a: string, b: string, from: string, to: string)
    requires from != [] && from[0] !in a
    ensures ReplaceAll(a + b, from, to) == a + ReplaceAll(b, from, to)
    decreases |a|
  {
    if a == [] {
      assert a + b == b;
    } else {
      var rest := a[1..] + b;
      var tail := ReplaceAll(b, from, to);
      assert a[0] in a;
      assert a + b == [a[0]] + rest;
      ReplaceAllSkip(a[0], rest, from, to);
      ReplaceAllAfterPlain(a[1..], b, from, to);
      assert [a[0]] + (a[1..] + tail) == a + tail;
    }
  }

}
