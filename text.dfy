/**
 * String primitives the core relies on, with the semantics of the runtime that
 * provides them: ECMAScript `String.prototype.trim`, `split` on a one-character
 * separator (the same as Python's `str.split(sep)`), `includes`, and lower-casing.
 * Strings are sequences of characters.
 */
module Text {

  // ---------------------------------------------------------------- trimming

  /** ECMAScript WhiteSpace and LineTerminator code points: what `trim` removes. */
  predicate IsJsSpace(c: char) {
    c == '\t' || c == '\n' || c == '\U{B}' || c == '\U{C}' || c == '\r' || c == ' ' ||
    c == '\U{A0}' || c == '\U{1680}' || ('\U{2000}' <= c <= '\U{200A}') ||
    c == '\U{2028}' || c == '\U{2029}' || c == '\U{202F}' || c == '\U{205F}' || c == '\U{3000}' ||
    c == '\U{FEFF}'
  }

  predicate AllSpace(s: string) {
    forall k :: 0 <= k < |s| ==> IsJsSpace(s[k])
  }

  /** `r` is `s` with a run of spaces removed at each end, `r` starting at offset `i`. */
  predicate TrimmedAt(s: string, r: string, i: nat) {
    i + |r| <= |s| && s[i..i + |r|] == r && AllSpace(s[..i]) && AllSpace(s[i + |r|..])
  }

  /** Index of the first non-space character, or |s|. */
  function LeadingEnd(s: string, i: nat): (e: nat)
    requires i <= |s|
    requires AllSpace(s[..i])
    ensures i <= e <= |s| && AllSpace(s[..e])
    ensures e < |s| ==> !IsJsSpace(s[e])
    decreases |s| - i
  {
    if i < |s| && IsJsSpace(s[i]) then
      assert s[..i + 1] == s[..i] + [s[i]];
      LeadingEnd(s, i + 1)
    else i
  }

  /** Index just after the last non-space character at or after `lo`, or `lo`. */
  function TrailingStart(s: string, lo: nat, j: nat): (b: nat)
    requires lo <= j <= |s|
    requires AllSpace(s[j..])
    ensures lo <= b <= j && AllSpace(s[b..])
    ensures b > lo ==> !IsJsSpace(s[b - 1])
    decreases j
  {
    if j > lo && IsJsSpace(s[j - 1]) then
      assert s[j - 1..] == [s[j - 1]] + s[j..];
      TrailingStart(s, lo, j - 1)
    else j
  }

  lemma AllSpaceSplit(s: string, i: nat, j: nat)
    requires i <= j <= |s|
    requires AllSpace(s[..i]) && AllSpace(s[j..]) && AllSpace(s[i..j])
    ensures AllSpace(s)
  {
    forall k | 0 <= k < |s| ensures IsJsSpace(s[k]) {
      if k < i { assert s[..i][k] == s[k]; }
      else if k < j { assert s[i..j][k - i] == s[k]; }
      else { assert s[j..][k - j] == s[k]; }
    }
  }

  /** ECMAScript `String.prototype.trim`. */
  function Trim(s: string): (r: string)
    ensures r == [] <==> AllSpace(s)
    ensures r != [] ==> !IsJsSpace(r[0]) && !IsJsSpace(r[|r| - 1])
  {
    var i := LeadingEnd(s, 0);
    var j := TrailingStart(s, i, |s|);
    assert TrimmedAt(s, s[i..j], i);
    assert AllSpace(s) ==> i == |s|;
    assert i == j ==> AllSpace(s) by {
      if i == j { AllSpaceSplit(s, i, j); }
    }
    s[i..j]
  }

  /** The trim sits in the string between a run of spaces on each side. */
  lemma TrimOffset(s: string) returns (i: nat)
    ensures TrimmedAt(s, Trim(s), i)
  {
    i := LeadingEnd(s, 0);
    var j := TrailingStart(s, i, |s|);
    assert Trim(s) == s[i..j];
  }

  /** A string that starts and ends with a non-space (or is empty) is its own trim. */
  lemma {:induction false} TrimOfTrimmed(s: string)
    requires s != [] ==> !IsJsSpace(s[0]) && !IsJsSpace(s[|s| - 1])
    ensures Trim(s) == s
  {
    var r := Trim(s);
    var i := TrimOffset(s);
    if s != [] {
      assert r != [];
      assert i == 0;
      assert i + |r| == |s|;
      assert s[0..|s|] == s;
    }
  }

  lemma AllSpaceConcat(a: string, b: string)
    requires AllSpace(a) && AllSpace(b)
    ensures AllSpace(a + b)
  {
    forall k | 0 <= k < |a + b| ensures IsJsSpace((a + b)[k]) {
      if k >= |a| { assert (a + b)[k] == b[k - |a|]; }
    }
  }

  /** Spaces in front of a string do not change its trim. */
  lemma {:induction false} TrimSkipsLeadingSpace(pre: string, s: string)
    requires AllSpace(pre)
    ensures Trim(pre + s) == Trim(s)
  {
    var r := Trim(s);
    var i := TrimOffset(s);
    TrimmedAfterSpace(pre, s, r, i);
    TrimUnique(pre + s, r, |pre| + i);
  }

  lemma TrimmedAfterSpace(pre: string, s: string, r: string, i: nat)
    requires AllSpace(pre) && TrimmedAt(s, r, i)
    ensures TrimmedAt(pre + s, r, |pre| + i)
  {
    var t := pre + s;
    assert t[..|pre| + i] == pre + s[..i];
    AllSpaceConcat(pre, s[..i]);
    assert t[|pre| + i + |r|..] == s[i + |r|..];
    assert t[|pre| + i..|pre| + i + |r|] == r;
  }

  /** A trimmed string placed in surrounding spaces is the trim of the whole. */
  lemma TrimUnique(s: string, r: string, i: nat)
    requires TrimmedAt(s, r, i)
    requires r != [] ==> !IsJsSpace(r[0]) && !IsJsSpace(r[|r| - 1])
    ensures Trim(s) == r
  {
    var r' := Trim(s);
    var i' := TrimOffset(s);
    if r == [] {
      AllSpaceSplit(s, i, i);
    } else {
      assert s[i] == r[0];
      assert s[i + |r| - 1] == r[|r| - 1];
      assert !AllSpace(s);
      assert s[i'] == r'[0];
      assert s[i' + |r'| - 1] == r'[|r'| - 1];
      assert i' == i;
      assert |r'| == |r|;
    }
  }

  /** Trimming twice is trimming once. */
  lemma TrimIdempotent(s: string)
    ensures Trim(Trim(s)) == Trim(s)
  {
    TrimOfTrimmed(Trim(s));
  }

  // ---------------------------------------------------------------- split / join

  /** `parts` joined with `sep` between consecutive elements. */
  function Join(parts: seq<string>, sep: char): (r: string)
    ensures |parts| >= 1 ==> parts[0] <= r
  {
    if |parts| == 0 then []
    else if |parts| == 1 then parts[0]
    else parts[0] + [sep] + Join(parts[1..], sep)
  }

  /** ECMAScript `s.split(sep)` / Python `s.split(sep)` for a one-character separator. */
  function Split(s: string, sep: char): (parts: seq<string>)
    ensures |parts| >= 1
    ensures parts[0] <= s && (|parts| == 1 <==> sep !in s)
    ensures forall k :: 0 <= k < |parts| ==> sep !in parts[k]
    ensures Join(parts, sep) == s
    decreases |s|
  {
    if sep !in s then [s]
    else
      var k := IndexOf(s, sep);
      var rest := Split(s[k + 1..], sep);
      assert s == s[..k] + [sep] + s[k + 1..];
      [s[..k]] + rest
  }

  /** Position of the first occurrence of `c` in `s`. */
  function IndexOf(s: string, c: char): (k: nat)
    requires c in s
    ensures k < |s| && s[k] == c && c !in s[..k]
  {
    if s[0] == c then 0
    else
      assert s == [s[0]] + s[1..];
      var k := IndexOf(s[1..], c);
      assert s[..k + 1] == [s[0]] + s[1..][..k];
      k + 1
  }

  /** Splitting inverts joining, for separator-free parts: the other half of the round trip. */
  lemma {:induction false} SplitJoin(parts: seq<string>, sep: char)
    requires |parts| >= 1
    requires forall k :: 0 <= k < |parts| ==> sep !in parts[k]
    ensures Split(Join(parts, sep), sep) == parts
    decreases |parts|
  {
    if |parts| == 1 {
    } else {
      var p, rest := parts[0], Join(parts[1..], sep);
      var s := Join(parts, sep);
      assert s == p + [sep] + rest;
      FirstSeparator(p, sep, rest);
      SplitJoin(parts[1..], sep);
      assert Split(s, sep) == [p] + Split(rest, sep);
      assert parts == [p] + parts[1..];
    }
  }

  /** In `p + [sep] + rest` with `sep` not in `p`, the first separator ends `p`. */
  lemma FirstSeparator(p: string, sep: char, rest: string)
    requires sep !in p
    ensures var s := p + [sep] + rest;
      sep in s && IndexOf(s, sep) == |p| && s[..|p|] == p && s[|p| + 1..] == rest
  {
    var s := p + [sep] + rest;
    assert s[|p|] == sep;
    var k := IndexOf(s, sep);
    assert s[..|p|] == p;
    assert s[|p| + 1..] == rest;
  }

  /** The number of occurrences of `c` in `s`. */
  function Count(s: string, c: char): nat
  {
    if s == [] then 0 else (if s[0] == c then 1 else 0) + Count(s[1..], c)
  }

  lemma {:induction false} CountAppend(a: string, b: string, c: char)
    ensures Count(a + b, c) == Count(a, c) + Count(b, c)
    decreases |a|
  {
    if a == [] {
      assert a + b == b;
    } else {
      assert (a + b)[1..] == a[1..] + b;
      CountAppend(a[1..], b, c);
    }
  }

  lemma {:induction false} CountAbsent(s: string, c: char)
    ensures Count(s, c) == 0 <==> c !in s
    decreases |s|
  {
    if s != [] {
      CountAbsent(s[1..], c);
      assert s == [s[0]] + s[1..];
    }
  }

  /** A string splits into exactly two parts on `sep` iff it holds `sep` exactly once. */
  lemma {:induction false} SplitTwoIffOneSeparator(s: string, sep: char)
    ensures |Split(s, sep)| == 2 <==> Count(s, sep) == 1
    decreases |s|
  {
    CountAbsent(s, sep);
    if sep in s {
      var k := IndexOf(s, sep);
      var rest := s[k + 1..];
      assert s == s[..k] + [sep] + rest;
      CountAppend(s[..k] + [sep], rest, sep);
      CountAppend(s[..k], [sep], sep);
      CountAbsent(s[..k], sep);
      assert Count([sep], sep) == 1 by { assert [sep][1..] == []; }
      CountAbsent(rest, sep);
      assert |Split(rest, sep)| == 1 <==> sep !in rest;
    }
  }

  // ---------------------------------------------------------------- search

  /** `w` occurs in `s` starting at position `i`. */
  predicate OccursAt(s: string, w: string, i: nat) {
    i + |w| <= |s| && s[i..i + |w|] == w
  }

  lemma OccursShift(s: string, w: string, i: nat)
    requires s != []
    ensures OccursAt(s[1..], w, i) <==> OccursAt(s, w, i + 1)
  {
    if i + 1 + |w| <= |s| {
      assert s[1..][i..i + |w|] == s[i + 1..i + 1 + |w|];
    }
  }

  /** ECMAScript `s.includes(w)`: a left-to-right scan for an occurrence. */
  function Includes(s: string, w: string): (b: bool)
    ensures b <==> exists i :: OccursAt(s, w, i)
    decreases |s|
  {
    if w <= s then
      assert OccursAt(s, w, 0);
      true
    else if s == [] then
      false
    else
      var b := Includes(s[1..], w);
      assert b ==> exists i :: OccursAt(s, w, i) by {
        if b {
          var i: nat :| OccursAt(s[1..], w, i);
          OccursShift(s, w, i);
        }
      }
      assert (exists i :: OccursAt(s, w, i)) ==> b by {
        if exists i :: OccursAt(s, w, i) {
          var i: nat :| OccursAt(s, w, i);
          assert i != 0;
          OccursShift(s, w, i - 1);
        }
      }
      b
  }

  // ---------------------------------------------------------------- case

  function LowerChar(c: char): (d: char)
    ensures 'A' <= c <= 'Z' ==> 'a' <= d <= 'z'
    ensures !('A' <= c <= 'Z') ==> d == c
  {
    if 'A' <= c <= 'Z' then (c as int + 32) as char else c
  }

  /** Lower-casing of the ASCII letters; every other character is kept. */
  function Lower(s: string): (r: string)
    ensures |r| == |s|
    ensures forall k :: 0 <= k < |s| ==> r[k] == LowerChar(s[k])
  {
    seq(|s|, k requires 0 <= k < |s| => LowerChar(s[k]))
  }
}
