/**
 * The chat widget's e-mail pattern
 *
 *     \b[A-Za-z0-9._%+-]+@[A-Za-z0-9.-]+\.[A-Z|a-z]{2,}\b
 *
 * applied without anchors and without the global flag, as `String.prototype.match`
 * does: the result is the first match found by the backtracking engine, which tries
 * start positions from left to right and, at a start, prefers longer runs for each
 * greedy quantifier in turn.
 *
 * `IsMatch` states what a match is, as a predicate over characters. `FirstMatch`
 * follows the engine's search order, and `FirstMatchIsLeftmostLongest` proves that
 * what it finds is the match with the leftmost start and, at that start, the
 * greatest end: the engine's preference order and "longest" coincide for this
 * pattern, because every candidate for the dot before the top-level label ends
 * any top-level label that starts earlier.
 */
module EmailPattern {
  import opened Wrappers
  import opened EmailChars

  /** JavaScript's `\w` without the unicode flag: [A-Za-z0-9_]. */
  predicate IsWordChar(c: char) { IsLetter(c) || IsDigit(c) || c == '_' }

  predicate WordAt(s: string, p: int) { 0 <= p < |s| && IsWordChar(s[p]) }

  /** `\b` at position p: a word character on exactly one side. */
  predicate Boundary(s: string, p: int) { WordAt(s, p - 1) != WordAt(s, p) }

  /** The address shape on s[i..j]: local part s[i..a], '@' at a, domain s[a+1..d], '.' at d, label s[d+1..j]. */
  predicate SplitAt(s: string, i: nat, a: nat, d: nat, j: nat) {
    i < a && a + 1 < d && d + 3 <= j <= |s| &&
    RunOf(s, i, a, Local) && s[a] == '@' &&
    RunOf(s, a + 1, d, Domain) && s[d] == '.' &&
    RunOf(s, d + 1, j, Tld)
  }

  /** s[i..j] is a match of the pattern. */
  ghost predicate IsMatch(s: string, i: nat, j: nat) {
    Boundary(s, i) && Boundary(s, j) && exists a: nat, d: nat :: SplitAt(s, i, a, d, j)
  }

  /** s contains a match somewhere. */
  ghost predicate HasMatch(s: string) {
    exists i: nat, j: nat :: IsMatch(s, i, j)
  }

  /** s[i..j] is the match the engine reports: leftmost start, and the longest match there. */
  ghost predicate LeftmostLongest(s: string, i: nat, j: nat) {
    IsMatch(s, i, j) &&
    (forall i': nat, j': nat :: i' < i ==> !IsMatch(s, i', j')) &&
    (forall j': nat :: IsMatch(s, i, j') ==> j' <= j)
  }

  /** The tail after '@' at a: domain s[a+1..d], '.' at d, label s[d+1..t], then `\b`. */
  predicate TailAt(s: string, a: nat, d: nat, t: nat) {
    a + 1 < d && d + 3 <= t <= |s| &&
    RunOf(s, a + 1, d, Domain) && s[d] == '.' && RunOf(s, d + 1, t, Tld) && Boundary(s, t)
  }

  /** The label quantifier `{2,}` backtracking from its longest run: the largest t in [lo, hi] followed by `\b`. */
  function LastBoundary(s: string, lo: nat, hi: int): (r: Option<nat>)
    requires hi <= |s|
    ensures r.Some? ==> lo <= r.value <= hi && Boundary(s, r.value)
    ensures r.Some? ==> forall p: nat :: r.value < p <= hi ==> !Boundary(s, p)
    ensures r.None? ==> forall p: nat :: lo <= p <= hi ==> !Boundary(s, p)
    decreases hi - lo
  {
    if hi < lo then None
    else if Boundary(s, hi) then Some(hi)
    else LastBoundary(s, lo, hi - 1)
  }

  /** The domain quantifier backtracking from its longest run: dot candidates d, d-1, ..., a+2. */
  function DotSearch(s: string, a: nat, d: nat): (r: Option<(nat, nat)>)
    requires a + 1 <= d <= |s| && RunOf(s, a + 1, d, Domain)
    ensures r.Some? ==> r.value.0 <= d && TailAt(s, a, r.value.0, r.value.1)
    ensures r.Some? ==> forall d': nat, t': nat :: d' <= d && TailAt(s, a, d', t') ==> t' <= r.value.1
    ensures r.None? ==> forall d': nat, t': nat :: d' <= d ==> !TailAt(s, a, d', t')
    decreases d
  {
    if d < a + 2 then None
    else
      var found :=
        if d < |s| && s[d] == '.' then LastBoundary(s, d + 3, RunEnd(s, d + 1, Tld)) else None;
      if found.Some? then
        var t := found.value;
        TailsAtLowerDotsEndEarlier(s, a, d, t);
        Some((d, t))
      else
        DotSearch(s, a, d - 1)
  }

  /** A tail whose dot lies left of d ends no later than d, since '.' is outside the label class. */
  lemma TailsAtLowerDotsEndEarlier(s: string, a: nat, d: nat, t: nat)
    requires TailAt(s, a, d, t)
    ensures forall d': nat, t': nat :: d' < d && TailAt(s, a, d', t') ==> t' <= d
  {
    forall d': nat, t': nat | d' < d && TailAt(s, a, d', t') ensures t' <= d {
      RunStopsAtOutsider(s, d' + 1, t', Tld, d);
    }
  }

  /** The end of the match the engine finds at start i, if any. */
  function MatchEnd(s: string, i: nat): (r: Option<nat>)
    requires i <= |s|
    ensures r.Some? ==> i < r.value <= |s|
  {
    if !Boundary(s, i) then None
    else
      var a := RunEnd(s, i, Local);
      if i < a && a < |s| && s[a] == '@' then
        var found := DotSearch(s, a, RunEnd(s, a + 1, Domain));
        if found.Some? then Some(found.value.1) else None
      else None
  }

  /** At a fixed start, MatchEnd finds a match iff there is one, and then the longest. */
  lemma MatchEndCorrect(s: string, i: nat)
    requires i <= |s|
    ensures MatchEnd(s, i).Some? ==> IsMatch(s, i, MatchEnd(s, i).value)
    ensures MatchEnd(s, i).Some? ==> forall j: nat :: IsMatch(s, i, j) ==> j <= MatchEnd(s, i).value
    ensures MatchEnd(s, i).None? ==> forall j: nat :: !IsMatch(s, i, j)
  {
    var a := RunEnd(s, i, Local);
    // Any match at i splits at the end of the local run, with its dot inside the domain run.
    forall j: nat | IsMatch(s, i, j)
      ensures a < |s| && s[a] == '@' && i < a
      ensures TailAt(s, a, MatchDot(s, i, j), j) && MatchDot(s, i, j) <= RunEnd(s, a + 1, Domain)
    {
      var a', d' :| SplitAt(s, i, a', d', j);
      RunStopsAtOutsider(s, i, a', Local, a');
      assert a' == a;
      MatchDotIs(s, i, j, a', d');
    }
    if MatchEnd(s, i).Some? {
      var e := RunEnd(s, a + 1, Domain);
      var found := DotSearch(s, a, e);
      assert SplitAt(s, i, a, found.value.0, found.value.1);
    }
  }

  /** The dot of a match, as a function of its ends (it is unique: the label holds no '.'). */
  function MatchDot(s: string, i: nat, j: nat): nat
  {
    if j <= |s| then
      var b := RunStart(s, j, Tld);
      if b > 0 then b - 1 else 0
    else 0
  }

  lemma MatchDotIs(s: string, i: nat, j: nat, a: nat, d: nat)
    requires SplitAt(s, i, a, d, j)
    ensures MatchDot(s, i, j) == d
  {
    var b := RunStart(s, j, Tld);
    assert !InClass(s[d], Tld);
    assert b == d + 1;
  }

  /** The engine's scan over start positions i, i+1, ..., |s|. */
  function FirstMatchFrom(s: string, i: nat): (r: Option<(nat, nat)>)
    requires i <= |s|
    ensures r.Some? ==> i <= r.value.0 < r.value.1 <= |s|
    decreases |s| - i
  {
    var e := MatchEnd(s, i);
    if e.Some? then Some((i, e.value))
    else if i < |s| then FirstMatchFrom(s, i + 1)
    else None
  }

  function FirstMatch(s: string): (r: Option<(nat, nat)>)
    ensures r.Some? ==> r.value.0 < r.value.1 <= |s|
  {
    FirstMatchFrom(s, 0)
  }

  lemma {:induction false} FirstMatchFromCorrect(s: string, i: nat)
    requires i <= |s|
    ensures FirstMatchFrom(s, i).Some? ==>
      var (b, e) := FirstMatchFrom(s, i).value;
      i <= b && IsMatch(s, b, e) && (forall j: nat :: IsMatch(s, b, j) ==> j <= e) &&
      forall b': nat, j: nat :: i <= b' < b ==> !IsMatch(s, b', j)
    ensures FirstMatchFrom(s, i).None? ==> forall b': nat, j: nat :: i <= b' ==> !IsMatch(s, b', j)
    decreases |s| - i
  {
    MatchEndCorrect(s, i);
    var e := MatchEnd(s, i);
    if e.Some? {
      assert FirstMatchFrom(s, i) == Some((i, e.value));
    } else if i < |s| {
      assert FirstMatchFrom(s, i) == FirstMatchFrom(s, i + 1);
      FirstMatchFromCorrect(s, i + 1);
      var r := FirstMatchFrom(s, i + 1);
      if r.Some? {
        forall b': nat, j: nat | i <= b' < r.value.0 ensures !IsMatch(s, b', j) {
          if b' == i {
            assert !IsMatch(s, i, j);
          }
        }
      } else {
        forall b': nat, j: nat | i <= b' ensures !IsMatch(s, b', j) {
          if b' == i {
            assert !IsMatch(s, i, j);
          }
        }
      }
    } else {
      assert FirstMatchFrom(s, i) == None;
      forall b': nat, j: nat | i <= b' ensures !IsMatch(s, b', j) {
        if b' == i {
          assert !IsMatch(s, i, j);
        }
      }
    }
  }

  /** The engine's answer is the leftmost-longest match, and it answers whenever a match exists. */
  lemma FirstMatchIsLeftmostLongest(s: string)
    ensures FirstMatch(s).Some? ==> LeftmostLongest(s, FirstMatch(s).value.0, FirstMatch(s).value.1)
    ensures FirstMatch(s).None? <==> !HasMatch(s)
  {
    FirstMatchFromCorrect(s, 0);
  }

  /** `message.match(emailPattern)?.[0]`: the first address in the message, if any. */
  function Extract(message: string): (r: Option<string>)
    ensures r.Some? ==> |r.value| >= 6 && '@' in r.value
  {
    var m := FirstMatch(message);
    if m.Some? then
      FirstMatchIsLeftmostLongest(message);
      MatchShape(message, m.value.0, m.value.1);
      Some(message[m.value.0..m.value.1])
    else None
  }

  /** A match is at least six characters long ("a@b.co") and holds an '@'. */
  lemma MatchShape(s: string, i: nat, j: nat)
    requires IsMatch(s, i, j)
    ensures i + 6 <= j <= |s| && '@' in s[i..j]
  {
    var a: nat, d: nat :| SplitAt(s, i, a, d, j);
    assert s[i..j][a - i] == '@';
  }

  /** Extract finds an address iff the message holds one, and then the leftmost-longest match. */
  lemma ExtractCorrect(message: string)
    ensures Extract(message).None? <==> !HasMatch(message)
    ensures Extract(message).Some? ==>
      exists i: nat, j: nat :: LeftmostLongest(message, i, j) && Extract(message).value == message[i..j]
  {
    FirstMatchIsLeftmostLongest(message);
    var m := FirstMatch(message);
    if m.Some? {
      assert LeftmostLongest(message, m.value.0, m.value.1);
    }
  }
}
