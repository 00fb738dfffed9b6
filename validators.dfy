/**
 * The server's e-mail validator: an empty address is refused outright, anything
 * else must match `^[a-zA-Z0-9._%+-]+@[a-zA-Z0-9.-]+\.[a-zA-Z]{2,}$` from its
 * first character, where `$` matches at the very end or just before one final
 * newline.
 */
module Validators {
  import opened EmailChars
  import opened Text

  /** `s` is L '@' D '.' T with the '@' at `a` and the '.' before the top-level label at `d`. */
  predicate ShapeAt(s: string, a: nat, d: nat) {
    0 < a && a + 1 < d && d + 3 <= |s| &&
    RunOf(s, 0, a, Local) && s[a] == '@' && RunOf(s, a + 1, d, Domain) && s[d] == '.' &&
    RunOf(s, d + 1, |s|, Letters)
  }

  /** The whole of `s` is an address: what the pattern matches when `$` meets the end of `s`. */
  ghost predicate Shape(s: string) {
    exists a: nat, d: nat :: ShapeAt(s, a, d)
  }

  /** What `re.match` accepts: the shape, or the shape followed by one newline. */
  ghost predicate PatternMatch(s: string) {
    Shape(s) || (|s| > 0 && s[|s| - 1] == '\n' && Shape(s[..|s| - 1]))
  }

  /**
   * The shape, decided by two maximal runs: the local part is the longest run of its
   * class from the start, and the top-level label the longest run of letters at the end.
   */
  function ShapeOk(s: string): (b: bool)
    ensures b ==> |s| >= 6 && '@' in s
  {
    var a := RunEnd(s, 0, Local);
    var t := RunStart(s, |s|, Letters);
    0 < a < |s| && s[a] == '@' && a + 2 < t && |s| - t >= 2 && s[t - 1] == '.' &&
    RunEnd(s, a + 1, Domain) >= t - 1
  }

  lemma ShapeOkCorrect(s: string)
    ensures ShapeOk(s) <==> Shape(s)
  {
    var a := RunEnd(s, 0, Local);
    var t := RunStart(s, |s|, Letters);
    if ShapeOk(s) {
      assert ShapeAt(s, a, t - 1);
    }
    if Shape(s) {
      var a': nat, d': nat :| ShapeAt(s, a', d');
      assert a == a';
      assert t == d' + 1;
      var e := RunEnd(s, a + 1, Domain);
      assert e >= d';
    }
  }

  /** `re.match` of the anchored pattern: the shape, or the shape and one final newline. */
  function Matches(s: string): (b: bool)
    ensures b ==> |s| >= 6 && '@' in s
  {
    ShapeOk(s) || (|s| > 0 && s[|s| - 1] == '\n' && ShapeOk(s[..|s| - 1]))
  }

  /** `validate_email`: whether the address is accepted, and the error message ("" when it is). */
  function ValidateEmail(email: string): (r: (bool, string))
    ensures r.0 <==> r.1 == []
    ensures r.0 ==> |email| >= 6 && '@' in email
  {
    if email == [] then (false, "Email cannot be empty")
    else if Matches(email) then (true, "")
    else (false, "Invalid email format")
  }

  /**
   * The empty address gets its own message; any other address is accepted exactly
   * when it matches the pattern, and the message is empty exactly when it is accepted.
   */
  lemma ValidateEmailCorrect(email: string)
    ensures ValidateEmail(email).0 <==> PatternMatch(email)
    ensures ValidateEmail(email).1 == [] <==> ValidateEmail(email).0
    ensures email == [] ==> ValidateEmail(email) == (false, "Email cannot be empty")
    ensures email != [] && !PatternMatch(email) ==> ValidateEmail(email) == (false, "Invalid email format")
  {
    ShapeOkCorrect(email);
    if |email| > 0 {
      ShapeOkCorrect(email[..|email| - 1]);
    }
  }

  /** An address with the shape ends in a letter. */
  lemma ShapeEndsInLetter(s: string)
    requires Shape(s)
    ensures s != [] && IsLetter(s[|s| - 1])
  {
    var a, d :| ShapeAt(s, a, d);
    assert InClass(s[|s| - 1], Letters);
  }

  /** One trailing newline is tolerated, a second one is not. */
  lemma TrailingNewline(s: string)
    ensures ValidateEmail(s + "\n").0 <==> Shape(s)
    ensures !ValidateEmail(s + "\n\n").0
  {
    var s1 := s + "\n";
    var s2 := s + "\n\n";
    ValidateEmailCorrect(s1);
    ValidateEmailCorrect(s2);
    assert s1[..|s1| - 1] == s;
    assert s2[..|s2| - 1] == s1;
    if Shape(s1) {
      ShapeEndsInLetter(s1);
    }
    if Shape(s2) {
      ShapeEndsInLetter(s2);
    }
  }

  /** The part of an accepted address that the pattern itself covers. */
  function Core(email: string): string {
    if ShapeOk(email) || email == [] then email else email[..|email| - 1]
  }

  /**
   * An accepted address holds exactly one '@', and its last '.'-separated label is
   * at least two letters: the '.' at `d` is the last one.
   */
  lemma AcceptedShape(email: string) returns (a: nat, d: nat)
    requires ValidateEmail(email).0
    ensures ShapeAt(Core(email), a, d)
    ensures Count(email, '@') == 1
    ensures '.' !in Core(email)[d + 1..] && |Core(email)| - (d + 1) >= 2
  {
    var core := Core(email);
    assert ShapeOk(core);
    ShapeOkCorrect(core);
    a, d :| ShapeAt(core, a, d);
    LastLabelHasNoDot(core, a, d);
    OneAt(core, a, d);
    if core != email {
      assert email == core + ['\n'];
      CountAppend(core, ['\n'], '@');
      assert Count(['\n'], '@') == 0;
    }
  }

  lemma LastLabelHasNoDot(s: string, a: nat, d: nat)
    requires ShapeAt(s, a, d)
    ensures '.' !in s[d + 1..]
  {
    forall k | d + 1 <= k < |s| ensures s[k] != '.' {
      assert InClass(s[k], Letters);
    }
  }

  lemma OneAt(s: string, a: nat, d: nat)
    requires ShapeAt(s, a, d)
    ensures Count(s, '@') == 1
  {
    forall k | 0 <= k < a ensures s[k] != '@' {
      assert InClass(s[k], Local);
    }
    forall k | a < k < |s| ensures s[k] != '@' {
      if k < d {
        assert InClass(s[k], Domain);
      } else if k > d {
        assert InClass(s[k], Letters);
      }
    }
    assert '@' !in s[..a];
    assert '@' !in s[a + 1..];
    assert s == s[..a] + [s[a]] + s[a + 1..];
    CountAppend(s[..a] + [s[a]], s[a + 1..], '@');
    CountAppend(s[..a], [s[a]], '@');
    CountAbsent(s[..a], '@');
    CountAbsent(s[a + 1..], '@');
    assert Count([s[a]], '@') == 1;
  }
}
