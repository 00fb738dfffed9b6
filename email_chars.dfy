/**
 * The ASCII character classes that both e-mail patterns of the system are built
 * from, and maximal runs of one class. Neither pattern uses a case-insensitive
 * flag, so letters are the 52 ASCII letters and nothing else.
 */
module EmailChars {

  predicate IsLetter(c: char) { 'A' <= c <= 'Z' || 'a' <= c <= 'z' }

  predicate IsDigit(c: char) { '0' <= c <= '9' }

  /** A character class of the patterns. */
  datatype Class =
    | Local    // [A-Za-z0-9._%+-], the part before '@'
    | Domain   // [A-Za-z0-9.-], the domain labels
    | Tld      // [A-Z|a-z], the widget's top-level label: the '|' is a literal member
    | Letters  // [a-zA-Z], the server's top-level label

  predicate InClass(c: char, k: Class) {
    match k
    case Local => IsLetter(c) || IsDigit(c) || c == '.' || c == '_' || c == '%' || c == '+' || c == '-'
    case Domain => IsLetter(c) || IsDigit(c) || c == '.' || c == '-'
    case Tld => IsLetter(c) || c == '|'
    case Letters => IsLetter(c)
  }

  /** Every character of s[lo..hi] belongs to class k. */
  predicate RunOf(s: string, lo: nat, hi: nat, k: Class) {
    lo <= hi <= |s| && forall p :: lo <= p < hi ==> InClass(s[p], k)
  }

  /** End of the longest run of class k that starts at lo (what a greedy `+` first tries). */
  function RunEnd(s: string, lo: nat, k: Class): (e: nat)
    requires lo <= |s|
    ensures lo <= e <= |s| && RunOf(s, lo, e, k)
    ensures e < |s| ==> !InClass(s[e], k)
    decreases |s| - lo
  {
    if lo < |s| && InClass(s[lo], k) then RunEnd(s, lo + 1, k) else lo
  }

  /** Start of the longest run of class k that ends at hi. */
  function RunStart(s: string, hi: nat, k: Class): (b: nat)
    requires hi <= |s|
    ensures b <= hi && RunOf(s, b, hi, k)
    ensures b > 0 ==> !InClass(s[b - 1], k)
    decreases hi
  {
    if hi > 0 && InClass(s[hi - 1], k) then
      var b := RunStart(s, hi - 1, k);
      b
    else hi
  }

  /** No run of class k can reach past the first character outside it. */
  lemma RunStopsAtOutsider(s: string, lo: nat, hi: nat, k: Class, p: nat)
    requires RunOf(s, lo, hi, k) && lo <= p < |s| && !InClass(s[p], k)
    ensures hi <= p
  {
  }
}
