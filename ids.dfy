/**
 * Identifier strings: the decimal rendering used by the id generators (a kind's letter
 * followed by its incremented counter in decimal), the trimming applied to
 * imported attributes, and the per-input prefixes that keep cloned ids apart.
 */
module Ids {

  predicate IsDigit(c: char) {
    '0' <= c <= '9'
  }

  /** The decimal digit character of `d`. */
  function Digit(d: nat): (c: char)
    requires d < 10
    ensures IsDigit(c)
  {
    (48 + d) as char
  }

  /** `String.valueOf(n)` for a non-negative `n`: its decimal digits, most significant first. */
  function NatToString(n: nat): (s: string)
    ensures |s| >= 1 && (n >= 10 ==> |s| >= 2)
    ensures forall k :: 0 <= k < |s| ==> IsDigit(s[k])
  {
    if n < 10 then [Digit(n)] else NatToString(n / 10) + [Digit(n % 10)]
  }

  /** Different numbers have different decimal renderings. */
  lemma {:induction false} NatToStringInjective(m: nat, n: nat)
    requires NatToString(m) == NatToString(n)
    ensures m == n
  {
    var sm, sn := NatToString(m), NatToString(n);
    if m >= 10 && n >= 10 {
      assert sm[|sm| - 1] == Digit(m % 10) && sn[|sn| - 1] == Digit(n % 10);
      assert sm[..|sm| - 1] == NatToString(m / 10);
      assert sn[..|sn| - 1] == NatToString(n / 10);
      NatToStringInjective(m / 10, n / 10);
    } else if m < 10 && n < 10 {
      assert sm[0] == Digit(m) && sn[0] == Digit(n);
    }
  }

  /** The id generators' letters: places, transitions, arcs and interfaces. */
  const PLACE_LETTER := 'p'
  const TRANSITION_LETTER := 't'
  const ARC_LETTER := 'a'
  const INTERFACE_LETTER := 'i'

  /** The id produced by a generator with the given letter when its counter reaches `k`. */
  function GeneratedId(letter: char, k: nat): string {
    [letter] + NatToString(k)
  }

  /**
   * Two generated ids are equal exactly when they come from the same generator and the same
   * counter value: ids from one generator are pairwise distinct, and generators never collide.
   */
  lemma GeneratedIdsDistinct(c: char, m: nat, d: char, n: nat)
    ensures GeneratedId(c, m) == GeneratedId(d, n) <==> c == d && m == n
  {
    if GeneratedId(c, m) == GeneratedId(d, n) {
      assert c == GeneratedId(c, m)[0] && d == GeneratedId(d, n)[0];
      assert NatToString(m) == GeneratedId(c, m)[1..];
      assert NatToString(n) == GeneratedId(d, n)[1..];
      NatToStringInjective(m, n);
    }
  }

  predicate AllDigits(s: string) {
    forall k :: 0 <= k < |s| ==> IsDigit(s[k])
  }

  /** The number a non-empty string of decimal digits denotes. */
  function DecimalValue(s: string): nat
    requires |s| >= 1 && AllDigits(s)
  {
    var d := s[|s| - 1] as int - '0' as int;
    if |s| == 1 then d else DecimalValue(s[..|s| - 1]) * 10 + d
  }

  /** Reading back the decimal rendering of a number gives the number. */
  lemma {:induction false} DecimalValueOfNatToString(n: nat)
    ensures DecimalValue(NatToString(n)) == n
  {
    var s := NatToString(n);
    if n >= 10 {
      assert s[..|s| - 1] == NatToString(n / 10);
      assert s[|s| - 1] == Digit(n % 10);
      DecimalValueOfNatToString(n / 10);
    }
  }

  /**
   * The counter value a generator with `letter` would have used for `id`: the decimal value
   * after the letter when `id` is the letter followed by digits, and 0 for any other id.
   */
  function GeneratedIndex(letter: char, id: string): nat {
    if |id| >= 2 && id[0] == letter && AllDigits(id[1..]) then DecimalValue(id[1..]) else 0
  }

  /** A generated id gives back the counter value it was generated from. */
  lemma GeneratedIndexOf(letter: char, k: nat)
    ensures GeneratedIndex(letter, GeneratedId(letter, k)) == k
  {
    var id := GeneratedId(letter, k);
    assert id[1..] == NatToString(k);
    DecimalValueOfNatToString(k);
  }

  /** `Character.isWhitespace` is not what `String.trim` uses: it drops every char up to U+0020. */
  predicate IsTrimmed(c: char) {
    c <= ' '
  }

  /** `String.trim`: drops leading and trailing characters that are at most U+0020. */
  function Trim(s: string): string {
    var i := LeadingTrimmed(s);
    s[i..|s| - TrailingTrimmed(s[i..])]
  }

  /**
   * What `trim` promises: the result is a slice of the input, everything cut on either side
   * is at most U+0020, and a non-empty result starts and ends with a character above it.
   */
  lemma TrimIsSlice(s: string)
    ensures exists i, j ::
              && 0 <= i <= j <= |s| && Trim(s) == s[i..j]
              && (forall k :: 0 <= k < i ==> IsTrimmed(s[k]))
              && (forall k :: j <= k < |s| ==> IsTrimmed(s[k]))
    ensures Trim(s) != [] ==> !IsTrimmed(Trim(s)[0]) && !IsTrimmed(Trim(s)[|Trim(s)| - 1])
  {
    var i := LeadingTrimmed(s);
    var t := s[i..];
    var n := TrailingTrimmed(t);
    var j := |s| - n;
    var r := Trim(s);
    assert r == s[i..j];
    forall k | j <= k < |s|
      ensures IsTrimmed(s[k])
    {
      assert s[k] == t[k - i];
    }
    if r != [] {
      assert r[0] == t[0];
      assert r[|r| - 1] == t[|t| - 1 - n];
    }
  }

  /** The number of trailing characters `trim` removes. */
  function TrailingTrimmed(s: string): (n: nat)
    ensures n <= |s|
    ensures forall k :: |s| - n <= k < |s| ==> IsTrimmed(s[k])
    ensures n < |s| ==> !IsTrimmed(s[|s| - 1 - n])
  {
    if s != [] && IsTrimmed(s[|s| - 1]) then 1 + TrailingTrimmed(s[..|s| - 1]) else 0
  }

  /** The number of leading characters `trim` removes. */
  function LeadingTrimmed(s: string): (n: nat)
    ensures n <= |s|
    ensures forall k :: 0 <= k < n ==> IsTrimmed(s[k])
    ensures n < |s| ==> !IsTrimmed(s[n])
  {
    if s != [] && IsTrimmed(s[0]) then 1 + LeadingTrimmed(s[1..]) else 0
  }

  /**
   * A prefix scheme keeps cloned ids apart when no prefix is a prefix of another one
   * (which also makes the scheme injective).
   */
  ghost predicate PrefixFree(prefix: nat -> string) {
    forall i: nat, j: nat :: i != j ==> !(prefix(i) <= prefix(j))
  }

  /** The decimal scheme "1.", "2.", ... for the 1-based position of an input graph. */
  function DecimalPrefix(k: nat): string {
    NatToString(k) + "."
  }

  /** The decimal scheme is prefix-free, so a prefix-free scheme exists. */
  lemma DecimalPrefixIsPrefixFree()
    ensures PrefixFree(DecimalPrefix)
  {
    forall i: nat, j: nat | i != j
      ensures !(DecimalPrefix(i) <= DecimalPrefix(j))
    {
      var a, b := NatToString(i), NatToString(j);
      if DecimalPrefix(i) <= DecimalPrefix(j) {
        var pi, pj := DecimalPrefix(i), DecimalPrefix(j);
        assert pj[|a|] == pi[|a|] == '.';
        assert forall k :: 0 <= k < |b| ==> pj[k] == b[k];
        assert |a| >= |b|;
        assert a == DecimalPrefix(i)[..|a|] == DecimalPrefix(j)[..|b|] == b;
        NatToStringInjective(i, j);
      }
    }
  }

  /** Of two strings that are both prefixes of one string, the shorter is a prefix of the longer. */
  lemma PrefixesAreComparable(p: string, q: string, s: string)
    requires p <= s && q <= s
    ensures p <= q || q <= p
  {
    if |p| <= |q| {
      assert p == s[..|p|] == q[..|p|];
    } else {
      assert q == s[..|q|] == p[..|q|];
    }
  }

  /**
   * Under a prefix-free scheme a prefixed id determines both the position of the input graph
   * and the original id.
   */
  lemma PrefixedIdsDistinct(prefix: nat -> string, i: nat, j: nat, x: string, y: string)
    requires PrefixFree(prefix)
    ensures prefix(i) + x == prefix(j) + y <==> i == j && x == y
  {
    var s := prefix(i) + x;
    if s == prefix(j) + y {
      assert prefix(i) <= s && prefix(j) <= s;
      PrefixesAreComparable(prefix(i), prefix(j), s);
      assert i == j;
      assert x == s[|prefix(i)|..] == y;
    }
  }
}
