/**
 * The few Python string builtins the extractor relies on, over `string`
 * (Dafny's `seq<char>`, one element per Unicode code point as in Python):
 * `str.startswith`, the substring test `t in s`, and the decimal rendering
 * of a positive integer inside an f-string.
 */
module Text {

  /** The characters of `t` from position `j` on appear in `s` from
      position `i + j` on. */
  predicate MatchesFrom(s: string, t: string, i: nat, j: nat)
    decreases |t| - j
  {
    if |t| <= j then i + |t| <= |s|
    else i + j < |s| && s[i + j] == t[j] && MatchesFrom(s, t, i, j + 1)
  }

  /** `t` occurs in `s` starting exactly at offset `i`. */
  predicate OccursAt(s: string, t: string, i: nat)
  {
    MatchesFrom(s, t, i, 0)
  }

  /** `s.startswith(prefix)` */
  predicate StartsWith(s: string, prefix: string)
  {
    OccursAt(s, prefix, 0)
  }

  /** `t` occurs in `s` at some offset `i` or later. */
  predicate ContainsFrom(s: string, t: string, i: nat)
    decreases |s| - i
  {
    OccursAt(s, t, i) || (i < |s| && ContainsFrom(s, t, i + 1))
  }

  /** `t in s` for two strings. */
  predicate Contains(s: string, t: string)
  {
    ContainsFrom(s, t, 0)
  }

  lemma {:induction false} MatchesFromSlice(s: string, t: string, i: nat, j: nat)
    requires j <= |t|
    ensures MatchesFrom(s, t, i, j) <==> i + |t| <= |s| && s[i + j..i + |t|] == t[j..]
    decreases |t| - j
  {
    if j < |t| {
      MatchesFromSlice(s, t, i, j + 1);
      if i + |t| <= |s| {
        assert s[i + j..i + |t|] == [s[i + j]] + s[i + j + 1..i + |t|];
        assert t[j..] == [t[j]] + t[j + 1..];
      }
    }
  }

  /** An occurrence at `i` is a slice of `s` equal to `t`. */
  lemma OccursAtSlice(s: string, t: string, i: nat)
    ensures OccursAt(s, t, i) <==> i + |t| <= |s| && s[i..i + |t|] == t
  {
    MatchesFromSlice(s, t, i, 0);
  }

  /** `StartsWith` holds exactly when `prefix` is the front slice of `s`. */
  lemma StartsWithSlice(s: string, prefix: string)
    ensures StartsWith(s, prefix) <==> |prefix| <= |s| && s[..|prefix|] == prefix
  {
    OccursAtSlice(s, prefix, 0);
  }

  lemma {:induction false} ContainsFromIffOccurs(s: string, t: string, i: nat)
    requires i <= |s|
    ensures ContainsFrom(s, t, i) <==> exists k: nat :: i <= k <= |s| && OccursAt(s, t, k)
    decreases |s| - i
  {
    if i < |s| {
      ContainsFromIffOccurs(s, t, i + 1);
    }
  }

  /** `Contains` holds exactly when `t` occurs in `s` at some offset. */
  lemma ContainsIffOccurs(s: string, t: string)
    ensures Contains(s, t) <==> exists k: nat :: k <= |s| && OccursAt(s, t, k)
  {
    ContainsFromIffOccurs(s, t, 0);
  }

  /** `p` and `t` disagree at some position `j` or later that lies within both
      `t` and `p` (read from offset `i` in `p`), so no occurrence of `t` at
      offset `i` survives appending anything to `p`. */
  predicate ClashesFrom(p: string, t: string, i: nat, j: nat)
    decreases |t| - j
  {
    i + j < |p| && j < |t| && (p[i + j] != t[j] || ClashesFrom(p, t, i, j + 1))
  }

  /** No occurrence of `t` can start at offset `i` or later inside `p`,
      whatever follows `p`. */
  predicate NoOccurrenceStartsFrom(p: string, t: string, i: nat)
    decreases |p| - i
  {
    i >= |p| || (ClashesFrom(p, t, i, 0) && NoOccurrenceStartsFrom(p, t, i + 1))
  }

  lemma {:induction false} ClashBlocksMatch(p: string, h: string, t: string, i: nat, j: nat)
    requires ClashesFrom(p, t, i, j)
    ensures !MatchesFrom(p + h, t, i, j)
    decreases |t| - j
  {
    if p[i + j] == t[j] {
      ClashBlocksMatch(p, h, t, i, j + 1);
    }
  }

  lemma {:induction false} MatchesFromShift(p: string, h: string, t: string, k: nat, j: nat)
    ensures MatchesFrom(p + h, t, |p| + k, j) <==> MatchesFrom(h, t, k, j)
    decreases |t| - j
  {
    if j < |t| {
      MatchesFromShift(p, h, t, k, j + 1);
    }
  }

  lemma {:induction false} ContainsFromShift(p: string, h: string, t: string, k: nat)
    requires k <= |h|
    ensures ContainsFrom(p + h, t, |p| + k) <==> ContainsFrom(h, t, k)
    decreases |h| - k
  {
    MatchesFromShift(p, h, t, k, 0);
    if k < |h| {
      ContainsFromShift(p, h, t, k + 1);
    }
  }

  lemma {:induction false} ContainsFromAfterPrefix(p: string, h: string, t: string, i: nat)
    requires i <= |p|
    requires NoOccurrenceStartsFrom(p, t, i)
    ensures ContainsFrom(p + h, t, i) <==> Contains(h, t)
    decreases |p| - i
  {
    if i < |p| {
      ClashBlocksMatch(p, h, t, i, 0);
      ContainsFromAfterPrefix(p, h, t, i + 1);
    } else {
      ContainsFromShift(p, h, t, 0);
    }
  }

  /** When no occurrence of `t` can start inside `p`, searching `p + h` for
      `t` is the same as searching `h`. */
  lemma ContainsAfterPrefix(p: string, h: string, t: string)
    requires NoOccurrenceStartsFrom(p, t, 0)
    ensures Contains(p + h, t) <==> Contains(h, t)
  {
    ContainsFromAfterPrefix(p, h, t, 0);
  }

  /** The digit character for `d` in 0..9. */
  function Digit(d: nat): char
    requires d < 10
  {
    "0123456789"[d]
  }

  /** The value of a digit character, the inverse of `Digit`. */
  function DigitValue(c: char): nat
  {
    if '0' <= c <= '9' then (c - '0') as nat else 0
  }

  /** `str(n)` for a natural number: decimal digits, no leading zero. */
  function DecimalString(n: nat): (s: string)
    ensures 1 <= |s|
    ensures forall k :: 0 <= k < |s| ==> '0' <= s[k] <= '9'
    ensures |s| > 1 ==> s[0] != '0'
    decreases n
  {
    if n < 10 then [Digit(n)] else DecimalString(n / 10) + [Digit(n % 10)]
  }

  /** Reads a string of decimal digits back as a number. */
  function ParseDecimal(s: string): nat
    decreases |s|
  {
    if s == [] then 0 else ParseDecimal(s[..|s| - 1]) * 10 + DigitValue(s[|s| - 1])
  }

  lemma DigitRoundTrip(d: nat)
    requires d < 10
    ensures DigitValue(Digit(d)) == d
  {
  }

  /** Reading back the decimal rendering gives the number again. */
  lemma {:induction false} ParseDecimalString(n: nat)
    ensures ParseDecimal(DecimalString(n)) == n
    decreases n
  {
    var s := DecimalString(n);
    if n < 10 {
      DigitRoundTrip(n);
      assert s[..0] == [];
    } else {
      ParseDecimalString(n / 10);
      DigitRoundTrip(n % 10);
      assert s[..|s| - 1] == DecimalString(n / 10);
    }
  }

  /** Distinct numbers have distinct decimal renderings. */
  lemma DecimalStringInjective(m: nat, n: nat)
    requires DecimalString(m) == DecimalString(n)
    ensures m == n
  {
    ParseDecimalString(m);
    ParseDecimalString(n);
  }
}
