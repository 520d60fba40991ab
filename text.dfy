/**
 * The JavaScript string built-ins the library relies on, over `seq<char>`:
 * `Number.prototype.toString` for integers, `String.prototype.padStart`,
 * `String.prototype.includes` and `String.prototype.replace` with a string
 * pattern (which replaces the first occurrence only).
 */
module Text {
  import opened Wrappers

  predicate IsDigit(ch: char) {
    '0' <= ch <= '9'
  }

  predicate AllDigits(s: string) {
    forall i :: 0 <= i < |s| ==> IsDigit(s[i])
  }

  function DigitChar(d: nat): (ch: char)
    requires d < 10
    ensures IsDigit(ch) && DigitValue(ch) == d
  {
    "0123456789"[d]
  }

  function DigitValue(ch: char): (d: nat)
    requires IsDigit(ch)
    ensures d < 10
  {
    ch as int - '0' as int
  }

  /** `k` copies of `ch`. */
  function Repeat(ch: char, k: nat): (r: string)
    ensures |r| == k
    ensures forall i :: 0 <= i < |r| ==> r[i] == ch
  {
    seq(k, _ => ch)
  }

  /**
   * The decimal numeral of `n`, most significant digit first: what
   * `toString()` yields for a non-negative integer.
   */
  function NatToString(n: nat): (s: string)
    ensures |s| >= 1 && AllDigits(s)
    ensures s[0] == '0' ==> n == 0 && s == "0"
    decreases n
  {
    if n < 10 then [DigitChar(n)] else NatToString(n / 10) + [DigitChar(n % 10)]
  }

  /** `toString()` of an integer: a minus sign before the magnitude's digits. */
  function IntToString(v: int): (s: string)
    ensures |s| >= 1
    ensures v >= 0 <==> AllDigits(s)
    ensures forall i :: 0 <= i < |s| ==> s[i] == '-' || IsDigit(s[i])
    ensures v >= 0 ==> ParseDigits(s) == v
    ensures v < 0 ==> s[0] == '-' && AllDigits(s[1..]) && ParseDigits(s[1..]) == -v
    ensures v >= 0 ==> (s[0] == '0' ==> v == 0 && s == "0")
    ensures v < 0 ==> |s| >= 2 && s[1] != '0'
  {
    if v < 0 then
      var s := "-" + NatToString(-v);
      assert !IsDigit(s[0]);
      assert s[1..] == NatToString(-v);
      ParseNatToString(-v);
      s
    else
      ParseNatToString(v);
      NatToString(v)
  }

  /** The value of a string of decimal digits (the empty string is 0). */
  function ParseDigits(s: string): nat
    requires AllDigits(s)
  {
    if s == [] then 0 else ParseDigits(s[..|s| - 1]) * 10 + DigitValue(s[|s| - 1])
  }

  /** Reading back the numeral of `n` gives `n`. */
  lemma {:induction false} ParseNatToString(n: nat)
    ensures ParseDigits(NatToString(n)) == n
    decreases n
  {
    var s := NatToString(n);
    if n >= 10 {
      assert s[..|s| - 1] == NatToString(n / 10);
      ParseNatToString(n / 10);
    }
  }

  /** Distinct numbers have distinct numerals. */
  lemma NatToStringInjective(m: nat, n: nat)
    requires NatToString(m) == NatToString(n)
    ensures m == n
  {
    ParseNatToString(m);
    ParseNatToString(n);
  }

  /** A leading zero does not change the value of a digit string. */
  lemma {:induction false} ParseLeadingZero(s: string)
    requires AllDigits(s)
    ensures AllDigits(['0'] + s) && ParseDigits(['0'] + s) == ParseDigits(s)
    decreases |s|
  {
    var t := ['0'] + s;
    if s != [] {
      assert t[..|t| - 1] == ['0'] + s[..|s| - 1];
      ParseLeadingZero(s[..|s| - 1]);
    }
  }

  /** Any number of leading zeros does not change the value of a digit string. */
  lemma {:induction false} ParseLeadingZeros(k: nat, s: string)
    requires AllDigits(s)
    ensures AllDigits(Repeat('0', k) + s)
    ensures ParseDigits(Repeat('0', k) + s) == ParseDigits(s)
    decreases k
  {
    if k > 0 {
      ParseLeadingZeros(k - 1, s);
      ParseLeadingZero(Repeat('0', k - 1) + s);
      assert Repeat('0', k) + s == ['0'] + (Repeat('0', k - 1) + s);
    } else {
      assert Repeat('0', k) + s == s;
    }
  }

  /**
   * `s.padStart(size, fill)` for a one-character fill: `s` itself when it is
   * at least `size` long, otherwise `s` preceded by as many `fill` as make it
   * exactly `size` long.
   */
  function PadStart(s: string, size: int, fill: char): (r: string)
    ensures |r| == if size <= |s| then |s| else size
    ensures r[|r| - |s|..] == s
    ensures forall i :: 0 <= i < |r| - |s| ==> r[i] == fill
  {
    if size <= |s| then s else Repeat(fill, size - |s|) + s
  }

  /** Padding a numeral with zeros keeps it a numeral of the same value. */
  lemma PadZeros(s: string, size: int)
    requires AllDigits(s)
    ensures AllDigits(PadStart(s, size, '0'))
    ensures ParseDigits(PadStart(s, size, '0')) == ParseDigits(s)
  {
    if |s| < size {
      assert PadStart(s, size, '0') == Repeat('0', size - |s|) + s;
      ParseLeadingZeros(size - |s|, s);
    }
  }

  /** `key` occurs in `s` starting at index `j`. */
  predicate OccursAt(s: string, key: string, j: int) {
    0 <= j && j + |key| <= |s| && s[j..j + |key|] == key
  }

  /** `j` is the first index at which `key` occurs in `s`. */
  predicate FirstOccurrence(s: string, key: string, j: int) {
    OccursAt(s, key, j) && forall i :: 0 <= i < j ==> !OccursAt(s, key, i)
  }

  /**
   * `s.indexOf(key, from)` for a non-empty key, with `None` for -1. (For an
   * empty key JavaScript answers `min(from, |s|)`; the module never asks.)
   */
  function IndexOfFrom(s: string, key: string, from: nat): (r: Option<nat>)
    ensures r.Some? ==> from <= r.value && OccursAt(s, key, r.value)
    ensures r.Some? ==> forall i :: from <= i < r.value ==> !OccursAt(s, key, i)
    ensures r.None? ==> forall i :: from <= i ==> !OccursAt(s, key, i)
    decreases |s| - from
  {
    if from + |key| > |s| then None
    else if s[from..from + |key|] == key then Some(from)
    else IndexOfFrom(s, key, from + 1)
  }

  /** `s.includes(key)`. */
  function Includes(s: string, key: string): (b: bool)
    ensures b <==> exists j :: OccursAt(s, key, j)
  {
    IndexOfFrom(s, key, 0).Some?
  }

  /**
   * `s.replace(key, rep)` for a string pattern and a replacement in which no
   * `$` pattern occurs: the first occurrence of `key` is replaced by `rep`, a
   * string without `key` is returned unchanged.
   */
  function ReplaceFirst(s: string, key: string, rep: string): (r: string)
    ensures (forall j :: !OccursAt(s, key, j)) ==> r == s
    ensures forall j :: FirstOccurrence(s, key, j) ==> r == s[..j] + rep + s[j + |key|..]
  {
    match IndexOfFrom(s, key, 0)
    case None => s
    case Some(k) => s[..k] + rep + s[k + |key|..]
  }

  /** Two first occurrences are the same occurrence. */
  lemma FirstOccurrenceUnique(s: string, key: string, i: int, j: int)
    requires FirstOccurrence(s, key, i) && FirstOccurrence(s, key, j)
    ensures i == j
  {
  }
}
