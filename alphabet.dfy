/** The 62-character alphabet from which short codes are drawn, and the
    uniform index source (`math/rand`'s `Intn`) that picks from it. */
module Alphabet {

  /** The alphabet exactly as both generators spell it: lower case, then
      upper case, then digits. */
  const Charset: string := Lower + Upper + Digits

  const Lower: string := "abcdefghijklmnopqrstuvwxyz"
  const Upper: string := "ABCDEFGHIJKLMNOPQRSTUVWXYZ"
  const Digits: string := "0123456789"

  /** An ASCII letter of either case or an ASCII digit. */
  predicate IsAlphanumeric(c: char) {
    'a' <= c <= 'z' || 'A' <= c <= 'Z' || '0' <= c <= '9'
  }

  /** A short code of length `n`: every character alphanumeric. */
  predicate IsCode(s: string, n: nat) {
    |s| == n && forall i :: 0 <= i < |s| ==> IsAlphanumeric(s[i])
  }

  /** Where an alphanumeric character sits in `Charset`. */
  function IndexOf(c: char): (k: nat)
    requires IsAlphanumeric(c)
    ensures k < |Charset| && Charset[k] == c
  {
    if 'a' <= c <= 'z' then c as int - 'a' as int
    else if 'A' <= c <= 'Z' then 26 + (c as int - 'A' as int)
    else 52 + (c as int - '0' as int)
  }

  /** Every position of `Charset` holds an alphanumeric character, and the
      positions are told apart by `IndexOf`: the 62 characters are distinct. */
  lemma CharsetAt(k: nat)
    requires k < |Charset|
    ensures |Charset| == 62
    ensures IsAlphanumeric(Charset[k]) && IndexOf(Charset[k]) == k
  {
    if k < 26 {
      LowerAt(k);
    } else if k < 52 {
      UpperAt(k - 26);
    } else {
      DigitsAt(k - 52);
    }
  }

  /** Position `k` of the lower-case run holds the `k`-th letter. */
  lemma LowerAt(k: nat)
    requires k < |Lower|
    ensures Lower[k] as int == 'a' as int + k
  {
  }

  /** Position `k` of the upper-case run holds the `k`-th letter. */
  lemma UpperAt(k: nat)
    requires k < |Upper|
    ensures Upper[k] as int == 'A' as int + k
  {
  }

  /** Position `k` of the digit run holds the `k`-th digit. */
  lemma DigitsAt(k: nat)
    requires k < |Digits|
    ensures Digits[k] as int == '0' as int + k
  {
  }

  /** A character occurs in `Charset` exactly when it is alphanumeric. */
  lemma CharsetIsAlphanumeric(c: char)
    ensures c in Charset <==> IsAlphanumeric(c)
  {
    if c in Charset {
      var k :| 0 <= k < |Charset| && Charset[k] == c;
      CharsetAt(k);
    }
    if IsAlphanumeric(c) {
      assert Charset[IndexOf(c)] == c;
    }
  }

  /** `rand.Intn(n)`: some integer in `[0, n)`. The choice is left open. */
  method Intn(n: int) returns (k: nat)
    requires n > 0
    ensures k < n
  {
    k :| k < n;
  }
}
