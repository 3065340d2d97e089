/** The Russian plural-category selector of the translator.

    A template picks a word ending with the category index, e.g. from the
    three forms ['акция', 'акции', 'акций'] ("one", "few", "many"); the
    index is always a valid position in such a three-element list.
 */
module Plural {

  /** The three grammatical-number categories a selector may return. */
  const One: nat := 0
  const Few: nat := 1
  const Many: nat := 2

  /** The selector as the translator writes it. Python 3 `/` is true
      division, so `tens` is a real number and equals 1 only when the last
      two digits are exactly 10; for 11..19 it is 1.1 .. 1.9. Python `%`
      with a positive divisor is non-negative, as Dafny's `%` is. */
  function RuPlural(x: int): (r: nat)
    ensures r <= Many
    ensures x % 100 == 10 ==> r == Many
    ensures r == One <==> x % 10 == 1
    ensures r == Few <==> 2 <= x % 10 <= 4
    ensures r == Many <==> x % 10 == 0 || 5 <= x % 10
  {
    var lastTwoDigits := x % 100;
    LastDigitOfLastTwo(x);
    var tens: real := lastTwoDigits as real / 10.0;
    if tens == 1.0 then Many
    else
      var ones := lastTwoDigits % 10;
      if ones == 1 then One
      else if ones >= 2 && ones <= 4 then Few
      else Many
  }

  /** The last digit of the last two digits is the last digit. */
  lemma LastDigitOfLastTwo(x: int)
    ensures (x % 100) % 10 == x % 10
  {
  }

  /** The selector only looks at the number modulo 100: adding any multiple
      of 100, positive or negative, does not change the category. */
  lemma RuPluralPeriodic(x: int, k: int)
    ensures RuPlural(x + 100 * k) == RuPlural(x)
    ensures RuPlural(x % 100) == RuPlural(x)
  {
    ShiftByHundreds(x, k);
    ShiftByHundreds(x % 100, 0);
    LastDigitOfLastTwo(x);
  }

  /** Adding a multiple of 100 keeps the last one and two digits. */
  lemma ShiftByHundreds(x: int, k: int)
    ensures (x + 100 * k) % 100 == x % 100
    ensures (x + 100 * k) % 10 == x % 10
  {
    ModHundred(x + 100 * k, x / 100 + k, x % 100);
    ModTen(x + 100 * k, x / 10 + 10 * k, x % 10);
  }

  /** Euclidean remainder by 100 is the `m` of any `100 * q + m` with
      `0 <= m < 100`. */
  lemma ModHundred(a: int, q: int, m: int)
    requires a == 100 * q + m && 0 <= m < 100
    ensures a % 100 == m
  {
  }

  /** Euclidean remainder by 10 is the `m` of any `10 * q + m` with
      `0 <= m < 10`. */
  lemma ModTen(a: int, q: int, m: int)
    requires a == 10 * q + m && 0 <= m < 10
    ensures a % 10 == m
  {
  }

  /** The values named in the translator's documentation and the edge cases
      of the rule, computed as written. */
  lemma RuPluralExamples()
    ensures RuPlural(25) == Many
    ensures RuPlural(1) == One && RuPlural(21) == One && RuPlural(111) == One
    ensures RuPlural(2) == Few && RuPlural(4) == Few && RuPlural(12) == Few
    ensures RuPlural(0) == Many && RuPlural(5) == Many && RuPlural(10) == Many
    ensures RuPlural(11) == One && RuPlural(100) == Many && RuPlural(-1) == Many
  {
  }

  /** As written, the "tens" test never decides the outcome: the one value
      it catches (last two digits 10) ends in 0 and would fall to the last
      branch anyway, while 11..14 reach the last-digit tests. So the result
      is a function of the last digit alone. */
  lemma RuPluralIgnoresTens(x: int)
    ensures RuPlural(x) == RuPlural(x % 10)
    ensures RuPlural(11) == One && RuPlural(12) == Few && RuPlural(14) == Few
  {
  }

  /** The selector with floor division (`//`) in place of `/`, which makes
      the first branch catch the whole 10..19 range. */
  function RuPluralIntended(x: int): (r: nat)
    ensures r <= Many
    ensures var d := x % 100;
            && (r == One <==> d % 10 == 1 && d != 11)
            && (r == Few <==> 2 <= d % 10 <= 4 && !(12 <= d <= 14))
            && (r == Many <==> d % 10 == 0 || 5 <= d % 10 || 11 <= d <= 14)
  {
    var lastTwoDigits := x % 100;
    var tens := lastTwoDigits / 10;
    if tens == 1 then Many
    else
      var ones := lastTwoDigits % 10;
      if ones == 1 then One
      else if ones >= 2 && ones <= 4 then Few
      else Many
  }

  /** The two selectors disagree exactly on numbers ending in 11..14, where
      the written one answers "one" or "few" and the intended one "many". */
  lemma RuPluralDiscrepancy(x: int)
    ensures RuPlural(x) != RuPluralIntended(x) <==> 11 <= x % 100 <= 14
    ensures 11 <= x % 100 <= 14 ==> RuPluralIntended(x) == Many && RuPlural(x) != Many
  {
  }
}
