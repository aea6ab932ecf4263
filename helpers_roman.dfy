/** number_to_roman and number_to_alpha from app/Support/helpers.php. */
module Numerals {
  import opened Wrappers
  import Json

  /** The number of entries in number_to_roman's symbol map. */
  const TableSize := 13

  /** The value column of the symbol map, largest first, in the order the loop scans it. */
  function Value(i: nat): (v: int)
    requires i < TableSize
    ensures v >= 1
  {
    if i == 0 then 1000 else if i == 1 then 900 else if i == 2 then 500
    else if i == 3 then 400 else if i == 4 then 100 else if i == 5 then 90
    else if i == 6 then 50 else if i == 7 then 40 else if i == 8 then 10
    else if i == 9 then 9 else if i == 10 then 5 else if i == 11 then 4
    else 1
  }

  /** The symbol column of the symbol map. */
  function Symbol(i: nat): (s: string)
    requires i < TableSize
    ensures s != []
  {
    if i == 0 then "M" else if i == 1 then "CM" else if i == 2 then "D"
    else if i == 3 then "CD" else if i == 4 then "C" else if i == 5 then "XC"
    else if i == 6 then "L" else if i == 7 then "XL" else if i == 8 then "X"
    else if i == 9 then "IX" else if i == 10 then "V" else if i == 11 then "IV"
    else "I"
  }

  /** The map lists its values in strictly decreasing order. */
  lemma {:induction false} ValuesDecrease(a: nat, b: nat)
    requires a < b < TableSize
    ensures Value(a) > Value(b)
    decreases b - a
  {
    if a + 1 < b { ValuesDecrease(a + 1, b); }
  }

  /** The index of the first (largest) entry whose value fits into n: what the inner scan stops at. */
  function Pick(n: int): (k: nat)
    requires n >= 1
    ensures k < TableSize && Value(k) <= n
    ensures k > 0 ==> Value(k - 1) > n
  {
    if n >= 1000 then 0 else if n >= 900 then 1 else if n >= 500 then 2
    else if n >= 400 then 3 else if n >= 100 then 4 else if n >= 90 then 5
    else if n >= 50 then 6 else if n >= 40 then 7 else if n >= 10 then 8
    else if n >= 9 then 9 else if n >= 5 then 10 else if n >= 4 then 11
    else 12
  }

  /** Every entry before Pick(n) is too large for n. */
  lemma PickIsFirst(n: int, j: nat)
    requires n >= 1 && j < Pick(n)
    ensures Value(j) > n
  {
    if j < Pick(n) - 1 { ValuesDecrease(j, Pick(n) - 1); }
  }

  /** The entries (symbol, value) that the greedy conversion emits for n, in order. */
  function Greedy(n: int): seq<(string, int)>
    decreases n
  {
    if n <= 0 then []
    else
      var k := Pick(n);
      [(Symbol(k), Value(k))] + Greedy(n - Value(k))
  }

  lemma GreedyStep(n: int)
    requires n >= 1
    ensures Greedy(n) == [(Symbol(Pick(n)), Value(Pick(n)))] + Greedy(n - Value(Pick(n)))
  {
  }

  function Concat(ps: seq<(string, int)>): string {
    if ps == [] then [] else ps[0].0 + Concat(ps[1..])
  }

  function Total(ps: seq<(string, int)>): int {
    if ps == [] then 0 else ps[0].1 + Total(ps[1..])
  }

  lemma ConcatCons(e: (string, int), rest: seq<(string, int)>)
    ensures Concat([e] + rest) == e.0 + Concat(rest)
  {
    assert ([e] + rest)[1..] == rest;
  }

  lemma TotalCons(e: (string, int), rest: seq<(string, int)>)
    ensures Total([e] + rest) == e.1 + Total(rest)
  {
    assert ([e] + rest)[1..] == rest;
  }

  /** The Roman numeral number_to_roman returns for n. */
  function Roman(n: int): string {
    Concat(Greedy(n))
  }

  /** Unfolding Roman by one greedy step. */
  lemma RomanStep(n: int)
    requires n >= 1
    ensures Roman(n) == Symbol(Pick(n)) + Roman(n - Value(Pick(n)))
  {
    GreedyStep(n);
    ConcatCons((Symbol(Pick(n)), Value(Pick(n))), Greedy(n - Value(Pick(n))));
  }

  lemma RomanAppend(r: string, n: int)
    requires n >= 1
    ensures r + Roman(n) == (r + Symbol(Pick(n))) + Roman(n - Value(Pick(n)))
  {
    RomanStep(n);
  }

  /**
   * number_to_roman: a while loop that repeatedly scans the map for the
   * first entry not larger than what is left, subtracts it and appends it.
   */
  method NumberToRoman(number: int) returns (r: string)
    ensures r == Roman(number)
  {
    var n := number;
    r := "";
    while n > 0
      invariant r + Roman(n) == Roman(number)
      decreases n
    {
      var i := 0;
      while Value(i) > n
        invariant 0 <= i <= Pick(n)
      {
        i := i + 1;
      }
      if i < Pick(n) {
        PickIsFirst(n, i);
      }
      RomanAppend(r, n);
      r, n := r + Symbol(i), n - Value(i);
    }
  }

  /** Non-positive numbers convert to the empty string, positive ones never do. */
  lemma RomanEmptyIff(n: int)
    ensures Roman(n) == "" <==> n <= 0
  {
    if n >= 1 {
      RomanStep(n);
    }
  }

  /** The values of the emitted symbols add up to the number (0 for non-positive numbers). */
  lemma {:induction false} RomanValue(n: int)
    ensures Total(Greedy(n)) == if n <= 0 then 0 else n
    decreases n
  {
    if n > 0 {
      var rest := n - Value(Pick(n));
      TotalStep(n);
      RomanValue(rest);
    }
  }

  lemma TotalStep(n: int)
    requires n >= 1
    ensures Total(Greedy(n)) == Value(Pick(n)) + Total(Greedy(n - Value(Pick(n))))
  {
    var k := Pick(n);
    GreedyStep(n);
    TotalCons((Symbol(k), Value(k)), Greedy(n - Value(k)));
  }

  /** A smaller remainder never picks an earlier (larger) entry. */
  lemma PickMonotone(m: int, n: int)
    requires 1 <= m <= n
    ensures Pick(n) <= Pick(m)
  {
    if Pick(n) > Pick(m) {
      PickIsFirst(n, Pick(m));
    }
  }

  /** Every value emitted for n is at most the value picked first. */
  lemma {:induction false} GreedyBounded(n: int)
    requires n >= 1
    ensures forall p :: p in Greedy(n) ==> p.1 <= Value(Pick(n))
    decreases n
  {
    var k := Pick(n);
    var rest := n - Value(k);
    GreedyStep(n);
    if rest >= 1 {
      GreedyBounded(rest);
      PickMonotone(rest, n);
      if k < Pick(rest) { ValuesDecrease(k, Pick(rest)); }
    }
  }

  /** Entry values never increase along the sequence. */
  predicate NonIncreasing(ps: seq<(string, int)>) {
    forall i, j :: 0 <= i < j < |ps| ==> ps[i].1 >= ps[j].1
  }

  lemma ConsNonIncreasing(e: (string, int), rest: seq<(string, int)>)
    requires NonIncreasing(rest) && forall p :: p in rest ==> p.1 <= e.1
    ensures NonIncreasing([e] + rest)
  {
    var g := [e] + rest;
    forall i, j | 0 <= i < j < |g| ensures g[i].1 >= g[j].1 {
      assert g[j] == rest[j - 1];
      if i == 0 {
        assert rest[j - 1] in rest;
      } else {
        assert g[i] == rest[i - 1];
      }
    }
  }

  /** The symbols appear in non-increasing order of value. */
  lemma {:induction false} RomanNonIncreasing(n: int)
    ensures NonIncreasing(Greedy(n))
    decreases n
  {
    if n >= 1 {
      var k := Pick(n);
      var rest := n - Value(k);
      GreedyStep(n);
      RomanNonIncreasing(rest);
      if rest >= 1 {
        GreedyBounded(rest);
        PickMonotone(rest, n);
        if k < Pick(rest) { ValuesDecrease(k, Pick(rest)); }
      }
      ConsNonIncreasing((Symbol(k), Value(k)), Greedy(rest));
    }
  }

  lemma Roman1994()
    ensures Roman(1994) == "MCMXCIV"
  {
    RomanStep(1994);
    RomanStep(994);
    RomanStep(94);
    RomanStep(4);
    RomanEmptyIff(0);
  }

  // ---------------------------------------------------------------------
  // number_to_alpha

  predicate IsDigit(c: char) {
    '0' <= c <= '9'
  }

  predicate AllDigits(t: string) {
    forall i :: 0 <= i < |t| ==> IsDigit(t[i])
  }

  /** The number a text of decimal digits spells. */
  function DigitsValue(t: string): (v: nat)
    requires AllDigits(t)
    decreases |t|
  {
    if t == [] then 0 else DigitsValue(t[..|t| - 1]) * 10 + (t[|t| - 1] as int - '0' as int)
  }

  /**
   * PHP's reading of a text as the int chr() takes: digits are read as a
   * number and a leading '-' negates them. Any other text (a leading
   * number followed by other characters, such as "0-5") warns, and
   * Laravel turns the warning into an exception: None.
   */
  function ParseInt(t: string): Option<int> {
    if t != [] && AllDigits(t) then
      var v: int := DigitsValue(t);
      Some(v)
    else if |t| >= 2 && t[0] == '-' && AllDigits(t[1..]) then
      var v: int := DigitsValue(t[1..]);
      Some(-v)
    else None
  }

  /** substr("000" . n, -3): the last three characters of the padded decimal text. */
  function PaddedTail(n: int): (t: string)
    ensures |t| == 3
  {
    var s := "000" + Json.IntToString(n);
    s[|s| - 3..]
  }

  /**
   * number_to_alpha: chr(substr("000" . (num + 65), -3)). chr reduces its
   * argument modulo 256, negative arguments included.
   */
  function NumberToAlpha(num: int): (r: Option<char>)
    ensures r.Some? ==> r.value as int < 256
  {
    match ParseInt(PaddedTail(num + 65))
    case None => None
    case Some(v) => Some((v % 256) as char)
  }

  /** A decimal digit character stands for its own value. */
  lemma DigitCharValue(d: int)
    requires 0 <= d < 10
    ensures IsDigit(Json.DigitChar(d)) && Json.DigitChar(d) as int - '0' as int == d
  {
  }

  /** Two digit characters spell 10a + b. */
  lemma TwoDigitsValue(a: int, b: int)
    requires 0 <= a < 10 && 0 <= b < 10
    ensures var t := [Json.DigitChar(a), Json.DigitChar(b)];
      AllDigits(t) && DigitsValue(t) == 10 * a + b
  {
    var t := [Json.DigitChar(a), Json.DigitChar(b)];
    DigitCharValue(a);
    DigitCharValue(b);
    var one := t[..1];
    assert one == [Json.DigitChar(a)] && one[..0] == [];
    assert AllDigits(one) && DigitsValue(one) == a;
    assert DigitsValue(t) == DigitsValue(one) * 10 + b;
  }

  /** Three digit characters spell 100a + 10b + c. */
  lemma ThreeDigitsValue(a: int, b: int, c: int)
    requires 0 <= a < 10 && 0 <= b < 10 && 0 <= c < 10
    ensures var t := [Json.DigitChar(a), Json.DigitChar(b), Json.DigitChar(c)];
      AllDigits(t) && DigitsValue(t) == 100 * a + 10 * b + c
  {
    var t := [Json.DigitChar(a), Json.DigitChar(b), Json.DigitChar(c)];
    TwoDigitsValue(a, b);
    DigitCharValue(c);
    assert t[..2] == [Json.DigitChar(a), Json.DigitChar(b)];
  }

  /** Dropping the last digit, reading modulo 10 and putting the digit back reads modulo 100. */
  lemma ModStep100(n: nat)
    ensures (n / 10 % 10) * 10 + n % 10 == n % 100
  {
    var q, r := n / 10, n % 10;
    var a, b := q / 10, q % 10;
    assert n == 10 * q + r;
    assert q == 10 * a + b;
    assert n == 100 * a + (10 * b + r);
  }

  /** The same one place further: reading modulo 100 after the drop reads modulo 1000. */
  lemma ModStep1000(n: nat)
    ensures (n / 10 % 100) * 10 + n % 10 == n % 1000
  {
    var q, r := n / 10, n % 10;
    var a, b := q / 100, q % 100;
    assert n == 10 * q + r;
    assert q == 100 * a + b;
    assert n == 1000 * a + (10 * b + r);
  }

  /** The last three decimal digits of n are n mod 1000. */
  lemma ThreeDigitArith(n: nat)
    ensures 100 * (n / 100 % 10) + 10 * (n / 10 % 10) + n % 10 == n % 1000
  {
    ModStep1000(n);
    ModStep100(n / 10);
    assert n / 10 / 10 == n / 100;
  }

  /** The decimal text of n >= 10 is that of n / 10 followed by the last digit. */
  lemma DigitsStep(n: nat)
    requires n >= 10
    ensures Json.IntToString(n) == Json.IntToString(n / 10) + [Json.DigitChar(n % 10)]
  {
  }

  /** The last three characters of a text ending in at least three characters are theirs. */
  lemma TailOfLonger(x: string, y: string)
    requires |y| >= 3
    ensures (x + y)[|x + y| - 3..] == y[|y| - 3..]
  {
  }

  /** From 100 on, the decimal text ends in the digits of n / 10 and n, each taken mod 10. */
  lemma DigitsTwoSteps(n: nat)
    requires n >= 100
    ensures Json.IntToString(n) ==
      Json.IntToString(n / 100) + [Json.DigitChar(n / 10 % 10), Json.DigitChar(n % 10)]
  {
    DigitsStep(n);
    DigitsStep(n / 10);
    assert n / 10 / 10 == n / 100;
  }

  /** The decimal text of n / 100 ends in the digit of n / 100 mod 10, after whatever comes first. */
  lemma HundredsDigit(n: nat)
    requires n >= 100
    ensures var head := if n < 1000 then "" else Json.IntToString(n / 1000);
      Json.IntToString(n / 100) == head + [Json.DigitChar(n / 100 % 10)]
  {
    if n >= 1000 {
      DigitsStep(n / 100);
      assert n / 100 / 10 == n / 1000;
    }
  }

  /** The zero-padded text of n ends in the digits of n / 100, n / 10 and n, each taken mod 10. */
  lemma LastThree(n: nat)
    ensures PaddedTail(n) ==
      [Json.DigitChar(n / 100 % 10), Json.DigitChar(n / 10 % 10), Json.DigitChar(n % 10)]
  {
    var c0, c1, c2 := Json.DigitChar(n % 10), Json.DigitChar(n / 10 % 10), Json.DigitChar(n / 100 % 10);
    if n < 10 {
      assert Json.IntToString(n) == [c0];
      assert c1 == '0' && c2 == '0';
    } else if n < 100 {
      DigitsStep(n);
      assert Json.IntToString(n / 10) == [c1];
      assert c2 == '0';
    } else {
      var head := if n < 1000 then "" else Json.IntToString(n / 1000);
      DigitsTwoSteps(n);
      HundredsDigit(n);
      assert "000" + Json.IntToString(n) == ("000" + head) + [c2, c1, c0];
      TailOfLonger("000" + head, [c2, c1, c0]);
    }
  }

  /** From 0 on, the tail is the last three digits. */
  lemma TailOfNatural(m: nat)
    ensures ParseInt(PaddedTail(m)) == Some(m % 1000)
  {
    LastThree(m);
    ThreeDigitsValue(m / 100 % 10, m / 10 % 10, m % 10);
    ThreeDigitArith(m);
  }

  /** The text of a negative number is a minus sign before the digits of its magnitude. */
  lemma PaddedNegative(m: int)
    requires m < 0
    ensures "000" + Json.IntToString(m) == "000-" + Json.IntToString(-m)
  {
  }

  /** From -9 to -1 the tail is "0-d", which is not a number. */
  lemma TailOfUnit(m: int)
    requires -9 <= m <= -1
    ensures ParseInt(PaddedTail(m)).None?
  {
    PaddedNegative(m);
    assert Json.IntToString(-m) == [Json.DigitChar(-m)];
    var t := PaddedTail(m);
    assert t == ['0', '-', Json.DigitChar(-m)];
    assert !IsDigit(t[1]);
  }

  /** From -99 to -10 the tail keeps the minus sign. */
  lemma TailOfTwoDigits(m: int)
    requires -99 <= m <= -10
    ensures ParseInt(PaddedTail(m)) == Some(m)
  {
    var x: nat := -m;
    PaddedNegative(m);
    DigitsStep(x);
    var two := [Json.DigitChar(x / 10), Json.DigitChar(x % 10)];
    assert Json.IntToString(x / 10) == [Json.DigitChar(x / 10)];
    assert Json.IntToString(x) == two;
    var t := PaddedTail(m);
    assert t == ['-'] + two;
    assert !IsDigit(t[0]);
    assert t[1..] == two;
    TwoDigitsValue(x / 10, x % 10);
  }

  /** From -100 down the minus sign is cut off and the last three digits remain. */
  lemma TailOfThreeDigits(m: int)
    requires m <= -100
    ensures ParseInt(PaddedTail(m)) == Some((-m) % 1000)
  {
    var x: nat := -m;
    var dx := Json.IntToString(x);
    PaddedNegative(m);
    DigitsTwoSteps(x);
    assert |dx| >= 3;
    TailOfLonger("000-", dx);
    TailOfLonger("000", dx);
    assert PaddedTail(m) == PaddedTail(x);
    TailOfNatural(x);
  }

  /** chr() of whatever the tail reads as. */
  lemma AlphaOfParsed(num: int, v: int)
    requires ParseInt(PaddedTail(num + 65)) == Some(v)
    ensures NumberToAlpha(num) == Some((v % 256) as char)
  {
  }

  /**
   * The pipeline in closed form: from 0 on only the last three digits of
   * num + 65 count; from -99 to -10 the text keeps its minus sign; from -9
   * to -1 the tail "0-d" is not a number; from -100 down the minus sign
   * is cut off.
   */
  lemma AlphaClosedForm(num: int)
    ensures var m := num + 65;
      NumberToAlpha(num) ==
        if m >= 0 then Some((m % 1000 % 256) as char)
        else if m <= -100 then Some(((-m) % 1000 % 256) as char)
        else if m <= -10 then Some((m % 256) as char)
        else None
  {
    var m := num + 65;
    if m >= 0 {
      TailOfNatural(m);
    } else if m <= -100 {
      TailOfThreeDigits(m);
    } else if m <= -10 {
      TailOfTwoDigits(m);
    } else {
      TailOfUnit(m);
    }
  }

  /** 0..25 map to 'A'..'Z'. */
  lemma AlphaLetters(num: int)
    requires 0 <= num <= 25
    ensures NumberToAlpha(num) == Some(('A' as int + num) as char)
    ensures 'A' <= NumberToAlpha(num).value <= 'Z'
  {
    var m := num + 65;
    TailOfNatural(m);
    AlphaOfParsed(num, m % 1000);
    assert m % 1000 == m && m % 256 == m;
  }

  /**
   * Only the last three digits of num + 65 count, so numbers 1000 apart
   * give the same character from -65 on; the call raises exactly for
   * num + 65 between -9 and -1.
   */
  lemma AlphaWraps(num: int)
    ensures num + 65 >= 0 ==> NumberToAlpha(num + 1000) == NumberToAlpha(num)
    ensures NumberToAlpha(num).None? <==> -9 <= num + 65 <= -1
  {
    var m := num + 65;
    if m >= 0 {
      TailOfNatural(m);
      TailOfNatural(m + 1000);
      assert (m + 1000) % 1000 == m % 1000;
    } else if m <= -100 {
      TailOfThreeDigits(m);
    } else if m <= -10 {
      TailOfTwoDigits(m);
    } else {
      TailOfUnit(m);
    }
  }
}
