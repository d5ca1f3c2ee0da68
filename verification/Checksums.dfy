/** Check digits of payment card numbers (Luhn formula) and of Russian taxpayer
    numbers (INN).  Separators between digits are skipped, so the error-detection
    theorems are about the text a user types, separators included. */
module Checksums {

  import opened Strategies

  const LUHN_MIN: nat := 13
  const LUHN_MAX: nat := 19

  const WEIGHTS_10: seq<nat> := [2, 4, 10, 3, 5, 9, 4, 6, 8]
  const WEIGHTS_12_1: seq<nat> := [7, 2, 4, 10, 3, 5, 9, 4, 6, 8]
  const WEIGHTS_12_2: seq<nat> := [3, 7, 2, 4, 10, 3, 5, 9, 4, 6, 8]

  function Value(c: char): (v: int)
    requires IsDigit(c)
    ensures 0 <= v <= 9
  {
    c as int - '0' as int
  }

  /** The ten digits and their values. */
  lemma Figures()
    ensures IsDigit('0') && IsDigit('1') && IsDigit('2') && IsDigit('3') && IsDigit('4')
    ensures IsDigit('5') && IsDigit('6') && IsDigit('7') && IsDigit('8') && IsDigit('9')
    ensures Value('0') == 0 && Value('1') == 1 && Value('2') == 2 && Value('3') == 3 && Value('4') == 4
    ensures Value('5') == 5 && Value('6') == 6 && Value('7') == 7 && Value('8') == 8 && Value('9') == 9
    ensures forall c :: IsDigit(c) ==> c in "0123456789"
  {
    forall c | IsDigit(c)
      ensures c in "0123456789"
    {
      assert "0123456789"[Value(c)] == c;
    }
  }

  predicate Numeric(s: string) {
    forall i :: 0 <= i < |s| ==> IsDigit(s[i])
  }

  // ---------------------------------------------------------------- digits of a text

  /** How many digits of `s` precede position `p`: the index of `s[p]` among them. */
  function Index(s: string, p: nat): nat
    requires p < |s|
  {
    |Digits(s[..p])|
  }

  lemma {:induction false} DigitsOfConcat(s: string, t: string)
    ensures Digits(s + t) == Digits(s) + Digits(t)
  {
    if t == "" {
      assert s + t == s;
    } else {
      var whole, n := s + t, |s + t| - 1;
      var front := t[..|t| - 1];
      DigitsOfConcat(s, front);
      assert whole[..n] == s + front && whole[n] == t[|t| - 1];
      var last := if IsDigit(whole[n]) then [whole[n]] else "";
      assert Digits(whole) == (Digits(s) + Digits(front)) + last;
      assert Digits(t) == Digits(front) + last;
    }
  }

  lemma DigitsAround(left: string, d: char, right: string)
    requires IsDigit(d)
    ensures Digits(left + [d] + right) == Digits(left) + [d] + Digits(right)
  {
    DigitsOfConcat(left + [d], right);
    var joined := left + [d];
    assert joined[..|joined| - 1] == left;
  }

  lemma Spliced(s: string, p: nat, c: char)
    requires p < |s|
    ensures s == s[..p] + [s[p]] + s[p + 1..]
    ensures s[p := c] == s[..p] + [c] + s[p + 1..]
  {
  }

  lemma Respliced(left: string, d: char, right: string, c: char)
    ensures (left + [d] + right)[|left| := c] == left + [c] + right
  {
  }

  /** Mistyping one digit of a text changes exactly that digit of the number. */
  lemma DigitsOfMistyped(s: string, p: nat, c: char)
    requires p < |s| && IsDigit(s[p]) && IsDigit(c)
    ensures Index(s, p) < |Digits(s)| && Digits(s)[Index(s, p)] == s[p]
    ensures Digits(s[p := c]) == Digits(s)[Index(s, p) := c]
  {
    var left, right := s[..p], s[p + 1..];
    DigitsAround(left, s[p], right);
    DigitsAround(left, c, right);
    Spliced(s, p, c);
    Respliced(Digits(left), s[p], Digits(right), c);
  }

  /** Positions of two consecutive digits of the number: only separators in between. */
  predicate Neighbours(s: string, p: nat, q: nat) {
    p < q < |s| && IsDigit(s[p]) && IsDigit(s[q]) && Digits(s[p + 1..q]) == ""
  }

  function Transposed(s: string, p: nat, q: nat): string
    requires Neighbours(s, p, q)
  {
    s[p := s[q]][q := s[p]]
  }

  lemma DigitsOfPair(left: string, a: char, gap: string, b: char, right: string)
    requires IsDigit(a) && IsDigit(b) && Digits(gap) == ""
    ensures Digits(left + [a] + gap + [b] + right) == Digits(left) + [a, b] + Digits(right)
  {
    var front := left + [a] + gap;
    DigitsAround(front, b, right);
    DigitsAround(left, a, gap);
    var d := Digits(left) + [a];
    assert Digits(front) == d + "" == d;
    assert d + [b] == Digits(left) + [a, b];
  }

  /** Exchanging two neighbouring digits of a text exchanges them in the number. */
  lemma DigitsOfTransposed(s: string, p: nat, q: nat)
    requires Neighbours(s, p, q)
    ensures Index(s, p) + 1 < |Digits(s)|
    ensures Digits(s)[Index(s, p)] == s[p] && Digits(s)[Index(s, p) + 1] == s[q]
    ensures Digits(Transposed(s, p, q)) == Digits(s)[Index(s, p) := s[q]][Index(s, p) + 1 := s[p]]
  {
    var left, gap, right := s[..p], s[p + 1..q], s[q + 1..];
    DigitsOfPair(left, s[p], gap, s[q], right);
    DigitsOfPair(left, s[q], gap, s[p], right);
    SplicedTwice(s, p, q);
    RegroupedPair(Digits(left), s[p], s[q], Digits(right));
  }

  lemma SplicedTwice(s: string, p: nat, q: nat)
    requires p < q < |s|
    ensures s == s[..p] + [s[p]] + s[p + 1..q] + [s[q]] + s[q + 1..]
    ensures s[p := s[q]][q := s[p]] == s[..p] + [s[q]] + s[p + 1..q] + [s[p]] + s[q + 1..]
  {
  }

  lemma RegroupedPair(left: string, a: char, b: char, right: string)
    ensures (left + [a, b] + right)[|left| := b][|left| + 1 := a] == left + [b, a] + right
  {
  }

  // ---------------------------------------------------------------- Luhn

  /** What a digit contributes; every second one from the right counts double, with
      the figures of its double added up. */
  function Term(d: int, doubled: bool): int {
    if !doubled then d else if 2 * d > 9 then 2 * d - 9 else 2 * d
  }

  /** The Luhn sum of a number, read from the left. */
  function LuhnSum(num: string): int
    requires Numeric(num)
  {
    if num == "" then 0
    else Term(Value(num[0]), (|num| - 1) % 2 == 1) + LuhnSum(num[1..])
  }

  ghost predicate LuhnValid(s: string) {
    var num := Digits(s);
    LUHN_MIN <= |num| <= LUHN_MAX && LuhnSum(num) % 10 == 0
  }

  /** The loop of the program runs over the reversed digits. */
  method Luhn(s: string) returns (ok: bool)
    ensures ok <==> LuhnValid(s)
  {
    var num := Digits(s);
    if !(LUHN_MIN <= |num| <= LUHN_MAX) {
      return false;
    }
    var total := 0;
    for i := 0 to |num|
      invariant total == LuhnSum(num[|num| - i..])
    {
      var d := Value(num[|num| - 1 - i]);
      assert num[|num| - 1 - i..][1..] == num[|num| - i..];
      if i % 2 == 1 {
        d := d * 2;
        if d > 9 {
          d := d - 9;
        }
      }
      total := total + d;
    }
    assert num[0..] == num;
    ok := total % 10 == 0;
  }

  predicate Doubled(num: string, k: nat) { (|num| - 1 - k) % 2 == 1 }

  lemma {:induction false} LuhnSumChanges(num: string, k: nat, c: char)
    requires Numeric(num) && k < |num| && IsDigit(c)
    ensures LuhnSum(num[k := c]) - LuhnSum(num)
            == Term(Value(c), Doubled(num, k)) - Term(Value(num[k]), Doubled(num, k))
  {
    if k == 0 {
      assert num[0 := c][1..] == num[1..];
    } else {
      LuhnSumChanges(num[1..], k - 1, c);
      assert num[k := c][1..] == num[1..][k - 1 := c];
    }
  }

  /** Which digits count double, and how: appending two digits adds the figures of the
      double of the first, and the second as it is, and leaves the rest as it was. */
  lemma {:induction false} LuhnSumByPairs(num: string, a: char, b: char)
    requires Numeric(num) && IsDigit(a) && IsDigit(b)
    ensures LuhnSum([]) == 0 && LuhnSum([b]) == Value(b)
    ensures LuhnSum(num + [a, b]) == LuhnSum(num) + (2 * Value(a)) / 10 + (2 * Value(a)) % 10 + Value(b)
  {
    assert [b][1..] == [] && [a, b][1..] == [b];
    if num == "" {
      assert num + [a, b] == [a, b];
    } else {
      LuhnSumByPairs(num[1..], a, b);
      assert (num + [a, b])[1..] == num[1..] + [a, b];
    }
  }

  /** The verdict in figures. */
  lemma LuhnInFull(s: string)
    ensures LuhnValid(s) <==> 13 <= |Digits(s)| <= 19 && LuhnSum(Digits(s)) % 10 == 0
  {
  }

  /** A separator counts for nothing, wherever it stands. */
  lemma SeparatorsAreSkipped(left: string, c: char, right: string)
    requires !IsDigit(c)
    ensures Digits(left + [c] + right) == Digits(left + right)
  {
    DigitsOfConcat(left + [c], right);
    DigitsOfConcat(left, right);
    var joined := left + [c];
    assert joined[..|joined| - 1] == left;
  }

  lemma TermsDiffer(a: int, b: int, doubled: bool)
    requires 0 <= a <= 9 && 0 <= b <= 9 && a != b
    ensures (Term(b, doubled) - Term(a, doubled)) % 10 != 0
  {
  }

  lemma ExchangedTerms(a: int, b: int, first: bool)
    requires 0 <= a <= 9 && 0 <= b <= 9
    ensures (Term(b, first) - Term(a, first) + Term(a, !first) - Term(b, !first)) % 10 == 0
            <==> a == b || (a == 0 && b == 9) || (a == 9 && b == 0)
  {
  }

  lemma ExchangedDigits(a: char, b: char, first: bool)
    requires IsDigit(a) && IsDigit(b)
    ensures
      var u, v := Value(a), Value(b);
      (Term(v, first) - Term(u, first) + Term(u, !first) - Term(v, !first)) % 10 == 0
      <==> a == b || (a == '0' && b == '9') || (a == '9' && b == '0')
  {
    ExchangedTerms(Value(a), Value(b), first);
  }

  lemma SumStaysValid(was: int, now: int)
    requires was % 10 == 0
    ensures now % 10 == 0 <==> (now - was) % 10 == 0
  {
  }

  /** One mistyped digit of a valid number is always noticed. */
  lemma LuhnDetectsMistypedDigit(s: string, p: nat, c: char)
    requires LuhnValid(s)
    requires p < |s| && IsDigit(s[p]) && IsDigit(c) && c != s[p]
    ensures !LuhnValid(s[p := c])
  {
    DigitsOfMistyped(s, p, c);
    var num, k := Digits(s), Index(s, p);
    LuhnSumChanges(num, k, c);
    TermsDiffer(Value(s[p]), Value(c), Doubled(num, k));
    SumStaysValid(LuhnSum(num), LuhnSum(num[k := c]));
  }

  lemma LuhnSumTransposed(num: string, k: nat)
    requires Numeric(num) && k + 1 < |num|
    ensures LuhnSum(num[k := num[k + 1]][k + 1 := num[k]]) - LuhnSum(num)
            == Term(Value(num[k + 1]), Doubled(num, k)) - Term(Value(num[k]), Doubled(num, k))
               + Term(Value(num[k]), !Doubled(num, k)) - Term(Value(num[k + 1]), !Doubled(num, k))
  {
    var once := num[k := num[k + 1]];
    LuhnSumChanges(num, k, num[k + 1]);
    assert Numeric(once) && |once| == |num| && once[k + 1] == num[k + 1];
    LuhnSumChanges(once, k + 1, num[k]);
    assert Doubled(once, k + 1) == !Doubled(num, k);
  }

  /** Two exchanged neighbouring digits of a valid number are noticed, unless they
      are equal or are 0 and 9. */
  lemma LuhnDetectsTransposition(s: string, p: nat, q: nat)
    requires LuhnValid(s) && Neighbours(s, p, q)
    ensures LuhnValid(Transposed(s, p, q)) <==>
            s[p] == s[q] || (s[p] == '0' && s[q] == '9') || (s[p] == '9' && s[q] == '0')
  {
    DigitsOfTransposed(s, p, q);
    var num, k := Digits(s), Index(s, p);
    LuhnSumTransposed(num, k);
    ExchangedDigits(s[p], s[q], Doubled(num, k));
    var num' := Digits(Transposed(s, p, q));
    assert |num'| == |num|;
    SumStaysValid(LuhnSum(num), LuhnSum(num'));
  }

  // ---------------------------------------------------------------- INN

  function WeightedSum(num: string, weights: seq<nat>): int
    requires Numeric(num) && |weights| <= |num|
  {
    if weights == [] then 0
    else Value(num[0]) * weights[0] + WeightedSum(num[1..], weights[1..])
  }

  function CheckDigit(num: string, weights: seq<nat>): int
    requires Numeric(num) && |weights| <= |num|
  {
    WeightedSum(num, weights) % 11 % 10
  }

  predicate InnChecksum(s: string) {
    var num := Digits(s);
    if |num| == 10 then CheckDigit(num, WEIGHTS_10) == Value(num[9])
    else if |num| == 12 then
      CheckDigit(num, WEIGHTS_12_1) == Value(num[10]) && CheckDigit(num, WEIGHTS_12_2) == Value(num[11])
    else false
  }

  /** The value of a digit of a number, by its place. */
  function At(num: string, k: nat): int
    requires Numeric(num) && k < |num|
  {
    Value(num[k])
  }

  /** The weighted sum from place `k` on. */
  function SumFrom(num: string, weights: seq<nat>, k: nat): int
    requires Numeric(num) && k <= |weights| <= |num|
    decreases |weights| - k
  {
    if k == |weights| then 0 else weights[k] * At(num, k) + SumFrom(num, weights, k + 1)
  }

  lemma {:induction false} SumFromStart(num: string, weights: seq<nat>, k: nat)
    requires Numeric(num) && k <= |weights| <= |num|
    ensures SumFrom(num, weights, k) == WeightedSum(num[k..], weights[k..])
    decreases |weights| - k
  {
    if k < |weights| {
      SumFromStart(num, weights, k + 1);
      var n, w := num[k..], weights[k..];
      assert n[0] == num[k] && w[0] == weights[k] && n[1..] == num[k + 1..] && w[1..] == weights[k + 1..];
    }
  }

  lemma OneWeight(num: string, weights: seq<nat>, k: nat, w: nat)
    requires Numeric(num) && k < |weights| <= |num| && weights[k] == w
    ensures SumFrom(num, weights, k) == w * At(num, k) + SumFrom(num, weights, k + 1)
  {
  }

  lemma FiveWeights(num: string, weights: seq<nat>, k: nat, a: nat, b: nat, c: nat, d: nat, e: nat)
    requires Numeric(num) && k + 5 <= |weights| <= |num|
    requires weights[k] == a && weights[k + 1] == b && weights[k + 2] == c && weights[k + 3] == d && weights[k + 4] == e
    ensures SumFrom(num, weights, k)
            == a * At(num, k) + b * At(num, k + 1) + c * At(num, k + 2) + d * At(num, k + 3) + e * At(num, k + 4)
               + SumFrom(num, weights, k + 5)
  {
    OneWeight(num, weights, k, a);
    OneWeight(num, weights, k + 1, b);
    OneWeight(num, weights, k + 2, c);
    OneWeight(num, weights, k + 3, d);
    OneWeight(num, weights, k + 4, e);
  }

  lemma Sum10(num: string)
    requires Numeric(num) && |num| >= 9
    ensures WeightedSum(num, WEIGHTS_10)
            == 2 * At(num, 0) + 4 * At(num, 1) + 10 * At(num, 2) + 3 * At(num, 3) + 5 * At(num, 4)
               + 9 * At(num, 5) + 4 * At(num, 6) + 6 * At(num, 7) + 8 * At(num, 8)
  {
    SumFromStart(num, WEIGHTS_10, 0);
    assert num[0..] == num && WEIGHTS_10[0..] == WEIGHTS_10;
    FiveWeights(num, WEIGHTS_10, 0, 2, 4, 10, 3, 5);
    OneWeight(num, WEIGHTS_10, 5, 9);
    OneWeight(num, WEIGHTS_10, 6, 4);
    OneWeight(num, WEIGHTS_10, 7, 6);
    OneWeight(num, WEIGHTS_10, 8, 8);
  }

  lemma Sum12First(num: string)
    requires Numeric(num) && |num| >= 10
    ensures WeightedSum(num, WEIGHTS_12_1)
            == 7 * At(num, 0) + 2 * At(num, 1) + 4 * At(num, 2) + 10 * At(num, 3) + 3 * At(num, 4)
               + 5 * At(num, 5) + 9 * At(num, 6) + 4 * At(num, 7) + 6 * At(num, 8) + 8 * At(num, 9)
  {
    SumFromStart(num, WEIGHTS_12_1, 0);
    assert num[0..] == num && WEIGHTS_12_1[0..] == WEIGHTS_12_1;
    FiveWeights(num, WEIGHTS_12_1, 0, 7, 2, 4, 10, 3);
    FiveWeights(num, WEIGHTS_12_1, 5, 5, 9, 4, 6, 8);
  }

  lemma Sum12Second(num: string)
    requires Numeric(num) && |num| >= 11
    ensures WeightedSum(num, WEIGHTS_12_2)
            == 3 * At(num, 0) + 7 * At(num, 1) + 2 * At(num, 2) + 4 * At(num, 3) + 10 * At(num, 4)
               + 3 * At(num, 5) + 5 * At(num, 6) + 9 * At(num, 7) + 4 * At(num, 8) + 6 * At(num, 9)
               + 8 * At(num, 10)
  {
    SumFromStart(num, WEIGHTS_12_2, 0);
    assert num[0..] == num && WEIGHTS_12_2[0..] == WEIGHTS_12_2;
    FiveWeights(num, WEIGHTS_12_2, 0, 3, 7, 2, 4, 10);
    FiveWeights(num, WEIGHTS_12_2, 5, 3, 5, 9, 4, 6);
    OneWeight(num, WEIGHTS_12_2, 10, 8);
  }

  lemma {:induction false} WeightedSumChanges(num: string, weights: seq<nat>, k: nat, c: char)
    requires Numeric(num) && |weights| <= |num| && k < |num| && IsDigit(c)
    ensures WeightedSum(num[k := c], weights) - WeightedSum(num, weights)
            == if k < |weights| then (Value(c) - Value(num[k])) * weights[k] else 0
  {
    if weights == [] {
    } else if k == 0 {
      assert num[0 := c][1..] == num[1..];
      Distributes(Value(c), Value(num[0]), weights[0]);
    } else {
      WeightedSumChanges(num[1..], weights[1..], k - 1, c);
      assert num[k := c][1..] == num[1..][k - 1 := c];
    }
  }

  lemma Distributes(a: int, b: int, w: int)
    ensures a * w - b * w == (a - b) * w
  {
  }

  lemma Invertible(delta: int, w: int)
    requires 1 <= w <= 10 && -9 <= delta <= 9 && delta != 0
    ensures (delta * w) % 11 != 0
  {
    if w <= 5 {
      if w == 1 {} else if w == 2 {} else if w == 3 {} else if w == 4 {} else {}
    } else {
      if w == 6 {} else if w == 7 {} else if w == 8 {} else if w == 9 {} else {}
    }
  }

  lemma ResidueShifts(sum: int, shift: int)
    requires shift % 11 != 0
    ensures (sum + shift) % 11 != sum % 11
  {
  }

  /** Every weight is invertible modulo 11, so a changed digit moves the residue. */
  lemma ResidueMoves(sum: int, delta: int, w: int)
    requires 1 <= w <= 10 && -9 <= delta <= 9 && delta != 0
    ensures (sum + delta * w) % 11 != sum % 11
  {
    Invertible(delta, w);
    ResidueShifts(sum, delta * w);
  }

  /** The two residues that `% 11 % 10` cannot tell apart. */
  predicate Confused(a: int, b: int) {
    (a % 11 == 0 && b % 11 == 10) || (a % 11 == 10 && b % 11 == 0)
  }

  lemma UnnoticedIsConfused(sum: int, delta: int, w: int)
    requires 1 <= w <= 10 && -9 <= delta <= 9 && delta != 0
    ensures (sum + delta * w) % 11 % 10 == sum % 11 % 10 <==> Confused(sum, sum + delta * w)
  {
    ResidueMoves(sum, delta, w);
  }

  /** A mistyped check digit of a 10-digit number is always noticed; any other mistyped
      digit is missed exactly when the weighted sums leave 0 and 10 modulo 11. */
  lemma Inn10DetectsMistypedDigit(s: string, p: nat, c: char)
    requires InnChecksum(s) && |Digits(s)| == 10
    requires p < |s| && IsDigit(s[p]) && IsDigit(c) && c != s[p]
    ensures |Digits(s[p := c])| == 10
    ensures InnChecksum(s[p := c]) <==>
            Index(s, p) < 9
            && Confused(WeightedSum(Digits(s), WEIGHTS_10), WeightedSum(Digits(s[p := c]), WEIGHTS_10))
  {
    DigitsOfMistyped(s, p, c);
    var num, k := Digits(s), Index(s, p);
    WeightedSumChanges(num, WEIGHTS_10, k, c);
    if k < 9 {
      UnnoticedIsConfused(WeightedSum(num, WEIGHTS_10), Value(c) - Value(num[k]), WEIGHTS_10[k]);
    }
  }

  lemma WeightsClash(k: nat, delta: int)
    requires k < 10 && -9 <= delta <= 9 && delta != 0
    ensures !((delta * WEIGHTS_12_1[k]) % 11 in {1, 10} && (delta * WEIGHTS_12_2[k]) % 11 in {1, 10})
  {
    if k < 5 {
      if k == 0 {} else if k == 1 {} else if k == 2 {} else if k == 3 {} else {}
    } else {
      if k == 5 {} else if k == 6 {} else if k == 7 {} else if k == 8 {} else {}
    }
  }

  lemma ConfusedApart(a: int, delta: int)
    requires Confused(a, a + delta)
    ensures delta % 11 in {1, 10}
  {
  }

  /** Whether a weighted sum still yields the same check digit. */
  predicate Unnoticed(a: int, b: int) { a % 11 % 10 == b % 11 % 10 }

  lemma UnnoticedMeansConfused(a: int, delta: int, w: int)
    requires 1 <= w <= 10 && -9 <= delta <= 9 && delta != 0
    requires Unnoticed(a, a + delta * w)
    ensures (delta * w) % 11 in {1, 10}
  {
    ResidueMoves(a, delta, w);
    ConfusedApart(a, delta * w);
  }

  /** No single change among the first ten digits escapes both check digits. */
  lemma OneCheckDigitNotices(a: int, b: int, k: nat, delta: int)
    requires k < 10 && -9 <= delta <= 9 && delta != 0
    ensures !(Unnoticed(a, a + delta * WEIGHTS_12_1[k]) && Unnoticed(b, b + delta * WEIGHTS_12_2[k]))
  {
    WeightsClash(k, delta);
    var v, w := WEIGHTS_12_1[k], WEIGHTS_12_2[k];
    if Unnoticed(a, a + delta * v) && Unnoticed(b, b + delta * w) {
      UnnoticedMeansConfused(a, delta, v);
      UnnoticedMeansConfused(b, delta, w);
      assert false;
    }
  }

  /** The two check digits of a 12-digit number together notice every mistyped digit. */
  lemma Inn12DetectsMistypedDigit(s: string, p: nat, c: char)
    requires InnChecksum(s) && |Digits(s)| == 12
    requires p < |s| && IsDigit(s[p]) && IsDigit(c) && c != s[p]
    ensures !InnChecksum(s[p := c])
  {
    DigitsOfMistyped(s, p, c);
    var num, k := Digits(s), Index(s, p);
    WeightedSumChanges(num, WEIGHTS_12_1, k, c);
    WeightedSumChanges(num, WEIGHTS_12_2, k, c);
    var delta := Value(c) - Value(num[k]);
    var a, b := WeightedSum(num, WEIGHTS_12_1), WeightedSum(num, WEIGHTS_12_2);
    if k < 10 {
      OneCheckDigitNotices(a, b, k, delta);
    } else if k == 10 {
      ResidueMoves(b, delta, WEIGHTS_12_2[10]);
    }
  }

  /** The 10-digit checksum in figures. */
  lemma Inn10InFull(s: string)
    requires |Digits(s)| == 10
    ensures
      var d := Digits(s);
      InnChecksum(s) <==>
      (2 * At(d, 0) + 4 * At(d, 1) + 10 * At(d, 2) + 3 * At(d, 3) + 5 * At(d, 4)
       + 9 * At(d, 5) + 4 * At(d, 6) + 6 * At(d, 7) + 8 * At(d, 8)) % 11 % 10 == At(d, 9)
  {
    Sum10(Digits(s));
  }

  lemma FirstCheckOf12(num: string)
    requires Numeric(num) && |num| == 12
    ensures CheckDigit(num, WEIGHTS_12_1)
            == (7 * At(num, 0) + 2 * At(num, 1) + 4 * At(num, 2) + 10 * At(num, 3) + 3 * At(num, 4)
                + 5 * At(num, 5) + 9 * At(num, 6) + 4 * At(num, 7) + 6 * At(num, 8) + 8 * At(num, 9)) % 11 % 10
  {
    Sum12First(num);
  }

  lemma SecondCheckOf12(num: string)
    requires Numeric(num) && |num| == 12
    ensures CheckDigit(num, WEIGHTS_12_2)
            == (3 * At(num, 0) + 7 * At(num, 1) + 2 * At(num, 2) + 4 * At(num, 3) + 10 * At(num, 4)
                + 3 * At(num, 5) + 5 * At(num, 6) + 9 * At(num, 7) + 4 * At(num, 8) + 6 * At(num, 9)
                + 8 * At(num, 10)) % 11 % 10
  {
    Sum12Second(num);
  }

  lemma TwoCheckDigits(s: string)
    requires |Digits(s)| == 12
    ensures
      var d := Digits(s);
      InnChecksum(s)
      <==> CheckDigit(d, WEIGHTS_12_1) == At(d, 10) && CheckDigit(d, WEIGHTS_12_2) == At(d, 11)
  {
  }

  /** The 12-digit checksum in figures; a number of another length has none. */
  lemma Inn12InFull(s: string)
    ensures |Digits(s)| != 10 && |Digits(s)| != 12 ==> !InnChecksum(s)
    ensures |Digits(s)| == 12 ==>
              var d := Digits(s);
              InnChecksum(s) <==>
              && (7 * At(d, 0) + 2 * At(d, 1) + 4 * At(d, 2) + 10 * At(d, 3) + 3 * At(d, 4)
                  + 5 * At(d, 5) + 9 * At(d, 6) + 4 * At(d, 7) + 6 * At(d, 8) + 8 * At(d, 9)) % 11 % 10 == At(d, 10)
              && (3 * At(d, 0) + 7 * At(d, 1) + 2 * At(d, 2) + 4 * At(d, 3) + 10 * At(d, 4)
                  + 3 * At(d, 5) + 5 * At(d, 6) + 9 * At(d, 7) + 4 * At(d, 8) + 6 * At(d, 9)
                  + 8 * At(d, 10)) % 11 % 10 == At(d, 11)
  {
    if |Digits(s)| == 12 {
      TwoCheckDigits(s);
      FirstCheckOf12(Digits(s));
      SecondCheckOf12(Digits(s));
    }
  }

  /** A mistyped digit that the 10-digit checksum does miss: 1 for 0 in the third place
      of ten zeros. */
  lemma Inn10MissesADigit(s: string)
    requires |s| == 10 && forall i :: 0 <= i < 10 ==> s[i] == '0'
    ensures InnChecksum(s) && InnChecksum(s[2 := '1'])
  {
    AllDigits(s);
    AllDigits(s[2 := '1']);
    ZeroSum(s, WEIGHTS_10);
    WeightedSumChanges(s, WEIGHTS_10, 2, '1');
  }

  lemma {:induction false} AllDigits(s: string)
    requires Numeric(s)
    ensures Digits(s) == s
  {
    if s != "" {
      AllDigits(s[..|s| - 1]);
    }
  }

  lemma {:induction false} ZeroSum(num: string, weights: seq<nat>)
    requires Numeric(num) && |weights| <= |num| && forall i :: 0 <= i < |num| ==> num[i] == '0'
    ensures WeightedSum(num, weights) == 0
  {
    if weights != [] {
      ZeroSum(num[1..], weights[1..]);
    }
  }
}
