// The IBAN check: ISO 7064 MOD 97-10 over the rotated, letter-expanded string.
module Iban {

  predicate IsUpper(c: char) { 'A' <= c <= 'Z' }

  predicate IsDigit(c: char) { '0' <= c <= '9' }

  /** A digit counts as itself, a letter as 10 for A to 35 for Z. */
  function Value(c: char): int {
    if IsDigit(c) then c as int - '0' as int else c as int - 'A' as int + 10
  }

  /** One decimal place for a digit, two for a letter. */
  function Width(c: char): nat {
    if IsDigit(c) then 10 else 100
  }

  /** Continues the decimal number e with the digits of the expanded characters of s. */
  function Fold(e: int, s: string): int {
    if s == "" then e else Fold(e, s[..|s| - 1]) * Width(s[|s| - 1]) + Value(s[|s| - 1])
  }

  /** The number whose decimal digits are those of the expanded characters, unbounded. */
  function Expand(s: string): int {
    Fold(0, s)
  }

  function WithoutSpaces(s: string): string {
    if s == "" then ""
    else WithoutSpaces(s[..|s| - 1]) + if s[|s| - 1] == ' ' then "" else [s[|s| - 1]]
  }

  predicate WellFormed(c: string) {
    && 15 <= |c| <= 34
    && IsUpper(c[0]) && IsUpper(c[1]) && IsDigit(c[2]) && IsDigit(c[3])
    && forall k | 4 <= k < |c| :: IsUpper(c[k]) || IsDigit(c[k])
  }

  /** Country code and check digits moved to the end. */
  function Rotated(c: string): string
    requires 4 <= |c|
  {
    c[4..] + c[..4]
  }

  /** An IBAN without spaces: its form is right and its number is 1 modulo 97. */
  predicate Valid(c: string) {
    WellFormed(c) && Expand(Rotated(c)) % 97 == 1
  }

  /** Spaces go, everything else stays in order. */
  lemma SpacesExactly(s: string, c: char)
    ensures WithoutSpaces("") == ""
    ensures WithoutSpaces(s + [c]) == if c == ' ' then WithoutSpaces(s) else WithoutSpaces(s) + [c]
  {
    assert (s + [c])[..|s|] == s;
  }

  // ---------- what the number is ----------

  /** Character by character: a digit adds one decimal place, a letter two, A being 10. */
  lemma ExpandExactly(s: string, c: char)
    ensures Expand("") == 0
    ensures '0' <= c <= '9' ==> Expand(s + [c]) == Expand(s) * 10 + (c as int - '0' as int)
    ensures 'A' <= c <= 'Z' ==> Expand(s + [c]) == Expand(s) * 100 + 10 + (c as int - 'A' as int)
  {
    assert (s + [c])[..|s|] == s;
  }

  /** Which strings pass: 15 to 34 characters, two letters and two digits first and letters
      and digits after them, and with these four moved to the end one more than a multiple of
      97. */
  lemma ValidExactly(c: string)
    ensures Valid(c) <==>
            && 15 <= |c| <= 34
            && 'A' <= c[0] <= 'Z' && 'A' <= c[1] <= 'Z' && '0' <= c[2] <= '9' && '0' <= c[3] <= '9'
            && (forall k | 4 <= k < |c| :: 'A' <= c[k] <= 'Z' || '0' <= c[k] <= '9')
            && exists k: int :: Expand(c[4..] + c[..4]) == 97 * k + 1
  {
    if 4 <= |c| {
      Remains(Expand(c[4..] + c[..4]));
    }
  }

  lemma Remains(n: int)
    ensures n % 97 == 1 <==> exists k: int :: n == 97 * k + 1
  {
    assert n == 97 * (n / 97) + n % 97;
  }

  // ---------- the loops ----------

  lemma FoldDigit(e: int, v: int)
    ensures (e % 97 * 10 + v) % 97 == (e * 10 + v) % 97
  {
    var q := e / 97;
    assert e * 10 + v == (e % 97 * 10 + v) + 97 * (q * 10);
    AddMultiple(e % 97 * 10 + v, q * 10);
  }

  lemma AddMultiple(a: int, k: int)
    ensures (a + 97 * k) % 97 == a % 97
  {
  }

  lemma FoldLetter(e: int, v: int)
    requires 10 <= v <= 35
    ensures ((e % 97 * 10 + v / 10) % 97 * 10 + v % 10) % 97 == (e * 100 + v) % 97
  {
    FoldDigit(e, v / 10);
    FoldDigit(e * 10 + v / 10, v % 10);
  }

  method Compacted(s: string) returns (compact: string)
    ensures compact == WithoutSpaces(s)
  {
    compact := "";
    var i := 0;
    while i < |s|
      invariant i <= |s| && compact == WithoutSpaces(s[..i])
    {
      assert s[..i + 1][..i] == s[..i];
      if s[i] != ' ' {
        compact := compact + [s[i]];
      }
      i := i + 1;
    }
    assert s[..i] == s;
  }

  /** The running remainder stays below 97 and comes out as that of the whole number. */
  method Mod97(rearranged: string) returns (mod: int)
    requires forall k | 0 <= k < |rearranged| :: IsUpper(rearranged[k]) || IsDigit(rearranged[k])
    ensures mod == Expand(rearranged) % 97
  {
    mod := 0;
    var i := 0;
    while i < |rearranged|
      invariant i <= |rearranged| && mod == Expand(rearranged[..i]) % 97
    {
      var c := rearranged[i];
      ghost var e := Expand(rearranged[..i]);
      assert rearranged[..i + 1][..i] == rearranged[..i];
      if IsDigit(c) {
        FoldDigit(e, Value(c));
        mod := (mod * 10 + (c as int - '0' as int)) % 97;
      } else {
        var value := c as int - 'A' as int + 10;
        FoldLetter(e, value);
        mod := (mod * 10 + value / 10) % 97;
        mod := (mod * 10 + value % 10) % 97;
      }
      i := i + 1;
    }
    assert rearranged[..i] == rearranged;
  }

  method IBANValid(s: string) returns (ok: bool)
    ensures ok <==> Valid(WithoutSpaces(s))
  {
    var compact := Compacted(s);
    var n := |compact|;
    if n < 15 || n > 34 {
      return false;
    }
    if !IsUpper(compact[0]) || !IsUpper(compact[1]) || !IsDigit(compact[2]) || !IsDigit(compact[3]) {
      return false;
    }
    var i := 4;
    while i < n
      invariant 4 <= i <= n && forall k | 4 <= k < i :: IsUpper(compact[k]) || IsDigit(compact[k])
    {
      if !IsUpper(compact[i]) && !IsDigit(compact[i]) {
        return false;
      }
      i := i + 1;
    }
    var rearranged := compact[4..] + compact[..4];
    var mod := Mod97(rearranged);
    ok := mod == 1;
  }

  // ---------- places and powers of ten ----------

  lemma {:induction false} FoldJoin(e: int, a: string, b: string)
    ensures Fold(e, a + b) == Fold(Fold(e, a), b)
  {
    if b == "" {
      assert a + b == a;
    } else {
      assert (a + b)[..|a + b| - 1] == a + b[..|b| - 1];
      FoldJoin(e, a, b[..|b| - 1]);
    }
  }

  /** Ten to the k, modulo 97. */
  function Power(k: nat): (p: nat)
    ensures p < 97
  {
    if k == 0 then 1 else Power(k - 1) * 10 % 97
  }

  function Places(s: string): (n: nat)
    ensures |s| <= n <= 2 * |s|
  {
    if s == "" then 0 else Places(s[..|s| - 1]) + if IsDigit(s[|s| - 1]) then 1 else 2
  }

  lemma {:induction false} PowerSum(i: nat, j: nat)
    ensures Power(i + j) == Power(i) * Power(j) % 97
  {
    if j > 0 {
      PowerSum(i, j - 1);
      var p := Power(i) * Power(j - 1);
      FoldDigit(p, 0);
      var q := Power(j - 1) * 10 / 97;
      assert p * 10 == Power(i) * Power(j) + 97 * (Power(i) * q) by { Carry(Power(i), Power(j - 1), Power(j), q); }
      AddMultiple(Power(i) * Power(j), Power(i) * q);
    }
  }

  lemma Carry(x: int, y: int, z: int, q: int)
    requires y * 10 == 97 * q + z
    ensures x * y * 10 == x * z + 97 * (x * q)
  {
    assert x * (y * 10) == x * (97 * q + z);
  }

  // Ten has order 96 modulo 97: k is 12a + b, and no 50^a is the inverse of a 10^b.

  const BABY: seq<nat> := [1, 10, 3, 30, 9, 90, 27, 76, 81, 34, 49, 5]

  lemma BabySteps()
    ensures Power(0) == 1 && Power(1) == 10 && Power(2) == 3 && Power(3) == 30
    ensures Power(4) == 9 && Power(5) == 90 && Power(6) == 27 && Power(7) == 76
    ensures Power(8) == 81 && Power(9) == 34 && Power(10) == 49 && Power(11) == 5
    ensures Power(12) == 50
  {
  }

  lemma NextGiant(k: nat)
    ensures Power(k + 12) == Power(k) * 50 % 97
  {
    BabySteps();
    PowerSum(k, 12);
  }

  /** 50 to the a, modulo 97. */
  function Giant(a: nat): nat {
    match a
    case 0 => 1 case 1 => 50 case 2 => 75 case 3 => 64
    case 4 => 96 case 5 => 47 case 6 => 22 case _ => 33
  }

  lemma GiantStep(a: nat)
    requires 1 <= a < 8
    ensures Giant(a - 1) * 50 % 97 == Giant(a)
  {
  }

  lemma {:induction false} GiantAt(a: nat)
    requires a < 8
    ensures Power(12 * a) == Giant(a)
  {
    if a > 0 {
      var k := 12 * (a - 1);
      GiantAt(a - 1);
      NextGiant(k);
      GiantStep(a);
      assert Power(k + 12) == Giant(a);
    }
  }

  lemma BabyAt(b: nat)
    requires b < 12
    ensures Power(b) == BABY[b]
  {
    BabySteps();
  }

  lemma NoInverse(a: nat, b: nat)
    requires 1 <= a < 8 && b < 12
    ensures Giant(a) * BABY[b] % 97 != 1
  {
    var r := Giant(a);
    assert r == 50 || r == 75 || r == 64 || r == 96 || r == 47 || r == 22 || r == 33;
  }

  lemma PowerNotOne(k: nat)
    requires 1 <= k < 96
    ensures Power(k) != 1
  {
    var a, b := k / 12, k % 12;
    BabyAt(b);
    if a > 0 {
      GiantAt(a);
      PowerSum(12 * a, b);
      NoInverse(a, b);
    }
  }

  // ---------- no zero divisors modulo 97 ----------

  lemma NoDivisor(d: nat)
    requires 2 <= d <= 25
    ensures 97 % d != 0
  {
  }

  /** A factor from 1 to 25 cancels. */
  lemma {:induction false} Cancel(d: nat, e: int)
    requires 1 <= d <= 25 && (d * e) % 97 == 0
    ensures e % 97 == 0
  {
    if d > 1 {
      NoDivisor(d);
      var q, r := 97 / d, 97 % d;
      var k := d * e / 97;
      Remainder(d, q, r, e, k);
      Cancel(r, e);
    }
  }

  lemma Remainder(d: int, q: int, r: int, e: int, k: int)
    requires 97 == d * q + r && d * e == 97 * k
    ensures (r * e) % 97 == 0
  {
    assert r * e == 97 * e - q * (d * e);
    assert q * (d * e) == 97 * (q * k);
    AddMultiple(0, e - q * k);
  }

  lemma NotCongruent(x: int, y: int)
    ensures x % 97 == y % 97 ==> (x - y) % 97 == 0
  {
  }

  // ---------- errors the check detects ----------

  predicate SameClass(x: char, y: char) {
    (IsDigit(x) && IsDigit(y)) || (IsUpper(x) && IsUpper(y))
  }

  /** Appending the same characters to two numbers keeps them apart modulo 97. */
  lemma {:induction false} FoldKeepsApart(e: int, f: int, s: string)
    requires e % 97 != f % 97
    ensures Fold(e, s) % 97 != Fold(f, s) % 97
  {
    if s != "" {
      var p, c := s[..|s| - 1], s[|s| - 1];
      FoldKeepsApart(e, f, p);
      var x, y := Fold(e, p), Fold(f, p);
      Apart(x, y, 0);
      if IsDigit(c) {
        Apart(x, y, Value(c));
      } else {
        Apart(x * 10, y * 10, Value(c));
      }
    }
  }

  lemma Apart(x: int, y: int, v: int)
    requires x % 97 != y % 97
    ensures (x * 10 + v) % 97 != (y * 10 + v) % 97
  {
    if (x * 10 + v) % 97 == (y * 10 + v) % 97 {
      NotCongruent(x * 10 + v, y * 10 + v);
    }
  }

  /** A difference grows by the place value of what is appended. */
  lemma {:induction false} FoldDifference(e: int, f: int, s: string)
    ensures (Fold(e, s) - Fold(f, s) - (e - f) * Power(Places(s))) % 97 == 0
  {
    if s != "" {
      var p := s[..|s| - 1];
      FoldDifference(e, f, p);
      OneMore(Fold(e, p), Fold(f, p), e - f, Places(p), s[|s| - 1]);
    }
  }

  lemma OneMore(x: int, y: int, d: int, k: nat, c: char)
    requires (x - y - d * Power(k)) % 97 == 0
    ensures (x * Width(c) + Value(c) - (y * Width(c) + Value(c))
             - d * Power(k + if IsDigit(c) then 1 else 2)) % 97 == 0
  {
    TimesTen(x - y, d, Power(k), Power(k + 1));
    if !IsDigit(c) {
      TimesTen((x - y) * 10, d, Power(k + 1), Power(k + 2));
    }
  }

  lemma TimesTen(x: int, d: int, p: int, p10: int)
    requires (x - d * p) % 97 == 0 && p10 == p * 10 % 97
    ensures (x * 10 - d * p10) % 97 == 0
  {
    var k, q := (x - d * p) / 97, p * 10 / 97;
    Carry(d, p, p10, q);
    assert x * 10 - d * p10 == 97 * (k * 10 + d * q);
  }

  lemma Product(d: int, g: int)
    requires 1 <= d <= 25 || -25 <= d <= -1
    requires g % 97 != 0
    ensures (d * g) % 97 != 0
  {
    if (d * g) % 97 == 0 {
      if d > 0 {
        Cancel(d, g);
      } else {
        Negated(d, g);
        Cancel(-d, g);
      }
    }
  }

  lemma Negated(d: int, g: int)
    requires (d * g) % 97 == 0
    ensures (-d * g) % 97 == 0
  {
    assert -d * g == -(d * g);
  }

  /** Characters of one class take as many digits each and differ by at most 25. */
  lemma OneOfClass(e: int, x: char, y: char)
    requires SameClass(x, y) && x != y
    ensures var d := Fold(e, [x]) - Fold(e, [y]);
            d == Value(x) - Value(y) && (1 <= d <= 25 || -25 <= d <= -1)
  {
    assert [x][..0] == [y][..0] == "";
  }

  lemma Near(e: int, f: int)
    requires 1 <= e - f <= 25 || -25 <= e - f <= -1
    ensures e % 97 != f % 97
  {
  }

  /** Replacing x by y between a and b changes the number by a nonzero residue. */
  lemma SubstitutionShifts(a: string, x: char, y: char, b: string)
    requires SameClass(x, y) && x != y
    ensures Expand(a + [x] + b) % 97 != Expand(a + [y] + b) % 97
  {
    var e, f := Fold(Expand(a), [x]), Fold(Expand(a), [y]);
    OneCharacter(a, x, b);
    OneCharacter(a, y, b);
    OneOfClass(Expand(a), x, y);
    Near(e, f);
    FoldKeepsApart(e, f, b);
  }

  lemma OneCharacter(a: string, x: char, b: string)
    ensures Expand(a + [x] + b) == Fold(Fold(Expand(a), [x]), b)
  {
    FoldJoin(0, a, [x]);
    FoldJoin(0, a + [x], b);
  }

  /** The numbers after exchanging x and y across m are apart by d times a power of ten
      less one. */
  lemma TranspositionShifts(a: string, x: char, m: string, y: char, b: string)
    requires SameClass(x, y) && x != y && |m| <= 46
    ensures Expand(a + [x] + m + [y] + b) % 97 != Expand(a + [y] + m + [x] + b) % 97
  {
    var e0, f0 := Fold(Expand(a), [x]), Fold(Expand(a), [y]);
    OneCharacter(a, x, m);
    OneCharacter(a, y, m);
    OneCharacter(a + [x] + m, y, b);
    OneCharacter(a + [y] + m, x, b);
    OneOfClass(Expand(a), x, y);
    Exchanged(e0, f0, m, x, y);
    FoldKeepsApart(Fold(Fold(e0, m), [y]), Fold(Fold(f0, m), [x]), b);
  }

  lemma Exchanged(e: int, f: int, m: string, x: char, y: char)
    requires SameClass(x, y) && x != y && |m| <= 46 && e - f == Value(x) - Value(y)
    ensures Fold(Fold(e, m), [y]) % 97 != Fold(Fold(f, m), [x]) % 97
  {
    var d, my := e - f, m + [y];
    FoldJoin(e, m, [y]);
    FoldJoin(f, m, [y]);
    FoldDifference(e, f, my);
    PowerNotOne(Places(my));
    LessOne(Fold(e, my), Fold(f, my), d, Power(Places(my)));
  }

  lemma LessOne(e: int, f: int, d: int, p: nat)
    requires (e - f - d * p) % 97 == 0 && p < 97 && p != 1 && (1 <= d <= 25 || -25 <= d <= -1)
    ensures e % 97 != (f + d) % 97
  {
    Product(d, p - 1);
    assert d * (p - 1) == d * p - d;
    AddMultiple(d * (p - 1), (e - f - d * p) / 97);
    NotCongruent(e, f + d);
  }

  /** Where position k of an IBAN of length n lands in the rotated string. */
  function Place(n: nat, k: nat): nat
    requires k < n && 4 <= n
  {
    if k < 4 then n - 4 + k else k - 4
  }

  /** Every single substitution of a letter for a letter or a digit for a digit in a
      valid IBAN is rejected. */
  lemma SubstitutionDetected(c: string, k: nat, y: char)
    requires Valid(c) && k < |c| && SameClass(c[k], y) && y != c[k]
    ensures !Valid(c[k := y])
  {
    var r, j := Rotated(c), Place(|c|, k);
    assert r == r[..j] + [c[k]] + r[j + 1..];
    assert Rotated(c[k := y]) == r[..j] + [y] + r[j + 1..];
    SubstitutionShifts(r[..j], c[k], y, r[j + 1..]);
  }

  lemma ExchangeIn(r: string, i: nat, j: nat)
    requires i < j < |r|
    ensures r == r[..i] + [r[i]] + r[i + 1..j] + [r[j]] + r[j + 1..]
    ensures r[i := r[j]][j := r[i]] == r[..i] + [r[j]] + r[i + 1..j] + [r[i]] + r[j + 1..]
  {
  }

  /** Every exchange of two different characters of one class in a valid IBAN, however far
      apart, is rejected. */
  lemma TranspositionDetected(c: string, i: nat, j: nat)
    requires Valid(c) && i < j < |c| && SameClass(c[i], c[j]) && c[i] != c[j]
    ensures !Valid(c[i := c[j]][j := c[i]])
  {
    var r := Rotated(c);
    var p, q := Place(|c|, i), Place(|c|, j);
    var lo, hi := if p < q then p else q, if p < q then q else p;
    assert Rotated(c[i := c[j]][j := c[i]]) == r[lo := r[hi]][hi := r[lo]];
    ExchangeIn(r, lo, hi);
    TranspositionShifts(r[..lo], r[lo], r[lo + 1..hi], r[hi], r[hi + 1..]);
  }

  // ---------- check digits ----------

  function Digit(d: nat): char
    requires d < 10
  {
    '0' + d as char
  }

  /** A country code and BBAN with the two-digit check number p. */
  function Checked(country: string, p: nat, bban: string): string
    requires p < 100
  {
    country + [Digit(p / 10), Digit(p % 10)] + bban
  }

  lemma CheckedNumber(country: string, p: nat, bban: string)
    requires p < 100 && |country| == 2
    ensures Expand(Rotated(Checked(country, p, bban))) == Expand(bban + country) * 100 + p
  {
    var x, y := Digit(p / 10), Digit(p % 10);
    var h := bban + country;
    assert Rotated(Checked(country, p, bban)) == h + [x] + [y];
    OneCharacter(h, x, [y]);
  }

  /** The check number a country code and BBAN call for. */
  function CheckNumber(country: string, bban: string): (p: nat)
    ensures 2 <= p <= 98
  {
    98 - Expand(bban + country) * 100 % 97
  }

  /** Each country code and BBAN has exactly one check number from 02 to 98. The check also
      accepts the other number below 100 with the same residue, where there is one: 00 for
      97, 01 for 98 and 99 for 02. */
  lemma OneCheckNumber(country: string, bban: string, p: nat)
    requires p < 100 && WellFormed(Checked(country, 0, bban)) && |country| == 2
    ensures Valid(Checked(country, p, bban)) <==> p % 97 == CheckNumber(country, bban) % 97
    ensures 2 <= p <= 98 ==> (Valid(Checked(country, p, bban)) <==> p == CheckNumber(country, bban))
  {
    CheckedForm(country, p, bban);
    CheckedNumber(country, p, bban);
    Residue(Expand(bban + country) * 100, p);
    if 2 <= p <= 98 {
      FullPeriod(p, CheckNumber(country, bban));
    }
  }

  lemma {:induction false} LeadingZeros(s: string)
    requires forall k | 0 <= k < |s| :: s[k] == '0'
    ensures Fold(0, s) == 0
  {
    if s != "" {
      LeadingZeros(s[..|s| - 1]);
    }
  }

  lemma FoldPair(e: int, a: char, b: char)
    ensures Fold(e, [a, b]) == (e * Width(a) + Value(a)) * Width(b) + Value(b)
  {
    FoldJoin(e, [a], [b]);
    assert [a] + [b] == [a, b] && [a][..0] == [b][..0] == "";
  }

  /** A German account of nine zeros and two digits, and the check number it calls for. */
  lemma GermanAccount(x: char, y: char) returns (bban: string)
    requires IsDigit(x) && IsDigit(y)
    ensures WellFormed(Checked("DE", 0, bban))
    ensures CheckNumber("DE", bban) == 98 - ((10 * Value(x) + Value(y)) * 10000 + 1314) * 100 % 97
  {
    var zeros := seq(9, _ => '0');
    bban := zeros + [x, y];
    LeadingZeros(zeros);
    FoldJoin(0, zeros, [x, y]);
    FoldJoin(0, bban, ['D', 'E']);
    FoldPair(0, x, y);
    FoldPair(Fold(0, [x, y]), 'D', 'E');
  }

  lemma GermanAccepted(p: nat, x: char, y: char) returns (bban: string)
    requires p < 100 && IsDigit(x) && IsDigit(y)
    requires p % 97 == (98 - ((10 * Value(x) + Value(y)) * 10000 + 1314) * 100 % 97) % 97
    ensures Valid(Checked("DE", p, bban))
  {
    bban := GermanAccount(x, y);
    OneCheckNumber("DE", bban, p);
  }

  /** Each of the three check numbers that are never assigned is accepted in some IBAN:
      DE0000000000066, DE0100000000048 and DE9900000000030. */
  lemma UnassignedCheckNumbersAccepted(p: nat) returns (bban: string)
    requires p == 0 || p == 1 || p == 99
    ensures Valid(Checked("DE", p, bban))
  {
    var x, y := if p == 0 then '6' else if p == 1 then '4' else '3',
                if p == 0 then '6' else if p == 1 then '8' else '0';
    bban := GermanAccepted(p, x, y);
  }

  lemma FullPeriod(p: nat, q: nat)
    requires 2 <= p <= 98 && 2 <= q <= 98
    ensures p % 97 == q % 97 <==> p == q
  {
  }

  lemma CheckedForm(country: string, p: nat, bban: string)
    requires p < 100 && |country| == 2 && WellFormed(Checked(country, 0, bban))
    ensures WellFormed(Checked(country, p, bban))
  {
    var z, c := Checked(country, 0, bban), Checked(country, p, bban);
    assert c == z[2 := Digit(p / 10)][3 := Digit(p % 10)];
  }

  lemma Residue(k: int, p: nat)
    ensures (k + p) % 97 == 1 <==> p % 97 == (98 - k % 97) % 97
  {
  }
}
