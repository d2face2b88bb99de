// The Luhn check digit (ISO/IEC 7812-1, Annex B) over a digit run with separators.
module Luhn {

  predicate IsDigit(c: char) { '0' <= c <= '9' }

  predicate IsSeparator(c: char) { c == ' ' || c == '-' }

  type Figure = d: int | 0 <= d < 10

  function Value(c: char): Figure
    requires IsDigit(c)
  {
    c as int - '0' as int
  }

  /** What one digit adds to the sum: doubled, with the digits of the double added up. */
  function Weighed(d: Figure, double: bool): (w: Figure)
    ensures double ==> w == 2 * d || w == 2 * d - 9
  {
    if !double then d else if 2 * d > 9 then 2 * d - 9 else 2 * d
  }

  /** The sum from the right end leftwards, doubling every other digit. */
  function SumFrom(ds: seq<Figure>, double: bool): nat {
    if ds == [] then 0
    else Weighed(ds[|ds| - 1], double) + SumFrom(ds[..|ds| - 1], !double)
  }

  predicate Allowed(s: string) {
    forall k | 0 <= k < |s| :: IsDigit(s[k]) || IsSeparator(s[k])
  }

  /** The digits of s, in order. */
  function Figures(s: string): (ds: seq<Figure>) {
    if s == "" then []
    else Figures(s[..|s| - 1]) + if IsDigit(s[|s| - 1]) then [Value(s[|s| - 1])] else []
  }

  predicate Valid(s: string) {
    Allowed(s) && 13 <= |Figures(s)| <= 19 && SumFrom(Figures(s), false) % 10 == 0
  }

  lemma FiguresStep(s: string, i: nat)
    requires i < |s|
    ensures Figures(s[..i + 1]) == if IsDigit(s[i]) then Figures(s[..i]) + [Value(s[i])] else Figures(s[..i])
  {
    assert s[..i + 1][..i] == s[..i];
    assert Figures(s[..i]) + [] == Figures(s[..i]);
  }

  lemma SumStep(ds: seq<Figure>, d: Figure, double: bool)
    ensures SumFrom(ds + [d], double) == Weighed(d, double) + SumFrom(ds, !double)
  {
    assert (ds + [d])[..|ds|] == ds;
  }

  method LuhnValid(s: string) returns (ok: bool)
    ensures ok <==> Valid(s)
  {
    var sum, count, double := 0, 0, false;
    var i := |s|;
    assert s[..i] == s;
    while i > 0
      invariant 0 <= i <= |s|
      invariant forall k | i <= k < |s| :: IsDigit(s[k]) || IsSeparator(s[k])
      invariant count + |Figures(s[..i])| == |Figures(s)|
      invariant sum + SumFrom(Figures(s[..i]), double) == SumFrom(Figures(s), false)
    {
      i := i - 1;
      FiguresStep(s, i);
      var c := s[i];
      if IsSeparator(c) {
        continue;
      } else if IsDigit(c) {
        SumStep(Figures(s[..i]), Value(c), double);
        var d: int := Value(c);
        count := count + 1;
        if double {
          d := d * 2;
          if d > 9 {
            d := d - 9;
          }
        }
        sum := sum + d;
        double := !double;
      } else {
        return false;
      }
    }
    if count < 13 || count > 19 {
      return false;
    }
    ok := sum % 10 == 0;
  }

  // ---------- what the sum is ----------

  /** Digits count as themselves; everything else is left out. */
  lemma FiguresExactly(s: string, c: char)
    ensures Figures("") == []
    ensures Figures(s + [c]) == Figures(s) + if '0' <= c <= '9' then [c as int - '0' as int] else []
  {
    assert (s + [c])[..|s|] == s;
  }

  /** Two digits at a time from the right: the last counts as it is, and of the one before it
      the digits of its double are added up. */
  lemma SumExactly(ds: seq<Figure>, x: Figure, y: Figure)
    ensures SumFrom([], false) == 0 && SumFrom([y], false) == y
    ensures SumFrom(ds + [x] + [y], false) == SumFrom(ds, false) + 2 * x / 10 + 2 * x % 10 + y
  {
    SumStep(ds + [x], y, false);
    SumStep(ds, x, true);
    assert [y][..0] == [];
  }

  /** Which numbers pass: only digits, spaces and hyphens, 13 to 19 of them digits, with a sum
      that is a multiple of ten. */
  lemma ValidExactly(s: string)
    ensures Valid(s) <==>
            && (forall c | c in s :: '0' <= c <= '9' || c == ' ' || c == '-')
            && 13 <= |Figures(s)| <= 19 && exists k: int :: SumFrom(Figures(s), false) == 10 * k
  {
    var n := SumFrom(Figures(s), false);
    assert n == 10 * (n / 10) + n % 10;
    if Allowed(s) {
      forall c | c in s ensures '0' <= c <= '9' || c == ' ' || c == '-' {
        var k :| 0 <= k < |s| && s[k] == c;
        assert IsDigit(s[k]) || IsSeparator(s[k]);
      }
    }
    if forall c | c in s :: '0' <= c <= '9' || c == ' ' || c == '-' {
      forall k | 0 <= k < |s| ensures IsDigit(s[k]) || IsSeparator(s[k]) {
        assert s[k] in s;
      }
    }
  }

  // ---------- separators ----------

  lemma {:induction false} FiguresJoin(a: string, b: string)
    ensures Figures(a + b) == Figures(a) + Figures(b)
  {
    if b == "" {
      assert a + b == a;
    } else {
      assert (a + b)[..|a + b| - 1] == a + b[..|b| - 1];
      FiguresJoin(a, b[..|b| - 1]);
    }
  }

  lemma {:induction false} NoFigures(m: string)
    requires forall k | 0 <= k < |m| :: IsSeparator(m[k])
    ensures Figures(m) == []
  {
    if m != "" {
      NoFigures(m[..|m| - 1]);
    }
  }

  /** Spaces and hyphens put in anywhere, or taken out, do not change the answer. */
  lemma SeparatorsDoNotMatter(a: string, m: string, b: string)
    requires forall k | 0 <= k < |m| :: IsSeparator(m[k])
    ensures Valid(a + m + b) <==> Valid(a + b)
  {
    var s, t := a + m + b, a + b;
    FiguresJoin(a + m, b);
    FiguresJoin(a, m);
    FiguresJoin(a, b);
    NoFigures(m);
    assert Figures(s) == Figures(t);
    if Allowed(s) {
      forall k | 0 <= k < |t| ensures IsDigit(t[k]) || IsSeparator(t[k]) {
        assert t[k] == s[if k < |a| then k else k + |m|];
      }
    }
    if Allowed(t) {
      forall k | 0 <= k < |s| ensures IsDigit(s[k]) || IsSeparator(s[k]) {
        assert |a| <= k < |a| + |m| || s[k] == t[if k < |a| then k else k - |m|];
        assert |a| <= k < |a| + |m| ==> s[k] == m[k - |a|];
      }
    }
  }

  // ---------- errors the check detects ----------

  predicate Odd(n: int) { n % 2 == 1 }

  /** Putting y at position k changes the sum by what the two digits weigh there. */
  lemma {:induction false} SumUpdate(ds: seq<Figure>, k: nat, y: Figure, double: bool)
    requires k < |ds|
    ensures var w := double != Odd(|ds| - 1 - k);
            SumFrom(ds[k := y], double) == SumFrom(ds, double) - Weighed(ds[k], w) + Weighed(y, w)
  {
    var n := |ds| - 1;
    if k < n {
      assert ds[k := y][..n] == ds[..n][k := y];
      SumUpdate(ds[..n], k, y, !double);
    } else {
      assert ds[k := y][..n] == ds[..n];
    }
  }

  lemma WeighedInjective(x: Figure, y: Figure, double: bool)
    ensures Weighed(x, double) == Weighed(y, double) <==> x == y
  {
  }

  lemma Remainders(s: int, x: Figure, y: Figure)
    ensures s % 10 == (s - x + y) % 10 <==> x == y
  {
  }

  /** Replacing one digit by another changes the sum modulo 10. */
  lemma SubstitutionChangesSum(ds: seq<Figure>, k: nat, y: Figure)
    requires k < |ds| && y != ds[k]
    ensures SumFrom(ds[k := y], false) % 10 != SumFrom(ds, false) % 10
  {
    var w := Odd(|ds| - 1 - k);
    SumUpdate(ds, k, y, false);
    WeighedInjective(ds[k], y, w);
    Remainders(SumFrom(ds, false), Weighed(ds[k], w), Weighed(y, w));
  }

  lemma FiguresAround(a: string, x: char, b: string)
    requires IsDigit(x)
    ensures Figures(a + [x] + b) == Figures(a) + [Value(x)] + Figures(b)
  {
    FiguresJoin(a + [x], b);
    FiguresJoin(a, [x]);
  }

  lemma Replaced(p: seq<Figure>, x: Figure, y: Figure, q: seq<Figure>)
    ensures (p + [x] + q)[|p| := y] == p + [y] + q
  {
  }

  /** Every substitution of one digit by another in a valid run is rejected. */
  lemma SubstitutionDetected(a: string, x: char, y: char, b: string)
    requires IsDigit(x) && IsDigit(y) && x != y && Valid(a + [x] + b)
    ensures !Valid(a + [y] + b)
  {
    FiguresAround(a, x, b);
    FiguresAround(a, y, b);
    Replaced(Figures(a), Value(x), Value(y), Figures(b));
    SubstitutionChangesSum(Figures(a + [x] + b), |Figures(a)|, Value(y));
  }

  lemma Apart(n: int, i: int, j: int)
    ensures Odd(j - i) <==> Odd(n - i) != Odd(n - j)
  {
  }

  /** Exchanging two digits an odd distance apart leaves the sum as it was, modulo 10,
      exactly when they are equal or are 0 and 9. */
  lemma ExchangeKeepsSum(ds: seq<Figure>, i: nat, j: nat)
    requires i < j < |ds| && Odd(j - i)
    ensures var x, y := ds[i], ds[j];
            SumFrom(ds[i := y][j := x], false) % 10 == SumFrom(ds, false) % 10
            <==> x == y || (x == 0 && y == 9) || (x == 9 && y == 0)
  {
    var x: Figure, y: Figure := ds[i], ds[j];
    Apart(|ds| - 1, i, j);
    SumUpdate(ds, i, y, false);
    SumUpdate(ds[i := y], j, x, false);
    Weights(SumFrom(ds, false), x, y, Odd(|ds| - 1 - i));
  }

  lemma Weights(s: int, x: Figure, y: Figure, w: bool)
    ensures (s - Weighed(x, w) + Weighed(y, w) - Weighed(y, !w) + Weighed(x, !w)) % 10 == s % 10
            <==> x == y || (x == 0 && y == 9) || (x == 9 && y == 0)
  {
    var d := Weighed(y, w) - Weighed(x, w) + Weighed(x, !w) - Weighed(y, !w);
    assert -18 <= d <= 18;
  }

  /** Exchanging two digits an even distance apart is never noticed. */
  lemma EvenExchangeUnnoticed(ds: seq<Figure>, i: nat, j: nat)
    requires i < j < |ds| && !Odd(j - i)
    ensures SumFrom(ds[i := ds[j]][j := ds[i]], false) == SumFrom(ds, false)
  {
    Apart(|ds| - 1, i, j);
    SumUpdate(ds, i, ds[j], false);
    SumUpdate(ds[i := ds[j]], j, ds[i], false);
  }

  lemma AllowedExchange(a: string, x: char, m: string, y: char, b: string)
    requires IsDigit(x) && IsDigit(y) && Allowed(a + [x] + m + [y] + b)
    ensures Allowed(a + [y] + m + [x] + b)
  {
    var s, t := a + [x] + m + [y] + b, a + [y] + m + [x] + b;
    forall p | 0 <= p < |t| ensures IsDigit(t[p]) || IsSeparator(t[p]) {
      assert t[p] == s[p] || t[p] == x || t[p] == y;
    }
  }

  lemma NeighboursKeepSum(p: seq<Figure>, x: Figure, y: Figure, q: seq<Figure>)
    ensures SumFrom(p + [y] + [x] + q, false) % 10 == SumFrom(p + [x] + [y] + q, false) % 10
            <==> x == y || (x == 0 && y == 9) || (x == 9 && y == 0)
  {
    PairExchanged(p, x, y, q);
    ExchangeKeepsSum(p + [x] + [y] + q, |p|, |p| + 1);
  }

  /** Exchanging two neighbouring digits, whatever separators stand between them, is
      rejected unless they are equal or are 0 and 9. */
  lemma AdjacentExchange(a: string, x: char, m: string, y: char, b: string)
    requires IsDigit(x) && IsDigit(y) && (forall k | 0 <= k < |m| :: IsSeparator(m[k]))
    requires Valid(a + [x] + m + [y] + b)
    ensures Valid(a + [y] + m + [x] + b) <==> x == y || (x == '0' && y == '9') || (x == '9' && y == '0')
  {
    FiguresOfPair(a, x, m, y, b);
    FiguresOfPair(a, y, m, x, b);
    NeighboursKeepSum(Figures(a), Value(x), Value(y), Figures(b));
    AllowedExchange(a, x, m, y, b);
  }

  lemma FiguresOfPair(a: string, x: char, m: string, y: char, b: string)
    requires IsDigit(x) && IsDigit(y) && (forall k | 0 <= k < |m| :: IsSeparator(m[k]))
    ensures Figures(a + [x] + m + [y] + b) == Figures(a) + [Value(x)] + [Value(y)] + Figures(b)
  {
    FiguresAround(a + [x] + m, y, b);
    FiguresAround(a, x, m);
    NoFigures(m);
  }

  lemma PairExchanged(p: seq<Figure>, x: Figure, y: Figure, q: seq<Figure>)
    ensures var ds := p + [x] + [y] + q;
            ds[|p|] == x && ds[|p| + 1] == y && ds[|p| := y][|p| + 1 := x] == p + [y] + [x] + q
  {
  }

  // ---------- the check digit ----------

  function CheckDigit(payload: seq<Figure>): Figure {
    (10 - SumFrom(payload, true) % 10) % 10
  }

  lemma Completes(ds: seq<Figure>, d: Figure)
    ensures SumFrom(ds + [d], false) % 10 == 0 <==> d == CheckDigit(ds)
  {
    SumStep(ds, d, false);
    Residue(d, SumFrom(ds, true));
  }

  lemma Residue(d: Figure, s: nat)
    ensures (d + s) % 10 == 0 <==> d == (10 - s % 10) % 10
  {
  }

  /** Each payload of 12 to 18 digits is completed by exactly one check digit. */
  lemma OneCheckDigit(payload: string, c: char)
    requires Allowed(payload) && 12 <= |Figures(payload)| <= 18 && IsDigit(c)
    ensures Valid(payload + [c]) <==> Value(c) == CheckDigit(Figures(payload))
  {
    FiguresJoin(payload, [c]);
    Completes(Figures(payload), Value(c));
  }
}
