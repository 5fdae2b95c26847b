/** The assertions of the program's main. */
module DerivativeExamples {
  import opened Decimal
  import opened Polynomial
  import opened Expression
  import opened Derivative

  lemma Example(s: string, ts: seq<Signed>, text: string, us: seq<Signed>)
    requires Writes(s, ts) && CanonicalText(text, us) && MapOf(us) == Differentiated(MapOf(ts))
    ensures s != "" && DerivativeText(s) == text
  {
    WrittenText(s, ts);
    CanonicalDenotes(text, us);
    OnlyCanonicalResult(s, text, us);
  }

  /** The term is read as c times x to the power of k. */
  predicate Is(t: Signed, k: nat, c: int) {
    t.term.Valid() && MatchOf(t).Power() == k && MatchOf(t).Constant() == c
  }

  lemma MapOfNothing()
    ensures MapOf([]) == map[]
  {
  }

  lemma SumNothing(p: Poly)
    ensures Sum(p, map[]) == p
  {
  }

  lemma OneTerm(a: Signed, k: nat, c: int)
    requires Is(a, k, c)
    ensures WellFormed([a]) && MapOf([a]) == map[k := c]
  {
    MapOfStep([a]);
    assert [a][1..] == [];
    MapOfNothing();
    SumNothing(map[k := c]);
  }

  lemma TwoEntries(k: nat, c: int, l: nat, d: int)
    requires k != l
    ensures Sum(map[k := c], map[l := d]) == map[k := c, l := d]
  {
  }

  lemma TwoTerms(a: Signed, k: nat, c: int, b: Signed, l: nat, d: int)
    requires Is(a, k, c) && Is(b, l, d) && k != l
    ensures WellFormed([a, b]) && MapOf([a, b]) == map[k := c, l := d]
  {
    MapOfStep([a, b]);
    assert [a, b][1..] == [b];
    OneTerm(b, l, d);
    TwoEntries(k, c, l, d);
  }

  lemma SwapEntries(k: nat, c: int, l: nat, d: int)
    requires k != l
    ensures map[k := c, l := d] == map[l := d, k := c]
  {
  }

  lemma OneKey(k: nat, c: int, j: nat)
    ensures var p: Poly := map[k := c]; (j in p <==> j == k) && Coefficient(p, j) == if j == k then c else 0
  {
  }

  lemma DifferentiateOne(k: nat, c: int, m: nat)
    requires k == m + 1
    ensures Differentiated(map[k := c]) == map[m := Scale(k, c)]
  {
    var p: Poly := map[k := c];
    var q: Poly := map[m := Scale(k, c)];
    forall j: nat
      ensures j in Differentiated(p) <==> j in q
      ensures j in Differentiated(p) ==> Coefficient(Differentiated(p), j) == Coefficient(q, j)
    {
      DifferentiatedKey(p, j);
      DifferentiatedCoefficient(p, j);
      OneKey(k, c, j + 1);
      OneKey(m, Scale(k, c), j);
    }
    SamePoly(Differentiated(p), q);
  }

  lemma DifferentiateTwo(k: nat, c: int, m: nat, l: nat, d: int, n: nat)
    requires m != n && k == m + 1 && l == n + 1
    ensures Differentiated(map[k := c, l := d]) == map[m := Scale(k, c), n := Scale(l, d)]
  {
    TwoEntries(k, c, l, d);
    TwoEntries(m, Scale(k, c), n, Scale(l, d));
    DifferentiatedSum(map[k := c], map[l := d]);
    DifferentiateOne(k, c, m);
    DifferentiateOne(l, d, n);
  }

  function X(negative: bool, power: string): Signed {
    Signed(negative, Variable("", false, power != "", power))
  }

  function Multiple(negative: bool, factor: string, power: string): Signed {
    Signed(negative, Variable(factor, true, power != "", power))
  }

  lemma TextOfTwo(a: Signed, b: Signed)
    ensures Text([a, b]) == a.Text() + b.Text()
  {
    assert [a, b][1..] == [b] && [b][1..] == [];
    assert Text([b]) == b.Text() + "";
  }

  /** Two terms and, highest power first, their two results. */
  predicate IsDerivative(k: nat, c: int, l: nat, d: int, m: nat, e: int, n: nat, f: int) {
    && m > n
    && (|| (k == m + 1 && l == n + 1 && e == Scale(k, c) && f == Scale(l, d))
        || (l == m + 1 && k == n + 1 && e == Scale(l, d) && f == Scale(k, c)))
  }

  lemma MapsAgree(k: nat, c: int, l: nat, d: int, m: nat, e: int, n: nat, f: int)
    requires IsDerivative(k, c, l, d, m, e, n, f)
    ensures map[m := e, n := f] == Differentiated(map[k := c, l := d])
  {
    if k == m + 1 {
      DifferentiateTwo(k, c, m, l, d, n);
    } else {
      DifferentiateTwo(k, c, n, l, d, m);
      SwapEntries(m, e, n, f);
    }
  }

  lemma CanonicalTwo(text: string, a: Signed, b: Signed)
    requires a.term.Valid() && b.term.Valid() && CanonicalTerm(a) && CanonicalTerm(b) && TermPower(a) > TermPower(b)
    requires (if a.negative then "" else "+") + text == a.Text() + b.Text()
    ensures CanonicalText(text, [a, b])
  {
    TextOfTwo(a, b);
    assert "" + text == text;
  }

  lemma WritesTwo(s: string, a: Signed, b: Signed)
    requires a.term.Valid() && b.term.Valid()
    requires (if a.negative then "" else "+") + s == a.Text() + b.Text()
    ensures Writes(s, [a, b])
  {
    TextOfTwo(a, b);
    assert "" + s == s;
  }

  lemma TwoResult(text: string, a: Signed, b: Signed, m: nat, e: int, n: nat, f: int)
    requires Is(a, m, e) && Is(b, n, f) && m > n && CanonicalTerm(a) && CanonicalTerm(b)
    requires (if a.negative then "" else "+") + text == a.Text() + b.Text()
    ensures CanonicalText(text, [a, b]) && MapOf([a, b]) == map[m := e, n := f]
  {
    TwoTerms(a, m, e, b, n, f);
    PowerIsWritten(a);
    PowerIsWritten(b);
    CanonicalTwo(text, a, b);
  }

  lemma TwoTermExample(s: string, a: Signed, b: Signed, text: string, a': Signed, b': Signed,
                       k: nat, c: int, l: nat, d: int, m: nat, e: int, n: nat, f: int)
    requires Is(a, k, c) && Is(b, l, d) && Is(a', m, e) && Is(b', n, f) && IsDerivative(k, c, l, d, m, e, n, f)
    requires CanonicalTerm(a') && CanonicalTerm(b')
    requires (if a.negative then "" else "+") + s == a.Text() + b.Text()
    requires (if a'.negative then "" else "+") + text == a'.Text() + b'.Text()
    ensures s != "" && DerivativeText(s) == text
  {
    TwoTerms(a, k, c, b, l, d);
    TwoResult(text, a', b', m, e, n, f);
    MapsAgree(k, c, l, d, m, e, n, f);
    WritesTwo(s, a, b);
    Example(s, [a, b], text, [a', b']);
  }

  lemma SquarePlusX()
    ensures DerivativeText("x^2+x") == "2*x+1"
  {
    assert ToNat("2") == 2 && ToNat("1") == 1;
    TwoTermExample("x^2+x", X(false, "2"), X(false, ""), "2*x+1",
                   Multiple(false, "2", ""), Signed(false, Number("1")), 2, 1, 1, 1, 1, 2, 0, 1);
  }

  lemma SquareThenCube()
    ensures DerivativeText("-x^2-x^3") == "-3*x^2-2*x"
  {
    assert ToNat("2") == 2 && ToNat("3") == 3;
    TwoTermExample("-x^2-x^3", X(true, "2"), X(true, "3"), "-3*x^2-2*x",
                   Multiple(true, "3", "2"), Multiple(true, "2", ""), 2, -1, 3, -1, 2, -3, 1, -2);
  }

  lemma Behind(s: string, c: char, t: string)
    requires AllDigits(s) && '0' <= c <= '9' && t == s + [c]
    ensures AllDigits(t) && ToNat(t) == 10 * ToNat(s) + (c as int - '0' as int)
  {
    ToNatBehind(s, c);
  }

  lemma Hundred()
    ensures ToNat("10") == 10 && ToNat("100") == 100
  {
    Behind("", '1', "1");
    Behind("1", '0', "10");
    Behind("10", '0', "100");
  }

  lemma TwoHundred()
    ensures ToNat("2") == 2 && ToNat("200") == 200
  {
    Behind("", '2', "2");
    Behind("2", '0', "20");
    Behind("20", '0', "200");
  }

  lemma NinetyNine()
    ensures ToNat("99") == 99
  {
    Behind("", '9', "9");
    Behind("9", '9', "99");
  }

  lemma HundredthPower()
    ensures DerivativeText("2*x^100+100*x^2") == "200*x^99+200*x"
  {
    Hundred();
    TwoHundred();
    NinetyNine();
    TwoTermExample("2*x^100+100*x^2", Multiple(false, "2", "100"), Multiple(false, "100", "2"), "200*x^99+200*x",
                   Multiple(false, "200", "99"), Multiple(false, "200", ""), 100, 2, 2, 100, 99, 200, 1, 200);
  }

  // ---------------------------------------------------------------------------------------------
  // Three terms, one of them constant
  // ---------------------------------------------------------------------------------------------

  lemma ThreeTerms(a: Signed, k: nat, c: int, b: Signed, l: nat, d: int, t: Signed, v: int)
    requires Is(a, k, c) && Is(b, l, d) && Is(t, 0, v) && l > 0
    ensures WellFormed([a, b, t]) && MapOf([a, b, t]) == Sum(map[k := c], Sum(map[l := d], map[0 := v]))
    ensures Text([a, b, t]) == a.Text() + (b.Text() + t.Text())
  {
    assert [a, b, t][1..] == [b, t];
    MapOfStep([a, b, t]);
    TwoTerms(b, l, d, t, 0, v);
    TwoEntries(l, d, 0, v);
    TextOfTwo(b, t);
  }

  lemma DifferentiateNumber(v: int)
    ensures Differentiated(map[0 := v]) == map[]
  {
    DifferentiatedConstant(map[0 := v]);
  }

  lemma DifferentiateThree(k: nat, c: int, m: nat, l: nat, d: int, n: nat, v: int)
    requires m != n && k == m + 1 && l == n + 1
    ensures Differentiated(Sum(map[k := c], Sum(map[l := d], map[0 := v]))) == map[m := Scale(k, c), n := Scale(l, d)]
  {
    DifferentiatedSum(map[k := c], Sum(map[l := d], map[0 := v]));
    DifferentiatedSum(map[l := d], map[0 := v]);
    DifferentiateOne(k, c, m);
    DifferentiateOne(l, d, n);
    DifferentiateNumber(v);
    SumNothing(map[n := Scale(l, d)]);
    TwoEntries(m, Scale(k, c), n, Scale(l, d));
  }

  lemma TenThousand()
    ensures ToNat("10000") == 10000
  {
    Hundred();
    Behind("100", '0', "1000");
    Behind("1000", '0', "10000");
  }

  lemma NinesInARow()
    ensures ToNat("9999") == 9999
  {
    NinetyNine();
    Behind("99", '9', "999");
    Behind("999", '9', "9999");
  }

  lemma HighPowerTexts()
    ensures "+" + "x^10000+x+1" == X(false, "10000").Text() + (X(false, "").Text() + Signed(false, Number("1")).Text())
    ensures "+" + "10000*x^9999+1" == Multiple(false, "10000", "9999").Text() + Signed(false, Number("1")).Text()
  {
  }

  lemma HighPowerTerms()
    ensures Is(X(false, "10000"), 10000, 1) && Is(X(false, ""), 1, 1) && Is(Signed(false, Number("1")), 0, 1)
    ensures Is(Multiple(false, "10000", "9999"), 9999, 10000)
  {
    TenThousand();
    NinesInARow();
    Behind("", '1', "1");
  }

  lemma WritesThree(s: string, a: Signed, b: Signed, t: Signed)
    requires a.term.Valid() && b.term.Valid() && t.term.Valid()
    requires (if a.negative then "" else "+") + s == Text([a, b, t])
    ensures Writes(s, [a, b, t])
  {
    assert "" + s == s;
  }

  /** A text of two terms and a number, and its result of two terms. */
  lemma ThreeTermExample(s: string, a: Signed, b: Signed, t: Signed, text: string, a': Signed, b': Signed,
                         k: nat, c: int, l: nat, d: int, v: int, m: nat, e: int, n: nat, f: int)
    requires Is(a, k, c) && Is(b, l, d) && Is(t, 0, v) && Is(a', m, e) && Is(b', n, f)
    requires k == m + 1 && l == n + 1 && e == Scale(k, c) && f == Scale(l, d) && m > n
    requires CanonicalTerm(a') && CanonicalTerm(b')
    requires (if a.negative then "" else "+") + s == a.Text() + (b.Text() + t.Text())
    requires (if a'.negative then "" else "+") + text == a'.Text() + b'.Text()
    ensures s != "" && DerivativeText(s) == text
  {
    ThreeTerms(a, k, c, b, l, d, t, v);
    DifferentiateThree(k, c, m, l, d, n, v);
    WritesThree(s, a, b, t);
    TwoResult(text, a', b', m, e, n, f);
    Example(s, [a, b, t], text, [a', b']);
  }

  lemma HighPower()
    ensures DerivativeText("x^10000+x+1") == "10000*x^9999+1"
  {
    var t := Signed(false, Number("1"));
    HighPowerTerms();
    HighPowerTexts();
    ThreeTermExample("x^10000+x+1", X(false, "10000"), X(false, ""), t,
                     "10000*x^9999+1", Multiple(false, "10000", "9999"), t,
                     10000, 1, 1, 1, 1, 9999, 10000, 0, 1);
  }

  // ---------------------------------------------------------------------------------------------
  // The same term many times
  // ---------------------------------------------------------------------------------------------

  function Xs(n: nat): seq<Signed> {
    if n == 0 then [] else [X(false, "")] + Xs(n - 1)
  }

  lemma XsStep(n: nat)
    requires n > 0
    ensures Xs(n) != [] && Xs(n)[0] == X(false, "") && Xs(n)[1..] == Xs(n - 1)
  {
  }

  lemma OneMore(n: nat)
    ensures Sum(map[1 := 1], map[1 := n]) == map[1 := n + 1]
  {
  }

  lemma XIsX()
    ensures Is(X(false, ""), 1, 1)
  {
  }

  lemma MoreX(n: nat)
    requires WellFormed(Xs(n)) && MapOf(Xs(n)) == map[1 := n]
    ensures WellFormed(Xs(n + 1)) && MapOf(Xs(n + 1)) == map[1 := n + 1]
  {
    XsStep(n + 1);
    XIsX();
    assert WellFormed(Xs(n + 1)) by {
      assert Xs(n + 1) == [X(false, "")] + Xs(n);
    }
    MapOfStep(Xs(n + 1));
    OneMore(n);
  }

  lemma {:induction false} ManyX(n: nat)
    requires n > 0
    ensures WellFormed(Xs(n)) && MapOf(Xs(n)) == map[1 := n]
  {
    if n == 1 {
      XIsX();
      assert Xs(1) == [X(false, "")];
      OneTerm(X(false, ""), 1, 1);
    } else {
      ManyX(n - 1);
      MoreX(n - 1);
    }
  }

  lemma MoreText(n: nat, front: string, t: string)
    requires n > 0 && Text(Xs(n - 1)) == front && t == "+x" + front
    ensures Text(Xs(n)) == t
  {
    XsStep(n);
    assert X(false, "").Text() == "+x";
  }

  lemma TextOfFour()
    ensures Text(Xs(4)) == "+x+x+x+x"
  {
    MoreText(1, "", "+x");
    MoreText(2, "+x", "+x+x");
    MoreText(3, "+x+x", "+x+x+x");
    MoreText(4, "+x+x+x", "+x+x+x+x");
  }

  lemma TextOfSeven()
    ensures Text(Xs(7)) == "+x+x+x+x+x+x+x"
  {
    TextOfFour();
    MoreText(5, "+x+x+x+x", "+x+x+x+x+x");
    MoreText(6, "+x+x+x+x+x", "+x+x+x+x+x+x");
    MoreText(7, "+x+x+x+x+x+x", "+x+x+x+x+x+x+x");
  }

  lemma TextOfNine()
    ensures Text(Xs(9)) == "+x+x+x+x+x+x+x+x+x"
  {
    TextOfSeven();
    MoreText(8, "+x+x+x+x+x+x+x", "+x+x+x+x+x+x+x+x");
    MoreText(9, "+x+x+x+x+x+x+x+x", "+x+x+x+x+x+x+x+x+x");
  }

  lemma TextOfTen()
    ensures Text(Xs(10)) == "+" + "x+x+x+x+x+x+x+x+x+x"
  {
    TextOfNine();
    MoreText(10, "+x+x+x+x+x+x+x+x+x", "+" + "x+x+x+x+x+x+x+x+x+x");
  }

  lemma OneResult(digits: string)
    requires Canonical(digits)
    ensures CanonicalText(digits, [Signed(false, Number(digits))])
  {
    var u := Signed(false, Number(digits));
    assert [u][1..] == [] && Text([u]) == u.Text() + "";
    assert u.Text() == "+" + digits;
  }

  lemma XsIsWritten(n: nat, s: string)
    requires n > 0 && Text(Xs(n)) == "+" + s
    ensures Writes(s, Xs(n))
  {
    ManyX(n);
    XsStep(n);
  }

  lemma NumberIs(digits: string, v: int)
    requires AllDigits(digits) && digits != "" && ToNat(digits) == v
    ensures var us := [Signed(false, Number(digits))]; WellFormed(us) && MapOf(us) == map[0 := v]
  {
    OneTerm(Signed(false, Number(digits)), 0, v);
  }

  /** The derivative of n times x is n. */
  lemma ManyXExample(n: nat, s: string, digits: string)
    requires n > 0 && Text(Xs(n)) == "+" + s
    requires AllDigits(digits) && Canonical(digits) && ToNat(digits) == n
    ensures s != "" && DerivativeText(s) == digits
  {
    ManyX(n);
    XsIsWritten(n, s);
    DifferentiateOne(1, n, 0);
    NumberIs(digits, n);
    OneResult(digits);
    Example(s, Xs(n), digits, [Signed(false, Number(digits))]);
  }

  lemma TenX()
    ensures DerivativeText("x+x+x+x+x+x+x+x+x+x") == "10"
  {
    TextOfTen();
    Hundred();
    ManyXExample(10, "x+x+x+x+x+x+x+x+x+x", "10");
  }
}
