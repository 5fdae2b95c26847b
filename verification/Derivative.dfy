/** The derivative of a polynomial given as text, as text. */
module Derivative {
  import opened Decimal
  import opened Polynomial
  import opened Expression
  import opened Reading

  /** OutOfRange is the exception of at(0) on the empty string. */
  datatype Result = Ok(value: string) | OutOfRange

  function AppendIf(s: string, condition: bool, suffix: string): string {
    if condition then s + suffix else s
  }

  // ---------------------------------------------------------------------------------------------
  // The printed text
  // ---------------------------------------------------------------------------------------------

  lemma {:induction false} MaxExists(s: set<nat>)
    requires s != {}
    ensures exists k :: k in s && forall j :: j in s ==> j <= k
    decreases |s|
  {
    var k :| k in s;
    var t := s - {k};
    if t == {} {
      assert s == {k};
    } else {
      MaxExists(t);
      var m :| m in t && forall j :: j in t ==> j <= m;
      var top := if m < k then k else m;
      assert forall j :: j in s ==> j == k || j in t;
      assert top in s && forall j :: j in s ==> j <= top;
    }
  }

  ghost function MaxKey(p: Poly): (k: nat)
    requires p != map[]
    ensures k in p && forall j :: j in p ==> j <= k
  {
    assert p.Keys != {} by {
      var k :| k in p;
      assert k in p.Keys;
    }
    MaxExists(p.Keys);
    var k :| k in p.Keys && forall j :: j in p.Keys ==> j <= k;
    k
  }

  /** The text of one entry; more tells that text precedes it. */
  function Piece(pow: nat, constant: int, more: bool): string {
    var addX := pow > 0;
    var addConstant := !(addX && Abs(constant) == 1);
    var sign := if constant >= 0 && more then "+" else "";
    var number := if addConstant then OfInt(constant) else "";
    var star := if addConstant then "*" else "";
    var power := if pow > 1 then "^" + OfNat(pow) else "";
    if addX then sign + number + (star + "x" + power) else sign + number
  }

  /** The entries of d appended to text, from the highest power down. */
  ghost function PrintAfter(text: string, d: Poly): string
    decreases |d|
  {
    if d == map[] then text
    else
      var k := MaxKey(d);
      PrintAfter(text + Piece(k, d[k], text != ""), d - {k})
  }

  ghost function DerivativeText(s: string): string
    requires s != ""
  {
    PrintAfter("", Differentiated(Parse(s)))
  }

  // ---------------------------------------------------------------------------------------------
  // The program
  // ---------------------------------------------------------------------------------------------

  method CollectMatches(ms: seq<Match>) returns (constantByPow: Poly)
    requires AllValid(ms)
    ensures constantByPow == Collect(ms)
  {
    constantByPow := map[];
    for i := 0 to |ms|
      invariant constantByPow == Collect(ms[..i])
    {
      var constant: int := StringToInt(ms[i].digits, 1);
      if ms[i].sign == '-' {
        constant := constant * -1;
      }
      var minPow := if ms[i].x != "" then 1 else 0;
      var pow := StringToInt(ms[i].power, minPow);
      assert ms[..i + 1][..i] == ms[..i];
      constantByPow := AddTo(constantByPow, pow, constant);
    }
    assert ms[..|ms|] == ms;
  }

  lemma MaxKeyUnique(p: Poly, k: nat)
    requires k in p && forall j :: j in p ==> j <= k
    ensures p != map[] && MaxKey(p) == k
  {
  }

  lemma DifferentiatedConstant(p: Poly)
    requires forall j :: j in p ==> j <= 0
    ensures Differentiated(p) == map[]
  {
    assert forall j: nat :: j in Differentiated(p) ==> j + 1 in p.Keys;
  }

  lemma DifferentiatedWithout(p: Poly, k: nat)
    requires k > 0
    ensures Differentiated(p - {k}) == Differentiated(p) - {k - 1}
  {
    var l, r := Differentiated(p - {k}), Differentiated(p) - {k - 1};
    forall j: nat
      ensures j in l <==> j in r
      ensures j in l ==> l[j] == r[j]
    {
      DifferentiatedKey(p - {k}, j);
      DifferentiatedKey(p, j);
    }
  }

  /** The highest entry of the differentiated map comes from the highest entry. */
  lemma DifferentiatedTop(p: Poly, k: nat)
    requires k > 0 && k in p && forall j :: j in p ==> j <= k
    ensures Differentiated(p) != map[] && MaxKey(Differentiated(p)) == k - 1
    ensures Differentiated(p)[k - 1] == Scale(k, p[k])
  {
    var t: nat := k - 1;
    DifferentiatedKey(p, t);
    forall j: nat | j in Differentiated(p)
      ensures j <= t
    {
      DifferentiatedKey(p, j);
    }
    MaxKeyUnique(Differentiated(p), t);
  }

  lemma Associate(a: string, b: string, c: string)
    ensures a + b + c == a + (b + c)
  {
  }

  lemma AppendIfIs(s: string, condition: bool, suffix: string)
    ensures AppendIf(s, condition, suffix) == s + (if condition then suffix else "")
  {
  }

  lemma Chain(text: string, sign: string, number: string, star: string, power: string)
    ensures text + sign + number + star + "x" + power == text + (sign + number + (star + "x" + power))
  {
    Associate(text, sign, number);
    Associate(text + (sign + number), star, "x");
    Associate(text + (sign + number), star + "x", power);
    Associate(text, sign + number, star + "x" + power);
  }

  /** What one turn of the printing loop appends. */
  method PrintEntry(text: string, pow: nat, constant: int) returns (result: string)
    ensures result == text + Piece(pow, constant, text != "")
  {
    var addX := pow > 0;
    var addConstant := !(addX && Abs(constant) == 1);
    AppendIfIs(text, constant >= 0 && text != "", "+");
    result := AppendIf(text, constant >= 0 && text != "", "+");
    AppendIfIs(result, addConstant, OfInt(constant));
    result := AppendIf(result, addConstant, OfInt(constant));
    ghost var sign := if constant >= 0 && text != "" then "+" else "";
    ghost var number := if addConstant then OfInt(constant) else "";
    if addX {
      AppendIfIs(result, addConstant, "*");
      result := AppendIf(result, addConstant, "*") + "x";
      AppendIfIs(result, pow > 1, "^" + OfNat(pow));
      result := AppendIf(result, pow > 1, "^" + OfNat(pow));
      Chain(text, sign, number, if addConstant then "*" else "", if pow > 1 then "^" + OfNat(pow) else "");
    } else {
      Associate(text, sign, number);
    }
  }

  method Print(constantByPow: Poly) returns (result: string)
    ensures result == PrintAfter("", Differentiated(constantByPow))
  {
    result := "";
    var rest := constantByPow;
    while rest != map[]
      invariant PrintAfter(result, Differentiated(rest)) == PrintAfter("", Differentiated(constantByPow))
      decreases |rest|
    {
      assert MaxKey(rest) in rest.Keys;
      MaxExists(rest.Keys);
      var k :| k in rest.Keys && forall j :: j in rest.Keys ==> j <= k;
      var coefficient := rest[k];
      if k == 0 {
        DifferentiatedConstant(rest);
        DifferentiatedConstant(rest - {k});
        rest := rest - {k};
        continue;
      }
      DifferentiatedTop(rest, k);
      DifferentiatedWithout(rest, k);
      rest := rest - {k};
      result := PrintEntry(result, k - 1, Scale(k, coefficient));
    }
    DifferentiatedConstant(rest);
  }

  method Derivative(polynomial: string) returns (r: Result)
    ensures r == if polynomial == "" then OutOfRange else Ok(DerivativeText(polynomial))
  {
    if polynomial == "" {
      return OutOfRange;
    }
    var text := polynomial;
    if text[0] != '-' && text[0] != '+' {
      text := "+" + text;
    }
    var constantByPow := CollectMatches(Matches(text));
    var result := Print(constantByPow);
    r := Ok(result);
  }

  // ---------------------------------------------------------------------------------------------
  // Printing and reading undo each other
  // ---------------------------------------------------------------------------------------------

  /** No entry of a positive power has coefficient one or minus one. */
  ghost predicate NoUnits(d: Poly) {
    forall k :: k in d && k > 0 ==> Abs(d[k]) != 1
  }

  lemma ScaleNotUnit(k: nat, c: int)
    requires k >= 2
    ensures Abs(Scale(k, c)) != 1
  {
    assert c >= 1 ==> k * c >= k;
    assert c <= -1 ==> k * -c >= k;
    assert k * -c == -(k * c);
  }

  /** The coefficient of a printed x has a factor of at least two, so it is never left out. */
  lemma DifferentiatedNoUnits(p: Poly)
    ensures NoUnits(Differentiated(p))
  {
    var d := Differentiated(p);
    forall k | k in d && k > 0
      ensures Abs(d[k]) != 1
    {
      ScaleNotUnit(k + 1, p[k + 1]);
    }
  }

  function TermOf(k: nat, c: int): (t: Signed)
    ensures t.term.Valid()
  {
    var n := OfNat(Abs(c));
    Signed(c < 0, if k == 0 then Number(n) else Variable(n, true, k > 1, if k > 1 then OfNat(k) else ""))
  }

  ghost function Terms(d: Poly): (ts: seq<Signed>)
    ensures WellFormed(ts)
    decreases |d|
  {
    if d == map[] then [] else [TermOf(MaxKey(d), d[MaxKey(d)])] + Terms(d - {MaxKey(d)})
  }

  /** A printed entry is a written term, but for the plus of a first one. */
  lemma PieceIsTerm(k: nat, c: int, more: bool)
    requires k > 0 ==> Abs(c) != 1
    ensures Piece(k, c, more) != ""
    ensures
      if more || c < 0 then Piece(k, c, more) == TermOf(k, c).Text()
      else "+" + Piece(k, c, more) == TermOf(k, c).Text()
  {
    PieceText(k, c, more);
    TermText(k, c);
    SignsAgree(OfNat(Abs(c)) + Tail(k), c < 0, more, Piece(k, c, more), TermOf(k, c).Text());
  }

  lemma SignsAgree(body: string, negative: bool, more: bool, piece: string, text: string)
    requires body != ""
    requires piece == (if negative then "-" else if more then "+" else "") + body
    requires text == (if negative then "-" else "+") + body
    ensures piece != ""
    ensures if more || negative then piece == text else "+" + piece == text
  {
    assert "" + body == body;
  }

  lemma TermText(k: nat, c: int)
    ensures TermOf(k, c).Text() == (if c < 0 then "-" else "+") + (OfNat(Abs(c)) + Tail(k))
  {
    if k == 0 {
      assert OfNat(Abs(c)) + "" == OfNat(Abs(c));
    }
  }

  /** The text behind the number of an entry. */
  function Tail(k: nat): string {
    if k == 0 then "" else "*" + ("x" + PowerText(k > 1, if k > 1 then OfNat(k) else ""))
  }

  lemma PieceText(k: nat, c: int, more: bool)
    requires k > 0 ==> Abs(c) != 1
    ensures Piece(k, c, more) == (if c < 0 then "-" else if more then "+" else "") + (OfNat(Abs(c)) + Tail(k))
  {
    var n := OfNat(Abs(c));
    var sign := if c < 0 then "-" else if more then "+" else "";
    Associate("*", "x", PowerText(k > 1, if k > 1 then OfNat(k) else ""));
    Associate(sign, n, Tail(k));
    if c < 0 {
      assert "" + ("-" + n) == "-" + n;
    }
    assert n + "" == n;
  }

  lemma {:induction false} PrintAfterText(text: string, d: Poly)
    requires text != "" && NoUnits(d)
    ensures PrintAfter(text, d) == text + Text(Terms(d))
    decreases |d|
  {
    if d == map[] {
      assert text + "" == text;
    } else {
      var k := MaxKey(d);
      PieceIsTerm(k, d[k], true);
      PrintAfterText(text + Piece(k, d[k], true), d - {k});
      TermsStep(d);
      Associate(text, Piece(k, d[k], true), Text(Terms(d - {k})));
    }
  }

  /** The terms without the plus of a positive first one. */
  ghost predicate Begins(text: string, ts: seq<Signed>) {
    ts != [] && if ts[0].negative then text == Text(ts) else "+" + text == Text(ts)
  }

  lemma FirstTerm(piece: string, rest: string, written: string)
    requires "+" + piece == written
    ensures "+" + (piece + rest) == written + rest
  {
    Associate("+", piece, rest);
  }

  /** What is printed is well-formed text, without a plus in front. */
  lemma PrintedIsWritten(d: Poly)
    requires d != map[] && NoUnits(d)
    ensures Writes(PrintAfter("", d), Terms(d)) && Begins(PrintAfter("", d), Terms(d))
  {
    var k := MaxKey(d);
    var piece := Piece(k, d[k], false);
    var rest := Text(Terms(d - {k}));
    PieceIsTerm(k, d[k], false);
    assert "" + piece == piece;
    PrintAfterText(piece, d - {k});
    TermsStep(d);
    if d[k] >= 0 {
      FirstTerm(piece, rest, TermOf(k, d[k]).Text());
    }
  }

  lemma TermsStep(d: Poly)
    requires d != map[]
    ensures var k := MaxKey(d);
      && Terms(d) != [] && Terms(d)[0] == TermOf(k, d[k]) && Terms(d)[1..] == Terms(d - {k})
      && Text(Terms(d)) == TermOf(k, d[k]).Text() + Text(Terms(d - {k}))
  {
  }

  ghost function PowerAt(d: Poly, i: nat): nat
    requires i < |Terms(d)|
  {
    MatchOf(Terms(d)[i]).Power()
  }

  lemma PowerAtStep(d: Poly, i: nat)
    requires i < |Terms(d)|
    ensures d != map[]
    ensures i == 0 ==> PowerAt(d, i) == MaxKey(d)
    ensures i > 0 ==> i - 1 < |Terms(d - {MaxKey(d)})| && PowerAt(d, i) == PowerAt(d - {MaxKey(d)}, i - 1)
  {
    TermsStep(d);
    TermReadsBack(MaxKey(d), d[MaxKey(d)]);
  }

  lemma {:induction false} PowerAtIsKey(d: Poly, i: nat)
    requires i < |Terms(d)|
    ensures PowerAt(d, i) in d
    decreases i
  {
    PowerAtStep(d, i);
    if i > 0 {
      PowerAtIsKey(d - {MaxKey(d)}, i - 1);
    }
  }

  lemma BelowMaxKey(d: Poly, k: nat)
    requires d != map[] && k in d - {MaxKey(d)}
    ensures k < MaxKey(d)
  {
  }

  lemma FirstDescends(d: Poly, j: nat)
    requires 0 < j < |Terms(d)|
    ensures PowerAt(d, 0) > PowerAt(d, j)
  {
    PowerAtStep(d, 0);
    PowerAtStep(d, j);
    PowerAtIsKey(d - {MaxKey(d)}, j - 1);
    BelowMaxKey(d, PowerAt(d, j));
  }

  /** Terms are printed from the highest power down. */
  lemma {:induction false} TermsDescend(d: Poly, i: nat, j: nat)
    requires i < j < |Terms(d)|
    ensures PowerAt(d, i) > PowerAt(d, j)
    decreases i
  {
    if i == 0 {
      FirstDescends(d, j);
    } else {
      PowerAtStep(d, i);
      PowerAtStep(d, j);
      TermsDescend(d - {MaxKey(d)}, i - 1, j - 1);
    }
  }

  lemma TermReadsBack(k: nat, c: int)
    ensures MatchOf(TermOf(k, c)).Constant() == c
    ensures MatchOf(TermOf(k, c)).Power() == k
  {
    ToNatOfNat(Abs(c));
    ToNatOfNat(k);
  }

  lemma SumOfParts(d: Poly, k: nat)
    requires k in d
    ensures Sum(map[k := d[k]], d - {k}) == d
  {
  }

  lemma {:induction false} TermsReadBack(d: Poly)
    ensures Collect(Matches(Text(Terms(d)))) == d
    decreases |d|
  {
    if d != map[] {
      var k := MaxKey(d);
      TermsStep(d);
      TermsReadBack(d - {k});
      TextSplits(Terms(d));
      SignedReads(TermOf(k, d[k]));
      TermReadsBack(k, d[k]);
      SumOfParts(d, k);
    }
  }

  /** Reading a printed map gives the map back, zero entries included. */
  lemma PrintThenParse(d: Poly)
    requires d != map[] && NoUnits(d)
    ensures PrintAfter("", d) != "" && Parse(PrintAfter("", d)) == d
  {
    PrintedIsWritten(d);
    WrittenText(PrintAfter("", d), Terms(d));
    TermsReadBack(d);
  }

  /** The map that a result denotes; the empty text is the zero polynomial. */
  function Denoted(text: string): Poly {
    if text == "" then map[] else Parse(text)
  }

  /** The result of derivative, read again, is exactly the differentiated map. */
  lemma DerivativeReadsBack(s: string)
    requires s != ""
    ensures Denoted(DerivativeText(s)) == Differentiated(Parse(s))
  {
    var d := Differentiated(Parse(s));
    if d != map[] {
      DifferentiatedNoUnits(Parse(s));
      PrintThenParse(d);
    }
  }

  /** The same for the values that were written. */
  ghost predicate FitsText(ts: seq<Signed>, x: int, slope: int, h: int)
    requires WellFormed(ts)
  {
    Fits(Value(ts, x), Value(ts, x + h), slope, h)
  }

  lemma FitsSame(p: Poly, ts: seq<Signed>, x: int, slope: int)
    requires WellFormed(ts) && forall z :: Value(ts, z) == Eval(p, z)
    ensures (forall h :: FitsText(ts, x, slope, h)) <==> slope == Eval(Differentiated(p), x)
  {
    DerivativeCharacterized(p, x, slope);
    forall h
      ensures FitsText(ts, x, slope, h) <==> FitsStep(p, x, slope, h)
    {
      assert Value(ts, x) == Eval(p, x) && Value(ts, x + h) == Eval(p, x + h);
    }
  }

  /** The same for the items of any text. */
  ghost predicate FitsItems(items: seq<Item>, x: int, slope: int, h: int)
    requires AllItems(items)
  {
    Fits(ValueOfItems(items, x), ValueOfItems(items, x + h), slope, h)
  }

  lemma FitsSameItems(p: Poly, items: seq<Item>, x: int, slope: int)
    requires AllItems(items) && forall z :: ValueOfItems(items, z) == Eval(p, z)
    ensures (forall h :: FitsItems(items, x, slope, h)) <==> slope == Eval(Differentiated(p), x)
  {
    DerivativeCharacterized(p, x, slope);
    forall h
      ensures FitsItems(items, x, slope, h) <==> FitsStep(p, x, slope, h)
    {
      assert ValueOfItems(items, x) == Eval(p, x) && ValueOfItems(items, x + h) == Eval(p, x + h);
    }
  }

  /** The text is empty and shows no terms, or it is well-formed and writes them. */
  ghost predicate Shows(text: string, us: seq<Signed>) {
    if text == "" then us == [] else Writes(text, us)
  }

  /** Every result is such text. */
  lemma DerivativeIsWritten(s: string)
    requires s != ""
    ensures Shows(DerivativeText(s), Terms(Differentiated(Parse(s))))
  {
    var d := Differentiated(Parse(s));
    if d != map[] {
      DifferentiatedNoUnits(Parse(s));
      PrintedIsWritten(d);
      PrintThenParse(d);
    }
  }

  lemma ShownValue(text: string, us: seq<Signed>, x: int)
    requires Shows(text, us)
    ensures Value(us, x) == Eval(Denoted(text), x)
  {
    if text == "" {
      EvalAbove(map[], 0, x);
    } else {
      ParseDenotes(text, us, x);
    }
  }

  lemma ResultValue(s: string, us: seq<Signed>, x: int)
    requires s != "" && Shows(DerivativeText(s), us)
    ensures Value(us, x) == Eval(Differentiated(Parse(s)), x)
  {
    DerivativeReadsBack(s);
    ShownValue(DerivativeText(s), us, x);
  }

  /** For well-formed input, the value written in the result at x is the one number that fits every
      finite difference of the value written in the input. Neither side refers to the reader. */
  lemma DerivativeIsCorrect(s: string, ts: seq<Signed>, us: seq<Signed>, x: int, slope: int)
    requires s != "" && Writes(s, ts) && Shows(DerivativeText(s), us)
    ensures (forall h :: FitsText(ts, x, slope, h)) <==> slope == Value(us, x)
  {
    forall z
      ensures Value(ts, z) == Eval(Parse(s), z)
    {
      ParseDenotes(s, ts, z);
    }
    FitsSame(Parse(s), ts, x, slope);
    ResultValue(s, us, x);
  }

  /** The same for every nonempty text, by the items that it consists of: powers without x, missing
      digits and skipped text included. */
  lemma DerivativeOfAnyText(s: string, items: seq<Item>, us: seq<Signed>, x: int, slope: int)
    requires Consists(s, items) && Shows(DerivativeText(s), us)
    ensures (forall h :: FitsItems(items, x, slope, h)) <==> slope == Value(us, x)
  {
    forall z
      ensures ValueOfItems(items, z) == Eval(Parse(s), z)
    {
      ParseValue(s, items, z);
    }
    FitsSameItems(Parse(s), items, x, slope);
    ResultValue(s, us, x);
  }

  /** derivative is linear over concatenation: behind p, a text q that starts with a sign adds its
      own derivative. */
  lemma DerivativeOfConcatenation(p: string, q: string)
    requires p != "" && StartsWithSign(q)
    ensures Denoted(DerivativeText(p + q)) == Sum(Denoted(DerivativeText(p)), Denoted(DerivativeText(q)))
  {
    DerivativeReadsBack(p);
    DerivativeReadsBack(q);
    DerivativeReadsBack(p + q);
    ParseAppend(p, q);
    DifferentiatedSum(Parse(p), Parse(q));
  }

  // ---------------------------------------------------------------------------------------------
  // The output is the only canonical text of the differentiated map
  // ---------------------------------------------------------------------------------------------

  /** The one way to write a term: no needless zero, one, star, caret or sign. */
  predicate CanonicalTerm(t: Signed) {
    match t.term
    case Number(value) => Canonical(value) && (t.negative ==> value != "0")
    case Variable(factor, star, caret, power) =>
      && (factor != "" ==> Canonical(factor) && factor != "1")
      && (t.negative ==> factor != "0")
      && (star <==> factor != "")
      && (caret <==> power != "")
      && (power != "" ==> Canonical(power) && power != "0" && power != "1")
  }

  /** The power that is written. */
  function TermPower(t: Signed): nat
    requires t.term.Valid()
  {
    match t.term
    case Number(_) => 0
    case Variable(_, _, _, power) => if power == "" then 1 else ToNat(power)
  }

  /** Canonical terms, powers strictly descending. */
  ghost predicate CanonicalTerms(us: seq<Signed>) {
    && WellFormed(us)
    && (forall i :: 0 <= i < |us| ==> CanonicalTerm(us[i]))
    && (forall i, j :: 0 <= i < j < |us| ==> TermPower(us[i]) > TermPower(us[j]))
  }

  /** The terms one after the other, without a plus in front; no terms are the empty text. */
  ghost predicate CanonicalText(text: string, us: seq<Signed>) {
    CanonicalTerms(us) && if us == [] then text == "" else Begins(text, us)
  }

  lemma PowerIsWritten(t: Signed)
    requires t.term.Valid()
    ensures TermPower(t) == MatchOf(t).Power()
  {
  }

  lemma NumberIsTermOf(t: Signed)
    requires t.term.Valid() && CanonicalTerm(t) && t.term.Number?
    ensures t == TermOf(0, MatchOf(t).Constant())
  {
    OfNatUnique(t.term.value, ToNat(t.term.value));
    OfNatUnique("0", 0);
    assert "0" == OfNat(0);
  }

  lemma VariableIsTermOf(t: Signed)
    requires t.term.Valid() && CanonicalTerm(t) && t.term.Variable?
    requires Abs(MatchOf(t).Constant()) != 1
    ensures t == TermOf(MatchOf(t).Power(), MatchOf(t).Constant())
  {
    OfNatUnique(t.term.factor, ToNat(t.term.factor));
    OfNatUnique(t.term.power, ToNat(t.term.power));
    assert OfNat(0) == "0" && OfNat(1) == "1";
  }

  lemma CanonicalIsTermOf(t: Signed)
    requires t.term.Valid() && CanonicalTerm(t)
    requires MatchOf(t).Power() > 0 ==> Abs(MatchOf(t).Constant()) != 1
    ensures t == TermOf(MatchOf(t).Power(), MatchOf(t).Constant())
  {
    if t.term.Number? {
      NumberIsTermOf(t);
    } else {
      assert t.term.power != "" ==> t.term.power != OfNat(0);
      OfNatUnique(t.term.power, 0);
      VariableIsTermOf(t);
    }
  }

  lemma TermOfIsCanonical(k: nat, c: int)
    requires k > 0 ==> Abs(c) != 1
    ensures CanonicalTerm(TermOf(k, c)) && TermPower(TermOf(k, c)) == k
  {
    OfNatUnique(OfNat(Abs(c)), Abs(c));
    OfNatUnique(OfNat(k), k);
    OfNatUnique("0", Abs(c));
    OfNatUnique("1", Abs(c));
    OfNatUnique("0", k);
    OfNatUnique("1", k);
    assert ToNat("0") == 0 && ToNat("1") == 1;
  }

  /** The map that the terms are read as. */
  function MapOf(us: seq<Signed>): Poly
    requires WellFormed(us)
  {
    Collect(Matches(Text(us)))
  }

  lemma MapOfStep(us: seq<Signed>)
    requires WellFormed(us) && us != []
    ensures MapOf(us) == Sum(map[MatchOf(us[0]).Power() := MatchOf(us[0]).Constant()], MapOf(us[1..]))
  {
    TextSplits(us);
    SignedReads(us[0]);
  }

  lemma {:induction false} KeysAreWritten(us: seq<Signed>, k: nat)
    requires WellFormed(us) && k in MapOf(us)
    ensures exists i :: 0 <= i < |us| && TermPower(us[i]) == k
    decreases |us|
  {
    if us != [] {
      MapOfStep(us);
      PowerIsWritten(us[0]);
      if MatchOf(us[0]).Power() != k {
        KeysAreWritten(us[1..], k);
        var i :| 0 <= i < |us[1..]| && TermPower(us[1..][i]) == k;
        assert TermPower(us[i + 1]) == k;
      }
    }
  }

  /** The first of canonical terms is the highest entry, and the others are the rest of the map. */
  lemma CanonicalTop(us: seq<Signed>)
    requires CanonicalTerms(us) && us != []
    ensures var d, k := MapOf(us), TermPower(us[0]);
      && k in d && MaxKey(d) == k && d[k] == MatchOf(us[0]).Constant()
      && d - {k} == MapOf(us[1..])
  {
    var k, c := TermPower(us[0]), MatchOf(us[0]).Constant();
    var rest := MapOf(us[1..]);
    MapOfStep(us);
    PowerIsWritten(us[0]);
    forall j | j in rest
      ensures j < k
    {
      KeysAreWritten(us[1..], j);
      var i :| 0 <= i < |us[1..]| && TermPower(us[1..][i]) == j;
      assert us[1..][i] == us[i + 1];
    }
    TopOfSum(k, c, rest);
  }

  lemma TopOfSum(k: nat, c: int, rest: Poly)
    requires forall j :: j in rest ==> j < k
    ensures var d := Sum(map[k := c], rest);
      k in d && MaxKey(d) == k && d[k] == c && d - {k} == rest
  {
    var d := Sum(map[k := c], rest);
    assert forall j :: j in d <==> j == k || j in rest;
    MaxKeyUnique(d, k);
  }

  lemma CanonicalTail(us: seq<Signed>)
    requires CanonicalTerms(us) && us != []
    ensures CanonicalTerms(us[1..])
  {
  }

  lemma TermsFrom(d: Poly, us: seq<Signed>)
    requires d != map[] && us != []
    requires us[0] == TermOf(MaxKey(d), d[MaxKey(d)]) && us[1..] == Terms(d - {MaxKey(d)})
    ensures us == Terms(d)
  {
    TermsStep(d);
    assert us == [us[0]] + us[1..];
    assert Terms(d) == [Terms(d)[0]] + Terms(d)[1..];
  }

  lemma FirstIsTermOf(us: seq<Signed>)
    requires CanonicalTerms(us) && us != [] && NoUnits(MapOf(us))
    ensures MapOf(us) != map[]
    ensures us[0] == TermOf(MaxKey(MapOf(us)), MapOf(us)[MaxKey(MapOf(us))])
    ensures NoUnits(MapOf(us) - {MaxKey(MapOf(us))})
  {
    CanonicalTop(us);
    PowerIsWritten(us[0]);
    CanonicalIsTermOf(us[0]);
  }

  /** Canonical terms are determined by the map that they are read as. */
  lemma {:induction false} CanonicalIsTerms(us: seq<Signed>)
    requires CanonicalTerms(us) && NoUnits(MapOf(us))
    ensures us == Terms(MapOf(us))
    decreases |us|
  {
    if us != [] {
      CanonicalTop(us);
      CanonicalTail(us);
      FirstIsTermOf(us);
      CanonicalIsTerms(us[1..]);
      TermsFrom(MapOf(us), us);
    }
  }

  lemma TermPowerAt(d: Poly, i: nat)
    requires i < |Terms(d)|
    ensures TermPower(Terms(d)[i]) == PowerAt(d, i)
  {
    PowerIsWritten(Terms(d)[i]);
  }

  lemma TermsNext(d: Poly, i: nat)
    requires 0 < i < |Terms(d)|
    ensures d != map[] && i - 1 < |Terms(d - {MaxKey(d)})| && Terms(d)[i] == Terms(d - {MaxKey(d)})[i - 1]
  {
    TermsStep(d);
  }

  lemma {:induction false} TermsAreCanonical(d: Poly, i: nat)
    requires NoUnits(d) && i < |Terms(d)|
    ensures CanonicalTerm(Terms(d)[i])
    decreases i
  {
    if i == 0 {
      TermsStep(d);
      TermOfIsCanonical(MaxKey(d), d[MaxKey(d)]);
    } else {
      TermsNext(d, i);
      TermsAreCanonical(d - {MaxKey(d)}, i - 1);
    }
  }

  lemma TermsCanonical(d: Poly)
    requires NoUnits(d)
    ensures CanonicalTerms(Terms(d))
  {
    var us := Terms(d);
    forall i | 0 <= i < |us|
      ensures CanonicalTerm(us[i])
    {
      TermsAreCanonical(d, i);
    }
    forall i, j | 0 <= i < j < |us|
      ensures TermPower(us[i]) > TermPower(us[j])
    {
      TermPowerAt(d, i);
      TermPowerAt(d, j);
      TermsDescend(d, i, j);
    }
  }

  /** What is printed is canonical. */
  lemma ResultIsCanonical(s: string)
    requires s != ""
    ensures CanonicalText(DerivativeText(s), Terms(Differentiated(Parse(s))))
  {
    var d := Differentiated(Parse(s));
    DifferentiatedNoUnits(Parse(s));
    TermsCanonical(d);
    if d != map[] {
      PrintedIsWritten(d);
    }
  }

  /** Two texts with the same terms are the same text. */
  lemma BeginsOne(a: string, b: string, us: seq<Signed>)
    requires Begins(a, us) && Begins(b, us)
    ensures a == b
  {
    assert ("+" + a)[1..] == a && ("+" + b)[1..] == b;
  }

  lemma CanonicalDenotes(text: string, us: seq<Signed>)
    requires CanonicalText(text, us)
    ensures Denoted(text) == MapOf(us)
  {
    if us != [] {
      WrittenText(text, us);
    }
  }

  /** Of all texts, the output is the only one that is canonical and denotes the differentiated
      map. */
  lemma OnlyCanonicalResult(s: string, text: string, us: seq<Signed>)
    requires s != "" && CanonicalText(text, us)
    ensures Denoted(text) == Differentiated(Parse(s)) <==> text == DerivativeText(s)
  {
    var d := Differentiated(Parse(s));
    DerivativeReadsBack(s);
    if Denoted(text) == d {
      DifferentiatedNoUnits(Parse(s));
      CanonicalDenotes(text, us);
      CanonicalIsTerms(us);
      ResultIsCanonical(s);
      if us != [] {
        BeginsOne(text, DerivativeText(s), us);
      }
    }
  }
}
