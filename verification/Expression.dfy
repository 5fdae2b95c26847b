/** Reading a polynomial: the matches of the regular expression (\+|-)(\d*)\*?(x?)\^?(\d*) and the
    map they add up to. Everything after the sign may be absent, so the expression never
    backtracks, and a search skips to the next sign. */
module Expression {
  import opened Decimal
  import opened Polynomial

  predicate IsSign(c: char) {
    c == '+' || c == '-'
  }

  predicate StartsWithSign(s: string) {
    s != "" && IsSign(s[0])
  }

  /** The four groups of a match. */
  datatype Match = Match(sign: char, digits: string, x: string, power: string) {
    predicate Valid() {
      AllDigits(digits) && AllDigits(power)
    }

    function Constant(): int
      requires Valid()
    {
      if sign == '-' then 0 - StringToInt(digits, 1) else StringToInt(digits, 1)
    }

    function Power(): nat
      requires Valid()
    {
      StringToInt(power, if x != "" then 1 else 0)
    }
  }

  /** The length of the longest run of digits at the front. */
  function DigitRun(s: string): (n: nat)
    ensures n <= |s| && AllDigits(s[..n])
    ensures n < |s| ==> !IsDigit(s[n])
  {
    if s == "" || !IsDigit(s[0]) then 0
    else
      var n := DigitRun(s[1..]) + 1;
      assert forall i :: 1 <= i < n ==> s[i] == s[1..][i - 1];
      n
  }

  /** The digits at the front and the text behind them. */
  function Digits(s: string): (r: (string, string))
    ensures AllDigits(r.0) && s == r.0 + r.1
  {
    (s[..DigitRun(s)], s[DigitRun(s)..])
  }

  /** One optional character and the text behind it. */
  function Optional(s: string, c: char): (r: (string, string))
    ensures s == r.0 + r.1
  {
    if s != "" && s[0] == c then ([c], s[1..]) else ("", s)
  }

  /** Everything up to the x: digits, an optional star, an optional x. */
  function Front(s: string): (r: (string, string, string))
    ensures AllDigits(r.0) && |r.2| <= |s|
  {
    var (digits, s2) := Digits(s);
    var (star, s3) := Optional(s2, '*');
    var (x, s4) := Optional(s3, 'x');
    (digits, x, s4)
  }

  /** The rest: an optional caret and digits. */
  function Back(s: string): (r: (string, string))
    ensures AllDigits(r.0) && |r.1| <= |s|
  {
    Digits(Optional(s, '^').1)
  }

  /** The match at a sign and the text behind it. */
  function MatchAt(s: string): (r: (Match, string))
    requires StartsWithSign(s)
    ensures r.0.Valid() && |r.1| < |s|
  {
    var (digits, x, middle) := Front(s[1..]);
    var (power, rest) := Back(middle);
    (Match(s[0], digits, x, power), rest)
  }

  function Matches(s: string): (ms: seq<Match>)
    ensures forall i :: 0 <= i < |ms| ==> ms[i].Valid()
    decreases |s|
  {
    if s == "" then []
    else if !IsSign(s[0]) then Matches(s[1..])
    else
      var (m, rest) := MatchAt(s);
      [m] + Matches(rest)
  }

  predicate AllValid(ms: seq<Match>) {
    forall i :: 0 <= i < |ms| ==> ms[i].Valid()
  }

  /** The map after the matches have been added one by one. */
  function Collect(ms: seq<Match>): Poly
    requires AllValid(ms)
  {
    if ms == [] then map[]
    else
      var m := ms[|ms| - 1];
      AddTo(Collect(ms[..|ms| - 1]), m.Power(), m.Constant())
  }

  /** A missing leading sign is a plus. */
  function Normalize(s: string): (r: string)
    requires s != ""
    ensures StartsWithSign(r)
  {
    if IsSign(s[0]) then s else "+" + s
  }

  function Parse(s: string): Poly
    requires s != ""
  {
    Collect(Matches(Normalize(s)))
  }

  // ---------------------------------------------------------------------------------------------
  // The scanner finds the match of the regular expression
  // ---------------------------------------------------------------------------------------------

  /** The text behind a sign, cut into what the parts of the expression took and the rest. */
  datatype Cut = Cut(digits: string, star: string, x: string, caret: string, power: string, rest: string) {
    function Whole(): string {
      digits + (star + (x + (caret + (power + rest))))
    }

    /** Every part took what it may take. */
    predicate Allowed() {
      && AllDigits(digits)
      && (star == "" || star == "*")
      && (x == "" || x == "x")
      && (caret == "" || caret == "^")
      && AllDigits(power)
    }
  }

  /** Greedy repetition: the first part in which the cuts differ took more in b. */
  predicate NotGreedier(a: Cut, b: Cut) {
    || |a.digits| < |b.digits|
    || (a.digits == b.digits && |a.star| < |b.star|)
    || (a.digits == b.digits && a.star == b.star && |a.x| < |b.x|)
    || (a.digits == b.digits && a.star == b.star && a.x == b.x && |a.caret| < |b.caret|)
    || (a.digits == b.digits && a.star == b.star && a.x == b.x && a.caret == b.caret && |a.power| < |b.power|)
    || a == b
  }

  function ScannedCut(s: string): Cut {
    var (digits, s2) := Digits(s);
    var (star, s3) := Optional(s2, '*');
    var (x, s4) := Optional(s3, 'x');
    var (caret, s5) := Optional(s4, '^');
    var (power, rest) := Digits(s5);
    Cut(digits, star, x, caret, power, rest)
  }

  lemma ScannedCutAllowed(s: string)
    ensures ScannedCut(s).Allowed() && ScannedCut(s).Whole() == s
  {
    var s2 := Digits(s).1;
    var s3 := Optional(s2, '*').1;
    var s4 := Optional(s3, 'x').1;
    var s5 := Optional(s4, '^').1;
    assert s5 == Digits(s5).0 + Digits(s5).1;
  }

  lemma {:induction false} DigitRunLongest(d: string, rest: string)
    requires AllDigits(d)
    ensures |d| <= DigitRun(d + rest)
  {
    if d != "" {
      assert (d + rest)[1..] == d[1..] + rest;
      DigitRunLongest(d[1..], rest);
    }
  }

  /** No other run of digits is longer, and one as long leaves the same rest. */
  lemma DigitsGreedy(d: string, rest: string)
    requires AllDigits(d)
    ensures |d| <= |Digits(d + rest).0|
    ensures |d| == |Digits(d + rest).0| ==> Digits(d + rest) == (d, rest)
  {
    DigitRunLongest(d, rest);
    if DigitRun(d + rest) == |d| {
      assert (d + rest)[..|d|] == d && (d + rest)[|d|..] == rest;
    }
  }

  lemma OptionalGreedy(part: string, c: char, rest: string)
    requires part == "" || part == [c]
    ensures |part| <= |Optional(part + rest, c).0|
    ensures |part| == |Optional(part + rest, c).0| ==> Optional(part + rest, c) == (part, rest)
  {
    if part == "" {
      assert part + rest == rest;
    } else {
      assert (part + rest)[1..] == rest;
    }
  }

  /** Among all cuts of the text that the expression allows, the scanner finds the greediest, which
      is the one that the expression matches. */
  lemma ScannerIsGreedy(cut: Cut)
    requires cut.Allowed()
    ensures NotGreedier(cut, ScannedCut(cut.Whole()))
  {
    var s := cut.Whole();
    DigitsGreedy(cut.digits, cut.star + (cut.x + (cut.caret + (cut.power + cut.rest))));
    OptionalGreedy(cut.star, '*', cut.x + (cut.caret + (cut.power + cut.rest)));
    OptionalGreedy(cut.x, 'x', cut.caret + (cut.power + cut.rest));
    OptionalGreedy(cut.caret, '^', cut.power + cut.rest);
    DigitsGreedy(cut.power, cut.rest);
  }

  /** The groups of a match are the parts of the greediest cut. */
  lemma MatchIsScannedCut(s: string)
    requires StartsWithSign(s)
    ensures var cut := ScannedCut(s[1..]);
      MatchAt(s) == (Match(s[0], cut.digits, cut.x, cut.power), cut.rest)
  {
  }

  // ---------------------------------------------------------------------------------------------
  // Reading is a homomorphism
  // ---------------------------------------------------------------------------------------------

  /** q does not continue a term: it is empty or starts with a sign. */
  predicate Fresh(q: string) {
    q == "" || IsSign(q[0])
  }

  lemma {:induction false} DigitRunAppend(p: string, q: string)
    requires Fresh(q)
    ensures DigitRun(p + q) == DigitRun(p)
  {
    if p != "" && IsDigit(p[0]) {
      assert (p + q)[1..] == p[1..] + q;
      DigitRunAppend(p[1..], q);
    } else if p == "" {
      assert p + q == q;
    }
  }

  lemma DigitsAppend(p: string, q: string)
    requires Fresh(q)
    ensures Digits(p + q) == (Digits(p).0, Digits(p).1 + q)
  {
    DigitRunAppend(p, q);
    var n := DigitRun(p);
    assert (p + q)[..n] == p[..n] && (p + q)[n..] == p[n..] + q;
  }

  lemma OptionalAppend(p: string, q: string, c: char)
    requires Fresh(q) && !IsSign(c)
    ensures Optional(p + q, c) == (Optional(p, c).0, Optional(p, c).1 + q)
  {
    if p == "" {
      assert p + q == q;
    } else {
      assert (p + q)[1..] == p[1..] + q;
    }
  }

  lemma FrontAppend(p: string, q: string)
    requires Fresh(q)
    ensures Front(p + q) == (Front(p).0, Front(p).1, Front(p).2 + q)
  {
    DigitsAppend(p, q);
    var s2 := Digits(p).1;
    OptionalAppend(s2, q, '*');
    OptionalAppend(Optional(s2, '*').1, q, 'x');
  }

  lemma BackAppend(p: string, q: string)
    requires Fresh(q)
    ensures Back(p + q) == (Back(p).0, Back(p).1 + q)
  {
    OptionalAppend(p, q, '^');
    DigitsAppend(Optional(p, '^').1, q);
  }

  lemma MatchAtAppend(p: string, q: string)
    requires StartsWithSign(p) && Fresh(q)
    ensures StartsWithSign(p + q)
    ensures MatchAt(p + q) == (MatchAt(p).0, MatchAt(p).1 + q)
  {
    assert (p + q)[1..] == p[1..] + q;
    FrontAppend(p[1..], q);
    BackAppend(Front(p[1..]).2, q);
  }

  lemma MatchesStep(s: string)
    requires StartsWithSign(s)
    ensures Matches(s) == [MatchAt(s).0] + Matches(MatchAt(s).1)
  {
  }

  lemma ConcatStep(m: Match, a: seq<Match>, b: seq<Match>, whole: seq<Match>, front: seq<Match>)
    requires whole == [m] + (a + b) && front == [m] + a
    ensures whole == front + b
  {
  }

  lemma SignedAppend(p: string, q: string)
    requires StartsWithSign(p) && Fresh(q)
    requires Matches(MatchAt(p).1 + q) == Matches(MatchAt(p).1) + Matches(q)
    ensures Matches(p + q) == Matches(p) + Matches(q)
  {
    MatchAtAppend(p, q);
    MatchesStep(p);
    MatchesStep(p + q);
    ConcatStep(MatchAt(p).0, Matches(MatchAt(p).1), Matches(q), Matches(p + q), Matches(p));
  }

  lemma {:induction false} MatchesAppend(p: string, q: string)
    requires Fresh(q)
    ensures Matches(p + q) == Matches(p) + Matches(q)
    decreases |p|
  {
    if p == "" {
      assert p + q == q;
    } else if !IsSign(p[0]) {
      assert (p + q)[1..] == p[1..] + q;
      MatchesAppend(p[1..], q);
    } else {
      MatchesAppend(MatchAt(p).1, q);
      SignedAppend(p, q);
    }
  }

  lemma CollectLast(ms: seq<Match>, m: Match)
    requires AllValid(ms) && m.Valid()
    ensures AllValid(ms + [m]) && Collect(ms + [m]) == AddTo(Collect(ms), m.Power(), m.Constant())
  {
    var all := ms + [m];
    assert all[..|all| - 1] == ms && all[|all| - 1] == m;
  }

  lemma CollectPush(ms: seq<Match>, ns: seq<Match>, m: Match)
    requires AllValid(ms) && AllValid(ns) && AllValid(ms + ns) && m.Valid()
    requires Collect(ms + ns) == Sum(Collect(ms), Collect(ns))
    ensures AllValid(ns + [m]) && AllValid(ms + ns + [m])
    ensures Collect(ms + ns + [m]) == Sum(Collect(ms), Collect(ns + [m]))
  {
    CollectLast(ms + ns, m);
    CollectLast(ns, m);
    AddToSum(Collect(ms), Collect(ns), m.Power(), m.Constant());
  }

  lemma LastMatch(ms: seq<Match>, ns: seq<Match>)
    requires ns != []
    ensures var front, n := ns[..|ns| - 1], ns[|ns| - 1]; ns == front + [n] && ms + ns == ms + front + [n]
  {
  }

  lemma {:induction false} CollectAppend(ms: seq<Match>, ns: seq<Match>)
    requires AllValid(ms) && AllValid(ns)
    ensures AllValid(ms + ns)
    ensures Collect(ms + ns) == Sum(Collect(ms), Collect(ns))
    decreases |ns|
  {
    if ns == [] {
      assert ms + ns == ms;
    } else {
      LastMatch(ms, ns);
      CollectAppend(ms, ns[..|ns| - 1]);
      CollectPush(ms, ns[..|ns| - 1], ns[|ns| - 1]);
    }
  }

  lemma AddToSum(p: Poly, q: Poly, k: nat, c: int)
    ensures AddTo(Sum(p, q), k, c) == Sum(p, AddTo(q, k, c))
  {
  }

  /** Reading p followed by text that starts with a sign gives the sum of the two maps. */
  lemma ParseAppend(p: string, q: string)
    requires p != "" && StartsWithSign(q)
    ensures Parse(p + q) == Sum(Parse(p), Parse(q))
  {
    assert Normalize(p + q) == Normalize(p) + q;
    MatchesAppend(Normalize(p), q);
    CollectAppend(Matches(Normalize(p)), Matches(q));
  }

  // ---------------------------------------------------------------------------------------------
  // What well-formed text denotes
  // ---------------------------------------------------------------------------------------------

  /** A term as one writes it: a number, or x with an optional factor and an optional power. The
      star in front of x and the caret behind it may be left out. */
  datatype Term =
    | Number(value: string)
    | Variable(factor: string, star: bool, caret: bool, power: string)
  {
    predicate Valid() {
      match this
      case Number(value) => value != "" && AllDigits(value)
      case Variable(factor, star, caret, power) => AllDigits(factor) && AllDigits(power)
    }

    function Text(): string {
      match this
      case Number(value) => value
      case Variable(factor, star, caret, power) => factor + (Star(star) + ("x" + PowerText(caret, power)))
    }

    function Value(x: int): int
      requires Valid()
    {
      match this
      case Number(value) => ToNat(value)
      case Variable(factor, star, caret, power) =>
        (if factor == "" then 1 else ToNat(factor)) * Pow(x, if power == "" then 1 else ToNat(power))
    }
  }

  function Star(star: bool): string {
    if star then "*" else ""
  }

  /** The text behind x. */
  function PowerText(caret: bool, power: string): string {
    if caret then "^" + power else power
  }

  datatype Signed = Signed(negative: bool, term: Term) {
    function Text(): string {
      (if negative then "-" else "+") + term.Text()
    }

    function Value(x: int): int
      requires term.Valid()
    {
      if negative then -term.Value(x) else term.Value(x)
    }
  }

  predicate WellFormed(ts: seq<Signed>) {
    forall i :: 0 <= i < |ts| ==> ts[i].term.Valid()
  }

  function Text(ts: seq<Signed>): string {
    if ts == [] then "" else ts[0].Text() + Text(ts[1..])
  }

  function Value(ts: seq<Signed>, x: int): int
    requires WellFormed(ts)
  {
    if ts == [] then 0 else ts[0].Value(x) + Value(ts[1..], x)
  }

  lemma {:induction false} DigitRunOf(d: string, q: string)
    requires AllDigits(d) && (q == "" || !IsDigit(q[0]))
    ensures DigitRun(d + q) == |d|
  {
    if d == "" {
      assert d + q == q;
    } else {
      assert (d + q)[1..] == d[1..] + q;
      DigitRunOf(d[1..], q);
    }
  }

  lemma DigitsOf(d: string, q: string)
    requires AllDigits(d) && (q == "" || !IsDigit(q[0]))
    ensures Digits(d + q) == (d, q)
  {
    DigitRunOf(d, q);
  }

  lemma OnlyDigits(d: string)
    requires AllDigits(d)
    ensures Digits(d) == (d, "")
  {
    DigitsOf(d, "");
    assert d + "" == d;
  }

  lemma MatchNumber(sign: char, digits: string)
    requires IsSign(sign) && AllDigits(digits)
    ensures MatchAt([sign] + digits) == (Match(sign, digits, "", ""), "")
  {
    var s := [sign] + digits;
    assert s[1..] == digits;
    OnlyDigits(digits);
    OnlyDigits("");
  }

  lemma FrontOf(factor: string, star: bool, q: string)
    requires AllDigits(factor)
    ensures Front(factor + (Star(star) + ("x" + q))) == (factor, "x", q)
  {
    var tail := Star(star) + ("x" + q);
    DigitsOf(factor, tail);
    StarOf(star, q);
    assert Optional("x" + q, 'x') == ("x", q);
  }

  lemma StarOf(star: bool, q: string)
    ensures Optional(Star(star) + ("x" + q), '*').1 == "x" + q
  {
    var tail := Star(star) + ("x" + q);
    if star {
      assert tail[1..] == "x" + q;
    } else {
      assert tail == "x" + q;
    }
  }

  lemma BackOf(caret: bool, power: string)
    requires AllDigits(power)
    ensures Back(PowerText(caret, power)) == (power, "")
  {
    OnlyDigits(power);
    if caret {
      assert ("^" + power)[1..] == power;
    }
  }

  lemma MatchVariable(sign: char, factor: string, star: bool, caret: bool, power: string)
    requires IsSign(sign) && AllDigits(factor) && AllDigits(power)
    ensures MatchAt([sign] + (factor + (Star(star) + ("x" + PowerText(caret, power))))) ==
            (Match(sign, factor, "x", power), "")
  {
    var body := factor + (Star(star) + ("x" + PowerText(caret, power)));
    assert ([sign] + body)[1..] == body;
    FrontOf(factor, star, PowerText(caret, power));
    BackOf(caret, power);
  }

  /** What the match of a written term must be. */
  function MatchOf(t: Signed): (m: Match)
    requires t.term.Valid()
    ensures m.Valid()
  {
    var sign := if t.negative then '-' else '+';
    match t.term
    case Number(value) => Match(sign, value, "", "")
    case Variable(factor, star, caret, power) => Match(sign, factor, "x", power)
  }

  lemma MatchSigned(t: Signed)
    requires t.term.Valid()
    ensures StartsWithSign(t.Text()) && MatchAt(t.Text()) == (MatchOf(t), "")
  {
    var sign := if t.negative then '-' else '+';
    match t.term
    case Number(value) =>
      MatchNumber(sign, value);
      assert t.Text() == [sign] + value;
    case Variable(factor, star, caret, power) =>
      MatchVariable(sign, factor, star, caret, power);
      assert t.Text() == [sign] + (factor + (Star(star) + ("x" + PowerText(caret, power))));
  }

  lemma NegatedProduct(c: int, y: int)
    ensures (0 - c) * y == -(c * y)
  {
  }

  lemma MatchValue(t: Signed, x: int)
    requires t.term.Valid()
    ensures t.Value(x) == Monomial(MatchOf(t).Constant(), x, MatchOf(t).Power())
  {
    match t.term
    case Number(value) =>
      assert Pow(x, 0) == 1;
    case Variable(factor, star, caret, power) =>
      NegatedProduct(StringToInt(factor, 1), Pow(x, StringToInt(power, 1)));
  }

  lemma CollectOne(m: Match)
    requires m.Valid()
    ensures Collect([m]) == map[m.Power() := m.Constant()]
  {
    assert [] + [m] == [m];
    CollectLast([], m);
  }

  lemma SignedReads(t: Signed)
    requires t.term.Valid()
    ensures Matches(t.Text()) == [MatchOf(t)]
    ensures Collect(Matches(t.Text())) == map[MatchOf(t).Power() := MatchOf(t).Constant()]
  {
    MatchSigned(t);
    MatchesStep(t.Text());
    CollectOne(MatchOf(t));
  }

  lemma SignedDenotes(t: Signed, x: int)
    requires t.term.Valid()
    ensures Eval(Collect(Matches(t.Text())), x) == t.Value(x)
  {
    SignedReads(t);
    EvalSingle(MatchOf(t).Power(), MatchOf(t).Constant(), x);
    MatchValue(t, x);
  }

  /** The sum of the matched terms is the written value. */
  lemma {:induction false} TextDenotes(ts: seq<Signed>, x: int)
    requires WellFormed(ts)
    ensures Eval(Collect(Matches(Text(ts))), x) == Value(ts, x)
    decreases |ts|
  {
    if ts == [] {
      EvalAbove(map[], 0, x);
    } else {
      SignedDenotes(ts[0], x);
      TextDenotes(ts[1..], x);
      TextSplits(ts);
      EvalSum(Collect(Matches(ts[0].Text())), Collect(Matches(Text(ts[1..]))), x);
    }
  }

  lemma TextSplits(ts: seq<Signed>)
    requires WellFormed(ts) && ts != []
    ensures Collect(Matches(Text(ts))) == Sum(Collect(Matches(ts[0].Text())), Collect(Matches(Text(ts[1..]))))
  {
    TextFresh(ts[1..]);
    MatchesAppend(ts[0].Text(), Text(ts[1..]));
    CollectAppend(Matches(ts[0].Text()), Matches(Text(ts[1..])));
  }

  lemma TextFresh(ts: seq<Signed>)
    ensures Fresh(Text(ts))
  {
  }

  /** Well-formed text, with or without a plus in front of a positive first term. */
  ghost predicate Writes(s: string, ts: seq<Signed>) {
    ts != [] && WellFormed(ts) && (s == Text(ts) || (!ts[0].negative && "+" + s == Text(ts)))
  }

  /** Reading well-formed text gives a map with the value that was written. */
  lemma ParseDenotes(s: string, ts: seq<Signed>, x: int)
    requires Writes(s, ts)
    ensures s != "" && Normalize(s) == Text(ts)
    ensures Eval(Parse(s), x) == Value(ts, x)
  {
    TextDenotes(ts, x);
    WrittenText(s, ts);
  }

  lemma WrittenText(s: string, ts: seq<Signed>)
    requires Writes(s, ts)
    ensures s != "" && Normalize(s) == Text(ts)
  {
    var t := ts[0].Text();
    assert |t| >= 2 && IsSign(t[0]) && !IsSign(t[1]);
    assert Text(ts)[0] == t[0] && Text(ts)[1] == t[1];
    if s != Text(ts) {
      assert s == ("+" + s)[1..];
      assert s[0] == Text(ts)[1];
    }
  }
}
