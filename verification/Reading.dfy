/** What any text denotes, well-formed or not: it is a sequence of items, each a sign, the parts that
    the regular expression takes behind it, and text that is skipped up to the next sign. */
module Reading {
  import opened Decimal
  import opened Polynomial
  import opened Expression

  predicate NoSign(s: string) {
    forall i :: 0 <= i < |s| ==> s[i] != '+' && s[i] != '-'
  }

  /** The skipped text is the rest of the cut. */
  datatype Item = Item(sign: char, cut: Cut) {
    ghost predicate Valid() {
      (sign == '+' || sign == '-') && Greediest(cut) && NoSign(cut.rest)
    }

    function Text(): string {
      [sign] + cut.Whole()
    }

    /** Missing digits stand for one. */
    function Constant(): int
      requires cut.Allowed()
    {
      var c := if cut.digits == "" then 1 else ToNat(cut.digits);
      if sign == '-' then -c else c
    }

    /** Digits at the end are the power, also when there is no x; without them x has power one and
        a number power zero. */
    function Power(): nat
      requires cut.Allowed()
    {
      if cut.power != "" then ToNat(cut.power) else |cut.x|
    }
  }

  /** Of all allowed cuts of its text, the one that greedy matching prefers. */
  ghost predicate Greediest(cut: Cut) {
    cut.Allowed() && forall other: Cut :: other.Allowed() && other.Whole() == cut.Whole() ==> NotGreedier(other, cut)
  }

  ghost predicate AllItems(items: seq<Item>) {
    forall i :: 0 <= i < |items| ==> items[i].Valid()
  }

  function Join(items: seq<Item>): string {
    if items == [] then "" else items[0].Text() + Join(items[1..])
  }

  /** The items of a text, which may lack the sign of the first one. */
  ghost predicate Consists(s: string, items: seq<Item>) {
    && s != "" && items != [] && AllItems(items)
    && Join(items) == if s[0] == '+' || s[0] == '-' then s else "+" + s
  }

  /** What the items of power k add up to. */
  ghost function Total(items: seq<Item>, k: nat): int
    requires AllItems(items)
  {
    if items == [] then 0 else (if items[0].Power() == k then items[0].Constant() else 0) + Total(items[1..], k)
  }

  /** The value of the items at x. */
  ghost function ValueOfItems(items: seq<Item>, x: int): int
    requires AllItems(items)
  {
    if items == [] then 0 else items[0].Constant() * Pow(x, items[0].Power()) + ValueOfItems(items[1..], x)
  }

  // ---------------------------------------------------------------------------------------------
  // Every text consists of items
  // ---------------------------------------------------------------------------------------------

  /** The text up to the next sign. */
  function UpToSign(s: string): (n: nat)
    ensures n <= |s| && NoSign(s[..n]) && Fresh(s[n..])
  {
    if s == "" || IsSign(s[0]) then 0
    else
      var n := UpToSign(s[1..]) + 1;
      assert s[..n] == [s[0]] + s[1..][..n - 1];
      n
  }

  lemma ScannedIsGreediest(s: string)
    ensures Greediest(ScannedCut(s)) && ScannedCut(s).Whole() == s
  {
    ScannedCutAllowed(s);
    forall other: Cut | other.Allowed() && other.Whole() == s
      ensures NotGreedier(other, ScannedCut(s))
    {
      ScannerIsGreedy(other);
    }
  }

  lemma NoSignBehind(front: string, rest: string)
    requires NoSign(front + rest)
    ensures NoSign(rest)
  {
    assert forall i :: 0 <= i < |rest| ==> rest[i] == (front + rest)[|front| + i];
  }

  lemma RestHasNoSign(cut: Cut)
    requires NoSign(cut.Whole())
    ensures NoSign(cut.rest)
  {
    NoSignBehind(cut.digits, cut.star + (cut.x + (cut.caret + (cut.power + cut.rest))));
    NoSignBehind(cut.star, cut.x + (cut.caret + (cut.power + cut.rest)));
    NoSignBehind(cut.x, cut.caret + (cut.power + cut.rest));
    NoSignBehind(cut.caret, cut.power + cut.rest);
    NoSignBehind(cut.power, cut.rest);
  }

  lemma ScannedItem(sign: char, body: string)
    requires IsSign(sign) && NoSign(body)
    ensures var item := Item(sign, ScannedCut(body)); item.Valid() && item.Text() == [sign] + body
  {
    ScannedIsGreediest(body);
    RestHasNoSign(ScannedCut(body));
  }

  lemma FirstPart(s: string, n: nat)
    requires s != "" && n < |s|
    ensures s == [s[0]] + s[1..][..n] + s[1..][n..]
  {
  }

  lemma ItemAtFront(s: string) returns (item: Item, rest: string)
    requires StartsWithSign(s)
    ensures item.Valid() && Fresh(rest) && s == item.Text() + rest
  {
    var n := UpToSign(s[1..]);
    var body := s[1..][..n];
    rest := s[1..][n..];
    ScannedItem(s[0], body);
    item := Item(s[0], ScannedCut(body));
    FirstPart(s, n);
  }

  lemma {:induction false} ItemsOfSigned(s: string) returns (items: seq<Item>)
    requires Fresh(s)
    ensures AllItems(items) && Join(items) == s
    decreases |s|
  {
    if s == "" {
      items := [];
    } else {
      var item, rest := ItemAtFront(s);
      var others := ItemsOfSigned(rest);
      items := [item] + others;
    }
  }

  /** No text is outside the scope of what follows. */
  lemma EveryTextConsists(s: string) returns (items: seq<Item>)
    requires s != ""
    ensures Consists(s, items)
  {
    items := ItemsOfSigned(Normalize(s));
  }

  // ---------------------------------------------------------------------------------------------
  // What the items add up to
  // ---------------------------------------------------------------------------------------------

  /** Text without a sign has no match. */
  lemma {:induction false} Skipped(s: string)
    requires NoSign(s)
    ensures Matches(s) == []
    decreases |s|
  {
    if s != "" {
      Skipped(s[1..]);
    }
  }

  /** There is only one greediest cut. */
  lemma GreediestIsScanned(cut: Cut)
    requires Greediest(cut)
    ensures ScannedCut(cut.Whole()) == cut
  {
    ScannedIsGreediest(cut.Whole());
    assert NotGreedier(ScannedCut(cut.Whole()), cut);
    assert NotGreedier(cut, ScannedCut(cut.Whole()));
  }

  lemma ItemMatch(item: Item)
    requires item.Valid()
    ensures StartsWithSign(item.Text())
    ensures MatchAt(item.Text()) ==
            (Match(item.sign, item.cut.digits, item.cut.x, item.cut.power), item.cut.rest)
  {
    var s := item.Text();
    assert s[1..] == item.cut.Whole();
    GreediestIsScanned(item.cut);
    MatchIsScannedCut(s);
  }

  lemma MatchIsItem(item: Item)
    requires item.cut.Allowed()
    ensures var m := Match(item.sign, item.cut.digits, item.cut.x, item.cut.power);
      m.Valid() && m.Power() == item.Power() && m.Constant() == item.Constant()
  {
  }

  lemma ItemReads(item: Item)
    requires item.Valid()
    ensures Collect(Matches(item.Text())) == map[item.Power() := item.Constant()]
  {
    ItemMatch(item);
    MatchesStep(item.Text());
    Skipped(item.cut.rest);
    MatchIsItem(item);
    CollectOne(MatchAt(item.Text()).0);
  }

  lemma JoinFresh(items: seq<Item>)
    requires AllItems(items)
    ensures Fresh(Join(items))
  {
  }

  lemma JoinSplits(items: seq<Item>)
    requires AllItems(items) && items != []
    ensures Collect(Matches(Join(items))) ==
            Sum(map[items[0].Power() := items[0].Constant()], Collect(Matches(Join(items[1..]))))
  {
    JoinFresh(items[1..]);
    ItemReads(items[0]);
    MatchesAppend(items[0].Text(), Join(items[1..]));
    CollectAppend(Matches(items[0].Text()), Matches(Join(items[1..])));
  }

  /** Some item has power k. */
  ghost predicate HasPower(items: seq<Item>, k: nat)
    requires AllItems(items)
  {
    exists i :: 0 <= i < |items| && items[i].Power() == k
  }

  lemma HasPowerStep(items: seq<Item>, k: nat)
    requires AllItems(items) && items != []
    ensures HasPower(items, k) <==> items[0].Power() == k || HasPower(items[1..], k)
  {
    var rest := items[1..];
    if HasPower(rest, k) {
      var i :| 0 <= i < |rest| && rest[i].Power() == k;
      assert items[i + 1].Power() == k;
    }
    if HasPower(items, k) && items[0].Power() != k {
      var i :| 0 <= i < |items| && items[i].Power() == k;
      assert rest[i - 1].Power() == k;
    }
  }

  lemma SumOfOne(k: nat, c: int, p: Poly, j: nat)
    ensures var q := Sum(map[k := c], p);
      (j in q <==> j == k || j in p) && Coefficient(q, j) == (if j == k then c else 0) + Coefficient(p, j)
  {
  }

  lemma {:induction false} JoinReads(items: seq<Item>, k: nat)
    requires AllItems(items)
    ensures var p := Collect(Matches(Join(items)));
      (k in p <==> HasPower(items, k)) && Coefficient(p, k) == Total(items, k)
    decreases |items|
  {
    if items != [] {
      JoinReads(items[1..], k);
      JoinSplits(items);
      HasPowerStep(items, k);
      SumOfOne(items[0].Power(), items[0].Constant(), Collect(Matches(Join(items[1..]))), k);
    }
  }

  lemma {:induction false} JoinDenotes(items: seq<Item>, x: int)
    requires AllItems(items)
    ensures Eval(Collect(Matches(Join(items))), x) == ValueOfItems(items, x)
    decreases |items|
  {
    if items == [] {
      EvalAbove(map[], 0, x);
    } else {
      var k, c := items[0].Power(), items[0].Constant();
      JoinDenotes(items[1..], x);
      JoinSplits(items);
      EvalSingle(k, c, x);
      EvalSum(map[k := c], Collect(Matches(Join(items[1..]))), x);
    }
  }

  /** The map read from any text: it has an entry for exactly the powers of its items, and the
      constants of equal powers are added up. */
  lemma ParseIsTotal(s: string, items: seq<Item>, k: nat)
    requires Consists(s, items)
    ensures k in Parse(s) <==> HasPower(items, k)
    ensures k in Parse(s) ==> Parse(s)[k] == Total(items, k)
  {
    JoinReads(items, k);
  }

  lemma ParseValue(s: string, items: seq<Item>, x: int)
    requires Consists(s, items)
    ensures Eval(Parse(s), x) == ValueOfItems(items, x)
  {
    JoinDenotes(items, x);
  }
}
