/**
  The mana-cost parser of the scraper (cardscience.js:85, 146-159): the `alt`
  labels of a row's cost icons are folded into a map from colour to count.
  A label `isNaN` rejects is a colour and adds 1 under its lower-cased text;
  a numeric label N adds N under "colourless".
*/
module ManaCost {
  import opened JsonDoc

  type Costs = map<string, nat>

  const Colourless: string := "colourless"

  /** `mana_costs[k] || 0`: the count under `k`, or 0 when the key is absent. */
  function Count(m: Costs, k: string): nat {
    if k in m then m[k] else 0
  }

  /** The key a label adds to. */
  function KeyOf(alt: string): string {
    if IsDigitText(alt) then Colourless else Lower(alt)
  }

  /** How much a label adds: 1 for a colour, N for the numeric label N. */
  function Pips(alt: string): nat {
    if IsDigitText(alt) then DigitsValue(alt) else 1
  }

  /** One step of the `forEach` over the icons: `m` after the label `alt`. */
  function Tally(m: Costs, alt: string): Costs {
    m[KeyOf(alt) := Count(m, KeyOf(alt)) + Pips(alt)]
  }

  /** The tally of a label sequence, taken left to right from the empty map. */
  function ManaCost(alts: seq<string>): Costs {
    if alts == [] then map[] else Tally(ManaCost(alts[..|alts| - 1]), alts[|alts| - 1])
  }

  /** Reference definition, label by label: what `alt` contributes under `k`. */
  function Weight(alt: string, k: string): nat {
    if KeyOf(alt) == k then Pips(alt) else 0
  }

  /** Reference definition: the sum of every label's contribution under `k`. */
  function Weigh(alts: seq<string>, k: string): nat {
    if alts == [] then 0 else Weigh(alts[..|alts| - 1], k) + Weight(alts[|alts| - 1], k)
  }

  /** The number of colour labels plus the sum of the numeric labels. */
  function TotalPips(alts: seq<string>): nat {
    if alts == [] then 0 else TotalPips(alts[..|alts| - 1]) + Pips(alts[|alts| - 1])
  }

  /** The sum of a map's values. */
  ghost function SumValues(m: Costs): nat
    decreases m.Keys
  {
    if m == map[] then 0
    else
      var k :| k in m;
      m[k] + SumValues(m - {k})
  }

  /**
    The parser as the source runs it: a loop over the icons that updates one
    dictionary, with an inner loop adding the colourless pips one at a time.
  */
  method ParseManaCost(alts: seq<string>) returns (costs: Costs)
    ensures costs == ManaCost(alts)
  {
    costs := map[];
    for i := 0 to |alts|
      invariant costs == ManaCost(alts[..i])
    {
      PrefixStep(alts, i);
      ghost var prev := costs;
      var alt := alts[i];
      if !IsDigitText(alt) {
        var colour := Lower(alt);
        costs := costs[colour := Count(costs, colour)];
        costs := costs[colour := costs[colour] + 1];
        ColourStep(prev, alt, costs);
      } else {
        costs := AddColourless(costs, DigitsValue(alt));
      }
    }
    assert alts[..|alts|] == alts;
  }

  /**
    `mana_costs["colourless"] = mana_costs["colourless"] || 0`, then
    `Number(alt).times(...)` adding one pip per iteration.
  */
  method AddColourless(before: Costs, n: nat) returns (costs: Costs)
    ensures costs == before[Colourless := Count(before, Colourless) + n]
  {
    costs := before[Colourless := Count(before, Colourless)];
    var j := 0;
    while j < n
      invariant 0 <= j <= n
      invariant costs == before[Colourless := Count(before, Colourless) + j]
    {
      costs := costs[Colourless := costs[Colourless] + 1];
      j := j + 1;
    }
  }

  lemma PrefixStep(alts: seq<string>, i: nat)
    requires i < |alts|
    ensures ManaCost(alts[..i + 1]) == Tally(ManaCost(alts[..i]), alts[i])
  {
    assert alts[..i + 1][..i] == alts[..i];
  }

  lemma ColourStep(m: Costs, alt: string, after: Costs)
    requires !IsDigitText(alt)
    requires after == m[Lower(alt) := Count(m, Lower(alt))][Lower(alt) := Count(m, Lower(alt)) + 1]
    ensures after == Tally(m, alt)
  {
  }

  lemma TallyCount(m: Costs, alt: string, k: string)
    ensures Count(Tally(m, alt), k) == Count(m, k) + Weight(alt, k)
    ensures k in Tally(m, alt) <==> k in m || KeyOf(alt) == k
  {
  }

  /**
    Every key's count is the sum of the labels' contributions to it, and a key
    is present exactly when some label adds to it, even by 0.
  */
  lemma {:induction false} ManaCostCounts(alts: seq<string>, k: string)
    ensures Count(ManaCost(alts), k) == Weigh(alts, k)
    ensures k in ManaCost(alts) <==> exists a :: a in alts && KeyOf(a) == k
  {
    if alts != [] {
      var init, last := alts[..|alts| - 1], alts[|alts| - 1];
      assert alts == init + [last];
      ManaCostCounts(init, k);
      TallyCount(ManaCost(init), last, k);
      if k in ManaCost(alts) && KeyOf(last) != k {
        var a :| a in init && KeyOf(a) == k;
        assert a in alts;
      }
    }
  }

  /** A colour label adds exactly 1 under its lower-cased text. */
  lemma ColourAddsOne(alts: seq<string>, alt: string)
    requires !IsDigitText(alt)
    ensures Count(ManaCost(alts + [alt]), Lower(alt)) == Count(ManaCost(alts), Lower(alt)) + 1
  {
    assert (alts + [alt])[..|alts|] == alts;
  }

  /** A numeric label N adds exactly N under "colourless", and leaves that key present. */
  lemma NumberAddsColourless(alts: seq<string>, alt: string)
    requires IsDigitText(alt)
    ensures Count(ManaCost(alts + [alt]), Colourless) == Count(ManaCost(alts), Colourless) + DigitsValue(alt)
    ensures Colourless in ManaCost(alts + [alt])
  {
    assert (alts + [alt])[..|alts|] == alts;
  }

  lemma {:induction false} WeighConcat(a: seq<string>, b: seq<string>, k: string)
    ensures Weigh(a + b, k) == Weigh(a, k) + Weigh(b, k)
  {
    if b == [] {
      assert a + b == a;
    } else {
      var init := b[..|b| - 1];
      assert (a + b)[..|a + b| - 1] == a + init;
      assert (a + b)[|a + b| - 1] == b[|b| - 1];
      WeighConcat(a, init, k);
    }
  }

  lemma {:induction false} WeighPermutation(a: seq<string>, b: seq<string>, k: string)
    requires multiset(a) == multiset(b)
    ensures Weigh(a, k) == Weigh(b, k)
  {
    if a == [] {
      assert |b| == |multiset(b)| == 0;
    } else {
      var init, last := a[..|a| - 1], a[|a| - 1];
      assert a == init + [last];
      assert last in multiset(b);
      var i :| 0 <= i < |b| && b[i] == last;
      var rest := b[..i] + b[i + 1..];
      assert b == b[..i] + [b[i]] + b[i + 1..];
      assert multiset(b) == multiset(b[..i]) + multiset{last} + multiset(b[i + 1..]);
      assert multiset(a) == multiset(init) + multiset{last};
      assert multiset(rest) == multiset(b[..i]) + multiset(b[i + 1..]);
      MultisetCancel(multiset(rest), multiset(init), last);
      WeighPermutation(init, rest, k);
      WeighConcat(b[..i], b[i + 1..], k);
      WeighConcat(b[..i] + [b[i]], b[i + 1..], k);
      WeighConcat(b[..i], [b[i]], k);
      assert Weigh([b[i]], k) == Weight(b[i], k) by {
        assert [b[i]][..0] == [];
      }
    }
  }

  lemma MultisetCancel(x: multiset<string>, y: multiset<string>, z: string)
    requires x + multiset{z} == y + multiset{z}
    ensures x == y
  {
    assert forall e :: x[e] == (x + multiset{z})[e] - (if e == z then 1 else 0);
    assert forall e :: y[e] == (y + multiset{z})[e] - (if e == z then 1 else 0);
  }

  /** The tally does not depend on the order of the icons. */
  lemma ManaCostOrderFree(a: seq<string>, b: seq<string>)
    requires multiset(a) == multiset(b)
    ensures ManaCost(a) == ManaCost(b)
  {
    forall k
      ensures Count(ManaCost(a), k) == Count(ManaCost(b), k)
      ensures k in ManaCost(a) <==> k in ManaCost(b)
    {
      ManaCostCounts(a, k);
      ManaCostCounts(b, k);
      WeighPermutation(a, b, k);
      forall x | x in a ensures x in b {
        assert x in multiset(a);
      }
      forall x | x in b ensures x in a {
        assert x in multiset(b);
      }
    }
  }

  /** Two labels with the same lower-cased text, such as "Red" and "red", tally alike. */
  lemma LowerSameTally(a: string, b: string, m: Costs)
    requires Lower(a) == Lower(b)
    ensures Tally(m, a) == Tally(m, b)
  {
    LowerDigitText(a);
    LowerDigitText(b);
    if IsDigitText(a) {
      LowerKeepsDigits(a);
      LowerKeepsDigits(b);
    }
  }

  /** Label sequences that agree up to letter case give the same map. */
  lemma {:induction false} ManaCostCaseInsensitive(a: seq<string>, b: seq<string>)
    requires |a| == |b|
    requires forall i :: 0 <= i < |a| ==> Lower(a[i]) == Lower(b[i])
    ensures ManaCost(a) == ManaCost(b)
  {
    if a != [] {
      ManaCostCaseInsensitive(a[..|a| - 1], b[..|b| - 1]);
      LowerSameTally(a[|a| - 1], b[|b| - 1], ManaCost(a[..|a| - 1]));
    }
  }

  lemma {:induction false} SumValuesRemove(m: Costs, k: string)
    requires k in m
    ensures SumValues(m) == m[k] + SumValues(m - {k})
    decreases m.Keys
  {
    var j :| j in m && SumValues(m) == m[j] + SumValues(m - {j});
    if j != k {
      SumValuesRemove(m - {j}, k);
      SumValuesRemove(m - {k}, j);
      assert m - {j} - {k} == m - {k} - {j};
    }
  }

  lemma SumValuesTally(m: Costs, alt: string)
    ensures SumValues(Tally(m, alt)) == SumValues(m) + Pips(alt)
  {
    var k := KeyOf(alt);
    var t := Tally(m, alt);
    SumValuesRemove(t, k);
    if k in m {
      SumValuesRemove(m, k);
      assert t - {k} == m - {k};
    } else {
      assert t - {k} == m;
    }
  }

  /**
    The counts add up to the number of colour labels plus the sum of the
    numeric labels (which need not equal the converted cost: nothing checks it).
  */
  lemma {:induction false} ManaCostTotal(alts: seq<string>)
    ensures SumValues(ManaCost(alts)) == TotalPips(alts)
  {
    if alts == [] {
    } else {
      ManaCostTotal(alts[..|alts| - 1]);
      SumValuesTally(ManaCost(alts[..|alts| - 1]), alts[|alts| - 1]);
    }
  }

  /** The worked examples: "2", "Red","Red", "Red","2", no icons, "0" and "10". */
  lemma ManaCostExamples()
    ensures ManaCost(["2"]) == map["colourless" := 2]
    ensures ManaCost(["Red", "Red"]) == map["red" := 2]
    ensures ManaCost(["Red", "2"]) == map["red" := 1, "colourless" := 2]
    ensures ManaCost([]) == map[]
    ensures ManaCost(["0"]) == map["colourless" := 0]
    ensures ManaCost(["10"]) == map["colourless" := 10]
  {
    assert Lower("Red") == "red";
    assert !IsDigitText("Red") by { assert !IsDigit("Red"[0]); }
    assert ["Red", "Red"][..1] == ["Red"];
    assert ["Red", "2"][..1] == ["Red"];
    assert ["Red"][..0] == [];
    assert ["2"][..0] == [];
    assert ["0"][..0] == [];
    assert ["10"][..0] == [];
    DigitsValueAppend("1", '0');
    assert "1" + ['0'] == "10";
  }
}
