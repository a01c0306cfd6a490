/** The gas value chosen from several endpoints: the lower of two values, the median of three or more. */
module GasValue {
  import opened Options
  import opened Quorum
  import opened Sorting

  /** An answer is a number or something else. */
  datatype Any = Number(n: int) | Other(tag: string)

  function Numbers(vs: seq<Any>): seq<int> {
    if vs == [] then [] else NumberOf(vs[0]) + Numbers(vs[1..])
  }

  function NumberOf(v: Any): seq<int> {
    if v.Number? then [v.n] else []
  }

  /** The middle value of an ordered list, or the mean of the two middle ones, rounded down. */
  function Median(ns: seq<int>): int
    requires ns != []
  {
    var m := |ns| / 2;
    if |ns| % 2 == 0 then (ns[m - 1] + ns[m]) / 2 else ns[m]
  }

  /** With a single number among the answers, the first answer is returned, whether or not it is that number. */
  function DecideGas(min: int, resps: seq<Response<Any>>): Decision<Any> {
    var vs := Answers(resps);
    var ns := Numbers(vs);
    if |ns| < min then NotEnough(Errors(resps))
    else if |ns| == 0 then Panics
    else if |ns| == 1 then
      OneNumber(vs);
      Accepted(vs[0])
    else Accepted(Number(GasOf(ns)))
  }

  function GasOf(ns: seq<int>): int
    requires |ns| >= 2
  {
    if |ns| == 2 then (if ns[0] > ns[1] then ns[1] else ns[0])
    else
      SortOrdered(ns);
      Median(Sort(ns))
  }

  lemma OneNumber(vs: seq<Any>)
    ensures |Numbers(vs)| <= |vs|
  {
  }

  method FilterByNumberType(vs: seq<Any>) returns (ns: seq<int>)
    ensures ns == Numbers(vs)
  {
    ns := [];
    for i := 0 to |vs|
      invariant ns == Numbers(vs[..i])
    {
      hide Numbers;
      NumbersAppend(vs, i);
      if vs[i].Number? {
        ns := ns + [vs[i].n];
      }
    }
    assert vs[..|vs|] == vs;
  }

  method ResolveGas(min: int, resps: seq<Response<Any>>) returns (r: Decision<Any>)
    ensures r == DecideGas(min, resps)
  {
    hide Numbers, Answers, Errors, Sort;
    var vs, errs := ExtractErrors(resps);
    var ns := FilterByNumberType(vs);
    if |ns| < min {
      return NotEnough(errs);
    }
    if |ns| == 1 {
      OneNumber(vs);
      return Accepted(vs[0]);
    }
    if |ns| == 2 {
      var a, b := ns[0], ns[1];
      if a > b {
        return Accepted(Number(b));
      }
      return Accepted(Number(a));
    }
    if |ns| == 0 {
      return Panics;
    }
    SortOrdered(ns);
    ns := Sort(ns);
    if |ns| % 2 == 0 {
      var m := |ns| / 2;
      var x, y := ns[m - 1], ns[m];
      return Accepted(Number((x + y) / 2));
    }
    return Accepted(Number(ns[|ns| / 2]));
  }

  /**
   With exactly one number among the answers, that number is the result if and only if it is the first answer.
   Endpoints that are asked for a number give no other answers, so only direct callers of the resolver see the rest.
   */
  lemma {:induction false} OneNumberIsReturned(min: int, resps: seq<Response<Any>>)
    requires |Numbers(Answers(resps))| == 1
    ensures DecideGas(min, resps).Accepted? <==> min <= 1
    ensures min <= 1 ==>
              (DecideGas(min, resps) == Accepted(Number(Numbers(Answers(resps))[0])) <==> Answers(resps)[0].Number?)
    ensures (forall v | v in Answers(resps) :: v.Number?) ==> Answers(resps)[0].Number?
  {
    var vs := Answers(resps);
    assert vs != [];
    if vs[0].Number? {
      assert Numbers(vs) == [vs[0].n] + Numbers(vs[1..]);
    }
  }

  /** An answer of another type in front of the only number is what the resolver returns. */
  lemma OtherAnswerIsReturned(tag: string, n: int)
    ensures DecideGas(1, [Answer(Other(tag)), Answer(Number(n))]) == Accepted(Other(tag))
  {
    var resps: seq<Response<Any>> := [Answer(Other(tag)), Answer(Number(n))];
    assert resps[1..] == [Answer(Number(n))] && resps[1..][1..] == [];
    assert Answers(resps) == [Other(tag)] + Answers(resps[1..]);
    assert Answers(resps[1..]) == [Number(n)] + [] == [Number(n)];
    var vs := [Other(tag), Number(n)];
    assert vs[1..] == [Number(n)] && vs[1..][1..] == [];
    assert Numbers(vs) == [] + Numbers(vs[1..]) == [n];
  }

  function IsNumber(): Any -> bool {
    (v: Any) => v.Number?
  }

  function ToNumber(): int -> Any {
    (n: int) => Number(n)
  }

  /** The numbers are those among the answers, as they arrived. */
  lemma {:induction false} NumbersInOrder(vs: seq<Any>) returns (at: seq<nat>)
    ensures Selected(IsNumber(), ToNumber(), vs, at, Numbers(vs))
  {
    at := [];
    if vs != [] {
      var n := |vs| - 1;
      var rest, last := vs[..n], vs[n];
      at := NumbersInOrder(rest);
      assert vs == rest + [last];
      NumbersAppend(vs, n);
      assert vs[..n + 1] == vs;
      hide Numbers, Selected;
      if last.Number? {
        SelectedAppend(IsNumber(), ToNumber(), rest, at, Numbers(rest), last, last.n);
        at := at + [n];
      } else {
        SelectedSkip(IsNumber(), ToNumber(), rest, at, Numbers(rest), last);
        assert Numbers(rest) + [] == Numbers(rest);
      }
    }
  }

  /** Which result there is: fewer numbers than required are an error, and no number at all is not handled. */
  lemma WhichGas(min: int, resps: seq<Response<Any>>)
    ensures
      var ns, d := Numbers(Answers(resps)), DecideGas(min, resps);
      && (|ns| < min ==> d == NotEnough(Errors(resps)))
      && (d.Panics? <==> ns == [] && min <= 0)
      && (d.Accepted? <==> |ns| >= min && ns != [])
      && (|ns| >= 2 && d.Accepted? ==> d.value.Number?)
  {
  }

  // ---------- A faulty minority ----------

  function CountIf(p: int -> bool, ns: seq<int>): (n: nat)
    ensures n <= |ns|
  {
    if ns == [] then 0 else (if p(ns[0]) then 1 else 0) + CountIf(p, ns[1..])
  }

  function Below(bound: int): int -> bool {
    (n: int) => bound > n
  }

  function Above(bound: int): int -> bool {
    (n: int) => n > bound
  }

  lemma {:induction false} CountIfPermutation(p: int -> bool, a: seq<int>, b: seq<int>)
    requires multiset(a) == multiset(b)
    ensures CountIf(p, a) == CountIf(p, b)
  {
    var w := (n: int) => if p(n) then 1 else 0;
    CountIfTotal(p, w, a);
    CountIfTotal(p, w, b);
    TotalPermutation(w, a, b);
  }

  lemma {:induction false} CountIfTotal(p: int -> bool, w: int -> int, ns: seq<int>)
    requires forall n :: w(n) == if p(n) then 1 else 0
    ensures CountIf(p, ns) == Total(w, ns)
  {
    if ns != [] {
      CountIfTotal(p, w, ns[1..]);
    }
  }

  lemma {:induction false} CountIfConcat(p: int -> bool, a: seq<int>, b: seq<int>)
    ensures CountIf(p, a + b) == CountIf(p, a) + CountIf(p, b)
  {
    if a == [] {
      assert a + b == b;
    } else {
      CountIfConcat(p, a[1..], b);
      assert (a + b)[1..] == a[1..] + b;
    }
  }

  lemma {:induction false} CountIfAll(p: int -> bool, ns: seq<int>)
    requires forall i | 0 <= i < |ns| :: p(ns[i])
    ensures CountIf(p, ns) == |ns|
  {
    if ns != [] {
      CountIfAll(p, ns[1..]);
    }
  }

  /** How many responses are marked as faulty. */
  function CountFaulty(faulty: seq<bool>): (n: nat)
    ensures n <= |faulty|
  {
    if faulty == [] then 0 else (if faulty[0] then 1 else 0) + CountFaulty(faulty[1..])
  }

  /** Values that no honest endpoint gave are at most as many as the faulty endpoints. */
  lemma {:induction false} OnlyFaulty(p: int -> bool, ns: seq<int>, faulty: seq<bool>)
    requires |faulty| == |ns| && forall i | 0 <= i < |ns| && !faulty[i] :: !p(ns[i])
    ensures CountIf(p, ns) <= CountFaulty(faulty)
  {
    if ns != [] {
      OnlyFaulty(p, ns[1..], faulty[1..]);
    }
  }

  lemma FirstBelow(s: seq<int>, k: nat, bound: int)
    requires Ordered(s) && 0 < k <= |s| && s[k - 1] < bound
    ensures CountIf(Below(bound), s) >= k
  {
    hide CountIf;
    forall i | 0 <= i < k ensures Below(bound)(s[..k][i]) {
      assert s[i] <= s[k - 1];
    }
    assert s == s[..k] + s[k..];
    CountIfConcat(Below(bound), s[..k], s[k..]);
    CountIfAll(Below(bound), s[..k]);
  }

  lemma LastAbove(s: seq<int>, k: nat, bound: int)
    requires Ordered(s) && k < |s| && s[k] > bound
    ensures CountIf(Above(bound), s) >= |s| - k
  {
    hide CountIf;
    forall i | 0 <= i < |s| - k ensures Above(bound)(s[k..][i]) {
      assert s[k] <= s[k + i];
    }
    assert s == s[..k] + s[k..];
    CountIfConcat(Above(bound), s[..k], s[k..]);
    CountIfAll(Above(bound), s[k..]);
  }

  /** At least half of an ordered list is below a bound that its median is below, and likewise above. */
  lemma MedianCounts(s: seq<int>, bound: int)
    requires Ordered(s) && s != []
    ensures Median(s) < bound ==> 2 * CountIf(Below(bound), s) >= |s|
    ensures Median(s) > bound ==> 2 * CountIf(Above(bound), s) >= |s|
  {
    hide CountIf;
    var m := |s| / 2;
    if Median(s) < bound {
      FirstBelow(s, if |s| % 2 == 0 then m else m + 1, bound);
    }
    if Median(s) > bound {
      LastAbove(s, m, bound);
    }
  }

  /**
   With three or more numbers, fewer than half of them faulty, the result lies between the bounds of the
   honest values; with two, it exceeds no value at all.
   */
  lemma FaultyMinority(min: int, resps: seq<Response<Any>>, faulty: seq<bool>, lo: int, hi: int)
    requires
      var ns := Numbers(Answers(resps));
      && |ns| >= 2 && |ns| >= min && |faulty| == |ns|
      && forall i | 0 <= i < |ns| && !faulty[i] :: lo <= ns[i] <= hi
    ensures DecideGas(min, resps).Accepted? && DecideGas(min, resps).value.Number?
    ensures
      var ns := Numbers(Answers(resps));
      var n := DecideGas(min, resps).value.n;
      && (|ns| == 2 ==> forall v | v in ns :: n <= v)
      && (|ns| >= 3 && 2 * CountFaulty(faulty) < |ns| ==> lo <= n <= hi)
  {
    var ns := Numbers(Answers(resps));
    if |ns| >= 3 {
      SortOrdered(ns);
      var s := Sort(ns);
      MedianCounts(s, lo);
      MedianCounts(s, hi);
      CountIfPermutation(Below(lo), s, ns);
      CountIfPermutation(Above(hi), s, ns);
      OnlyFaulty(Below(lo), ns, faulty);
      OnlyFaulty(Above(hi), ns, faulty);
    }
  }

  /**
   The result over the ordered list of the numbers: the lower of two, the middle one of an odd number, and the mean
   of the middle two, rounded down, of an even number.
   */
  lemma GasOverOrdered(min: int, resps: seq<Response<Any>>, s: seq<int>)
    requires
      var ns := Numbers(Answers(resps));
      |ns| >= 2 && |ns| >= min && Ordered(s) && multiset(s) == multiset(ns) && |s| == |ns|
    ensures DecideGas(min, resps).Accepted? && DecideGas(min, resps).value.Number?
    ensures
      var n, m := DecideGas(min, resps).value.n, |s| / 2;
      && (|s| == 2 ==> n == s[0])
      && (|s| % 2 == 1 ==> n == s[m])
      && (|s| % 2 == 0 && |s| > 2 ==> 2 * n <= s[m - 1] + s[m] <= 2 * n + 1)
  {
    var ns := Numbers(Answers(resps));
    SortOrdered(ns);
    OrderedUnique(s, Sort(ns));
    if |s| == 2 {
      PairPermutation(s, ns);
    }
  }

  /** The result is one of an odd number of values, and most of them do not exceed it and most are not below it. */
  lemma OddMedian(min: int, resps: seq<Response<Any>>)
    requires
      var ns := Numbers(Answers(resps));
      |ns| >= 3 && |ns| % 2 == 1 && |ns| >= min
    ensures DecideGas(min, resps).Accepted? && DecideGas(min, resps).value.Number?
    ensures
      var ns, n := Numbers(Answers(resps)), DecideGas(min, resps).value.n;
      && n in ns
      && 2 * CountIf(Below(n + 1), ns) > |ns|
      && 2 * CountIf(Above(n - 1), ns) > |ns|
  {
    var ns := Numbers(Answers(resps));
    SortOrdered(ns);
    var s := Sort(ns);
    GasOverOrdered(min, resps, s);
    hide CountIf, DecideGas, Numbers, Answers, Sort;
    MiddleCounts(s, ns);
  }

  lemma MiddleCounts(s: seq<int>, ns: seq<int>)
    requires Ordered(s) && multiset(s) == multiset(ns) && |s| == |ns| && |s| % 2 == 1
    ensures
      var n := s[|s| / 2];
      2 * CountIf(Below(n + 1), ns) > |ns| && 2 * CountIf(Above(n - 1), ns) > |ns|
  {
    hide CountIf;
    var m := |s| / 2;
    var n := s[m];
    FirstBelow(s, m + 1, n + 1);
    LastAbove(s, m, n - 1);
    CountIfPermutation(Below(n + 1), s, ns);
    CountIfPermutation(Above(n - 1), s, ns);
  }

  /** When all answers are numbers, the result does not depend on the order of the responses. */
  lemma OrderIrrelevant(min: int, a: seq<Response<Any>>, b: seq<Response<Any>>)
    requires multiset(Answers(a)) == multiset(Answers(b))
    requires forall v | v in Answers(a) :: v.Number?
    ensures DecideGas(min, a).Accepted? == DecideGas(min, b).Accepted?
    ensures DecideGas(min, a).Accepted? ==> DecideGas(min, a).value == DecideGas(min, b).value
  {
    var va, vb := Answers(a), Answers(b);
    SameNumbers(va, vb);
    hide GasOf, Numbers, Answers;
    var (na, nb) := (Numbers(va), Numbers(vb));
    if |na| >= 2 {
      GasOfPermutation(na, nb);
    }
  }

  lemma SameNumbers(va: seq<Any>, vb: seq<Any>)
    requires multiset(va) == multiset(vb) && forall v | v in va :: v.Number?
    ensures |Numbers(va)| == |Numbers(vb)| && multiset(Numbers(va)) == multiset(Numbers(vb))
    ensures |Numbers(va)| == 1 ==> va == vb && |va| == 1
  {
    forall v | v in vb ensures v.Number? {
      assert v in multiset(vb);
    }
    NumbersPermutation(va, vb);
    AllNumbers(va);
    AllNumbers(vb);
    hide Numbers;
    var (na, nb) := (Numbers(va), Numbers(vb));
    SameLength(na, nb);
    if |na| == 1 {
      assert na == [na[0]] && nb == [nb[0]];
      assert na[0] in multiset(nb);
    }
  }

  lemma GasOfPermutation(a: seq<int>, b: seq<int>)
    requires multiset(a) == multiset(b) && |a| == |b| && |a| >= 2
    ensures GasOf(a) == GasOf(b)
  {
    hide Sort, Median;
    if |a| == 2 {
      PairPermutation(a, b);
    } else {
      SortPermutation(a, b);
    }
  }

  lemma PairPermutation(a: seq<int>, b: seq<int>)
    requires multiset(a) == multiset(b) && |a| == |b| == 2
    ensures (a[0] == b[0] && a[1] == b[1]) || (a[0] == b[1] && a[1] == b[0])
  {
    assert a == [a[0], a[1]] && b == [b[0], b[1]];
    assert a[0] in multiset(b);
    assert multiset(a) - multiset{a[0]} == multiset{a[1]};
    if a[0] == b[0] {
      assert multiset(b) - multiset{b[0]} == multiset{b[1]};
      assert a[1] in multiset{b[1]};
    } else {
      assert multiset(b) - multiset{b[1]} == multiset{b[0]};
      assert a[1] in multiset{b[0]};
    }
  }

  lemma {:induction false} AllNumbers(vs: seq<Any>)
    requires forall v | v in vs :: v.Number?
    ensures |Numbers(vs)| == |vs| && forall i | 0 <= i < |vs| :: vs[i] == Number(Numbers(vs)[i])
  {
    if vs != [] {
      AllNumbers(vs[1..]);
      assert vs[0].Number?;
    }
  }

  lemma {:induction false} NumbersPermutation(a: seq<Any>, b: seq<Any>)
    requires multiset(a) == multiset(b)
    ensures multiset(Numbers(a)) == multiset(Numbers(b))
  {
    if a == [] {
      assert |multiset(b)| == 0;
    } else {
      assert a[0] in multiset(b);
      var l, r := Extract(a[0], b);
      assert a == [a[0]] + a[1..];
      assert multiset(a[1..]) == multiset(l + r);
      NumbersPermutation(a[1..], l + r);
      NumbersConcat(l, [a[0]] + r);
      NumbersConcat([a[0]], r);
      NumbersConcat(l, r);
      NumbersConcat([a[0]], a[1..]);
    }
  }

  lemma NumbersAppend(vs: seq<Any>, i: nat)
    requires i < |vs|
    ensures Numbers(vs[..i + 1]) == Numbers(vs[..i]) + NumberOf(vs[i])
  {
    assert Numbers([vs[i]]) == NumberOf(vs[i]) + [] == NumberOf(vs[i]);
    hide Numbers, NumberOf;
    NumbersConcat(vs[..i], [vs[i]]);
    assert vs[..i + 1] == vs[..i] + [vs[i]];
  }

  lemma NumbersCons(v: Any, vs: seq<Any>)
    ensures Numbers([v] + vs) == NumberOf(v) + Numbers(vs)
  {
    hide NumberOf;
    assert ([v] + vs)[1..] == vs;
  }

  lemma {:induction false} NumbersConcat(a: seq<Any>, b: seq<Any>)
    ensures Numbers(a + b) == Numbers(a) + Numbers(b)
  {
    if a == [] {
      assert a + b == b;
    } else {
      hide *;
      var head, tail := a[0], a[1..];
      NumbersConcat(tail, b);
      NumbersCons(head, tail + b);
      NumbersCons(head, tail);
      assert a == [head] + tail;
      Regroup([head], tail, b);
      Regroup(NumberOf(head), Numbers(tail), Numbers(b));
    }
  }
}
