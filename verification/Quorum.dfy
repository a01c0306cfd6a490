/**
 Responses of several endpoints to one call: choosing the most common answer, and returning early
 when enough endpoints have answered. Comparison of answers is any equivalence.
 */
module Quorum {
  import opened Options

  datatype Response<T> = Failure(error: string) | Answer(value: T)

  datatype Decision<T> = Accepted(value: T) | NotEnough(errors: seq<string>) | Different(errors: seq<string>) | Panics

  type Comparison<!T> = (T, T) -> bool

  ghost predicate IsEquivalence<T(!new)>(same: Comparison<T>) {
    && (forall a :: same(a, a))
    && (forall a, b :: same(a, b) ==> same(b, a))
    && (forall a, b, c :: same(a, b) && same(b, c) ==> same(a, c))
  }

  function AnswerOf<T>(resp: Response<T>): seq<T> {
    match resp case Failure(_) => [] case Answer(v) => [v]
  }

  function Answers<T>(resps: seq<Response<T>>): seq<T> {
    if resps == [] then [] else AnswerOf(resps[0]) + Answers(resps[1..])
  }

  function Errors<T>(resps: seq<Response<T>>): seq<string> {
    if resps == [] then [] else ErrorOf(resps[0]) + Errors(resps[1..])
  }

  function ErrorOf<T>(resp: Response<T>): seq<string> {
    match resp case Failure(e) => [e] case Answer(_) => []
  }

  /** How many of the answers are the same as `a`. */
  function Count<T>(same: Comparison<T>, a: T, vs: seq<T>): (n: nat)
    ensures n <= |vs|
  {
    if vs == [] then 0 else (if same(a, vs[0]) then 1 else 0) + Count(same, a, vs[1..])
  }

  /** Answer `i` is given at least `min` times, and every different answer is given less often. */
  predicate Wins<T>(same: Comparison<T>, vs: seq<T>, min: int, i: nat)
    requires i < |vs|
  {
    && Count(same, vs[i], vs) >= min
    && forall j | 0 <= j < |vs| :: same(vs[i], vs[j]) || Count(same, vs[j], vs) < Count(same, vs[i], vs)
  }

  /** The first winning answer. */
  function Winner<T>(same: Comparison<T>, vs: seq<T>, min: int, from: nat): (r: Option<nat>)
    requires from <= |vs|
    ensures r.Some? ==> from <= r.value < |vs| && Wins(same, vs, min, r.value)
    ensures forall i | from <= i < |vs| && Wins(same, vs, min, i) :: r.Some? && r.value <= i
    decreases |vs| - from
  {
    if from == |vs| then None
    else if Wins(same, vs, min, from) then Some(from)
    else Winner(same, vs, min, from + 1)
  }

  /** The most common answer, if enough endpoints gave it and no other was given as often. */
  function Decide<T>(same: Comparison<T>, min: int, resps: seq<Response<T>>): Decision<T> {
    var vs := Answers(resps);
    if |vs| < min then NotEnough(Errors(resps))
    else if vs == [] then Panics
    else
      match Winner(same, vs, min, 0)
      case Some(i) => Accepted(vs[i])
      case None => Different(Errors(resps))
  }

  method ExtractErrors<T>(resps: seq<Response<T>>) returns (filtered: seq<T>, errs: seq<string>)
    ensures filtered == Answers(resps) && errs == Errors(resps)
  {
    filtered, errs := [], [];
    for i := 0 to |resps|
      invariant filtered == Answers(resps[..i]) && errs == Errors(resps[..i])
    {
      hide Answers, Errors;
      assert resps[..i + 1] == resps[..i] + [resps[i]];
      AnswersAppend(resps[..i], resps[i]);
      match resps[i] {
        case Failure(e) => errs := errs + [e];
        case Answer(v) => filtered := filtered + [v];
      }
    }
    assert resps[..|resps|] == resps;
  }

  lemma {:induction false} AnswersAppend<T>(resps: seq<Response<T>>, resp: Response<T>)
    ensures Answers(resps + [resp]) == Answers(resps) + AnswerOf(resp)
    ensures Errors(resps + [resp]) == Errors(resps) + ErrorOf(resp)
  {
    hide AnswerOf, ErrorOf;
    if resps == [] {
      assert resps + [resp] == [resp];
    } else {
      AnswersAppend(resps[1..], resp);
      assert (resps + [resp])[1..] == resps[1..] + [resp];
      assert AnswerOf(resps[0]) + (Answers(resps[1..]) + AnswerOf(resp))
          == (AnswerOf(resps[0]) + Answers(resps[1..])) + AnswerOf(resp);
      assert ErrorOf(resps[0]) + (Errors(resps[1..]) + ErrorOf(resp))
          == (ErrorOf(resps[0]) + Errors(resps[1..])) + ErrorOf(resp);
    }
  }

  /** The comparison of all answers with all answers. */
  method Resolve<T(!new)>(same: Comparison<T>, min: int, resps: seq<Response<T>>) returns (r: Decision<T>)
    requires IsEquivalence(same)
    ensures r == Decide(same, min, resps)
  {
    var vs, errs := ExtractErrors(resps);
    if |vs| < min {
      return NotEnough(errs);
    }
    if |vs| == 1 {
      assert Count(same, vs[0], vs) == 1;
      assert Wins(same, vs, min, 0);
      return Accepted(vs[0]);
    }
    if |vs| == 0 {
      return Panics;
    }
    hide IsEquivalence;
    var mostCommon, most, multiple := vs[0], 0, false;
    ghost var k := 0;
    for i := 0 to |vs|
      invariant i == 0 ==> most == 0 && !multiple
      invariant i > 0 ==> Leads(same, vs, k, i) && mostCommon == vs[k] && most == Count(same, vs[k], vs)
      invariant i > 0 ==> (multiple <==> Tied(same, vs, k, i))
    {
      var counter := CountAll(same, vs[i], vs);
      CountSelf(same, vs, i);
      if i > 0 {
        if counter > most {
          LeadChanges(same, vs, k, i);
        } else {
          LeadStays(same, vs, k, i);
        }
      } else {
        LeadStart(same, vs);
      }
      if counter > most {
        multiple := false;
        mostCommon := vs[i];
        most := counter;
        k := i;
      }
      if counter == most && !same(mostCommon, vs[i]) {
        multiple := true;
      }
    }
    FirstMost(same, vs, min, k);
    if multiple || most < min {
      return Different(errs);
    }
    return Accepted(mostCommon);
  }

  /** Answer `k` is the first of the answers before `i` that is given most often. */
  ghost predicate Leads<T>(same: Comparison<T>, vs: seq<T>, k: nat, i: nat) {
    && k < i <= |vs|
    && (forall j | 0 <= j < i :: Count(same, vs[j], vs) <= Count(same, vs[k], vs))
    && (forall j | 0 <= j < k :: Count(same, vs[j], vs) < Count(same, vs[k], vs))
  }

  /** A different answer before `i` is given as often as answer `k`. */
  ghost predicate Tied<T>(same: Comparison<T>, vs: seq<T>, k: nat, i: nat)
    requires k < |vs| && i <= |vs|
  {
    exists j :: 0 <= j < i && Count(same, vs[j], vs) == Count(same, vs[k], vs) && !same(vs[k], vs[j])
  }

  lemma LeadStart<T(!new)>(same: Comparison<T>, vs: seq<T>)
    requires IsEquivalence(same) && vs != []
    ensures Leads(same, vs, 0, 1) && !Tied(same, vs, 0, 1) && same(vs[0], vs[0])
  {
  }

  lemma LeadChanges<T(!new)>(same: Comparison<T>, vs: seq<T>, k: nat, i: nat)
    requires IsEquivalence(same) && i < |vs| && Leads(same, vs, k, i) && Count(same, vs[i], vs) > Count(same, vs[k], vs)
    ensures Leads(same, vs, i, i + 1) && !Tied(same, vs, i, i + 1) && same(vs[i], vs[i])
  {
    assert same(vs[i], vs[i]);
    hide IsEquivalence, Count;
  }

  lemma LeadStays<T(!new)>(same: Comparison<T>, vs: seq<T>, k: nat, i: nat)
    requires i < |vs| && Leads(same, vs, k, i) && Count(same, vs[i], vs) <= Count(same, vs[k], vs)
    ensures Leads(same, vs, k, i + 1)
    ensures Tied(same, vs, k, i + 1) <==>
              Tied(same, vs, k, i) || (Count(same, vs[i], vs) == Count(same, vs[k], vs) && !same(vs[k], vs[i]))
  {
  }

  method CountAll<T>(same: Comparison<T>, a: T, vs: seq<T>) returns (counter: nat)
    ensures counter == Count(same, a, vs)
  {
    counter := 0;
    for i := 0 to |vs|
      invariant counter + Count(same, a, vs[i..]) == Count(same, a, vs)
    {
      assert vs[i..][1..] == vs[i + 1..];
      if same(a, vs[i]) {
        counter := counter + 1;
      }
    }
  }

  lemma {:induction false} CountSelf<T(!new)>(same: Comparison<T>, vs: seq<T>, i: nat)
    requires IsEquivalence(same) && i < |vs|
    ensures Count(same, vs[i], vs) >= 1
  {
    CountAtLeastOne(same, vs[i], vs, i);
  }

  lemma {:induction false} CountAtLeastOne<T(!new)>(same: Comparison<T>, a: T, vs: seq<T>, i: nat)
    requires i < |vs| && same(a, vs[i])
    ensures Count(same, a, vs) >= 1
  {
    if i > 0 {
      CountAtLeastOne(same, a, vs[1..], i - 1);
    }
  }

  /** Equivalent answers are counted alike. */
  lemma {:induction false} CountAlike<T(!new)>(same: Comparison<T>, a: T, b: T, vs: seq<T>)
    requires IsEquivalence(same) && same(a, b)
    ensures Count(same, a, vs) == Count(same, b, vs)
  {
    if vs != [] {
      assert same(a, vs[0]) <==> same(b, vs[0]);
      CountAlike(same, a, b, vs[1..]);
    }
  }

  lemma WinnerIsUntied<T(!new)>(same: Comparison<T>, vs: seq<T>, min: int, i: nat, k: nat)
    requires IsEquivalence(same) && i < |vs| && Wins(same, vs, min, i) && Leads(same, vs, k, |vs|)
    ensures k <= i && !Tied(same, vs, k, |vs|) && Count(same, vs[k], vs) >= min
  {
    assert same(vs[i], vs[k]);
    CountAlike(same, vs[i], vs[k], vs);
    forall j | 0 <= j < |vs| && Count(same, vs[j], vs) == Count(same, vs[k], vs) ensures same(vs[k], vs[j]) {
      assert same(vs[i], vs[j]) && same(vs[k], vs[i]);
    }
  }

  /** The first answer given most often is the winner, if there is one. */
  lemma FirstMost<T(!new)>(same: Comparison<T>, vs: seq<T>, min: int, k: nat)
    requires IsEquivalence(same) && Leads(same, vs, k, |vs|)
    ensures Winner(same, vs, min, 0)
         == if Tied(same, vs, k, |vs|) || Count(same, vs[k], vs) < min then None else Some(k)
  {
    var w := Winner(same, vs, min, 0);
    if w.Some? {
      WinnerIsUntied(same, vs, min, w.value, k);
    }
    if !Tied(same, vs, k, |vs|) && Count(same, vs[k], vs) >= min {
      assert Wins(same, vs, min, k);
    }
  }

  /** The answer is given at least `min` times and more often than every different answer. */
  ghost predicate IsPlurality<T>(same: Comparison<T>, vs: seq<T>, min: int, v: T) {
    && v in vs
    && Count(same, v, vs) >= min
    && forall x | x in vs && !same(v, x) :: Count(same, x, vs) < Count(same, v, vs)
  }

  /** Which result there is: the first of the plurality answers, or else what each error stands for. */
  lemma WhichDecision<T(!new)>(same: Comparison<T>, min: int, resps: seq<Response<T>>)
    requires IsEquivalence(same)
    ensures
      var vs, d := Answers(resps), Decide(same, min, resps);
      && (|vs| < min ==> d == NotEnough(Errors(resps)))
      && (d.Panics? <==> vs == [] && min <= 0)
      && (d.Accepted? <==> exists v :: IsPlurality(same, vs, min, v))
      && (d.Accepted? ==> IsPlurality(same, vs, min, d.value))
      && (d.Accepted? ==>
            exists i :: 0 <= i < |vs| && vs[i] == d.value && forall j | 0 <= j < i :: !same(d.value, vs[j]))
      && (|vs| >= min && vs != [] && !d.Accepted? ==> d == Different(Errors(resps)))
  {
    var vs, d := Answers(resps), Decide(same, min, resps);
    if v :| IsPlurality(same, vs, min, v) {
      var i :| 0 <= i < |vs| && vs[i] == v;
      assert Wins(same, vs, min, i);
    }
    if d.Accepted? {
      var i := Winner(same, vs, min, 0).value;
      PluralityWins(same, vs, min, i);
      forall j: nat | j < i ensures !same(vs[i], vs[j]) {
        if same(vs[i], vs[j]) {
          WinsAlike(same, vs, min, i, j);
        }
      }
    }
  }

  lemma PluralityWins<T(!new)>(same: Comparison<T>, vs: seq<T>, min: int, i: nat)
    requires i < |vs| && Wins(same, vs, min, i)
    ensures IsPlurality(same, vs, min, vs[i])
  {
  }

  lemma WinsAlike<T(!new)>(same: Comparison<T>, vs: seq<T>, min: int, i: nat, j: nat)
    requires IsEquivalence(same) && i < |vs| && j < |vs| && Wins(same, vs, min, i) && same(vs[i], vs[j])
    ensures Wins(same, vs, min, j)
  {
    CountAlike(same, vs[i], vs[j], vs);
    forall k | 0 <= k < |vs| && same(vs[i], vs[k]) ensures same(vs[j], vs[k]) {
      assert same(vs[j], vs[i]);
    }
  }

  /** `found` has, in order, what is in the elements made by `make`, which are those that satisfy `p`. */
  ghost predicate Selected<X, Y>(p: X -> bool, make: Y -> X, all: seq<X>, at: seq<nat>, found: seq<Y>) {
    && |found| == |at|
    && (forall k | 0 <= k < |at| :: at[k] < |all| && p(all[at[k]]) && all[at[k]] == make(found[k]))
    && (forall j, k | 0 <= j < k < |at| :: at[j] < at[k])
    && (forall i | 0 <= i < |all| && p(all[i]) :: i in at)
  }

  lemma SelectedSkip<X, Y>(p: X -> bool, make: Y -> X, all: seq<X>, at: seq<nat>, found: seq<Y>, x: X)
    requires Selected(p, make, all, at, found) && !p(x)
    ensures Selected(p, make, all + [x], at, found)
  {
  }

  lemma SelectedAppend<X, Y>(p: X -> bool, make: Y -> X, all: seq<X>, at: seq<nat>, found: seq<Y>, x: X, y: Y)
    requires Selected(p, make, all, at, found) && p(x) && x == make(y)
    ensures Selected(p, make, all + [x], at + [|all|], found + [y])
  {
    var more := at + [|all|];
    forall i | 0 <= i < |all + [x]| && p((all + [x])[i]) ensures i in more {
      if i == |all| {
        assert more[|at|] == i;
      } else {
        assert i in at;
        var k :| 0 <= k < |at| && at[k] == i;
        assert more[k] == i;
      }
    }
  }

  function IsFailure<T>(): Response<T> -> bool {
    (resp: Response<T>) => resp.Failure?
  }

  function IsAnswer<T>(): Response<T> -> bool {
    (resp: Response<T>) => resp.Answer?
  }

  function ToFailure<T>(): string -> Response<T> {
    (error: string) => Failure(error)
  }

  function ToAnswer<T>(): T -> Response<T> {
    (value: T) => Answer(value)
  }

  /** The messages of an error are those of the failures, as they arrived. */
  lemma {:induction false} ErrorsInOrder<T>(resps: seq<Response<T>>) returns (at: seq<nat>)
    ensures Selected(IsFailure(), ToFailure(), resps, at, Errors(resps))
  {
    at := [];
    if resps != [] {
      var rest, last := resps[..|resps| - 1], resps[|resps| - 1];
      at := ErrorsInOrder(rest);
      assert resps == rest + [last];
      AnswersAppend(rest, last);
      hide Errors, Answers, Selected;
      if last.Failure? {
        SelectedAppend(IsFailure(), ToFailure(), rest, at, Errors(rest), last, last.error);
        at := at + [|rest|];
      } else {
        SelectedSkip(IsFailure(), ToFailure(), rest, at, Errors(rest), last);
        assert Errors(rest) + [] == Errors(rest);
      }
    }
  }

  /** The answers that are compared are all others, as they arrived. */
  lemma {:induction false} AnswersInOrder<T>(resps: seq<Response<T>>) returns (at: seq<nat>)
    ensures Selected(IsAnswer(), ToAnswer(), resps, at, Answers(resps))
  {
    at := [];
    if resps != [] {
      var rest, last := resps[..|resps| - 1], resps[|resps| - 1];
      at := AnswersInOrder(rest);
      assert resps == rest + [last];
      AnswersAppend(rest, last);
      hide Errors, Answers, Selected;
      if last.Answer? {
        SelectedAppend(IsAnswer(), ToAnswer(), rest, at, Answers(rest), last, last.value);
        at := at + [|rest|];
      } else {
        SelectedSkip(IsAnswer(), ToAnswer(), rest, at, Answers(rest), last);
        assert Answers(rest) + [] == Answers(rest);
      }
    }
  }

  // ---------- Prefixes and orders of arrival ----------

  lemma AnswersCons<T>(resp: Response<T>, resps: seq<Response<T>>)
    ensures Answers([resp] + resps) == AnswerOf(resp) + Answers(resps)
  {
    hide AnswerOf;
    assert ([resp] + resps)[1..] == resps;
  }

  lemma Regroup<T>(x: seq<T>, y: seq<T>, z: seq<T>)
    ensures x + (y + z) == (x + y) + z
  {
  }

  lemma {:induction false} AnswersConcat<T>(a: seq<Response<T>>, b: seq<Response<T>>)
    ensures Answers(a + b) == Answers(a) + Answers(b)
  {
    if a == [] {
      assert a + b == b;
    } else {
      hide *;
      var head, tail := a[0], a[1..];
      AnswersConcat(tail, b);
      AnswersCons(head, tail + b);
      AnswersCons(head, tail);
      assert a == [head] + tail;
      Regroup([head], tail, b);
      Regroup(AnswerOf(head), Answers(tail), Answers(b));
    }
  }

  lemma {:induction false} CountConcat<T>(same: Comparison<T>, x: T, a: seq<T>, b: seq<T>)
    ensures Count(same, x, a + b) == Count(same, x, a) + Count(same, x, b)
  {
    if a == [] {
      assert a + b == b;
    } else {
      CountConcat(same, x, a[1..], b);
      assert (a + b)[1..] == a[1..] + b;
    }
  }

  lemma {:induction false} AnswersLength<T>(resps: seq<Response<T>>)
    ensures |Answers(resps)| <= |resps|
    ensures forall v :: v in Answers(resps) <==> Answer(v) in resps
  {
    if resps != [] {
      AnswersLength(resps[1..]);
    }
  }

  /** How often `x` is answered. */
  function Votes<T>(same: Comparison<T>, x: T, resps: seq<Response<T>>): nat {
    Count(same, x, Answers(resps))
  }

  /** A sum over the elements of a sequence. */
  ghost function Total<X>(weight: X -> int, s: seq<X>): int {
    if s == [] then 0 else weight(s[0]) + Total(weight, s[1..])
  }

  lemma {:induction false} TotalConcat<X>(weight: X -> int, a: seq<X>, b: seq<X>)
    ensures Total(weight, a + b) == Total(weight, a) + Total(weight, b)
  {
    if a == [] {
      assert a + b == b;
    } else {
      TotalConcat(weight, a[1..], b);
      assert (a + b)[1..] == a[1..] + b;
    }
  }

  lemma Extract<X>(x: X, s: seq<X>) returns (l: seq<X>, r: seq<X>)
    requires x in s
    ensures s == l + ([x] + r) && multiset(l + r) == multiset(s) - multiset{x}
  {
    var i :| 0 <= i < |s| && s[i] == x;
    l, r := s[..i], s[i + 1..];
    assert s == l + ([x] + r);
  }

  /** Sums do not depend on the order. */
  lemma {:induction false} TotalPermutation<X>(weight: X -> int, f: seq<X>, g: seq<X>)
    requires multiset(f) == multiset(g)
    ensures Total(weight, f) == Total(weight, g)
  {
    if f == [] {
      assert |multiset(g)| == 0;
    } else {
      assert f[0] in multiset(g);
      var l, r := Extract(f[0], g);
      assert f == [f[0]] + f[1..];
      assert multiset(f[1..]) == multiset(l + r);
      TotalPermutation(weight, f[1..], l + r);
      TotalConcat(weight, l, [f[0]] + r);
      TotalConcat(weight, [f[0]], r);
      TotalConcat(weight, l, r);
    }
  }

  ghost function VoteOf<T>(same: Comparison<T>, x: T): Response<T> -> int {
    (resp: Response<T>) => if resp.Answer? && same(x, resp.value) then 1 else 0
  }

  lemma {:induction false} VotesTotal<T>(same: Comparison<T>, x: T, resps: seq<Response<T>>)
    ensures Votes(same, x, resps) == Total(VoteOf(same, x), resps)
  {
    if resps != [] {
      VotesTotal(same, x, resps[1..]);
      match resps[0]
      case Failure(_) => assert Answers(resps) == Answers(resps[1..]);
      case Answer(v) => assert Answers(resps)[1..] == Answers(resps[1..]);
    }
  }

  /** The order of arrival does not change how often an answer is given. */
  lemma SameVotes<T>(same: Comparison<T>, x: T, f: seq<Response<T>>, g: seq<Response<T>>)
    requires multiset(f) == multiset(g)
    ensures Votes(same, x, f) == Votes(same, x, g)
  {
    VotesTotal(same, x, f);
    VotesTotal(same, x, g);
    TotalPermutation(VoteOf(same, x), f, g);
  }

  /** Different answers are given by different endpoints. */
  lemma {:induction false} CountsDisjoint<T(!new)>(same: Comparison<T>, a: T, b: T, vs: seq<T>)
    requires IsEquivalence(same) && !same(a, b)
    ensures Count(same, a, vs) + Count(same, b, vs) <= |vs|
  {
    if vs != [] {
      CountsDisjoint(same, a, b, vs[1..]);
      assert same(b, vs[0]) ==> same(vs[0], b);
    }
  }

  /** An answer given by more than half of all endpoints is accepted. */
  lemma MajorityWins<T(!new)>(same: Comparison<T>, min: int, resps: seq<Response<T>>, v: T)
    requires IsEquivalence(same) && v in Answers(resps)
    requires Votes(same, v, resps) >= min && 2 * min > |resps|
    ensures Decide(same, min, resps).Accepted? && same(v, Decide(same, min, resps).value)
  {
    var vs := Answers(resps);
    AnswersLength(resps);
    var i :| 0 <= i < |vs| && vs[i] == v;
    forall x | !same(v, x) ensures Count(same, x, vs) < Count(same, v, vs) {
      CountsDisjoint(same, v, x, vs);
    }
    assert Wins(same, vs, min, i);
    var w := Winner(same, vs, min, 0).value;
    assert same(vs[w], vs[i]);
  }

  /**
   Early return agrees with waiting: when `min` is a majority of the endpoints, an answer accepted from the
   first `k` responses is accepted from all of them, in whatever order they arrive.
   */
  lemma EarlyAgrees<T(!new)>(same: Comparison<T>, min: int, full: seq<Response<T>>, k: nat, all: seq<Response<T>>)
    requires IsEquivalence(same) && 2 * min > |full| && k <= |full| && multiset(all) == multiset(full)
    requires Decide(same, min, full[..k]).Accepted?
    ensures Decide(same, min, all).Accepted?
    ensures same(Decide(same, min, full[..k]).value, Decide(same, min, all).value)
  {
    var vs := Answers(full[..k]);
    var v := Decide(same, min, full[..k]).value;
    assert full == full[..k] + full[k..];
    AnswersConcat(full[..k], full[k..]);
    CountConcat(same, v, vs, Answers(full[k..]));
    SameVotes(same, v, full, all);
    assert v in Answers(full);
    AnswersLength(full);
    AnswersLength(all);
    assert Answer(v) in multiset(all);
    assert |multiset(all)| == |multiset(full)|;
    MajorityWins(same, min, all, v);
  }

  function Repeat<T>(x: T, n: nat): seq<T> {
    seq(n, _ => x)
  }

  lemma {:induction false} RepeatedAnswers<T>(same: Comparison<T>, x: T, a: T, n: nat)
    ensures Answers(Repeat(Answer(a), n)) == Repeat(a, n)
    ensures Count(same, x, Repeat(a, n)) == if same(x, a) then n else 0
  {
    if n > 0 {
      RepeatedAnswers(same, x, a, n - 1);
      assert Repeat(Answer(a), n)[1..] == Repeat(Answer(a), n - 1);
      assert Repeat(a, n)[1..] == Repeat(a, n - 1);
      assert Repeat(a, n) == [a] + Repeat(a, n - 1);
    }
  }

  lemma {:induction false} NoAnswers<T>(n: nat)
    ensures Answers<T>(Repeat(Failure(""), n)) == []
  {
    if n > 0 {
      NoAnswers<T>(n - 1);
      assert Repeat<Response<T>>(Failure(""), n)[1..] == Repeat(Failure(""), n - 1);
    }
  }

  /** An answer accepted from a prefix is accepted, or an equivalent one is, from all responses. */
  ghost predicate PrefixAgrees<T(!new)>(same: Comparison<T>, min: int, full: seq<Response<T>>, k: nat)
    requires k <= |full|
  {
    Decide(same, min, full[..k]).Accepted? ==>
      Decide(same, min, full).Accepted? && same(Decide(same, min, full[..k]).value, Decide(same, min, full).value)
  }

  /** Early return is safe exactly when `min` is a majority of the `n` endpoints. */
  lemma EarlyReturnIsSafe<T(!new)>(same: Comparison<T>, min: int, n: nat, a: T, b: T)
    requires IsEquivalence(same) && !same(a, b) && min >= 1
    ensures (forall full: seq<Response<T>>, k: nat | |full| == n && k <= n :: PrefixAgrees(same, min, full, k))
            <==> 2 * min > n
  {
    if 2 * min > n {
      forall full: seq<Response<T>>, k: nat | |full| == n && k <= n ensures PrefixAgrees(same, min, full, k) {
        if Decide(same, min, full[..k]).Accepted? {
          EarlyAgrees(same, min, full, k, full);
        }
      }
    } else {
      var tail := Repeat<Response<T>>(Failure(""), n - 2 * min);
      var full := Repeat(Answer(a), min) + (Repeat(Answer(b), min) + tail);
      TieIsRejected(same, min, tail, a, b);
      assert full[..min] == Repeat(Answer(a), min);
      assert !PrefixAgrees(same, min, full, min);
    }
  }

  lemma TieIsRejected<T(!new)>(same: Comparison<T>, min: nat, tail: seq<Response<T>>, a: T, b: T)
    requires IsEquivalence(same) && !same(a, b) && min >= 1 && tail == Repeat(Failure(""), |tail|)
    ensures Decide(same, min, Repeat(Answer(a), min)).Accepted?
    ensures !Decide(same, min, Repeat(Answer(a), min) + (Repeat(Answer(b), min) + tail)).Accepted?
  {
    var p, q := Repeat(Answer(a), min), Repeat(Answer(b), min);
    NoAnswers<T>(|tail|);
    AnswersConcat(q, tail);
    AnswersConcat(p, q + tail);
    RepeatedAnswers(same, a, a, min);
    RepeatedAnswers(same, a, b, min);
    RepeatedAnswers(same, b, a, min);
    RepeatedAnswers(same, b, b, min);
    var (va, vb) := (Repeat(a, min), Repeat(b, min));
    assert same(a, a) && same(b, b) && !same(b, a);
    hide IsEquivalence, Count;
    assert Wins(same, va, min, 0);
    assert Answers(p + (q + tail)) == va + vb;
    CountConcat(same, a, va, vb);
    CountConcat(same, b, va, vb);
    TieHasNoWinner(same, va + vb, min, a, b, min);
  }

  lemma TieHasNoWinner<T>(same: Comparison<T>, vs: seq<T>, min: int, a: T, b: T, k: nat)
    requires 0 < k < |vs| && !same(a, b) && !same(b, a)
    requires forall i | 0 <= i < |vs| :: vs[i] == if i < k then a else b
    requires Count(same, a, vs) == Count(same, b, vs)
    ensures Winner(same, vs, min, 0) == None
  {
    hide Count;
    assert vs[0] == a && vs[k] == b;
    forall i: nat | i < |vs| ensures !Wins(same, vs, min, i) {
    }
  }

  // ---------- The collection loop ----------

  datatype Event<T> = Arrival(response: Response<T>) | Timer

  /** The responses among the first events. */
  function Arrivals<T>(events: seq<Event<T>>): seq<Response<T>> {
    if events == [] then []
    else (match events[0] case Arrival(r) => [r] case Timer => []) + Arrivals(events[1..])
  }

  lemma {:induction false} ArrivalsAppend<T>(events: seq<Event<T>>, e: Event<T>)
    ensures Arrivals(events + [e]) == Arrivals(events) + (match e case Arrival(r) => [r] case Timer => [])
  {
    if events != [] {
      ArrivalsAppend(events[1..], e);
      assert (events + [e])[1..] == events[1..] + [e];
    } else {
      assert events + [e] == [e];
    }
  }

  function TimerCount<T>(events: seq<Event<T>>): (n: nat)
    ensures n + |Arrivals(events)| == |events|
  {
    if events == [] then 0 else (if events[0].Timer? then 1 else 0) + TimerCount(events[1..])
  }

  /** After the first `k` events the loop resolves: all responses are in, or the timer has just fired. */
  predicate Resolves<T>(n: nat, events: seq<Event<T>>, k: nat)
    requires 0 < k <= |events|
  {
    |Arrivals(events[..k])| == n || events[k - 1].Timer?
  }

  /** After the first `k` events the loop returns: it resolves, and accepts or has nothing left to wait for. */
  predicate ReturnsAfter<T>(same: Comparison<T>, min: int, n: nat, events: seq<Event<T>>, k: nat)
    requires 0 < k <= |events|
  {
    Resolves(n, events, k) && (Decide(same, min, Arrivals(events[..k])).Accepted? || |Arrivals(events[..k])| >= n)
  }

  /** A timer event returns an accepted answer early; another event returns only when all responses are in. */
  lemma WhenItReturns<T>(same: Comparison<T>, min: int, n: nat, events: seq<Event<T>>, k: nat)
    requires 0 < k <= |events|
    ensures
      var rs := Arrivals(events[..k]);
      ReturnsAfter(same, min, n, events, k)
      <==> if events[k - 1].Timer? then Decide(same, min, rs).Accepted? || |rs| >= n else |rs| == n
  {
  }

  /**
   Collect responses of `n` endpoints until enough of them agree, and count the events that takes. Stops early only
   when the events run out.
   */
  method Call<T(!new)>(same: Comparison<T>, min: int, n: nat, events: seq<Event<T>>)
    returns (r: Option<Decision<T>>, k: nat)
    requires IsEquivalence(same)
    ensures k <= |events|
    ensures r.Some? ==> 0 < k && ReturnsAfter(same, min, n, events, k)
    ensures r.Some? ==> r.value == Decide(same, min, Arrivals(events[..k]))
    ensures r.None? ==> k == |events|
    ensures r.Some? && |Arrivals(events[..k])| < n ==> events[k - 1].Timer? && r.value.Accepted?
    ensures forall j | 0 < j <= k && !(r.Some? && j == k) :: !ReturnsAfter(same, min, n, events, j)
  {
    var rs: seq<Response<T>> := [];
    for i := 0 to |events|
      invariant rs == Arrivals(events[..i])
      invariant forall j | 0 < j <= i :: !ReturnsAfter(same, min, n, events, j)
    {
      assert events[..i + 1] == events[..i] + [events[i]];
      ArrivalsAppend(events[..i], events[i]);
      var wait := true;
      match events[i] {
        case Arrival(response) => rs := rs + [response];
        case Timer => wait := false;
      }
      if |rs| == n {
        wait := false;
      }
      if !wait {
        assert rs == Arrivals(events[..i + 1]) && Resolves(n, events, i + 1);
        var decision := Resolve(same, min, rs);
        if decision.Accepted? || |rs| >= n {
          return Some(decision), i + 1;
        }
      }
    }
    return None, |events|;
  }

  /**
   With a majority requirement, a call that gets all responses and at most one timer event returns within n + 1
   events, and it accepts exactly when resolving all responses, in any order, would accept an equivalent answer.
   */
  lemma CallAgreesWithWaiting<T(!new)>(
    same: Comparison<T>, min: int, n: nat, events: seq<Event<T>>, k: nat, all: seq<Response<T>>)
    requires IsEquivalence(same) && 2 * min > n
    requires 0 < k <= |events| && ReturnsAfter(same, min, n, events, k)
    requires |Arrivals(events)| == n && TimerCount(events) <= 1 && multiset(all) == multiset(Arrivals(events))
    ensures k <= n + 1
    ensures Decide(same, min, Arrivals(events[..k])).Accepted? <==> Decide(same, min, all).Accepted?
    ensures Decide(same, min, Arrivals(events[..k])).Accepted? ==>
              same(Decide(same, min, Arrivals(events[..k])).value, Decide(same, min, all).value)
  {
    ArrivalsPrefix(events, k);
    var full := Arrivals(events);
    var m := |Arrivals(events[..k])|;
    assert full[..m] == Arrivals(events[..k]);
    if Decide(same, min, full[..m]).Accepted? {
      EarlyAgrees(same, min, full, m, all);
    } else {
      assert full[..m] == full;
      if Decide(same, min, all).Accepted? {
        assert all == all[..|all|];
        assert |multiset(all)| == |multiset(full)|;
        EarlyAgrees(same, min, all, |all|, full);
      }
    }
  }

  lemma {:induction false} ArrivalsPrefix<T>(events: seq<Event<T>>, k: nat)
    requires k <= |events|
    ensures Arrivals(events[..k]) <= Arrivals(events)
    decreases |events| - k
  {
    if k < |events| {
      ArrivalsPrefix(events, k + 1);
      assert events[..k + 1] == events[..k] + [events[k]];
      ArrivalsAppend(events[..k], events[k]);
    } else {
      assert events[..k] == events;
    }
  }

  /** The loop has returned once all responses have arrived. */
  lemma CallReturns<T>(same: Comparison<T>, min: int, n: nat, events: seq<Event<T>>)
    requires n > 0 && |Arrivals(events)| == n
    ensures exists k :: 0 < k <= |events| && ReturnsAfter(same, min, n, events, k)
  {
    var k := LastArrival(events);
    assert ReturnsAfter(same, min, n, events, k);
  }

  lemma {:induction false} LastArrival<T>(events: seq<Event<T>>) returns (k: nat)
    requires Arrivals(events) != []
    ensures 0 < k <= |events| && Arrivals(events[..k]) == Arrivals(events)
  {
    k := |events|;
    assert events[..k] == events;
  }
}
