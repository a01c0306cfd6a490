/**
 The environment that one expression is evaluated in: a tree holding only the referenced variables.
 It gives every reference its meaning. Also the reference graph, and why a definition has no meaning.
 */
module References {
  import opened Options
  import opened Expressions
  import opened VariableTree
  import opened Denotation

  function EnvLook(env: Value): Lookup {
    (p: Path) => IndexPath(env, p)
  }

  /** `f` holds values of `b` at nodes of `b`, and is bare above them. */
  ghost predicate Mirrors(f: Tree, b: Tree)
    decreases f, 1
  {
    (f.resolved.Some? && f.resolved == b.resolved) || MirrorsBelow(f, b)
  }

  ghost predicate MirrorsBelow(f: Tree, b: Tree)
    decreases f, 0
  {
    && f.resolved.None? && f.expr.None?
    && (forall i, j | 0 <= i < j < |f.kids| :: f.kids[i].key != f.kids[j].key)
    && forall i | 0 <= i < |f.kids| :: MirrorsKid(f.kids[i], b)
  }

  ghost predicate MirrorsKid(k: Kid, b: Tree)
    decreases k
  {
    var j := FindKid(b.kids, k.key);
    j < |b.kids| && Mirrors(k.value, b.kids[j].value)
  }

  /** Following `p` in `f` meets a value. */
  ghost predicate Reaches(f: Tree, p: Path)
    decreases |p|
  {
    || f.resolved.Some?
    || (p != [] && FindKid(f.kids, p[0]) < |f.kids| && Reaches(f.kids[FindKid(f.kids, p[0])].value, p[1..]))
  }

  lemma MirrorsUpdate(f: Tree, b: Tree, i: nat, k: Kid)
    requires MirrorsBelow(f, b) && i < |f.kids| && k.key == f.kids[i].key && MirrorsKid(k, b)
    ensures MirrorsBelow(f.(kids := f.kids[i := k]), b)
  {
    var w := f.(kids := f.kids[i := k]);
    forall j | 0 <= j < |w.kids| ensures MirrorsKid(w.kids[j], b) {
      assert MirrorsKid(f.kids[j], b);
    }
  }

  lemma MirrorsAppend(f: Tree, b: Tree, k: Kid)
    requires MirrorsBelow(f, b) && FindKid(f.kids, k.key) == |f.kids| && MirrorsKid(k, b)
    ensures MirrorsBelow(f.(kids := f.kids + [k]), b)
  {
    var w := f.(kids := f.kids + [k]);
    forall j | 0 <= j < |w.kids| ensures MirrorsKid(w.kids[j], b) {
      assert j < |f.kids| ==> MirrorsKid(f.kids[j], b);
    }
  }

  lemma {:induction false} WriteMirrors(f: Tree, b: Tree, q: Path, s: Tree)
    requires Mirrors(f, b) && Has(b, q) && s.resolved.Some? && s.resolved == At(b, q).resolved
    ensures Mirrors(Write(f, q, s), b)
    decreases |q|
  {
    if q != [] && f.resolved.None? {
      var i, j := FindKid(f.kids, q[0]), FindKid(b.kids, q[0]);
      if i < |f.kids| {
        assert MirrorsKid(f.kids[i], b);
        WriteMirrors(f.kids[i].value, b.kids[j].value, q[1..], s);
        MirrorsUpdate(f, b, i, Kid(q[0], Write(f.kids[i].value, q[1..], s)));
      } else {
        WriteMirrors(BLANK, b.kids[j].value, q[1..], s);
        MirrorsAppend(f, b, Kid(q[0], Write(BLANK, q[1..], s)));
      }
    }
  }

  lemma {:induction false} WriteIsReached(f: Tree, q: Path, s: Tree, p: Path)
    requires s.resolved.Some? && q <= p
    ensures Reaches(Write(f, q, s), p)
    decreases |q|
  {
    if q != [] {
      var i := FindKid(f.kids, q[0]);
      var w := Write(f, q, s);
      if i < |f.kids| {
        WriteIsReached(f.kids[i].value, q[1..], s, p[1..]);
        FindKidByKeys(f.kids, w.kids, q[0]);
      } else {
        WriteIsReached(BLANK, q[1..], s, p[1..]);
        FindKidAppend(f.kids, w.kids[|f.kids|], q[0]);
      }
    }
  }

  lemma {:induction false} WriteReaches(f: Tree, q: Path, s: Tree, p: Path)
    requires Reaches(f, p) && s.resolved.Some?
    ensures Reaches(Write(f, q, s), p)
    decreases |q|
  {
    if q != [] && f.resolved.None? {
      var i := FindKid(f.kids, q[0]);
      var w := Write(f, q, s);
      if i < |f.kids| {
        FindKidByKeys(f.kids, w.kids, p[0]);
        if p[0] == q[0] {
          WriteReaches(f.kids[i].value, q[1..], s, p[1..]);
        }
      } else {
        FindKidAppend(f.kids, w.kids[|f.kids|], p[0]);
      }
    }
  }

  lemma MirrorsDistinct(f: Tree, a: Tree, b: Tree)
    requires Mirrors(f, b) && f.resolved.None? && Shaped(a) && Evolves(a, b)
    ensures DistinctTexts(KidKeys(f))
  {
    hide Eval;
    if f.kids != [] {
      assert MirrorsKid(f.kids[0], b);
      assert SameKids(a, b);
      assert KidKeys(a) == KidKeys(b);
      if a.expr.Some? {
        KeysWellFormed(a.expr.value);
        assert KidKeys(a) == Keys(a.expr.value);
      }
      forall i, j | 0 <= i < j < |f.kids| ensures Text(KidKeys(f)[i]) != Text(KidKeys(f)[j]) {
        assert MirrorsKid(f.kids[i], b) && MirrorsKid(f.kids[j], b);
        var x, y := FindKid(b.kids, f.kids[i].key), FindKid(b.kids, f.kids[j].key);
        assert KidKeys(b)[x] == f.kids[i].key && KidKeys(b)[y] == f.kids[j].key;
      }
    }
  }

  /** A reference, indexed in the value of the filtered tree, has its meaning. */
  lemma {:induction false} FilteredMeans(c: Context, t0: Tree, a: Tree, b: Tree, f: Tree, p: Path) returns (g: nat)
    requires Shaped(a) && Evolves(a, b) && Sound(c, t0, a, b) && Mirrors(f, b) && Reaches(f, p)
    ensures Den(c, t0, Closest(a, p).1, g).Some?
    ensures Through(c, t0, a, p, g) == IndexPath(ToValue(f), p)
    decreases |p|
  {
    if f.resolved.Some? {
      g :| Den(c, t0, a, g) == Some(b.resolved.value);
      DenClosest(c, t0, a, p, g);
    } else {
      var i, j := FindKid(f.kids, p[0]), FindKid(b.kids, p[0]);
      assert MirrorsKid(f.kids[i], b);
      assert SameKids(a, b);
      FindKidByKeys(a.kids, b.kids, p[0]);
      g := FilteredMeans(c, t0, a.kids[j].value, b.kids[j].value, f.kids[i].value, p[1..]);
      MirrorsDistinct(f, a, b);
      ObjectOfAt(KidKeys(f), KidValues(f), i);
      ThroughKid(c, t0, a, p, g);
    }
  }

  lemma SettledMonotone(c: Context, t0: Tree, p: Path, f: nat, g: nat)
    requires f <= g && Settled(c, t0, p, f)
    ensures Settled(c, t0, p, g) && Meaning(c, t0, p, g + 1) == Meaning(c, t0, p, f + 1)
  {
    DenMonotone(c, t0, Closest(t0, p).1, f, g);
  }

  /** With this much fuel, the reference has a meaning and `env` gives it. */
  ghost predicate MeansIn(c: Context, t0: Tree, env: Value, p: Path, f: nat) {
    Settled(c, t0, p, f) && Meaning(c, t0, p, f + 1) == IndexPath(env, p)
  }

  lemma MeansInMonotone(c: Context, t0: Tree, env: Value, p: Path, f: nat, g: nat)
    requires f <= g && MeansIn(c, t0, env, p, f)
    ensures MeansIn(c, t0, env, p, g)
  {
    SettledMonotone(c, t0, p, f, g);
  }

  lemma ReferenceMeans(c: Context, t0: Tree, b: Tree, f: Tree, p: Path) returns (g: nat)
    requires Shaped(t0) && Evolves(t0, b) && Sound(c, t0, t0, b) && Mirrors(f, b) && Reaches(f, p)
    ensures MeansIn(c, t0, ToValue(f), p, g)
  {
    g := FilteredMeans(c, t0, t0, b, f, p);
  }

  /** All references together have their meanings with enough fuel. */
  lemma {:induction false} AllMeanIn(c: Context, t0: Tree, b: Tree, f: Tree, refs: seq<Path>) returns (g: nat)
    requires Shaped(t0) && Evolves(t0, b) && Sound(c, t0, t0, b) && Mirrors(f, b)
    requires forall p | p in refs :: Reaches(f, p)
    ensures forall p | p in refs :: MeansIn(c, t0, ToValue(f), p, g)
  {
    if refs == [] {
      g := 0;
    } else {
      var h := AllMeanIn(c, t0, b, f, refs[1..]);
      var k := ReferenceMeans(c, t0, b, f, refs[0]);
      g := if h < k then k else h;
      forall p | p in refs ensures MeansIn(c, t0, ToValue(f), p, g) {
        MeansInMonotone(c, t0, ToValue(f), p, if p == refs[0] then k else h, g);
      }
    }
  }

  /** With enough fuel, evaluation in the filtered environment is the evaluation that defines the meaning. */
  lemma EnvironmentMeans(c: Context, t0: Tree, b: Tree, f: Tree, e: Expr) returns (g: nat)
    requires Shaped(t0) && Evolves(t0, b) && Sound(c, t0, t0, b) && Mirrors(f, b)
    requires forall p | p in SelfRefs(e) :: Reaches(f, p)
    ensures forall p | p in SelfRefs(e) :: Settled(c, t0, p, g)
    ensures Eval(c, e, EnvLook(ToValue(f))) == Eval(c, e, Look(c, t0, g + 1))
  {
    g := AllMeanIn(c, t0, b, f, SelfRefs(e));
    forall p | p in SelfRefs(e) ensures EnvLook(ToValue(f))(p) == Look(c, t0, g + 1)(p) {
      assert MeansIn(c, t0, ToValue(f), p, g);
    }
    EvalCongruent(c, e, EnvLook(ToValue(f)), Look(c, t0, g + 1));
  }

  // ---------- The reference graph ----------

  ghost predicate Edge(t0: Tree, q: Path, r: Path) {
    && Has(t0, q) && At(t0, q).expr.Some?
    && exists p :: p in SelfRefs(At(t0, q).expr.value) && r == Target(t0, p)
  }

  ghost predicate Walk(t0: Tree, s: seq<Path>) {
    forall i | 0 <= i < |s| - 1 :: Edge(t0, s[i], s[i + 1])
  }

  /** Some definition refers to itself through a chain of references. */
  ghost predicate Cyclic(t0: Tree) {
    exists s: seq<Path> :: |s| >= 2 && s[0] == s[|s| - 1] && Walk(t0, s)
  }

  /** Some definition refers to a variable that is not defined. */
  ghost predicate HasUndefinedRef(t0: Tree) {
    exists q, p :: DanglingAt(t0, q, p)
  }

  ghost predicate DanglingAt(t0: Tree, q: Path, p: Path) {
    && Has(t0, q) && At(t0, q).expr.Some? && p in SelfRefs(At(t0, q).expr.value)
    && Closest(t0, p).1.expr.None?
  }

  /** Every reference of the definition has a meaning, and still its evaluation fails. */
  ghost predicate Stuck(c: Context, t0: Tree, q: Path) {
    && Has(t0, q) && At(t0, q).expr.Some?
    && exists f: nat :: StuckWith(c, t0, At(t0, q).expr.value, f)
  }

  ghost predicate StuckWith(c: Context, t0: Tree, e: Expr, f: nat) {
    (forall p | p in SelfRefs(e) :: Settled(c, t0, p, f)) && Eval(c, e, Look(c, t0, f + 1)) == None
  }

  /** A definition on a cycle has no meaning. */
  lemma {:induction false} CycleHasNoDen(c: Context, t0: Tree, s: seq<Path>, i: nat, f: nat)
    requires |s| >= 2 && s[0] == s[|s| - 1] && Walk(t0, s) && i < |s|
    ensures Has(t0, s[i]) && Den(c, t0, At(t0, s[i]), f) == None
    decreases f
  {
    var k := if i == |s| - 1 then 0 else i;
    assert Edge(t0, s[k], s[k + 1]);
    var node := At(t0, s[k]);
    var e := node.expr.value;
    var p :| p in SelfRefs(e) && s[k + 1] == Target(t0, p);
    if Den(c, t0, node, f).Some? {
      EvalStrict(c, e, Look(c, t0, f));
      MeaningNeeds(c, t0, p, f);
      TargetIsClosest(t0, p);
      CycleHasNoDen(c, t0, s, k + 1, f - 1);
    }
  }

  lemma DanglingHasNoDen(c: Context, t0: Tree, q: Path, p: Path, f: nat)
    requires DanglingAt(t0, q, p)
    ensures Den(c, t0, At(t0, q), f) == None
  {
    var e := At(t0, q).expr.value;
    if Eval(c, e, Look(c, t0, f)).Some? {
      EvalStrict(c, e, Look(c, t0, f));
      MeaningNeeds(c, t0, p, f);
    }
  }

  lemma StuckHasNoDen(c: Context, t0: Tree, q: Path, f: nat)
    requires Stuck(c, t0, q)
    ensures Den(c, t0, At(t0, q), f) == None
  {
    var e := At(t0, q).expr.value;
    var g: nat :| StuckWith(c, t0, e, g);
    if Den(c, t0, At(t0, q), f).Some? {
      var m := if f < g + 1 then g + 1 else f;
      DenMonotone(c, t0, At(t0, q), f, m);
      forall p | p in SelfRefs(e) ensures Look(c, t0, m)(p) == Look(c, t0, g + 1)(p) {
        SettledMonotone(c, t0, p, g, m - 1);
      }
      EvalCongruent(c, e, Look(c, t0, m), Look(c, t0, g + 1));
    }
  }
}
