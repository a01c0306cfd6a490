/**
 What variable definitions mean, independently of the order in which they are resolved. The
 denotation of a node unfolds each reference into the denotation of the node closest to it; the
 fuel bounds the nesting of references, and a definition has a meaning when some fuel suffices.
 */
module Denotation {
  import opened Options
  import opened Expressions
  import opened VariableTree

  /** The value of `node` within the definitions `t0`, unfolding references at most `fuel` deep. */
  function Den(c: Context, t0: Tree, node: Tree, fuel: nat): Option<Value>
    decreases fuel, 2
  {
    if node.expr.None? then None else Eval(c, node.expr.value, Look(c, t0, fuel))
  }

  function Look(c: Context, t0: Tree, fuel: nat): Lookup
    decreases fuel, 1
  {
    (p: Path) => Meaning(c, t0, p, fuel)
  }

  /** The value of a reference path, as far as `fuel` unfoldings determine it. */
  function Meaning(c: Context, t0: Tree, p: Path, fuel: nat): Option<Value>
    decreases fuel, 0
  {
    if fuel == 0 then None else Through(c, t0, t0, p, fuel - 1)
  }

  /** The value that following `p` from `node` gives: that of the closest node, indexed by the rest of the path. */
  function Through(c: Context, t0: Tree, node: Tree, p: Path, fuel: nat): Option<Value>
    decreases fuel, 3
  {
    match Den(c, t0, Closest(node, p).1, fuel)
    case None => None
    case Some(v) => IndexPath(v, Rest(node, p))
  }

  ghost predicate HasDen(c: Context, t0: Tree, node: Tree, v: Value) {
    exists fuel: nat :: Den(c, t0, node, fuel) == Some(v)
  }

  /** The node a reference leads to has a value with this much fuel. */
  ghost predicate Settled(c: Context, t0: Tree, p: Path, f: nat) {
    Den(c, t0, Closest(t0, p).1, f).Some?
  }

  lemma MeaningNeeds(c: Context, t0: Tree, p: Path, f: nat)
    requires Look(c, t0, f)(p).Some?
    ensures f > 0 && Settled(c, t0, p, f - 1)
    ensures Look(c, t0, f)(p) == Meaning(c, t0, p, f) == Through(c, t0, t0, p, f - 1)
  {
    assert Meaning(c, t0, p, f) == Through(c, t0, t0, p, f - 1);
  }

  /** More fuel never changes a value. */
  lemma {:induction false} DenMonotone(c: Context, t0: Tree, node: Tree, f: nat, g: nat)
    requires f <= g && Den(c, t0, node, f).Some?
    ensures Den(c, t0, node, g) == Den(c, t0, node, f)
    decreases f
  {
    var e := node.expr.value;
    EvalStrict(c, e, Look(c, t0, f));
    forall p | p in SelfRefs(e) ensures Look(c, t0, g)(p) == Look(c, t0, f)(p) {
      MeaningNeeds(c, t0, p, f);
      DenMonotone(c, t0, Closest(t0, p).1, f - 1, g - 1);
      assert Meaning(c, t0, p, g) == Through(c, t0, t0, p, g - 1);
    }
    EvalCongruent(c, e, Look(c, t0, f), Look(c, t0, g));
  }

  /** The tree that registering definitions builds: children exist exactly below self-referencing maps and lists. */
  ghost predicate Shaped(t: Tree) {
    && (forall i | 0 <= i < |t.kids| :: Shaped(t.kids[i].value))
    && (t.expr.Some? ==>
          var e := t.expr.value;
          && WellFormed(e)
          && t.size == SizeOf(e)
          && (if IsCompound(e) && SelfRefs(e) != [] then
                && |t.kids| == |e.items|
                && |Keys(e)| == |e.items|
                && forall i | 0 <= i < |t.kids| ::
                     t.kids[i].key == Keys(e)[i] && t.kids[i].value.expr == Some(e.items[i])
              else t.kids == []))
    && (t.expr.None? ==>
          && t.size == 0
          && DistinctTexts(KidKeys(t))
          && forall i | 0 <= i < |t.kids| :: t.kids[i].value.expr.Some?)
  }

  lemma {:induction false} ShapedClosest(t: Tree, p: Path)
    requires Shaped(t)
    ensures Shaped(Closest(t, p).1)
    decreases |p|
  {
    if p != [] {
      var i := FindKid(t.kids, p[0]);
      if i < |t.kids| {
        ShapedClosest(t.kids[i].value, p[1..]);
      }
    }
  }

  /** The value of a map or list definition holds the values of its children. */
  lemma EvalKid(c: Context, look: Lookup, node: Tree, i: nat)
    requires Shaped(node) && node.expr.Some? && i < |node.kids| && Eval(c, node.expr.value, look).Some?
    ensures node.kids[i].value.expr.Some?
    ensures Eval(c, node.kids[i].value.expr.value, look).Some?
    ensures Index(Eval(c, node.expr.value, look).value, node.kids[i].key)
         == Eval(c, node.kids[i].value.expr.value, look)
  {
    var e := node.expr.value;
    EvalAllItem(c, e.items, look, i);
    PackIndex(e, EvalAll(c, e.items, look).value, i);
  }

  /** Indexing the value of a definition is indexing that of the closest node by what is left of the path. */
  lemma {:induction false} EvalClosest(c: Context, look: Lookup, node: Tree, p: Path)
    requires Shaped(node) && node.expr.Some? && Eval(c, node.expr.value, look).Some?
    ensures
      var s := Closest(node, p).1;
      && s.expr.Some? && Eval(c, s.expr.value, look).Some?
      && IndexPath(Eval(c, s.expr.value, look).value, Rest(node, p))
      == IndexPath(Eval(c, node.expr.value, look).value, p)
    decreases |p|
  {
    RestStep(node, p);
    if p != [] {
      var i := FindKid(node.kids, p[0]);
      if i < |node.kids| {
        EvalKid(c, look, node, i);
        EvalClosest(c, look, node.kids[i].value, p[1..]);
      }
    }
  }

  lemma DenClosest(c: Context, t0: Tree, node: Tree, p: Path, f: nat)
    requires Shaped(node) && Den(c, t0, node, f).Some?
    ensures Den(c, t0, Closest(node, p).1, f).Some?
    ensures Through(c, t0, node, p, f) == IndexPath(Den(c, t0, node, f).value, p)
  {
    EvalClosest(c, Look(c, t0, f), node, p);
  }

  /** Every value set in the current tree `b` is the denotation of the node it was built from. */
  ghost predicate Sound(c: Context, t0: Tree, a: Tree, b: Tree)
    decreases b
  {
    && (b.resolved.Some? ==> HasDen(c, t0, a, b.resolved.value))
    && (|a.kids| == |b.kids| ==>
          forall i | 0 <= i < |b.kids| :: Sound(c, t0, a.kids[i].value, b.kids[i].value))
  }

  lemma {:induction false} SoundClosest(c: Context, t0: Tree, a: Tree, b: Tree, p: Path)
    requires Evolves(a, b) && Sound(c, t0, a, b) && Has(b, p)
    ensures Has(a, p) && Sound(c, t0, At(a, p), At(b, p)) && Evolves(At(a, p), At(b, p))
    decreases |p|
  {
    if p != [] {
      var i := FindKid(b.kids, p[0]);
      assert SameKids(a, b);
      FindKidByKeys(a.kids, b.kids, p[0]);
      SoundClosest(c, t0, a.kids[i].value, b.kids[i].value, p[1..]);
    }
  }

  lemma {:induction false} WriteSound(c: Context, t0: Tree, a: Tree, b: Tree, q: Path, s: Tree)
    requires Evolves(a, b) && Sound(c, t0, a, b) && Has(b, q)
    requires Has(a, q) && Sound(c, t0, At(a, q), s)
    ensures Sound(c, t0, a, Write(b, q, s))
    decreases |q|
  {
    if q != [] {
      var i := FindKid(b.kids, q[0]);
      assert SameKids(a, b);
      FindKidByKeys(a.kids, b.kids, q[0]);
      WriteSound(c, t0, a.kids[i].value, b.kids[i].value, q[1..], s);
    }
  }

  lemma ThroughKid(c: Context, t0: Tree, node: Tree, p: Path, f: nat)
    requires p != [] && FindKid(node.kids, p[0]) < |node.kids|
    ensures
      var kid := node.kids[FindKid(node.kids, p[0])].value;
      Closest(node, p).1 == Closest(kid, p[1..]).1 && Through(c, t0, node, p, f) == Through(c, t0, kid, p[1..], f)
  {
    RestStep(node, p);
  }

  /** A value found in the current tree, indexed by the rest of the path, is the meaning of the reference. */
  lemma {:induction false} ResolvedMeans(c: Context, t0: Tree, a: Tree, b: Tree, p: Path) returns (f: nat)
    requires Shaped(a) && Evolves(a, b) && Sound(c, t0, a, b)
    requires Closest(b, p).1.resolved.Some?
    ensures Den(c, t0, Closest(a, p).1, f).Some?
    ensures Through(c, t0, a, p, f) == IndexPath(Closest(b, p).1.resolved.value, Rest(b, p))
    decreases |p|
  {
    RestStep(b, p);
    if p != [] && FindKid(b.kids, p[0]) < |b.kids| {
      var i := FindKid(b.kids, p[0]);
      assert SameKids(a, b);
      FindKidByKeys(a.kids, b.kids, p[0]);
      f := ResolvedMeans(c, t0, a.kids[i].value, b.kids[i].value, p[1..]);
      ThroughKid(c, t0, a, p, f);
    } else {
      f :| Den(c, t0, a, f) == Some(b.resolved.value);
      DenClosest(c, t0, a, p, f);
    }
  }

  /** Collapsing a map or list computes its denotation from those of its children. */
  lemma {:induction false} OptimizeSound(c: Context, t0: Tree, a: Tree, b: Tree)
    requires Shaped(a) && Evolves(a, b) && Sound(c, t0, a, b)
    requires a.expr.Some? || a.kids != []
    ensures Sound(c, t0, a, Optimize(b))
    decreases b
  {
    if b.resolved.None? {
      var swept := b.(kids := OptimizeKids(b));
      assert SameKids(a, b);
      forall i | 0 <= i < |b.kids| ensures Sound(c, t0, a.kids[i].value, swept.kids[i].value) {
        OptimizeSound(c, t0, a.kids[i].value, b.kids[i].value);
      }
      assert Sound(c, t0, a, swept);
      if Optimize(b) != swept {
        CollapseSound(c, t0, a, swept);
      }
    }
  }

  lemma CollapseSound(c: Context, t0: Tree, a: Tree, b: Tree)
    requires Shaped(a) && Sound(c, t0, a, b) && a.expr == b.expr && a.size == b.size && a.expr.Some?
    requires |a.kids| == |b.kids| && b.resolved.None? && b.size == |b.kids|
    requires forall i | 0 <= i < |b.kids| :: b.kids[i].key == a.kids[i].key && b.kids[i].value.resolved.Some?
    ensures HasDen(c, t0, a, ToValue(b))
  {
    var e := a.expr.value;
    KeysWellFormed(e);
    var vs := KidValues(b);
    forall i | 0 <= i < |a.kids| ensures HasDen(c, t0, a.kids[i].value, vs[i]) {
      assert Sound(c, t0, a.kids[i].value, b.kids[i].value);
      assert b.kids[i].value.resolved.Some?;
      assert vs[i] == ToValue(b.kids[i].value);
    }
    var f := CommonFuel(c, t0, a.kids, vs);
    forall i | 0 <= i < |e.items| ensures Eval(c, e.items[i], Look(c, t0, f)) == Some(vs[i]) {
      assert Den(c, t0, a.kids[i].value, f) == Some(vs[i]);
    }
    EvalAllFromItems(c, e.items, Look(c, t0, f), vs);
    assert e.MapE? ==> KidKeys(b) == e.keys;
    assert Den(c, t0, a, f) == Some(Pack(e, vs));
  }

  lemma {:induction false} CommonFuel(c: Context, t0: Tree, kids: seq<Kid>, vs: seq<Value>) returns (f: nat)
    requires |vs| == |kids| && forall i | 0 <= i < |kids| :: HasDen(c, t0, kids[i].value, vs[i])
    ensures forall i | 0 <= i < |kids| :: Den(c, t0, kids[i].value, f) == Some(vs[i])
  {
    f := 0;
    for n := 0 to |kids|
      invariant forall i | 0 <= i < n :: Den(c, t0, kids[i].value, f) == Some(vs[i])
    {
      var g: nat :| Den(c, t0, kids[n].value, g) == Some(vs[n]);
      var h := if f < g then g else f;
      forall i | 0 <= i <= n ensures Den(c, t0, kids[i].value, h) == Some(vs[i]) {
        DenMonotone(c, t0, kids[i].value, if i < n then f else g, h);
      }
      f := h;
    }
  }
}
