/** The Pentagons domain (Pentagons.java): an upper-bounds environment and
    an interval environment side by side. The environment-level operations
    of the library (lub, lessOrEqual and assign of each component) are not
    part of this model; their results are parameters. */
module Pentagons {
  import opened Expressions
  import opened Environments
  import UB = UpperBounds
  import I = Intervals
  import JavaInt

  type BoundsEnv = UB.Env
  type IntervalsEnv = Env<I.Intervals>

  datatype Pentagons = Pentagons(bounds: BoundsEnv, intervals: IntervalsEnv)

  /** The constructor with no arguments, and top(): both components top. */
  function Top(): Pentagons { Pentagons(EnvTop, EnvTop) }

  function Bottom(): Pentagons { Pentagons(EnvBottom, EnvBottom) }

  predicate IsTop(p: Pentagons) { p.bounds.EnvTop? && p.intervals.EnvTop? }

  predicate IsBottom(p: Pentagons) { p.bounds.EnvBottom? && p.intervals.EnvBottom? }

  /** top and bottom are what isTop and isBottom recognise, and a product
      top in one component and bottom in the other is neither. */
  lemma TopAndBottom(p: Pentagons)
    ensures IsTop(Top()) && !IsBottom(Top())
    ensures IsBottom(Bottom()) && !IsTop(Bottom())
    ensures IsTop(p) <==> p == Top()
    ensures IsBottom(p) <==> p == Bottom()
    ensures !IsTop(Pentagons(EnvTop, EnvBottom)) && !IsBottom(Pentagons(EnvTop, EnvBottom))
  {
  }

  /** getState on the interval environment. */
  function IntervalOf(iv: IntervalsEnv, id: Id): I.Intervals
  {
    Get(iv, id, I.TopInterval, I.Bottom)
  }

  /** No mapped interval is bottom: reading the bounds of a mapped
      variable does not dereference a null interval. */
  predicate NoBottomValues(iv: IntervalsEnv)
  {
    forall id :: id in Keys(iv) ==> IntervalOf(iv, id).Itv?
  }

  /** Every variable, mapped or not, has a non-bottom interval. */
  predicate Readable(iv: IntervalsEnv)
  {
    !iv.EnvBottom? && NoBottomValues(iv)
  }

  lemma ReadableEverywhere(iv: IntervalsEnv, id: Id)
    requires Readable(iv)
    ensures IntervalOf(iv, id).Itv?
  {
  }

  function High(iv: IntervalsEnv, id: Id): I.ExtInt
    requires IntervalOf(iv, id).Itv?
  {
    IntervalOf(iv, id).high
  }

  function Low(iv: IntervalsEnv, id: Id): I.ExtInt
    requires IntervalOf(iv, id).Itv?
  {
    IntervalOf(iv, id).low
  }

  /** The candidates b whose whole interval lies above the interval of key. */
  function AboveSet(iv: IntervalsEnv, key: Id, candidates: set<Id>): set<Id>
    requires forall b :: b in candidates ==> IntervalOf(iv, key).Itv? && IntervalOf(iv, b).Itv?
  {
    set b | b in candidates && I.Lt(High(iv, key), Low(iv, b))
  }

  /** The inner loop of closure and lubAux: collect the candidates that lie
      strictly above key. */
  method CollectAbove(iv: IntervalsEnv, key: Id, candidates: set<Id>) returns (closure: set<Id>)
    requires forall b :: b in candidates ==> IntervalOf(iv, key).Itv? && IntervalOf(iv, b).Itv?
    ensures closure == AboveSet(iv, key, candidates)
    ensures closure <= candidates
  {
    closure := {};
    var todo := candidates;
    while todo != {}
      invariant todo <= candidates
      invariant closure == AboveSet(iv, key, candidates - todo)
      decreases todo
    {
      var b :| b in todo;
      if I.Lt(High(iv, key), Low(iv, b)) {
        closure := closure + {b};
      }
      todo := todo - {b};
    }
  }

  /** The keys whose set is non-empty. */
  function Changed(cl: map<Id, set<Id>>): set<Id>
  {
    set k | k in cl && cl[k] != {}
  }

  /** The bounds of k once its set has been applied ("glb is the union"). */
  function Updated(b: BoundsEnv, cl: map<Id, set<Id>>, k: Id): UB.UpperBounds
  {
    if k in Changed(cl) then UB.Glb(UB.BoundsOf(b, k), UB.Bounds(cl[k])) else UB.BoundsOf(b, k)
  }

  /** The environment after, for every key with a non-empty set c, the
      bounds of key are replaced by glb(bounds(key), c). The keys are
      distinct, so the order of the updates does not matter. */
  function ReinforceAll(b: BoundsEnv, cl: map<Id, set<Id>>): BoundsEnv
  {
    if Changed(cl) == {} then b
    else EnvMap(map k | k in Keys(b) + Changed(cl) :: Updated(b, cl, k))
  }

  /** Read pointwise, the environment holds the updated bounds. */
  lemma ReinforceAllAt(b: BoundsEnv, cl: map<Id, set<Id>>, k: Id)
    requires !b.EnvBottom?
    ensures UB.BoundsOf(ReinforceAll(b, cl), k) == Updated(b, cl, k)
    ensures !ReinforceAll(b, cl).EnvBottom?
  {
  }

  function Restrict(cl: map<Id, set<Id>>, ks: set<Id>): (r: map<Id, set<Id>>)
    ensures r.Keys == cl.Keys * ks
    ensures forall k :: k in r ==> r[k] == cl[k]
  {
    map k | k in cl && k in ks :: cl[k]
  }

  /** Before the loop no set has been applied; after it, all of them. */
  lemma RestrictEnds(b: BoundsEnv, cl: map<Id, set<Id>>)
    ensures ReinforceAll(b, Restrict(cl, cl.Keys - cl.Keys)) == b
    ensures Restrict(cl, cl.Keys - {}) == cl
  {
    assert Changed(Restrict(cl, cl.Keys - cl.Keys)) == {};
  }

  /** One update, applied to the result of the updates before it. */
  lemma ReinforceStep(b: BoundsEnv, cl: map<Id, set<Id>>, k: Id, c: set<Id>)
    requires !b.EnvBottom? && k !in cl
    ensures var r := ReinforceAll(b, cl);
      ReinforceAll(b, cl[k := c]) ==
        if c == {} then r else Put(r, k, UB.Glb(UB.BoundsOf(r, k), UB.Bounds(c)))
  {
    var cl' := cl[k := c];
    if c == {} {
      assert Changed(cl') == Changed(cl);
      forall k' ensures Updated(b, cl', k') == Updated(b, cl, k') {
      }
    } else {
      ReinforceNonEmptyStep(b, cl, k, c);
    }
  }

  lemma ReinforceNonEmptyStep(b: BoundsEnv, cl: map<Id, set<Id>>, k: Id, c: set<Id>)
    requires !b.EnvBottom? && k !in cl && c != {}
    ensures var r := ReinforceAll(b, cl);
      ReinforceAll(b, cl[k := c]) == Put(r, k, UB.Glb(UB.BoundsOf(r, k), UB.Bounds(c)))
  {
    var cl' := cl[k := c];
    var r := ReinforceAll(b, cl);
    assert Changed(cl') == Changed(cl) + {k};
    ReinforceAllAt(b, cl, k);
    var v := UB.Glb(UB.BoundsOf(r, k), UB.Bounds(c));
    var lhs := ReinforceAll(b, cl');
    var rhs := Put(r, k, v);
    assert lhs.EnvMap? && rhs.EnvMap?;
    assert Keys(lhs) == Keys(rhs);
    forall k' | k' in Keys(lhs) ensures lhs.m[k'] == rhs.m[k'] {
      ReinforceAllAt(b, cl, k');
      if k' != k {
        assert Updated(b, cl', k') == Updated(b, cl, k');
        assert rhs.m[k'] == UB.BoundsOf(r, k');
      }
    }
    assert lhs.m == rhs.m;
  }

  /** The loop step in terms of restrictions of the full map of sets. */
  lemma ReinforceLoopStep(b: BoundsEnv, cl: map<Id, set<Id>>, ks: set<Id>, k: Id)
    requires !b.EnvBottom? && k in cl && k !in ks
    ensures var r := ReinforceAll(b, Restrict(cl, ks));
      ReinforceAll(b, Restrict(cl, ks + {k})) ==
        if cl[k] == {} then r else Put(r, k, UB.Glb(UB.BoundsOf(r, k), UB.Bounds(cl[k])))
  {
    assert Restrict(cl, ks + {k}) == Restrict(cl, ks)[k := cl[k]];
    ReinforceStep(b, Restrict(cl, ks), k, cl[k]);
  }

  /** What the updates do to the bounds of one variable: the set c(k) is
      added unless bounds(k) was bottom, nothing else is added, and a
      variable without a non-empty set keeps its bounds. */
  lemma ReinforceAllContents(b: BoundsEnv, cl: map<Id, set<Id>>, k: Id, x: Id)
    requires !b.EnvBottom?
    ensures var r := ReinforceAll(b, cl);
      && (k in cl && x in cl[k] && !UB.IsBottom(UB.BoundsOf(b, k)) ==> UB.Contains(UB.BoundsOf(r, k), x))
      && (UB.Contains(UB.BoundsOf(b, k), x) ==> UB.Contains(UB.BoundsOf(r, k), x))
      && (UB.Contains(UB.BoundsOf(r, k), x) ==> UB.Contains(UB.BoundsOf(b, k), x) || (k in cl && x in cl[k]))
      && (UB.IsBottom(UB.BoundsOf(r, k)) <==> UB.IsBottom(UB.BoundsOf(b, k)))
      && (k !in cl || cl[k] == {} ==> UB.BoundsOf(r, k) == UB.BoundsOf(b, k))
  {
    ReinforceAllAt(b, cl, k);
    if k in Changed(cl) {
      UB.GlbIsUnion(UB.BoundsOf(b, k), UB.Bounds(cl[k]), x);
    }
  }

  /** For each variable of the interval environment, the other variables
      whose interval lies strictly above its own. */
  function ClosureSets(iv: IntervalsEnv): (cl: map<Id, set<Id>>)
    requires NoBottomValues(iv)
    ensures cl.Keys == Keys(iv)
  {
    map k | k in Keys(iv) :: AboveSet(iv, k, Keys(iv) - {k})
  }

  /** One iteration of the loop of closure. */
  lemma ClosureStep(b: BoundsEnv, iv: IntervalsEnv, todo: set<Id>, id1: Id, nb: BoundsEnv)
    requires NoBottomValues(iv) && !b.EnvBottom? && id1 in todo && todo <= Keys(iv)
    requires nb == ReinforceAll(b, Restrict(ClosureSets(iv), Keys(iv) - todo))
    ensures var c := AboveSet(iv, id1, Keys(iv) - {id1});
      ReinforceAll(b, Restrict(ClosureSets(iv), Keys(iv) - (todo - {id1}))) ==
        if c == {} then nb else Put(nb, id1, UB.Glb(UB.BoundsOf(nb, id1), UB.Bounds(c)))
  {
    ReinforceLoopStep(b, ClosureSets(iv), Keys(iv) - todo, id1);
    assert Keys(iv) - (todo - {id1}) == (Keys(iv) - todo) + {id1};
  }

  /** closure(): every variable gets as bounds the variables whose
      intervals lie strictly above its own; the intervals are unchanged. */
  /** What closure needs to run without dereferencing a null interval: no
      mapped interval is bottom, and a bottom bounds environment only when
      there are no intervals to iterate. */
  predicate Closable(p: Pentagons)
  {
    NoBottomValues(p.intervals) && (!p.bounds.EnvBottom? || Keys(p.intervals) == {})
  }

  method Closure(p: Pentagons) returns (r: Pentagons)
    requires Closable(p)
    ensures r == Pentagons(ReinforceAll(p.bounds, ClosureSets(p.intervals)), p.intervals)
  {
    var iv := p.intervals;
    var newBounds := p.bounds;
    var todo := Keys(iv);
    if todo != {} {
      RestrictEnds(p.bounds, ClosureSets(iv));
    }
    while todo != {}
      invariant todo <= Keys(iv)
      invariant newBounds == ReinforceAll(p.bounds, Restrict(ClosureSets(iv), Keys(iv) - todo))
      decreases todo
    {
      var id1 :| id1 in todo;
      var closure := CollectAbove(iv, id1, Keys(iv) - {id1});
      ClosureStep(p.bounds, iv, todo, id1, newBounds);
      if closure != {} {
        newBounds := Put(newBounds, id1, UB.Glb(UB.BoundsOf(newBounds, id1), UB.Bounds(closure)));
      }
      todo := todo - {id1};
    }
    if Keys(iv) == {} {
      assert ClosureSets(iv) == map[];
    }
    r := Pentagons(newBounds, iv);
  }

  /** After closure, for distinct variables id1 and id2 with
      high(id1) < low(id2), id2 is a bound of id1 (unless the bounds of id1
      were bottom, which glb keeps); no variable becomes its own bound, and
      nothing but such variables is added. */
  lemma ClosureProperties(p: Pentagons, id1: Id, id2: Id)
    requires NoBottomValues(p.intervals) && !p.bounds.EnvBottom?
    ensures var iv := p.intervals;
      var r := ReinforceAll(p.bounds, ClosureSets(iv));
      && ((id1 in Keys(iv) && id2 in Keys(iv) && id1 != id2 && I.Lt(High(iv, id1), Low(iv, id2)) &&
           !UB.IsBottom(UB.BoundsOf(p.bounds, id1))) ==> UB.Contains(UB.BoundsOf(r, id1), id2))
      && (UB.Contains(UB.BoundsOf(r, id1), id1) ==> UB.Contains(UB.BoundsOf(p.bounds, id1), id1))
      && (UB.Contains(UB.BoundsOf(r, id1), id2) ==>
            UB.Contains(UB.BoundsOf(p.bounds, id1), id2) || (id1 in Keys(iv) && id2 in Keys(iv) && I.Lt(High(iv, id1), Low(iv, id2))))
  {
    ReinforceAllContents(p.bounds, ClosureSets(p.intervals), id1, id2);
    ReinforceAllContents(p.bounds, ClosureSets(p.intervals), id1, id1);
  }

  /** The interval reads a reinforcement loop of lubAux makes: for each
      key of bnds and each of its bounds b, the intervals of key and of b
      in iv. Nothing else of iv is read. */
  predicate PairsReadable(bnds: BoundsEnv, iv: IntervalsEnv)
  {
    forall key :: key in Keys(bnds) ==>
      forall b :: b in UB.Elements(UB.BoundsOf(bnds, key)) ==> IntervalOf(iv, key).Itv? && IntervalOf(iv, b).Itv?
  }

  /** For each variable with bounds in bnds, those of its bounds whose
      interval in iv lies strictly above its own. */
  function LubSets(bnds: BoundsEnv, iv: IntervalsEnv): (cl: map<Id, set<Id>>)
    requires PairsReadable(bnds, iv)
    ensures cl.Keys == Keys(bnds)
  {
    map k | k in Keys(bnds) :: AboveSet(iv, k, UB.Elements(UB.BoundsOf(bnds, k)))
  }

  /** One iteration of a reinforcement loop of lubAux. A bottom start is
      allowed only when the loop puts nothing. */
  lemma LubStep(b: BoundsEnv, bnds: BoundsEnv, iv: IntervalsEnv, todo: set<Id>, key: Id, nb: BoundsEnv)
    requires PairsReadable(bnds, iv) && key in todo && todo <= Keys(bnds)
    requires !b.EnvBottom? || Changed(LubSets(bnds, iv)) == {}
    requires nb == ReinforceAll(b, Restrict(LubSets(bnds, iv), Keys(bnds) - todo))
    ensures var c := AboveSet(iv, key, UB.Elements(UB.BoundsOf(bnds, key)));
      && ReinforceAll(b, Restrict(LubSets(bnds, iv), Keys(bnds) - (todo - {key}))) ==
           (if c == {} then nb else Put(nb, key, UB.Glb(UB.BoundsOf(nb, key), UB.Bounds(c))))
      && (!b.EnvBottom? ==> !nb.EnvBottom?)
  {
    var cl := LubSets(bnds, iv);
    if b.EnvBottom? {
      assert key !in Changed(cl);
      assert Changed(Restrict(cl, Keys(bnds) - todo)) == {};
      assert Changed(Restrict(cl, Keys(bnds) - (todo - {key}))) == {};
    } else {
      ReinforceLoopStep(b, cl, Keys(bnds) - todo, key);
      assert Keys(bnds) - (todo - {key}) == (Keys(bnds) - todo) + {key};
      ReinforceAllAt(b, Restrict(cl, Keys(bnds) - todo), key);
    }
  }

  /** The reinforcement loop of lubAux over the entries of bnds, reading
      intervals from iv, starting from newBounds. */
  method ReinforceFrom(newBounds: BoundsEnv, bnds: BoundsEnv, iv: IntervalsEnv) returns (r: BoundsEnv)
    requires PairsReadable(bnds, iv)
    requires !newBounds.EnvBottom? || Changed(LubSets(bnds, iv)) == {}
    ensures r == ReinforceAll(newBounds, LubSets(bnds, iv))
    ensures !newBounds.EnvBottom? ==> !r.EnvBottom?
  {
    r := newBounds;
    var todo := Keys(bnds);
    RestrictEnds(newBounds, LubSets(bnds, iv));
    while todo != {}
      invariant todo <= Keys(bnds)
      invariant r == ReinforceAll(newBounds, Restrict(LubSets(bnds, iv), Keys(bnds) - todo))
      invariant !newBounds.EnvBottom? ==> !r.EnvBottom?
      decreases todo
    {
      var key :| key in todo;
      var closure := CollectAbove(iv, key, UB.Elements(UB.BoundsOf(bnds, key)));
      LubStep(newBounds, bnds, iv, todo, key, r);
      if closure != {} {
        r := Put(r, key, UB.Glb(UB.BoundsOf(r, key), UB.Bounds(closure)));
      }
      todo := todo - {key};
    }
  }

  /** lubAux: starting from the lub of the bounds, re-add each bound of
      this that the other's intervals confirm, then each bound of other
      that this' intervals confirm; the intervals are their lub. The two
      environment lubs are computed by the library and given here. The
      intervals are read only at the pairs the loops visit; a bottom lub
      of the bounds is allowed when neither loop puts anything. */
  method LubAux(p: Pentagons, o: Pentagons, lubBounds: BoundsEnv, lubIntervals: IntervalsEnv) returns (r: Pentagons)
    requires PairsReadable(p.bounds, o.intervals) && PairsReadable(o.bounds, p.intervals)
    requires !lubBounds.EnvBottom? ||
             (Changed(LubSets(p.bounds, o.intervals)) == {} && Changed(LubSets(o.bounds, p.intervals)) == {})
    ensures r.intervals == lubIntervals
    ensures r.bounds == ReinforceAll(ReinforceAll(lubBounds, LubSets(p.bounds, o.intervals)), LubSets(o.bounds, p.intervals))
  {
    var newBounds := ReinforceFrom(lubBounds, p.bounds, o.intervals);
    newBounds := ReinforceFrom(newBounds, o.bounds, p.intervals);
    r := Pentagons(newBounds, lubIntervals);
  }

  /** Readable intervals can be read at any pair, but lubAux accepts more:
      a pentagon whose intervals are bottom while its bounds are not
      (assume works on each component) joined with one that has no
      bounds, in either order; and bottom bounds, whose loop visits no
      pair and puts nothing. */
  lemma PairsReadableOnBottomIntervals(bnds: BoundsEnv, iv: IntervalsEnv)
    ensures Readable(iv) ==> PairsReadable(bnds, iv)
    ensures PairsReadable(EnvBottom, iv) && Changed(LubSets(EnvBottom, iv)) == {}
    ensures var p := Pentagons(EnvMap(map["x" := UB.Bounds({"y"})]), EnvBottom);
      var o := Pentagons(EnvMap(map[]), EnvMap(map[]));
      && !Readable(p.intervals)
      && PairsReadable(p.bounds, o.intervals) && PairsReadable(o.bounds, p.intervals)
  {
    if Readable(iv) {
      forall id
        ensures IntervalOf(iv, id).Itv?
      {
        if iv.EnvMap? && id in iv.m {
          assert id in Keys(iv);
        }
      }
    }
  }

  /** A bound b of key in this whose interval in other lies above key's is
      a bound of key in the lub (unless the library lub left key at
      bottom); symmetrically for the bounds of other. */
  lemma LubKeepsConfirmedBounds(p: Pentagons, o: Pentagons, lubBounds: BoundsEnv, key: Id, b: Id)
    requires PairsReadable(p.bounds, o.intervals) && PairsReadable(o.bounds, p.intervals)
    requires !UB.IsBottom(UB.BoundsOf(lubBounds, key))
    ensures !lubBounds.EnvBottom?
    ensures var r := ReinforceAll(ReinforceAll(lubBounds, LubSets(p.bounds, o.intervals)), LubSets(o.bounds, p.intervals));
      && ((key in Keys(p.bounds) && UB.Contains(UB.BoundsOf(p.bounds, key), b) &&
           I.Lt(High(o.intervals, key), Low(o.intervals, b))) ==> UB.Contains(UB.BoundsOf(r, key), b))
      && ((key in Keys(o.bounds) && UB.Contains(UB.BoundsOf(o.bounds, key), b) &&
           I.Lt(High(p.intervals, key), Low(p.intervals, b))) ==> UB.Contains(UB.BoundsOf(r, key), b))
      && (UB.Contains(UB.BoundsOf(lubBounds, key), b) ==> UB.Contains(UB.BoundsOf(r, key), b))
  {
    var first := LubSets(p.bounds, o.intervals);
    var mid := ReinforceAll(lubBounds, first);
    ReinforceAllContents(lubBounds, first, key, b);
    assert !mid.EnvBottom?;
    ReinforceAllContents(mid, LubSets(o.bounds, p.intervals), key, b);
  }

  /** The check lessOrEqualAux makes for one bound b of key in other: this
      knows b as a bound of key, or this' intervals put b above key. */
  predicate Confirmed(p: Pentagons, key: Id, b: Id)
  {
    UB.Contains(UB.BoundsOf(p.bounds, key), b) ||
    (IntervalOf(p.intervals, key).Itv? && IntervalOf(p.intervals, b).Itv? &&
     I.Lt(High(p.intervals, key), Low(p.intervals, b)))
  }

  /** The intervals lessOrEqualAux reads are not null: once the interval
      environments are ordered, for every bound b of key in other that this
      does not already know, this has intervals for key and for b. */
  predicate ReadsDefined(p: Pentagons, o: Pentagons, intervalsLeq: bool)
  {
    intervalsLeq ==>
      forall key, b ::
        (key in Keys(o.bounds) && b in UB.Elements(UB.BoundsOf(o.bounds, key)) &&
         !UB.Contains(UB.BoundsOf(p.bounds, key), b)) ==>
        IntervalOf(p.intervals, key).Itv? && IntervalOf(p.intervals, b).Itv?
  }

  /** The order lessOrEqualAux decides: the intervals are ordered and every
      bound of other is confirmed by this. */
  predicate LessOrEqualSpec(p: Pentagons, o: Pentagons, intervalsLeq: bool)
  {
    intervalsLeq &&
    forall key, b :: key in Keys(o.bounds) && b in UB.Elements(UB.BoundsOf(o.bounds, key)) ==> Confirmed(p, key, b)
  }

  /** lessOrEqualAux: nested loops over the bounds of other, returning
      false at the first bound this does not confirm. Whether the interval
      environments are ordered is decided by the library and given here. */
  method LessOrEqualAux(p: Pentagons, o: Pentagons, intervalsLeq: bool) returns (r: bool)
    requires ReadsDefined(p, o, intervalsLeq)
    ensures r == LessOrEqualSpec(p, o, intervalsLeq)
    ensures !intervalsLeq ==> !r
  {
    if !intervalsLeq {
      return false;
    }
    var keys := Keys(o.bounds);
    while keys != {}
      invariant keys <= Keys(o.bounds)
      invariant forall key, b :: key in Keys(o.bounds) - keys && b in UB.Elements(UB.BoundsOf(o.bounds, key)) ==> Confirmed(p, key, b)
      decreases keys
    {
      var key :| key in keys;
      var bounds := UB.Elements(UB.BoundsOf(o.bounds, key));
      while bounds != {}
        invariant bounds <= UB.Elements(UB.BoundsOf(o.bounds, key))
        invariant forall b :: b in UB.Elements(UB.BoundsOf(o.bounds, key)) - bounds ==> Confirmed(p, key, b)
        decreases bounds
      {
        var b :| b in bounds;
        if !Confirmed(p, key, b) {
          return false;
        }
        bounds := bounds - {b};
      }
      keys := keys - {key};
    }
    return true;
  }

  /** The order is reflexive once the intervals are: this confirms its own
      bounds. */
  lemma LessOrEqualReflexive(p: Pentagons)
    ensures LessOrEqualSpec(p, p, true)
  {
    forall key, b | key in Keys(p.bounds) && b in UB.Elements(UB.BoundsOf(p.bounds, key))
      ensures Confirmed(p, key, b)
    {
      assert UB.BoundsOf(p.bounds, key).Bounds?;
    }
  }

  /** The interval [1, +oo] that assign meets the result of x - y with. */
  const Positive: I.Intervals := I.Itv(I.Fin(1), I.PlusInf)

  /** The components assign hands to closure. newBounds and newIntervals
      are the library's assignments of e to id in each component. For
      r = x - y, if x is a bound of y the interval of r is met with
      [1, +oo]; for r = x - c, the bounds of r become the bounds x had
      before the assignment, plus x. */
  function PreClosure(p: Pentagons, id: Id, e: Expr, newBounds: BoundsEnv, newIntervals: IntervalsEnv): Pentagons
  {
    if e.Binary? && e.bop == Subtraction && e.left.Var? then
      var x := e.left.id;
      if e.right.Var? then
        if UB.Contains(UB.BoundsOf(newBounds, e.right.id), x) then
          Pentagons(newBounds, Put(newIntervals, id, I.Glb(IntervalOf(newIntervals, id), Positive)))
        else Pentagons(newBounds, newIntervals)
      else if e.right.Const? then
        Pentagons(Put(newBounds, id, UB.Add(UB.BoundsOf(p.bounds, x), x)), newIntervals)
      else Pentagons(newBounds, newIntervals)
    else Pentagons(newBounds, newIntervals)
  }

  /** The meet with [1, +oo] keeps every interval non-bottom. */
  lemma MeetPositiveNotBottom(a: I.Intervals)
    requires a.Itv?
    ensures I.Glb(a, Positive).Itv?
  {
  }

  /** Readable component results stay readable through the refinements,
      so closure can run on them. */
  lemma PreClosureReadable(p: Pentagons, id: Id, e: Expr, newBounds: BoundsEnv, newIntervals: IntervalsEnv)
    requires Readable(newIntervals) && !newBounds.EnvBottom?
    ensures var q := PreClosure(p, id, e, newBounds, newIntervals);
      Readable(q.intervals) && !q.bounds.EnvBottom? && Closable(q)
  {
    MeetPositiveNotBottom(IntervalOf(newIntervals, id));
  }

  /** Assigning on a bottom pentagon, whose component assignments are both
      bottom, leaves no interval to iterate: bottom bounds contain nothing,
      so the x - y refinement does not fire, and the x - c refinement only
      makes the bounds non-bottom. Closure then runs and changes nothing. */
  lemma AssignOnBottom(p: Pentagons, id: Id, e: Expr)
    ensures var q := PreClosure(p, id, e, EnvBottom, EnvBottom);
      && q.intervals == EnvBottom
      && Closable(q)
      && ReinforceAll(q.bounds, ClosureSets(q.intervals)) == q.bounds
  {
    var q := PreClosure(p, id, e, EnvBottom, EnvBottom);
    if e.Binary? && e.bop == Subtraction && e.left.Var? && e.right.Var? {
      assert !UB.Contains(UB.BoundsOf(EnvBottom, e.right.id), e.left.id);
    }
    assert ClosureSets(q.intervals) == map[];
  }

  /** assign: the library's assignment in both components, the two
      subtraction refinements, then closure. */
  method Assign(p: Pentagons, id: Id, e: Expr, newBounds: BoundsEnv, newIntervals: IntervalsEnv) returns (r: Pentagons)
    requires Closable(PreClosure(p, id, e, newBounds, newIntervals))
    ensures var q := PreClosure(p, id, e, newBounds, newIntervals);
      r == Pentagons(ReinforceAll(q.bounds, ClosureSets(q.intervals)), q.intervals)
  {
    r := Closure(PreClosure(p, id, e, newBounds, newIntervals));
  }

  /** r = x - y with x a bound of y: the interval of r is glb(i, [1, +oo])
      for the library's interval i. With glbAux as written (the hull), this
      restricts r to [1, +oo] only when i is TOP; any other i keeps every
      value it had. */
  lemma AssignDifferenceOfVariables(p: Pentagons, id: Id, x: Id, y: Id, newBounds: BoundsEnv, newIntervals: IntervalsEnv, v: int)
    requires Readable(newIntervals) && !newBounds.EnvBottom?
    requires UB.Contains(UB.BoundsOf(newBounds, y), x)
    ensures var q := PreClosure(p, id, Binary(Subtraction, Var(x), Var(y)), newBounds, newIntervals);
      var before := IntervalOf(newIntervals, id);
      var after := IntervalOf(q.intervals, id);
      && after == I.Glb(before, Positive)
      && (I.IsTop(before) ==> after == Positive)
      && (!I.IsTop(before) && I.Contains(before, v) ==> I.Contains(after, v))
  {
    var before := IntervalOf(newIntervals, id);
    if !I.IsTop(before) && I.Contains(before, v) && before != Positive {
      I.GlbAuxIsHull(before, Positive, v);
    }
  }

  /** r = x - c: after closure, x and every bound x had before the
      assignment are bounds of r. */
  lemma AssignDifferenceWithConstant(p: Pentagons, id: Id, x: Id, c: Constant, newBounds: BoundsEnv, newIntervals: IntervalsEnv, b: Id)
    requires Readable(newIntervals) && !newBounds.EnvBottom?
    ensures var q := PreClosure(p, id, Binary(Subtraction, Var(x), Const(c)), newBounds, newIntervals);
      var bounds := ReinforceAll(q.bounds, ClosureSets(q.intervals));
      && UB.Contains(UB.BoundsOf(bounds, id), x)
      && (UB.Contains(UB.BoundsOf(p.bounds, x), b) ==> UB.Contains(UB.BoundsOf(bounds, id), b))
  {
    var q := PreClosure(p, id, Binary(Subtraction, Var(x), Const(c)), newBounds, newIntervals);
    assert UB.BoundsOf(q.bounds, id) == UB.Add(UB.BoundsOf(p.bounds, x), x);
    ReinforceAllContents(q.bounds, ClosureSets(q.intervals), id, x);
    ReinforceAllContents(q.bounds, ClosureSets(q.intervals), id, b);
  }

  /** The constant of r = x - c when it is a positive integer. */
  predicate PositiveConstant(c: Constant)
  {
    c.NonNull? && c.value.IntValue? && c.value.n > 0
  }

  /** As written, r = x - c makes x a strict upper bound of r whatever c
      is. For r = x - 0, r equals x: starting from empty environments with
      x = 5, the bounds after assignment say r < x although both are 5. */
  lemma ConstantDifferenceUnsound()
    ensures var p := Pentagons(EnvMap(map[]), EnvMap(map[]));
      var q := PreClosure(p, "r", Binary(Subtraction, Var("x"), Const(NonNull(IntValue(0)))), EnvMap(map[]), EnvMap(map[]));
      var after := map["x" := 5, "r" := 5 - 0];
      && UB.Contains(UB.BoundsOf(ReinforceAll(q.bounds, ClosureSets(q.intervals)), "r"), "x")
      && !(after["r"] < after["x"])
  {
    var p := Pentagons(EnvMap(map[]), EnvMap(map[]));
    var q := PreClosure(p, "r", Binary(Subtraction, Var("x"), Const(NonNull(IntValue(0)))), EnvMap(map[]), EnvMap(map[]));
    ReinforceAllContents(q.bounds, ClosureSets(q.intervals), "r", "x");
  }

  /** The refinement only for a positive constant, where x - c < x holds. */
  function IntendedPreClosure(p: Pentagons, id: Id, e: Expr, newBounds: BoundsEnv, newIntervals: IntervalsEnv): Pentagons
  {
    if e.Binary? && e.bop == Subtraction && e.left.Var? && e.right.Const? && !PositiveConstant(e.right.c)
    then Pentagons(newBounds, newIntervals)
    else PreClosure(p, id, e, newBounds, newIntervals)
  }

  /** With the guard, the bounds the refinement gives r = x - n hold in the
      store after the assignment, over mathematical integers (as intervals
      are), for every other variable, provided x's old bounds held before. */
  lemma IntendedConstantDifferenceSound(p: Pentagons, id: Id, x: Id, n: JavaInt.Int32, newBounds: BoundsEnv,
                                        newIntervals: IntervalsEnv, store: map<Id, int>, b: Id)
    requires n > 0 && x in store && id != x
    requires forall b :: b in store && UB.Contains(UB.BoundsOf(p.bounds, x), b) ==> store[x] < store[b]
    ensures var q := IntendedPreClosure(p, id, Binary(Subtraction, Var(x), Const(NonNull(IntValue(n)))), newBounds, newIntervals);
      var after := store[id := store[x] - n];
      b in after && b != id && UB.Contains(UB.BoundsOf(q.bounds, id), b) ==> after[id] < after[b]
  {
    var q := IntendedPreClosure(p, id, Binary(Subtraction, Var(x), Const(NonNull(IntValue(n)))), newBounds, newIntervals);
    assert UB.BoundsOf(q.bounds, id) == UB.Add(UB.BoundsOf(p.bounds, x), x);
  }

  /** With a constant that is not positive the guarded version adds no bound. */
  lemma IntendedSkipsNonPositive(p: Pentagons, id: Id, x: Id, c: Constant, newBounds: BoundsEnv, newIntervals: IntervalsEnv)
    requires !PositiveConstant(c)
    ensures IntendedPreClosure(p, id, Binary(Subtraction, Var(x), Const(c)), newBounds, newIntervals) == Pentagons(newBounds, newIntervals)
  {
  }
}
