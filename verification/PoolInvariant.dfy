/**
 * What holds of the pool between any two steps of an evaluation, and how an evaluation may change it.
 */
module PoolInvariant {
  import opened Bytes
  import opened Trees
  import opened Semantics
  import opened ExpressionPool

  function NameTree(b: Binding): Tree {
    match b
    case Binding(name, _) => Atom(name)
    case Nameless(_) => Null
  }

  /** The association list `label` extends: one item (name value) for each binding. */
  function BindingTree(b: Binding): Tree {
    List(NameTree(b), List(b.value, Null))
  }

  function BindingTrees(env: Environment): seq<Tree> {
    seq(|env|, i requires 0 <= i < |env| => BindingTree(env[i]))
  }

  /** The cells lispExpressionInitialize creates before the environment, where the globals point. */
  ghost predicate BaseCells(cells: seq<Cell>) {
    && |cells| >= 4
    && cells[NIL] == LIST(NULL, NULL)
    && cells[PARENTHESIS_OPEN] == ATOM(Ascii("("))
    && cells[PARENTHESIS_CLOSE] == ATOM(Ascii(")"))
    && cells[TRUTH] == ATOM(Ascii("#t"))
  }

  /**
   * The invariant of the pool.  The last conjunct is reset safety: the whole environment is made of
   * cells below the bookmark, so giving back everything above it cannot change a binding.
   */
  ghost predicate Good(p: Pool) {
    && BaseCells(p.cells)
    && 4 <= p.mark <= |p.cells|
    && (forall i :: i in p.locked ==> 4 <= i < |p.cells|)
    && (forall i :: 0 <= i < |p.cells| && p.cells[i].ATOM? ==> |p.cells[i].name| <= ATOM_SIZE_LIMIT)
    && Chain(p.cells[..p.mark], p.locked, p.spine, BindingTrees(p.env))
  }

  /**
   * Pool `b` comes from pool `a` by evaluating.  No cell that was there has changed, but for the
   * link of the last environment cell, and that one only when a binding has been added.  What is
   * locked beyond the environment is the list `building`.
   */
  ghost predicate Grown(a: Pool, b: Pool, building: seq<Ref>) {
    && |a.cells| <= |b.cells| && a.mark <= b.mark
    && a.env <= b.env && a.spine <= b.spine
    && a.spine != [] && 0 <= Last(a.spine) < |a.cells| && Last(a.spine) in a.locked
    && (forall i :: 0 <= i < |a.cells| && i != Last(a.spine) ==> b.cells[i] == a.cells[i])
    && (a.cells[Last(a.spine)].LIST? && b.cells[Last(a.spine)].LIST?
        && b.cells[Last(a.spine)].car == a.cells[Last(a.spine)].car)
    && (b.env == a.env ==> b.cells[Last(a.spine)] == a.cells[Last(a.spine)] && b.spine == a.spine)
    && (forall i :: 0 <= i < |a.cells| ==> (i in a.locked <==> i in b.locked))
    && (forall i :: i in b.locked ==> i in a.locked || i in b.spine || i in building)
    && (forall i :: |a.spine| <= i < |b.spine| ==> |a.cells| <= b.spine[i])
  }

  lemma EnvironmentChain(p: Pool)
    requires Good(p)
    ensures Chain(p.cells, p.locked, p.spine, BindingTrees(p.env))
    ensures forall i :: 0 <= i < |p.spine| ==> p.spine[i] < p.mark && p.spine[i] in p.locked
    ensures p.spine != [] && Last(p.spine) in p.locked
  {
    ChainKept(p.cells[..p.mark], p.locked, p.cells, p.locked, p.spine, BindingTrees(p.env));
  }

  lemma GrownRefl(p: Pool)
    requires Good(p)
    ensures Grown(p, p, [])
  {
    EnvironmentChain(p);
  }

  lemma GrownKept(a: Pool, b: Pool, building: seq<Ref>)
    requires Grown(a, b, building)
    ensures Kept(a.cells, a.locked, b.cells, b.locked)
  {
  }

  lemma GrownTrans(a: Pool, b: Pool, c: Pool, building: seq<Ref>)
    requires Grown(a, b, building) && Grown(b, c, [])
    ensures Grown(a, c, building)
  {
    assert b.spine == a.spine || |a.cells| <= Last(b.spine);
  }

  /** The environment is still the same chain after cells above the bookmark or locks off it have changed. */
  lemma GoodKept(p: Pool, p': Pool)
    requires Good(p)
    requires p'.spine == p.spine && p'.env == p.env && p'.mark == p.mark <= |p'.cells|
    requires forall i :: 0 <= i < p.mark && i !in p.locked ==> p'.cells[i] == p.cells[i] && i !in p'.locked
    requires forall i :: 0 <= i < |p.spine| ==> 0 <= p.spine[i] < p.mark && p'.cells[p.spine[i]] == p.cells[p.spine[i]]
    requires forall i :: i in p'.locked ==> 4 <= i < |p'.cells|
    requires forall i :: 0 <= i < |p.spine| ==> p.spine[i] in p'.locked
    requires forall i :: 0 <= i < |p'.cells| && p'.cells[i].ATOM? ==> |p'.cells[i].name| <= ATOM_SIZE_LIMIT
    ensures Good(p')
  {
    assert NIL !in p.locked && PARENTHESIS_OPEN !in p.locked && PARENTHESIS_CLOSE !in p.locked && TRUTH !in p.locked;
    ChainKept(p.cells[..p.mark], p.locked, p'.cells[..p.mark], p'.locked, p.spine, BindingTrees(p.env));
  }

  /** One more cell on top. */
  lemma Pushed(a: Pool, p: Pool, p': Pool, c: Cell)
    requires Good(p) && Grown(a, p, []) && p' == p.(cells := p.cells + [c])
    requires c.ATOM? ==> |c.name| <= ATOM_SIZE_LIMIT
    ensures Good(p') && Grown(a, p', []) && Kept(p.cells, p.locked, p'.cells, p'.locked)
  {
    EnvironmentChain(p);
    GoodKept(p, p');
  }

  // ---------------------------------------------------------------- lists under construction

  /** `building` is a locked chain of fresh cells off the environment, whose cars denote `items`. */
  ghost predicate Building(a: Pool, p: Pool, building: seq<Ref>, items: seq<Tree>) {
    && Good(p) && Grown(a, p, building)
    && Chain(p.cells, p.locked, building, items)
    && forall i :: 0 <= i < |building| ==>
         |a.cells| <= building[i] && building[i] in p.locked && building[i] !in p.spine
  }

  ghost function Lock(p: Pool): Pool {
    p.(locked := p.locked + {|p.cells| - 1})
  }

  ghost function Unlock(p: Pool, building: seq<Ref>): Pool {
    p.(locked := set i | i in p.locked && i !in building)
  }

  /** Work on cells newer than pool `a` is still growth from `a`. */
  lemma GrownOver(a: Pool, p: Pool, p': Pool, building: seq<Ref>, building': seq<Ref>)
    requires Grown(a, p, building)
    requires p'.spine == p.spine && p'.env == p.env && p'.mark == p.mark && |p.cells| <= |p'.cells|
    requires forall i :: 0 <= i < |a.cells| ==> p'.cells[i] == p.cells[i]
    requires forall i :: 0 <= i < |a.cells| ==> (i in p.locked <==> i in p'.locked)
    requires forall i :: i in p'.locked ==> i in building' || (i in p.locked && i !in building)
    ensures Grown(a, p', building')
  {
  }

  /** A new list of one element. */
  lemma StartList(a: Pool, p: Pool, p': Pool, car: Ref, t: Tree)
    requires Good(p) && Grown(a, p, []) && Denotes(p.cells, p.locked, car, t)
    requires p' == Lock(p.(cells := p.cells + [LIST(car, NULL)]))
    ensures Building(a, p', [|p.cells|], [t]) && Kept(p.cells, p.locked, p'.cells, p'.locked)
  {
    StartGood(p, p', LIST(car, NULL));
    StartGrown(a, p, p', LIST(car, NULL));
    DenotesKept(p.cells, p.locked, p'.cells, p'.locked, car, t);
  }

  lemma StartGood(p: Pool, p': Pool, c: Cell)
    requires Good(p) && c.LIST? && p' == Lock(p.(cells := p.cells + [c]))
    ensures Good(p') && Kept(p.cells, p.locked, p'.cells, p'.locked) && |p.cells| !in p'.spine
  {
    EnvironmentChain(p);
    hide Denotes;
    GoodKept(p, p');
  }

  lemma StartGrown(a: Pool, p: Pool, p': Pool, c: Cell)
    requires Good(p) && Grown(a, p, []) && p' == Lock(p.(cells := p.cells + [c]))
    ensures Grown(a, p', [|p.cells|])
  {
    EnvironmentChain(p);
    hide Chain;
    GrownOver(a, p, p', [], [|p.cells|]);
  }

  /** One more element, by lispAppend. */
  lemma ExtendList(a: Pool, p: Pool, p': Pool, building: seq<Ref>, items: seq<Tree>, car: Ref, t: Tree)
    requires Building(a, p, building, items) && Denotes(p.cells, p.locked, car, t)
    requires p' == Lock(p.(cells := Appended(p.cells, building, car)))
    ensures Building(a, p', building + [|p.cells|], items + [t]) && Kept(p.cells, p.locked, p'.cells, p'.locked)
  {
    ChainAppended(p.cells, p.locked, building, items, car, t);
    ExtendGood(p, p', building, car);
    ExtendGrown(a, p, p', building, items, car);
  }

  lemma ExtendGood(p: Pool, p': Pool, building: seq<Ref>, car: Ref)
    requires Good(p) && Spine(p.cells, building)
    requires Last(building) in p.locked && Last(building) !in p.spine
    requires p' == Lock(p.(cells := Appended(p.cells, building, car)))
    ensures Good(p') && |p.cells| !in p.spine
  {
    EnvironmentChain(p);
    assert forall i :: 0 <= i < |p.cells| && i != Last(building) ==> p'.cells[i] == p.cells[i];
    GoodKept(p, p');
  }

  lemma ExtendGrown(a: Pool, p: Pool, p': Pool, building: seq<Ref>, items: seq<Tree>, car: Ref)
    requires Building(a, p, building, items)
    requires p' == Lock(p.(cells := Appended(p.cells, building, car)))
    ensures Grown(a, p', building + [|p.cells|])
  {
    assert |a.cells| <= Last(building);
    GrownOver(a, p, p', building, building + [|p.cells|]);
  }

  /** The list is finished. */
  lemma FinishList(a: Pool, p: Pool, p': Pool, building: seq<Ref>, items: seq<Tree>)
    requires Building(a, p, building, items) && p' == Unlock(p, building)
    ensures Good(p') && Grown(a, p', []) && Denotes(p'.cells, p'.locked, building[0], FromSeq(items))
    ensures Kept(p.cells, p.locked, p'.cells, p'.locked)
  {
    EnvironmentChain(p);
    GoodKept(p, p');
    ChainDenotes(p.cells, p.locked, building, items, p'.locked, 0);
    assert items[0..] == items;
  }

  /** A list under construction is untouched by evaluating its next element. */
  lemma KeepBuilding(a: Pool, p: Pool, p': Pool, building: seq<Ref>, items: seq<Tree>)
    requires Building(a, p, building, items) && Good(p') && Grown(p, p', [])
    ensures Building(a, p', building, items)
  {
    EnvironmentChain(p);
    GrownTrans(a, p, p', building);
    GrownKept(p, p', []);
    ChainKept(p.cells, p.locked, p'.cells, p'.locked, building, items);
  }

  /** A new binding: the item hangs on the environment, and everything so far is below the bookmark. */
  ghost function Published(p: Pool, item: Ref, b: Binding): Pool
    requires Spine(p.cells, p.spine)
  {
    Pool(Appended(p.cells, p.spine, item), p.locked + {|p.cells|}, p.spine + [|p.cells|], p.env + [b], |p.cells| + 1)
  }

  lemma PublishedGood(p: Pool, item: Ref, b: Binding)
    requires Good(p) && Denotes(p.cells, p.locked, item, BindingTree(b))
    ensures Chain(p.cells, p.locked, p.spine, BindingTrees(p.env))
    ensures Good(Published(p, item, b)) && Grown(p, Published(p, item, b), [])
  {
    EnvironmentChain(p);
    var p' := Published(p, item, b);
    ChainAppended(p.cells, p.locked, p.spine, BindingTrees(p.env), item, BindingTree(b));
    assert BindingTrees(p'.env) == BindingTrees(p.env) + [BindingTree(b)];
    assert p'.cells[..p'.mark] == p'.cells;
    assert p.env + [b] != p.env by { assert |p.env + [b]| != |p.env|; }
  }

  /** A bookmark moved to the end of the pool, without a new binding. */
  lemma MarkMoved(a: Pool, p: Pool, p': Pool)
    requires Good(p) && Grown(a, p, []) && p' == p.(mark := |p.cells|)
    ensures Good(p') && Grown(a, p', [])
  {
    EnvironmentChain(p);
    assert p.cells[..|p.cells|] == p.cells;
  }

  // ---------------------------------------------------------------- the pool object

  /** Between any two steps, whether or not an error is pending. */
  ghost predicate Sound(p: Lisp)
    reads p, p.Repr
  {
    p.Valid() && Good(p.g) && p.environment == p.g.spine[0]
  }

  ghost predicate Means(p: Lisp, r: Ref, t: Tree)
    reads p
  {
    Denotes(p.g.cells, p.g.locked, r, t)
  }

  /** Locks are bookkeeping: the source has none. */
  ghost method Relock(p: Lisp, locked: set<int>)
    requires p.Valid()
    modifies p`g
    ensures p.Valid() && p.g == old(p.g).(locked := locked)
    ensures p.State() == old(p.State())
  {
    p.g := p.g.(locked := locked);
  }
}
