/**
 * A disposable with several parents whose disposal action runs at most once.
 *
 * The child keeps a "disposed" flag; disposing it sets the flag and runs `onDisposal` only
 * if the flag was clear, so any later dispose does nothing. The host registry accepts an
 * object under one parent only, so the child is never registered itself: each parent
 * receives its own forwarder, a fresh disposable whose disposal disposes the child.
 *
 * The host registry is modelled as a map from parent to the forwarders registered under
 * it; disposing a parent disposes each of them and forgets the parent.
 */
module Disposables {

  /** What the child does the first time it is disposed. */
  datatype OnDisposal = DoNothing | Perform(action: string)

  /** How many times `onDisposal` has run after one more dispose, given the flag and count before it. */
  function RunsAfterDispose(disposed: bool, runs: nat): nat {
    if disposed then runs else runs + 1
  }

  /** The disposable `newDisposable` returns. */
  class OneShot {
    const onDisposal: OnDisposal
    /** The `isDisposed` flag. */
    var disposed: bool
    /** How many times `onDisposal` has been invoked. */
    var runs: nat

    /** `onDisposal` has run once if the child is disposed and never otherwise. */
    ghost predicate Valid()
      reads this
    {
      runs == if disposed then 1 else 0
    }

    constructor (onDisposal: OnDisposal)
      ensures Valid() && !disposed && runs == 0
      ensures this.onDisposal == onDisposal
    {
      this.onDisposal := onDisposal;
      disposed := false;
      runs := 0;
    }

    method Dispose()
      modifies this
      ensures disposed
      ensures runs == RunsAfterDispose(old(disposed), old(runs))
      ensures old(Valid()) ==> Valid()
    {
      // compare-and-set of the flag from false to true
      var wasUpdated := !disposed;
      if wasUpdated {
        disposed := true;
      }
      if wasUpdated {
        runs := runs + 1;  // onDisposal()
      }
    }
  }

  /** The disposable registered under one parent in place of the child. */
  class Forwarder {
    const target: OneShot

    constructor (target: OneShot)
      ensures this.target == target
    {
      this.target := target;
    }

    method Dispose()
      modifies target
      ensures target.disposed
      ensures target.runs == RunsAfterDispose(old(target.disposed), old(target.runs))
    {
      target.Dispose();
    }
  }

  /** The children that disposing forwarders `fs` disposes. */
  function Targets(fs: seq<Forwarder>): set<OneShot> {
    set f | f in fs :: f.target
  }

  /** What is registered under `parent` in `m`. */
  function ChildrenOf(m: map<nat, seq<Forwarder>>, parent: nat): seq<Forwarder> {
    if parent in m then m[parent] else []
  }

  /** The host registry; parents are identified by number. */
  class Disposer {
    var children: map<nat, seq<Forwarder>>

    constructor ()
      ensures children == map[]
    {
      children := map[];
    }

    predicate IsRegistered(f: Forwarder)
      reads this
    {
      exists p :: p in children && f in children[p]
    }

    /** Registers `child` under `parent`; an object already registered under some parent is refused. */
    method Register(parent: nat, child: Forwarder) returns (ok: bool)
      modifies this
      ensures ok == !old(IsRegistered(child))
      ensures children == if ok then Add(old(children), parent, child) else old(children)
    {
      ok := !IsRegistered(child);
      if ok {
        children := children[parent := ChildrenOf(children, parent) + [child]];
      }
    }

    /** Disposes `parent`: every forwarder registered under it runs, then the parent is forgotten. */
    method DisposeParent(parent: nat)
      modifies this, Targets(ChildrenOf(children, parent))
      ensures children == old(children) - {parent}
      ensures forall t :: t in old(Targets(ChildrenOf(children, parent))) ==>
                t.disposed && t.runs == RunsAfterDispose(old(t.disposed), old(t.runs))
    {
      var fs := ChildrenOf(children, parent);
      var i := 0;
      while i < |fs|
        invariant 0 <= i <= |fs|
        invariant children == old(children)
        invariant forall t :: t in Targets(fs[..i]) ==>
                    t.disposed && t.runs == RunsAfterDispose(old(t.disposed), old(t.runs))
        invariant forall t :: t in Targets(fs) && t !in Targets(fs[..i]) ==>
                    t.disposed == old(t.disposed) && t.runs == old(t.runs)
      {
        assert Targets(fs[..i + 1]) == Targets(fs[..i]) + {fs[i].target} by {
          assert fs[..i + 1] == fs[..i] + [fs[i]];
        }
        fs[i].Dispose();
        i := i + 1;
      }
      assert fs[..i] == fs;
      children := children - {parent};
    }
  }

  /** `m` after registering `f` under `p`. */
  function Add(m: map<nat, seq<Forwarder>>, p: nat, f: Forwarder): map<nat, seq<Forwarder>> {
    m[p := ChildrenOf(m, p) + [f]]
  }

  /** `m` after registering `fs[0]` under `ps[0]`, then `fs[1]` under `ps[1]`, and so on. */
  function RegisterAll(m: map<nat, seq<Forwarder>>, ps: seq<nat>, fs: seq<Forwarder>): map<nat, seq<Forwarder>>
    requires |ps| == |fs|
  {
    if ps == [] then m
    else
      var n := |ps| - 1;
      Add(RegisterAll(m, ps[..n], fs[..n]), ps[n], fs[n])
  }

  /** The forwarders `fs[i]` whose parent `ps[i]` is `p`, in registration order. */
  function ForwardersFor(ps: seq<nat>, fs: seq<Forwarder>, p: nat): seq<Forwarder>
    requires |ps| == |fs|
  {
    if ps == [] then []
    else
      var n := |ps| - 1;
      ForwardersFor(ps[..n], fs[..n], p) + (if ps[n] == p then [fs[n]] else [])
  }

  /** Each occurrence of `p` among the parents contributes exactly one forwarder under `p`. */
  lemma {:induction false} ForwardersForCount(ps: seq<nat>, fs: seq<Forwarder>, p: nat)
    requires |ps| == |fs|
    ensures |ForwardersFor(ps, fs, p)| == multiset(ps)[p]
    ensures forall f :: f in ForwardersFor(ps, fs, p) ==> f in fs
  {
    if ps != [] {
      var n := |ps| - 1;
      ForwardersForCount(ps[..n], fs[..n], p);
      assert ps == ps[..n] + [ps[n]];
      assert fs == fs[..n] + [fs[n]];
    }
  }

  /**
   * Registering forwarders `fs` under parents `ps` adds the parents to the registry and
   * appends to each parent's list the forwarders meant for it, and nothing else.
   */
  lemma {:induction false} RegisterAllUnder(m: map<nat, seq<Forwarder>>, ps: seq<nat>, fs: seq<Forwarder>, p: nat)
    requires |ps| == |fs|
    ensures p in RegisterAll(m, ps, fs) <==> p in m || p in ps
    ensures ChildrenOf(RegisterAll(m, ps, fs), p) == ChildrenOf(m, p) + ForwardersFor(ps, fs, p)
  {
    if ps != [] {
      var n := |ps| - 1;
      RegisterAllUnder(m, ps[..n], fs[..n], p);
      assert ps == ps[..n] + [ps[n]];
    }
  }

  /** On an empty registry, every parent ends up with forwarders, all of them for the same child. */
  lemma RegisteredOnEmptyHost(ps: seq<nat>, fs: seq<Forwarder>, d: OneShot, p: nat)
    requires |ps| == |fs| && forall i :: 0 <= i < |fs| ==> fs[i].target == d
    ensures p in RegisterAll(map[], ps, fs) <==> p in ps
    ensures p in ps ==> Targets(RegisterAll(map[], ps, fs)[p]) == {d}
  {
    RegisterAllUnder(map[], ps, fs, p);
    ForwardersForCount(ps, fs, p);
    var under := ForwardersFor(ps, fs, p);
    forall f | f in under
      ensures f.target == d
    {
      var i :| 0 <= i < |fs| && fs[i] == f;
    }
    if p in ps {
      assert multiset(ps)[p] > 0;
      assert under[0].target in Targets(under);
    }
  }

  /**
   * `newDisposable(parents, onDisposal)`: a fresh, undisposed child, and one fresh forwarder
   * per entry of `parents`, registered under that parent, each disposing the child.
   */
  method NewDisposable(host: Disposer, parents: seq<nat>, onDisposal: OnDisposal)
    returns (d: OneShot, ghost forwarders: seq<Forwarder>)
    modifies host
    ensures fresh(d) && d.Valid() && !d.disposed && d.onDisposal == onDisposal
    ensures |forwarders| == |parents|
    ensures forall i :: 0 <= i < |forwarders| ==> fresh(forwarders[i]) && forwarders[i].target == d
    ensures forall i, j :: 0 <= i < j < |forwarders| ==> forwarders[i] != forwarders[j]
    ensures host.children == RegisterAll(old(host.children), parents, forwarders)
  {
    d := new OneShot(onDisposal);
    forwarders := [];
    var i := 0;
    while i < |parents|
      invariant 0 <= i <= |parents| && |forwarders| == i
      invariant !d.disposed && d.runs == 0 && d.onDisposal == onDisposal
      invariant forall k :: 0 <= k < i ==> fresh(forwarders[k]) && forwarders[k].target == d
      invariant forall k, l :: 0 <= k < l < i ==> forwarders[k] != forwarders[l]
      invariant host.children == RegisterAll(old(host.children), parents[..i], forwarders)
    {
      var f := new Forwarder(d);
      assert !host.IsRegistered(f) by {
        forall p | p in host.children
          ensures f !in host.children[p]
        {
          RegisterAllUnder(old(host.children), parents[..i], forwarders, p);
          ForwardersForCount(parents[..i], forwarders, p);
        }
      }
      var ok := host.Register(parents[i], f);
      assert ok;
      assert parents[..i + 1][..i] == parents[..i];
      assert (forwarders + [f])[..i] == forwarders;
      forwarders := forwarders + [f];
      i := i + 1;
    }
    assert parents[..i] == parents;
  }

  /** `Disposable.createChild()`: a child of the receiver alone, with nothing to do on disposal. */
  method CreateChild(host: Disposer, parent: nat) returns (d: OneShot, ghost f: Forwarder)
    modifies host
    ensures fresh(d) && fresh(f) && d.Valid() && !d.disposed && d.onDisposal == DoNothing
    ensures f.target == d
    ensures host.children == Add(old(host.children), parent, f)
  {
    ghost var fs;
    d, fs := NewDisposable(host, [parent], DoNothing);
    f := fs[0];
    assert [parent][..0] == [] && fs[..0] == [];
  }

  /**
   * Registering one object under two parents is refused by the host: the reason the child
   * is represented by a separate forwarder under each parent.
   */
  method SecondParentRefused(p: nat, q: nat) returns (first: bool, second: bool)
    ensures first && !second
  {
    var host := new Disposer();
    var d := new OneShot(DoNothing);
    var f := new Forwarder(d);
    first := host.Register(p, f);
    assert f in host.children[p];
    second := host.Register(q, f);
  }

  /** The host disposes `parent`, while every forwarder it holds is for `d`. */
  method DisposeParentOf(host: Disposer, d: OneShot, parent: nat)
    requires forall p :: p in host.children ==> Targets(host.children[p]) == {d}
    modifies host, d
    ensures host.children == old(host.children) - {parent}
    ensures d.disposed == (old(d.disposed) || parent in old(host.children))
    ensures d.runs == if parent in old(host.children) then RunsAfterDispose(old(d.disposed), old(d.runs)) else old(d.runs)
  {
    if parent in host.children {
      assert Targets(ChildrenOf(host.children, parent)) == {d};
    } else {
      assert Targets(ChildrenOf(host.children, parent)) == {};
    }
    host.DisposeParent(parent);
  }

  /**
   * The host disposes the parents listed in `order`, one after another, while every
   * forwarder it holds is for `d` and every parent in `parents` is still registered: `d`
   * ends disposed exactly when one of those parents was disposed, having run its
   * `onDisposal` once at most.
   */
  method DisposeInTurn(host: Disposer, d: OneShot, parents: seq<nat>, order: seq<nat>)
    requires d.Valid() && !d.disposed
    requires forall p :: p in host.children ==> p in parents && Targets(host.children[p]) == {d}
    requires forall p :: p in parents ==> p in host.children
    modifies host, d
    ensures d.Valid()
    ensures d.disposed <==> exists p :: p in order && p in parents
  {
    var j := 0;
    while j < |order|
      invariant 0 <= j <= |order|
      invariant d.Valid()
      invariant d.disposed <==> exists q :: q in order[..j] && q in parents
      invariant forall p :: p in host.children ==> p in parents && Targets(host.children[p]) == {d}
      invariant forall p :: p in parents && p !in order[..j] ==> p in host.children
    {
      var p := order[j];
      assert p !in host.children && p in parents ==> p in order[..j];
      DisposeParentOf(host, d, p);
      assert order[..j + 1] == order[..j] + [p];
      j := j + 1;
    }
    assert order[..j] == order;
  }

  /**
   * A child of `parents` on a fresh host whose parents listed in `order` are then disposed
   * one after another: the child ends disposed exactly when one of its parents was
   * disposed, and `onDisposal` has then run once, however many of them were disposed.
   */
  method DisposeParentsInTurn(parents: seq<nat>, order: seq<nat>, onDisposal: OnDisposal)
    returns (d: OneShot)
    ensures d.onDisposal == onDisposal
    ensures d.disposed <==> exists p :: p in order && p in parents
    ensures d.runs == if d.disposed then 1 else 0
  {
    var host := new Disposer();
    ghost var fs;
    d, fs := NewDisposable(host, parents, onDisposal);
    forall p | p in host.children || p in parents
      ensures p in host.children && p in parents && Targets(host.children[p]) == {d}
    {
      RegisteredOnEmptyHost(parents, fs, d, p);
    }
    DisposeInTurn(host, d, parents, order);
  }
}
