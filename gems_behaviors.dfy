/**
 * The hot-swapping behavior of the gems package. A HotSwappable adapter sits
 * in front of the adapter that really builds a component. It keeps a
 * Swappable cell whose occupant can be replaced at runtime, and it caches
 * the first non-null instance the adapter chain behind it produces. The
 * HotSwapping factory decides, from the component's property flags, whether
 * to put a HotSwappable in front of a new adapter at all.
 *
 * The adapters further down the chain and the proxy machinery are not
 * modelled: the inner adapter is an oracle (ComponentAdapter below), and so
 * are the results of the chain's `super` calls. Every oracle may throw, and
 * the code here lets the exception through.
 */
module GemsBehaviors {
  import opened JavaValues

  /** GemsCharacteristics.NO_HOT_SWAP and HOT_SWAP; only the names matter here. */
  const NO_HOT_SWAP: string := "no-hot-swap"
  const HOT_SWAP: string := "hot-swap"

  /** The arguments of one getComponentInstance call: a container and the type injected into. */
  datatype Request = Request(container: nat, into: string)

  /** What the component being registered is: its key and its implementation class, by name. */
  datatype Registration = Registration(componentKey: string, implementation: string)

  /** The component properties passed down the chain, as the set of flags they hold. */
  class Properties {
    var flags: set<string>

    constructor (flags: set<string>)
      ensures this.flags == flags
    {
      this.flags := flags;
    }

    /** AbstractBehavior.removePropertiesIfPresent: reports whether `flag` was set and clears it. */
    method RemoveIfPresent(flag: string) returns (present: bool)
      modifies this
      ensures present <==> flag in old(flags)
      ensures flags == old(flags) - {flag}
    {
      present := flag in flags;
      flags := flags - {flag};
    }
  }

  /**
   * The inner adapter, as an oracle: its answer to the n-th request may be
   * anything, null or an exception included, and `calls` counts how often
   * it was asked.
   */
  class ComponentAdapter<T> {
    const make: (Request, nat) -> Outcome<Option<T>>
    var calls: nat

    constructor (make: (Request, nat) -> Outcome<Option<T>>)
      ensures this.make == make && calls == 0
    {
      this.make := make;
      calls := 0;
    }

    method GetComponentInstance(req: Request) returns (r: Outcome<Option<T>>)
      modifies this
      ensures calls == old(calls) + 1
      ensures r == make(req, old(calls))
    {
      r := make(req, calls);
      calls := calls + 1;
    }
  }

  // ---------------------------------------------------------------------------
  // The swappable cell, as values

  /** What a cell holding `held` holds after the arguments `xs` are swapped in one after another: the last of them. */
  function Replay<T>(held: Option<T>, xs: seq<Option<T>>): (r: Option<T>)
    ensures xs == [] ==> r == held
    ensures xs != [] ==> r == xs[|xs| - 1]
    decreases |xs|
  {
    if xs == [] then held else Replay(xs[0], xs[1..])
  }

  /** What those swaps hand back, one value per swap. */
  function HandedBack<T>(held: Option<T>, xs: seq<Option<T>>): (out: seq<Option<T>>)
    ensures |out| == |xs|
    decreases |xs|
  {
    if xs == [] then [] else [held] + HandedBack(xs[0], xs[1..])
  }

  /** Each swap hands back exactly what the cell held before it: the first the initial occupant, every later one the previous argument. */
  lemma {:induction false} HandedBackIsPrevious<T>(held: Option<T>, xs: seq<Option<T>>, i: nat)
    requires i < |xs|
    ensures HandedBack(held, xs)[i] == if i == 0 then held else xs[i - 1]
    decreases |xs|
  {
    if i > 0 {
      HandedBackIsPrevious(xs[0], xs[1..], i - 1);
    }
  }

  /** One more swap hands back what the cell held after the swaps before it. */
  lemma {:induction false} HandedBackSnoc<T>(held: Option<T>, xs: seq<Option<T>>, x: Option<T>)
    ensures HandedBack(held, xs + [x]) == HandedBack(held, xs) + [Replay(held, xs)]
    decreases |xs|
  {
    if xs == [] {
      assert xs + [x] == [x];
    } else {
      assert (xs + [x])[0] == xs[0];
      assert (xs + [x])[1..] == xs[1..] + [x];
      HandedBackSnoc(xs[0], xs[1..], x);
    }
  }

  /** HotSwappable.Swappable: a one-slot cell, empty (null) when created. */
  class Swappable<T> {
    var delegate: Option<T>
    /** Every argument ever passed to Swap, oldest first. */
    ghost var swaps: seq<Option<T>>
    /** Every value Swap ever handed back, oldest first. */
    ghost var handedBack: seq<Option<T>>

    ghost predicate Valid()
      reads this
    {
      delegate == Replay(None, swaps) && handedBack == HandedBack(None, swaps)
    }

    constructor ()
      ensures Valid() && swaps == [] && handedBack == [] && delegate == None
    {
      delegate := None;
      swaps := [];
      handedBack := [];
    }

    /** The occupant: null before the first swap, afterwards the argument of the last swap. */
    method GetInstance() returns (r: Option<T>)
      requires Valid()
      ensures r == delegate
      ensures swaps == [] ==> r == None
      ensures swaps != [] ==> r == swaps[|swaps| - 1]
    {
      r := delegate;
    }

    /** Installs `x` and hands back the previous occupant. */
    method Swap(x: Option<T>) returns (previous: Option<T>)
      requires Valid()
      modifies this
      ensures Valid()
      ensures swaps == old(swaps) + [x] && handedBack == old(handedBack) + [previous]
      ensures previous == old(delegate) && delegate == x
    {
      HandedBackSnoc(None, swaps, x);
      previous := delegate;
      delegate := x;
      swaps := swaps + [x];
      handedBack := handedBack + [previous];
    }
  }

  // ---------------------------------------------------------------------------
  // The lazy cache of getComponentInstance, as values

  /** The cached instance and how often the inner adapter has been asked so far. */
  datatype CacheState<T> = CacheState(instance: Option<T>, consulted: nat)

  /** A call that returned a non-null instance. */
  predicate Hit<T>(o: Outcome<Option<T>>) {
    o.Returned? && o.value.Some?
  }

  /**
   * One getComponentInstance call: while nothing is cached the inner adapter
   * is asked and a returned answer, null or not, becomes the cached value; an
   * exception is passed on and leaves the cache empty. Once a value is cached
   * it is returned as it is.
   */
  function Lookup<T>(st: CacheState<T>, req: Request, make: (Request, nat) -> Outcome<Option<T>>): (res: (Outcome<Option<T>>, CacheState<T>))
    ensures st.instance.Some? ==> res == (Returned(st.instance), st)
    ensures st.instance.None? ==> res.0 == make(req, st.consulted) && res.1.consulted == st.consulted + 1
    ensures res.1.instance == if res.0.Returned? then res.0.value else None
  {
    if st.instance.Some? then
      (Returned(st.instance), st)
    else
      var answer := make(req, st.consulted);
      if answer.Threw? then (answer, CacheState(None, st.consulted + 1))
      else (answer, CacheState(answer.value, st.consulted + 1))
  }

  /** A run of calls `reqs` from state `st`: how each call ends and the state after the last. */
  function Serve<T>(st: CacheState<T>, reqs: seq<Request>, make: (Request, nat) -> Outcome<Option<T>>): (res: (seq<Outcome<Option<T>>>, CacheState<T>))
    ensures |res.0| == |reqs|
    decreases |reqs|
  {
    if reqs == [] then ([], st)
    else
      var (r, next) := Lookup(st, reqs[0], make);
      var (rest, last) := Serve(next, reqs[1..], make);
      ([r] + rest, last)
  }

  /** With a value cached, every call returns it and the inner adapter is never asked. */
  lemma {:induction false} ServeCached<T>(st: CacheState<T>, reqs: seq<Request>, make: (Request, nat) -> Outcome<Option<T>>)
    requires st.instance.Some?
    ensures Serve(st, reqs, make).1 == st
    ensures forall i :: 0 <= i < |reqs| ==> Serve(st, reqs, make).0[i] == Returned(st.instance)
    decreases |reqs|
  {
    if reqs != [] {
      ServeCached(st, reqs[1..], make);
    }
  }

  /** A run of calls splits at any point into two runs, the second starting where the first ended. */
  lemma {:induction false} ServeSplit<T>(st: CacheState<T>, a: seq<Request>, b: seq<Request>, make: (Request, nat) -> Outcome<Option<T>>)
    ensures Serve(st, a + b, make) ==
      (Serve(st, a, make).0 + Serve(Serve(st, a, make).1, b, make).0, Serve(Serve(st, a, make).1, b, make).1)
    decreases |a|
  {
    if a == [] {
      assert a + b == b;
      assert Serve(st, a, make) == ([], st);
      assert [] + Serve(st, b, make).0 == Serve(st, b, make).0;
    } else {
      assert (a + b)[0] == a[0];
      assert (a + b)[1..] == a[1..] + b;
      var (r, next) := Lookup(st, a[0], make);
      ServeSplit(next, a[1..], b, make);
      var front, back := Serve(next, a[1..], make).0, Serve(Serve(next, a[1..], make).1, b, make).0;
      assert [r] + (front + back) == ([r] + front) + back;
    }
  }

  /** After a run of calls the cache holds what the last call returned, and nothing if it threw. */
  lemma {:induction false} CachedIsLastReturned<T>(st: CacheState<T>, reqs: seq<Request>, make: (Request, nat) -> Outcome<Option<T>>)
    requires reqs != []
    ensures var last := Serve(st, reqs, make).0[|reqs| - 1];
      Serve(st, reqs, make).1.instance == if last.Returned? then last.value else None
    decreases |reqs|
  {
    if |reqs| > 1 {
      var (_, next) := Lookup(st, reqs[0], make);
      CachedIsLastReturned(next, reqs[1..], make);
    }
  }

  /**
   * Once a call has returned a non-null value, every later call returns that
   * same value and the inner adapter is not asked again.
   */
  lemma FirstHitSticks<T>(st: CacheState<T>, reqs: seq<Request>, make: (Request, nat) -> Outcome<Option<T>>, i: nat)
    requires i < |reqs| && Hit(Serve(st, reqs, make).0[i])
    ensures forall j :: i <= j < |reqs| ==> Serve(st, reqs, make).0[j] == Serve(st, reqs, make).0[i]
    ensures Serve(st, reqs, make).1.consulted == Serve(st, reqs[..i + 1], make).1.consulted
  {
    var a, b := reqs[..i + 1], reqs[i + 1..];
    assert reqs == a + b;
    ServeSplit(st, a, b, make);
    var mid := Serve(st, a, make);
    assert mid.0 == Serve(st, reqs, make).0[..i + 1];
    CachedIsLastReturned(st, a, make);
    ServeCached(mid.1, b, make);
    forall j | i < j < |reqs|
      ensures Serve(st, reqs, make).0[j] == Serve(st, reqs, make).0[i]
    {
      assert Serve(st, reqs, make).0[j] == Serve(mid.1, b, make).0[j - (i + 1)];
    }
  }

  /** The inner adapter is asked at most once per call, and not at all when a value is already cached. */
  lemma {:induction false} ConsultedAtMostOncePerCall<T>(st: CacheState<T>, reqs: seq<Request>, make: (Request, nat) -> Outcome<Option<T>>)
    ensures st.consulted <= Serve(st, reqs, make).1.consulted <= st.consulted + |reqs|
    ensures st.instance.Some? ==> Serve(st, reqs, make).1.consulted == st.consulted
    decreases |reqs|
  {
    if st.instance.Some? {
      ServeCached(st, reqs, make);
    } else if reqs != [] {
      var (_, next) := Lookup(st, reqs[0], make);
      ConsultedAtMostOncePerCall(next, reqs[1..], make);
    }
  }

  /**
   * Neither a null answer nor an exception is cached: an inner adapter that
   * never answers with an instance is asked on every call, and no call
   * returns an instance.
   */
  lemma {:induction false} MissesAreNotCached<T>(st: CacheState<T>, reqs: seq<Request>, make: (Request, nat) -> Outcome<Option<T>>)
    requires st.instance.None?
    requires forall req, n :: !Hit(make(req, n))
    ensures Serve(st, reqs, make).1 == CacheState(None, st.consulted + |reqs|)
    ensures forall i :: 0 <= i < |reqs| ==> !Hit(Serve(st, reqs, make).0[i])
    decreases |reqs|
  {
    if reqs != [] {
      var (_, next) := Lookup(st, reqs[0], make);
      MissesAreNotCached(next, reqs[1..], make);
    }
  }

  // ---------------------------------------------------------------------------
  // The adapter and the factory

  /** HotSwapping.HotSwappable: an adapter in front of `delegate` that supports swapping the real instance. */
  class HotSwappable<T> {
    const delegate: ComponentAdapter<T>
    /** The cell getSwappable returns: the same object for the adapter's whole life. */
    const swappable: Swappable<T>
    var instance: Option<T>

    ghost predicate Valid()
      reads this, swappable
    {
      swappable.Valid()
    }

    /** The part of the adapter's state the lazy cache works on. */
    ghost function State(): CacheState<T>
      reads this, delegate
    {
      CacheState(instance, delegate.calls)
    }

    constructor (delegate: ComponentAdapter<T>)
      ensures Pristine(this, delegate) && fresh(swappable)
    {
      this.delegate := delegate;
      swappable := new Swappable();
      instance := None;
    }

    method GetSwappable() returns (s: Swappable<T>)
      ensures s == swappable
    {
      s := swappable;
    }

    /** Swaps `x` into the cell and hands back the previous occupant; the cached instance is not touched. */
    method SwapRealInstance(x: Option<T>) returns (previous: Option<T>)
      requires Valid()
      modifies swappable
      ensures Valid() && unchanged(this) && unchanged(delegate)
      ensures swappable.swaps == old(swappable.swaps) + [x]
      ensures previous == old(swappable.delegate) && swappable.delegate == x
    {
      previous := swappable.Swap(x);
    }

    /** The occupant of the cell: null before any swap, otherwise the last value swapped in. */
    method GetRealInstance() returns (r: Option<T>)
      requires Valid()
      ensures r == swappable.delegate
      ensures swappable.swaps != [] ==> r == swappable.swaps[|swappable.swaps| - 1]
    {
      r := swappable.GetInstance();
    }

    /**
     * getComponentInstance: asks the chain behind it only while no instance
     * is cached, and from the first non-null answer on returns that answer.
     * The superclass that the chain is reached through may put the instance
     * it obtained into the cell (it is handed the cell by getSwappable); that
     * code is not part of this model, so either outcome is allowed here.
     */
    method GetComponentInstance(req: Request) returns (r: Outcome<Option<T>>)
      requires Valid()
      modifies this, delegate, swappable
      ensures Valid()
      ensures (r, State()) == Lookup(old(State()), req, delegate.make)
      ensures old(instance).Some? ==>
        r == Returned(old(instance)) && instance == old(instance) &&
        delegate.calls == old(delegate.calls) && unchanged(swappable)
      ensures old(instance).None? ==>
        r == delegate.make(req, old(delegate.calls)) && delegate.calls == old(delegate.calls) + 1
      ensures old(instance).None? && r.Returned? ==> instance == r.value
      ensures r.Threw? ==> instance == None && unchanged(swappable)
      // the cell is either left alone or has the new instance swapped in
      ensures unchanged(swappable) ||
        (old(instance).None? && r.Returned? &&
         swappable.swaps == old(swappable.swaps) + [r.value] && swappable.delegate == r.value)
    {
      if instance.None? {
        var answer := delegate.GetComponentInstance(req);
        if answer.Threw? {
          return answer;
        }
        var intoCell: bool :| true;
        if intoCell {
          var _ := swappable.Swap(answer.value);
        }
        instance := answer.value;
      }
      r := Returned(instance);
    }

    method GetDescriptor() returns (d: string)
      ensures d == "HotSwappable"
    {
      d := "HotSwappable";
    }
  }

  /** A HotSwappable as built: in front of `inner`, nothing cached, its cell empty and never swapped. */
  ghost predicate Pristine<T>(s: HotSwappable<T>, inner: ComponentAdapter<T>)
    reads s, s.swappable
  {
    s.Valid() && s.delegate == inner && s.instance == None &&
    s.swappable.swaps == [] && s.swappable.delegate == None
  }

  /** What the factory hands back: the inner adapter itself, or a HotSwappable in front of it. */
  datatype Behavior<T> = Unwrapped(adapter: ComponentAdapter<T>) | Wrapped(swapping: HotSwappable<T>)

  /** HotSwapping: the behavior factory. It has no state of its own. */
  class HotSwapping {
    constructor () { }

    /**
     * createComponentAdapter. The rest of the chain builds a new inner
     * adapter for `registration`; `chainCreate(flags, registration)` is how
     * that ends when the chain sees `flags`: an exception, or the answers
     * the new adapter will give. The chain is asked before either flag is
     * removed, so when it throws the properties are left as they were.
     * NO_HOT_SWAP opts out (and leaves HOT_SWAP where it was); otherwise
     * HOT_SWAP is cleared and the adapter is wrapped.
     */
    method CreateComponentAdapter<T>(props: Properties, registration: Registration,
                                     chainCreate: (set<string>, Registration) -> Outcome<(Request, nat) -> Outcome<Option<T>>>)
      returns (r: Outcome<Behavior<T>>)
      modifies props
      ensures var built := chainCreate(old(props.flags), registration);
        built.Threw? ==> r == Threw(built.exception) && props.flags == old(props.flags)
      ensures var built := chainCreate(old(props.flags), registration);
        built.Returned? && NO_HOT_SWAP in old(props.flags) ==>
          r.Returned? && r.value.Unwrapped? &&
          fresh(r.value.adapter) && r.value.adapter.make == built.value && r.value.adapter.calls == 0 &&
          props.flags == old(props.flags) - {NO_HOT_SWAP}
      ensures var built := chainCreate(old(props.flags), registration);
        built.Returned? && NO_HOT_SWAP !in old(props.flags) ==>
          r.Returned? && r.value.Wrapped? &&
          fresh(r.value.swapping) && fresh(r.value.swapping.swappable) && fresh(r.value.swapping.delegate) &&
          Pristine(r.value.swapping, r.value.swapping.delegate) &&
          r.value.swapping.delegate.make == built.value && r.value.swapping.delegate.calls == 0 &&
          props.flags == old(props.flags) - {HOT_SWAP}
    {
      var built := chainCreate(props.flags, registration);
      if built.Threw? {
        return Threw(built.exception);
      }
      var delegateAdapter := new ComponentAdapter(built.value);
      var optOut := props.RemoveIfPresent(NO_HOT_SWAP);
      if optOut {
        return Returned(Unwrapped(delegateAdapter));
      }
      var _ := props.RemoveIfPresent(HOT_SWAP);
      var swapping := new HotSwappable(delegateAdapter);
      r := Returned(Wrapped(swapping));
    }

    /**
     * addComponentAdapter. `chainAdd(flags, adapter)` is how the rest of the
     * chain ends when it takes `adapter` seeing `flags`; it is asked after
     * the flag has been removed, so the flag stays removed when it throws.
     * The routing is that of CreateComponentAdapter.
     */
    method AddComponentAdapter<T>(props: Properties, adapter: ComponentAdapter<T>,
                                  chainAdd: (set<string>, ComponentAdapter<T>) -> Outcome<ComponentAdapter<T>>)
      returns (r: Outcome<Behavior<T>>)
      modifies props
      ensures props.flags == old(props.flags) - {if NO_HOT_SWAP in old(props.flags) then NO_HOT_SWAP else HOT_SWAP}
      ensures var added := chainAdd(props.flags, adapter);
        added.Threw? ==> r == Threw(added.exception)
      ensures var added := chainAdd(props.flags, adapter);
        added.Returned? && NO_HOT_SWAP in old(props.flags) ==> r == Returned(Unwrapped(added.value))
      ensures var added := chainAdd(props.flags, adapter);
        added.Returned? && NO_HOT_SWAP !in old(props.flags) ==>
          r.Returned? && r.value.Wrapped? &&
          fresh(r.value.swapping) && fresh(r.value.swapping.swappable) &&
          Pristine(r.value.swapping, added.value)
    {
      var optOut := props.RemoveIfPresent(NO_HOT_SWAP);
      if optOut {
        var added := chainAdd(props.flags, adapter);
        if added.Threw? {
          return Threw(added.exception);
        }
        return Returned(Unwrapped(added.value));
      }
      var _ := props.RemoveIfPresent(HOT_SWAP);
      var added := chainAdd(props.flags, adapter);
      if added.Threw? {
        return Threw(added.exception);
      }
      var swapping := new HotSwappable(added.value);
      r := Returned(Wrapped(swapping));
    }
  }
}
