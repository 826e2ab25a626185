/**
 Device start-up (core/devices_manager.cpp, core/devices_manager.hpp). Constructing a device may
 request others through the context; `is_started` and `is_starting` make this a depth-first search.

 A device is its index in the device table, and a constructor is the sequence of devices it requests.
 `Start` and `StartAll` are the search on values; `Manager` is the code with its arrays of flags.
 */
module Devices {
  import opened Common

  type Graph = g: seq<seq<nat>> | forall u, i | 0 <= u < |g| && 0 <= i < |g[u]| :: g[u][i] < |g|

  /** `done` lists the constructed devices in the order in which their construction ended. */
  datatype State = State(starting: set<nat>, started: set<nat>, exitAll: bool, done: seq<nat>)

  const INITIAL: State := State({}, {}, false, [])

  ghost function Unvisited(g: Graph, s: State): set<nat> {
    set u: nat | u < |g| && u !in s.starting && u !in s.started
  }

  // ---------------------------------------------------------------------------
  // The search on values
  // ---------------------------------------------------------------------------

  /** One request for device `d`. A device that is being constructed is a circular dependency. */
  ghost function Start(g: Graph, s: State, d: nat): (r: State)
    requires d < |g|
    ensures r.starting == s.starting && s.started <= r.started
    decreases Unvisited(g, s), 0
  {
    if d in s.started then s
    else if d in s.starting then s.(exitAll := true)
    else
      var s0 := s.(starting := s.starting + {d});
      assert d in Unvisited(g, s) && d !in Unvisited(g, s0);
      var s1 := StartAll(g, s0, g[d]);
      State(s1.starting - {d}, s1.started + {d}, s1.exitAll, s1.done + [d])
  }

  ghost function StartAll(g: Graph, s: State, ds: seq<nat>): (r: State)
    requires forall i | 0 <= i < |ds| :: ds[i] < |g|
    ensures r.starting == s.starting && s.started <= r.started
    decreases Unvisited(g, s), |ds|
  {
    if ds == [] then s
    else
      var s1 := Start(g, s, ds[0]);
      assert Unvisited(g, s1) <= Unvisited(g, s);
      StartAll(g, s1, ds[1..])
  }

  // ---------------------------------------------------------------------------
  // Paths and cycles
  // ---------------------------------------------------------------------------

  /** After a request the device is built, unless it was already under construction. */
  lemma StartGives(g: Graph, s: State, d: nat)
    requires d < |g|
    ensures d in Start(g, s, d).started <==> d in s.started || d !in s.starting
  {
  }

  /** Requests are served in their order, one after the other. */
  lemma {:induction false} ServedInOrder(g: Graph, s: State, xs: seq<nat>, ys: seq<nat>)
    requires forall i | 0 <= i < |xs| :: xs[i] < |g|
    requires forall i | 0 <= i < |ys| :: ys[i] < |g|
    ensures forall i | 0 <= i < |xs + ys| :: (xs + ys)[i] < |g|
    ensures StartAll(g, s, xs + ys) == StartAll(g, StartAll(g, s, xs), ys)
    decreases |xs|
  {
    if xs == [] {
      assert xs + ys == ys;
    } else {
      assert (xs + ys)[0] == xs[0] && (xs + ys)[1..] == xs[1..] + ys;
      ServedInOrder(g, Start(g, s, xs[0]), xs[1..], ys);
    }
  }

  /** Completed devices are listed at the end, and none is taken off. */
  lemma {:induction false} DoneGrows(g: Graph, s: State, d: nat)
    requires d < |g|
    ensures s.done <= Start(g, s, d).done
    decreases Unvisited(g, s), 0
  {
    if d !in s.started && d !in s.starting {
      var s0 := s.(starting := s.starting + {d});
      assert d in Unvisited(g, s) && d !in Unvisited(g, s0);
      AllDoneGrows(g, s0, g[d]);
    }
  }

  lemma {:induction false} AllDoneGrows(g: Graph, s: State, ds: seq<nat>)
    requires forall i | 0 <= i < |ds| :: ds[i] < |g|
    ensures s.done <= StartAll(g, s, ds).done
    decreases Unvisited(g, s), |ds|
  {
    if ds != [] {
      DoneGrows(g, s, ds[0]);
      AllDoneGrows(g, Start(g, s, ds[0]), ds[1..]);
    }
  }

  /** A device that is built comes last in the list, after all that its own requests have built. */
  lemma BuiltLast(g: Graph, s: State, d: nat)
    requires d < |g| && d !in s.started && d !in s.starting
    ensures
      var inner := StartAll(g, s.(starting := s.starting + {d}), g[d]);
      Start(g, s, d).done == inner.done + [d] && s.done <= inner.done
  {
    AllDoneGrows(g, s.(starting := s.starting + {d}), g[d]);
  }

  ghost predicate IsPath(g: Graph, p: seq<nat>) {
    && 0 < |p|
    && (forall i | 0 <= i < |p| :: p[i] < |g|)
    && (forall i | 0 <= i < |p| - 1 :: p[i + 1] in g[p[i]])
  }

  ghost predicate Reaches(g: Graph, u: nat, v: nat) {
    exists p :: IsPath(g, p) && p[0] == u && p[|p| - 1] == v
  }

  /** Device `u` depends on itself, through at least one request. */
  ghost predicate OnCycle(g: Graph, u: nat) {
    u < |g| && exists v | v in g[u] :: Reaches(g, v, u)
  }

  ghost predicate FromRoots(g: Graph, roots: set<nat>, u: nat) {
    exists r | r in roots :: Reaches(g, r, u)
  }

  ghost predicate ReachesCycle(g: Graph, roots: set<nat>) {
    exists u :: FromRoots(g, roots, u) && OnCycle(g, u)
  }

  lemma PathStep(g: Graph, u: nat, v: nat, w: nat)
    requires Reaches(g, u, v) && w in g[v]
    ensures Reaches(g, u, w)
  {
    var p :| IsPath(g, p) && p[0] == u && p[|p| - 1] == v;
    var q := p + [w];
    assert q[|q| - 1] == w && q[0] == u;
    assert IsPath(g, q);
  }

  // ---------------------------------------------------------------------------
  // What every request keeps
  // ---------------------------------------------------------------------------

  /** Every device ends its construction after all the devices it requests. */
  ghost predicate Topological(g: Graph, done: seq<nat>) {
    forall i | 0 <= i < |done| :: done[i] < |g| && forall v | v in g[done[i]] :: v in done[..i]
  }

  /** The devices under construction, outermost first: each one requested the next. */
  ghost predicate IsStack(g: Graph, stack: seq<nat>, s: State) {
    && (stack == [] || IsPath(g, stack))
    && s.starting == (set u | u in stack)
  }

  ghost predicate Covered(s: State, u: nat) { u in s.started || u in s.starting }

  ghost predicate Inv(g: Graph, roots: set<nat>, stack: seq<nat>, s: State) {
    && IsStack(g, stack, s)
    && s.starting !! s.started
    && NoRepeats(s.done) && s.started == (set u | u in s.done)
    && (forall u | u in s.started :: u < |g| && forall v | v in g[u] :: Covered(s, v))
    && (forall u | Covered(s, u) :: FromRoots(g, roots, u))
    && (!s.exitAll ==> Topological(g, s.done))
    && (s.exitAll ==> ReachesCycle(g, roots))
  }

  /** A request from inside the construction that `stack` describes, or from outside when it is empty. */
  ghost predicate Requests(g: Graph, roots: set<nat>, stack: seq<nat>, d: nat) {
    d < |g| && if stack == [] then d in roots else stack[|stack| - 1] < |g| && d in g[stack[|stack| - 1]]
  }

  lemma RequestIsReachable(g: Graph, roots: set<nat>, stack: seq<nat>, s: State, d: nat)
    requires Inv(g, roots, stack, s) && Requests(g, roots, stack, d)
    ensures FromRoots(g, roots, d)
  {
    if stack == [] {
      assert IsPath(g, [d]) && [d][0] == d;
      assert Reaches(g, d, d);
    } else {
      var top := stack[|stack| - 1];
      assert Covered(s, top);
      var r :| r in roots && Reaches(g, r, top);
      PathStep(g, r, top, d);
    }
  }

  /** A request for a device under construction closes a cycle. */
  lemma RequestClosesCycle(g: Graph, roots: set<nat>, stack: seq<nat>, s: State, d: nat)
    requires Inv(g, roots, stack, s) && Requests(g, roots, stack, d) && d in s.starting
    ensures ReachesCycle(g, roots)
  {
    var k :| 0 <= k < |stack| && stack[k] == d;
    var top := stack[|stack| - 1];
    var p := stack[k..];
    assert IsPath(g, p) && p[0] == d && p[|p| - 1] == top;
    assert Reaches(g, d, top) && OnCycle(g, top);
    assert Covered(s, top);
  }

  lemma PushKeeps(g: Graph, roots: set<nat>, stack: seq<nat>, s: State, d: nat)
    requires Inv(g, roots, stack, s) && Requests(g, roots, stack, d)
    requires d !in s.starting && d !in s.started
    ensures Inv(g, roots, stack + [d], s.(starting := s.starting + {d}))
  {
    RequestIsReachable(g, roots, stack, s, d);
    var s0 := s.(starting := s.starting + {d});
    assert forall u | Covered(s0, u) && u != d :: Covered(s, u);
    assert IsStack(g, stack + [d], s0);
  }

  lemma PopKeeps(g: Graph, roots: set<nat>, stack: seq<nat>, s: State, d: nat)
    requires Inv(g, roots, stack + [d], s) && d < |g| && d !in stack
    requires forall v | v in g[d] :: Covered(s, v) && (!s.exitAll ==> v in s.started)
    ensures Inv(g, roots, stack, State(s.starting - {d}, s.started + {d}, s.exitAll, s.done + [d]))
  {
    hide FromRoots, ReachesCycle;
    var r := State(s.starting - {d}, s.started + {d}, s.exitAll, s.done + [d]);
    assert IsStack(g, stack, r) by {
      assert (stack + [d])[..|stack|] == stack;
    }
    assert d in stack + [d];
    assert forall u | Covered(r, u) :: Covered(s, u);
    assert !s.exitAll ==> Topological(g, r.done) by {
      assert r.done[..|s.done|] == s.done;
    }
  }

  lemma {:induction false} StartKeeps(g: Graph, roots: set<nat>, stack: seq<nat>, s: State, d: nat)
    requires Inv(g, roots, stack, s) && Requests(g, roots, stack, d)
    ensures
      var r := Start(g, s, d);
      && Inv(g, roots, stack, r)
      && Covered(r, d) && (!r.exitAll ==> d in r.started)
      && (s.exitAll ==> r.exitAll)
    decreases Unvisited(g, s), 0
  {
    if d in s.started {
    } else if d in s.starting {
      RequestClosesCycle(g, roots, stack, s, d);
    } else {
      var s0 := s.(starting := s.starting + {d});
      assert d in Unvisited(g, s) && d !in Unvisited(g, s0);
      PushKeeps(g, roots, stack, s, d);
      StartAllKeeps(g, roots, stack + [d], s0, g[d]);
      PopKeeps(g, roots, stack, StartAll(g, s0, g[d]), d);
    }
  }

  lemma {:induction false} StartAllKeeps(g: Graph, roots: set<nat>, stack: seq<nat>, s: State, ds: seq<nat>)
    requires Inv(g, roots, stack, s)
    requires forall i | 0 <= i < |ds| :: ds[i] < |g| && Requests(g, roots, stack, ds[i])
    ensures
      var r := StartAll(g, s, ds);
      && Inv(g, roots, stack, r)
      && (forall d | d in ds :: Covered(r, d) && (!r.exitAll ==> d in r.started))
      && (s.exitAll ==> r.exitAll)
    decreases Unvisited(g, s), |ds|
  {
    if ds != [] {
      var s1 := Start(g, s, ds[0]);
      StartKeeps(g, roots, stack, s, ds[0]);
      assert Unvisited(g, s1) <= Unvisited(g, s);
      StartAllKeeps(g, roots, stack, s1, ds[1..]);
    }
  }

  // ---------------------------------------------------------------------------
  // Whole runs
  // ---------------------------------------------------------------------------

  /** From a device that ended construction, every path leads to devices that ended before it. */
  lemma {:induction false} TopologicalPath(g: Graph, done: seq<nat>, i: nat, p: seq<nat>)
    requires Topological(g, done) && i < |done| && IsPath(g, p) && p[0] == done[i]
    ensures p[|p| - 1] in done[..i + 1]
    decreases |p|
  {
    if |p| > 1 {
      assert p[1] in g[p[0]];
      var j :| 0 <= j < i && done[j] == p[1];
      TopologicalPath(g, done, j, p[1..]);
    }
  }

  lemma TopologicalHasNoCycle(g: Graph, done: seq<nat>, u: nat)
    requires Topological(g, done) && NoRepeats(done) && u in done
    ensures !OnCycle(g, u)
  {
    if OnCycle(g, u) {
      var v :| v in g[u] && Reaches(g, v, u);
      var p :| IsPath(g, p) && p[0] == v && p[|p| - 1] == u;
      var i :| 0 <= i < |done| && done[i] == u;
      var j :| 0 <= j < i && done[j] == v;
      TopologicalPath(g, done, j, p);
    }
  }

  lemma {:induction false} ClosedUnderPaths(g: Graph, started: set<nat>, p: seq<nat>)
    requires IsPath(g, p) && p[0] in started
    requires forall u | u in started :: u < |g| && forall v | v in g[u] :: v in started
    ensures p[|p| - 1] in started
    decreases |p|
  {
    if |p| > 1 {
      assert p[1] in g[p[0]];
      ClosedUnderPaths(g, started, p[1..]);
    }
  }

  ghost function Roots(requests: seq<nat>): set<nat> { set d | d in requests }

  /**
   Every sequence of requests, on every graph: nothing is left under construction, the devices
   constructed are exactly those that a request reaches, each once, and the server is told to exit
   exactly when a request reaches a cycle; without a cycle construction ends in dependency order.
   */
  lemma StartUp(g: Graph, requests: seq<nat>)
    requires forall i | 0 <= i < |requests| :: requests[i] < |g|
    ensures
      var r := StartAll(g, INITIAL, requests);
      var roots := Roots(requests);
      && r.starting == {}
      && NoRepeats(r.done)
      && (forall u :: u in r.done <==> FromRoots(g, roots, u))
      && r.started == (set u | u in r.done)
      && (r.exitAll <==> ReachesCycle(g, roots))
      && (!ReachesCycle(g, roots) ==> Topological(g, r.done))
  {
    hide Topological, ReachesCycle, FromRoots, NoRepeats;
    var roots := Roots(requests);
    InitialInv(g, roots);
    StartAllKeeps(g, roots, [], INITIAL, requests);
    RestCovers(g, roots, StartAll(g, INITIAL, requests));
    RestExit(g, roots, StartAll(g, INITIAL, requests));
  }

  lemma InitialInv(g: Graph, roots: set<nat>)
    ensures Inv(g, roots, [], INITIAL)
  {
  }

  /** Outside all constructions nothing is starting, and what a started device requests is started. */
  lemma RestIsClosed(g: Graph, roots: set<nat>, s: State)
    requires Inv(g, roots, [], s)
    ensures s.starting == {} && forall u | u in s.started :: FromRoots(g, roots, u)
    ensures forall u | u in s.started :: u < |g| && forall v | v in g[u] :: v in s.started
  {
    hide FromRoots, Topological, ReachesCycle;
    assert forall u | u in s.started :: Covered(s, u);
  }

  lemma RestCovers(g: Graph, roots: set<nat>, s: State)
    requires Inv(g, roots, [], s) && forall d | d in roots :: Covered(s, d)
    ensures s.starting == {} && forall u :: u in s.started <==> FromRoots(g, roots, u)
  {
    RestIsClosed(g, roots, s);
    hide Inv;
    forall u | FromRoots(g, roots, u)
      ensures u in s.started
    {
      var d :| d in roots && Reaches(g, d, u);
      var p :| IsPath(g, p) && p[0] == d && p[|p| - 1] == u;
      ClosedUnderPaths(g, s.started, p);
    }
    assert forall u | u in s.started :: Covered(s, u);
  }

  lemma RestExit(g: Graph, roots: set<nat>, s: State)
    requires Inv(g, roots, [], s) && forall d | d in roots :: Covered(s, d)
    ensures s.exitAll <==> ReachesCycle(g, roots)
    ensures !s.exitAll ==> Topological(g, s.done)
  {
    if !s.exitAll && ReachesCycle(g, roots) {
      var u :| FromRoots(g, roots, u) && OnCycle(g, u);
      RestCovers(g, roots, s);
      TopologicalHasNoCycle(g, s.done, u);
      assert false;
    }
  }

  // ---------------------------------------------------------------------------
  // The code
  // ---------------------------------------------------------------------------

  ghost function Flags(a: seq<bool>): set<nat> { set i: nat | i < |a| && a[i] }

  lemma FlagsUpdate(a: seq<bool>, d: nat)
    requires d < |a|
    ensures Flags(a[d := true]) == Flags(a) + {d}
    ensures Flags(a[d := false]) == Flags(a) - {d}
  {
  }

  class Manager {
    const graph: Graph
    // DevicesContainer
    const contStarted: array<bool>
    const isStarting: array<bool>
    // DeviceManager
    const isStarted: array<bool>
    var exitAll: bool
    ghost var done: seq<nat>

    ghost predicate Shape()
      reads this
    {
      && contStarted.Length == |graph| && isStarting.Length == |graph| && isStarted.Length == |graph|
      && contStarted != isStarting && contStarted != isStarted && isStarting != isStarted
    }

    ghost predicate Valid()
      reads this, contStarted, isStarting, isStarted
    {
      Shape() && contStarted[..] == isStarted[..]
    }

    ghost function Value(): State
      reads this, contStarted, isStarting, isStarted
      requires Shape()
    {
      State(Flags(isStarting[..]), Flags(contStarted[..]), exitAll, done)
    }

    constructor (g: Graph)
      ensures Valid() && graph == g && Value() == INITIAL
      ensures fresh(contStarted) && fresh(isStarting) && fresh(isStarted)
    {
      graph := g;
      contStarted := new bool[|g|](_ => false);
      isStarting := new bool[|g|](_ => false);
      isStarted := new bool[|g|](_ => false);
      exitAll, done := false, [];
    }

    /** `DeviceManager::get`: `there` says that the reference it returns is not null. */
    method Get(dev: nat) returns (there: bool)
      requires Valid() && dev < |graph|
      modifies this, contStarted, isStarting, isStarted
      ensures Valid() && Value() == Start(graph, old(Value()), dev)
      ensures there <==> dev in Value().started
      ensures there <==> dev in old(Value().started) || dev !in old(Value().starting)
      decreases Unvisited(graph, Value()), 3
    {
      StartGives(graph, Value(), dev);
      if !isStarted[dev] {
        AllocDevice(dev);
      }
      there := contStarted[dev];
    }

    /** `DeviceManager::alloc_device`. */
    method AllocDevice(dev: nat)
      requires Valid() && dev < |graph|
      modifies this, contStarted, isStarting, isStarted
      ensures Valid() && Value() == Start(graph, old(Value()), dev)
      decreases Unvisited(graph, Value()), 2
    {
      if isStarted[dev] {
        return;
      }
      var r := Alloc(dev);
      if r < 0 {
        exitAll := true;
        return;
      }
      isStarted[dev] := true;
    }

    /** `DevicesContainer::alloc`. */
    method Alloc(dev: nat) returns (r: int)
      requires Valid() && dev < |graph|
      modifies this, contStarted, isStarting, isStarted
      ensures Shape()
      ensures r < 0 <==> old(isStarting[dev] && !contStarted[dev])
      ensures r < 0 ==> Valid() && Value() == old(Value())
      ensures 0 <= r ==> Value() == Start(graph, old(Value()), dev)
      ensures 0 <= r ==> contStarted[..] == isStarted[..][dev := true]
      decreases Unvisited(graph, Value()), 1
    {
      if contStarted[dev] {
        return 0;
      }
      if isStarting[dev] {
        return -1;
      }
      ghost var s := Value();
      ghost var flags := isStarting[..];
      isStarting[dev] := true;
      assert isStarting[..] == flags[dev := true];
      FlagsUpdate(flags, dev);
      assert dev in Unvisited(graph, s) && dev !in Unvisited(graph, Value());
      Construct(dev);
      ghost var s1 := Value();
      ghost var starting, started := isStarting[..], contStarted[..];
      isStarting[dev] := false;
      assert isStarting[..] == starting[dev := false];
      FlagsUpdate(starting, dev);
      contStarted[dev] := true;
      assert contStarted[..] == started[dev := true];
      FlagsUpdate(started, dev);
      done := done + [dev];
      return 0;
    }

    /** The device's constructor: its requests, in order. */
    method Construct(dev: nat)
      requires Valid() && dev < |graph|
      modifies this, contStarted, isStarting, isStarted
      ensures Valid() && Value() == StartAll(graph, old(Value()), graph[dev])
      decreases Unvisited(graph, Value()), 4
    {
      ghost var s := Value();
      var ds := graph[dev];
      for i := 0 to |ds|
        invariant Valid()
        invariant StartAll(graph, Value(), ds[i..]) == StartAll(graph, s, ds)
        invariant Unvisited(graph, Value()) <= Unvisited(graph, s)
      {
        ghost var now := Value();
        assert ds[i..][0] == ds[i] && ds[i..][1..] == ds[i + 1..];
        var there := Get(ds[i]);
        assert Unvisited(graph, Value()) <= Unvisited(graph, now);
      }
    }

    /** The requests of a run, one after the other. */
    method Run(requests: seq<nat>)
      requires Valid() && forall i | 0 <= i < |requests| :: requests[i] < |graph|
      modifies this, contStarted, isStarting, isStarted
      ensures Valid() && Value() == StartAll(graph, old(Value()), requests)
    {
      ghost var s := Value();
      for i := 0 to |requests|
        invariant Valid()
        invariant StartAll(graph, Value(), requests[i..]) == StartAll(graph, s, requests)
      {
        assert requests[i..][0] == requests[i] && requests[i..][1..] == requests[i + 1..];
        var there := Get(requests[i]);
      }
    }
  }
}
