/**
 Session ids and subscriptions (core/session_manager.*, core/pubsub.*): an id allocator with reuse, and
 channel lists from which an id is removed by swapping it with the last and popping.

 Each step is one critical section of the server. `Server` is the state as a value; `Manager` is the code.
 */
module Sessions {
  import opened Common

  const CHANNELS: nat := 3

  /** `peak` records the largest number of sessions that were live at once. */
  datatype Server = Server(
    pool: set<nat>, reusable: seq<nat>, numSess: nat, channels: seq<seq<nat>>, peak: nat)

  const INITIAL: Server := Server({}, [], 0, [[], [], []], 0)

  datatype Event =
    | Create
    | Subscribe(sid: nat, channel: nat)
    | Delete(sid: nat)
    | DeleteAll(order: seq<nat>)
    | Emit(channel: nat)

  // ---------------------------------------------------------------------------
  // The steps on values
  // ---------------------------------------------------------------------------

  function NewId(s: Server): nat {
    if s.reusable == [] then s.numSess else s.reusable[|s.reusable| - 1]
  }

  function DoCreate(s: Server): Server {
    var pool := s.pool + {NewId(s)};
    s.(pool := pool,
       reusable := if s.reusable == [] then [] else s.reusable[..|s.reusable| - 1],
       numSess := s.numSess + 1,
       peak := if s.peak < |pool| then |pool| else s.peak)
  }

  /** The 32-bit channel of SUBSCRIBE_PUBSUB is narrowed to 16 bits before it is compared. */
  function Narrow(channel: nat): nat { channel % 0x1_0000 }

  function DoSubscribe(s: Server, sid: nat, channel: nat): Server {
    var c := Narrow(channel);
    if CHANNELS <= c || |s.channels| <= c || sid in s.channels[c] then s
    else s.(channels := s.channels[c := s.channels[c] + [sid]])
  }

  function IndexOf(xs: seq<nat>, x: nat): (i: nat)
    ensures i <= |xs| && x !in xs[..i] && (i < |xs| ==> xs[i] == x) && (i == |xs| ==> x !in xs)
  {
    if xs == [] || xs[0] == x then 0
    else
      var i := IndexOf(xs[1..], x) + 1;
      assert xs[..i] == [xs[0]] + xs[1..][..i - 1];
      i
  }

  /** Swap the element at the first occurrence of `x` with the last element, and pop. */
  function SwapPop(xs: seq<nat>, x: nat): seq<nat> {
    var i := IndexOf(xs, x);
    if i == |xs| then xs else xs[i := xs[|xs| - 1]][..|xs| - 1]
  }

  function DoDelete(s: Server, sid: nat): Server {
    if sid !in s.pool then s
    else
      s.(pool := s.pool - {sid},
         reusable := s.reusable + [sid],
         numSess := if s.numSess == 0 then 0 else s.numSess - 1,
         channels := seq(|s.channels|, c requires 0 <= c < |s.channels| => SwapPop(s.channels[c], sid)))
  }

  function DoDeleteAll(s: Server, order: seq<nat>): Server
    decreases |order|
  {
    if order == [] then s else DoDeleteAll(DoDelete(s, order[0]), order[1..])
  }

  function Do(s: Server, e: Event): Server {
    match e
    case Create => DoCreate(s)
    case Subscribe(sid, channel) => DoSubscribe(s, sid, channel)
    case Delete(sid) => DoDelete(s, sid)
    case DeleteAll(order) => DoDeleteAll(s, order)
    case Emit(_) => s
  }

  /** Only a session of the pool subscribes, and `delete_all` goes through the pool. */
  ghost predicate Allowed(s: Server, e: Event) {
    match e
    case Subscribe(sid, _) => sid in s.pool
    case DeleteAll(order) => s.pool == (set x | x in order)
    case _ => true
  }

  // ---------------------------------------------------------------------------
  // What every step keeps
  // ---------------------------------------------------------------------------

  ghost predicate GoodChannel(pool: set<nat>, xs: seq<nat>) {
    NoRepeats(xs) && forall x | x in xs :: x in pool
  }

  ghost predicate Ids(s: Server) {
    && NoRepeats(s.reusable) && (forall x | x in s.reusable :: x !in s.pool)
    && (forall i: nat :: i in s.pool || i in s.reusable <==> i < s.peak)
    && s.numSess == |s.pool| && s.peak == |s.pool| + |s.reusable|
  }

  ghost predicate Inv(s: Server) {
    && Ids(s) && |s.channels| == CHANNELS
    && forall c | 0 <= c < |s.channels| :: GoodChannel(s.pool, s.channels[c])
  }

  lemma SwapPopRemoves(xs: seq<nat>, x: nat)
    requires NoRepeats(xs)
    ensures NoRepeats(SwapPop(xs, x))
    ensures forall y :: y in SwapPop(xs, x) <==> y in xs && y != x
    ensures |SwapPop(xs, x)| == if x in xs then |xs| - 1 else |xs|
  {
    var i, n := IndexOf(xs, x), |xs|;
    var r := SwapPop(xs, x);
    if i < n {
      forall y | y in xs && y != x
        ensures y in r
      {
        var k :| 0 <= k < n && xs[k] == y;
        assert r[if k == n - 1 then i else k] == y;
      }
    }
  }

  lemma CreateKeeps(s: Server)
    requires Inv(s)
    ensures Inv(DoCreate(s)) && NewId(s) !in s.pool
    ensures forall c | 0 <= c < |s.channels| :: NewId(s) !in s.channels[c]
  {
    var id := NewId(s);
    if s.reusable == [] {
      assert id !in s.pool;
    } else {
      assert id in s.reusable;
      var init := s.reusable[..|s.reusable| - 1];
      assert s.reusable == init + [id];
    }
  }

  lemma SubscribeKeeps(s: Server, sid: nat, channel: nat)
    requires Inv(s) && sid in s.pool
    ensures Inv(DoSubscribe(s, sid, channel))
    ensures Narrow(channel) < CHANNELS ==> sid in DoSubscribe(s, sid, channel).channels[Narrow(channel)]
  {
  }

  /** A subscription adds the session to the end of its channel, once, and changes nothing else. */
  lemma SubscribeExactly(s: Server, sid: nat, channel: nat, c: nat)
    requires Inv(s) && sid in s.pool && c < 3
    ensures
      var r := DoSubscribe(s, sid, channel);
      && |r.channels| == 3 && s.channels[c] <= r.channels[c]
      && (forall y :: y in r.channels[c] <==> y in s.channels[c] || (c == channel % 0x1_0000 && y == sid))
      && r == s.(channels := r.channels)
  {
  }

  /** A channel that no one declared can subscribe to one that exists: 65536 is channel 0. */
  lemma ChannelIsNarrowed(s: Server, sid: nat)
    requires Inv(s) && sid in s.pool
    ensures CHANNELS <= 65536 && sid in DoSubscribe(s, sid, 65536).channels[0]
    ensures DoSubscribe(s, sid, 65536) == DoSubscribe(s, sid, 0)
  {
    SubscribeKeeps(s, sid, 65536);
  }

  lemma DeleteKeeps(s: Server, sid: nat)
    requires Inv(s)
    ensures Inv(DoDelete(s, sid))
    ensures forall c | 0 <= c < |s.channels| :: forall y ::
              y in DoDelete(s, sid).channels[c] <==> y in s.channels[c] && (sid in s.pool ==> y != sid)
  {
    if sid in s.pool {
      forall c | 0 <= c < |s.channels|
        ensures
          var r := SwapPop(s.channels[c], sid);
          GoodChannel(s.pool - {sid}, r) && forall y :: y in r <==> y in s.channels[c] && y != sid
      {
        SwapPopRemoves(s.channels[c], sid);
      }
    }
  }

  lemma DeletedPool(s: Server, sid: nat)
    ensures DoDelete(s, sid).pool == s.pool - {sid} && DoDelete(s, sid).peak == s.peak
  {
  }

  /** `delete_all` empties the pool, and brings the count of sessions back to zero. */
  lemma {:induction false} DeleteAllKeeps(s: Server, order: seq<nat>)
    requires Inv(s)
    ensures
      var r := DoDeleteAll(s, order);
      Inv(r) && r.pool == s.pool - (set x | x in order) && r.peak == s.peak
    decreases |order|
  {
    hide Inv;
    if order != [] {
      DeleteKeeps(s, order[0]);
      DeletedPool(s, order[0]);
      hide DoDelete;
      DeleteAllKeeps(DoDelete(s, order[0]), order[1..]);
      assert (set x | x in order) == {order[0]} + (set x | x in order[1..]);
    }
  }

  lemma DoKeeps(s: Server, e: Event)
    requires Inv(s) && Allowed(s, e)
    ensures
      var r := Do(s, e);
      && Inv(r) && r.peak == Max(s.peak, |r.pool|)
      && (e.DeleteAll? ==> r.pool == {} && r.numSess == 0)
  {
    match e
    case Create => CreateKeeps(s);
    case Subscribe(sid, channel) => SubscribeKeeps(s, sid, channel);
    case Delete(sid) => DeleteKeeps(s, sid);
    case DeleteAll(order) => DeleteAllKeeps(s, order);
    case Emit(_) =>
  }

  // ---------------------------------------------------------------------------
  // Whole runs
  // ---------------------------------------------------------------------------

  function Run(s: Server, es: seq<Event>): Server
    decreases |es|
  {
    if es == [] then s else Run(Do(s, es[0]), es[1..])
  }

  ghost predicate AllowedRun(s: Server, es: seq<Event>)
    decreases |es|
  {
    es != [] ==> Allowed(s, es[0]) && AllowedRun(Do(s, es[0]), es[1..])
  }

  /** The largest number of sessions live at once along a run. */
  function MostLive(s: Server, es: seq<Event>): nat
    decreases |es|
  {
    if es == [] then |s.pool| else Max(|s.pool|, MostLive(Do(s, es[0]), es[1..]))
  }

  lemma {:induction false} RunKeeps(s: Server, es: seq<Event>)
    requires Inv(s) && AllowedRun(s, es)
    ensures Inv(Run(s, es)) && Run(s, es).peak == Max(s.peak, MostLive(s, es))
    decreases |es|
  {
    hide Do, Allowed;
    if es != [] {
      DoKeeps(s, es[0]);
      RunKeeps(Do(s, es[0]), es[1..]);
    }
  }

  /**
   Every run: the live and the reusable ids are, without repeats, the numbers below the largest number of
   sessions ever live at once; the counter is the pool's size; a new session gets an id that is not in
   use and has no subscription; and every subscriber of every channel is a live session, listed once.
   */
  lemma EveryRun(es: seq<Event>)
    requires AllowedRun(INITIAL, es)
    ensures
      var s := Run(INITIAL, es);
      && (forall i: nat :: i in s.pool || i in s.reusable <==> i < MostLive(INITIAL, es))
      && NoRepeats(s.reusable) && (forall x | x in s.reusable :: x !in s.pool)
      && s.numSess == |s.pool|
      && NewId(s) !in s.pool
      && |s.channels| == CHANNELS
      && (forall c | 0 <= c < CHANNELS :: GoodChannel(s.pool, s.channels[c]) && NewId(s) !in s.channels[c])
  {
    hide Run, MostLive, AllowedRun, NewId;
    assert Inv(INITIAL);
    RunKeeps(INITIAL, es);
    CreateKeeps(Run(INITIAL, es));
  }

  // ---------------------------------------------------------------------------
  // The code
  // ---------------------------------------------------------------------------

  // ---------------------------------------------------------------------------
  // Who is on which channel, over a run
  // ---------------------------------------------------------------------------

  lemma {:induction false} RunSnoc(s: Server, es: seq<Event>, e: Event)
    ensures Run(s, es + [e]) == Do(Run(s, es), e)
    ensures AllowedRun(s, es + [e]) <==> AllowedRun(s, es) && Allowed(Run(s, es), e)
    decreases |es|
  {
    hide Do, Allowed;
    var all := es + [e];
    if es == [] {
      assert all == [e] && all[1..] == [];
    } else {
      assert all[0] == es[0] && all[1..] == es[1..] + [e];
      RunSnoc(Do(s, es[0]), es[1..], e);
    }
  }

  /** The state after the first `j` events. */
  ghost function After(es: seq<Event>, j: nat): Server
    requires j <= |es|
  {
    Run(INITIAL, es[..j])
  }

  /** Event `i` subscribed the session to channel `c`, and the session has been live ever since. */
  ghost predicate SubscribedAt(es: seq<Event>, id: nat, c: nat, i: nat) {
    && i < |es| && es[i].Subscribe? && es[i].sid == id && es[i].channel % 0x1_0000 == c
    && forall j | i < j <= |es| :: id in After(es, j).pool
  }

  ghost predicate SubscribedSince(es: seq<Event>, id: nat, c: nat) { exists i: nat :: SubscribedAt(es, id, c, i) }

  lemma SinceSnoc(es: seq<Event>, e: Event, id: nat, c: nat)
    requires id in Do(Run(INITIAL, es), e).pool && After(es + [e], |es| + 1) == Do(Run(INITIAL, es), e)
    requires c < 3 && (e.Subscribe? ==> id in Run(INITIAL, es).pool)
    ensures
      SubscribedSince(es + [e], id, c) <==>
      || (e.Subscribe? && e.sid == id && e.channel % 0x1_0000 == c)
      || (id in Run(INITIAL, es).pool && SubscribedSince(es, id, c))
  {
    hide Run, Do;
    var all := es + [e];
    assert es[..|es|] == es;
    forall j | 0 <= j <= |es|
      ensures After(all, j) == After(es, j)
    {
      assert all[..j] == es[..j];
    }
    if e.Subscribe? && e.sid == id && e.channel % 0x1_0000 == c {
      assert SubscribedAt(all, id, c, |es|);
    }
    if SubscribedSince(es, id, c) && id in Run(INITIAL, es).pool {
      var i: nat :| SubscribedAt(es, id, c, i);
      assert all[i] == es[i];
      assert SubscribedAt(all, id, c, i);
    }
    if SubscribedSince(all, id, c) {
      var i: nat :| SubscribedAt(all, id, c, i);
      if i < |es| {
        assert all[i] == es[i];
        assert SubscribedAt(es, id, c, i);
        assert id in After(all, |es|).pool;
      }
    }
  }

  /** What one event does to a session that is live after it. */
  lemma OnChannelAfter(s: Server, e: Event, id: nat, c: nat)
    requires Inv(s) && Allowed(s, e) && id in Do(s, e).pool && c < 3
    ensures |Do(s, e).channels| == 3
    ensures
      id in Do(s, e).channels[c] <==>
      || (e.Subscribe? && e.sid == id && e.channel % 0x1_0000 == c)
      || (id in s.pool && id in s.channels[c])
    ensures e.Subscribe? ==> id in s.pool
  {
    hide Ids;
    assert GoodChannel(s.pool, s.channels[c]);
    match e
    case Create => CreateKeeps(s);
    case Subscribe(sid, channel) => SubscribeExactly(s, sid, channel, c);
    case Delete(sid) => DeleteKeeps(s, sid);
    case DeleteAll(order) =>
      DeleteAllKeeps(s, order);
    case Emit(_) =>
  }

  /**
   After every run: a live session is on a channel exactly when it subscribed to it since it was last
   created.
   */
  lemma {:induction false} OnChannelExactly(es: seq<Event>, id: nat, c: nat)
    requires AllowedRun(INITIAL, es) && id in Run(INITIAL, es).pool && c < 3
    ensures |Run(INITIAL, es).channels| == 3
    ensures id in Run(INITIAL, es).channels[c] <==> SubscribedSince(es, id, c)
    decreases |es|
  {
    hide Do, Allowed, SubscribedSince, Inv;
    if es != [] {
      var n := |es| - 1;
      var init, e := es[..n], es[n];
      assert es == init + [e];
      RunSnoc(INITIAL, init, e);
      assert es[..|es|] == es;
      InitialIsGood();
      RunKeeps(INITIAL, init);
      OnChannelAfter(Run(INITIAL, init), e, id, c);
      SinceSnoc(init, e, id, c);
      if id in Run(INITIAL, init).pool {
        OnChannelExactly(init, id, c);
      }
    }
  }

  lemma InitialIsGood()
    ensures Inv(INITIAL)
  {
  }

  /** The id that was deleted last is the one that is used next. */
  lemma LastDeletedIsNext(s: Server, sid: nat)
    requires sid in s.pool
    ensures NewId(DoDelete(s, sid)) == sid
  {
  }

  class Manager {
    var pool: map<nat, int>        // session id to socket
    var reusable: seq<nat>
    var numSess: nat
    const subscribers: array<seq<nat>>
    ghost var peak: nat

    ghost function Value(): Server
      reads this, subscribers
    {
      Server(pool.Keys, reusable, numSess, subscribers[..], peak)
    }

    constructor ()
      ensures Value() == INITIAL && fresh(subscribers)
    {
      pool, reusable, numSess, peak := map[], [], 0, 0;
      subscribers := new seq<nat>[3](_ => []);
      new;
      assert subscribers[..] == [[], [], []];
    }

    /** `create_session`. */
    method CreateSession(socket: int) returns (id: nat)
      requires Inv(Value())
      modifies this
      ensures id == NewId(old(Value())) && Value() == DoCreate(old(Value()))
      ensures id !in old(pool) && id in pool
      ensures Inv(Value())
    {
      CreateKeeps(Value());
      if |reusable| == 0 {
        id := numSess;
      } else {
        id := reusable[|reusable| - 1];
        reusable := reusable[..|reusable| - 1];
      }
      pool := pool[id := socket];
      numSess := numSess + 1;
      peak := if peak < |pool.Keys| then |pool.Keys| else peak;
    }

    /** `std::find`. */
    method Find(xs: seq<nat>, x: nat) returns (i: nat)
      ensures i == IndexOf(xs, x)
    {
      i := 0;
      while i < |xs| && xs[i] != x
        invariant i <= |xs| && IndexOf(xs, x) == i + IndexOf(xs[i..], x)
      {
        assert xs[i..][1..] == xs[i + 1..];
        i := i + 1;
      }
    }

    /** `Subscribers::subscribe`, reached with the narrowed channel of SUBSCRIBE_PUBSUB. */
    method SubscribeTo(channel: nat, sid: nat) returns (r: int)
      requires Inv(Value()) && sid in pool
      modifies subscribers
      ensures Value() == DoSubscribe(old(Value()), sid, channel) && Inv(Value())
      ensures r == if channel % 0x1_0000 < 3 then 0 else -1
      ensures forall c | 0 <= c < 3 ::
                && old(subscribers[c]) <= subscribers[c]
                && forall y :: y in subscribers[c] <==> y in old(subscribers[c]) || (c == channel % 0x1_0000 && y == sid)
    {
      SubscribeKeeps(Value(), sid, channel);
      var c := Narrow(channel);
      if c >= CHANNELS {
        return -1;
      }
      var i := Find(subscribers[c], sid);
      if i == |subscribers[c]| {
        subscribers[c] := subscribers[c] + [sid];
      }
      return 0;
    }

    /** `Subscribers::unsubscribe`. */
    method Unsubscribe(sid: nat)
      modifies subscribers
      ensures subscribers[..] == seq(subscribers.Length, c requires 0 <= c < subscribers.Length =>
                                       SwapPop(old(subscribers[..])[c], sid))
    {
      ghost var before := subscribers[..];
      for c := 0 to subscribers.Length
        invariant forall k | 0 <= k < c :: subscribers[k] == SwapPop(before[k], sid)
        invariant forall k | c <= k < subscribers.Length :: subscribers[k] == before[k]
      {
        var s := subscribers[c];
        var i := Find(s, sid);
        if i < |s| {
          s := s[i := s[|s| - 1]];
          subscribers[c] := s[..|s| - 1];
        }
      }
    }

    /** `delete_session`. */
    method DeleteSession(id: nat)
      requires Inv(Value())
      modifies this, subscribers
      ensures Value() == DoDelete(old(Value()), id) && Inv(Value())
    {
      DeleteKeeps(Value(), id);
      if id !in pool {
        return;
      }
      Unsubscribe(id);
      pool := pool - {id};
      reusable := reusable + [id];
      numSess := numSess - 1;
    }

    /** `delete_all`, whatever the order in which the pool is gone through. */
    method DeleteAllSessions() returns (ghost order: seq<nat>)
      requires Inv(Value())
      modifies this, subscribers
      ensures old(Value()).pool == (set x | x in order) && Value() == DoDeleteAll(old(Value()), order)
      ensures Inv(Value()) && pool == map[] && numSess == 0
    {
      ghost var s := Value();
      var rest := pool.Keys;
      order := [];
      while rest != {}
        invariant Inv(Value()) && rest == pool.Keys
        invariant s.pool == rest + (set x | x in order) && Value() == DoDeleteAll(s, order)
        decreases rest
      {
        var id :| id in rest;
        DeleteAllSnoc(s, order, id);
        DeleteSession(id);
        order := order + [id];
        rest := rest - {id};
      }
      assert pool.Keys == {};
    }

    /** `PubSub::emit`: every lookup finds a session; the result is the last error, or zero. */
    method Emit(channel: nat, interrupted: bool, send: (nat, int) -> int)
      returns (err: int, sent: seq<nat>)
      requires Inv(Value()) && channel < CHANNELS
      ensures sent == if interrupted then [] else subscribers[channel]
      ensures err == LastError(sent, pool, send) && forall x | x in sent :: x in pool
    {
      err, sent := 0, [];
      if interrupted {
        return;
      }
      assert GoodChannel(pool.Keys, subscribers[..][channel]);
      for i := 0 to |subscribers[channel]|
        invariant sent == subscribers[channel][..i]
        invariant err == LastError(sent, pool, send)
      {
        var sid := subscribers[channel][i];
        assert sid in subscribers[channel];
        var r := send(sid, pool[sid]);
        assert (sent + [sid])[..|sent|] == sent;
        sent := sent + [sid];
        if r < 0 {
          err := r;
        }
      }
    }

    /**
     `PubSub::emit` of a formatted string, which `snprintf` says has `ret` characters. Nothing is sent when
     the server is interrupted, nor when formatting fails or the buffer is too small.
     */
    method EmitText(channel: nat, interrupted: bool, ret: int, send: (nat, int) -> int)
      returns (err: int, sent: seq<nat>)
      requires Inv(Value()) && channel < CHANNELS
      ensures sent == if interrupted || ret < 0 || 1024 <= ret then [] else subscribers[channel]
      ensures !interrupted && (ret < 0 || 1024 <= ret) ==> err == -1
      ensures interrupted || 0 <= ret < 1024 ==> err == LastError(sent, pool, send)
      ensures forall x | x in sent :: x in pool
    {
      if !interrupted && (ret < 0 || FMT_BUFF_LEN <= ret) {
        return -1, [];
      }
      err, sent := Emit(channel, interrupted, send);
    }
  }

  /** The size of the buffer for formatted messages. */
  const FMT_BUFF_LEN: int := 1024

  function LastError(sent: seq<nat>, pool: map<nat, int>, send: (nat, int) -> int): int {
    if sent == [] then 0
    else
      var sid := sent[|sent| - 1];
      var r := if sid in pool then send(sid, pool[sid]) else 0;
      if r < 0 then r else LastError(sent[..|sent| - 1], pool, send)
  }

  /** The error returned is that of the last session for which sending failed, and zero when none did. */
  lemma {:induction false} LastErrorIs(sent: seq<nat>, pool: map<nat, int>, send: (nat, int) -> int, i: nat)
    requires i <= |sent| && forall x | x in sent :: x in pool
    requires forall k | i <= k < |sent| :: 0 <= send(sent[k], pool[sent[k]])
    requires 0 < i ==> send(sent[i - 1], pool[sent[i - 1]]) < 0
    ensures LastError(sent, pool, send) == if i == 0 then 0 else send(sent[i - 1], pool[sent[i - 1]])
    decreases |sent|
  {
    if i < |sent| {
      LastErrorIs(sent[..|sent| - 1], pool, send, i);
    }
  }

  lemma {:induction false} DeleteAllSnoc(s: Server, order: seq<nat>, id: nat)
    ensures DoDeleteAll(s, order + [id]) == DoDelete(DoDeleteAll(s, order), id)
    decreases |order|
  {
    hide DoDelete;
    if order == [] {
      assert order + [id] == [id];
      assert [id][1..] == [];
    } else {
      assert (order + [id])[1..] == order[1..] + [id];
      DeleteAllSnoc(DoDelete(s, order[0]), order[1..], id);
    }
  }
}
