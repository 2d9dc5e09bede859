/**
 * The registry of handles: which environments are live, which connections each of them lists, and which connections
 * are open, over every history of allocating, connecting, disconnecting and freeing.
 *
 * Handles are addresses of any type; the allocator may reuse the address of a freed object.
 */
module HandleRegistry {
  import opened OdbcTypes

  /**
   * `envs` is the global list of environments and `lists` the connection list of each; `owner` gives the environment
   * of each live connection and `open` the live connections whose native connection is open.
   */
  datatype World<!E(==), !C(==)> = World(envs: seq<E>, lists: map<E, seq<C>>, owner: map<C, E>, open: set<C>)

  function EmptyWorld<E(==), C(==)>(): World<E, C> {
    World([], map[], map[], {})
  }

  /** The loop that erases the first matching element of a vector, if there is one. */
  function RemoveFirst<T(==)>(s: seq<T>, x: T): seq<T> {
    if s == [] then [] else if s[0] == x then s[1..] else [s[0]] + RemoveFirst(s[1..], x)
  }

  lemma DistinctAppend<T>(s: seq<T>, t: seq<T>)
    requires Distinct(s) && Distinct(t) && forall x :: x in s ==> x !in t
    ensures Distinct(s + t)
  {
    forall i, j | 0 <= i < j < |s + t|
      ensures (s + t)[i] != (s + t)[j]
    {
      if i < |s| <= j {
        assert (s + t)[i] in s && (s + t)[j] in t;
      }
    }
  }

  /** The same members but one. */
  predicate Without<T(==)>(r: seq<T>, s: seq<T>, x: T) {
    (forall y :: y in r ==> y in s && y != x) && (forall y :: y in s && y != x ==> y in r)
  }

  lemma {:induction false} RemoveFirstRemoves<T>(s: seq<T>, x: T)
    requires Distinct(s)
    ensures Distinct(RemoveFirst(s, x))
    ensures Without(RemoveFirst(s, x), s, x)
  {
    if s != [] {
      assert s == [s[0]] + s[1..] && s[0] !in s[1..];
      if s[0] != x {
        RemoveFirstRemoves(s[1..], x);
        DistinctAppend([s[0]], RemoveFirst(s[1..], x));
      }
    }
  }

  lemma {:induction false} RemoveFirstAt<T>(s: seq<T>, x: T, i: nat)
    requires i < |s| && s[i] == x && x !in s[..i]
    ensures RemoveFirst(s, x) == s[..i] + s[i + 1..]
    decreases i
  {
    if i > 0 {
      assert s[0] == s[..i][0];
      assert s[1..][..i - 1] == s[..i][1..];
      RemoveFirstAt(s[1..], x, i - 1);
      assert s[..i] == [s[0]] + s[1..][..i - 1];
    }
  }

  lemma {:induction false} RemoveFirstNothing<T>(s: seq<T>, x: T)
    requires x !in s
    ensures RemoveFirst(s, x) == s
  {
    if s != [] {
      RemoveFirstNothing(s[1..], x);
      assert s == [s[0]] + s[1..];
    }
  }

  /** A call of the driver, with the allocator's or the server's part of it. None is a null handle. */
  datatype Op<!E, !C> =
    | NewEnvironment(env: E)
    | FreeEnvironment(envHandle: Option<E>)
    | NewConnection(parent: Option<E>, conn: C)
    | FreeConnection(connHandle: Option<C>, recorded: bool)
    | Open(target: C, reached: bool, replay: Code)
    | Close(target: C, native: Closing)

  /** Objects are made at addresses no live object has, and handles passed in are live or null. */
  predicate Allowed<E, C>(w: World<E, C>, op: Op<E, C>) {
    match op
    case NewEnvironment(e) => e !in w.lists
    case FreeEnvironment(h) => h.Some? ==> h.value in w.lists
    case NewConnection(p, c) => c !in w.owner && (p.Some? ==> p.value in w.lists)
    case FreeConnection(h, _) => h.Some? ==> h.value in w.owner
    case Open(c, _, _) => c in w.owner
    case Close(c, _) => c in w.owner
  }

  function ListOf<E, C>(w: World<E, C>, e: E): seq<C> {
    if e in w.lists then w.lists[e] else []
  }

  function FreeEnvironmentStep<E, C>(w: World<E, C>, e: E): (World<E, C>, Code) {
    if |ListOf(w, e)| > 0 then (w, Error)
    else (w.(envs := RemoveFirst(w.envs, e), lists := w.lists - {e}), Success)
  }

  function NewConnectionStep<E, C>(w: World<E, C>, e: E, c: C): World<E, C> {
    w.(lists := w.lists[e := ListOf(w, e) + [c]], owner := w.owner[c := e])
  }

  /**
   * The environment's list is searched; whether or not the connection is found there, it is deleted. An error that the
   * destructor has recorded is reported afterwards.
   */
  function FreeConnectionStep<E, C>(w: World<E, C>, c: C, recorded: bool): (World<E, C>, Code)
    requires c in w.owner
  {
    if c in w.open then (w, Error)
    else
      var e := w.owner[c];
      (w.(lists := w.lists[e := RemoveFirst(ListOf(w, e), c)], owner := w.owner - {c}),
       if recorded then Error else Success)
  }

  function Step<E, C>(w: World<E, C>, op: Op<E, C>): (World<E, C>, Code)
    requires Allowed(w, op)
  {
    match op
    case NewEnvironment(e) => (w.(envs := w.envs + [e], lists := w.lists[e := []]), Success)
    case FreeEnvironment(None) => (w, InvalidHandle)
    case FreeEnvironment(Some(e)) => FreeEnvironmentStep(w, e)
    case NewConnection(None, _) => (w, InvalidHandle)
    case NewConnection(Some(e), c) =>
      (NewConnectionStep(w, e, c), Success)
    case FreeConnection(None, _) => (w, InvalidHandle)
    case FreeConnection(Some(c), recorded) => FreeConnectionStep(w, c, recorded)
    case Open(c, reached, replay) =>
      if c in w.open || !reached then (w, Error) else (w.(open := w.open + {c}), replay)
    case Close(c, native) =>
      if c !in w.open then (w, Error)
      else if native.ThrowsOpen? then (w, Error)
      else (w.(open := w.open - {c}), if native.Closes? then Success else Error)
  }

  predicate AllowedRun<E, C>(w: World<E, C>, ops: seq<Op<E, C>>)
    decreases |ops|
  {
    ops == [] || (Allowed(w, ops[0]) && AllowedRun(Step(w, ops[0]).0, ops[1..]))
  }

  function Run<E, C>(w: World<E, C>, ops: seq<Op<E, C>>): World<E, C>
    requires AllowedRun(w, ops)
    decreases |ops|
  {
    if ops == [] then w else Run(Step(w, ops[0]).0, ops[1..])
  }

  // ----- the invariant -----

  /** Each live connection stands once in the list of its own environment, and nothing else is listed anywhere. */
  ghost predicate Listed<E, C>(w: World<E, C>) {
    && (forall e :: e in w.lists ==> Distinct(w.lists[e]))
    && (forall e, c :: e in w.lists && c in w.lists[e] ==> c in w.owner && w.owner[c] == e)
    && (forall c :: c in w.owner ==> c in ListOf(w, w.owner[c]))
  }

  /** The global list holds each live environment once, and nothing else. */
  ghost predicate Registered<E, C>(w: World<E, C>) {
    && Distinct(w.envs)
    && (forall e :: e in w.envs ==> e in w.lists)
    && (forall e :: e in w.lists ==> e in w.envs)
  }

  /** No live connection outlives its environment, and only live connections are open. */
  ghost predicate Nested<E, C>(w: World<E, C>) {
    && (forall c :: c in w.owner ==> w.owner[c] in w.lists)
    && (forall c :: c in w.open ==> c in w.owner)
  }

  ghost predicate Consistent<E, C>(w: World<E, C>) {
    Listed(w) && Registered(w) && Nested(w)
  }

  lemma NewConnectionListed<E, C>(w: World<E, C>, e: E, c: C)
    requires Listed(w) && e in w.lists && c !in w.owner
    ensures Listed(NewConnectionStep(w, e, c))
  {
    var r := NewConnectionStep(w, e, c);
    assert forall d :: d in w.owner ==> d in ListOf(w, w.owner[d]);
    DistinctAppend(ListOf(w, e), [c]);
  }

  lemma FreeConnectionListed<E, C>(w: World<E, C>, c: C, recorded: bool)
    requires Listed(w) && Nested(w) && c in w.owner
    ensures Listed(FreeConnectionStep(w, c, recorded).0)
  {
    hide RemoveFirst, Distinct;
    RemoveFirstRemoves(w.lists[w.owner[c]], c);
    assert forall d :: d in w.owner ==> d in ListOf(w, w.owner[d]);
  }

  lemma StepListed<E, C>(w: World<E, C>, op: Op<E, C>)
    requires Consistent(w) && Allowed(w, op)
    ensures Listed(Step(w, op).0)
  {
    hide Registered, FreeConnectionStep, NewConnectionStep;
    match op
    case NewConnection(Some(e), c) => NewConnectionListed(w, e, c);
    case FreeConnection(Some(c), recorded) => FreeConnectionListed(w, c, recorded);
    case _ =>
  }

  lemma StepRegistered<E, C>(w: World<E, C>, op: Op<E, C>)
    requires Registered(w) && Nested(w) && Allowed(w, op)
    ensures Registered(Step(w, op).0)
  {
    hide RemoveFirst;
    if op.FreeEnvironment? && op.envHandle.Some? {
      RemoveFirstRemoves(w.envs, op.envHandle.value);
    }
    if op.NewEnvironment? {
      DistinctAppend(w.envs, [op.env]);
    }
  }

  /** An environment lists no connection exactly when no live connection belongs to it. */
  lemma NoConnectionsIff<E, C>(w: World<E, C>, e: E)
    requires Listed(w) && e in w.lists
    ensures w.lists[e] == [] <==> forall c :: c in w.owner ==> w.owner[c] != e
  {
    if w.lists[e] != [] {
      assert w.lists[e][0] in w.lists[e] && w.owner[w.lists[e][0]] == e;
    } else {
      forall c | c in w.owner
        ensures w.owner[c] != e
      {
        assert c in ListOf(w, w.owner[c]);
      }
    }
  }

  lemma StepNested<E, C>(w: World<E, C>, op: Op<E, C>)
    requires Consistent(w) && Allowed(w, op)
    ensures Nested(Step(w, op).0)
  {
    hide Registered, RemoveFirst, Listed;
    if op.FreeEnvironment? && op.envHandle.Some? {
      NoConnectionsIff(w, op.envHandle.value);
    }
  }

  lemma StepConsistent<E, C>(w: World<E, C>, op: Op<E, C>)
    requires Consistent(w) && Allowed(w, op)
    ensures Consistent(Step(w, op).0)
  {
    hide Listed, Registered, Nested, Step;
    StepListed(w, op);
    StepRegistered(w, op);
    StepNested(w, op);
  }

  /**
   * After every history each live connection stands exactly once in the list of its own environment and in no other
   * list, each live environment once in the global list, and no live connection outlives its environment.
   */
  lemma {:induction false} HistoryConsistent<E, C>(w: World<E, C>, ops: seq<Op<E, C>>)
    requires Consistent(w) && AllowedRun(w, ops)
    ensures Consistent(Run(w, ops))
    decreases |ops|
  {
    hide Consistent, Step;
    if ops != [] {
      StepConsistent(w, ops[0]);
      HistoryConsistent(Step(w, ops[0]).0, ops[1..]);
    }
  }

  lemma EmptyConsistent<E, C>()
    ensures Consistent(EmptyWorld<E, C>())
  {
  }

  lemma OwnerLive<E, C>(w: World<E, C>, c: C)
    requires Consistent(w) && c in w.owner
    ensures w.owner[c] in w.lists
  {
  }

  /** What a call takes away was not in use: a closed connection, or an environment no live connection belongs to. */
  ghost predicate FreesUnused<E, C>(w: World<E, C>, op: Op<E, C>, r: World<E, C>) {
    && (forall c :: c in w.owner && c !in r.owner ==> c !in w.open && op.FreeConnection? && op.connHandle == Some(c))
    && (forall e :: e in w.lists && e !in r.lists ==>
          op == FreeEnvironment(Some(e)) && forall c :: c in w.owner ==> w.owner[c] != e)
  }

  lemma StepFreesUnused<E, C>(w: World<E, C>, op: Op<E, C>)
    requires Consistent(w) && Allowed(w, op)
    ensures FreesUnused(w, op, Step(w, op).0)
  {
    hide RemoveFirst, Registered, Distinct, Listed;
    if op.FreeEnvironment? && op.envHandle.Some? {
      NoConnectionsIff(w, op.envHandle.value);
    }
  }

  /** Over every history from the empty registry, no call deletes an open connection or an environment in use. */
  lemma NothingInUseIsFreed<E, C>(ops: seq<Op<E, C>>, op: Op<E, C>)
    requires AllowedRun(EmptyWorld<E, C>(), ops) && Allowed(Run(EmptyWorld(), ops), op)
    ensures FreesUnused(Run(EmptyWorld(), ops), op, Step(Run(EmptyWorld(), ops), op).0)
  {
    hide Run, Step, FreesUnused, Consistent, AllowedRun;
    EmptyConsistent<E, C>();
    HistoryConsistent(EmptyWorld<E, C>(), ops);
    StepFreesUnused(Run(EmptyWorld<E, C>(), ops), op);
  }

  /**
   * Freeing an environment succeeds exactly when every connection made in it has been freed; then it is gone and all
   * others keep their place, and otherwise nothing changes.
   */
  lemma FreeEnvironmentIff<E, C>(w: World<E, C>, e: E)
    requires Consistent(w) && e in w.lists
    ensures Step(w, FreeEnvironment(Some(e))).1 == Success <==> forall c :: c in w.owner ==> w.owner[c] != e
    ensures var (r, code) := Step(w, FreeEnvironment(Some(e)));
            if code == Success then r == w.(envs := r.envs, lists := w.lists - {e}) && TakenOut(r.envs, w.envs, e)
            else (r, code) == (w, Error)
  {
    NoConnectionsIff(w, e);
    assert Registered(w);
    TakenOutOnce(w.envs, e);
  }

  /** One element is taken out of a list and is not in it any more; all others keep their place. */
  ghost predicate TakenOut<T>(r: seq<T>, s: seq<T>, x: T) {
    x !in r && exists i :: 0 <= i < |s| && s[i] == x && r == s[..i] + s[i + 1..]
  }

  lemma TakenOutOnce<T>(s: seq<T>, x: T)
    requires Distinct(s) && x in s
    ensures TakenOut(RemoveFirst(s, x), s, x)
  {
    var i :| 0 <= i < |s| && s[i] == x;
    assert x !in s[..i];
    RemoveFirstAt(s, x, i);
    RemoveFirstRemoves(s, x);
  }

  /** A new environment is live, last in the list of environments and without connections; null handles are refused. */
  lemma NewEnvironmentLive<E, C>(w: World<E, C>, e: E, c: C, recorded: bool)
    requires e !in w.lists && c !in w.owner
    ensures var (r, code) := Step(w, NewEnvironment(e));
            code == Success && r == w.(envs := w.envs + [e], lists := r.lists) && r.lists == w.lists[e := []]
    ensures Step(w, FreeEnvironment(None)) == Step(w, NewConnection(None, c)) == Step(w, FreeConnection(None, recorded))
         == (w, InvalidHandle)
  {
  }

  /**
   * Freeing a connection succeeds exactly when it is closed and its destructor records no error. Whatever it records, a
   * closed connection is deleted, and an open one is not; its environment's list always has it, it is in no list
   * afterwards, and every other connection keeps its place.
   */
  lemma FreeConnectionIff<E, C>(w: World<E, C>, c: C, recorded: bool)
    requires Consistent(w) && c in w.owner
    ensures Step(w, FreeConnection(Some(c), recorded)).1 == Success <==> c !in w.open && !recorded
    ensures c in w.lists[w.owner[c]]
    ensures var r := Step(w, FreeConnection(Some(c), recorded)).0;
            && (c in w.open ==> r == w)
            && (c !in w.open ==>
                  && r == w.(owner := w.owner - {c}, lists := r.lists) && r.lists.Keys == w.lists.Keys
                  && forall e :: e in r.lists ==>
                       if e == w.owner[c] then TakenOut(r.lists[e], w.lists[e], c)
                       else c !in r.lists[e] && r.lists[e] == w.lists[e])
  {
    hide RemoveFirst, Distinct, TakenOut;
    var e := w.owner[c];
    assert c in ListOf(w, e);
    TakenOutOnce(w.lists[e], c);
  }

  // ----- what is open -----

  /** A call that reaches the server for this connection, and one that closes it. */
  predicate Opens<E(==), C(==)>(op: Op<E, C>, c: C) {
    op.Open? && op.target == c && op.reached
  }

  predicate Shuts<E(==), C(==)>(op: Op<E, C>, c: C) {
    op.Close? && op.target == c && op.native != ThrowsOpen
  }

  /** The last call that opened or closed the connection has opened it. */
  predicate LastOpened<E(==), C(==)>(ops: seq<Op<E, C>>, c: C) {
    exists i :: 0 <= i < |ops| && Opens(ops[i], c) && forall j :: i < j < |ops| ==> !Shuts(ops[j], c)
  }

  lemma StepOpen<E, C>(w: World<E, C>, op: Op<E, C>, c: C)
    requires Allowed(w, op)
    ensures c in Step(w, op).0.open <==> Opens(op, c) || (c in w.open && !Shuts(op, c))
  {
  }

  lemma {:induction false} OpenAfter<E, C>(w: World<E, C>, ops: seq<Op<E, C>>, c: C)
    requires AllowedRun(w, ops)
    ensures c in Run(w, ops).open <==>
      LastOpened(ops, c) || (c in w.open && forall j :: 0 <= j < |ops| ==> !Shuts(ops[j], c))
    decreases |ops|
  {
    hide Step, Opens, Shuts;
    if ops != [] {
      var rest := ops[1..];
      StepOpen(w, ops[0], c);
      OpenAfter(Step(w, ops[0]).0, rest, c);
      assert forall j :: 0 <= j < |rest| ==> rest[j] == ops[j + 1];
      if i :| 0 <= i < |rest| && Opens(rest[i], c) && forall j :: i < j < |rest| ==> !Shuts(rest[j], c) {
        assert Opens(ops[i + 1], c) && forall j :: i + 1 < j < |ops| ==> !Shuts(ops[j], c);
      }
      if i :| 0 <= i < |ops| && Opens(ops[i], c) && forall j :: i < j < |ops| ==> !Shuts(ops[j], c) {
        if i > 0 {
          assert Opens(rest[i - 1], c) && forall j :: i - 1 < j < |rest| ==> !Shuts(rest[j], c);
        }
      }
    }
  }

  /**
   * Over every history a connection is open exactly when the last call that opened or closed it opened it; opening
   * succeeds only if it was closed and the server was reached, and closing only if it was open.
   */
  lemma OpenIffLastOpened<E, C>(ops: seq<Op<E, C>>, c: C, reached: bool, replay: Code, native: Closing)
    requires AllowedRun(EmptyWorld<E, C>(), ops) && c in Run(EmptyWorld<E, C>(), ops).owner
    ensures var w := Run(EmptyWorld<E, C>(), ops);
            && (c in w.open <==> LastOpened(ops, c))
            && Step(w, Open(c, reached, replay)).1 == (if reached && !LastOpened(ops, c) then replay else Error)
            && (Step(w, Close(c, native)).1 == Success <==> LastOpened(ops, c) && native == Closes)
  {
    hide Run, LastOpened;
    OpenAfter(EmptyWorld<E, C>(), ops, c);
  }

  /** A new connection is live, closed and last in the list of its environment; nothing else changes. */
  lemma NewConnectionLive<E, C>(w: World<E, C>, e: E, c: C)
    requires Consistent(w) && e in w.lists && c !in w.owner
    ensures var (r, code) := Step(w, NewConnection(Some(e), c));
            && code == Success && r.owner == w.owner[c := e] && c !in r.open && r.open == w.open && r.envs == w.envs
            && r.lists == w.lists[e := w.lists[e] + [c]]
  {
    hide Listed, Registered;
  }

  // ----- an operation on every active connection of an environment -----

  /** The connections forEachActiveConnection visits, in order. */
  function Visited<C(==)>(open: set<C>, s: seq<C>): seq<C> {
    if s == [] then [] else (if s[0] in open then [s[0]] else []) + Visited(open, s[1..])
  }

  /** How one more result changes the overall code. */
  function Combine(sofar: Code, code: Code): Code {
    match code
    case Success => sofar
    case Error => Error
    case SuccessWithInfo => if sofar == Success then SuccessWithInfo else sofar
    case _ => if sofar != Error then code else sofar
  }

  function Overall(codes: seq<Code>): Code {
    if codes == [] then Success else Combine(Overall(codes[..|codes| - 1]), codes[|codes| - 1])
  }

  lemma OverallAppend(codes: seq<Code>, code: Code)
    ensures Overall(codes + [code]) == Combine(Overall(codes), code)
  {
    assert (codes + [code])[..|codes|] == codes;
  }

  lemma {:induction false} VisitedCounts<C>(open: set<C>, s: seq<C>, c: C)
    ensures multiset(Visited(open, s))[c] == if c in open then multiset(s)[c] else 0
  {
    if s != [] {
      VisitedCounts(open, s[1..], c);
      assert s == [s[0]] + s[1..];
      var head: seq<C> := if s[0] in open then [s[0]] else [];
      assert multiset(head + Visited(open, s[1..]))[c] == multiset(head)[c] + multiset(Visited(open, s[1..]))[c];
    }
  }

  lemma {:induction false} DistinctCount<T>(s: seq<T>, x: T)
    requires Distinct(s)
    ensures multiset(s)[x] == if x in s then 1 else 0
  {
    if s != [] {
      DistinctCount(s[1..], x);
      assert s == [s[0]] + s[1..];
      assert s[0] !in s[1..];
    }
  }

  /** After every history, each open connection of the environment is visited exactly once, and nothing else is. */
  lemma EveryActiveVisitedOnce<E, C>(ops: seq<Op<E, C>>, e: E, c: C)
    requires AllowedRun(EmptyWorld<E, C>(), ops) && e in Run(EmptyWorld<E, C>(), ops).lists
    ensures
      var w := Run(EmptyWorld<E, C>(), ops);
      var visits := multiset(Visited(w.open, w.lists[e]))[c];
      visits == if c in w.owner && w.owner[c] == e && c in w.open then 1 else 0
  {
    hide Run, Registered;
    var w := Run(EmptyWorld<E, C>(), ops);
    EmptyConsistent<E, C>();
    HistoryConsistent(EmptyWorld<E, C>(), ops);
    VisitedCounts(w.open, w.lists[e], c);
    DistinctCount(w.lists[e], c);
  }

  /** The result is an error iff some visit was, and success iff all were; information never hides anything else. */
  lemma {:induction false} OverallMeans(codes: seq<Code>)
    ensures Overall(codes) == Error <==> Error in codes
    ensures Overall(codes) == Success <==> forall k :: 0 <= k < |codes| ==> codes[k] == Success
    ensures Overall(codes) == SuccessWithInfo <==>
      SuccessWithInfo in codes && forall k :: 0 <= k < |codes| ==> codes[k] in {Success, SuccessWithInfo}
    ensures forall x :: x in {NeedData, NoData, InvalidHandle} && Overall(codes) == x ==> x in codes && Error !in codes
    decreases |codes|
  {
    if codes != [] {
      var n := |codes| - 1;
      OverallMeans(codes[..n]);
      assert codes == codes[..n] + [codes[n]];
      assert forall x :: x in codes <==> x in codes[..n] || x == codes[n];
    }
  }
}
