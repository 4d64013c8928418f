/** The pooled index client (pkg/gunkan/index_client_pooled.go): a channel of tokens, each a permission to
    dial, and a channel of idle clients. Any number of requests run at once; each action is one step of
    one of them, in any interleaving. */
module ClientPool {
  import opened Sums

  const INDEX_CLIENT_POOL_SIZE: nat := 2

  /** Where a request stands in `acquire`, and after it. */
  datatype Req =
    | Arrived           // about to look at the idle clients
    | Asking            // found none, about to ask for a token
    | Dialing
    | Waiting           // found no token, waits for an idle client or for the end of its context
    | Holding(client: nat)
    | Refused           // has no client but an error
    | Gone

  /** Clients are numbered in the order they were dialed. */
  datatype Pool = Pool(tokens: nat, idle: seq<nat>, dialed: nat, failed: nat, reqs: seq<Req>)

  ghost function Init(size: nat): Pool {
    Pool(size, [], 0, 0, [])
  }

  datatype Action =
    | Arrive
    | Reuse(r: nat) | FindNone(r: nat)
    | GetToken(r: nat) | NoToken(r: nat)
    | DialOk(r: nat) | DialFails(r: nat)
    | Obtain(r: nat) | GiveUp(r: nat)
    | Release(r: nat) | Leave(r: nat)

  ghost predicate Enabled(size: nat, p: Pool, a: Action) {
    if a.Arrive? then true
    else
      && a.r < |p.reqs|
      && match a
         case Reuse(r) => p.reqs[r].Arrived? && p.idle != []
         case FindNone(r) => p.reqs[r].Arrived? && p.idle == []
         case GetToken(r) => p.reqs[r].Asking? && p.tokens > 0
         case NoToken(r) => p.reqs[r].Asking? && p.tokens == 0
         case DialOk(r) => p.reqs[r].Dialing?
         case DialFails(r) => p.reqs[r].Dialing?
         case Obtain(r) => p.reqs[r].Waiting? && p.idle != []
         case GiveUp(r) => p.reqs[r].Waiting?
         case Release(r) => p.reqs[r].Holding? && |p.idle| < size
         case Leave(r) => p.reqs[r].Refused?
  }

  ghost function Next(size: nat, p: Pool, a: Action): Pool
    requires Enabled(size, p, a)
  {
    match a
    case Arrive => p.(reqs := p.reqs + [Arrived])
    case Reuse(r) => p.(idle := p.idle[1..], reqs := p.reqs[r := Holding(p.idle[0])])
    case FindNone(r) => p.(reqs := p.reqs[r := Asking])
    case GetToken(r) => p.(tokens := p.tokens - 1, reqs := p.reqs[r := Dialing])
    case NoToken(r) => p.(reqs := p.reqs[r := Waiting])
    case DialOk(r) => p.(dialed := p.dialed + 1, reqs := p.reqs[r := Holding(p.dialed)])
    case DialFails(r) => p.(failed := p.failed + 1, reqs := p.reqs[r := Refused])
    case Obtain(r) => p.(idle := p.idle[1..], reqs := p.reqs[r := Holding(p.idle[0])])
    case GiveUp(r) => p.(reqs := p.reqs[r := Refused])
    case Release(r) => p.(idle := p.idle + [p.reqs[r].client], reqs := p.reqs[r := Gone])
    case Leave(r) => p.(reqs := p.reqs[r := Gone])
  }

  // ---------- the invariant ----------

  ghost function IsDialing(r: Req): int { if r.Dialing? then 1 else 0 }

  ghost function IsHolding(r: Req): int { if r.Holding? then 1 else 0 }

  ghost function Holds(c: nat): Req -> int { r => if r == Holding(c) then 1 else 0 }

  ghost function Dials(p: Pool): int { Sum(p.reqs, IsDialing) }

  ghost function Held(p: Pool): int { Sum(p.reqs, IsHolding) }

  /** A client that was dialed is in one place: idle, or held by one request. */
  ghost predicate InOnePlace(p: Pool, c: nat) {
    multiset(p.idle)[c] + Sum(p.reqs, Holds(c)) == if c < p.dialed then 1 else 0
  }

  ghost predicate Inv(size: nat, p: Pool) {
    && p.tokens + p.dialed + Dials(p) + p.failed == size
    && p.dialed == |p.idle| + Held(p)
    && (forall c :: InOnePlace(p, c))
    && (forall r :: r in p.reqs && r.Waiting? ==> p.tokens == 0)
  }

  lemma InvInit(size: nat)
    ensures Inv(size, Init(size))
  {
  }

  /** A request that moves changes each sum by what it was and what it becomes. */
  lemma SumsNext(size: nat, p: Pool, a: Action, f: Req -> int)
    requires Enabled(size, p, a)
    ensures Sum(Next(size, p, a).reqs, f)
         == Sum(p.reqs, f) + (if a.Arrive? then f(Arrived) else f(Next(size, p, a).reqs[a.r]) - f(p.reqs[a.r]))
  {
    if a.Arrive? {
      SumAppend(p.reqs, Arrived, f);
    } else {
      SumUpdate(p.reqs, a.r, Next(size, p, a).reqs[a.r], f);
    }
  }

  lemma IdleNext(size: nat, p: Pool, a: Action, c: nat)
    requires Enabled(size, p, a)
    ensures multiset(Next(size, p, a).idle)[c] == multiset(p.idle)[c]
         + (if a.Release? && p.reqs[a.r].client == c then 1
            else if (a.Reuse? || a.Obtain?) && p.idle[0] == c then -1 else 0)
  {
    if a.Reuse? || a.Obtain? {
      assert p.idle == [p.idle[0]] + p.idle[1..];
    }
  }

  lemma InOnePlaceNext(size: nat, p: Pool, a: Action, c: nat)
    requires Enabled(size, p, a) && InOnePlace(p, c)
    ensures InOnePlace(Next(size, p, a), c)
  {
    SumsNext(size, p, a, Holds(c));
    IdleNext(size, p, a, c);
    HoldersNext(size, p, a, c);
  }

  lemma HoldersNext(size: nat, p: Pool, a: Action, c: nat)
    requires Enabled(size, p, a)
    ensures !a.Arrive? ==>
              Holds(c)(Next(size, p, a).reqs[a.r]) - Holds(c)(p.reqs[a.r])
              == if a.Release? && p.reqs[a.r].client == c then -1
                 else if (a.Reuse? || a.Obtain?) && p.idle[0] == c then 1
                 else if a.DialOk? && p.dialed == c then 1 else 0
  {
  }

  lemma WaitersNext(size: nat, p: Pool, a: Action)
    requires Enabled(size, p, a) && forall r :: r in p.reqs && r.Waiting? ==> p.tokens == 0
    ensures forall r :: r in Next(size, p, a).reqs && r.Waiting? ==> Next(size, p, a).tokens == 0
  {
    var p' := Next(size, p, a);
    forall r | r in p'.reqs && r.Waiting? ensures p'.tokens == 0 {
      var i :| 0 <= i < |p'.reqs| && p'.reqs[i] == r;
      assert (a.NoToken? && a.r == i) || p.reqs[i] in p.reqs;
    }
  }

  lemma InvNext(size: nat, p: Pool, a: Action)
    requires Inv(size, p) && Enabled(size, p, a)
    ensures Inv(size, Next(size, p, a))
  {
    SumsNext(size, p, a, IsDialing);
    SumsNext(size, p, a, IsHolding);
    forall c ensures InOnePlace(Next(size, p, a), c) {
      InOnePlaceNext(size, p, a, c);
    }
    WaitersNext(size, p, a);
  }

  // ---------- whole runs ----------

  ghost predicate IsRun(size: nat, actions: seq<Action>, p: Pool)
    decreases |actions|
  {
    if actions == [] then p == Init(size)
    else
      var n := |actions| - 1;
      exists o :: IsRun(size, actions[..n], o) && Enabled(size, o, actions[n]) && p == Next(size, o, actions[n])
  }

  lemma {:induction false} RunsKeepInv(size: nat, actions: seq<Action>, p: Pool)
    requires IsRun(size, actions, p)
    ensures Inv(size, p)
    decreases |actions|
  {
    if actions == [] {
      InvInit(size);
    } else {
      var n := |actions| - 1;
      var o :| IsRun(size, actions[..n], o) && Enabled(size, o, actions[n]) && p == Next(size, o, actions[n]);
      RunsKeepInv(size, actions[..n], o);
      InvNext(size, o, actions[n]);
    }
  }

  /** Whatever the interleaving, the size of the pool is split between unused tokens, idle clients, held
      clients, dials in progress and failed dials. */
  lemma Conservation(size: nat, actions: seq<Action>, p: Pool)
    requires IsRun(size, actions, p)
    ensures p.tokens + |p.idle| + Held(p) + Dials(p) + p.failed == size
    ensures p.dialed + Dials(p) + p.failed <= size
  {
    RunsKeepInv(size, actions, p);
    SumBounds(p.reqs, IsDialing);
    SumBounds(p.reqs, IsHolding);
  }

  /** No client is held by two requests, nor held and idle at once. */
  lemma NoSharing(size: nat, actions: seq<Action>, p: Pool, i: nat, j: nat)
    requires IsRun(size, actions, p)
    requires i < |p.reqs| && j < |p.reqs| && p.reqs[i].Holding? && p.reqs[i] == p.reqs[j]
    ensures i == j && p.reqs[i].client !in p.idle && p.reqs[i].client < p.dialed
  {
    RunsKeepInv(size, actions, p);
    var c := p.reqs[i].client;
    assert InOnePlace(p, c);
    SumBounds(p.reqs, Holds(c));
    assert Holds(c)(p.reqs[i]) == 1;
    if i != j {
      SumTwo(p.reqs, Holds(c), if i < j then i else j, if i < j then j else i);
    }
    assert c !in multiset(p.idle);
  }

  /** A request that holds a client can give it back at once: the idle channel has room. */
  lemma ReleaseNeverBlocks(size: nat, actions: seq<Action>, p: Pool, r: nat)
    requires IsRun(size, actions, p) && r < |p.reqs| && p.reqs[r].Holding?
    ensures Enabled(size, p, Release(r))
  {
    Conservation(size, actions, p);
    SumBounds(p.reqs, IsHolding);
    SumBounds(p.reqs, IsDialing);
    assert IsHolding(p.reqs[r]) == 1;
  }

  /** A request waits only when no token is left. While it waits, a client is idle or another request holds
      one or dials, if and only if some dial has not failed. */
  lemma WaitIsNotDeadlock(size: nat, actions: seq<Action>, p: Pool, r: nat)
    requires IsRun(size, actions, p) && r < |p.reqs| && p.reqs[r].Waiting?
    ensures p.tokens == 0
    ensures p.idle != [] || (exists j :: 0 <= j < |p.reqs| && (p.reqs[j].Holding? || p.reqs[j].Dialing?))
       <==> p.failed < size
  {
    RunsKeepInv(size, actions, p);
    assert p.reqs[r] in p.reqs;
    Conservation(size, actions, p);
    SumBounds(p.reqs, IsHolding);
    SumBounds(p.reqs, IsDialing);
    if j :| 0 <= j < |p.reqs| && (p.reqs[j].Holding? || p.reqs[j].Dialing?) {
      assert IsHolding(p.reqs[j]) == 1 || IsDialing(p.reqs[j]) == 1;
    }
  }

  /** So the wait ends: while some dial has not failed, the waiting request can obtain a client, or another one
      can release the client it holds or finish its dial. */
  lemma WaitCanEnd(size: nat, actions: seq<Action>, p: Pool, r: nat) returns (a: Action)
    requires IsRun(size, actions, p) && r < |p.reqs| && p.reqs[r].Waiting? && p.failed < size
    ensures Enabled(size, p, a)
    ensures a == Obtain(r) || (a.Release? && a.r != r) || (a.DialOk? && a.r != r)
  {
    WaitIsNotDeadlock(size, actions, p, r);
    if p.idle != [] {
      a := Obtain(r);
    } else {
      var j :| 0 <= j < |p.reqs| && (p.reqs[j].Holding? || p.reqs[j].Dialing?);
      if p.reqs[j].Holding? {
        ReleaseNeverBlocks(size, actions, p, j);
        a := Release(j);
      } else {
        a := DialOk(j);
      }
    }
  }

  // ---------- each request ends ----------

  /** How many steps a request has still to take, at most. */
  function StepsLeft(r: Req): nat {
    match r
    case Arrived => 4
    case Asking => 3
    case Dialing => 2
    case Waiting => 2
    case Holding(_) => 1
    case Refused => 1
    case Gone => 0
  }

  /** A request that is not gone can take a step of its own at any time, without waiting for another one. */
  lemma EveryRequestCanMove(size: nat, actions: seq<Action>, p: Pool, r: nat) returns (a: Action)
    requires IsRun(size, actions, p) && r < |p.reqs| && !p.reqs[r].Gone?
    ensures !a.Arrive? && a.r == r && Enabled(size, p, a)
  {
    match p.reqs[r] {
      case Arrived => a := if p.idle != [] then Reuse(r) else FindNone(r);
      case Asking => a := if p.tokens > 0 then GetToken(r) else NoToken(r);
      case Dialing => a := DialOk(r);
      case Waiting => a := GiveUp(r);
      case Holding(_) =>
        ReleaseNeverBlocks(size, actions, p, r);
        a := Release(r);
      case Refused => a := Leave(r);
    }
  }

  /** Each step brings its own request nearer to the end and leaves the others where they are. */
  lemma EveryStepIsProgress(size: nat, p: Pool, a: Action, r: nat)
    requires Enabled(size, p, a) && r < |p.reqs|
    ensures r < |Next(size, p, a).reqs|
    ensures !a.Arrive? && a.r == r ==> StepsLeft(Next(size, p, a).reqs[r]) < StepsLeft(p.reqs[r])
    ensures a.Arrive? || a.r != r ==> Next(size, p, a).reqs[r] == p.reqs[r]
  {
  }

  /** No request takes more than four steps: the steps taken and those left never exceed that. */
  lemma {:induction false} RequestsEnd(size: nat, actions: seq<Action>, p: Pool, r: nat)
    requires IsRun(size, actions, p) && r < |p.reqs|
    ensures StepsOf(actions, r) + StepsLeft(p.reqs[r]) <= 4
    decreases |actions|
  {
    var n := |actions| - 1;
    var o :| IsRun(size, actions[..n], o) && Enabled(size, o, actions[n]) && p == Next(size, o, actions[n]);
    if r < |o.reqs| {
      RequestsEnd(size, actions[..n], o, r);
      EveryStepIsProgress(size, o, actions[n], r);
    } else {
      NoStepsBeforeArrival(size, actions[..n], o, r);
    }
  }

  /** The number of steps of one request. */
  function StepsOf(actions: seq<Action>, r: nat): nat {
    if actions == [] then 0
    else
      var n := |actions| - 1;
      StepsOf(actions[..n], r) + (if !actions[n].Arrive? && actions[n].r == r then 1 else 0)
  }

  lemma {:induction false} NoStepsBeforeArrival(size: nat, actions: seq<Action>, p: Pool, r: nat)
    requires IsRun(size, actions, p) && r >= |p.reqs|
    ensures StepsOf(actions, r) == 0
    decreases |actions|
  {
    if actions != [] {
      var n := |actions| - 1;
      var o :| IsRun(size, actions[..n], o) && Enabled(size, o, actions[n]) && p == Next(size, o, actions[n]);
      NoStepsBeforeArrival(size, actions[..n], o, r);
    }
  }

  // ---------- reuse ----------

  /** A request that arrives while clients are idle takes the one that has been idle longest, and nothing else:
      it neither dials nor waits. It asks for a token exactly when none is idle, and dials exactly when it
      gets one. A client that is released is idle last. */
  lemma IdleIsReused(size: nat, p: Pool, a: Action)
    requires Enabled(size, p, a) && !a.Arrive?
    ensures p.reqs[a.r].Arrived? && p.idle != [] ==>
              && Next(size, p, a).reqs[a.r] == Holding(p.idle[0]) && Next(size, p, a).idle == p.idle[1..]
              && Next(size, p, a).tokens == p.tokens && Next(size, p, a).dialed == p.dialed
    ensures p.reqs[a.r].Arrived? && p.idle == [] ==> Next(size, p, a) == p.(reqs := p.reqs[a.r := Asking])
    ensures p.reqs[a.r].Asking? ==>
              Next(size, p, a) == if p.tokens > 0 then p.(tokens := p.tokens - 1, reqs := p.reqs[a.r := Dialing])
                                  else p.(reqs := p.reqs[a.r := Waiting])
    ensures p.reqs[a.r].Holding? ==> Next(size, p, a).idle == p.idle + [p.reqs[a.r].client]
  {
  }

  /** Each request starts when all earlier ones are gone. */
  ghost predicate OneAtATime(size: nat, actions: seq<Action>) {
    forall k, p :: 0 <= k < |actions| && actions[k].Arrive? && IsRun(size, actions[..k], p) ==> AllGone(p.reqs)
  }

  ghost predicate AllGone(reqs: seq<Req>) {
    forall r :: r in reqs ==> r.Gone?
  }

  /** One client at most, idle whenever the last request looks for one. */
  ghost predicate OneClient(p: Pool) {
    && p.dialed <= 1
    && (p.reqs == [] ==> p.dialed == 0)
    && (p.reqs != [] ==> AllGone(p.reqs[..|p.reqs| - 1]))
    && (p.reqs != [] && (p.reqs[|p.reqs| - 1].Asking? || p.reqs[|p.reqs| - 1].Dialing?) ==> p.dialed == 0)
  }

  lemma NobodyHolds(reqs: seq<Req>)
    requires forall r :: r in reqs ==> !r.Holding?
    ensures Sum(reqs, IsHolding) == 0
  {
    forall i | 0 <= i < |reqs| ensures IsHolding(reqs[i]) == 0 {
      assert reqs[i] in reqs;
    }
    SumBounds(reqs, IsHolding);
  }

  lemma OneClientNext(size: nat, p: Pool, a: Action)
    requires Inv(size, p) && OneClient(p) && Enabled(size, p, a) && (a.Arrive? ==> AllGone(p.reqs))
    ensures OneClient(Next(size, p, a))
  {
    var p', n := Next(size, p, a), |p.reqs| - 1;
    if a.Arrive? {
      assert p'.reqs[..|p'.reqs| - 1] == p.reqs;
    } else {
      assert forall i :: 0 <= i < n ==> p.reqs[i] in p.reqs[..n];
      assert a.r == n && p'.reqs[..n] == p.reqs[..n];
      if a.FindNone? {
        forall r | r in p.reqs ensures !r.Holding? {
          var i :| 0 <= i < |p.reqs| && p.reqs[i] == r;
          assert r.Gone? || i == n;
        }
        NobodyHolds(p.reqs);
      }
    }
  }

  /** Requests that come one after the other share one client: the pool dials it once. */
  lemma {:induction false} OneAtATimeSharesOneClient(size: nat, actions: seq<Action>, p: Pool)
    requires IsRun(size, actions, p) && OneAtATime(size, actions)
    ensures OneClient(p) && p.dialed <= 1
    decreases |actions|
  {
    if actions != [] {
      var n := |actions| - 1;
      var o :| IsRun(size, actions[..n], o) && Enabled(size, o, actions[n]) && p == Next(size, o, actions[n]);
      forall k, q | 0 <= k < n && actions[..n][k].Arrive? && IsRun(size, actions[..n][..k], q) ensures AllGone(q.reqs) {
        assert actions[..n][..k] == actions[..k];
      }
      OneAtATimeSharesOneClient(size, actions[..n], o);
      RunsKeepInv(size, actions[..n], o);
      OneClientNext(size, o, actions[n]);
    }
  }

  // ---------- the pool after too many failures ----------

  /** Once as many dials have failed as the pool has places, no request ever gets a client again. */
  lemma {:induction false} ExhaustedForGood(size: nat, actions: seq<Action>, k: nat, p: Pool, q: Pool)
    requires k <= |actions| && IsRun(size, actions[..k], p) && IsRun(size, actions, q)
    requires p.failed == size
    ensures q.failed == size && q.idle == [] && forall r :: r in q.reqs ==> !r.Holding? && !r.Dialing?
    decreases |actions|
  {
    if k == |actions| {
      assert actions[..k] == actions;
      SameRunSamePool(size, actions, p, q);
    } else {
      var n := |actions| - 1;
      var o :| IsRun(size, actions[..n], o) && Enabled(size, o, actions[n]) && q == Next(size, o, actions[n]);
      assert actions[..n][..k] == actions[..k];
      ExhaustedForGood(size, actions[..n], k, p, o);
    }
    NobodyServed(size, actions, q);
  }

  lemma NobodyServed(size: nat, actions: seq<Action>, p: Pool)
    requires IsRun(size, actions, p) && p.failed >= size
    ensures p.failed == size && p.idle == [] && forall r :: r in p.reqs ==> !r.Holding? && !r.Dialing?
  {
    Conservation(size, actions, p);
    SumBounds(p.reqs, IsHolding);
    SumBounds(p.reqs, IsDialing);
    forall r | r in p.reqs ensures !r.Holding? && !r.Dialing? {
      var j :| 0 <= j < |p.reqs| && p.reqs[j] == r;
      assert IsHolding(p.reqs[j]) <= 0 && IsDialing(p.reqs[j]) <= 0;
    }
  }

  lemma {:induction false} SameRunSamePool(size: nat, actions: seq<Action>, p: Pool, q: Pool)
    requires IsRun(size, actions, p) && IsRun(size, actions, q)
    ensures p == q
    decreases |actions|
  {
    if actions != [] {
      var n := |actions| - 1;
      var o :| IsRun(size, actions[..n], o) && Enabled(size, o, actions[n]) && p == Next(size, o, actions[n]);
      var o' :| IsRun(size, actions[..n], o') && Enabled(size, o', actions[n]) && q == Next(size, o', actions[n]);
      SameRunSamePool(size, actions[..n], o, o');
    }
  }

  lemma RunExtends(size: nat, actions: seq<Action>, p: Pool, a: Action)
    requires IsRun(size, actions, p) && Enabled(size, p, a)
    ensures IsRun(size, actions + [a], Next(size, p, a))
  {
    assert (actions + [a])[..|actions|] == actions;
  }

  /** The pool can get there: `n` requests in a row whose dials fail use up `n` tokens. */
  lemma {:induction false} FailuresExhaust(size: nat, n: nat) returns (actions: seq<Action>, p: Pool)
    requires n <= size
    ensures IsRun(size, actions, p) && p.failed == n && p.tokens == size - n && p.idle == []
  {
    if n == 0 {
      actions, p := [], Init(size);
    } else {
      actions, p := FailuresExhaust(size, n - 1);
      var r := |p.reqs|;
      actions, p := OneStep(size, actions, p, Arrive);
      actions, p := OneStep(size, actions, p, FindNone(r));
      actions, p := OneStep(size, actions, p, GetToken(r));
      actions, p := OneStep(size, actions, p, DialFails(r));
    }
  }

  /** Nobody is served in any continuation of the run. */
  ghost predicate StoppedForGood(size: nat, actions: seq<Action>) {
    forall more, q :: IsRun(size, actions + more, q) ==> q.idle == [] && forall r :: r in q.reqs ==> !r.Holding?
  }

  lemma OneStep(size: nat, actions: seq<Action>, p: Pool, a: Action) returns (actions': seq<Action>, p': Pool)
    requires IsRun(size, actions, p) && Enabled(size, p, a)
    ensures IsRun(size, actions', p') && p' == Next(size, p, a) && actions' == actions + [a]
  {
    RunExtends(size, actions, p, a);
    actions', p' := actions + [a], Next(size, p, a);
  }

  /** A request that arrives while tokens are left gets a client, or finds one idle. */
  lemma NewcomerIsServed(size: nat, actions: seq<Action>, p: Pool) returns (run: seq<Action>, q: Pool)
    requires IsRun(size, actions, p) && p.tokens > 0
    ensures actions <= run && IsRun(size, run, q)
    ensures q.idle != [] || exists r :: r in q.reqs && r.Holding?
  {
    var r := |p.reqs|;
    run, q := OneStep(size, actions, p, Arrive);
    if q.idle == [] {
      run, q := OneStep(size, run, q, FindNone(r));
      run, q := OneStep(size, run, q, GetToken(r));
      run, q := OneStep(size, run, q, DialOk(r));
      assert q.reqs[r] in q.reqs;
    }
  }

  /** As long as one dial can still succeed, some continuation serves somebody. */
  lemma SomebodyIsServed(size: nat, actions: seq<Action>, p: Pool) returns (more: seq<Action>, q: Pool)
    requires IsRun(size, actions, p) && p.failed < size
    ensures IsRun(size, actions + more, q) && (q.idle != [] || exists r :: r in q.reqs && r.Holding?)
  {
    var run;
    if p.tokens > 0 {
      run, q := NewcomerIsServed(size, actions, p);
    } else if i :| 0 <= i < |p.reqs| && p.reqs[i].Dialing? {
      run, q := OneStep(size, actions, p, DialOk(i));
      assert q.reqs[i] in q.reqs;
    } else {
      run, q := actions, p;
      SomebodyHolds(size, actions, p);
    }
    more := run[|actions|..];
    assert actions + more == run;
  }

  lemma SomebodyHolds(size: nat, actions: seq<Action>, p: Pool)
    requires IsRun(size, actions, p) && p.failed < size && p.tokens == 0
    requires forall i :: 0 <= i < |p.reqs| ==> !p.reqs[i].Dialing?
    ensures p.idle != [] || exists r :: r in p.reqs && r.Holding?
  {
    Conservation(size, actions, p);
    NobodyDials(p);
    if p.idle == [] {
      var i :| 0 <= i < |p.reqs| && p.reqs[i].Holding?;
      assert p.reqs[i] in p.reqs;
    }
  }

  lemma NobodyDials(p: Pool)
    ensures (forall i :: 0 <= i < |p.reqs| ==> !p.reqs[i].Dialing?) ==> Dials(p) == 0
    ensures Held(p) > 0 ==> exists i :: 0 <= i < |p.reqs| && p.reqs[i].Holding?
  {
    SumBounds(p.reqs, IsDialing);
    SumBounds(p.reqs, IsHolding);
  }

  /** The pool stops for good exactly when as many dials have failed as it has places. */
  lemma StopsExactlyWhenExhausted(size: nat, actions: seq<Action>, p: Pool)
    requires IsRun(size, actions, p)
    ensures StoppedForGood(size, actions) <==> p.failed == size
  {
    Conservation(size, actions, p);
    SumBounds(p.reqs, IsDialing);
    SumBounds(p.reqs, IsHolding);
    if p.failed == size {
      forall more, q | IsRun(size, actions + more, q) ensures q.idle == [] && forall r :: r in q.reqs ==> !r.Holding? {
        assert (actions + more)[..|actions|] == actions;
        ExhaustedForGood(size, actions + more, |actions|, p, q);
      }
    } else {
      var more, q := SomebodyIsServed(size, actions, p);
    }
  }

  /** With the size of the code, two failed dials are enough: from then on, in every continuation of the run,
      requests wait in vain. */
  lemma TwoFailuresStopThePool() returns (actions: seq<Action>, p: Pool)
    ensures IsRun(INDEX_CLIENT_POOL_SIZE, actions, p) && p.failed == 2
    ensures StoppedForGood(INDEX_CLIENT_POOL_SIZE, actions)
  {
    actions, p := FailuresExhaust(INDEX_CLIENT_POOL_SIZE, 2);
    StopsExactlyWhenExhausted(INDEX_CLIENT_POOL_SIZE, actions, p);
  }
}
