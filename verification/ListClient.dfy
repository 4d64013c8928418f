/** The listing command of the client (internal/cmd-index-client/cmd.go), through a gate or straight to a store,
    on a cluster that changes while it is listed. */
module ListClient {
  import opened ByteOrder
  import opened IndexKey
  import opened IndexStore
  import opened IndexGate
  import opened Paging

  /** What a request meets: one store, or a gate and what its calls to the backends met. */
  datatype Endpoint = Direct(db: DB) | Gate(calls: seq<Call>)

  /** Some store behind the endpoint is reached and holds the pair. */
  ghost predicate Holds(e: Endpoint, base: string, key: string) {
    match e
    case Direct(db) => (base, key) in Pairs(db)
    case Gate(calls) => exists c :: c in calls && c.Reached? && (base, key) in Pairs(c.db)
  }

  ghost function HeldKeys(e: Endpoint, base: string): set<string> {
    match e
    case Direct(db) => KeysOf(db, base)
    case Gate(calls) => set c, k | c in calls && c.Reached? && k in KeysOf(c.db, base) :: k
  }

  /** Pages hold the capped maximum, at least 1, through a gate, and one key more straight from a store. */
  function PageSize(e: Endpoint, max: nat): Size {
    if e.Direct? then Capped(max) + 1 else GateCap(max)
  }

  /** What the request can see: all keys held by the stores it reaches; nothing without a base, or if no store is
      reached. */
  ghost function ViewOf(e: Endpoint, base: string, max: nat): View {
    match e
    case Direct(db) => if base == "" then Silent(MissingBase) else Sees(HeldKeys(e, base), PageSize(e, max))
    case Gate(calls) =>
      if base != "" && SomeReached(calls) then Sees(HeldKeys(e, base), PageSize(e, max)) else Silent(NoBackendReplied)
  }

  ghost function Views(trace: seq<Endpoint>, base: string, max: nat): seq<View> {
    seq(|trace|, i requires 0 <= i < |trace| => ViewOf(trace[i], base, max))
  }

  lemma InHeldKeys(e: Endpoint, base: string, key: string)
    ensures key in HeldKeys(e, base) <==> Holds(e, base, key)
  {
    match e {
      case Direct(db) =>
        assert (base, key) in Pairs(db) ==> (base, key) in Pairs(db).Keys;
      case Gate(calls) =>
        forall c | c in calls && c.Reached? ensures key in KeysOf(c.db, base) <==> (base, key) in Pairs(c.db) {
          assert (base, key) in Pairs(c.db) ==> (base, key) in Pairs(c.db).Keys;
        }
    }
  }

  /** The page cut out of the view is the reply of the store, or what the gate makes of the replies of the
      stores behind it. */
  lemma FetchIsReply(e: Endpoint, base: string, marker: string, max: nat)
    ensures Fetch(ViewOf(e, base, max), marker)
         == match e
            case Direct(db) => ListReply(db, base, marker, max)
            case Gate(calls) => ListOutcome(Answers(calls, base, marker, max), max)
  {
    match e {
      case Direct(db) =>
        assert Beyond(HeldKeys(e, base), marker) == After(db, base, marker);
      case Gate(calls) =>
        GatePageIsUnionPage(calls, base, marker, max);
        VisibleIsBeyond(calls, base, marker);
    }
  }

  lemma VisibleIsBeyond(calls: seq<Call>, base: string, marker: string)
    ensures Visible(calls, base, marker) == Beyond(HeldKeys(Gate(calls), base), marker)
  {
    var held := HeldKeys(Gate(calls), base);
    forall k | k in Visible(calls, base, marker) ensures k in held && Less(marker, k) {
      var c :| c in calls && c.Reached? && k in After(c.db, base, marker);
      assert k in KeysOf(c.db, base);
    }
    forall k | k in held && Less(marker, k) ensures k in Visible(calls, base, marker) {
      var c :| c in calls && c.Reached? && k in KeysOf(c.db, base);
      assert k in After(c.db, base, marker);
    }
  }

  // ---------- the command ----------

  method StoreReply(db: DB, base: string, marker: string, max: nat) returns (r: Reply<seq<string>>)
    ensures r == ListReply(db, base, marker, max)
  {
    var store := new Store();
    store.db := db;
    r := store.List(base, marker, max);
  }

  method BackendAnswer(c: Call, base: string, marker: string, max: nat) returns (a: Answer)
    ensures a == AnswerOf(c, base, marker, max)
  {
    match c {
      case Lost => return Answer.Failed;
      case Reached(db) =>
        var r := StoreReply(db, base, marker, if max == 0 then 1 else Capped(max));
        return if r.Ok? then Items(r.value) else Answer.Failed;
    }
  }

  method FetchPage(e: Endpoint, base: string, marker: string, max: nat) returns (r: Reply<seq<string>>)
    ensures r == Fetch(ViewOf(e, base, max), marker)
  {
    FetchIsReply(e, base, marker, max);
    match e {
      case Direct(db) =>
        r := StoreReply(db, base, marker, max);
      case Gate(calls) =>
        var answers: seq<Answer> := [];
        ghost var expected := Answers(calls, base, marker, max);
        for i := 0 to |calls|
          invariant answers == expected[..i]
        {
          var a := BackendAnswer(calls[i], base, marker, max);
          answers := answers + [a];
        }
        assert answers == expected;
        StoresSendMergeablePages(calls, base, marker, max);
        r := IndexGate.List(answers, max);
    }
  }

  method ListCommand(trace: seq<Endpoint>, base: string, start: string, max: nat, full: bool)
      returns (printed: seq<string>, status: Status, requests: nat)
    ensures Outcome(printed, status, requests) == Listing(Views(trace, base, max), start, full)
  {
    var marker := start;
    printed, requests := [], 0;
    ghost var views, whole := Views(trace, base, max), Listing(Views(trace, base, max), start, full);
    assert views[0..] == views;
    while true
      invariant requests <= |trace| && |views| == |trace|
      invariant Remains(views, requests, marker, full, printed, whole)
      decreases |trace| - requests
    {
      if requests == |trace| {
        NothingRemains(views, requests, marker, full, printed, whole);
        return printed, Unfinished, requests;
      }
      var r := FetchPage(trace[requests], base, marker, max);
      ListingUnfolds(views, requests, marker, full, printed, whole, r);
      requests := requests + 1;
      if r.Err? {
        return printed, Status.Failed(r.error), requests;
      }
      var items := r.value;
      if |items| <= 0 {
        return printed, Done, requests;
      }
      printed := printed + items;
      if full {
        marker := items[|items| - 1];
      } else {
        return printed, Done, requests;
      }
    }
  }

  /** After `n` requests that brought `printed`, the whole listing goes on from the n-th view. */
  ghost predicate Remains(views: seq<View>, n: nat, marker: string, full: bool, printed: seq<string>, whole: Outcome)
    requires n <= |views|
  {
    var o := Listing(views[n..], marker, full);
    whole == Outcome(printed + o.printed, o.status, n + o.requests)
  }

  lemma NothingRemains(views: seq<View>, n: nat, marker: string, full: bool, printed: seq<string>, whole: Outcome)
    requires n == |views| && Remains(views, n, marker, full, printed, whole)
    ensures whole == Outcome(printed, Unfinished, n)
  {
    assert views[n..] == [];
  }

  /** What becomes of the listing with one more reply. */
  lemma ListingUnfolds(views: seq<View>, n: nat, marker: string, full: bool, printed: seq<string>, whole: Outcome,
                       r: Reply<seq<string>>)
    requires n < |views| && Remains(views, n, marker, full, printed, whole) && r == Fetch(views[n], marker)
    ensures match r
            case Err(e) => whole == Outcome(printed, Status.Failed(e), n + 1)
            case Ok(items) =>
              if items == [] || !full then whole == Outcome(printed + items, Done, n + 1)
              else Remains(views, n + 1, items[|items| - 1], full, printed + items, whole)
  {
    assert views[n..][0] == views[n] && views[n..][1..] == views[n + 1..];
    if r.Ok? && r.value != [] && full {
      var o := Listing(views[n + 1..], r.value[|r.value| - 1], full);
      assert printed + (r.value + o.printed) == printed + r.value + o.printed;
    }
  }

  /** Each request meets a store, or a gate that reaches one, and can see the keys `held`. */
  ghost predicate Unchanging(trace: seq<Endpoint>, base: string, held: set<string>) {
    forall i :: 0 <= i < |trace| ==> (trace[i].Direct? || SomeReached(trace[i].calls)) && HeldKeys(trace[i], base) == held
  }

  lemma ViewsAreSteady(trace: seq<Endpoint>, base: string, marker: string, max: nat, held: set<string>,
                       views: seq<View>)
    requires base != "" && |trace| > |held| && Unchanging(trace, base, held)
    requires views == Views(trace, base, max)
    ensures Steady(views, marker, Beyond(held, marker)) && |views| > |Beyond(held, marker)|
  {
    Smaller(Beyond(held, marker), held);
  }

  /** On an index that does not change, a full listing, through gates or straight to stores, is one ordered scan
      of all keys of the base after the marker, whatever the maximum asked for. */
  lemma UnchangingIndexIsScanned(trace: seq<Endpoint>, base: string, marker: string, max: nat, held: set<string>,
                                 views: seq<View>, o: Outcome)
    requires base != "" && |trace| > |held| && Unchanging(trace, base, held)
    requires views == Views(trace, base, max) && o == Listing(views, marker, true)
    ensures o.status == Done && o.printed == Sorted(Beyond(held, marker))
  {
    ViewsAreSteady(trace, base, marker, max, held, views);
    SteadyListingIsScan(views, marker, Beyond(held, marker));
  }

  /** It takes one request for each page that the keys fill, and one more. */
  lemma UnchangingIndexRequests(trace: seq<Endpoint>, base: string, marker: string, max: nat, held: set<string>,
                                n: Size, views: seq<View>, requests: nat)
    requires base != "" && |trace| > |held| && Unchanging(trace, base, held)
    requires forall i :: 0 <= i < |trace| ==> PageSize(trace[i], max) == n
    requires views == Views(trace, base, max) && requests == Listing(views, marker, true).requests
    ensures requests == Pages(|Beyond(held, marker)|, n) + 1
  {
    ViewsAreSteady(trace, base, marker, max, held, views);
    SteadyRequests(views, marker, Beyond(held, marker), n);
  }

  // ---------- a cluster while it is listed ----------

  type Cluster = map<string, DB>

  /** What happens to the cluster: a write on one store, a new store, a gate call that a store answers, or
      one that fails. */
  datatype Event =
    | Wrote(addr: string, write: Write)
    | Joined(addr: string)
    | Replied(addr: string)
    | NoReply(addr: string)

  function Evolve(c: Cluster, e: Event): Cluster {
    match e
    case Wrote(addr, w) => if addr in c then c[addr := Apply(c[addr], w)] else c
    case Joined(addr) => if addr in c then c else c[addr := map[]]
    case _ => c
  }

  function EvolveAll(c: Cluster, events: seq<Event>): Cluster
    decreases |events|
  {
    if events == [] then c else EvolveAll(Evolve(c, events[0]), events[1..])
  }

  /** What the calls of one gate request met. */
  function CallsOf(c: Cluster, events: seq<Event>): seq<Call>
    decreases |events|
  {
    if events == [] then []
    else
      (match events[0]
       case Replied(addr) => if addr in c then [Reached(c[addr])] else [Lost]
       case NoReply(_) => [Lost]
       case _ => [])
      + CallsOf(Evolve(c, events[0]), events[1..])
  }

  /** The trace of a listing through a gate, when `pages[n]` is what happens during the n-th request. */
  function TraceOf(c: Cluster, pages: seq<seq<Event>>): seq<Endpoint>
    decreases |pages|
  {
    if pages == [] then [] else [Gate(CallsOf(c, pages[0]))] + TraceOf(EvolveAll(c, pages[0]), pages[1..])
  }

  lemma {:induction false} KeyStays(c: Cluster, events: seq<Event>, addr: string, raw: string)
    requires addr in c && raw in c[addr]
    ensures var c' := EvolveAll(c, events); addr in c' && raw in c'[addr]
    ensures Replied(addr) in events ==> exists call :: call in CallsOf(c, events) && call.Reached? && raw in call.db
    decreases |events|
  {
    if events != [] {
      var c' := Evolve(c, events[0]);
      KeyStays(c', events[1..], addr, raw);
      var rest := CallsOf(c', events[1..]);
      assert forall call :: call in rest ==> call in CallsOf(c, events);
      if events[0] == Replied(addr) {
        assert CallsOf(c, events)[0] == Reached(c[addr]);
      } else if Replied(addr) in events {
        assert Replied(addr) in events[1..];
      }
    }
  }

  /** The writes on one store, in order. */
  function WritesOn(events: seq<Event>, addr: string): seq<Write>
    decreases |events|
  {
    if events == [] then []
    else
      (match events[0] case Wrote(a, w) => if a == addr then [w] else [] case _ => [])
      + WritesOn(events[1..], addr)
  }

  /** A store evolves by the writes made on it, and by nothing else. */
  lemma {:induction false} EvolvesByItsWrites(c: Cluster, events: seq<Event>, addr: string)
    requires addr in c
    ensures addr in EvolveAll(c, events) && EvolveAll(c, events)[addr] == Replay(c[addr], WritesOn(events, addr))
    decreases |events|
  {
    if events != [] {
      EvolvesByItsWrites(Evolve(c, events[0]), events[1..], addr);
      var ws := WritesOn(events[1..], addr);
      assert [] + ws == ws;
      if events[0].Wrote? && events[0].addr == addr {
        assert ([events[0].write] + ws)[1..] == ws;
      }
    }
  }

  /** A store that joins is empty, and from then on evolves by its writes. */
  lemma {:induction false} JoinsEmpty(c: Cluster, before: seq<Event>, after: seq<Event>, addr: string)
    requires addr !in c && Joined(addr) !in before
    ensures var c' := EvolveAll(c, before + [Joined(addr)] + after);
            addr in c' && c'[addr] == Replay(map[], WritesOn(after, addr))
    decreases |before|
  {
    var events := before + [Joined(addr)] + after;
    if before == [] {
      assert events[1..] == after;
      EvolvesByItsWrites(c[addr := map[]], after, addr);
    } else {
      assert events[1..] == before[1..] + [Joined(addr)] + after;
      assert before[0] in before;
      JoinsEmpty(Evolve(c, before[0]), before[1..], after, addr);
    }
  }

  /** The j-th event is the answer of a store that holds `db` at that moment. */
  ghost predicate MetAt(c: Cluster, events: seq<Event>, j: nat, addr: string, db: DB) {
    && j < |events| && events[j] == Replied(addr)
    && addr in EvolveAll(c, events[..j]) && EvolveAll(c, events[..j])[addr] == db
  }

  lemma MetLater(c: Cluster, events: seq<Event>, j: nat, addr: string, db: DB)
    requires events != []
    ensures MetAt(c, events, j + 1, addr, db) <==> MetAt(Evolve(c, events[0]), events[1..], j, addr, db)
  {
    if j + 1 <= |events| {
      assert events[..j + 1][0] == events[0] && events[..j + 1][1..] == events[1..][..j];
    }
  }

  /** The calls of a request meet the stores that answer, each as it is when it answers. */
  lemma {:induction false} CallsMeetStores(c: Cluster, events: seq<Event>, db: DB)
    ensures Reached(db) in CallsOf(c, events) <==> exists j, addr :: MetAt(c, events, j, addr, db)
    decreases |events|
  {
    if events != [] {
      var c' := Evolve(c, events[0]);
      CallsMeetStores(c', events[1..], db);
      assert EvolveAll(c, events[..0]) == c;
      var rest := CallsOf(c', events[1..]);
      if Reached(db) in rest {
        var j, addr :| MetAt(c', events[1..], j, addr, db);
        MetLater(c, events, j, addr, db);
      } else if Reached(db) in CallsOf(c, events) {
        match events[0] {
          case Replied(addr) => assert MetAt(c, events, 0, addr, db);
          case _ => assert false;
        }
      }
      if j: nat, addr :| MetAt(c, events, j, addr, db) {
        if j > 0 {
          MetLater(c, events, j - 1, addr, db);
        } else {
          assert CallsOf(c, events)[0] == Reached(db);
        }
      }
    }
  }

  /** The cluster when the i-th request starts. */
  function ClusterAt(c: Cluster, pages: seq<seq<Event>>, i: nat): Cluster
    requires i <= |pages|
    decreases i
  {
    if i == 0 then c else ClusterAt(EvolveAll(c, pages[0]), pages[1..], i - 1)
  }

  lemma {:induction false} TraceAt(c: Cluster, pages: seq<seq<Event>>, i: nat)
    requires i < |pages|
    ensures i < |TraceOf(c, pages)| && TraceOf(c, pages)[i] == Gate(CallsOf(ClusterAt(c, pages, i), pages[i]))
    decreases i
  {
    if i > 0 {
      TraceAt(EvolveAll(c, pages[0]), pages[1..], i - 1);
    }
  }

  /** A listing invents nothing: each key printed is held, under that base, by a store that answers one of the
      requests, at the moment when it answers. */
  lemma ListingInventsNothing(c: Cluster, pages: seq<seq<Event>>, base: string, marker: string, max: nat, full: bool,
                              key: string, trace: seq<Endpoint>, views: seq<View>, o: Outcome)
      returns (i: nat, j: nat, addr: string, db: DB)
    requires trace == TraceOf(c, pages) && views == Views(trace, base, max) && o == Listing(views, marker, full)
    requires key in o.printed
    ensures i < |pages| && MetAt(ClusterAt(c, pages, i), pages[i], j, addr, db)
    ensures base + "," + key in db && ',' !in base && Less(marker, key)
  {
    ListingIsSound(views, marker, full);
    i :| i < o.requests && i < |views| && views[i].Sees? && key in views[i].keys;
    TraceLength(c, pages);
    TraceAt(c, pages, i);
    InHeldKeys(trace[i], base, key);
    j, addr, db := HolderIsMet(ClusterAt(c, pages, i), pages[i], base, key);
  }

  lemma HolderIsMet(c: Cluster, events: seq<Event>, base: string, key: string) returns (j: nat, addr: string, db: DB)
    requires Holds(Gate(CallsOf(c, events)), base, key)
    ensures MetAt(c, events, j, addr, db) && Join(base, key) in db && ',' !in base
  {
    var call :| call in CallsOf(c, events) && call.Reached? && (base, key) in Pairs(call.db);
    db := call.db;
    InPairs(db, base, key);
    CallsMeetStores(c, events, db);
    j, addr :| MetAt(c, events, j, addr, db);
  }

  lemma {:induction false} HeldInEveryPage(c: Cluster, pages: seq<seq<Event>>, addr: string, base: string,
                                           key: string, i: nat)
    requires addr in c && Join(base, key) in c[addr] && ',' !in base
    requires i < |pages| && Replied(addr) in pages[i]
    ensures i < |TraceOf(c, pages)| && Holds(TraceOf(c, pages)[i], base, key)
    decreases |pages|
  {
    KeyStays(c, pages[0], addr, Join(base, key));
    if i == 0 {
      var call :| call in CallsOf(c, pages[0]) && call.Reached? && Join(base, key) in call.db;
      InPairs(call.db, base, key);
    } else {
      HeldInEveryPage(EvolveAll(c, pages[0]), pages[1..], addr, base, key, i - 1);
    }
  }

  /** The store answers each of the first `n` requests. */
  ghost predicate AnsweredAll(pages: seq<seq<Event>>, n: nat, addr: string) {
    forall i :: 0 <= i < n && i < |pages| ==> Replied(addr) in pages[i]
  }

  /** The requests that the store answers can all see a key it held at the start. */
  lemma SeenWhereReplied(c: Cluster, pages: seq<seq<Event>>, base: string, max: nat, addr: string, key: string, n: nat)
    requires addr in c && Join(base, key) in c[addr] && ',' !in base
    requires AnsweredAll(pages, n, addr)
    ensures SeenByAll(Views(TraceOf(c, pages), base, max), n, key)
  {
    var trace := TraceOf(c, pages);
    TraceLength(c, pages);
    forall i | 0 <= i < n && i < |trace| && ViewOf(trace[i], base, max).Sees?
      ensures key in ViewOf(trace[i], base, max).keys
    {
      HeldInEveryPage(c, pages, addr, base, key, i);
      InHeldKeys(trace[i], base, key);
    }
  }

  /** Whatever is written and whichever other backends come, go or fail during the listing: a key present at
      the start on a store that answers every request is printed exactly once by a listing that ends well. */
  lemma FullListingMissesNothing(c: Cluster, pages: seq<seq<Event>>, base: string, marker: string, max: nat,
                                 addr: string, key: string, trace: seq<Endpoint>, views: seq<View>, o: Outcome)
    requires addr in c && Join(base, key) in c[addr] && ',' !in base && Less(marker, key)
    requires trace == TraceOf(c, pages) && views == Views(trace, base, max)
    requires o == Listing(views, marker, true) && o.status == Done
    requires AnsweredAll(pages, o.requests, addr)
    ensures Ascending(o.printed) && multiset(o.printed)[key] == 1
  {
    SeenWhereReplied(c, pages, base, max, addr, key, o.requests);
    PrintedOnce(views, marker, key, o);
  }

  lemma PrintedOnce(views: seq<View>, marker: string, key: string, o: Outcome)
    requires o == Listing(views, marker, true) && o.status == Done && Less(marker, key)
    requires SeenByAll(views, o.requests, key)
    ensures Ascending(o.printed) && multiset(o.printed)[key] == 1
  {
    ListingIsSound(views, marker, true);
    ListingIsComplete(views, marker, key);
    AscendingOnce(o.printed, key);
  }

  lemma {:induction false} TraceLength(c: Cluster, pages: seq<seq<Event>>)
    ensures |TraceOf(c, pages)| == |pages|
    decreases |pages|
  {
    if pages != [] {
      TraceLength(EvolveAll(c, pages[0]), pages[1..]);
    }
  }
}
