/** Listing by pages (internal/cmd-index-client/cmd.go): each page is requested after the last key of the previous
    one, until an empty page comes. What each request can see may differ from one request to the next. */
module Paging {
  import opened ByteOrder
  import opened IndexStore

  type Size = n: nat | 0 < n witness 1

  /** What one request meets: an error, or the keys it can see and the size of its page. */
  datatype View = Silent(error: Error) | Sees(keys: set<string>, size: Size)

  function Beyond(keys: set<string>, marker: string): set<string> {
    set k | k in keys && Less(marker, k)
  }

  ghost function Fetch(v: View, marker: string): Reply<seq<string>> {
    match v
    case Silent(error) => Err(error)
    case Sees(keys, size) => Ok(Page(Beyond(keys, marker), size))
  }

  datatype Status = Done | Failed(error: Error) | Unfinished
  datatype Outcome = Outcome(printed: seq<string>, status: Status, requests: nat)

  /** The listing when the n-th request meets `trace[n]`; `Unfinished` if the trace is too short. */
  ghost function Listing(trace: seq<View>, marker: string, full: bool): Outcome
    decreases |trace|
  {
    if trace == [] then Outcome([], Unfinished, 0)
    else
      match Fetch(trace[0], marker)
      case Err(e) => Outcome([], Failed(e), 1)
      case Ok(items) =>
        if items == [] then Outcome([], Done, 1)
        else if !full then Outcome(items, Done, 1)
        else
          var o := Listing(trace[1..], items[|items| - 1], full);
          Outcome(items + o.printed, o.status, 1 + o.requests)
  }

  // ---------- whatever happens between the pages ----------

  /** One of the first `n` requests can see the key. */
  ghost predicate SeenBy(trace: seq<View>, n: nat, key: string) {
    exists i :: 0 <= i < n && i < |trace| && trace[i].Sees? && key in trace[i].keys
  }

  ghost predicate Sound(o: Outcome, trace: seq<View>, marker: string) {
    && o.requests <= |trace|
    && Ascending(o.printed)
    && (forall x :: x in o.printed ==> Less(marker, x) && SeenBy(trace, o.requests, x))
  }

  /** The keys printed are in order, none twice, after the marker, and each was seen by one of the requests. */
  lemma {:induction false} ListingIsSound(trace: seq<View>, marker: string, full: bool)
    ensures Sound(Listing(trace, marker, full), trace, marker)
    decreases |trace|
  {
    if trace != [] && trace[0].Sees? {
      var items := Page(Beyond(trace[0].keys, marker), trace[0].size);
      PageIsSound(trace, marker, items);
      if items != [] && full {
        var last := items[|items| - 1];
        ListingIsSound(trace[1..], last, full);
        PageThenRest(trace, marker, items, Listing(trace[1..], last, full));
      }
    }
  }

  lemma PageIsSound(trace: seq<View>, marker: string, items: seq<string>)
    requires trace != [] && Fetch(trace[0], marker) == Ok(items)
    ensures Sound(Outcome(items, Done, 1), trace, marker)
  {
    forall x | x in items ensures Less(marker, x) && SeenBy(trace, 1, x) {
      assert x in trace[0].keys;
    }
  }

  lemma PageThenRest(trace: seq<View>, marker: string, items: seq<string>, o: Outcome)
    requires trace != [] && items != []
    requires Sound(Outcome(items, Done, 1), trace, marker)
    requires Sound(o, trace[1..], items[|items| - 1])
    ensures Sound(Outcome(items + o.printed, o.status, 1 + o.requests), trace, marker)
  {
    var last := items[|items| - 1];
    AscendingAppend(items, o.printed);
    forall x | x in o.printed ensures Less(marker, x) && SeenBy(trace, 1 + o.requests, x) {
      LessTransitive(marker, last, x);
      var i :| 0 <= i < o.requests && i < |trace[1..]| && trace[1..][i].Sees? && x in trace[1..][i].keys;
      assert x in trace[i + 1].keys;
    }
    forall x | x in items ensures SeenBy(trace, 1 + o.requests, x) {
      assert SeenBy(trace, 1, x);
    }
  }

  /** Each of the first `n` requests can see the key. */
  ghost predicate SeenByAll(trace: seq<View>, n: nat, key: string) {
    forall i :: 0 <= i < n && i < |trace| && trace[i].Sees? ==> key in trace[i].keys
  }

  /** A full listing that ends well misses no key that all its requests could see. */
  lemma {:induction false} ListingIsComplete(trace: seq<View>, marker: string, key: string)
    requires Listing(trace, marker, true).status == Done
    requires SeenByAll(trace, Listing(trace, marker, true).requests, key)
    requires Less(marker, key)
    ensures key in Listing(trace, marker, true).printed
    decreases |trace|
  {
    assert trace[0].Sees?;
    var items := Page(Beyond(trace[0].keys, marker), trace[0].size);
    assert key in Beyond(trace[0].keys, marker);
    if key !in items {
      assert |items| == trace[0].size && AllBefore(items, key);
      var last := items[|items| - 1];
      SeenByRest(trace, Listing(trace[1..], last, true).requests, key);
      ListingIsComplete(trace[1..], last, key);
    }
  }

  lemma SeenByRest(trace: seq<View>, n: nat, key: string)
    requires trace != [] && SeenByAll(trace, n + 1, key)
    ensures SeenByAll(trace[1..], n, key)
  {
    forall i | 0 <= i < n && i < |trace[1..]| && trace[1..][i].Sees? ensures key in trace[1..][i].keys {
      assert trace[1..][i] == trace[i + 1];
    }
  }

  /** Where a listing stops: at the first request that fails, at the first empty page, or at the end of the trace
      if it is full and there was none. */
  ghost predicate Ends(o: Outcome, trace: seq<View>, marker: string, full: bool) {
    && o.requests <= |trace|
    && match o.status
       case Failed(e) => o.requests > 0 && trace[o.requests - 1] == Silent(e) && AllSee(trace, o.requests - 1)
       case Unfinished => o.requests == |trace| && AllSee(trace, |trace|) && (full || trace == [])
       case Done =>
         && o.requests > 0 && AllSee(trace, o.requests)
         && (full ==> Beyond(trace[o.requests - 1].keys, LastKey(o.printed, marker)) == {})
  }

  ghost predicate AllSee(trace: seq<View>, n: nat) {
    forall i :: 0 <= i < n && i < |trace| ==> trace[i].Sees?
  }

  function LastKey(printed: seq<string>, marker: string): string {
    if printed == [] then marker else printed[|printed| - 1]
  }

  /** A listing fails exactly with the error of its last request; if it is full, it ends well exactly when
      its last request can see nothing beyond the last key printed. */
  lemma {:induction false} ListingEnds(trace: seq<View>, marker: string, full: bool)
    ensures Ends(Listing(trace, marker, full), trace, marker, full)
    decreases |trace|
  {
    if trace != [] && trace[0].Sees? {
      var items := Page(Beyond(trace[0].keys, marker), trace[0].size);
      if items == [] {
        assert Beyond(trace[0].keys, marker) == {};
      } else if full {
        var o := Listing(trace[1..], items[|items| - 1], full);
        ListingEnds(trace[1..], items[|items| - 1], full);
        EndsAfterPage(o, trace, marker, items);
      }
    }
  }

  lemma EndsAfterPage(o: Outcome, trace: seq<View>, marker: string, items: seq<string>)
    requires trace != [] && trace[0].Sees? && items != []
    requires Ends(o, trace[1..], items[|items| - 1], true)
    ensures Ends(Outcome(items + o.printed, o.status, 1 + o.requests), trace, marker, true)
  {
    forall i | 0 <= i < |trace[1..]| ensures trace[1..][i] == trace[i + 1] {}
    assert LastKey(items + o.printed, marker) == LastKey(o.printed, items[|items| - 1]);
    forall n: nat | AllSee(trace[1..], n) ensures AllSee(trace, n + 1) {
      forall i | 0 <= i < n + 1 && i < |trace| ensures trace[i].Sees? {
        assert i > 0 ==> trace[1..][i - 1] == trace[i];
      }
    }
    match o.status {
      case Failed(_) => assert o.requests > 0;
      case _ =>
    }
  }

  /** Without the full mode, one request prints the start of the ordered keys beyond the marker. */
  lemma SinglePage(trace: seq<View>, marker: string)
    requires trace != [] && trace[0].Sees?
    ensures var o := Listing(trace, marker, false);
            && o.status == Done && o.requests == 1
            && |o.printed| <= |Beyond(trace[0].keys, marker)|
            && o.printed <= Sorted(Beyond(trace[0].keys, marker))
            && (|o.printed| < trace[0].size ==> o.printed == Sorted(Beyond(trace[0].keys, marker)))
            && |o.printed| <= trace[0].size
  {
    var keys := Beyond(trace[0].keys, marker);
    PageIsStart(keys, trace[0].size);
    PageLength(keys, trace[0].size);
    AscendingSize(Sorted(keys));
  }

  // ---------- when the keys do not change ----------

  /** Every request is answered and can see the same keys after the marker. */
  ghost predicate Steady(trace: seq<View>, marker: string, keys: set<string>) {
    forall i :: 0 <= i < |trace| ==> trace[i].Sees? && Beyond(trace[i].keys, marker) == keys
  }

  /** After a page, what is left for the next request is what was not on it. */
  lemma BeyondPage(keys: set<string>, marker: string, items: seq<string>, m: nat)
    requires IsPage(items, Beyond(keys, marker), m) && items != []
    ensures Beyond(keys, items[|items| - 1]) == Beyond(keys, marker) - Elements(items)
  {
    var last := items[|items| - 1];
    assert last in Beyond(keys, marker);
    forall x ensures x in Beyond(keys, last) <==> x in Beyond(keys, marker) && x !in items {
      if Less(last, x) {
        LessTransitive(marker, last, x);
      }
      if x in items {
        var j :| 0 <= j < |items| && items[j] == x;
        LessTotal(x, last);
      }
    }
  }

  lemma SteadyRest(trace: seq<View>, marker: string, keys: set<string>, items: seq<string>, m: nat)
    requires trace != [] && Steady(trace, marker, keys)
    requires IsPage(items, keys, m) && items != []
    ensures Steady(trace[1..], items[|items| - 1], keys - Elements(items))
  {
    forall i | 0 <= i < |trace[1..]|
      ensures trace[1..][i].Sees? && Beyond(trace[1..][i].keys, items[|items| - 1]) == keys - Elements(items)
    {
      BeyondPage(trace[i + 1].keys, marker, items, m);
    }
  }

  /** One request on a steady trace: a page, and a steady trace for what is left. */
  lemma SteadyStep(trace: seq<View>, marker: string, keys: set<string>) returns (items: seq<string>, rest: set<string>)
    requires trace != [] && Steady(trace, marker, keys)
    ensures Fetch(trace[0], marker) == Ok(items)
    ensures Ascending(items) && keys == Elements(items) + rest && |items| + |rest| == |keys|
    ensures |items| <= trace[0].size && (rest != {} ==> |items| == trace[0].size)
    ensures items != [] ==> Steady(trace[1..], items[|items| - 1], rest)
  {
    items := Page(keys, trace[0].size);
    rest := keys - Elements(items);
    AscendingSize(items);
    assert Elements(items) <= keys && keys == Elements(items) + rest;
    if items != [] {
      SteadyRest(trace, marker, keys, items, trace[0].size);
    }
  }

  /** If the keys do not change, the listing ends and prints one ordered scan of all of them; each request but
      the last brings at least one key. */
  lemma {:induction false} SteadyListingIsScan(trace: seq<View>, marker: string, keys: set<string>)
    requires Steady(trace, marker, keys)
    requires |trace| > |keys|
    ensures Listing(trace, marker, true).status == Done
    ensures Listing(trace, marker, true).printed == Sorted(keys)
    ensures Listing(trace, marker, true).requests <= |keys| + 1
    decreases |trace|
  {
    var items, rest := SteadyStep(trace, marker, keys);
    if items == [] {
      assert keys == {};
      assert Elements(Sorted(keys)) == {};
    } else {
      var last := items[|items| - 1];
      SteadyListingIsScan(trace[1..], last, rest);
      ListingIsSound(trace[1..], last, true);
      ScanContinues(items, Listing(trace[1..], last, true).printed, keys, rest);
    }
  }

  lemma ScanContinues(items: seq<string>, printed: seq<string>, keys: set<string>, rest: set<string>)
    requires Ascending(items) && items != [] && keys == Elements(items) + rest
    requires printed == Sorted(rest) && forall x :: x in printed ==> Less(items[|items| - 1], x)
    ensures items + printed == Sorted(keys)
  {
    AscendingAppend(items, printed);
    assert Elements(items + printed) == Elements(items) + Elements(printed);
    AscendingUnique(items + printed, Sorted(keys));
  }

  /** The number of pages of `n` that `count` keys fill, the last one maybe not in full. */
  function Pages(count: nat, n: Size): nat {
    if count == 0 then 0 else 1 + Pages(if count <= n then 0 else count - n, n)
  }

  /** That is `count / n`, rounded up. */
  lemma {:induction false} PagesIsCeiling(count: nat, n: Size)
    ensures count <= Pages(count, n) * n < count + n
  {
    if count > n {
      PagesIsCeiling(count - n, n);
      assert Pages(count, n) * n == Pages(count - n, n) * n + n;
    } else if count > 0 {
      assert Pages(count, n) == 1;
    }
  }

  /** With pages of `n` keys, the scan takes as many requests as it has pages, and one more for the empty page
      that ends it. */
  lemma {:induction false} SteadyRequests(trace: seq<View>, marker: string, keys: set<string>, n: Size)
    requires Steady(trace, marker, keys)
    requires |trace| > |keys|
    requires forall i :: 0 <= i < |trace| && trace[i].Sees? ==> trace[i].size == n
    ensures Listing(trace, marker, true).requests == Pages(|keys|, n) + 1
    decreases |trace|
  {
    var items, rest := SteadyStep(trace, marker, keys);
    if items == [] {
      assert rest == {};
    } else {
      SteadyRequests(trace[1..], items[|items| - 1], rest, n);
    }
  }
}
