/** The index gate: what it makes of the replies of its backends, drained in any order
    (internal/cmd-index-gate/service.go). */
module IndexGate {
  import opened ByteOrder
  import opened IndexStore
  import opened GateMerge

  // ---------- List ----------

  /** The reply of one backend: an error, or a page. */
  datatype Answer = Failed | Items(items: seq<string>)

  function GateCap(max: nat): nat {
    if max == 0 then 1 else Capped(max)
  }

  function Tabs(answers: seq<Answer>): seq<seq<string>> {
    if answers == [] then []
    else
      var n := |answers| - 1;
      Tabs(answers[..n]) + (if answers[n].Items? then [answers[n].items] else [])
  }

  /** The same members, in any order. */
  ghost predicate Alike<T(!new)>(p: seq<T>, q: seq<T>) {
    forall x :: x in p <==> x in q
  }

  ghost predicate AnyReplied(answers: seq<Answer>) {
    exists a :: a in answers && a.Items?
  }

  ghost function AllItems(answers: seq<Answer>): set<string> {
    set a, x | a in answers && a.Items? && x in a.items :: x
  }

  /** What `List` replies. It depends only on which replies came, not on their order. */
  ghost function ListOutcome(answers: seq<Answer>, max: nat): Reply<seq<string>> {
    if AnyReplied(answers) then Ok(Page(AllItems(answers), GateCap(max))) else Err(NoBackendReplied)
  }

  lemma {:induction false} TabsHoldAllItems(answers: seq<Answer>)
    ensures Union(Tabs(answers)) == AllItems(answers)
    ensures forall t :: t in Tabs(answers) <==> Items(t) in answers
  {
    if answers != [] {
      var n := |answers| - 1;
      TabsHoldAllItems(answers[..n]);
      assert answers == answers[..n] + [answers[n]];
    }
    assert forall t :: t in Tabs(answers) <==> Items(t) in answers;
    forall x ensures x in Union(Tabs(answers)) <==> x in AllItems(answers) {
      if x in Union(Tabs(answers)) {
        var i, j :| 0 <= i < |Tabs(answers)| && 0 <= j < |Tabs(answers)[i]| && Tabs(answers)[i][j] == x;
        var t := Tabs(answers)[i];
        assert t in Tabs(answers);
        assert Items(t) in answers && t[j] in Items(t).items;
      }
      if x in AllItems(answers) {
        var a :| a in answers && a.Items? && x in a.items;
        assert a == Items(a.items) && a.items in Tabs(answers);
        var i :| 0 <= i < |Tabs(answers)| && Tabs(answers)[i] == a.items;
        var j :| 0 <= j < |a.items| && a.items[j] == x;
        assert Tabs(answers)[i][j] == x;
      }
    }
  }

  /** One more answer drained. */
  lemma TabsNext(answers: seq<Answer>, i: nat)
    requires i < |answers|
    ensures Tabs(answers[..i + 1]) == Tabs(answers[..i]) + (if answers[i].Items? then [answers[i].items] else [])
    ensures AnyReplied(answers[..i + 1]) <==> AnyReplied(answers[..i]) || answers[i].Items?
  {
    assert answers[..i + 1][..i] == answers[..i];
    assert answers[..i + 1] == answers[..i] + [answers[i]];
    assert answers[i] in answers[..i + 1];
  }

  /** The items sent come from the pages that were drained, all of them if there is room. When the pages are in
      order, the reply is the one that does not depend on the order of the answers. */
  method List(answers: seq<Answer>, max: nat) returns (r: Reply<seq<string>>)
    ensures if AnyReplied(answers) then r.Ok? else r == Err(NoBackendReplied)
    ensures r.Ok? ==> Deduplicated(r.value, AllItems(answers), GateCap(max))
    ensures r.Ok? && |r.value| < GateCap(max) && "" !in AllItems(answers) ==> Elements(r.value) == AllItems(answers)
    ensures Mergeable(Tabs(answers)) ==> r == ListOutcome(answers, max)
    ensures r.Ok? ==> |r.value| <= if max == 0 then 1 else if max <= 10000 then max else 10000
    ensures r.Ok? && Mergeable(Tabs(answers)) && |r.value| < (if max == 0 then 1 else if max <= 10000 then max else 10000)
       ==> |r.value| == |AllItems(answers)|
  {
    var cap := if max <= 0 then 1 else if max > LIST_HARD_MAX then LIST_HARD_MAX else max;
    var any, tabs := false, [];
    for i := 0 to |answers|
      invariant any <==> AnyReplied(answers[..i])
      invariant tabs == Tabs(answers[..i])
    {
      TabsNext(answers, i);
      if answers[i].Items? {
        any, tabs := true, tabs + [answers[i].items];
      }
    }
    assert answers[..|answers|] == answers;
    TabsHoldAllItems(answers);
    NoBlankIn(tabs);
    var items := KeepSingleDedup(tabs, cap);
    PageLength(AllItems(answers), cap);
    if !any {
      return Err(NoBackendReplied);
    } else {
      return Ok(items);
    }
  }

  lemma ListOutcomeIgnoresOrder(answers: seq<Answer>, others: seq<Answer>, max: nat)
    requires Alike(answers, others)
    ensures ListOutcome(answers, max) == ListOutcome(others, max)
  {
    assert AllItems(answers) == AllItems(others);
  }

  // ---------- List, over stores ----------

  /** What became of the call to one backend: it failed on the way, or it met the store in some state. */
  datatype Call = Lost | Reached(db: DB)

  /** A store that is reached answers the request with the capped maximum; its errors count as failures. */
  ghost function AnswerOf(c: Call, base: string, marker: string, max: nat): Answer {
    match c
    case Lost => Failed
    case Reached(db) =>
      match ListReply(db, base, marker, GateCap(max))
      case Ok(items) => Items(items)
      case Err(_) => Failed
  }

  ghost function Answers(calls: seq<Call>, base: string, marker: string, max: nat): seq<Answer> {
    seq(|calls|, i requires 0 <= i < |calls| => AnswerOf(calls[i], base, marker, max))
  }

  /** The keys after the marker on any store that is reached. */
  ghost function Visible(calls: seq<Call>, base: string, marker: string): set<string> {
    set c, k | c in calls && c.Reached? && k in After(c.db, base, marker) :: k
  }

  ghost predicate SomeReached(calls: seq<Call>) {
    exists c :: c in calls && c.Reached?
  }

  /** The empty key comes after no marker, so that it is never listed. */
  lemma NoEmptyKey(db: DB, base: string, marker: string)
    ensures "" !in After(db, base, marker)
  {
    InAfter(db, base, marker, "");
  }

  /** The pages do not depend on the order of the answers, nor on repeats: they can be merged, or not. */
  lemma SameTabs(answers: seq<Answer>, others: seq<Answer>)
    requires Mergeable(Tabs(others)) && forall a :: a in answers ==> a in others
    ensures Mergeable(Tabs(answers))
  {
    TabsHoldAllItems(answers);
    TabsHoldAllItems(others);
    SubPagesAreMergeable(Tabs(answers), Tabs(others));
  }

  /** Stores send what the merge expects. */
  lemma StoresSendMergeablePages(calls: seq<Call>, base: string, marker: string, max: nat)
    ensures Mergeable(Tabs(Answers(calls, base, marker, max)))
  {
    var tabs := Tabs(Answers(calls, base, marker, max));
    forall i, j | 0 <= i < |tabs| && 0 <= j < |tabs[i]| ensures tabs[i][j] != "" {
      StorePage(calls, base, marker, max, tabs[i]);
      assert tabs[i][j] in tabs[i];
    }
    forall i, j, k | 0 <= i < |tabs| && 0 <= j < k < |tabs[i]| ensures !Less(tabs[i][k], tabs[i][j]) {
      StorePage(calls, base, marker, max, tabs[i]);
      LessTotal(tabs[i][j], tabs[i][k]);
    }
  }

  lemma StorePage(calls: seq<Call>, base: string, marker: string, max: nat, t: seq<string>)
    requires t in Tabs(Answers(calls, base, marker, max))
    ensures Ascending(t) && "" !in t
  {
    var answers := Answers(calls, base, marker, max);
    TabsHoldAllItems(answers);
    var i :| 0 <= i < |answers| && answers[i] == Items(t);
    NoEmptyKey(calls[i].db, base, marker);
  }

  /** If the union of the parts cut at `n >= m` items has page `p`, so has the union of the parts: nothing
      that was cut off belongs to the first `m`. */
  lemma CutPartsSuffice(p: seq<string>, cutAll: set<string>, m: nat, n: nat, part: set<string>, x: string)
    requires IsPage(p, cutAll, m) && m <= n
    requires Elements(Page(part, n)) <= cutAll && x in part && x !in p
    ensures |p| == m && AllBefore(p, x)
  {
    var t := Page(part, n);
    AscendingSize(p);
    AscendingSize(t);
    if x !in t {
      assert |t| == n && AllBefore(t, x);
      if |p| < m {
        assert Elements(t) <= Elements(p);
        Smaller(Elements(t), Elements(p));
      } else if y :| y in p && !Less(y, x) {
        TruncatedIsIncluded(p, cutAll, m, t, x, y);
        Smaller(Elements(t) + {y}, Elements(p));
      }
    }
  }

  lemma TruncatedIsIncluded(p: seq<string>, s: set<string>, m: nat, t: seq<string>, x: string, y: string)
    requires IsPage(p, s, m) && Elements(t) <= s
    requires AllBefore(t, x) && y in p && !Less(y, x)
    ensures Elements(t) <= Elements(p) && y !in t
  {
    forall z | z in t ensures z in p {
      LessTotal(x, y);
      if Less(x, y) {
        LessTransitive(z, x, y);
      }
      LessTotal(z, y);
    }
  }

  lemma ItemsAreVisible(calls: seq<Call>, base: string, marker: string, max: nat, x: string)
    requires x in AllItems(Answers(calls, base, marker, max))
    ensures x in Visible(calls, base, marker)
  {
    var answers := Answers(calls, base, marker, max);
    var a :| a in answers && a.Items? && x in a.items;
    var i :| 0 <= i < |answers| && answers[i] == a;
    assert calls[i] in calls && x in After(calls[i].db, base, marker);
  }

  lemma AnswerIsThere(calls: seq<Call>, base: string, marker: string, max: nat, c: Call)
    requires base != "" && c in calls && c.Reached?
    ensures Items(Page(After(c.db, base, marker), Capped(GateCap(max)) + 1)) in Answers(calls, base, marker, max)
  {
    var i :| 0 <= i < |calls| && calls[i] == c;
    assert Answers(calls, base, marker, max)[i] == AnswerOf(c, base, marker, max);
  }

  lemma SomeReachedIffReplied(calls: seq<Call>, base: string, marker: string, max: nat)
    ensures AnyReplied(Answers(calls, base, marker, max)) <==> base != "" && SomeReached(calls)
  {
    var answers := Answers(calls, base, marker, max);
    if a :| a in answers && a.Items? {
      var i :| 0 <= i < |answers| && answers[i] == a;
      assert calls[i] in calls && calls[i].Reached?;
    }
    if c :| base != "" && c in calls && c.Reached? {
      AnswerIsThere(calls, base, marker, max, c);
    }
  }

  lemma MergedPageIsUnionPage(calls: seq<Call>, base: string, marker: string, max: nat)
    requires base != ""
    ensures Page(AllItems(Answers(calls, base, marker, max)), GateCap(max))
         == Page(Visible(calls, base, marker), GateCap(max))
  {
    var m, n := GateCap(max), Capped(GateCap(max)) + 1;
    var items := AllItems(Answers(calls, base, marker, max));
    var all := Visible(calls, base, marker);
    var p := Page(items, m);
    forall x | x in p ensures x in all {
      ItemsAreVisible(calls, base, marker, max, x);
    }
    forall x | x in all && x !in p ensures |p| == m && AllBefore(p, x) {
      var c :| c in calls && c.Reached? && x in After(c.db, base, marker);
      AnswerIsThere(calls, base, marker, max, c);
      assert Elements(Page(After(c.db, base, marker), n)) <= items;
      CutPartsSuffice(p, items, m, n, After(c.db, base, marker), x);
    }
    PageUnique(p, Page(all, m), all, m);
  }

  /** A gate page is the first keys of the union of what the reached stores hold, although every store sent
      only the start of its part. */
  lemma GatePageIsUnionPage(calls: seq<Call>, base: string, marker: string, max: nat)
    ensures ListOutcome(Answers(calls, base, marker, max), max)
         == if base != "" && SomeReached(calls) then Ok(Page(Visible(calls, base, marker), GateCap(max)))
            else Err(NoBackendReplied)
  {
    SomeReachedIffReplied(calls, base, marker, max);
    if base != "" {
      MergedPageIsUnionPage(calls, base, marker, max);
    }
  }

  /** In plain terms: a gate sends between 1 and 10000 keys at most, as asked for, and fewer only if the reached
      stores hold no more. */
  lemma GatePageSize(calls: seq<Call>, base: string, marker: string, max: nat)
    requires base != "" && SomeReached(calls)
    ensures ListOutcome(Answers(calls, base, marker, max), max).Ok?
    ensures var room := if max == 0 then 1 else if max <= 10000 then max else 10000;
            var held := |Visible(calls, base, marker)|;
            |ListOutcome(Answers(calls, base, marker, max), max).value| == if held < room then held else room
  {
    GatePageIsUnionPage(calls, base, marker, max);
    PageLength(Visible(calls, base, marker), GateCap(max));
  }

  /** What a store that is reached sends to the gate: one key more than the gate will send. */
  lemma AnswerSize(db: DB, base: string, marker: string, max: nat)
    requires base != ""
    ensures AnswerOf(Reached(db), base, marker, max).Items?
    ensures var room := (if max == 0 then 1 else if max <= 10000 then max else 10000) + 1;
            var held := |After(db, base, marker)|;
            |AnswerOf(Reached(db), base, marker, max).items| == if held < room then held else room
  {
    ListReplySize(db, base, marker, GateCap(max));
  }

  // ---------- Get ----------

  /** The reply of one backend to `Get`: an error, or a value and its version. */
  datatype ValueAnswer = NoValue | Value(value: string, version: nat)

  type ValueReply = Reply<(string, nat)>

  /** The answer to `Get`: the first arrived among the highest positive versions; version 0 and the empty
      value if no version is positive; an error if no backend succeeded. */
  ghost predicate IsGetOutcome(answers: seq<ValueAnswer>, r: ValueReply) {
    match r
    case Err(e) => e == NoBackendReplied && forall a :: a in answers ==> a.NoValue?
    case Ok((value, version)) =>
      && (exists a :: a in answers && a.Value?)
      && (forall a :: a in answers && a.Value? ==> a.version <= version)
      && (version == 0 ==> value == "")
      && (version > 0 ==> exists i :: FirstOfVersion(answers, i, version) && answers[i].value == value)
  }

  ghost predicate FirstOfVersion(answers: seq<ValueAnswer>, i: int, version: nat) {
    && 0 <= i < |answers| && answers[i].Value? && answers[i].version == version
    && forall j :: 0 <= j < i && answers[j].Value? ==> answers[j].version != version
  }

  method Get(answers: seq<ValueAnswer>) returns (r: ValueReply)
    ensures IsGetOutcome(answers, r)
  {
    var any, value, version := false, "", 0;
    for i := 0 to |answers|
      invariant any <==> exists a :: a in answers[..i] && a.Value?
      invariant forall j :: 0 <= j < i && answers[j].Value? ==> answers[j].version <= version
      invariant version == 0 ==> value == ""
      invariant version > 0 ==> exists j :: j < i && FirstOfVersion(answers, j, version) && answers[j].value == value
    {
      var x := answers[i];
      assert answers[..i + 1] == answers[..i] + [x];
      if x.Value? {
        any := true;
        assert x in answers[..i + 1];
        if x.version > version {
          value, version := x.value, x.version;
          assert FirstOfVersion(answers, i, version);
        }
      }
    }
    assert answers[..|answers|] == answers;
    if !any {
      return Err(NoBackendReplied);
    } else {
      return Ok((value, version));
    }
  }

  lemma GetOutcomeUnique(answers: seq<ValueAnswer>, r: ValueReply, s: ValueReply)
    requires IsGetOutcome(answers, r) && IsGetOutcome(answers, s)
    ensures r == s
  {
    if r.Ok? && s.Ok? {
      assert r.value.1 == s.value.1;
    }
  }

  /** How one more answer changes the outcome: it is kept if its version is higher than that of the answer kept so
      far, which starts as the empty value with version 0. */
  lemma GetOutcomeNext(answers: seq<ValueAnswer>, x: ValueAnswer, r: ValueReply, r': ValueReply)
    requires IsGetOutcome(answers, r) && IsGetOutcome(answers + [x], r')
    ensures r' == if x.NoValue? then r
                  else if x.version > (if r.Ok? then r.value.1 else 0) then Ok((x.value, x.version))
                  else if r.Ok? then r
                  else Ok(("", 0))
  {
    var more := answers + [x];
    var expected := if x.NoValue? then r
                    else if x.version > (if r.Ok? then r.value.1 else 0) then Ok((x.value, x.version))
                    else if r.Ok? then r
                    else Ok(("", 0));
    assert forall a :: a in more <==> a in answers || a == x;
    assert more[|answers|] == x;
    if expected.Ok? && expected.value.1 > 0 {
      if expected == r {
        var i :| FirstOfVersion(answers, i, r.value.1) && answers[i].value == r.value.0;
        assert FirstOfVersion(more, i, r.value.1) && more[i].value == r.value.0;
      } else {
        forall j | 0 <= j < |answers| && more[j].Value? ensures more[j].version != x.version {
          assert more[j] in answers;
        }
        assert FirstOfVersion(more, |answers|, x.version);
      }
    }
    GetOutcomeUnique(more, expected, r');
  }

  lemma NoOutcomeYet(r: ValueReply)
    requires IsGetOutcome([], r)
    ensures r == Err(NoBackendReplied)
  {
  }

  /** The backends that hold the highest positive version hold the same value. */
  ghost predicate WinnersAgree(answers: seq<ValueAnswer>) {
    forall a, b :: a in answers && b in answers && Winner(a, answers) && Winner(b, answers) ==> a == b
  }

  ghost predicate Winner(a: ValueAnswer, answers: seq<ValueAnswer>) {
    a.Value? && a.version > 0 && forall b :: b in answers && b.Value? ==> b.version <= a.version
  }

  /** The answer is the same for every order of arrival exactly when the winners agree. */
  lemma GetIgnoresOrderIffWinnersAgree(answers: seq<ValueAnswer>, r: ValueReply)
    requires IsGetOutcome(answers, r)
    ensures WinnersAgree(answers)
       <==> forall others, s :: multiset(others) == multiset(answers) && IsGetOutcome(others, s) ==> s == r
  {
    if WinnersAgree(answers) {
      forall others, s | multiset(others) == multiset(answers) && IsGetOutcome(others, s) ensures s == r {
        SameMembers(others, answers);
        SameAnswer(answers, r, others, s);
      }
    } else {
      var others, s := OtherOrder(answers, r);
    }
  }

  /** If two winners differ, the one that was not kept could have come first. */
  lemma OtherOrder(answers: seq<ValueAnswer>, r: ValueReply) returns (others: seq<ValueAnswer>, s: ValueReply)
    requires IsGetOutcome(answers, r) && !WinnersAgree(answers)
    ensures multiset(others) == multiset(answers) && IsGetOutcome(others, s) && s != r
  {
    var a, b :| a in answers && b in answers && Winner(a, answers) && Winner(b, answers) && a != b;
    var other := if r.Ok? && r.value.0 == a.value then b else a;
    var k :| 0 <= k < |answers| && answers[k] == other;
    others := [other] + (answers[..k] + answers[k + 1..]);
    s := Ok((other.value, other.version));
    MovedToFront(answers, k);
    SameMembers(others, answers);
    FirstWinnerDecides(others, other);
  }

  lemma FirstWinnerDecides(answers: seq<ValueAnswer>, a: ValueAnswer)
    requires answers != [] && answers[0] == a && Winner(a, answers)
    ensures IsGetOutcome(answers, Ok((a.value, a.version)))
  {
    assert a in answers && FirstOfVersion(answers, 0, a.version);
  }

  lemma MovedToFront<T>(q: seq<T>, k: nat)
    requires k < |q|
    ensures multiset([q[k]] + (q[..k] + q[k + 1..])) == multiset(q)
  {
    assert q == q[..k] + [q[k]] + q[k + 1..];
  }

  lemma AlikeThrough<T(!new)>(p: seq<T>, q: seq<T>, r: seq<T>)
    requires Alike(p, q) && (Alike(q, r) || Alike(r, q))
    ensures Alike(p, r)
  {
  }

  lemma AlikeWinner(answers: seq<ValueAnswer>, others: seq<ValueAnswer>, a: ValueAnswer)
    requires Alike(answers, others)
    ensures Winner(a, answers) <==> Winner(a, others)
  {
  }

  lemma AlikeWinnersAgree(answers: seq<ValueAnswer>, others: seq<ValueAnswer>)
    requires Alike(answers, others) && WinnersAgree(others)
    ensures WinnersAgree(answers)
  {
    forall a, b | a in answers && b in answers && Winner(a, answers) && Winner(b, answers) ensures a == b {
      AlikeWinner(answers, others, a);
      AlikeWinner(answers, others, b);
    }
  }

  lemma SameMembers<T(!new)>(p: seq<T>, q: seq<T>)
    requires multiset(p) == multiset(q)
    ensures Alike(p, q)
  {
    forall x ensures x in p <==> x in q {
      assert x in p <==> x in multiset(p);
    }
  }

  lemma SameAnswer(answers: seq<ValueAnswer>, r: ValueReply, others: seq<ValueAnswer>, s: ValueReply)
    requires IsGetOutcome(answers, r) && IsGetOutcome(others, s)
    requires WinnersAgree(answers) && Alike(others, answers)
    ensures s == r
  {
    if r.Ok? && s.Ok? && r.value.1 > 0 {
      var i :| FirstOfVersion(answers, i, r.value.1) && answers[i].value == r.value.0;
      assert answers[i] in answers && answers[i] in others;
      assert s.value.1 == r.value.1;
      var j :| FirstOfVersion(others, j, s.value.1) && others[j].value == s.value.0;
      assert others[j] in others;
      assert Winner(answers[i], answers) && Winner(others[j], answers);
    }
  }

  /** Stores leave the version at 0. */
  ghost function ValueAnswerOf(c: Call, base: string, key: string): ValueAnswer {
    if c.Lost? then NoValue
    else
      var r := GetReply(c.db, base, key);
      if r.Ok? then Value(r.value, 0) else NoValue
  }

  ghost function ValueAnswers(calls: seq<Call>, base: string, key: string): seq<ValueAnswer> {
    seq(|calls|, i requires 0 <= i < |calls| => ValueAnswerOf(calls[i], base, key))
  }

  ghost predicate Found(calls: seq<Call>, base: string, key: string) {
    exists c :: c in calls && c.Reached? && (base, key) in Pairs(c.db)
  }

  lemma StoresLeaveVersionAtZero(calls: seq<Call>, base: string, key: string, a: ValueAnswer)
    requires a in ValueAnswers(calls, base, key) && a.Value?
    ensures a.version == 0 && Found(calls, base, key)
  {
    var i :| 0 <= i < |calls| && ValueAnswerOf(calls[i], base, key) == a;
    assert calls[i] in calls;
  }

  lemma FoundIsAnswered(calls: seq<Call>, base: string, key: string)
    requires Found(calls, base, key)
    ensures exists a :: a in ValueAnswers(calls, base, key) && a.Value?
  {
    var c :| c in calls && c.Reached? && (base, key) in Pairs(c.db);
    var i :| 0 <= i < |calls| && calls[i] == c;
    assert ValueAnswers(calls, base, key)[i] == ValueAnswerOf(c, base, key);
  }

  /** Over stores, `Get` finds a pair exactly when a reached store holds it, but the value is lost: as no
      version is positive, the reply is always the empty value, in whatever order the answers come. */
  lemma GetOverStoresLosesTheValue(calls: seq<Call>, base: string, key: string, answers: seq<ValueAnswer>,
                                   r: ValueReply)
    requires Alike(answers, ValueAnswers(calls, base, key)) && IsGetOutcome(answers, r)
    ensures r == if Found(calls, base, key) then Ok(("", 0)) else Err(NoBackendReplied)
  {
    match r {
      case Err(_) =>
        if Found(calls, base, key) {
          FoundIsAnswered(calls, base, key);
        }
      case Ok(_) =>
        GetOverStoresIsEmpty(calls, base, key, answers, r);
    }
  }

  lemma GetOverStoresIsEmpty(calls: seq<Call>, base: string, key: string, answers: seq<ValueAnswer>, r: ValueReply)
    requires (forall a :: a in answers ==> a in ValueAnswers(calls, base, key)) && IsGetOutcome(answers, r) && r.Ok?
    ensures r == Ok(("", 0)) && Found(calls, base, key)
  {
    var a :| a in answers && a.Value?;
    StoresLeaveVersionAtZero(calls, base, key, a);
    if r.value.1 > 0 {
      var i :| FirstOfVersion(answers, i, r.value.1);
      StoresLeaveVersionAtZero(calls, base, key, answers[i]);
    }
  }

  // ---------- Put and Delete ----------

  /** `Put` and `Delete` succeed when one backend did. */
  method Acknowledge(succeeded: seq<bool>) returns (r: Reply<()>)
    ensures r == if true in succeeded then Ok(()) else Err(NoBackendReplied)
  {
    var any := false;
    for i := 0 to |succeeded|
      invariant any <==> true in succeeded[..i]
    {
      assert succeeded[..i + 1] == succeeded[..i] + [succeeded[i]];
      if succeeded[i] {
        any := true;
      }
    }
    assert succeeded[..|succeeded|] == succeeded;
    if !any {
      return Err(NoBackendReplied);
    } else {
      return Ok(());
    }
  }
}
