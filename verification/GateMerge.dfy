/** The merge of the pages sent back by the index stores, `keepSingleDedup`
    (internal/cmd-index-gate/service.go). */
module GateMerge {
  import opened ByteOrder

  /** No page holds the empty string, which the merge takes for the end. */
  ghost predicate NoBlank(tabs: seq<seq<string>>) {
    forall i, j :: 0 <= i < |tabs| && 0 <= j < |tabs[i]| ==> tabs[i][j] != ""
  }

  /** Pages as the merge expects them: in order (repeats allowed) and without the empty string. */
  ghost predicate Mergeable(tabs: seq<seq<string>>) {
    && NoBlank(tabs)
    && (forall i, j, k :: 0 <= i < |tabs| && 0 <= j < k < |tabs[i]| ==> !Less(tabs[i][k], tabs[i][j]))
  }

  ghost function Union(tabs: seq<seq<string>>): set<string> {
    set i, j | 0 <= i < |tabs| && 0 <= j < |tabs[i]| :: tabs[i][j]
  }

  class Merger {
    const tabs: seq<seq<string>>
    const indices: array<nat>
    var last: string

    ghost predicate Consistent() reads indices {
      && indices.Length == |tabs|
      && (forall i :: 0 <= i < |tabs| ==> indices[i] <= |tabs[i]|)
    }

    /** The positions that no cursor has passed yet. */
    ghost function Ahead(): set<(nat, nat)>
      requires Consistent()
      reads indices
    {
      set i: nat, j: nat | i < |tabs| && indices[i] <= j < |tabs[i]| :: (i, j)
    }

    ghost function Unread(): set<string>
      requires Consistent()
      reads indices
    {
      set p | p in Ahead() :: tabs[p.0][p.1]
    }

    /** Over pages in order, no cursor is behind the last item sent. */
    ghost predicate InStep() reads this, indices {
      Consistent() && (Mergeable(tabs) ==> forall x :: x in Unread() ==> !Less(x, last))
    }

    constructor (tabs: seq<seq<string>>)
      ensures InStep() && fresh(indices) && this.tabs == tabs && last == ""
      ensures Unread() == Union(tabs)
    {
      this.tabs, last := tabs, "";
      indices := new nat[|tabs|](_ => 0);
      new;
      forall x ensures x in Unread() <==> x in Union(tabs) {
        if x in Union(tabs) {
          var i, j :| 0 <= i < |tabs| && 0 <= j < |tabs[i]| && tabs[i][j] == x;
          assert (i, j) in Ahead();
        }
      }
    }

    /** The cursor of a page is on the item `x`. */
    predicate HeadIs(i: nat, x: string)
      requires indices.Length == |tabs|
      reads indices
    {
      i < |tabs| && indices[i] < |tabs[i]| && tabs[i][indices[i]] == x
    }

    /** Looks for the least item under the cursors; the empty string if all cursors are at the end. */
    method LeastHead() returns (min: string, iMin: nat)
      requires Consistent()
      ensures min == "" && NoBlank(tabs) ==> Ahead() == {}
      ensures min != "" ==> HeadIs(iMin, min)
      ensures Mergeable(tabs) ==> forall x :: x in Unread() ==> !Less(x, min)
    {
      min, iMin := "", 0;
      for i := 0 to |tabs|
        invariant min == "" && NoBlank(tabs) ==> forall k :: 0 <= k < i ==> indices[k] == |tabs[k]|
        invariant min != "" ==> HeadIs(iMin, min)
        invariant NoBlank(tabs) ==> HeadsNotBelow(i, min)
      {
        if indices[i] >= |tabs[i]| {
          continue;
        }
        var obj := tabs[i][indices[i]];
        if min == "" || Less(obj, min) {
          if NoBlank(tabs) {
            HeadsAbove(i, min, obj);
          }
          iMin, min := i, obj;
        }
      }
      if Mergeable(tabs) {
        HeadIsLeast(min);
      }
    }

    /** The first `n` cursors are at the end or on items that are not below `min`. */
    ghost predicate HeadsNotBelow(n: nat, min: string)
      requires Consistent() && n <= |tabs|
      reads indices
    {
      forall k :: 0 <= k < n && indices[k] < |tabs[k]| ==> !Less(tabs[k][indices[k]], min)
    }

    /** Takes the least item under the cursors: one cursor moves past it, by one place. */
    method Min() returns (min: string)
      requires Consistent()
      modifies indices
      ensures Consistent()
      ensures min == "" ==> indices[..] == old(indices[..])
      ensures min == "" && NoBlank(tabs) ==> Unread() == {}
      ensures min != "" ==> exists i :: 0 <= i < |tabs| && old(HeadIs(i, min))
                                         && indices[..] == old(indices[..])[i := old(indices[i]) + 1]
      ensures min != "" ==> Ahead() < old(Ahead()) && old(Unread()) == Unread() + {min}
      ensures Mergeable(tabs) ==> forall x :: x in old(Unread()) ==> !Less(x, min)
    {
      var iMin;
      min, iMin := LeastHead();
      if min != "" {
        ghost var ahead, unread := Ahead(), Unread();
        indices[iMin] := indices[iMin] + 1;
        OnePassed(ahead, unread, (iMin, indices[iMin] - 1));
      }
    }

    /** What is unread before the cursor on `taken` moves: the item it was on, and what is unread after. */
    lemma OnePassed(ahead: set<(nat, nat)>, unread: set<string>, taken: (nat, nat))
      requires Consistent()
      requires taken.0 < |tabs| && taken.1 < |tabs[taken.0]| && indices[taken.0] == taken.1 + 1
      requires ahead == Ahead() + {taken} && unread == set p | p in ahead :: tabs[p.0][p.1]
      ensures Ahead() < ahead && unread == Unread() + {tabs[taken.0][taken.1]}
    {
      assert taken !in Ahead();
      forall x | x in unread ensures x in Unread() + {tabs[taken.0][taken.1]} {
        var p :| p in ahead && tabs[p.0][p.1] == x;
        if p != taken {
          assert p in Ahead();
        }
      }
      forall x | x in Unread() ensures x in unread {
        var p :| p in Ahead() && tabs[p.0][p.1] == x;
        assert p in ahead;
      }
    }

    /** A smaller head keeps the heads seen so far above it. */
    lemma HeadsAbove(i: nat, min: string, obj: string)
      requires Consistent() && i < |tabs| && HeadIs(i, obj)
      requires min == "" ==> forall k :: 0 <= k < i ==> indices[k] == |tabs[k]|
      requires HeadsNotBelow(i, min)
      requires min == "" || Less(obj, min)
      ensures HeadsNotBelow(i + 1, obj)
    {
      forall k | 0 <= k < i + 1 && indices[k] < |tabs[k]| ensures !Less(tabs[k][indices[k]], obj) {
        var head := tabs[k][indices[k]];
        LessTotal(obj, obj);
        if k < i && Less(head, obj) {
          LessTransitive(head, obj, min);
        }
      }
    }

    /** What is not below any head is not below any unread item. */
    lemma HeadIsLeast(min: string)
      requires Consistent() && Mergeable(tabs) && HeadsNotBelow(|tabs|, min)
      ensures forall x :: x in Unread() ==> !Less(x, min)
    {
      forall x | x in Unread() ensures !Less(x, min) {
        var p :| p in Ahead() && tabs[p.0][p.1] == x;
        var head := tabs[p.0][indices[p.0]];
        LessTotal(head, x);
        LessTotal(min, x);
        LessTotal(head, min);
        if Less(x, min) && Less(head, x) {
          LessTransitive(head, x, min);
        }
      }
    }

    /** The next item to send; the empty string when there is none. */
    method Poll() returns (obj: string)
      requires InStep()
      modifies this, indices
      ensures InStep() && (obj != "" ==> last == obj)
      ensures Ahead() <= old(Ahead()) && (obj != "" ==> Ahead() < old(Ahead()))
      ensures Polled(tabs, old(Unread()), old(last), obj, Unread())
    {
      ghost var before := Unread();
      while true
        invariant InStep() && last == old(last) && Ahead() <= old(Ahead())
        invariant Unread() <= before <= Unread() + {last}
        decreases Ahead()
      {
        obj := Min();
        if obj == "" {
          return "";
        }
        LeastOfTheRest(tabs, before, last, obj, Unread());
        if last == "" {
          last := obj;
          return last;
        }
        if last == obj {
          continue;
        }
        last := obj;
        return last;
      }
    }
  }

  /** What one poll does: the item differs from the last one sent and was unread, nothing is lost but it and
      repeats of the last one; over pages in order it is the least of what was still to be sent. */
  ghost predicate Polled(tabs: seq<seq<string>>, before: set<string>, last: string, obj: string, after: set<string>) {
    && after <= before
    && (obj == "" && NoBlank(tabs) ==> after == {} && before <= {last})
    && (obj != "" ==> obj != last && obj in before && before <= after + {obj, last})
    && (obj != "" && Mergeable(tabs) ==> IsLeast(obj, before - {last}) && after - {obj} == before - {last} - {obj})
  }

  /** Over pages in order, an item not below the last one, with nothing unread below it, is the least of what
      was to be sent. */
  lemma LeastOfTheRest(tabs: seq<seq<string>>, before: set<string>, last: string, obj: string, unread: set<string>)
    requires obj != "" && unread + {obj} <= before <= unread + {obj, last}
    requires Mergeable(tabs) ==> forall x :: x in unread + {obj} ==> !Less(x, obj) && !Less(x, last)
    ensures obj != last ==> Polled(tabs, before, last, obj, unread)
  {
    if Mergeable(tabs) {
      forall x | x in unread + {obj} && x != obj ensures Less(obj, x) {
        LessTotal(obj, x);
      }
    }
  }

  /** `out` is an ascending part of `all` and `left` the rest, all of it after `out`. */
  ghost predicate Parted(out: seq<string>, left: set<string>, all: set<string>) {
    && Ascending(out)
    && all == Elements(out) + left
    && forall x, y :: x in out && y in left ==> Less(x, y)
  }

  /** One more item: the least of what remains. */
  lemma PartedMoves(out: seq<string>, left: set<string>, all: set<string>, obj: string)
    requires Parted(out, left, all) && IsLeast(obj, left)
    ensures Parted(out + [obj], left - {obj}, all)
  {
    AscendingAppend(out, [obj]);
    assert Elements(out + [obj]) == Elements(out) + {obj};
  }

  lemma PartedIsPage(out: seq<string>, left: set<string>, all: set<string>, max: nat)
    requires Parted(out, left, all) && |out| <= max
    requires left == {} || |out| == max
    ensures out == Page(all, max)
  {
    PageUnique(out, Page(all, max), all, max);
  }

  /** At most `max` items of `all`, without the empty string, no two neighbours equal. */
  ghost predicate Deduplicated(out: seq<string>, all: set<string>, max: nat) {
    && |out| <= max
    && (forall x :: x in out ==> x in all && x != "")
    && (forall i :: 0 < i < |out| ==> out[i - 1] != out[i])
  }

  /** The items sent, the one polled and what is unread make up the pages; over pages in order, `left` is what
      has not been sent. */
  ghost predicate Progress(tabs: seq<seq<string>>, max: nat, out: seq<string>, left: set<string>, obj: string,
                           unread: set<string>) {
    && Deduplicated(out, Union(tabs), max)
    && unread <= Union(tabs)
    && (obj != "" ==> obj in Union(tabs) && (out == [] || out[|out| - 1] != obj))
    && (NoBlank(tabs) ==> Union(tabs) <= Elements(out) + {obj} + unread && (obj == "" ==> unread == {}))
    && (Mergeable(tabs) ==> StillToSend(left, obj, unread) && Parted(out, left, Union(tabs)))
  }

  ghost predicate StillToSend(left: set<string>, obj: string, unread: set<string>) {
    if obj == "" then left == {} else IsLeast(obj, left) && unread - {obj} == left - {obj}
  }

  lemma FirstPoll(tabs: seq<seq<string>>, max: nat, obj: string, unread: set<string>)
    requires Polled(tabs, Union(tabs), "", obj, unread)
    ensures Progress(tabs, max, [], Union(tabs), obj, unread)
  {
    NoBlankIn(tabs);
    assert NoBlank(tabs) ==> Union(tabs) - {""} == Union(tabs);
  }

  lemma NextPoll(tabs: seq<seq<string>>, max: nat, out: seq<string>, left: set<string>, sent: string,
                 before: set<string>, obj: string, unread: set<string>)
    requires Progress(tabs, max, out, left, sent, before) && sent != "" && |out| < max
    requires Polled(tabs, before, sent, obj, unread)
    ensures Progress(tabs, max, out + [sent], left - {sent}, obj, unread)
  {
    assert Elements(out + [sent]) == Elements(out) + {sent};
    if Mergeable(tabs) {
      PartedMoves(out, left, Union(tabs), sent);
      assert before - {sent} == left - {sent};
    }
  }

  lemma LastPoll(tabs: seq<seq<string>>, max: nat, out: seq<string>, left: set<string>, obj: string,
                 unread: set<string>)
    requires Progress(tabs, max, out, left, obj, unread) && (obj == "" || |out| == max)
    ensures Deduplicated(out, Union(tabs), max)
    ensures NoBlank(tabs) && |out| < max ==> Elements(out) == Union(tabs)
    ensures Mergeable(tabs) ==> out == Page(Union(tabs), max)
  {
    NoBlankIn(tabs);
    if Mergeable(tabs) {
      PartedIsPage(out, left, Union(tabs), max);
    }
  }

  /** Sends items of the pages, no two neighbours equal, and all of them if there is room and none is empty.
      When the pages are in order, they are the first `max` items of the union, in order and without repeats. */
  method KeepSingleDedup(tabs: seq<seq<string>>, max: nat) returns (out: seq<string>)
    ensures Deduplicated(out, Union(tabs), max)
    ensures NoBlank(tabs) && |out| < max ==> Elements(out) == Union(tabs)
    ensures Mergeable(tabs) ==> out == Page(Union(tabs), max)
  {
    var m := new Merger(tabs);
    out := Send(m, max);
  }

  /** The loop that polls and sends. */
  method Send(m: Merger, max: nat) returns (out: seq<string>)
    requires m.InStep() && m.last == "" && m.Unread() == Union(m.tabs)
    modifies m, m.indices
    ensures Deduplicated(out, Union(m.tabs), max)
    ensures NoBlank(m.tabs) && |out| < max ==> Elements(out) == Union(m.tabs)
    ensures Mergeable(m.tabs) ==> out == Page(Union(m.tabs), max)
  {
    ghost var left := Union(m.tabs);
    out := [];
    var sent := 0;
    var obj := m.Poll();
    FirstPoll(m.tabs, max, obj, m.Unread());
    while obj != ""
      invariant m.InStep() && sent == |out| <= max && (obj != "" ==> m.last == obj)
      invariant Progress(m.tabs, max, out, left, obj, m.Unread())
      decreases m.Ahead(), obj != ""
    {
      if sent >= max {
        break;
      }
      ghost var before, polled, unread := out, obj, m.Unread();
      out, sent := out + [obj], sent + 1;
      obj := m.Poll();
      NextPoll(m.tabs, max, before, left, polled, unread, obj, m.Unread());
      left := left - {polled};
    }
    LastPoll(m.tabs, max, out, left, obj, m.Unread());
  }

  lemma NoBlankIn(tabs: seq<seq<string>>)
    ensures NoBlank(tabs) <==> "" !in Union(tabs)
  {
  }

  /** The order in which the pages come does not matter. */
  lemma MergeIgnoresOrder(tabs: seq<seq<string>>, others: seq<seq<string>>, max: nat)
    requires multiset(tabs) == multiset(others)
    ensures Mergeable(tabs) <==> Mergeable(others)
    ensures Page(Union(tabs), max) == Page(Union(others), max)
  {
    SamePages(tabs, others);
    SamePages(others, tabs);
    assert Union(tabs) == Union(others);
  }

  lemma SamePages(tabs: seq<seq<string>>, others: seq<seq<string>>)
    requires multiset(tabs) == multiset(others)
    ensures Mergeable(others) ==> Mergeable(tabs)
    ensures Union(tabs) <= Union(others)
  {
    forall t | t in tabs ensures t in others {
      assert t in multiset(tabs);
    }
    forall x | x in Union(tabs) ensures x in Union(others) {
      var i, j :| 0 <= i < |tabs| && 0 <= j < |tabs[i]| && tabs[i][j] == x;
      var k := FindPage(tabs, others, i);
      assert others[k][j] == x;
    }
    if Mergeable(others) {
      SubPagesAreMergeable(tabs, others);
    }
  }

  lemma SubPagesAreMergeable(tabs: seq<seq<string>>, others: seq<seq<string>>)
    requires Mergeable(others) && forall t :: t in tabs ==> t in others
    ensures Mergeable(tabs)
  {
    forall i, j | 0 <= i < |tabs| && 0 <= j < |tabs[i]| ensures tabs[i][j] != "" {
      var k := FindPage(tabs, others, i);
      assert others[k][j] != "";
    }
    forall i, j, l | 0 <= i < |tabs| && 0 <= j < l < |tabs[i]| ensures !Less(tabs[i][l], tabs[i][j]) {
      var k := FindPage(tabs, others, i);
      assert !Less(others[k][l], others[k][j]);
    }
  }

  lemma FindPage(tabs: seq<seq<string>>, others: seq<seq<string>>, i: nat) returns (k: nat)
    requires i < |tabs| && forall t :: t in tabs ==> t in others
    ensures k < |others| && others[k] == tabs[i]
  {
    assert tabs[i] in others;
    k :| k < |others| && others[k] == tabs[i];
  }
}
