/** Strings cut at a separator. */
module Splitting {

  /** The pieces of `s` between the separators. */
  function Split(sep: char, s: string): (ts: seq<string>)
    ensures ts != []
  {
    if s == [] then [""] else Grown(sep, Split(sep, s[..|s| - 1]), s[|s| - 1])
  }

  /** How one more character extends the pieces. */
  function Grown(sep: char, ts: seq<string>, c: char): (r: seq<string>)
    requires ts != []
    ensures r != []
  {
    if c == sep then ts + [""] else ts[..|ts| - 1] + [ts[|ts| - 1] + [c]]
  }

  lemma SplitNext(sep: char, s: string, i: nat, ts: seq<string>) returns (ts': seq<string>)
    requires i < |s| && ts == Split(sep, s[..i])
    ensures ts' == Split(sep, s[..i + 1]) && ts' == Grown(sep, ts, s[i])
  {
    ts' := Split(sep, s[..i + 1]);
    assert s[..i + 1][..i] == s[..i];
  }

  lemma {:induction false} SplitPlain(sep: char, s: string)
    requires sep !in s
    ensures Split(sep, s) == [s]
  {
    if s != [] {
      var n := |s| - 1;
      SplitPlain(sep, s[..n]);
      GrownOnce(sep, s, n, Split(sep, s[..n]));
    }
  }

  lemma GrownOnce(sep: char, s: string, n: nat, ts: seq<string>)
    requires |s| == n + 1 && s[n] != sep && ts == [s[..n]]
    ensures Grown(sep, ts, s[n]) == [s]
  {
    assert s == s[..n] + [s[n]];
  }

  lemma {:induction false} SplitAfterSeparator(sep: char, s: string, t: string)
    requires sep !in t
    ensures Split(sep, s + [sep] + t) == Split(sep, s) + [t]
  {
    var whole := s + [sep] + t;
    var n := |whole| - 1;
    if t == [] {
      assert whole[..n] == s;
    } else {
      var m := |t| - 1;
      SplitAfterSeparator(sep, s, t[..m]);
      assert whole[..n] == s + [sep] + t[..m];
      assert t == t[..m] + [t[m]];
    }
  }

  lemma {:induction false} SplitBeforeSeparator(sep: char, s: string, t: string)
    requires sep !in s
    ensures Split(sep, s + [sep] + t) == [s] + Split(sep, t)
  {
    var whole := s + [sep] + t;
    var n := |whole| - 1;
    if t == [] {
      assert whole[..n] == s;
      SplitPlain(sep, s);
    } else {
      var m := |t| - 1;
      SplitBeforeSeparator(sep, s, t[..m]);
      assert whole[..n] == s + [sep] + t[..m];
      GrownAfter(sep, s, Split(sep, t[..m]), t[m]);
    }
  }

  lemma GrownAfter(sep: char, s: string, ts: seq<string>, c: char)
    requires ts != []
    ensures Grown(sep, [s] + ts, c) == [s] + Grown(sep, ts, c)
  {
    assert ([s] + ts)[..|ts|] == [s] + ts[..|ts| - 1];
  }

  lemma {:induction false} SplitCount(sep: char, s: string)
    ensures |Split(sep, s)| == multiset(s)[sep] + 1
  {
    if s != [] {
      var n := |s| - 1;
      SplitCount(sep, s[..n]);
      assert s == s[..n] + [s[n]];
    }
  }

  lemma {:induction false} PiecesHoldNoSeparator(sep: char, s: string)
    ensures forall i :: 0 <= i < |Split(sep, s)| ==> sep !in Split(sep, s)[i]
  {
    if s != [] {
      PiecesHoldNoSeparator(sep, s[..|s| - 1]);
    }
  }
}
