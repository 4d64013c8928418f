/** The list of blob ids a blob store sends, one for each line, as the client unpacks it
    (pkg/gunkan/blob_client_direct.go). */
module BlobListing {
  import opened BlobIds
  import opened Splitting
  import opened Wrappers

  // ---------- lines ----------

  /** The body of a reply, read line by line; the connection may break before the end of the stream. */
  class Reader {
    const body: string
    const breaks: bool
    var pos: nat

    ghost predicate Consistent() reads this {
      pos <= |body|
    }

    ghost function Left(): string
      requires Consistent()
      reads this
    {
      body[pos..]
    }

    constructor (body: string, breaks: bool)
      ensures Consistent() && Left() == body && this.breaks == breaks
    {
      this.body, this.breaks, pos := body, breaks, 0;
    }

    /** Reads up to and including the next line feed; if there is none, up to the end, and fails. */
    method ReadLine() returns (line: string, ok: bool)
      requires Consistent()
      modifies this
      ensures Consistent()
      ensures ok == ('\n' in old(Left()))
      ensures ok ==> line == FirstLine(old(Left())) && Left() == OtherLines(old(Left()))
      ensures ok ==> pos > old(pos)
    {
      ok := '\n' in body[pos..];
      FirstLineSplits(body[pos..]);
      line := FirstLine(body[pos..]);
      assert body[pos..][|line|..] == body[pos + |line|..];
      pos := pos + |line|;
    }
  }

  /** The text up to the first line feed included, all of it if there is none. */
  function FirstLine(s: string): string {
    if s == [] then []
    else if s[0] == '\n' then ['\n']
    else [s[0]] + FirstLine(s[1..])
  }

  lemma {:induction false} FirstLineSplits(s: string)
    ensures FirstLine(s) <= s
    ensures '\n' in s ==> FirstLine(s) != []
  {
    if s != [] && s[0] != '\n' {
      FirstLineSplits(s[1..]);
    }
  }

  function OtherLines(s: string): string {
    FirstLineSplits(s);
    s[|FirstLine(s)|..]
  }

  /** A line without line feed, and a line feed: the first line, whatever follows. */
  lemma {:induction false} LineThenRest(line: string, rest: string)
    requires '\n' !in line
    ensures FirstLine(line + "\n" + rest) == line + "\n" && OtherLines(line + "\n" + rest) == rest
  {
    var s := line + "\n" + rest;
    if line != [] {
      assert s[1..] == line[1..] + "\n" + rest;
      LineThenRest(line[1..], rest);
    }
    assert FirstLine(s) == line + "\n";
    assert s[|line + "\n"|..] == rest;
  }

  predicate IsEol(c: char) {
    c == '\r' || c == '\n'
  }

  function TrimLeft(s: string): string {
    if s != [] && IsEol(s[0]) then TrimLeft(s[1..]) else s
  }

  function TrimRight(s: string): string {
    if s != [] && IsEol(s[|s| - 1]) then TrimRight(s[..|s| - 1]) else s
  }

  function Trim(s: string): string {
    TrimRight(TrimLeft(s))
  }

  /** What is trimmed away is carriage returns and line feeds at both ends, all of them. */
  lemma TrimIsExact(s: string) returns (i: nat, j: nat)
    ensures i <= j <= |s| && Trim(s) == s[i..j]
    ensures forall k :: 0 <= k < i || j <= k < |s| ==> s[k] == '\r' || s[k] == '\n'
    ensures i < j ==> s[i] != '\r' && s[i] != '\n' && s[j - 1] != '\r' && s[j - 1] != '\n'
  {
    i := TrimmedLeft(s);
    j := TrimmedRight(s[i..]);
    assert forall k :: i <= k < |s| ==> s[i..][k - i] == s[k];
    assert s[i..][..j] == s[i..i + j];
    j := i + j;
  }

  lemma {:induction false} TrimmedLeft(s: string) returns (i: nat)
    ensures i <= |s| && TrimLeft(s) == s[i..] && (i < |s| ==> !IsEol(s[i]))
    ensures forall k :: 0 <= k < i ==> IsEol(s[k])
  {
    if s != [] && IsEol(s[0]) {
      i := TrimmedLeft(s[1..]);
      assert forall k :: 0 <= k < i ==> IsEol(s[1..][k]);
      assert forall k :: 0 < k <= i ==> s[k] == s[1..][k - 1];
      i := i + 1;
    } else {
      i := 0;
    }
  }

  lemma {:induction false} TrimmedRight(s: string) returns (j: nat)
    ensures j <= |s| && TrimRight(s) == s[..j] && (j > 0 ==> !IsEol(s[j - 1]))
    ensures forall k :: j <= k < |s| ==> IsEol(s[k])
  {
    if s != [] && IsEol(s[|s| - 1]) {
      j := TrimmedRight(s[..|s| - 1]);
      assert s[..|s| - 1][..j] == s[..j];
      assert forall k :: j <= k < |s| - 1 ==> s[k] == s[..|s| - 1][k];
    } else {
      j := |s|;
    }
  }

  lemma {:induction false} TrimLeftOf(a: string, c: char, b: string)
    requires !IsEol(c)
    ensures TrimLeft(a + [c] + b) == TrimLeft(a) + [c] + b
    ensures |TrimLeft(a)| <= |a| && (TrimLeft(a) == a <==> a == [] || !IsEol(a[0]))
  {
    var s := a + [c] + b;
    if a != [] && IsEol(a[0]) {
      assert s[1..] == a[1..] + [c] + b;
      TrimLeftOf(a[1..], c, b);
    }
  }

  // ---------- unpacking ----------

  /** The ids of the complete lines; `None` if one of them is no id, or if the connection breaks. What follows
      the last line feed is ignored. */
  function Unpacked(body: string, breaks: bool): Option<seq<BlobId>>
    decreases |body|
  {
    FirstLineSplits(body);
    if '\n' !in body then (if breaks then None else Some([]))
    else
      match Decode(Trim(FirstLine(body)))
      case None => None
      case Some(id) =>
        match Unpacked(OtherLines(body), breaks)
        case None => None
        case Some(ids) => Some([id] + ids)
  }

  /** All results in order, or nothing, exactly if one of them is missing. */
  ghost predicate Collected<T(!new)>(ds: seq<Option<T>>, r: Option<seq<T>>) {
    match r
    case None => exists i :: 0 <= i < |ds| && ds[i].None?
    case Some(xs) => |xs| == |ds| && forall i :: 0 <= i < |ds| ==> ds[i] == Some(xs[i])
  }

  /** The lines of a body, each decoded once trimmed; what follows the last line feed is no line. */
  function DecodedLines(body: string): seq<Option<BlobId>> {
    var pieces := Split('\n', body);
    seq(|pieces| - 1, i requires 0 <= i < |pieces| - 1 => Decode(Trim(pieces[i] + "\n")))
  }

  lemma {:induction false} FirstLineIsFirstPiece(body: string) returns (line: string)
    requires '\n' in body
    ensures '\n' !in line && FirstLine(body) == line + "\n" && body == line + ['\n'] + OtherLines(body)
  {
    FirstLineSplits(body);
    if body[0] == '\n' {
      line := "";
    } else {
      assert '\n' in body[1..];
      var rest := FirstLineIsFirstPiece(body[1..]);
      line := [body[0]] + rest;
    }
    assert body == FirstLine(body) + OtherLines(body);
  }

  /** A stream that breaks gives an error, whatever came before; else the lines are unpacked one by one. */
  lemma {:induction false} UnpackedLineByLine(body: string)
    ensures Unpacked(body, true) == None
    ensures Collected(DecodedLines(body), Unpacked(body, false))
    decreases |body|
  {
    if '\n' in body {
      FirstLineSplits(body);
      UnpackedLineByLine(OtherLines(body));
      var line := FirstLineIsFirstPiece(body);
      OneMoreLine(body, line, OtherLines(body));
      OneMoreCollected(Decode(Trim(line + "\n")), DecodedLines(OtherLines(body)), Unpacked(OtherLines(body), false));
    } else {
      SplitPlain('\n', body);
    }
  }

  lemma OneMoreLine(body: string, line: string, rest: string)
    requires '\n' !in line && body == line + ['\n'] + rest
    ensures DecodedLines(body) == [Decode(Trim(line + "\n"))] + DecodedLines(rest)
  {
    SplitBeforeSeparator('\n', line, rest);
  }

  lemma OneMoreCollected<T(!new)>(d: Option<T>, ds: seq<Option<T>>, rest: Option<seq<T>>)
    requires Collected(ds, rest)
    ensures Collected([d] + ds, match d
                                case None => None
                                case Some(x) => (match rest case None => None case Some(xs) => Some([x] + xs)))
  {
    var all := [d] + ds;
    assert all[0] == d && forall i :: 0 <= i < |ds| ==> all[i + 1] == ds[i];
  }

  method UnpackBlobIdArray(body: string, breaks: bool) returns (r: Option<seq<BlobId>>)
    ensures r == Unpacked(body, breaks)
    ensures breaks ==> r.None?
    ensures !breaks ==> Collected(DecodedLines(body), r)
  {
    UnpackedLineByLine(body);
    var rc: seq<BlobId> := [];
    var reader := new Reader(body, breaks);
    PrependedNothing(rc, Unpacked(body, breaks));
    while true
      invariant reader.Consistent() && fresh(reader) && reader.breaks == breaks
      invariant Unpacked(body, breaks) == Prepended(rc, Unpacked(reader.Left(), breaks))
      decreases |reader.body| - reader.pos
    {
      ghost var left := reader.Left();
      var line, ok := reader.ReadLine();
      if !ok {
        PrependedNothing(rc, Unpacked(left, breaks));
        return if reader.breaks then None else Some(rc);
      }
      var id := DecodeBlobId(Trim(line));
      match id {
        case None => return None;
        case Some(x) =>
          PrependedTwice(rc, x, Unpacked(reader.Left(), breaks));
          rc := rc + [x];
      }
    }
  }

  function Prepended(ids: seq<BlobId>, more: Option<seq<BlobId>>): Option<seq<BlobId>> {
    if more.None? then None else Some(ids + more.value)
  }

  lemma PrependedNothing(ids: seq<BlobId>, more: Option<seq<BlobId>>)
    ensures Prepended([], more) == more && Prepended(ids, Some([])) == Some(ids)
  {
    assert ids + [] == ids;
    if more.Some? {
      assert [] + more.value == more.value;
    }
  }

  lemma PrependedTwice(ids: seq<BlobId>, id: BlobId, more: Option<seq<BlobId>>)
    ensures Prepended(ids, Prepended([id], more)) == Prepended(ids + [id], more)
  {
    if more.Some? {
      assert ids + ([id] + more.value) == ids + [id] + more.value;
    }
  }

  // ---------- the round trip ----------

  /** The ids one after the other, each ended by CRLF. */
  function Rendered(ids: seq<BlobId>): string {
    if ids == [] then "" else Encode(ids[0]) + "\r\n" + Rendered(ids[1..])
  }

  predicate NoLineFeed(id: BlobId) {
    '\n' !in id.bucket && '\n' !in id.content && '\n' !in id.partId
  }

  /** What survives a line: no comma and no line feed in the fields, no carriage return at the start of the
      bucket, and a position below 2^31. */
  predicate Clean(id: BlobId) {
    && CommaFree(id) && NoLineFeed(id)
    && (id.bucket == "" || id.bucket[0] != '\r')
    && id.position < POSITION_LIMIT
  }

  lemma {:induction false} TrimRightKeeps(s: string)
    requires s != [] && !IsEol(s[|s| - 1])
    ensures TrimRight(s) == s && TrimRight(s + "\r") == s && TrimRight(s + "\r\n") == s
  {
    assert (s + "\r")[..|s|] == s;
    assert (s + "\r\n")[..|s| + 1] == s + "\r";
  }

  lemma Regroup(a: string, rest: string)
    ensures a + "," + rest + "\r\n" == a + [','] + (rest + "\r\n")
  {
  }

  lemma TrimmedStart(a: string, rest: string)
    ensures TrimLeft(a + "," + rest + "\r\n") == TrimLeft(a) + "," + rest + "\r\n"
  {
    Regroup(a, rest);
    TrimLeftOf(a, ',', rest + "\r\n");
    Regroup(TrimLeft(a), rest);
  }

  lemma TrimmedString(a: string, rest: string)
    requires rest != [] && !IsEol(rest[|rest| - 1])
    ensures Trim(a + "," + rest + "\r\n") == TrimLeft(a) + "," + rest
  {
    TrimmedStart(a, rest);
    TrimmedEnd(TrimLeft(a) + "," + rest, rest);
  }

  lemma TrimmedEnd(line: string, rest: string)
    requires rest != [] && !IsEol(rest[|rest| - 1])
    requires |rest| <= |line| && line[|line| - |rest|..] == rest
    ensures TrimRight(line + "\r\n") == line
  {
    assert line[|line| - 1] == rest[|rest| - 1];
    TrimRightKeeps(line);
  }

  /** A trimmed line holds the id with its bucket trimmed on the left. */
  lemma TrimmedLine(id: BlobId)
    ensures Trim(Encode(id) + "\r\n") == Encode(id.(bucket := TrimLeft(id.bucket)))
    ensures TrimLeft(id.bucket) == id.bucket <==> id.bucket == "" || !IsEol(id.bucket[0])
  {
    var digits := Digits(id.position);
    DigitsAreTheValue(id.position);
    assert IsDigit(digits[|digits| - 1]);
    var rest := id.content + "," + id.partId + "," + digits;
    var b := TrimLeft(id.bucket);
    TrimLeftOf(id.bucket, ',', "");
    TrimmedString(id.bucket, rest);
    assert id.bucket + "," + id.content + "," + id.partId + "," + digits == id.bucket + "," + rest;
    assert b + "," + id.content + "," + id.partId + "," + digits == b + "," + rest;
  }

  /** A line gives its id back exactly when the id is clean, provided that it is one line. */
  lemma LineRoundTrip(id: BlobId)
    requires NoLineFeed(id)
    ensures Decode(Trim(Encode(id) + "\r\n")) == Some(id) <==> Clean(id)
  {
    TrimmedLine(id);
    DecodeInvertsEncode(id.(bucket := TrimLeft(id.bucket)));
  }

  lemma LineFeedsOfEncode(id: BlobId)
    ensures '\n' in Encode(id) <==> !NoLineFeed(id)
  {
    DigitsAreTheValue(id.position);
    assert '\n' !in Digits(id.position);
  }

  /** There are as many ids as line feeds. */
  lemma {:induction false} UnpackedCount(body: string)
    requires Unpacked(body, false).Some?
    ensures |Unpacked(body, false).value| == multiset(body)['\n']
    decreases |body|
  {
    if '\n' in body {
      LineFeedsSplit(body);
      FirstLineSplits(body);
      UnpackedCount(OtherLines(body));
    }
  }

  lemma LineFeedsSplit(body: string)
    requires '\n' in body
    ensures multiset(body)['\n'] == 1 + multiset(OtherLines(body))['\n']
  {
    FirstLineSplits(body);
    FirstLineHasOne(body);
    assert body == FirstLine(body) + OtherLines(body);
  }

  lemma {:induction false} FirstLineHasOne(s: string)
    requires '\n' in s
    ensures multiset(FirstLine(s))['\n'] == 1
  {
    if s[0] != '\n' {
      assert s == [s[0]] + s[1..];
      FirstLineHasOne(s[1..]);
    }
  }

  ghost predicate AllNoLineFeed(ids: seq<BlobId>) {
    forall i :: 0 <= i < |ids| ==> NoLineFeed(ids[i])
  }

  lemma {:induction false} LineFeedsOfRendered(ids: seq<BlobId>) returns (n: nat)
    ensures n == multiset(Rendered(ids))['\n']
    ensures n >= |ids| && (n == |ids| ==> AllNoLineFeed(ids))
  {
    if ids == [] {
      n := 0;
    } else {
      var m := LineFeedsOfRendered(ids[1..]);
      n := LineFeedsOfLine(ids[0], Rendered(ids[1..]));
      if n == |ids| {
        forall i | 0 <= i < |ids| ensures NoLineFeed(ids[i]) {
          assert i == 0 || ids[i] == ids[1..][i - 1];
        }
      }
    }
  }

  lemma LineFeedsOfLine(id: BlobId, rest: string) returns (n: nat)
    ensures n == multiset(Encode(id) + "\r\n" + rest)['\n']
    ensures n >= 1 + multiset(rest)['\n'] && (n == 1 + multiset(rest)['\n'] ==> NoLineFeed(id))
  {
    n := multiset(Encode(id) + "\r\n" + rest)['\n'];
    LineFeedsOfEncode(id);
    var line := Encode(id);
    assert multiset(line + "\r\n" + rest) == multiset(line) + multiset("\r\n") + multiset(rest);
  }

  /** Unpacking one line. */
  lemma UnpackedLine(id: BlobId, rest: string)
    requires NoLineFeed(id)
    ensures Unpacked(Encode(id) + "\r\n" + rest, false)
         == match Decode(Trim(Encode(id) + "\r\n")) case None => None case Some(x) => Prepended([x], Unpacked(rest, false))
  {
    var line := Encode(id) + "\r";
    var body := Encode(id) + "\r\n" + rest;
    LineFeedsOfEncode(id);
    assert body == line + "\n" + rest && body[|line|] == '\n';
    LineThenRest(line, rest);
    assert line + "\n" == Encode(id) + "\r\n";
  }

  ghost predicate AllClean(ids: seq<BlobId>) {
    forall i :: 0 <= i < |ids| ==> Clean(ids[i])
  }

  lemma AllCleanFirst(ids: seq<BlobId>)
    requires ids != []
    ensures AllClean(ids) <==> Clean(ids[0]) && AllClean(ids[1..])
  {
    if Clean(ids[0]) && AllClean(ids[1..]) {
      forall i | 0 <= i < |ids| ensures Clean(ids[i]) {
        assert i == 0 || ids[i] == ids[1..][i - 1];
      }
    }
  }

  lemma {:induction false} LinesRoundTrip(ids: seq<BlobId>)
    requires AllNoLineFeed(ids)
    ensures Unpacked(Rendered(ids), false) == Some(ids) <==> AllClean(ids)
  {
    if ids != [] {
      UnpackedLine(ids[0], Rendered(ids[1..]));
      LineRoundTrip(ids[0]);
      LinesRoundTrip(ids[1..]);
      AllCleanFirst(ids);
      FirstAndRest(ids, Decode(Trim(Encode(ids[0]) + "\r\n")), Unpacked(Rendered(ids[1..]), false));
    }
  }

  lemma FirstAndRest(ids: seq<BlobId>, first: Option<BlobId>, rest: Option<seq<BlobId>>)
    requires ids != []
    ensures (match first case None => None case Some(x) => Prepended([x], rest)) == Some(ids)
       <==> first == Some(ids[0]) && rest == Some(ids[1..])
  {
    assert ids == [ids[0]] + ids[1..];
    if first.Some? && rest.Some? {
      assert ([first.value] + rest.value)[1..] == rest.value;
      assert ([first.value] + rest.value)[0] == first.value;
    }
  }

  /** A list of ids, each encoded and followed by CRLF, is unpacked to the same ids in the same order exactly
      when all of them are clean. */
  lemma ListingRoundTrip(ids: seq<BlobId>)
    ensures Unpacked(Rendered(ids), false) == Some(ids) <==> AllClean(ids)
  {
    var n := LineFeedsOfRendered(ids);
    if Unpacked(Rendered(ids), false) == Some(ids) {
      UnpackedCount(Rendered(ids));
      LinesRoundTrip(ids);
    } else if AllNoLineFeed(ids) {
      LinesRoundTrip(ids);
    }
  }

  /** When CRLF only separates the ids, the last one is lost. */
  lemma {:induction false} UnterminatedIdIsLost(ids: seq<BlobId>, last: BlobId)
    requires AllClean(ids) && NoLineFeed(last)
    ensures Unpacked(Rendered(ids) + Encode(last), false) == Some(ids)
  {
    LineFeedsOfEncode(last);
    if ids == [] {
      assert Rendered(ids) + Encode(last) == Encode(last);
    } else {
      var rest := Rendered(ids[1..]) + Encode(last);
      assert Rendered(ids) + Encode(last) == Encode(ids[0]) + "\r\n" + rest;
      AllCleanFirst(ids);
      UnpackedLine(ids[0], rest);
      LineRoundTrip(ids[0]);
      UnterminatedIdIsLost(ids[1..], last);
      FirstAndRest(ids, Some(ids[0]), Some(ids[1..]));
    }
  }
}
