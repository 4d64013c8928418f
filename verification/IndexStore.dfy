/** One index store: an ordered map of encoded keys (internal/cmd-index-store-rocksdb/service.go).
    RocksDB is a map with cursors; a cursor walks a snapshot taken when it is created. */
module IndexStore {
  import opened ByteOrder
  import opened IndexKey

  type DB = map<string, string>

  datatype Error = NotFound | MissingBase | NoBackendReplied
  datatype Reply<+T> = Ok(value: T) | Err(error: Error)

  const LIST_HARD_MAX: nat := 10000

  function Capped(max: nat): nat {
    if max > LIST_HARD_MAX then LIST_HARD_MAX else max
  }

  // ---------- what the store holds, as pairs ----------

  /** The store as a map from decoded pairs to values. */
  ghost function Pairs(db: DB): map<(string, string), string> {
    map p: (string, string) | p in (set r | r in db && ',' in r :: (BaseOf(r), KeyOf(r))) :: Lookup(db, p)
  }

  ghost function Lookup(db: DB, p: (string, string)): string {
    if Join(p.0, p.1) in db then db[Join(p.0, p.1)] else ""
  }

  lemma InPairs(db: DB, base: string, key: string)
    ensures (base, key) in Pairs(db) <==> ',' !in base && Join(base, key) in db
  {
    var r := Join(base, key);
    assert r[|base|] == ',';
    DecodeInvertsEncode(base, key, "");
    if (base, key) in Pairs(db) {
      var s :| s in db && ',' in s && (BaseOf(s), KeyOf(s)) == (base, key);
      BaseOfIsPrefix(s);
      EncodeInvertsDecode(s, "");
    }
  }

  // ---------- writes ----------

  datatype Write = Put(base: string, key: string, value: string) | Delete(base: string, key: string)

  function Apply(db: DB, w: Write): DB {
    db[Join(w.base, w.key) := if w.Put? then w.value else ""]
  }

  function Replay(db: DB, ws: seq<Write>): DB
    decreases |ws|
  {
    if ws == [] then db else Replay(Apply(db, ws[0]), ws[1..])
  }

  /** The same writes on a plain map of pairs. */
  function ReplayOnPairs(m: map<(string, string), string>, ws: seq<Write>): map<(string, string), string>
    decreases |ws|
  {
    if ws == [] then m
    else ReplayOnPairs(m[(ws[0].base, ws[0].key) := if ws[0].Put? then ws[0].value else ""], ws[1..])
  }

  /** The pair that a raw key with a comma stands for. */
  function PairOf(raw: string): (string, string) {
    (BaseOf(raw), KeyOf(raw))
  }

  lemma PairOfIsUnique(raw: string, p: (string, string))
    requires ',' in raw
    ensures Join(p.0, p.1) == raw && ',' !in p.0 <==> p == PairOf(raw)
  {
    EncodeInvertsDecode(raw, "");
    BaseOfIsPrefix(raw);
    DecodeInvertsEncode(p.0, p.1, "");
  }

  lemma OtherPairStays(db: DB, raw: string, value: string, p: (string, string))
    requires ',' in raw && p != PairOf(raw)
    ensures p in Pairs(db[raw := value]) <==> p in Pairs(db)
    ensures p in Pairs(db) ==> Pairs(db[raw := value])[p] == Pairs(db)[p]
  {
    InPairs(db, p.0, p.1);
    InPairs(db[raw := value], p.0, p.1);
    PairOfIsUnique(raw, p);
  }

  lemma PairIsWritten(db: DB, raw: string, value: string)
    requires ',' in raw
    ensures PairOf(raw) in Pairs(db[raw := value]) && Pairs(db[raw := value])[PairOf(raw)] == value
  {
    PairOfIsUnique(raw, PairOf(raw));
    InPairs(db[raw := value], PairOf(raw).0, PairOf(raw).1);
  }

  /** Two maps that agree but for one key. */
  lemma UpdatedMap<K(!new), V(!new)>(m: map<K, V>, m': map<K, V>, k: K, v: V)
    requires k in m' && m'[k] == v
    requires forall p :: p != k ==> (p in m' <==> p in m) && (p in m ==> m'[p] == m[p])
    ensures m' == m[k := v]
  {
  }

  /** A write changes one pair: its own, or, when its base holds a comma, that of another base. */
  lemma WriteTouchesOnePair(db: DB, w: Write)
    ensures var pair := PairOf(Join(w.base, w.key));
            && Pairs(Apply(db, w)) == Pairs(db)[pair := if w.Put? then w.value else ""]
            && (pair == (w.base, w.key) <==> ',' !in w.base)
  {
    var raw, value := Join(w.base, w.key), if w.Put? then w.value else "";
    assert raw[|w.base|] == ',';
    PairOfIsUnique(raw, (w.base, w.key));
    forall p | p != PairOf(raw)
      ensures p in Pairs(Apply(db, w)) <==> p in Pairs(db)
      ensures p in Pairs(db) ==> Pairs(Apply(db, w))[p] == Pairs(db)[p]
    {
      OtherPairStays(db, raw, value, p);
    }
    PairIsWritten(db, raw, value);
    UpdatedMap(Pairs(db), Pairs(Apply(db, w)), PairOf(raw), value);
  }

  /** With comma-free bases, any run of writes acts on the store as on a map of pairs. */
  lemma {:induction false} WritesRefinePairs(db: DB, ws: seq<Write>)
    requires forall i :: 0 <= i < |ws| ==> ',' !in ws[i].base
    ensures Pairs(Replay(db, ws)) == ReplayOnPairs(Pairs(db), ws)
    decreases |ws|
  {
    if ws != [] {
      WriteTouchesOnePair(db, ws[0]);
      WritesRefinePairs(Apply(db, ws[0]), ws[1..]);
    }
  }

  /** The raw keys after a run of writes: those before, and those written. */
  lemma {:induction false} ReplayKeys(db: DB, ws: seq<Write>, raw: string)
    ensures raw in Replay(db, ws) <==> raw in db || exists i :: 0 <= i < |ws| && Join(ws[i].base, ws[i].key) == raw
    decreases |ws|
  {
    if ws != [] {
      ReplayKeys(Apply(db, ws[0]), ws[1..], raw);
      if i :| 0 <= i < |ws[1..]| && Join(ws[1..][i].base, ws[1..][i].key) == raw {
        assert Join(ws[i + 1].base, ws[i + 1].key) == raw;
      }
      if i :| 0 <= i < |ws| && Join(ws[i].base, ws[i].key) == raw {
        assert i > 0 ==> ws[1..][i - 1] == ws[i];
      }
    }
  }

  /** No run of writes, deletions included, ever removes a key. */
  lemma {:induction false} WritesKeepKeys(db: DB, ws: seq<Write>)
    ensures db.Keys <= Replay(db, ws).Keys
    decreases |ws|
  {
    if ws != [] {
      WritesKeepKeys(Apply(db, ws[0]), ws[1..]);
    }
  }

  // ---------- reads ----------

  /** What a `Get` answers: the value of the pair, if the store holds that pair. */
  ghost function GetReply(db: DB, base: string, key: string): Reply<string> {
    if (base, key) in Pairs(db) then Ok(Pairs(db)[(base, key)]) else Err(NotFound)
  }

  /** The keys the store holds under `base`. */
  ghost function KeysOf(db: DB, base: string): set<string> {
    set p | p in Pairs(db).Keys && p.0 == base :: p.1
  }

  /** Those that come after `marker`. An empty key comes after nothing. */
  ghost function After(db: DB, base: string, marker: string): set<string> {
    set k | k in KeysOf(db, base) && Less(marker, k)
  }

  lemma InAfter(db: DB, base: string, marker: string, key: string)
    ensures key in After(db, base, marker) <==> ',' !in base && Join(base, key) in db && Less(marker, key)
  {
    InPairs(db, base, key);
    if (base, key) in Pairs(db) && Less(marker, key) {
      assert (base, key) in Pairs(db).Keys;
    }
  }

  /** What a `List` answers: the first keys after the marker, one more than asked for. */
  ghost function ListReply(db: DB, base: string, marker: string, max: nat): Reply<seq<string>> {
    if base == "" then Err(MissingBase) else Ok(Page(After(db, base, marker), Capped(max) + 1))
  }

  /** In plain terms: a store sends at most 10001 keys, one more than asked for, and fewer only if there are no
      more. */
  lemma ListReplySize(db: DB, base: string, marker: string, max: nat)
    requires base != ""
    ensures ListReply(db, base, marker, max).Ok?
    ensures var room := (if max <= 10000 then max else 10000) + 1;
            var held := |After(db, base, marker)|;
            |ListReply(db, base, marker, max).value| == if held < room then held else room
  {
    PageLength(After(db, base, marker), Capped(max) + 1);
  }

  lemma ListReplyBounds(db: DB, base: string, marker: string, max: nat, r: Reply<seq<string>>)
    requires r == ListReply(db, base, marker, max) && base != ""
    ensures r.Ok? && |r.value| <= (if max <= 10000 then max else 10000) + 1
    ensures |r.value| <= (if max <= 10000 then max else 10000) ==> |r.value| == |After(db, base, marker)|
  {
    ListReplySize(db, base, marker, max);
  }

  /** Reading back a write: a pair with a comma-free base is found, any other one is not. */
  lemma ReadBack(db: DB, w: Write)
    ensures GetReply(Apply(db, w), w.base, w.key)
         == if ',' in w.base then Err(NotFound) else Ok(if w.Put? then w.value else "")
  {
    InPairs(Apply(db, w), w.base, w.key);
  }

  lemma ListedAfterDelete(db: DB, base: string, key: string, marker: string, k: string)
    ensures k in After(Apply(db, Delete(base, key)), base, marker)
       <==> k in After(db, base, marker) || (k == key && ',' !in base && Less(marker, key))
  {
    InAfter(db, base, marker, k);
    InAfter(Apply(db, Delete(base, key)), base, marker, k);
    JoinInjective(base, k, key);
  }

  lemma DeletedKeyIsListed(db: DB, base: string, key: string, marker: string)
    ensures After(Apply(db, Delete(base, key)), base, marker)
         == After(db, base, marker) + (if ',' !in base && Less(marker, key) then {key} else {})
  {
    var before, after := After(db, base, marker), After(Apply(db, Delete(base, key)), base, marker);
    forall k ensures k in after <==> k in before || (k == key && ',' !in base && Less(marker, key)) {
      ListedAfterDelete(db, base, key, marker, k);
    }
  }

  /** A deletion does not remove: the key is found, with an empty value, and listed, even if it was
      absent before. Only under a base with a comma is it not found, as it never is. */
  lemma DeletedKeyRemains(db: DB, base: string, key: string, marker: string, db': DB)
    requires db' == Apply(db, Delete(base, key))
    ensures GetReply(db', base, key) == if ',' in base then Err(NotFound) else Ok("")
    ensures key in After(db', base, marker) <==> ',' !in base && Less(marker, key)
    ensures After(db', base, marker)
         == After(db, base, marker) + (if ',' !in base && Less(marker, key) then {key} else {})
  {
    ReadBack(db, Delete(base, key));
    InAfter(db', base, marker, key);
    JoinInjective(base, key, key);
    DeletedKeyIsListed(db, base, key, marker);
  }

  lemma JoinInjective(base: string, k1: string, k2: string)
    ensures Join(base, k1) == Join(base, k2) <==> k1 == k2
  {
    assert Join(base, k1)[|base| + 1..] == k1;
    assert Join(base, k2)[|base| + 1..] == k2;
  }

  // ---------- the cursor ----------

  method Least(s: set<string>) returns (x: string)
    requires s != {}
    ensures IsLeast(x, s)
  {
    x :| x in s;
    var left := s - {x};
    while left != {}
      invariant left <= s
      invariant IsLeast(x, s - left)
      decreases left
    {
      var y :| y in left;
      LessTotal(x, y);
      if Less(y, x) {
        forall z | z in s - left ensures Less(y, z) {
          if z != x {
            LessTransitive(y, x, z);
          }
        }
        x := y;
      }
      left := left - {y};
    }
    assert s - left == s;
  }

  method SortedKeys(s: set<string>) returns (keys: seq<string>)
    ensures Ascending(keys) && Elements(keys) == s
  {
    keys := [];
    var left := s;
    while left != {}
      invariant left <= s && Ascending(keys) && Elements(keys) == s - left
      invariant forall x, y :: x in keys && y in left ==> Less(x, y)
      decreases left
    {
      var x := Least(left);
      AscendingAppend(keys, [x]);
      assert Elements(keys + [x]) == Elements(keys) + {x};
      keys, left := keys + [x], left - {x};
    }
  }

  class Cursor {
    const keys: seq<string>
    const snapshot: DB
    var pos: nat

    ghost predicate Consistent() reads this {
      Ascending(keys) && Elements(keys) == snapshot.Keys && pos <= |keys|
    }

    constructor (db: DB)
      ensures Consistent() && snapshot == db && pos == 0
    {
      var sorted := SortedKeys(db.Keys);
      keys, snapshot, pos := sorted, db, 0;
    }

    predicate Valid() reads this {
      pos < |keys|
    }

    function Key(): string
      requires Valid()
      reads this
    {
      keys[pos]
    }

    /** Moves to the first key that is not before `target`. */
    method Seek(target: string)
      requires Consistent()
      modifies this
      ensures Consistent()
      ensures forall i :: 0 <= i < pos ==> Less(keys[i], target)
      ensures Valid() ==> !Less(Key(), target)
    {
      pos := 0;
      while pos < |keys| && Less(keys[pos], target)
        invariant Consistent()
        invariant forall i :: 0 <= i < pos ==> Less(keys[i], target)
      {
        pos := pos + 1;
      }
    }

    method Next()
      requires Consistent() && Valid()
      modifies this
      ensures Consistent() && pos == old(pos) + 1
    {
      pos := pos + 1;
    }
  }

  // ---------- the service ----------

  class Store {
    var db: DB

    constructor ()
      ensures db == map[]
    {
      db := map[];
    }

    method Put(base: string, key: string, value: string)
      modifies this
      ensures db == Apply(old(db), Write.Put(base, key, value))
    {
      var bk := new BaseKey.BK(base, key);
      var encoded := bk.Encode();
      db := db[encoded := value];
    }

    method Delete(base: string, key: string)
      modifies this
      ensures db == Apply(old(db), Write.Delete(base, key))
    {
      var bk := new BaseKey.BK(base, key);
      var encoded := bk.Encode();
      db := db[encoded := ""];
    }

    /** Seeks the encoded key and compares what the cursor found with the needle. */
    method Get(base: string, key: string) returns (r: Reply<string>)
      ensures r == GetReply(db, base, key)
      ensures r == if ',' !in base && base + "," + key in db then Ok(db[base + "," + key]) else Err(NotFound)
    {
      var needle := new BaseKey.BK(base, key);
      var encoded := needle.Encode();
      InPairs(db, base, key);
      assert encoded[|base|] == ',';
      DecodeInvertsEncode(base, key, "");
      var it := new Cursor(db);
      it.Seek(encoded);
      LessTotal(encoded, encoded);
      if !it.Valid() {
        assert encoded !in Elements(it.keys);
        return Err(NotFound);
      }
      var got := new BaseKey.BK("", "");
      got.DecodeString(it.Key());
      EncodeInvertsDecode(it.Key(), "");
      BaseOfIsPrefix(it.Key());
      if got.base != needle.base || got.key != needle.key {
        if it.Key() != encoded {
          SeekMissed(it, encoded);
        }
        return Err(NotFound);
      }
      LessShorter(base, encoded);
      assert it.Key() == encoded;
      assert it.Key() in Elements(it.keys);
      return Ok(it.snapshot[it.Key()]);
    }

    method List(base: string, marker: string, max: nat) returns (r: Reply<seq<string>>)
      ensures r == ListReply(db, base, marker, max)
      ensures base == "" <==> r == Err(MissingBase)
      ensures base != "" ==>
                && r.Ok? && |r.value| <= (if max <= 10000 then max else 10000) + 1
                && (|r.value| <= (if max <= 10000 then max else 10000) ==> |r.value| == |After(db, base, marker)|)
    {
      var cap := if max > LIST_HARD_MAX then LIST_HARD_MAX else max;
      if base == "" {
        return Err(MissingBase);
      }
      var bk := new BaseKey.BK(base, marker);
      var encoded := bk.Encode();
      var needle := if |marker| > 0 then encoded else base + ",";
      assert needle == Join(base, marker);

      var it := new Cursor(db);
      SkipTo(it, needle);
      var items := Scan(it, base, marker, cap);
      r := Ok(items);
      ListReplyBounds(db, base, marker, max, r);
    }
  }

  /** The entries beyond the needle are those from `first` on. */
  ghost predicate SkippedTo(keys: seq<string>, first: nat, needle: string) {
    && first <= |keys|
    && (forall i :: 0 <= i < first ==> !Less(needle, keys[i]))
    && (forall i :: first <= i < |keys| ==> Less(needle, keys[i]))
  }

  /** Seeks the needle, then steps over the entries that are not beyond it. */
  method SkipTo(it: Cursor, needle: string)
    requires it.Consistent()
    modifies it
    ensures it.Consistent() && SkippedTo(it.keys, it.pos, needle)
  {
    it.Seek(needle);
    forall i | 0 <= i < it.pos ensures !Less(needle, it.keys[i]) {
      LessTotal(needle, it.keys[i]);
    }
    while it.Valid() && !Less(needle, it.Key())
      invariant it.Consistent()
      invariant forall i :: 0 <= i < it.pos ==> !Less(needle, it.keys[i])
      decreases |it.keys| - it.pos
    {
      it.Next();
    }
    AllAfter(it.keys, it.pos, needle);
  }

  /** Collects the decoded keys from the cursor on, until there are more than `cap` of them or the base changes. */
  method Scan(it: Cursor, base: string, ghost marker: string, cap: nat) returns (items: seq<string>)
    requires it.Consistent() && SkippedTo(it.keys, it.pos, Join(base, marker))
    modifies it
    ensures items == Page(After(it.snapshot, base, marker), cap + 1)
  {
    ghost var first := it.pos;
    items := [];
    while it.Valid()
      invariant it.Consistent()
      invariant first <= it.pos && |items| == it.pos - first <= cap + 1
      invariant Scanned(it.keys, first, items, base)
      decreases |it.keys| - it.pos
    {
      if |items| > cap {
        break;
      }
      var k := new BaseKey.BK("", "");
      k.DecodeString(it.Key());
      if k.base != base {
        break;
      }
      ScannedNext(it.keys, first, items, base, marker);
      items := items + [k.key];
      it.Next();
    }
    ScanIsPage(it.keys, first, items, it.snapshot, base, marker, cap + 1);
  }

  /** The items are the decoded keys of the entries from `first` on, all of them in the base. */
  ghost predicate Scanned(keys: seq<string>, first: nat, items: seq<string>, base: string) {
    && first + |items| <= |keys|
    && forall i :: 0 <= i < |items| ==> keys[first + i] == Join(base, items[i]) && ',' !in base
  }

  /** The next entry, if it is of the base too, is scanned under its decoded key. */
  lemma ScannedNext(keys: seq<string>, first: nat, items: seq<string>, base: string, marker: string)
    requires Scanned(keys, first, items, base) && SkippedTo(keys, first, Join(base, marker))
    requires first + |items| < |keys| && BaseOf(keys[first + |items|]) == base
    ensures Scanned(keys, first, items + [KeyOf(keys[first + |items|])], base)
  {
    KeyOfTheBase(keys[first + |items|], base, marker);
  }

  /** A raw key beyond the needle that decodes to the base is the encoding of its decoded key. */
  lemma KeyOfTheBase(raw: string, base: string, marker: string)
    requires Less(Join(base, marker), raw) && BaseOf(raw) == base
    ensures raw == Join(base, KeyOf(raw)) && ',' !in base
  {
    BaseOfIsPrefix(raw);
    EncodeInvertsDecode(raw, "");
    if ',' !in raw {
      LessShorter(base, Join(base, marker));
      LessTotal(base, Join(base, marker));
    }
  }

  lemma {:induction false} LessShorter(a: string, b: string)
    requires a <= b && a != b
    ensures Less(a, b)
  {
    if a != [] {
      LessShorter(a[1..], b[1..]);
    }
  }

  /** If the cursor stopped elsewhere, the encoded key is not in the store. */
  lemma SeekMissed(it: Cursor, encoded: string)
    requires it.Consistent() && it.Valid() && it.Key() != encoded
    requires forall i :: 0 <= i < it.pos ==> Less(it.keys[i], encoded)
    requires !Less(it.Key(), encoded)
    ensures encoded !in it.snapshot
  {
    if encoded in Elements(it.keys) {
      var j :| 0 <= j < |it.keys| && it.keys[j] == encoded;
      LessTotal(encoded, encoded);
    }
  }

  lemma AllAfter(keys: seq<string>, first: nat, needle: string)
    requires Ascending(keys) && first <= |keys|
    requires first < |keys| ==> Less(needle, keys[first])
    ensures forall i :: first <= i < |keys| ==> Less(needle, keys[i])
  {
    forall i | first < i < |keys| ensures Less(needle, keys[i]) {
      LessTransitive(needle, keys[first], keys[i]);
    }
  }

  /** The walk from the needle to the first foreign base, cut at `m` items, is a page of the keys after the
      marker: no key of the base lies beyond a foreign one. */
  lemma ScanIsPage(keys: seq<string>, first: nat, items: seq<string>, db: DB, base: string, marker: string, m: nat)
    requires Ascending(keys) && Elements(keys) == db.Keys
    requires Scanned(keys, first, items, base) && |items| <= m && SkippedTo(keys, first, Join(base, marker))
    requires |items| == m || first + |items| == |keys| || BaseOf(keys[first + |items|]) != base
    ensures items == Page(After(db, base, marker), m)
  {
    ScanIsAscending(keys, first, items, base);
    forall x | x in items ensures x in After(db, base, marker) {
      var i :| 0 <= i < |items| && items[i] == x;
      assert keys[first + i] in Elements(keys);
      InAfter(db, base, marker, x);
      EncodeKeepsOrder(base, marker, x);
    }
    forall x | x in After(db, base, marker) && x !in items ensures |items| == m && AllBefore(items, x) {
      InAfter(db, base, marker, x);
      assert Join(base, x) in Elements(keys);
      NotScanned(keys, first, items, base, marker, m, x);
    }
    PageUnique(items, Page(After(db, base, marker), m), After(db, base, marker), m);
  }

  /** A key of the base that was not scanned lies beyond a full page. */
  lemma NotScanned(keys: seq<string>, first: nat, items: seq<string>, base: string, marker: string, m: nat, x: string)
    requires Ascending(keys) && Join(base, x) in keys && ',' !in base && Less(marker, x) && x !in items
    requires Scanned(keys, first, items, base) && |items| <= m && SkippedTo(keys, first, Join(base, marker))
    requires |items| == m || first + |items| == |keys| || BaseOf(keys[first + |items|]) != base
    ensures |items| == m && AllBefore(items, x)
  {
    var j :| 0 <= j < |keys| && keys[j] == Join(base, x);
    EncodeKeepsOrder(base, marker, x);
    BeyondTheScan(keys, first, items, base, x, j);
    if |items| < m {
      var next := keys[first + |items|];
      LessTotal(next, Join(base, x));
      LessTotal(Join(base, marker), next);
      BaseIsContiguous(base, marker, next, x);
    }
    forall y | y in items ensures Less(y, x) {
      var i :| 0 <= i < |items| && items[i] == y;
      assert Less(keys[first + i], keys[j]);
      EncodeKeepsOrder(base, y, x);
    }
  }

  lemma ScanIsAscending(keys: seq<string>, first: nat, items: seq<string>, base: string)
    requires Ascending(keys) && Scanned(keys, first, items, base)
    ensures Ascending(items)
  {
    forall i, j | 0 <= i < j < |items| ensures Less(items[i], items[j]) {
      assert Less(keys[first + i], keys[first + j]);
      EncodeKeepsOrder(base, items[i], items[j]);
    }
  }

  lemma BeyondTheScan(keys: seq<string>, first: nat, items: seq<string>, base: string, x: string, j: nat)
    requires Scanned(keys, first, items, base) && x !in items
    requires first <= j < |keys| && keys[j] == Join(base, x)
    ensures first + |items| <= j
  {
    if j < first + |items| {
      JoinInjective(base, x, items[j - first]);
    }
  }
}
