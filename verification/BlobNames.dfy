/** The ids a blob store gives, and the paths made of them (internal/cmd-blob-store-fs/repository.go).
    A character stands for a byte here, as names are cut by byte positions. */
module BlobNames {
  import opened Splitting
  import opened Wrappers

  // ---------- fixed-width hexadecimal ----------

  function Pow16(width: nat): nat {
    if width == 0 then 1 else 16 * Pow16(width - 1)
  }

  function HexDigit(d: nat): char
    requires d < 16
  {
    "0123456789ABCDEF"[d]
  }

  predicate IsHex(s: string) {
    forall c :: c in s ==> c in "0123456789ABCDEF"
  }

  /** `n` on `width` hexadecimal digits, with leading zeros. */
  function Hex(n: nat, width: nat): string
    requires n < Pow16(width)
  {
    if width == 0 then "" else Hex(n / 16, width - 1) + [HexDigit(n % 16)]
  }

  lemma {:induction false} HexShape(n: nat, width: nat)
    requires n < Pow16(width)
    ensures |Hex(n, width)| == width && IsHex(Hex(n, width))
  {
    if width > 0 {
      HexShape(n / 16, width - 1);
    }
  }

  lemma HexLast(n: nat, width: nat)
    requires 0 < width && n < Pow16(width)
    ensures |Hex(n, width)| == width
    ensures Hex(n, width)[..width - 1] == Hex(n / 16, width - 1) && Hex(n, width)[width - 1] == HexDigit(n % 16)
  {
    HexShape(n / 16, width - 1);
  }

  /** The value of hexadecimal digits, the first one counting most. */
  function HexValue(s: string): nat
    requires IsHex(s)
  {
    if s == "" then 0
    else
      var c := s[|s| - 1];
      assert c in s;
      16 * HexValue(s[..|s| - 1]) + (if c <= '9' then (c - '0') as nat else 10 + (c - 'A') as nat)
  }

  lemma DigitHasValue(d: nat)
    requires d < 16
    ensures '0' <= HexDigit(d) <= '9' || 'A' <= HexDigit(d) <= 'F'
    ensures d == if HexDigit(d) <= '9' then (HexDigit(d) - '0') as nat else 10 + (HexDigit(d) - 'A') as nat
  {
  }

  lemma {:induction false} HexHasValue(n: nat, width: nat)
    requires n < Pow16(width)
    ensures IsHex(Hex(n, width)) && HexValue(Hex(n, width)) == n
  {
    HexShape(n, width);
    if width > 0 {
      HexLast(n, width);
      HexHasValue(n / 16, width - 1);
      DigitHasValue(n % 16);
    }
  }

  lemma {:induction false} HexValueOfBoth(a: string, b: string)
    requires IsHex(a) && IsHex(b)
    ensures IsHex(a + b) && HexValue(a + b) == HexValue(a) * Pow16(|b|) + HexValue(b)
  {
    if b == "" {
      assert a + b == a;
    } else {
      var n := |b| - 1;
      assert (a + b)[..|a + b| - 1] == a + b[..n];
      HexValueOfBoth(a, b[..n]);
      Shifted(HexValue(a), Pow16(n), HexValue(b[..n]));
    }
  }

  lemma Shifted(a: nat, p: nat, b: nat)
    ensures 16 * (a * p + b) == a * (16 * p) + 16 * b
  {
  }

  // ---------- ids ----------

  const TICK_NANOS: nat := 1024 * 1024 * 256
  const TICKS: nat := 65536
  const RANDOM_LIMIT: nat := 1024 * 1024

  function Tick(nanos: nat): nat {
    (nanos / TICK_NANOS) % TICKS
  }

  lemma Widths()
    ensures Pow16(4) == TICKS && Pow16(5) == RANDOM_LIMIT
  {
    assert Pow16(1) == 16 && Pow16(2) == 256 && Pow16(3) == 4096;
  }

  /** The id given at a time, in nanoseconds, for a random number below 2^20. */
  function NextId(nanos: nat, random: nat): string
    requires random < RANDOM_LIMIT
  {
    Widths();
    Hex(Tick(nanos), 4) + Hex(random, 5)
  }

  predicate IsId(id: string) {
    |id| == 9 && IsHex(id)
  }

  /** Ids are nine hexadecimal digits that determine the tick, modulo 65536, and the random number. */
  lemma IdDeterminesTickAndRandom(t1: nat, r1: nat, t2: nat, r2: nat)
    requires r1 < RANDOM_LIMIT && r2 < RANDOM_LIMIT
    ensures IsId(NextId(t1, r1))
    ensures NextId(t1, r1) == NextId(t2, r2) <==> Tick(t1) == Tick(t2) && r1 == r2
  {
    Widths();
    HexShape(Tick(t1), 4);
    HexShape(Tick(t2), 4);
    HexShape(r1, 5);
    HexShape(r2, 5);
    var a, b := NextId(t1, r1), NextId(t2, r2);
    assert a[..4] == Hex(Tick(t1), 4) && b[..4] == Hex(Tick(t2), 4);
    assert a[4..] == Hex(r1, 5) && b[4..] == Hex(r2, 5);
    if a == b {
      HexHasValue(Tick(t1), 4);
      HexHasValue(Tick(t2), 4);
      HexHasValue(r1, 5);
      HexHasValue(r2, 5);
    }
  }

  /** An id read as a hexadecimal number: ticks of 2^28 ns, on four digits, then the random number on five. */
  lemma IdHasValue(nanos: nat, random: nat)
    requires random < RANDOM_LIMIT
    ensures IsId(NextId(nanos, random))
    ensures HexValue(NextId(nanos, random)) == nanos / 268435456 % 65536 * 1048576 + random
  {
    Widths();
    IdDeterminesTickAndRandom(nanos, random, nanos, random);
    HexShape(random, 5);
    HexHasValue(Tick(nanos), 4);
    HexHasValue(random, 5);
    HexValueOfBoth(Hex(Tick(nanos), 4), Hex(random, 5));
  }

  // ---------- paths ----------

  /** The directories and the name that a relative path goes through; repeated slashes count as one. */
  function Components(s: string): seq<string> {
    Kept(Split('/', s))
  }

  function Kept(ts: seq<string>): seq<string> {
    if ts == [] then []
    else (if ts[0] == "" || ts[0] == "." then [] else [ts[0]]) + Kept(ts[1..])
  }

  /** The path of an object name: its first four bytes name a directory. Shorter names make the code panic. */
  function RelPath(name: string): Option<string> {
    if |name| < 4 then None else Some(name[..4] + "/" + name[4..])
  }

  function Location(id: string): string
    requires IsId(id)
  {
    id[..4] + "/" + id[4..]
  }

  function PathOf(id: string): seq<string>
    requires IsId(id)
  {
    [id[..4], id[4..]]
  }

  lemma TwoComponents(a: string, b: string)
    requires a != "" && a != "." && b != "" && b != "."
    requires '/' !in a && '/' !in b
    ensures Components(a + "/" + b) == [a, b]
    ensures Components(a + "/" + "/" + b) == [a, b]
  {
    SplitPlain('/', a);
    SplitAfterSeparator('/', a, b);
    SplitAfterSeparator('/', a, "");
    assert a + "/" + "" == a + "/";
    SplitAfterSeparator('/', a + "/", b);
    KeptBoth(a, b);
    assert Split('/', a + "/" + "/" + b) == [a, "", b];
  }

  lemma KeptOne(a: string)
    requires a != "" && a != "."
    ensures Kept([a]) == [a]
  {
    var ts := [a];
    assert ts[1..] == [] && Kept(ts[1..]) == [];
  }

  lemma KeptBoth(a: string, b: string)
    requires a != "" && a != "." && b != "" && b != "."
    ensures Kept([a, b]) == [a, b] && Kept([a, "", b]) == [a, b]
  {
    KeptOne(b);
    var ts, us := [a, "", b], ["", b];
    assert [a, b][1..] == [b];
    assert us[1..] == [b] && Kept(us) == [b];
    assert ts[1..] == us;
  }

  lemma HexIsAName(s: string)
    requires IsHex(s)
    ensures '/' !in s && s != "."
  {
    assert s != [] ==> s[0] in s;
  }

  lemma HalvesOfId(id: string)
    requires IsId(id)
    ensures id == id[..4] + id[4..] && IsHex(id[..4]) && IsHex(id[4..])
  {
    forall c | c in id[..4] || c in id[4..] ensures c in "0123456789ABCDEF" {
      assert c in id;
    }
  }

  /** The location given for an id leads to its file, for a deletion as it is, and for a reading although the
      directory is then cut off a second time; so does the id itself for a reading, but not for a deletion. */
  lemma LocationResolves(id: string)
    requires IsId(id)
    ensures Components(Location(id)) == PathOf(id)
    ensures RelPath(Location(id)).Some? && Components(RelPath(Location(id)).value) == PathOf(id)
    ensures RelPath(id) == Some(Location(id))
    ensures Components(id) == [id]
  {
    var a, b := id[..4], id[4..];
    HalvesOfId(id);
    HexIsAName(a);
    HexIsAName(b);
    HexIsAName(id);
    TwoComponents(a, b);
    assert Location(id)[..4] == a && Location(id)[4..] == "/" + b;
    assert a + "/" + ("/" + b) == a + "/" + "/" + b;
    SplitPlain('/', id);
    KeptOne(id);
  }

  /** The location of a new blob: its tick, on four digits, names the directory, and its random number the file. */
  lemma LocationHasTickAndRandom(nanos: nat, random: nat)
    requires random < RANDOM_LIMIT
    ensures IsId(NextId(nanos, random))
    ensures var l := Location(NextId(nanos, random));
            && |l| == 10 && l[4] == '/' && IsHex(l[..4]) && IsHex(l[5..])
            && HexValue(l[..4]) == nanos / 268435456 % 65536 && HexValue(l[5..]) == random
            && PathOf(NextId(nanos, random)) == [l[..4], l[5..]]
  {
    Widths();
    IdDeterminesTickAndRandom(nanos, random, nanos, random);
    var id, l := NextId(nanos, random), Location(NextId(nanos, random));
    HexShape(Tick(nanos), 4);
    HexHasValue(Tick(nanos), 4);
    HexHasValue(random, 5);
    assert id[..4] == Hex(Tick(nanos), 4) && id[4..] == Hex(random, 5);
    assert l[..4] == id[..4] && l[5..] == id[4..];
  }

  lemma {:induction false} KeptAppend(ts: seq<string>, name: string)
    ensures Kept(ts + [name]) == Kept(ts) + (if name == "" || name == "." then [] else [name])
  {
    if ts == [] {
      assert [name][1..] == [] && [] + [name] == [name];
    } else {
      assert (ts + [name])[1..] == ts[1..] + [name];
      KeptAppend(ts[1..], name);
      var first := if ts[0] == "" || ts[0] == "." then [] else [ts[0]];
      var last := if name == "" || name == "." then [] else [name];
      assert first + (Kept(ts[1..]) + last) == first + Kept(ts[1..]) + last;
    }
  }

  /** A path leads through its names in order; an empty name and a dot lead nowhere. */
  lemma ComponentsGrow(path: string, name: string)
    requires '/' !in name
    ensures Components(name) == if name == "" || name == "." then [] else [name]
    ensures Components(path + "/" + name) == Components(path) + Components(name)
  {
    SplitPlain('/', name);
    KeptAppend([], name);
    assert [] + [name] == [name];
    SplitAfterSeparator('/', path, name);
    KeptAppend(Split('/', path), name);
  }

  /** Different ids have different locations and different paths. */
  lemma LocationInjective(id1: string, id2: string)
    requires IsId(id1) && IsId(id2)
    ensures Location(id1) == Location(id2) <==> id1 == id2
    ensures PathOf(id1) == PathOf(id2) <==> id1 == id2
  {
    assert id1 == id1[..4] + id1[4..] && id2 == id2[..4] + id2[4..];
    assert Location(id1)[..4] == id1[..4] && Location(id1)[5..] == id1[4..];
    assert Location(id2)[..4] == id2[..4] && Location(id2)[5..] == id2[4..];
  }

  /** Two creations in different ticks, less than 65536 ticks apart, get different ids and different paths,
      whatever the random numbers. */
  lemma NearTicksNeverCollide(t1: nat, r1: nat, t2: nat, r2: nat)
    requires r1 < RANDOM_LIMIT && r2 < RANDOM_LIMIT
    requires t1 / 268435456 < t2 / 268435456 < t1 / 268435456 + 65536
    ensures NextId(t1, r1) != NextId(t2, r2)
    ensures IsId(NextId(t1, r1)) && IsId(NextId(t2, r2)) && PathOf(NextId(t1, r1)) != PathOf(NextId(t2, r2))
  {
    DifferentTicks(t1 / TICK_NANOS, t2 / TICK_NANOS);
    IdDeterminesTickAndRandom(t1, r1, t2, r2);
    IdDeterminesTickAndRandom(t2, r2, t1, r1);
    LocationInjective(NextId(t1, r1), NextId(t2, r2));
  }

  lemma DifferentTicks(a: nat, b: nat)
    requires a < b < a + TICKS
    ensures a % TICKS != b % TICKS
  {
  }
}
