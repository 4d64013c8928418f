/** The keys of the index, `base,key` once encoded (pkg/gunkan/index_key.go). */
module IndexKey {
  import opened ByteOrder

  function Join(base: string, key: string): string {
    base + "," + key
  }

  /** What precedes the first comma of `s`, all of `s` if there is none. */
  function BaseOf(s: string): string {
    if s == [] || s[0] == ',' then [] else [s[0]] + BaseOf(s[1..])
  }

  /** What follows the first comma of `s`; a string without comma leaves the `prior` key. */
  function KeyOf(s: string, prior: string := ""): string {
    if ',' in s && |BaseOf(s)| < |s| then s[|BaseOf(s)| + 1..] else prior
  }

  lemma {:induction false} BaseOfIsPrefix(s: string)
    ensures ',' !in BaseOf(s)
    ensures ',' in s ==> |BaseOf(s)| < |s| && s[|BaseOf(s)|] == ',' && s[..|BaseOf(s)|] == BaseOf(s)
    ensures ',' !in s ==> BaseOf(s) == s
  {
    if s != [] && s[0] != ',' {
      BaseOfIsPrefix(s[1..]);
      assert s == [s[0]] + s[1..];
    }
  }

  /** The first comma decides: whatever follows a comma-free base and a comma is the key. */
  lemma {:induction false} BaseOfJoin(base: string, rest: string)
    requires ',' !in base
    ensures BaseOf(base + "," + rest) == base
  {
    var s := base + "," + rest;
    if base != [] {
      assert s[1..] == base[1..] + "," + rest;
      BaseOfJoin(base[1..], rest);
    }
  }

  /** Decoding gives back the encoded pair exactly when the base holds no comma. */
  lemma DecodeInvertsEncode(base: string, key: string, prior: string)
    ensures (BaseOf(Join(base, key)) == base && KeyOf(Join(base, key), prior) == key) <==> ',' !in base
    ensures ',' in base ==> BaseOf(Join(base, key)) != base
  {
    var s := Join(base, key);
    assert s[|base|] == ',';
    BaseOfIsPrefix(s);
    if ',' !in base {
      BaseOfJoin(base, key);
      assert s[|base| + 1..] == key;
    }
  }

  /** Encoding gives back the decoded string exactly when it holds a comma, whatever the key was before. */
  lemma EncodeInvertsDecode(s: string, prior: string)
    ensures Join(BaseOf(s), KeyOf(s, prior)) == s <==> ',' in s
  {
    BaseOfIsPrefix(s);
    if ',' in s {
      assert s == s[..|BaseOf(s)|] + [s[|BaseOf(s)|]] + s[|BaseOf(s)| + 1..];
    } else {
      assert |Join(BaseOf(s), KeyOf(s, prior))| > |s|;
    }
  }

  /** Within a base, encoded keys are ordered as the keys are. */
  lemma EncodeKeepsOrder(base: string, k1: string, k2: string)
    ensures Less(Join(base, k1), Join(base, k2)) <==> Less(k1, k2)
  {
    LessCommonPrefix(base + ",", k1, k2);
  }

  /** The encoded keys of a comma-free base are contiguous. */
  lemma BaseIsContiguous(base: string, k1: string, s: string, k2: string)
    requires ',' !in base
    requires !Less(s, Join(base, k1)) && !Less(Join(base, k2), s)
    ensures ',' in s && BaseOf(s) == base
  {
    PrefixIsContiguous(base + ",", k1, s, k2);
    var rest := s[|base| + 1..];
    assert s == base + "," + rest;
    assert s[|base|] == ',';
    BaseOfJoin(base, rest);
  }

  datatype Step = ParsingBase | ParsingKey

  class BaseKey {
    var base: string
    var key: string

    constructor BK(base: string, key: string)
      ensures this.base == base && this.key == key
    {
      this.base, this.key := base, key;
    }

    method Encode() returns (s: string)
      ensures s == Join(base, key)
    {
      s := base + "," + key;
    }

    method DecodeString(s: string)
      modifies this
      ensures base == BaseOf(s)
      ensures key == KeyOf(s, old(key))
    {
      var step, sb := ParsingBase, "";
      BaseOfIsPrefix(s);
      for i := 0 to |s|
        invariant key == old(key)
        invariant step == ParsingBase ==> ',' !in s[..i] && sb == s[..i]
        invariant step == ParsingKey ==> ',' in s && base == BaseOf(s) && |base| < i && sb == s[|base| + 1..i]
      {
        assert s[..i + 1] == s[..i] + [s[i]];
        match step {
          case ParsingBase =>
            if s[i] == ',' {
              assert s == s[..i] + "," + s[i + 1..];
              BaseOfJoin(s[..i], s[i + 1..]);
              base, sb, step := sb, "", ParsingKey;
            } else {
              sb := sb + [s[i]];
            }
          case ParsingKey =>
            sb := sb + [s[i]];
        }
      }
      match step {
        case ParsingBase => base := sb;
        case ParsingKey => key := sb;
      }
    }
  }
}
