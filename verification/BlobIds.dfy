/** The names of blobs, `bucket,content,part,position` once encoded (pkg/gunkan/blob.go). */
module BlobIds {
  import opened Splitting
  import opened Wrappers

  // ---------- decimal numbers ----------

  function Digits(n: nat): string {
    if n < 10 then ['0' + n as char] else Digits(n / 10) + ['0' + (n % 10) as char]
  }

  predicate IsDigit(c: char) {
    '0' <= c <= '9'
  }

  predicate AllDigits(s: string) {
    forall c :: c in s ==> IsDigit(c)
  }

  predicate IsDecimal(s: string) {
    s != [] && AllDigits(s)
  }

  function ValueOf(s: string): nat
    requires AllDigits(s)
  {
    if s == [] then 0
    else
      var c := s[|s| - 1];
      assert IsDigit(c);
      10 * ValueOf(s[..|s| - 1]) + (c - '0') as nat
  }

  lemma {:induction false} DigitsAreTheValue(n: nat)
    ensures IsDecimal(Digits(n)) && ValueOf(Digits(n)) == n
  {
    if n >= 10 {
      DigitsAreTheValue(n / 10);
      var s := Digits(n);
      assert s[..|s| - 1] == Digits(n / 10);
    } else {
      assert Digits(n)[..0] == [];
    }
  }

  function Pow10(k: nat): nat {
    if k == 0 then 1 else 10 * Pow10(k - 1)
  }

  lemma TenTimes(a: nat, p: nat, b: nat)
    ensures 10 * (a * p + b) == a * (10 * p) + 10 * b
  {
  }

  /** Digits count ten times as much for each digit that follows. */
  lemma {:induction false} ValueOfBoth(a: string, b: string)
    requires AllDigits(a) && AllDigits(b)
    ensures AllDigits(a + b) && ValueOf(a + b) == ValueOf(a) * Pow10(|b|) + ValueOf(b)
  {
    if b == "" {
      assert a + b == a;
    } else {
      var n := |b| - 1;
      assert (a + b)[..|a + b| - 1] == a + b[..n];
      ValueOfBoth(a, b[..n]);
      TenTimes(ValueOf(a), Pow10(n), ValueOf(b[..n]));
    }
  }

  lemma ValueOfDigit(c: char)
    requires '0' <= c <= '9'
    ensures AllDigits([c]) && ValueOf([c]) == c as int - '0' as int
  {
    assert [c][..0] == [];
  }

  /** Numbers are printed without leading zeros. */
  lemma {:induction false} NoLeadingZero(n: nat)
    ensures |Digits(n)| > 0 && (n > 0 ==> Digits(n)[0] != '0') && (n == 0 ==> Digits(n) == "0")
  {
    if n >= 10 {
      NoLeadingZero(n / 10);
    }
  }

  const POSITION_LIMIT: nat := 0x8000_0000

  /** Positions are parsed on 31 bits. */
  function ParsePosition(s: string): Option<nat> {
    if IsDecimal(s) && ValueOf(s) < POSITION_LIMIT then Some(ValueOf(s)) else None
  }

  /** The tokens of an encoded id. */
  function Tokens(s: string): (ts: seq<string>)
    ensures ts != []
  {
    Split(',', s)
  }

  // ---------- blob ids ----------

  datatype BlobId = BlobId(bucket: string, content: string, partId: string, position: nat)

  function Encode(id: BlobId): string {
    id.bucket + "," + id.content + "," + id.partId + "," + Digits(id.position)
  }

  function EncodeMarker(id: BlobId): string {
    id.bucket
    + (if |id.content| > 0 then "," + id.content + (if |id.partId| > 0 then "," + id.partId else "") else "")
  }

  function Decode(s: string): Option<BlobId> {
    var ts := Tokens(s);
    var n := |ts|;
    if n > 4 then None
    else
      match ParsePosition(ts[n - 1])
      case None => None
      case Some(p) =>
        Some(BlobId(if n > 1 then ts[0] else "", if n > 2 then ts[1] else "", if n > 3 then ts[2] else "", p))
  }

  predicate CommaFree(id: BlobId) {
    ',' !in id.bucket && ',' !in id.content && ',' !in id.partId
  }

  lemma CommasOfEncode(id: BlobId)
    ensures multiset(Encode(id))[','] == multiset(id.bucket)[','] + multiset(id.content)[','] + multiset(id.partId)[','] + 3
  {
    DigitsAreTheValue(id.position);
    assert ',' !in Digits(id.position);
  }

  /** Decoding an encoded id gives it back when its fields hold no comma and its position is below 2^31, and
      fails on every other id. */
  lemma DecodeInvertsEncode(id: BlobId)
    ensures Decode(Encode(id)) == if CommaFree(id) && id.position < 2147483648 then Some(id) else None
  {
    DigitsAreTheValue(id.position);
    if CommaFree(id) {
      DecodeFourTokens(id.bucket, id.content, id.partId, Digits(id.position));
    } else {
      CommasOfEncode(id);
      TooManyCommas(Encode(id));
    }
  }

  lemma TooManyCommas(s: string)
    requires multiset(s)[','] > 3
    ensures Decode(s) == None
  {
    SplitCount(',', s);
  }

  lemma DecodeFourTokens(a: string, b: string, c: string, d: string)
    requires ',' !in a && ',' !in b && ',' !in c && ',' !in d
    ensures Decode(a + "," + b + "," + c + "," + d)
         == match ParsePosition(d) case None => None case Some(p) => Some(BlobId(a, b, c, p))
  {
    SplitPlain(',', a);
    SplitAfterSeparator(',', a, b);
    SplitAfterSeparator(',', a + "," + b, c);
    SplitAfterSeparator(',', a + "," + b + "," + c, d);
  }

  /** What the tokens of an accepted string stand for: the last one for the position, those before it for bucket,
      content and part, in this order; missing fields are empty. */
  lemma DecodedFields(a: string, b: string, c: string, d: string)
    requires ',' !in a && ',' !in b && ',' !in c && IsDecimal(d) && ValueOf(d) < 2147483648
    ensures Decode(d) == Some(BlobId("", "", "", ValueOf(d)))
    ensures Decode(a + "," + d) == Some(BlobId(a, "", "", ValueOf(d)))
    ensures Decode(a + "," + b + "," + d) == Some(BlobId(a, b, "", ValueOf(d)))
    ensures Decode(a + "," + b + "," + c + "," + d) == Some(BlobId(a, b, c, ValueOf(d)))
  {
    assert ',' !in d;
    SplitPlain(',', d);
    DecodeFewerTokens(a, b, d);
    DecodeFourTokens(a, b, c, d);
  }

  lemma DecodeFewerTokens(a: string, b: string, d: string)
    requires ',' !in a && ',' !in b && ',' !in d
    ensures Decode(a + "," + d) == match ParsePosition(d) case None => None case Some(p) => Some(BlobId(a, "", "", p))
    ensures Decode(a + "," + b + "," + d)
         == match ParsePosition(d) case None => None case Some(p) => Some(BlobId(a, b, "", p))
  {
    SplitPlain(',', a);
    SplitAfterSeparator(',', a, d);
    SplitAfterSeparator(',', a, b);
    SplitAfterSeparator(',', a + "," + b, d);
  }

  /** The accepted strings: at most three commas, and a decimal below 2^31 after the last one, or alone. */
  lemma AcceptedStrings(s: string, before: string, last: string)
    requires ',' !in last && (s == last || s == before + "," + last)
    ensures Decode(s).Some? <==> multiset(s)[','] <= 3 && IsDecimal(last) && ValueOf(last) < 2147483648
  {
    SplitCount(',', s);
    if ',' !in s {
      SplitPlain(',', s);
    } else {
      SplitAfterSeparator(',', before, last);
    }
  }

  /** Whatever string an id was decoded from, its own encoding decodes to it too. */
  lemma DecodeIsStable(s: string)
    requires Decode(s).Some?
    ensures Decode(Encode(Decode(s).value)) == Decode(s)
    ensures CommaFree(Decode(s).value) && Decode(s).value.position < 2147483648
  {
    PiecesHoldNoSeparator(',', s);
    DecodeInvertsEncode(Decode(s).value);
  }

  /** The tokens of a marker are the fields of its id up to the first empty one, the bucket always, and the position
      never. */
  lemma MarkerFields(id: BlobId)
    requires CommaFree(id)
    ensures Split(',', EncodeMarker(id))
         == if id.content == "" then [id.bucket]
            else if id.partId == "" then [id.bucket, id.content]
            else [id.bucket, id.content, id.partId]
  {
    SplitPlain(',', id.bucket);
    if id.content == "" {
      assert EncodeMarker(id) == id.bucket;
    } else if id.partId == "" {
      SplitAfterSeparator(',', id.bucket, id.content);
      assert EncodeMarker(id) == id.bucket + [','] + id.content;
    } else {
      MarkerOfThree(id, EncodeMarker(id));
    }
  }

  lemma MarkerOfThree(id: BlobId, marker: string)
    requires CommaFree(id) && marker == id.bucket + ("," + id.content + ("," + id.partId))
    ensures Split(',', marker) == [id.bucket, id.content, id.partId]
  {
    SplitPlain(',', id.bucket);
    SplitAfterSeparator(',', id.bucket, id.content);
    SplitAfterSeparator(',', id.bucket + [','] + id.content, id.partId);
    assert marker == id.bucket + [','] + id.content + [','] + id.partId;
  }

  /** A marker is the start of the encoding of its id. */
  lemma MarkerIsPrefix(id: BlobId)
    ensures EncodeMarker(id) <= Encode(id)
  {
    var rest := "," + id.partId + "," + Digits(id.position);
    assert Encode(id) == id.bucket + ("," + id.content + rest);
    assert Encode(id) == (id.bucket + "," + id.content) + rest;
    assert Encode(id) == (id.bucket + "," + id.content + "," + id.partId) + ("," + Digits(id.position));
    assert EncodeMarker(id) == if |id.content| == 0 then id.bucket
                               else if |id.partId| == 0 then id.bucket + "," + id.content
                               else id.bucket + "," + id.content + "," + id.partId;
  }

  // ---------- the encoder and the decoder ----------

  class Builder {
    var text: string

    constructor ()
      ensures text == ""
    {
      text := "";
    }

    method WriteString(s: string)
      modifies this
      ensures text == old(text) + s
    {
      text := text + s;
    }

    method WriteRune(c: char)
      modifies this
      ensures text == old(text) + [c]
    {
      text := text + [c];
    }
  }

  method EncodeIn(id: BlobId, b: Builder)
    modifies b
    ensures b.text == old(b.text) + Encode(id)
  {
    b.WriteString(id.bucket);
    b.WriteRune(',');
    b.WriteString(id.content);
    b.WriteRune(',');
    b.WriteString(id.partId);
    b.WriteRune(',');
    b.WriteString(Digits(id.position));
  }

  method EncodeMarkerIn(id: BlobId, b: Builder)
    modifies b
    ensures b.text == old(b.text) + EncodeMarker(id)
  {
    b.WriteString(id.bucket);
    if |id.content| > 0 {
      b.WriteRune(',');
      b.WriteString(id.content);
      if |id.partId| > 0 {
        b.WriteRune(',');
        b.WriteString(id.partId);
      }
    }
  }

  datatype Step = Bucket | Content | Part | Position

  /** The decoded fields and the token being read, in the order of the tokens. */
  function Fields(step: Step, id: BlobId, b: string): seq<string> {
    match step
    case Bucket => [b]
    case Content => [id.bucket, b]
    case Part => [id.bucket, id.content, b]
    case Position => [id.bucket, id.content, id.partId, b]
  }

  /** The fields not reached yet are empty. */
  predicate Blank(step: Step, id: BlobId) {
    && (step.Bucket? ==> id.bucket == "")
    && (step.Bucket? || step.Content? ==> id.content == "")
    && (!step.Position? ==> id.partId == "")
  }

  lemma DecodeFromFields(s: string, step: Step, id: BlobId, text: string)
    requires Tokens(s) == Fields(step, id, text) && Blank(step, id)
    ensures Decode(s) == match ParsePosition(text) case None => None case Some(u) => Some(id.(position := u))
  {
  }

  lemma FieldsGrow(step: Step, id: BlobId, b: string, c: char)
    ensures c != ',' ==> Fields(step, id, b + [c]) == Grown(',', Fields(step, id, b), c)
    ensures step.Bucket? ==> Fields(Content, id.(bucket := b), "") == Grown(',', Fields(step, id, b), ',')
    ensures step.Content? ==> Fields(Part, id.(content := b), "") == Grown(',', Fields(step, id, b), ',')
    ensures step.Part? ==> Fields(Position, id.(partId := b), "") == Grown(',', Fields(step, id, b), ',')
  {
  }

  lemma FifthToken(s: string, i: nat)
    requires i <= |s| && |Tokens(s[..i])| > 4
    ensures Decode(s) == None
  {
    SplitCount(',', s[..i]);
    assert s == s[..i] + s[i..];
    TooManyCommas(s);
  }

  method DecodeBlobId(packed: string) returns (r: Option<BlobId>)
    ensures r == Decode(packed)
  {
    var id := BlobId("", "", "", 0);
    var b := "";
    var step := Bucket;
    ghost var tokens := [""];
    for i := 0 to |packed|
      invariant tokens == Tokens(packed[..i])
      invariant tokens == Fields(step, id, b)
      invariant Blank(step, id)
    {
      var c := packed[i];
      tokens := SplitNext(',', packed, i, tokens);
      FieldsGrow(step, id, b, c);
      match step {
        case Bucket =>
          if c == ',' {
            step := Content;
            id := id.(bucket := b);
            b := "";
          } else {
            b := b + [c];
          }
        case Content =>
          if c == ',' {
            step := Part;
            id := id.(content := b);
            b := "";
          } else {
            b := b + [c];
          }
        case Part =>
          if c == ',' {
            step := Position;
            id := id.(partId := b);
            b := "";
          } else {
            b := b + [c];
          }
        case Position =>
          if c == ',' {
            FifthToken(packed, i + 1);
            return None;
          } else {
            b := b + [c];
          }
      }
    }
    assert packed[..|packed|] == packed;
    DecodeFromFields(packed, step, id, b);
    var p := ParsePosition(b);
    match p {
      case None => return None;
      case Some(u) => return Some(id.(position := u));
    }
  }
}
