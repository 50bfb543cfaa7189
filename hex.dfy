// encoding/hex as the store uses it: MatchMD5, FetchKeys and FetchKeyrings
// refuse an identifier that hex.DecodeString rejects, before any query runs.
module Hex {
  import opened HkpTypes

  newtype byte = x: int | 0 <= x < 256

  predicate IsHexDigit(c: char) {
    ('0' <= c <= '9') || ('a' <= c <= 'f') || ('A' <= c <= 'F')
  }

  /** Both cases are accepted on input, as by hex.DecodeString. */
  predicate ValidHex(s: string) {
    |s| % 2 == 0 && forall i :: 0 <= i < |s| ==> IsHexDigit(s[i])
  }

  function DigitValue(c: char): (v: nat)
    requires IsHexDigit(c)
    ensures v < 16
  {
    if '0' <= c <= '9' then c as int - '0' as int
    else if 'a' <= c <= 'f' then c as int - 'a' as int + 10
    else c as int - 'A' as int + 10
  }

  /** Lower-case digit for a value below 16, as hex.EncodeToString writes it. */
  function DigitChar(v: nat): (c: char)
    requires v < 16
    ensures IsHexDigit(c) && !IsUpper(c) && DigitValue(c) == v
  {
    if v < 10 then ('0' as int + v) as char else ('a' as int + v - 10) as char
  }

  /** hex.DecodeString: None on odd length or a non-hex character. */
  function Decode(s: string): (r: Option<seq<byte>>)
    ensures r.Some? <==> ValidHex(s)
    ensures r.Some? ==> 2 * |r.value| == |s|
    decreases |s|
  {
    if |s| == 0 then Some([])
    else if |s| == 1 || !IsHexDigit(s[0]) || !IsHexDigit(s[1]) then None
    else
      match Decode(s[2..])
      case None => None
      case Some(rest) => Some([(16 * DigitValue(s[0]) + DigitValue(s[1])) as byte] + rest)
  }

  /** hex.EncodeToString. */
  function Encode(b: seq<byte>): (s: string)
    ensures |s| == 2 * |b|
  {
    if b == [] then [] else [DigitChar(b[0] as nat / 16), DigitChar(b[0] as nat % 16)] + Encode(b[1..])
  }

  lemma {:induction false} DecodeEncode(b: seq<byte>)
    ensures Decode(Encode(b)) == Some(b)
  {
    if b != [] {
      DecodeEncode(b[1..]);
      var s := Encode(b);
      var x := b[0] as nat;
      assert s[0] == DigitChar(x / 16) && s[1] == DigitChar(x % 16) && s[2..] == Encode(b[1..]);
      assert DigitValue(s[0]) == x / 16 && DigitValue(s[1]) == x % 16;
      assert (16 * DigitValue(s[0]) + DigitValue(s[1])) as byte == b[0];
      assert [b[0]] + b[1..] == b;
    }
  }

  lemma DigitRoundTrip(c: char)
    requires IsHexDigit(c)
    ensures DigitChar(DigitValue(c)) == LowerChar(c)
  {
  }

  lemma ByteSplit(hi: nat, lo: nat)
    requires hi < 16 && lo < 16
    ensures (16 * hi + lo) / 16 == hi && (16 * hi + lo) % 16 == lo
  {
  }

  /** Decoding then encoding normalises the digits to lower case. */
  lemma {:induction false} EncodeDecode(s: string)
    requires ValidHex(s)
    ensures Encode(Decode(s).value) == Lower(s)
    decreases |s|
  {
    if |s| > 0 {
      var tail := s[2..];
      assert ValidHex(tail) by {
        forall i | 0 <= i < |tail| ensures IsHexDigit(tail[i]) { assert tail[i] == s[i + 2]; }
      }
      EncodeDecode(tail);
      var hi, lo := DigitValue(s[0]), DigitValue(s[1]);
      var d := Decode(s).value;
      assert d == [(16 * hi + lo) as byte] + Decode(tail).value;
      ByteSplit(hi, lo);
      DigitRoundTrip(s[0]);
      DigitRoundTrip(s[1]);
      assert Encode(d) == [LowerChar(s[0]), LowerChar(s[1])] + Lower(tail);
      assert Lower(s) == [LowerChar(s[0]), LowerChar(s[1])] + Lower(tail);
    }
  }

  /** The first identifier that fails validation, if any. */
  function FirstInvalid(ss: seq<string>): (r: Option<nat>)
    ensures r.None? <==> forall i :: 0 <= i < |ss| ==> ValidHex(ss[i])
    ensures r.Some? ==> r.value < |ss| && !ValidHex(ss[r.value])
                        && forall j :: 0 <= j < r.value ==> ValidHex(ss[j])
  {
    if ss == [] then None
    else if !ValidHex(ss[0]) then Some(0)
    else match FirstInvalid(ss[1..])
      case None => None
      case Some(k) => Some(k + 1)
  }

  /** The validation loop of MatchMD5 and FetchKeys: the lower-cased list, or
      an error naming the first identifier that is not hex. */
  function ValidatedLower(ss: seq<string>): (r: Result<seq<string>>)
    ensures r.Ok? <==> forall i :: 0 <= i < |ss| ==> ValidHex(ss[i])
    ensures r.Ok? ==> |r.value| == |ss| && forall i :: 0 <= i < |ss| ==> r.value[i] == Lower(ss[i])
    ensures r.Err? ==> exists i :: 0 <= i < |ss| && !ValidHex(ss[i]) && r.error == ErrInvalidHex(ss[i])
  {
    match FirstInvalid(ss)
    case Some(k) => Err(ErrInvalidHex(ss[k]))
    case None => Ok(seq(|ss|, i requires 0 <= i < |ss| => Lower(ss[i])))
  }

  /** The loop that builds an IN list: each identifier is checked with
      hex.DecodeString and lower-cased, the first one that is not hex ending
      the call. */
  method BuildInList(ss: seq<string>) returns (r: Result<seq<string>>)
    ensures r == ValidatedLower(ss)
  {
    var items: seq<string> := [];
    for i := 0 to |ss|
      invariant |items| == i
      invariant forall j :: 0 <= j < i ==> ValidHex(ss[j]) && items[j] == Lower(ss[j])
    {
      if Decode(ss[i]).None? {
        return Err(ErrInvalidHex(ss[i]));
      }
      items := items + [Lower(ss[i])];
    }
    assert ValidatedLower(ss).Ok?;
    assert items == ValidatedLower(ss).value;
    return Ok(items);
  }
}
