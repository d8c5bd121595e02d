/** The textual form of a blob id in builds without the `typed-id` feature: 16 bytes as 32 hex digits. */
module HexCodec {
  import opened Bytes
  import opened Keys

  const PLUS: byte := 43
  const ID_LEN := 16

  /** `{b:x}` of one digit: `0` to `9`, then `a` to `f`. */
  function Digit(d: int): byte
    requires 0 <= d < 16
  {
    if d < 10 then 48 + d else 87 + d
  }

  /** The value of a hex digit in either case, or -1. */
  function DigitValue(c: byte): int {
    if 48 <= c <= 57 then c - 48
    else if 97 <= c <= 102 then c - 87
    else if 65 <= c <= 70 then c - 55
    else -1
  }

  predicate IsHex(c: byte) {
    DigitValue(c) >= 0
  }

  function Lower(c: byte): byte {
    if 65 <= c <= 90 then c + 32 else c
  }

  function LowerAll(s: Str): Str {
    seq(|s|, i requires 0 <= i < |s| => Lower(s[i]))
  }

  /** Parsing two characters in base 16 as an unsigned byte. A leading `+` is a sign, not a digit. */
  function ParsePair(hi: byte, lo: byte): Option<byte> {
    if hi == PLUS then if IsHex(lo) then Some(DigitValue(lo)) else None
    else if IsHex(hi) && IsHex(lo) then Some(16 * DigitValue(hi) + DigitValue(lo))
    else None
  }

  predicate PairParses(s: Str, i: nat)
    requires 2 * i + 1 < |s|
  {
    ParsePair(s[2 * i], s[2 * i + 1]).Some?
  }

  /** The texts that parse: 32 characters, each pair two hex digits or a plus and a hex digit. */
  predicate Parses(s: Str) {
    |s| == 2 * ID_LEN && forall i: nat :: i < ID_LEN ==> PairParses(s, i)
  }

  predicate Spells(s: Str, id: seq<byte>, i: nat)
    requires i < |id| && 2 * |id| <= |s|
  {
    s[2 * i] == Digit(id[i] / 16) && s[2 * i + 1] == Digit(id[i] % 16)
  }

  /** Writes two lower-case digits a byte. */
  method Display(id: seq<byte>) returns (s: Str)
    requires |id| == ID_LEN
    ensures |s| == 2 * ID_LEN
    ensures forall i: nat :: i < ID_LEN ==> Spells(s, id, i)
    ensures forall i :: 0 <= i < 16 ==>
              && s[2 * i] == (if id[i] / 16 < 10 then 48 else 87) + id[i] / 16
              && s[2 * i + 1] == (if id[i] % 16 < 10 then 48 else 87) + id[i] % 16
  {
    s := [];
    for k := 0 to |id|
      invariant |s| == 2 * k
      invariant forall i: nat :: i < k ==> s[2 * i] == Digit(id[i] / 16) && s[2 * i + 1] == Digit(id[i] % 16)
    {
      s := s + [Digit(id[k] / 16), Digit(id[k] % 16)];
    }
  }

  /** One pair parses when it is two hex digits in either case, or a plus sign and a hex digit. */
  lemma PairMeans(hi: byte, lo: byte)
    ensures ParsePair(hi, lo).Some? <==>
            && (48 <= hi <= 57 || 97 <= hi <= 102 || 65 <= hi <= 70 || hi == 43)
            && (48 <= lo <= 57 || 97 <= lo <= 102 || 65 <= lo <= 70)
  {
  }

  lemma ParsesMeans(s: Str)
    ensures Parses(s) <==> |s| == 32 && forall i :: 0 <= i < 16 ==>
              && (48 <= s[2 * i] <= 57 || 97 <= s[2 * i] <= 102 || 65 <= s[2 * i] <= 70 || s[2 * i] == 43)
              && (48 <= s[2 * i + 1] <= 57 || 97 <= s[2 * i + 1] <= 102 || 65 <= s[2 * i + 1] <= 70)
  {
    if |s| == 32 {
      forall i: nat | i < 16
        ensures PairParses(s, i) <==>
                && (48 <= s[2 * i] <= 57 || 97 <= s[2 * i] <= 102 || 65 <= s[2 * i] <= 70 || s[2 * i] == 43)
                && (48 <= s[2 * i + 1] <= 57 || 97 <= s[2 * i + 1] <= 102 || 65 <= s[2 * i + 1] <= 70)
      {
        PairMeans(s[2 * i], s[2 * i + 1]);
      }
    }
  }

  /** Fills the byte array pair by pair and stops at the first pair that does not parse. */
  method FromStr(s: Str) returns (r: Option<seq<byte>>)
    ensures r.Some? <==> Parses(s)
    ensures r.Some? <==> |s| == 32 && forall i :: 0 <= i < 16 ==>
              && (48 <= s[2 * i] <= 57 || 97 <= s[2 * i] <= 102 || 65 <= s[2 * i] <= 70 || s[2 * i] == 43)
              && (48 <= s[2 * i + 1] <= 57 || 97 <= s[2 * i + 1] <= 102 || 65 <= s[2 * i + 1] <= 70)
    ensures r.Some? ==> |r.value| == ID_LEN
                        && forall i: nat :: i < ID_LEN ==> ParsePair(s[2 * i], s[2 * i + 1]) == Some(r.value[i])
  {
    ParsesMeans(s);
    if |s| != 2 * ID_LEN {
      return None;
    }
    var bytes := new byte[ID_LEN](_ => 0);
    for k := 0 to ID_LEN
      invariant forall i: nat :: i < k ==> ParsePair(s[2 * i], s[2 * i + 1]) == Some(bytes[i])
    {
      var b := ParsePair(s[2 * k], s[2 * k + 1]);
      if b.None? {
        assert !PairParses(s, k);
        return None;
      }
      bytes[k] := b.value;
    }
    return Some(bytes[..]);
  }

  lemma PairRoundTrip(b: byte)
    ensures ParsePair(Digit(b / 16), Digit(b % 16)) == Some(b)
  {
  }

  /** Printing a parsed pair gives the pair in lower case, exactly when it had no plus sign. */
  lemma PairReprints(hi: byte, lo: byte)
    requires ParsePair(hi, lo).Some?
    ensures
      var b := ParsePair(hi, lo).value;
      [Digit(b / 16), Digit(b % 16)] == [Lower(hi), Lower(lo)] <==> hi != PLUS
  {
  }

  /** Every id survives being printed and parsed. */
  method IdRoundTrip(id: seq<byte>) returns (s: Str, back: Option<seq<byte>>)
    requires |id| == ID_LEN
    ensures back == Some(id)
  {
    s := Display(id);
    back := FromStr(s);
    forall i: nat | i < ID_LEN
      ensures ParsePair(s[2 * i], s[2 * i + 1]) == Some(id[i])
    {
      assert Spells(s, id, i);
      PairRoundTrip(id[i]);
    }
    assert forall i: nat :: i < ID_LEN ==> PairParses(s, i);
    assert back.value == id;
  }

  /** A text that parses is reprinted in lower case, exactly when none of its pairs carries a plus sign. */
  method TextRoundTrip(s: Str) returns (id: Option<seq<byte>>, again: Str)
    ensures id.Some? <==> Parses(s)
    ensures |s| == 32 && (forall k :: 0 <= k < 32 ==> 48 <= s[k] <= 57 || 97 <= s[k] <= 102 || 65 <= s[k] <= 70) ==>
              id.Some? && |again| == 32 && forall k :: 0 <= k < 32 ==> again[k] == if 65 <= s[k] <= 70 then s[k] + 32 else s[k]
    ensures id.Some? ==> (again == LowerAll(s) <==> forall i: nat :: i < ID_LEN ==> s[2 * i] != PLUS)
  {
    again := [];
    id := FromStr(s);
    if id.Some? {
      again := Display(id.value);
      forall i: nat | i < ID_LEN
        ensures again[2 * i] == Lower(s[2 * i]) && again[2 * i + 1] == Lower(s[2 * i + 1]) <==> s[2 * i] != PLUS
      {
        assert Spells(again, id.value, i);
        PairReprints(s[2 * i], s[2 * i + 1]);
      }
      if forall i: nat :: i < ID_LEN ==> s[2 * i] != PLUS {
        forall k | 0 <= k < |s|
          ensures again[k] == LowerAll(s)[k]
        {
          assert s[2 * (k / 2)] != PLUS;
        }
      } else {
        var i: nat :| i < ID_LEN && s[2 * i] == PLUS;
        assert LowerAll(s)[2 * i] == Lower(s[2 * i]) && LowerAll(s)[2 * i + 1] == Lower(s[2 * i + 1]);
      }
    }
  }
}
