/** The hex codec behind the encryption key. Strings are Go strings: byte sequences. */
module HexCodec {
  import opened AddressTables

  /** Arithmetic on `byte` is checked: a value outside 0..255 would not verify. */
  newtype byte = x: int | 0 <= x < 256

  type Bytes = seq<byte>

  // ---- digits -----------------------------------------------------------------

  predicate IsDigit(c: byte) { 48 <= c <= 57 }

  predicate IsLowerHex(c: byte) { 97 <= c <= 102 }

  predicate IsUpperHex(c: byte) { 65 <= c <= 70 }

  predicate IsHex(c: byte) { IsDigit(c) || IsLowerHex(c) || IsUpperHex(c) }

  function Value(c: byte): (v: byte)
    requires IsHex(c)
    ensures v < 16
  {
    if IsDigit(c) then c - 48 else if IsLowerHex(c) then c - 97 + 10 else c - 65 + 10
  }

  /** The character at an index of "0123456789abcdef". */
  function Digit(v: byte): (c: byte)
    requires v < 16
    ensures IsHex(c) && Value(c) == v
  {
    if v < 10 then 48 + v else 97 + (v - 10)
  }

  function Lower(c: byte): byte {
    if IsUpperHex(c) then c + 32 else c
  }

  lemma DigitOfValue(c: byte)
    requires IsHex(c)
    ensures Digit(Value(c)) == Lower(c)
  {
  }

  // ---- what the codec is for --------------------------------------------------

  predicate AllHex(s: Bytes) {
    forall i | 0 <= i < |s| :: IsHex(s[i])
  }

  function Decoded(s: Bytes): Option<Bytes> {
    if |s| % 2 != 0 || !AllHex(s) then None
    else Some(seq(|s| / 2, i requires 0 <= i < |s| / 2 => Value(s[2 * i]) * 16 + Value(s[2 * i + 1])))
  }

  function Encoded(d: Bytes): Bytes {
    seq(2 * |d|, i requires 0 <= i < 2 * |d| =>
      if i % 2 == 0 then Digit(d[i / 2] / 16) else Digit(d[i / 2] % 16))
  }

  function Lowered(s: Bytes): Bytes {
    seq(|s|, i requires 0 <= i < |s| => Lower(s[i]))
  }

  lemma EncodedAt(d: Bytes, i: nat)
    requires i < |d|
    ensures Encoded(d)[2 * i] == Digit(d[i] / 16) && Encoded(d)[2 * i + 1] == Digit(d[i] % 16)
  {
    assert (2 * i) / 2 == i && (2 * i + 1) / 2 == i && (2 * i) % 2 == 0 && (2 * i + 1) % 2 == 1;
  }

  lemma DecodeOfEncode(d: Bytes)
    ensures Decoded(Encoded(d)) == Some(d)
  {
    var e := Encoded(d);
    assert |e| == 2 * |d| && AllHex(e);
    var back := Decoded(e).value;
    assert |back| == |d|;
    forall i | 0 <= i < |d| ensures back[i] == d[i] {
      EncodedAt(d, i);
      assert back[i] == Value(e[2 * i]) * 16 + Value(e[2 * i + 1]);
    }
    assert back == d;
  }

  lemma EncodeOfDecode(s: Bytes)
    requires Decoded(s).Some?
    ensures Encoded(Decoded(s).value) == Lowered(s)
  {
    var d := Decoded(s).value;
    var e := Encoded(d);
    forall i | 0 <= i < |s| ensures e[i] == Lower(s[i]) {
      var k := i / 2;
      assert d[k] == Value(s[2 * k]) * 16 + Value(s[2 * k + 1]);
      assert d[k] / 16 == Value(s[2 * k]) && d[k] % 16 == Value(s[2 * k + 1]);
      DigitOfValue(s[i]);
    }
    assert e == Lowered(s);
  }

  /** Two hex strings denote the same bytes exactly when they differ at most in case. */
  lemma SameBytesIff(s: Bytes, t: Bytes)
    requires Decoded(s).Some? && Decoded(t).Some?
    ensures Decoded(s) == Decoded(t) <==> Lowered(s) == Lowered(t)
  {
    EncodeOfDecode(s);
    EncodeOfDecode(t);
    DecodeOfEncode(Decoded(s).value);
    DecodeOfEncode(Decoded(t).value);
  }

  // ---- the loops --------------------------------------------------------------

  method HexDecode(s: Bytes) returns (r: Option<Bytes>)
    ensures r == Decoded(s)
    ensures r.None? <==> |s| % 2 != 0 || exists i | 0 <= i < |s| :: !IsHex(s[i])
  {
    if |s| % 2 != 0 {
      return None;
    }
    var result := new byte[|s| / 2];
    var i := 0;
    while i < |s|
      invariant 0 <= i <= |s| && i % 2 == 0
      invariant forall k | 0 <= k < i :: IsHex(s[k])
      invariant forall k | 0 <= k < i / 2 :: result[k] == Value(s[2 * k]) * 16 + Value(s[2 * k + 1])
    {
      var b: byte := 0;
      var j := 0;
      while j < 2
        invariant 0 <= j <= 2
        invariant forall k | i <= k < i + j :: IsHex(s[k])
        invariant j == 0 ==> b == 0
        invariant j == 1 ==> b == Value(s[i])
        invariant j == 2 ==> b == Value(s[i]) * 16 + Value(s[i + 1])
      {
        var c := s[i + j];
        if 48 <= c <= 57 {
          b := b * 16 + (c - 48);
        } else if 97 <= c <= 102 {
          b := b * 16 + (c - 97 + 10);
        } else if 65 <= c <= 70 {
          b := b * 16 + (c - 65 + 10);
        } else {
          assert !IsHex(s[i + j]);
          return None;
        }
        j := j + 1;
      }
      result[i / 2] := b;
      i := i + 2;
    }
    assert result[..] == Decoded(s).value;
    r := Some(result[..]);
  }

  method HexEncode(data: Bytes) returns (r: Bytes)
    ensures r == Encoded(data)
    ensures Decoded(r) == Some(data)
  {
    var result := new byte[|data| * 2];
    for i := 0 to |data|
      invariant forall k | 0 <= k < i ::
                  result[2 * k] == Digit(data[k] / 16) && result[2 * k + 1] == Digit(data[k] % 16)
    {
      var b := data[i];
      result[i * 2] := Digit(b / 16);
      result[i * 2 + 1] := Digit(b % 16);
    }
    r := result[..];
    forall i | 0 <= i < |r| ensures r[i] == Encoded(data)[i] {
      assert result[2 * (i / 2)] == Digit(data[i / 2] / 16);
    }
    DecodeOfEncode(data);
  }

  datatype KeyResult = Key(bytes: Bytes) | NotConfigured | InvalidKey

  /** A key is accepted exactly when it is 64 hex characters, in either case. */
  method NewEncryptor(hexKey: Bytes) returns (r: KeyResult)
    ensures r.NotConfigured? <==> hexKey == []
    ensures r.Key? <==> |hexKey| == 64 && AllHex(hexKey)
    ensures r.Key? ==> |r.bytes| == 32 && Encoded(r.bytes) == Lowered(hexKey)
  {
    if hexKey == [] {
      return NotConfigured;
    }
    var key := HexDecode(hexKey);
    if key.None? || |key.value| != 32 {
      return InvalidKey;
    }
    EncodeOfDecode(hexKey);
    r := Key(key.value);
  }
}
