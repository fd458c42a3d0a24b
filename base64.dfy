/**
 * Base 64 encoding with the standard alphabet and '=' padding, as in
 * section 4 of RFC 4648 (the encoding `Convert.ToBase64String` produces),
 * together with a strict decoder that accepts exactly the encoder's output.
 */
module Base64 {
  import opened Common

  /** A six-bit value. */
  predicate IsSextet(v: int) { 0 <= v < 64 }

  /** The alphabet of RFC 4648, section 4, table 1: A-Z, a-z, 0-9, '+', '/'. */
  function EncodeSextet(v: int): (c: char)
    requires IsSextet(v)
  {
    var n := v;
    if n < 26 then ('A' as int + n) as char
    else if n < 52 then ('a' as int + (n - 26)) as char
    else if n < 62 then ('0' as int + (n - 52)) as char
    else if n == 62 then '+'
    else '/'
  }

  /** The inverse of the alphabet table; None for every other character, '=' included. */
  function DecodeSextet(c: char): (r: Option<int>)
    ensures r.Some? ==> IsSextet(r.value)
  {
    if 'A' <= c <= 'Z' then Some(c as int - 'A' as int)
    else if 'a' <= c <= 'z' then Some(c as int - 'a' as int + 26)
    else if '0' <= c <= '9' then Some(c as int - '0' as int + 52)
    else if c == '+' then Some(62)
    else if c == '/' then Some(63)
    else None
  }

  lemma SextetRoundTrip(v: int)
    requires IsSextet(v)
    ensures DecodeSextet(EncodeSextet(v)) == Some(v)
  {
  }

  lemma SextetCanonical(c: char)
    requires DecodeSextet(c).Some?
    ensures EncodeSextet(DecodeSextet(c).value) == c
  {
  }

  /** A character of the alphabet, or the pad character. */
  predicate IsBase64Char(c: char) { DecodeSextet(c).Some? || c == '=' }

  /** Every character the encoding can produce is printable ASCII. */
  lemma Base64CharIsPrintableAscii(c: char)
    requires IsBase64Char(c)
    ensures ' ' < c <= '~'
  {
  }

  /** Three bytes give four alphabet characters. */
  function EncodeQuantum3(a: uint8, b: uint8, c: uint8): string
  {
    [EncodeSextet(a / 4), EncodeSextet(a % 4 * 16 + b / 16),
     EncodeSextet(b % 16 * 4 + c / 64), EncodeSextet(c % 64)]
  }

  /** A final group of two bytes: three characters and one '='. */
  function EncodeQuantum2(a: uint8, b: uint8): string
  {
    [EncodeSextet(a / 4), EncodeSextet(a % 4 * 16 + b / 16),
     EncodeSextet(b % 16 * 4), '=']
  }

  /** A final group of one byte: two characters and "==". */
  function EncodeQuantum1(a: uint8): string
  {
    [EncodeSextet(a / 4), EncodeSextet(a % 4 * 16), '=', '=']
  }

  /** Base 64 text of `bytes`, one four-character group per three input bytes. */
  function Encode(bytes: seq<uint8>): (s: string)
    ensures |s| == 4 * ((|bytes| + 2) / 3)
    ensures forall i :: 0 <= i < |s| ==> IsBase64Char(s[i])
    ensures forall i :: 0 <= i < |s| && s[i] == '=' ==> i >= |s| - 2
    decreases |bytes|
  {
    if |bytes| == 0 then ""
    else if |bytes| == 1 then EncodeQuantum1(bytes[0])
    else if |bytes| == 2 then EncodeQuantum2(bytes[0], bytes[1])
    else
      var q := EncodeQuantum3(bytes[0], bytes[1], bytes[2]);
      FullGroupChars(bytes[0], bytes[1], bytes[2]);
      GroupThenRest(q, Encode(bytes[3..]));
      q + Encode(bytes[3..])
  }

  /** A full group is four alphabet characters. */
  lemma FullGroupChars(a: uint8, b: uint8, c: uint8)
    ensures var q := EncodeQuantum3(a, b, c); |q| == 4 && forall i :: 0 <= i < 4 ==> DecodeSextet(q[i]).Some?
  {
    SextetRoundTrip(a / 4);
    SextetRoundTrip(a % 4 * 16 + b / 16);
    SextetRoundTrip(b % 16 * 4 + c / 64);
    SextetRoundTrip(c % 64);
  }

  /** Four alphabet characters in front keep the padding in the last two positions. */
  lemma GroupThenRest(q: string, rest: string)
    requires |q| == 4 && forall i :: 0 <= i < 4 ==> DecodeSextet(q[i]).Some?
    requires forall i :: 0 <= i < |rest| ==> IsBase64Char(rest[i])
    requires forall i :: 0 <= i < |rest| && rest[i] == '=' ==> i >= |rest| - 2
    ensures forall i :: 0 <= i < |q + rest| ==> IsBase64Char((q + rest)[i])
    ensures forall i :: 0 <= i < |q + rest| && (q + rest)[i] == '=' ==> i >= |q + rest| - 2
  {
    assert forall i :: 4 <= i < |q + rest| ==> (q + rest)[i] == rest[i - 4];
  }

  /** The ends of each range of the alphabet table, as listed in table 1 of RFC 4648. */
  lemma AlphabetKnownAnswers()
    ensures EncodeSextet(0) == 'A' && EncodeSextet(25) == 'Z'
    ensures EncodeSextet(26) == 'a' && EncodeSextet(51) == 'z'
    ensures EncodeSextet(52) == '0' && EncodeSextet(61) == '9'
    ensures EncodeSextet(62) == '+' && EncodeSextet(63) == '/'
  {
  }

  /**
   * The test vectors of section 10 of RFC 4648 whose length is a multiple
   * of three: the encodings of "", "foo" and "foobar" (bytes 102, 111, 98,
   * 97, 114).
   */
  lemma EncodeKnownAnswersUnpadded()
    ensures Encode([]) == ""
    ensures Encode([102, 111, 111]) == "Zm9v"
    ensures Encode([102, 111, 111, 98, 97, 114]) == "Zm9vYmFy"
  {
    var foo: seq<uint8> := [102, 111, 111];
    assert foo[3..] == [];
    assert foo + [98, 97, 114] == [102, 111, 111, 98, 97, 114] && (foo + [98, 97, 114])[3..] == [98, 97, 114];
  }

  /** The padded test vectors of section 10 of RFC 4648: "f", "fo", "foob" and "fooba". */
  lemma EncodeKnownAnswersPadded()
    ensures Encode([102]) == "Zg=="
    ensures Encode([102, 111]) == "Zm8="
    ensures Encode([102, 111, 111, 98]) == "Zm9vYg=="
    ensures Encode([102, 111, 111, 98, 97]) == "Zm9vYmE="
  {
    var foo: seq<uint8> := [102, 111, 111];
    assert foo + [98] == [102, 111, 111, 98] && (foo + [98])[3..] == [98];
    assert foo + [98, 97] == [102, 111, 111, 98, 97] && (foo + [98, 97])[3..] == [98, 97];
  }

  /** A group of four alphabet characters, no padding, as three bytes. */
  function DecodeFullQuantum(q: string): (r: Option<seq<uint8>>)
    requires |q| == 4
    ensures r.Some? ==> |r.value| == 3
  {
    var c0, c1, c2, c3 := DecodeSextet(q[0]), DecodeSextet(q[1]), DecodeSextet(q[2]), DecodeSextet(q[3]);
    if c0.None? || c1.None? || c2.None? || c3.None? then None
    else
      var x0, x1, x2, x3 := c0.value, c1.value, c2.value, c3.value;
      Some([x0 * 4 + x1 / 16, x1 % 16 * 16 + x2 / 4, x2 % 4 * 64 + x3])
  }

  /**
   * The last group of the text: "xx==" is one byte, "xxx=" two bytes, "xxxx"
   * three. The bits that padding leaves unused must be zero, so that every
   * byte sequence has exactly one encoding.
   */
  function DecodeFinalQuantum(q: string): (r: Option<seq<uint8>>)
    requires |q| == 4
    ensures r.Some? ==> 1 <= |r.value| <= 3
  {
    if q[2] == '=' && q[3] == '=' then
      var c0, c1 := DecodeSextet(q[0]), DecodeSextet(q[1]);
      if c0.None? || c1.None? || c1.value % 16 != 0 then None
      else Some([c0.value * 4 + c1.value / 16])
    else if q[3] == '=' then
      var c0, c1, c2 := DecodeSextet(q[0]), DecodeSextet(q[1]), DecodeSextet(q[2]);
      if c0.None? || c1.None? || c2.None? || c2.value % 4 != 0 then None
      else Some([c0.value * 4 + c1.value / 16, c1.value % 16 * 16 + c2.value / 4])
    else DecodeFullQuantum(q)
  }

  /** Strict decoding: a whole number of groups, padding only in the last one. */
  function Decode(s: string): (r: Option<seq<uint8>>)
    decreases |s|
  {
    if |s| == 0 then Some([])
    else if |s| < 4 then None
    else if |s| == 4 then DecodeFinalQuantum(s)
    else
      match DecodeFullQuantum(s[..4])
      case None => None
      case Some(head) =>
        match Decode(s[4..])
        case None => None
        case Some(tail) => Some(head + tail)
  }

  /** Packing a high part and a low part below `16`, and taking them apart again. */
  lemma Pack16(hi: int, lo: int)
    requires 0 <= lo < 16
    ensures (hi * 16 + lo) / 16 == hi && (hi * 16 + lo) % 16 == lo
  {
  }

  lemma Pack4(hi: int, lo: int)
    requires 0 <= lo < 4
    ensures (hi * 4 + lo) / 4 == hi && (hi * 4 + lo) % 4 == lo
  {
  }

  lemma Pack64(hi: int, lo: int)
    requires 0 <= lo < 64
    ensures (hi * 64 + lo) / 64 == hi && (hi * 64 + lo) % 64 == lo
  {
  }

  /** The four sextets of three bytes give the three bytes back. */
  lemma Quantum3RoundTrip(a: uint8, b: uint8, c: uint8)
    ensures DecodeFullQuantum(EncodeQuantum3(a, b, c)) == Some([a, b, c])
  {
    var x0, x1, x2, x3 := a / 4, a % 4 * 16 + b / 16, b % 16 * 4 + c / 64, c % 64;
    SextetRoundTrip(x0);
    SextetRoundTrip(x1);
    SextetRoundTrip(x2);
    SextetRoundTrip(x3);
    Pack16(a % 4, b / 16);
    Pack4(b % 16, c / 64);
    assert x0 * 4 + x1 / 16 == a;
    assert x1 % 16 * 16 + x2 / 4 == b;
    assert x2 % 4 * 64 + x3 == c;
  }

  lemma Quantum2RoundTrip(a: uint8, b: uint8)
    ensures DecodeFinalQuantum(EncodeQuantum2(a, b)) == Some([a, b])
  {
    var x0, x1, x2 := a / 4, a % 4 * 16 + b / 16, b % 16 * 4;
    SextetRoundTrip(x0);
    SextetRoundTrip(x1);
    SextetRoundTrip(x2);
    Pack16(a % 4, b / 16);
    Pack4(b % 16, 0);
    assert x0 * 4 + x1 / 16 == a;
    assert x1 % 16 * 16 + x2 / 4 == b;
  }

  lemma Quantum1RoundTrip(a: uint8)
    ensures DecodeFinalQuantum(EncodeQuantum1(a)) == Some([a])
  {
    var x0, x1 := a / 4, a % 4 * 16;
    SextetRoundTrip(x0);
    SextetRoundTrip(x1);
    Pack16(a % 4, 0);
    assert x0 * 4 + x1 / 16 == a;
  }

  /** A final group of three bytes is encoded without padding and decoded back. */
  lemma LastGroupOf3RoundTrip(bytes: seq<uint8>)
    requires |bytes| == 3
    ensures Decode(Encode(bytes)) == Some(bytes)
  {
    var q := EncodeQuantum3(bytes[0], bytes[1], bytes[2]);
    Quantum3RoundTrip(bytes[0], bytes[1], bytes[2]);
    assert q[3] != '=' by { SextetRoundTrip(bytes[2] % 64); }
    assert DecodeFinalQuantum(q) == DecodeFullQuantum(q);
    assert Encode(bytes) == q + Encode([]) == q;
    assert bytes == [bytes[0], bytes[1], bytes[2]];
  }

  /** A leading group of three bytes decodes on its own, followed by the rest. */
  lemma LeadingGroupSplit(bytes: seq<uint8>)
    requires |bytes| > 3
    ensures var s := Encode(bytes);
      |s| > 4 && s[..4] == EncodeQuantum3(bytes[0], bytes[1], bytes[2]) && s[4..] == Encode(bytes[3..])
  {
    var s := Encode(bytes);
    assert s == EncodeQuantum3(bytes[0], bytes[1], bytes[2]) + Encode(bytes[3..]);
  }

  /** One or two bytes make one padded group, which decodes back to them. */
  lemma ShortRoundTrip(bytes: seq<uint8>)
    requires 1 <= |bytes| <= 2
    ensures Decode(Encode(bytes)) == Some(bytes)
  {
    if |bytes| == 1 {
      Quantum1RoundTrip(bytes[0]);
      assert Encode(bytes) == EncodeQuantum1(bytes[0]);
      assert bytes == [bytes[0]];
    } else {
      Quantum2RoundTrip(bytes[0], bytes[1]);
      assert Encode(bytes) == EncodeQuantum2(bytes[0], bytes[1]);
      assert bytes == [bytes[0], bytes[1]];
    }
  }

  /** A sequence of at least three bytes is its first three followed by the rest. */
  lemma ThreeThenRest(bytes: seq<uint8>)
    requires |bytes| >= 3
    ensures bytes == [bytes[0], bytes[1], bytes[2]] + bytes[3..]
  {
    assert bytes[..3] == [bytes[0], bytes[1], bytes[2]];
    assert bytes == bytes[..3] + bytes[3..];
  }

  /** A leading full group decodes to its three bytes, in front of whatever the rest decodes to. */
  lemma LeadingGroupRoundTrip(bytes: seq<uint8>)
    requires |bytes| > 3 && Decode(Encode(bytes[3..])) == Some(bytes[3..])
    ensures Decode(Encode(bytes)) == Some(bytes)
  {
    var s, head, tail := Encode(bytes), [bytes[0], bytes[1], bytes[2]], bytes[3..];
    LeadingGroupSplit(bytes);
    Quantum3RoundTrip(bytes[0], bytes[1], bytes[2]);
    assert DecodeFullQuantum(s[..4]) == Some(head);
    assert Decode(s[4..]) == Some(tail);
    assert Decode(s) == Some(head + tail);
    ThreeThenRest(bytes);
  }

  /** Decoding the encoding of any byte sequence gives the sequence back. */
  lemma {:induction false} DecodeEncode(bytes: seq<uint8>)
    ensures Decode(Encode(bytes)) == Some(bytes)
    decreases |bytes|
  {
    if |bytes| == 0 {
    } else if |bytes| <= 2 {
      ShortRoundTrip(bytes);
    } else if |bytes| == 3 {
      LastGroupOf3RoundTrip(bytes);
    } else {
      DecodeEncode(bytes[3..]);
      LeadingGroupRoundTrip(bytes);
    }
  }

  /** Three bytes packed from four sextets split back into the same four sextets. */
  lemma RegroupSextets(x0: int, x1: int, x2: int, x3: int)
    requires IsSextet(x0) && IsSextet(x1) && IsSextet(x2) && IsSextet(x3)
    ensures var a, b, c := x0 * 4 + x1 / 16, x1 % 16 * 16 + x2 / 4, x2 % 4 * 64 + x3;
      && 0 <= a < 256 && 0 <= b < 256 && 0 <= c < 256
      && a / 4 == x0 && a % 4 * 16 + b / 16 == x1 && b % 16 * 4 + c / 64 == x2 && c % 64 == x3
  {
    Pack4(x0, x1 / 16);
    Pack16(x1 % 16, x2 / 4);
    Pack64(x2 % 4, x3);
    assert x1 / 16 * 16 + x1 % 16 == x1;
    assert x2 / 4 * 4 + x2 % 4 == x2;
  }

  /** One position of a group: the sextet the regrouped bytes give is re-encoded as the character it came from. */
  lemma SextetAt(c: char, x: int, y: int)
    requires DecodeSextet(c) == Some(x) && y == x
    ensures IsSextet(y) && EncodeSextet(y) == c
  {
    SextetCanonical(c);
  }

  /** Three bytes decoded from four sextets re-encode to the same four characters. */
  lemma FullQuantumCanonical(q: string)
    requires |q| == 4 && DecodeFullQuantum(q).Some?
    ensures var b := DecodeFullQuantum(q).value; EncodeQuantum3(b[0], b[1], b[2]) == q
  {
    var x0, x1, x2, x3 := DecodeSextet(q[0]).value, DecodeSextet(q[1]).value, DecodeSextet(q[2]).value, DecodeSextet(q[3]).value;
    RegroupSextets(x0, x1, x2, x3);
    var b := DecodeFullQuantum(q).value;
    assert b == [x0 * 4 + x1 / 16, x1 % 16 * 16 + x2 / 4, x2 % 4 * 64 + x3];
    SextetAt(q[0], x0, b[0] / 4);
    SextetAt(q[1], x1, b[0] % 4 * 16 + b[1] / 16);
    SextetAt(q[2], x2, b[1] % 16 * 4 + b[2] / 64);
    SextetAt(q[3], x3, b[2] % 64);
    assert q == [q[0], q[1], q[2], q[3]];
  }

  lemma FinalQuantumCanonical(q: string)
    requires |q| == 4 && DecodeFinalQuantum(q).Some?
    ensures Encode(DecodeFinalQuantum(q).value) == q
  {
    var b := DecodeFinalQuantum(q).value;
    if q[2] == '=' && q[3] == '=' {
      var x0, x1 := DecodeSextet(q[0]).value, DecodeSextet(q[1]).value;
      SextetCanonical(q[0]);
      SextetCanonical(q[1]);
      Pack4(x0, x1 / 16);
      assert b[0] / 4 == x0;
      assert b[0] % 4 * 16 == x1;
      assert Encode(b) == EncodeQuantum1(b[0]);
    } else if q[3] == '=' {
      var x0, x1, x2 := DecodeSextet(q[0]).value, DecodeSextet(q[1]).value, DecodeSextet(q[2]).value;
      SextetCanonical(q[0]);
      SextetCanonical(q[1]);
      SextetCanonical(q[2]);
      Pack4(x0, x1 / 16);
      Pack16(x1 % 16, x2 / 4);
      assert b[0] / 4 == x0;
      assert b[0] % 4 * 16 + b[1] / 16 == x1;
      assert b[1] % 16 * 4 == x2;
      assert Encode(b) == EncodeQuantum2(b[0], b[1]);
    } else {
      FullQuantumCanonical(q);
      assert Encode(b) == EncodeQuantum3(b[0], b[1], b[2]) + Encode(b[3..]);
    }
  }

  /** The decoder accepts only canonical text: whatever it decodes re-encodes to the same text. */
  lemma {:induction false} EncodeDecode(s: string)
    requires Decode(s).Some?
    ensures Encode(Decode(s).value) == s
    decreases |s|
  {
    if |s| == 0 {
    } else if |s| == 4 {
      FinalQuantumCanonical(s);
    } else {
      var head := DecodeFullQuantum(s[..4]).value;
      var tail := Decode(s[4..]).value;
      EncodeDecode(s[4..]);
      FullQuantumCanonical(s[..4]);
      var b := head + tail;
      assert |tail| > 0 by {
        assert |Encode(tail)| == |s| - 4 > 0;
      }
      assert b[3..] == tail;
      assert Encode(b) == EncodeQuantum3(b[0], b[1], b[2]) + Encode(tail);
      assert s == s[..4] + s[4..];
    }
  }

  /** Distinct byte sequences have distinct encodings. */
  lemma EncodeInjective(a: seq<uint8>, b: seq<uint8>)
    requires Encode(a) == Encode(b)
    ensures a == b
  {
    DecodeEncode(a);
    DecodeEncode(b);
  }
}
