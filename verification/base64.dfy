/** The base64 encoding of RFC 4648, section 4: the standard alphabet
    `A-Z a-z 0-9 + /` with `=` padding. Decoding is strict in the way the
    Rust `base64` crate's STANDARD engine is: the length must be a multiple
    of four, padding is required and only allowed in the last quantum, and
    the unused low bits of the last symbol must be zero. As a consequence
    every byte string has exactly one encoding that decodes. */
module Base64 {
  import opened Bytes

  /** The padding character `=`. */
  const Pad: Byte := 61

  /** A six-bit value, the payload of one base64 symbol. */
  type Sextet = v: int | 0 <= v < 64

  /** The alphabet symbol for a sextet (Table 1 of RFC 4648). */
  function Symbol(v: Sextet): (c: Byte)
    ensures c < 0x80 && c != Pad
  {
    if v < 26 then 65 + v        // 'A'..'Z'
    else if v < 52 then 71 + v   // 'a'..'z'
    else if v < 62 then v - 4    // '0'..'9'
    else if v == 62 then 43      // '+'
    else 47                      // '/'
  }

  /** The sextet a symbol stands for, or None for a byte outside the alphabet. */
  function Value(c: Byte): (r: Option<Sextet>)
    ensures r.Some? ==> Symbol(r.value) == c
    ensures r.Some? <==> (65 <= c <= 90 || 97 <= c <= 122 || 48 <= c <= 57 || c == 43 || c == 47)
  {
    if 65 <= c <= 90 then Some(c - 65)
    else if 97 <= c <= 122 then Some(c - 71)
    else if 48 <= c <= 57 then Some(c + 4)
    else if c == 43 then Some(62)
    else if c == 47 then Some(63)
    else None
  }

  lemma ValueOfSymbol(v: Sextet)
    ensures Value(Symbol(v)) == Some(v)
  {
  }

  /** A byte that can occur in an encoding: an alphabet symbol or the pad. */
  predicate IsBase64Char(c: Byte)
  {
    Value(c).Some? || c == Pad
  }

  /** The four symbols for three whole input bytes. */
  function EncodeQuantum(b0: Byte, b1: Byte, b2: Byte): seq<Byte>
  {
    [Symbol(b0 / 4), Symbol(b0 % 4 * 16 + b1 / 16), Symbol(b1 % 16 * 4 + b2 / 64), Symbol(b2 % 64)]
  }

  /** Encodes `b`, three bytes at a time; a final group of one or two bytes is
      padded with `==` or `=`. The length law gives 32 -> 44 and 64 -> 88. */
  function Encode(b: seq<Byte>): (r: seq<Byte>)
    ensures |r| == 4 * ((|b| + 2) / 3)
    decreases |b|
  {
    if |b| == 0 then []
    else if |b| == 1 then [Symbol(b[0] / 4), Symbol(b[0] % 4 * 16), Pad, Pad]
    else if |b| == 2 then [Symbol(b[0] / 4), Symbol(b[0] % 4 * 16 + b[1] / 16), Symbol(b[1] % 16 * 4), Pad]
    else EncodeQuantum(b[0], b[1], b[2]) + Encode(b[3..])
  }

  /** Every byte of an encoding is an alphabet symbol or the pad, so an
      encoding is ASCII text. */
  lemma {:induction false} EncodeAlphabet(b: seq<Byte>)
    ensures forall i :: 0 <= i < |Encode(b)| ==> IsBase64Char(Encode(b)[i]) && Encode(b)[i] < 0x80
    decreases |b|
  {
    if |b| >= 3 {
      EncodeAlphabet(b[3..]);
      var q, t := EncodeQuantum(b[0], b[1], b[2]), Encode(b[3..]);
      assert Encode(b) == q + t;
      forall i | 0 <= i < |q + t| ensures IsBase64Char((q + t)[i]) && (q + t)[i] < 0x80 {
        if i >= 4 { assert (q + t)[i] == t[i - 4]; }
      }
    }
  }

  /** Decodes one quantum of four symbols; `last` says whether padding may
      appear in it. Non-zero bits left over by a padded quantum are refused. */
  function DecodeQuantum(q: seq<Byte>, last: bool): Option<seq<Byte>>
    requires |q| == 4
  {
    if Value(q[0]).None? || Value(q[1]).None? then None
    else
      var v0, v1 := Value(q[0]).value, Value(q[1]).value;
      if last && q[2] == Pad && q[3] == Pad then
        if v1 % 16 == 0 then Some([v0 * 4 + v1 / 16]) else None
      else if Value(q[2]).None? then None
      else
        var v2 := Value(q[2]).value;
        if last && q[3] == Pad then
          if v2 % 4 == 0 then Some([v0 * 4 + v1 / 16, v1 % 16 * 16 + v2 / 4]) else None
        else if Value(q[3]).None? then None
        else Some([v0 * 4 + v1 / 16, v1 % 16 * 16 + v2 / 4, v2 % 4 * 64 + Value(q[3]).value])
  }

  /** Decodes `s`, or None when `s` is not the canonical encoding of anything. */
  function Decode(s: seq<Byte>): (r: Option<seq<Byte>>)
    ensures |s| % 4 != 0 ==> r.None?
    ensures s == [] ==> r == Some([])
    decreases |s|
  {
    if |s| % 4 != 0 then None
    else if |s| == 0 then Some([])
    else
      match DecodeQuantum(s[..4], |s| == 4)
      case None => None
      case Some(g) =>
        if |s| == 4 then Some(g)
        else
          match Decode(s[4..])
          case None => None
          case Some(rest) => Some(g + rest)
  }

  /** Splitting three bytes into four sextets and joining them again is the
      identity. */
  lemma BytesToSextets(b0: Byte, b1: Byte, b2: Byte)
    ensures var v1, v2 := b0 % 4 * 16 + b1 / 16, b1 % 16 * 4 + b2 / 64;
      && b0 / 4 * 4 + v1 / 16 == b0
      && v1 % 16 * 16 + v2 / 4 == b1
      && v2 % 4 * 64 + b2 % 64 == b2
  {
  }

  /** Joining four sextets into three bytes and splitting them again is the
      identity. */
  lemma SextetsToBytes(v0: Sextet, v1: Sextet, v2: Sextet, v3: Sextet)
    ensures var b0, b1, b2 := v0 * 4 + v1 / 16, v1 % 16 * 16 + v2 / 4, v2 % 4 * 64 + v3;
      && b0 / 4 == v0
      && b0 % 4 * 16 + b1 / 16 == v1
      && b1 % 16 * 4 + b2 / 64 == v2
      && b2 % 64 == v3
  {
  }

  lemma QuantumRoundTrip(b0: Byte, b1: Byte, b2: Byte, last: bool)
    ensures DecodeQuantum(EncodeQuantum(b0, b1, b2), last) == Some([b0, b1, b2])
  {
    var v0: Sextet, v1: Sextet := b0 / 4, b0 % 4 * 16 + b1 / 16;
    var v2: Sextet, v3: Sextet := b1 % 16 * 4 + b2 / 64, b2 % 64;
    var q := EncodeQuantum(b0, b1, b2);
    assert q == [Symbol(v0), Symbol(v1), Symbol(v2), Symbol(v3)];
    ValueOfSymbol(v0);
    ValueOfSymbol(v1);
    ValueOfSymbol(v2);
    ValueOfSymbol(v3);
    BytesToSextets(b0, b1, b2);
    assert DecodeQuantum(q, last) == Some([v0 * 4 + v1 / 16, v1 % 16 * 16 + v2 / 4, v2 % 4 * 64 + v3]);
  }

  /** A final single byte comes back from its `==`-padded quantum. */
  lemma OneByteRoundTrip(b0: Byte)
    ensures Decode(Encode([b0])) == Some([b0])
  {
  }

  /** A final pair of bytes comes back from its `=`-padded quantum. */
  lemma TwoBytesRoundTrip(b0: Byte, b1: Byte)
    ensures Decode(Encode([b0, b1])) == Some([b0, b1])
  {
    var v0, v1, v2 := b0 / 4, b0 % 4 * 16 + b1 / 16, b1 % 16 * 4;
    var s := [Symbol(v0), Symbol(v1), Symbol(v2), Pad];
    assert Encode([b0, b1]) == s;
    BytesToSextets(b0, b1, 0);
    ValueOfSymbol(v0);
    ValueOfSymbol(v1);
    ValueOfSymbol(v2);
    assert DecodeQuantum(s, true) == Some([b0, b1]);
    assert s[..4] == s;
  }

  /** A string that starts with a quantum decodes quantum by quantum. */
  lemma DecodeCons(q: seq<Byte>, t: seq<Byte>, g: seq<Byte>, rest: seq<Byte>)
    requires |q| == 4 && DecodeQuantum(q, t == []) == Some(g) && Decode(t) == Some(rest)
    ensures Decode(q + t) == Some(g + rest)
  {
    var s := q + t;
    assert s[..4] == q;
    if t == [] {
      assert s == q;
      assert g + rest == g;
    } else {
      assert s[4..] == t;
    }
  }

  /** One inductive step of the round trip: a whole leading group of three
      bytes comes back in front of the rest. */
  lemma DecodeEncodeStep(b: seq<Byte>)
    requires |b| >= 3 && Decode(Encode(b[3..])) == Some(b[3..])
    ensures Decode(Encode(b)) == Some(b)
  {
    var q, t := EncodeQuantum(b[0], b[1], b[2]), Encode(b[3..]);
    assert Encode(b) == q + t;
    QuantumRoundTrip(b[0], b[1], b[2], t == []);
    DecodeCons(q, t, [b[0], b[1], b[2]], b[3..]);
    SplitGroup(b);
  }

  lemma SplitGroup(b: seq<Byte>)
    requires |b| >= 3
    ensures b == [b[0], b[1], b[2]] + b[3..]
  {
  }

  /** Decoding what was encoded gives the bytes back. */
  lemma {:induction false} DecodeEncode(b: seq<Byte>)
    ensures Decode(Encode(b)) == Some(b)
    decreases |b|
  {
    if |b| == 1 {
      OneByteRoundTrip(b[0]);
      assert [b[0]] == b;
    } else if |b| == 2 {
      TwoBytesRoundTrip(b[0], b[1]);
      assert [b[0], b[1]] == b;
    } else if |b| >= 3 {
      DecodeEncode(b[3..]);
      DecodeEncodeStep(b);
    }
  }

  /** A last quantum with `==` decodes to one byte and is that byte's encoding. */
  lemma TwoPadsCanonical(q: seq<Byte>)
    requires |q| == 4 && DecodeQuantum(q, true).Some? && q[2] == Pad && q[3] == Pad
    ensures Encode(DecodeQuantum(q, true).value) == q
  {
    var v0: Sextet, v1: Sextet := Value(q[0]).value, Value(q[1]).value;
    var b0 := v0 * 4 + v1 / 16;
    assert DecodeQuantum(q, true).value == [b0];
    SextetsToBytes(v0, v1, 0, 0);
    assert v1 % 16 == 0;
    assert Encode([b0]) == [Symbol(v0), Symbol(v1), Pad, Pad];
    assert q == [q[0], q[1], q[2], q[3]];
  }

  /** A last quantum with `=` decodes to two bytes and is their encoding. */
  lemma OnePadCanonical(q: seq<Byte>)
    requires |q| == 4 && DecodeQuantum(q, true).Some? && q[2] != Pad && q[3] == Pad
    ensures Encode(DecodeQuantum(q, true).value) == q
  {
    var v0: Sextet, v1: Sextet, v2: Sextet := Value(q[0]).value, Value(q[1]).value, Value(q[2]).value;
    var b0, b1 := v0 * 4 + v1 / 16, v1 % 16 * 16 + v2 / 4;
    assert DecodeQuantum(q, true).value == [b0, b1];
    SextetsToBytes(v0, v1, v2, 0);
    assert v2 % 4 == 0;
    assert Encode([b0, b1]) == [Symbol(v0), Symbol(v1), Symbol(v2), Pad];
    assert q == [q[0], q[1], q[2], q[3]];
  }

  /** A quantum without padding decodes to three bytes and is their encoding. */
  lemma NoPadCanonical(q: seq<Byte>, last: bool)
    requires |q| == 4 && DecodeQuantum(q, last).Some? && q[3] != Pad
    ensures var g := DecodeQuantum(q, last).value;
      |g| == 3 && EncodeQuantum(g[0], g[1], g[2]) == q
  {
    var v0: Sextet, v1: Sextet := Value(q[0]).value, Value(q[1]).value;
    var v2: Sextet, v3: Sextet := Value(q[2]).value, Value(q[3]).value;
    var b0, b1, b2 := v0 * 4 + v1 / 16, v1 % 16 * 16 + v2 / 4, v2 % 4 * 64 + v3;
    assert DecodeQuantum(q, last).value == [b0, b1, b2];
    SextetsToBytes(v0, v1, v2, v3);
    assert EncodeQuantum(b0, b1, b2) == [Symbol(v0), Symbol(v1), Symbol(v2), Symbol(v3)];
    assert q == [q[0], q[1], q[2], q[3]];
  }

  /** The last quantum of a decodable string is the encoding of what it
      decodes to. */
  lemma LastQuantumCanonical(q: seq<Byte>, g: seq<Byte>)
    requires |q| == 4 && DecodeQuantum(q, true) == Some(g)
    ensures Encode(g) == q
  {
    if q[3] != Pad {
      NoPadCanonical(q, true);
      assert Encode(g) == EncodeQuantum(g[0], g[1], g[2]) + Encode(g[3..]);
      assert g[3..] == [];
    } else if q[2] == Pad {
      TwoPadsCanonical(q);
    } else {
      OnePadCanonical(q);
    }
  }

  /** An inner quantum that decodes is the encoding of its three bytes. */
  lemma InnerQuantumCanonical(q: seq<Byte>, g: seq<Byte>)
    requires |q| == 4 && DecodeQuantum(q, false) == Some(g)
    ensures |g| == 3 && EncodeQuantum(g[0], g[1], g[2]) == q
  {
    NoPadCanonical(q, false);
  }

  /** Decoding is canonical: a string that decodes is the encoding of what it
      decodes to. */
  lemma {:induction false} EncodeDecode(s: seq<Byte>, b: seq<Byte>)
    requires Decode(s) == Some(b)
    ensures Encode(b) == s
    decreases |s|
  {
    if |s| == 0 {
    } else if |s| == 4 {
      LastQuantumCanonical(s[..4], b);
      assert s[..4] == s;
    } else {
      var q := s[..4];
      var g := DecodeQuantum(q, false).value;
      var rest := Decode(s[4..]).value;
      InnerQuantumCanonical(q, g);
      EncodeDecode(s[4..], rest);
      assert b == g + rest;
      assert b[..3] == g && b[3..] == rest;
      assert s == q + s[4..];
    }
  }

  /** An encoding is ASCII text and decodes back. */
  lemma EncodeFacts(b: seq<Byte>)
    ensures IsAscii(Encode(b)) && Decode(Encode(b)) == Some(b)
  {
    EncodeAlphabet(b);
    DecodeEncode(b);
  }

  /** The length of a decodable string is fixed by the length of its result. */
  lemma DecodedLength(s: seq<Byte>, b: seq<Byte>)
    requires Decode(s) == Some(b)
    ensures |s| == 4 * ((|b| + 2) / 3)
    ensures forall i :: 0 <= i < |s| ==> IsBase64Char(s[i]) && s[i] < 0x80
  {
    EncodeDecode(s, b);
    EncodeAlphabet(b);
  }
}
