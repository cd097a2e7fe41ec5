/** UTF-8 well-formedness, as Rust's `String::from_utf8` checks it: the
    well-formed byte sequences of Table 3-7 of the Unicode Standard (no
    overlong forms, no surrogates, nothing above U+10FFFF). Also the
    char-boundary test that `&str` slicing performs. */
module Utf8 {
  import opened Bytes

  /** A continuation byte `10xxxxxx`. */
  predicate IsContinuation(b: Byte)
  {
    0x80 <= b <= 0xBF
  }

  /** The byte length of the encoded scalar value that `lead` starts. */
  function SequenceLength(lead: Byte): (n: nat)
    ensures 1 <= n <= 4
  {
    if lead < 0x80 then 1 else if lead < 0xE0 then 2 else if lead < 0xF0 then 3 else 4
  }

  /** `c` is one well-formed encoded scalar value: a row of Table 3-7. */
  predicate WellFormedScalar(c: seq<Byte>)
  {
    if |c| == 1 then c[0] < 0x80
    else if |c| == 2 then 0xC2 <= c[0] <= 0xDF && IsContinuation(c[1])
    else if |c| == 3 then
      && 0xE0 <= c[0] <= 0xEF
      && (if c[0] == 0xE0 then 0xA0 <= c[1] <= 0xBF
          else if c[0] == 0xED then 0x80 <= c[1] <= 0x9F
          else IsContinuation(c[1]))
      && IsContinuation(c[2])
    else if |c| == 4 then
      && 0xF0 <= c[0] <= 0xF4
      && (if c[0] == 0xF0 then 0x90 <= c[1] <= 0xBF
          else if c[0] == 0xF4 then 0x80 <= c[1] <= 0x8F
          else IsContinuation(c[1]))
      && IsContinuation(c[2]) && IsContinuation(c[3])
    else false
  }

  /** `s` is a concatenation of well-formed encoded scalar values. */
  predicate ValidUtf8(s: seq<Byte>): (r: bool)
    ensures r && s != [] ==> s[0] < 0x80 || 0xC2 <= s[0] <= 0xF4
    decreases |s|
  {
    s == [] ||
      var n := SequenceLength(s[0]);
      n <= |s| && WellFormedScalar(s[..n]) && ValidUtf8(s[n..])
  }

  /** Rust's `str::is_char_boundary`: slicing at `i` does not cut an encoded
      scalar value, i.e. `i` is an end of `s` or `s[i]` is not a continuation byte. */
  predicate IsCharBoundary(s: seq<Byte>, i: nat)
    requires i <= |s|
  {
    i == 0 || i == |s| || !IsContinuation(s[i])
  }

  /** Every ASCII string is valid UTF-8. */
  lemma {:induction false} AsciiIsUtf8(s: seq<Byte>)
    requires IsAscii(s)
    ensures ValidUtf8(s)
    decreases |s|
  {
    if s != [] {
      assert IsAscii(s[1..]) by {
        forall i | 0 <= i < |s[1..]| ensures s[1..][i] < 0x80 {
          assert s[1..][i] == s[i + 1];
        }
      }
      AsciiIsUtf8(s[1..]);
      assert s[..1] == [s[0]];
    }
  }

  /** The concatenation of two valid strings is valid. */
  lemma {:induction false} ConcatUtf8(a: seq<Byte>, b: seq<Byte>)
    requires ValidUtf8(a) && ValidUtf8(b)
    ensures ValidUtf8(a + b)
    decreases |a|
  {
    if a == [] {
      assert a + b == b;
    } else {
      var n := SequenceLength(a[0]);
      ConcatUtf8(a[n..], b);
      var s := a + b;
      assert s[0] == a[0];
      assert s[..n] == a[..n];
      assert s[n..] == a[n..] + b;
      assert ValidUtf8(s[n..]);
    }
  }
}
