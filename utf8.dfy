/**
 * UTF-8 as RFC 3629 defines it: the encoding `normalize_env` applies to
 * every text key and value. The decoder exists to show that the encoding
 * loses nothing: it undoes the encoder, so two texts never share an encoding.
 */
module Utf8 {
  import opened Wrappers
  import opened Files

  /** The one to four bytes that encode one Unicode scalar value (section 3 of RFC 3629). */
  function EncodeScalar(c: char): (r: Bytes)
    ensures 1 <= |r| <= 4
  {
    var n: int := c as int;
    if n < 0x80 then [n]
    else if n < 0x800 then [0xC0 + n / 64, 0x80 + n % 64]
    else if n < 0x10000 then [0xE0 + n / 4096, 0x80 + (n / 64) % 64, 0x80 + n % 64]
    else [0xF0 + n / 262144, 0x80 + (n / 4096) % 64, 0x80 + (n / 64) % 64, 0x80 + n % 64]
  }

  /** `text.encode('utf-8', 'strict')`. */
  function Encode(s: string): (r: Bytes)
    ensures |s| <= |r| <= 4 * |s|
  {
    if s == [] then [] else EncodeScalar(s[0]) + Encode(s[1..])
  }

  /** How many bytes the sequence that starts with `lead` occupies. */
  function SequenceLength(lead: Byte): (k: nat)
    ensures 1 <= k <= 4
  {
    if lead < 0x80 then 1 else if lead < 0xE0 then 2 else if lead < 0xF0 then 3 else 4
  }

  /** The six bits a continuation byte carries. */
  function Payload(b: Byte): int { b as int - 0x80 }

  /** The scalar value a complete sequence stands for, if it is one. */
  function DecodeScalar(b: Bytes): Option<char>
    requires 1 <= |b| <= 4
  {
    var n: int :=
      if |b| == 1 then b[0] as int
      else if |b| == 2 then (b[0] as int - 0xC0) * 64 + Payload(b[1])
      else if |b| == 3 then (b[0] as int - 0xE0) * 4096 + Payload(b[1]) * 64 + Payload(b[2])
      else (b[0] as int - 0xF0) * 262144 + Payload(b[1]) * 4096 + Payload(b[2]) * 64 + Payload(b[3]);
    if 0 <= n < 0xD800 || 0xE000 <= n < 0x11_0000 then Some(n as char) else None
  }

  function Decode(b: Bytes): Option<string>
    decreases |b|
  {
    if b == [] then Some("")
    else
      var k := SequenceLength(b[0]);
      if |b| < k then None
      else match (DecodeScalar(b[..k]), Decode(b[k..]))
        case (Some(c), Some(rest)) => Some([c] + rest)
        case _ => None
  }

  lemma DecodeEncodeScalar(c: char)
    ensures SequenceLength(EncodeScalar(c)[0]) == |EncodeScalar(c)|
    ensures DecodeScalar(EncodeScalar(c)) == Some(c)
  {
    var n := c as int;
    assert n == 64 * (n / 64) + n % 64;
    assert n / 64 == 64 * (n / 4096) + (n / 64) % 64;
    assert n / 4096 == 64 * (n / 262144) + (n / 4096) % 64;
  }

  /** Decoding undoes encoding. */
  lemma {:induction false} DecodeEncode(s: string)
    ensures Decode(Encode(s)) == Some(s)
  {
    if s != [] {
      var head, tail := EncodeScalar(s[0]), Encode(s[1..]);
      var b := head + tail;
      DecodeEncodeScalar(s[0]);
      assert b[0] == head[0];
      assert b[..|head|] == head;
      assert b[|head|..] == tail;
      DecodeEncode(s[1..]);
      assert [s[0]] + s[1..] == s;
    }
  }

  /** Two different texts never have the same UTF-8 encoding. */
  lemma EncodeInjective(s: string, t: string)
    requires Encode(s) == Encode(t)
    ensures s == t
  {
    DecodeEncode(s);
    DecodeEncode(t);
  }
}
