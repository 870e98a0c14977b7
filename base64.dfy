/**
 * `base64.StdEncoding` of Go: the standard alphabet with `=` padding of
 * RFC 4648, section 4. Decoding is Go's default (non-strict) mode: unused
 * low bits of the last character before the padding are ignored.
 */
module Base64 {
  import opened Wrappers

  /** The character of the standard alphabet for a six-bit value. */
  function Digit(v: int): char
    requires 0 <= v < 64
  {
    if v < 26 then ('A' as int + v) as char
    else if v < 52 then ('a' as int + (v - 26)) as char
    else if v < 62 then ('0' as int + (v - 52)) as char
    else if v == 62 then '+'
    else '/'
  }

  /** The six-bit value of an alphabet character; None for anything else, `=` included. */
  function Value(c: char): (r: Option<int>)
    ensures r.Some? ==> 0 <= r.value < 64 && Digit(r.value) == c
    ensures r.None? <==> !(('A' <= c <= 'Z') || ('a' <= c <= 'z') || ('0' <= c <= '9') || c == '+' || c == '/')
  {
    if 'A' <= c <= 'Z' then Some(c as int - 'A' as int)
    else if 'a' <= c <= 'z' then Some(c as int - 'a' as int + 26)
    else if '0' <= c <= '9' then Some(c as int - '0' as int + 52)
    else if c == '+' then Some(62)
    else if c == '/' then Some(63)
    else None
  }

  lemma ValueOfDigit(v: int)
    requires 0 <= v < 64
    ensures Value(Digit(v)) == Some(v)
  {
  }

  /** A character `EncodeToString` may produce: an alphabet character or the pad `=`. */
  predicate IsEncodingChar(c: char) {
    Value(c).Some? || c == '='
  }

  /** The four six-bit values that carry the bytes `b0 b1 b2` (missing bytes are 0). */
  function Sextet0(b0: int): (v: int)
    requires 0 <= b0 < 256
    ensures 0 <= v < 64
  {
    b0 / 4
  }

  function Sextet1(b0: int, b1: int): (v: int)
    requires 0 <= b0 < 256 && 0 <= b1 < 256
    ensures 0 <= v < 64
  {
    (b0 % 4) * 16 + b1 / 16
  }

  function Sextet2(b1: int, b2: int): (v: int)
    requires 0 <= b1 < 256 && 0 <= b2 < 256
    ensures 0 <= v < 64
  {
    (b1 % 16) * 4 + b2 / 64
  }

  function Sextet3(b2: int): (v: int)
    requires 0 <= b2 < 256
    ensures 0 <= v < 64
  {
    b2 % 64
  }

  /** The bytes the decoder rebuilds from consecutive six-bit values. */
  function Octet0(v0: int, v1: int): (b: int)
    requires 0 <= v0 < 64 && 0 <= v1 < 64
    ensures 0 <= b < 256
  {
    v0 * 4 + v1 / 16
  }

  function Octet1(v1: int, v2: int): (b: int)
    requires 0 <= v1 < 64 && 0 <= v2 < 64
    ensures 0 <= b < 256
  {
    (v1 % 16) * 16 + v2 / 4
  }

  function Octet2(v2: int, v3: int): (b: int)
    requires 0 <= v2 < 64 && 0 <= v3 < 64
    ensures 0 <= b < 256
  {
    (v2 % 4) * 64 + v3
  }

  /** Regrouping the six-bit values gives the three bytes back. */
  lemma Regroup(b0: int, b1: int, b2: int)
    requires 0 <= b0 < 256 && 0 <= b1 < 256 && 0 <= b2 < 256
    ensures Octet0(Sextet0(b0), Sextet1(b0, b1)) == b0
    ensures Octet1(Sextet1(b0, b1), Sextet2(b1, b2)) == b1
    ensures Octet2(Sextet2(b1, b2), Sextet3(b2)) == b2
  {
  }

  /** One group of one to three bytes as four characters, `=`-padded. */
  function EncodeGroup(g: seq<byte>): (q: string)
    requires 1 <= |g| <= 3
    ensures |q| == 4
    ensures forall i :: 0 <= i < 4 ==> IsEncodingChar(q[i])
  {
    var b0 := g[0] as int;
    var b1 := if |g| > 1 then g[1] as int else 0;
    var b2 := if |g| > 2 then g[2] as int else 0;
    [Digit(Sextet0(b0)), Digit(Sextet1(b0, b1)),
     if |g| > 1 then Digit(Sextet2(b1, b2)) else '=',
     if |g| > 2 then Digit(Sextet3(b2)) else '=']
  }

  /** `EncodeToString`: three bytes at a time, the last group padded. */
  function Encode(b: seq<byte>): (r: string)
    ensures |r| == 4 * ((|b| + 2) / 3)
    ensures forall i :: 0 <= i < |r| ==> IsEncodingChar(r[i])
    decreases |b|
  {
    if b == [] then []
    else
      var n := if |b| < 3 then |b| else 3;
      var head, tail := EncodeGroup(b[..n]), Encode(b[n..]);
      assert |tail| == 4 * ((|b| - n + 2) / 3);
      assert 4 + |tail| == 4 * ((|b| + 2) / 3);
      assert forall i :: 0 <= i < 4 ==> (head + tail)[i] == head[i];
      assert forall i :: 4 <= i < 4 + |tail| ==> (head + tail)[i] == tail[i - 4];
      head + tail
  }

  /** One four-character group; `last` tells whether padding is allowed here. */
  function DecodeGroup(q: string, last: bool): Option<seq<byte>>
    requires |q| == 4
  {
    var v0, v1 := Value(q[0]), Value(q[1]);
    if v0.None? || v1.None? then None
    else
      var b0 := Octet0(v0.value, v1.value) as byte;
      if q[2] == '=' then
        if last && q[3] == '=' then Some([b0]) else None
      else
        var v2 := Value(q[2]);
        if v2.None? then None
        else
          var b1 := Octet1(v1.value, v2.value) as byte;
          if q[3] == '=' then
            if last then Some([b0, b1]) else None
          else
            var v3 := Value(q[3]);
            if v3.None? then None
            else Some([b0, b1, Octet2(v2.value, v3.value) as byte])
  }

  /** `DecodeString`: None is the `CorruptInputError` Go reports. */
  function Decode(s: string): Option<seq<byte>>
    decreases |s|
  {
    if s == [] then Some([])
    else if |s| < 4 then None
    else
      match DecodeGroup(s[..4], |s| == 4)
      case None => None
      case Some(head) =>
        if |s| == 4 then Some(head)
        else
          match Decode(s[4..])
          case None => None
          case Some(tail) => Some(head + tail)
  }

  lemma GroupRoundTrip1(g: seq<byte>)
    requires |g| == 1
    ensures DecodeGroup(EncodeGroup(g), true) == Some(g)
  {
    var b0 := g[0] as int;
    var v0, v1 := Sextet0(b0), Sextet1(b0, 0);
    var q := EncodeGroup(g);
    assert q == [Digit(v0), Digit(v1), '=', '='];
    ValueOfDigit(v0);
    ValueOfDigit(v1);
    assert Octet0(v0, v1) == b0 by { Regroup(b0, 0, 0); }
    assert DecodeGroup(q, true) == Some([Octet0(v0, v1) as byte]);
    assert g == [g[0]];
  }

  lemma GroupRoundTrip2(g: seq<byte>)
    requires |g| == 2
    ensures DecodeGroup(EncodeGroup(g), true) == Some(g)
  {
    var b0, b1 := g[0] as int, g[1] as int;
    var v0, v1, v2 := Sextet0(b0), Sextet1(b0, b1), Sextet2(b1, 0);
    var q := EncodeGroup(g);
    assert q == [Digit(v0), Digit(v1), Digit(v2), '='];
    ValueOfDigit(v0);
    ValueOfDigit(v1);
    ValueOfDigit(v2);
    assert Octet0(v0, v1) == b0 && Octet1(v1, v2) == b1 by { Regroup(b0, b1, 0); }
    assert DecodeGroup(q, true) == Some([Octet0(v0, v1) as byte, Octet1(v1, v2) as byte]);
    assert g == [g[0], g[1]];
  }

  lemma GroupRoundTrip3(g: seq<byte>, last: bool)
    requires |g| == 3
    ensures DecodeGroup(EncodeGroup(g), last) == Some(g)
  {
    var b0, b1, b2 := g[0] as int, g[1] as int, g[2] as int;
    var v0, v1, v2, v3 := Sextet0(b0), Sextet1(b0, b1), Sextet2(b1, b2), Sextet3(b2);
    var q := EncodeGroup(g);
    assert q == [Digit(v0), Digit(v1), Digit(v2), Digit(v3)];
    ValueOfDigit(v0);
    ValueOfDigit(v1);
    ValueOfDigit(v2);
    ValueOfDigit(v3);
    assert Octet0(v0, v1) == b0 && Octet1(v1, v2) == b1 && Octet2(v2, v3) == b2 by { Regroup(b0, b1, b2); }
    assert DecodeGroup(q, last) == Some([Octet0(v0, v1) as byte, Octet1(v1, v2) as byte, Octet2(v2, v3) as byte]);
    assert g == [g[0], g[1], g[2]];
  }

  /** A group decodes to the bytes it encodes; a short group only at the end. */
  lemma GroupRoundTrip(g: seq<byte>, last: bool)
    requires 1 <= |g| <= 3
    requires |g| < 3 ==> last
    ensures DecodeGroup(EncodeGroup(g), last) == Some(g)
  {
    if |g| == 1 { GroupRoundTrip1(g); }
    else if |g| == 2 { GroupRoundTrip2(g); }
    else { GroupRoundTrip3(g, last); }
  }

  lemma DecodeCons(q: string, rest: string, head: seq<byte>, tail: seq<byte>)
    requires |q| == 4 && rest != []
    requires DecodeGroup(q, false) == Some(head) && Decode(rest) == Some(tail)
    ensures Decode(q + rest) == Some(head + tail)
  {
    var s := q + rest;
    assert s[..4] == q && s[4..] == rest;
  }

  /** Decoding what was encoded gives the bytes back (RFC 4648, section 4 round trip). */
  lemma {:induction false} DecodeEncode(b: seq<byte>)
    ensures Decode(Encode(b)) == Some(b)
    decreases |b|
  {
    if b != [] {
      var n := if |b| < 3 then |b| else 3;
      var g, rest := b[..n], b[n..];
      var e := Encode(b);
      assert e == EncodeGroup(g) + Encode(rest);
      if |b| <= 3 {
        GroupRoundTrip(g, true);
        assert rest == [] && Encode(rest) == [];
        assert e[..4] == e;
        assert b == g;
      } else {
        GroupRoundTrip(g, false);
        DecodeEncode(rest);
        DecodeCons(EncodeGroup(g), Encode(rest), g, rest);
        assert b == g + rest;
      }
    }
  }

  /** The encoded length of a whole number of bytes, as `EncodedLen` gives it for standard padding. */
  lemma EncodedLength(b: seq<byte>, groups: nat)
    requires |b| + 2 >= 3 * groups && |b| + 2 < 3 * groups + 3
    ensures |Encode(b)| == 4 * groups
  {
    var e := Encode(b);
    assert (|b| + 2) / 3 == groups by { DivThree(|b| + 2, groups); }
    assert |e| == 4 * ((|b| + 2) / 3);
  }

  lemma DivThree(x: int, q: int)
    requires 3 * q <= x < 3 * q + 3
    ensures x / 3 == q
  {
  }

  /** No encoding contains `:`, the separator of the stored `hash:salt` envelope. */
  lemma EncodeHasNoColon(b: seq<byte>)
    ensures ':' !in Encode(b)
  {
  }
}
