/** `encodeURIComponent` and `decodeURIComponent` (sections 19.2.6.4 and
    19.2.6.2 of ECMA-262, which build on the percent-encoding of section 2.1
    of RFC 3986 and the UTF-8 form of RFC 3629). Strings are sequences of
    Unicode scalar values, so the lone surrogates for which
    `encodeURIComponent` throws cannot occur. */
module UriComponent {
  import opened Wrappers

  type Byte = b: int | 0 <= b < 256

  /** The characters `encodeURIComponent` leaves as they are. */
  predicate Unreserved(c: char)
  {
    || ('A' <= c <= 'Z') || ('a' <= c <= 'z') || ('0' <= c <= '9')
    || c == '-' || c == '_' || c == '.' || c == '!' || c == '~'
    || c == '*' || c == '\'' || c == '(' || c == ')'
  }

  predicate AllUnreserved(s: string)
  {
    forall i :: 0 <= i < |s| ==> Unreserved(s[i])
  }

  /** The characters `decodeURIComponent` accepts as hexadecimal digits. */
  predicate IsHexDigit(c: char)
  {
    ('0' <= c <= '9') || ('A' <= c <= 'F') || ('a' <= c <= 'f')
  }

  function HexValue(c: char): (n: nat)
    requires IsHexDigit(c)
    ensures n < 16
  {
    if '0' <= c <= '9' then c as int - '0' as int
    else if 'A' <= c <= 'F' then c as int - 'A' as int + 10
    else c as int - 'a' as int + 10
  }

  /** The upper-case digit `encodeURIComponent` writes for a value below 16. */
  function HexDigit(n: nat): (c: char)
    requires n < 16
    ensures Unreserved(c) && IsHexDigit(c) && HexValue(c) == n
    ensures '0' <= c <= '9' || 'A' <= c <= 'F'
  {
    if n < 10 then ('0' as int + n) as char else ('A' as int + n - 10) as char
  }

  /** Number of bytes announced by the first byte of a UTF-8 sequence; 0 for
      a byte that cannot start one (a continuation byte or 0xF8 and above). */
  function SequenceLength(lead: Byte): nat
  {
    if lead < 0x80 then 1
    else if lead < 0xC0 then 0
    else if lead < 0xE0 then 2
    else if lead < 0xF0 then 3
    else if lead < 0xF8 then 4
    else 0
  }

  predicate IsContinuation(b: Byte)
  {
    0x80 <= b < 0xC0
  }

  /** The scalar value that a lead byte and its continuation bytes encode, or
      None for an overlong form, a surrogate or a value past U+10FFFF. */
  function Utf8Scalar(bytes: seq<Byte>): (r: Option<char>)
    requires 2 <= |bytes| <= 4 && SequenceLength(bytes[0]) == |bytes|
    requires forall j :: 1 <= j < |bytes| ==> IsContinuation(bytes[j])
    ensures r.Some? ==> 0x80 <= r.value as int
    ensures r.Some? ==> (r.value as int < 0x800 <==> |bytes| == 2) && (r.value as int < 0x10000 <==> |bytes| <= 3)
  {
    var b0, b1 := bytes[0] as int, bytes[1] as int;
    assert IsContinuation(bytes[1]) && (|bytes| > 2 ==> IsContinuation(bytes[2])) && (|bytes| > 3 ==> IsContinuation(bytes[3]));
    var v :=
      if |bytes| == 2 then (b0 - 0xC0) * 64 + (b1 - 0x80)
      else if |bytes| == 3 then ((b0 - 0xE0) * 64 + (b1 - 0x80)) * 64 + (bytes[2] as int - 0x80)
      else (((b0 - 0xF0) * 64 + (b1 - 0x80)) * 64 + (bytes[2] as int - 0x80)) * 64 + (bytes[3] as int - 0x80);
    var least := if |bytes| == 2 then 0x80 else if |bytes| == 3 then 0x800 else 0x10000;
    if least <= v < 0xD800 || (0xE000 <= v < 0x110000 && least <= v) then Some(v as char) else None
  }

  /** The UTF-8 encoding of a scalar value; decoding it gives the value back. */
  function Utf8(c: char): (bytes: seq<Byte>)
    ensures 1 <= |bytes| <= 4
    ensures |bytes| == 1 <==> c as int < 0x80
    ensures |bytes| == 1 ==> bytes[0] == c as int
    ensures forall j :: 1 <= j < |bytes| ==> IsContinuation(bytes[j])
    ensures |bytes| > 1 ==> SequenceLength(bytes[0]) == |bytes| && Utf8Scalar(bytes) == Some(c)
  {
    var v := c as int;
    var q1 := v / 64;
    var q2 := q1 / 64;
    var q3 := q2 / 64;
    if v < 0x80 then [v]
    else if v < 0x800 then
      [0xC0 + q1, 0x80 + v % 64]
    else if v < 0x10000 then
      [0xE0 + q2, 0x80 + q1 % 64, 0x80 + v % 64]
    else
      [0xF0 + q3, 0x80 + q2 % 64, 0x80 + q1 % 64, 0x80 + v % 64]
  }

  /** The bytes the decoder accepts are the UTF-8 form of what they decode
      to, so no other byte sequence is read as the same character. */
  lemma Utf8OfScalar(bytes: seq<Byte>)
    requires 2 <= |bytes| <= 4 && SequenceLength(bytes[0]) == |bytes|
    requires forall j :: 1 <= j < |bytes| ==> IsContinuation(bytes[j])
    requires Utf8Scalar(bytes).Some?
    ensures Utf8(Utf8Scalar(bytes).value) == bytes
  {
    var b := bytes;
    assert IsContinuation(b[1]) && (|b| > 2 ==> IsContinuation(b[2])) && (|b| > 3 ==> IsContinuation(b[3]));
    var c := Utf8Scalar(bytes).value;
    var v, e := c as int, Utf8(c);
    var b0, b1 := b[0] as int - 0x80, b[1] as int - 0x80;
    if |b| == 2 {
      assert v == (b0 - 0x40) * 64 + b1;
      assert e[0] == b[0] && e[1] == b[1];
    } else if |b| == 3 {
      var b2 := b[2] as int - 0x80;
      assert v == ((b0 - 0x60) * 64 + b1) * 64 + b2;
      assert v / 64 == (b0 - 0x60) * 64 + b1;
      assert e[0] == b[0] && e[1] == b[1] && e[2] == b[2];
    } else {
      var b2, b3 := b[2] as int - 0x80, b[3] as int - 0x80;
      assert v == (((b0 - 0x70) * 64 + b1) * 64 + b2) * 64 + b3;
      assert v / 64 == ((b0 - 0x70) * 64 + b1) * 64 + b2;
      assert v / 64 / 64 == (b0 - 0x70) * 64 + b1;
      assert e[0] == b[0] && e[1] == b[1] && e[2] == b[2] && e[3] == b[3];
    }
  }

  /** `%XY`, the escape `encodeURIComponent` writes for one byte. */
  function Escape(b: Byte): string
  {
    ['%', HexDigit(b / 16), HexDigit(b % 16)]
  }

  function EscapeAll(bytes: seq<Byte>): (s: string)
    ensures |s| == 3 * |bytes|
    ensures EscapedForm(s)
  {
    if bytes == [] then []
    else
      var head := Escape(bytes[0]);
      EscapedFormConcat(head, EscapeAll(bytes[1..]));
      head + EscapeAll(bytes[1..])
  }

  function EncodeChar(c: char): string
  {
    if Unreserved(c) then [c] else EscapeAll(Utf8(c))
  }

  /** Holds of a string made only of unreserved characters and '%'. */
  predicate EscapedForm(s: string)
  {
    forall i :: 0 <= i < |s| ==> Unreserved(s[i]) || s[i] == '%'
  }

  lemma EscapedFormConcat(a: string, b: string)
    requires EscapedForm(a) && EscapedForm(b)
    ensures EscapedForm(a + b)
  {
    forall i | 0 <= i < |a + b| ensures Unreserved((a + b)[i]) || (a + b)[i] == '%' {
      if i >= |a| { assert (a + b)[i] == b[i - |a|]; }
    }
  }

  /** `encodeURIComponent(s)`: unreserved characters are kept, every other
      character is replaced by the escapes of its UTF-8 bytes. */
  function Encode(s: string): (r: string)
    ensures EscapedForm(r)
    ensures AllUnreserved(s) ==> r == s
    ensures !AllUnreserved(s) ==> |r| > |s|
    ensures |r| >= |s|
  {
    if s == [] then []
    else
      var head := EncodeChar(s[0]);
      var tail := Encode(s[1..]);
      EscapedFormConcat(head, tail);
      assert AllUnreserved(s) ==> AllUnreserved(s[1..]) && s == [s[0]] + s[1..];
      assert !AllUnreserved(s) && Unreserved(s[0]) ==> !AllUnreserved(s[1..]) by {
        if !AllUnreserved(s) && Unreserved(s[0]) {
          var k :| 0 <= k < |s| && !Unreserved(s[k]);
          assert s[1..][k - 1] == s[k];
        }
      }
      head + tail
  }

  /** The byte that a well-formed `%XY` escape at index i of s stands for. */
  function EscapedByte(s: string, i: nat): (b: Option<Byte>)
    ensures b.Some? ==> i + 3 <= |s| && s[i] == '%' && IsHexDigit(s[i + 1]) && IsHexDigit(s[i + 2])
  {
    if i + 3 <= |s| && s[i] == '%' && IsHexDigit(s[i + 1]) && IsHexDigit(s[i + 2])
    then Some(16 * HexValue(s[i + 1]) + HexValue(s[i + 2]))
    else None
  }

  /** Every `%` at an index from lo up to hi starts a well-formed `%XY`. */
  predicate PercentsEscaped(s: string, lo: nat, hi: nat)
  {
    forall p :: lo <= p < hi && p < |s| && s[p] == '%' ==> p + 2 < |s| && IsHexDigit(s[p + 1]) && IsHexDigit(s[p + 2])
  }

  /** The k escaped continuation bytes that start at index i of s. */
  function Continuations(s: string, i: nat, k: nat): (r: Option<seq<Byte>>)
    ensures r.Some? ==> |r.value| == k && (k > 0 ==> i + 3 * k <= |s|)
    ensures r.Some? ==> forall j :: 0 <= j < k ==> IsContinuation(r.value[j])
    decreases k
  {
    if k == 0 then Some([])
    else match EscapedByte(s, i)
      case None => None
      case Some(b) =>
        if !IsContinuation(b) then None
        else match Continuations(s, i + 3, k - 1)
          case None => None
          case Some(rest) => Some([b] + rest)
  }

  /** The character that the escape sequence at the start of s stands for, and
      how many characters of s the sequence takes up. */
  function DecodeEscape(s: string): (r: Option<(char, nat)>)
    ensures r.Some? ==> 3 <= r.value.1 <= |s|
  {
    match EscapedByte(s, 0)
    case None => None
    case Some(lead) =>
      var n := SequenceLength(lead);
      if n == 0 then None
      else if n == 1 then Some((lead as char, 3))
      else match Continuations(s, 3, n - 1)
        case None => None
        case Some(tail) =>
          match Utf8Scalar([lead] + tail)
          case None => None
          case Some(c) => Some((c, 3 * n))
  }

  /** The `%` signs inside a run of escaped continuation bytes each start
      a well-formed escape. */
  lemma {:induction false} ContinuationsEscaped(s: string, i: nat, k: nat)
    requires Continuations(s, i, k).Some?
    ensures PercentsEscaped(s, i, i + 3 * k)
    decreases k
  {
    if k > 0 {
      ContinuationsEscaped(s, i + 3, k - 1);
    }
  }

  /** The `%` signs inside an escape sequence the decoder accepts each start
      a well-formed escape. */
  lemma DecodeEscapeEscaped(s: string)
    requires DecodeEscape(s).Some?
    ensures PercentsEscaped(s, 0, DecodeEscape(s).value.1)
  {
    var lead := EscapedByte(s, 0).value;
    if SequenceLength(lead) > 1 {
      ContinuationsEscaped(s, 3, SequenceLength(lead) - 1);
    }
  }

  /** `decodeURIComponent(s)`: every escape sequence becomes the character it
      encodes; None when `decodeURIComponent` throws a URIError. */
  function Decode(s: string): (r: Option<string>)
    ensures '%' !in s ==> r == Some(s)
    ensures r.Some? ==> |r.value| <= |s|
    decreases |s|
  {
    if s == [] then Some([])
    else if s[0] != '%' then
      assert '%' !in s ==> '%' !in s[1..] && s == [s[0]] + s[1..];
      match Decode(s[1..])
      case None => None
      case Some(t) => Some([s[0]] + t)
    else
      match DecodeEscape(s)
      case None => None
      case Some((c, n)) =>
        match Decode(s[n..])
        case None => None
        case Some(t) => Some([c] + t)
  }

  /** The escape of byte j sits at index 3 * j of a run of escapes. */
  lemma {:induction false} EscapeAllAt(bytes: seq<Byte>, rest: string, j: nat)
    requires j < |bytes|
    ensures EscapedByte(EscapeAll(bytes) + rest, 3 * j) == Some(bytes[j])
  {
    var s := EscapeAll(bytes) + rest;
    var t := EscapeAll(bytes[1..]) + rest;
    assert s == Escape(bytes[0]) + t;
    if j > 0 {
      EscapeAllAt(bytes[1..], rest, j - 1);
      assert s[3 * j..3 * j + 3] == t[3 * (j - 1)..3 * (j - 1) + 3];
      EscapedByteShift(s, 3 * j, t, 3 * (j - 1));
    } else {
      assert s[..3] == Escape(bytes[0]);
    }
  }

  /** Which byte an escape reads depends only on its three characters. */
  lemma EscapedByteShift(s: string, i: nat, t: string, k: nat)
    requires i + 3 <= |s| && k + 3 <= |t| && s[i..i + 3] == t[k..k + 3]
    ensures EscapedByte(s, i) == EscapedByte(t, k)
  {
    assert s[i] == t[k] && s[i + 1] == t[k + 1] && s[i + 2] == t[k + 2] by {
      assert s[i] == s[i..i + 3][0] && s[i + 1] == s[i..i + 3][1] && s[i + 2] == s[i..i + 3][2];
      assert t[k] == t[k..k + 3][0] && t[k + 1] == t[k..k + 3][1] && t[k + 2] == t[k..k + 3][2];
    }
  }

  /** Reading k continuation bytes from a run of escapes gives those bytes back. */
  lemma {:induction false} ContinuationsOfEscapes(bytes: seq<Byte>, rest: string, m: nat, k: nat)
    requires m + k <= |bytes|
    requires forall j :: m <= j < m + k ==> IsContinuation(bytes[j])
    ensures Continuations(EscapeAll(bytes) + rest, 3 * m, k) == Some(bytes[m..m + k])
    decreases k
  {
    if k > 0 {
      EscapeAllAt(bytes, rest, m);
      ContinuationsOfEscapes(bytes, rest, m + 1, k - 1);
      assert 3 * m + 3 == 3 * (m + 1);
      assert bytes[m..m + k] == [bytes[m]] + bytes[m + 1..m + k];
    } else {
      assert bytes[m..m + k] == [];
    }
  }

  /** The escapes `encodeURIComponent` writes for a character decode to it. */
  lemma DecodeEscapeOfChar(c: char, rest: string)
    requires !Unreserved(c)
    ensures DecodeEscape(EscapeAll(Utf8(c)) + rest) == Some((c, 3 * |Utf8(c)|))
  {
    var bytes := Utf8(c);
    EscapeAllAt(bytes, rest, 0);
    if |bytes| > 1 {
      ContinuationsOfEscapes(bytes, rest, 1, |bytes| - 1);
      assert [bytes[0]] + bytes[1..|bytes|] == bytes;
    }
  }

  /** Decoding an encoded character followed by anything decodes the character
      and then the rest. */
  lemma DecodeAfterEncodedChar(c: char, rest: string)
    ensures Decode(EncodeChar(c) + rest) ==
      match Decode(rest)
      case None => None
      case Some(t) => Some([c] + t)
  {
    var s := EncodeChar(c) + rest;
    if Unreserved(c) {
      assert s[1..] == rest;
    } else {
      DecodeEscapeOfChar(c, rest);
      assert s[3 * |Utf8(c)|..] == rest;
    }
  }

  /** `decodeURIComponent(encodeURIComponent(s)) === s` for every string. */
  lemma {:induction false} DecodeEncode(s: string)
    ensures Decode(Encode(s)) == Some(s)
  {
    if s != [] {
      DecodeAfterEncodedChar(s[0], Encode(s[1..]));
      DecodeEncode(s[1..]);
      assert [s[0]] + s[1..] == s;
    }
  }

  /** A first character other than `%` is kept and the rest decoded. */
  lemma DecodeLiteralStep(q: string)
    requires q != [] && q[0] != '%'
    ensures Decode(q) ==
      match Decode(q[1..])
      case None => None
      case Some(t) => Some([q[0]] + t)
  {
  }

  /** Text without `%` decodes to itself, whatever follows it. */
  lemma {:induction false} DecodeLiteralPrefix(p: string, s: string)
    requires '%' !in p
    ensures Decode(p + s) ==
      match Decode(s)
      case None => None
      case Some(t) => Some(p + t)
    decreases |p|
  {
    if p == [] {
      assert p + s == s;
      assert forall t: string :: p + t == t;
    } else {
      var tail := p[1..];
      assert '%' !in tail by {
        forall j | 0 <= j < |tail| ensures tail[j] != '%' { assert tail[j] == p[j + 1]; }
      }
      DecodeLiteralPrefix(tail, s);
      PrependLiteral(p[0], tail, s);
      assert p == [p[0]] + tail;
    }
  }

  /** One character other than `%` in front of decodable text is kept. */
  lemma PrependLiteral(c: char, p: string, s: string)
    requires c != '%'
    ensures Decode([c] + (p + s)) ==
      match Decode(p + s)
      case None => None
      case Some(t) => Some([c] + t)
    ensures forall t: string :: [c] + (p + t) == ([c] + p) + t
    ensures [c] + (p + s) == ([c] + p) + s
  {
    var q := [c] + (p + s);
    assert q[1..] == p + s;
    DecodeLiteralStep(q);
  }

  /** `decodeURIComponent` throws on a `%` that is not followed by two
      hexadecimal digits, wherever it is: an escape sequence before it never
      takes it up, since each `%` inside a sequence is followed by two. */
  lemma {:induction false} DecodeRejectsBadEscape(s: string, i: nat)
    requires i < |s| && s[i] == '%'
    requires !(i + 2 < |s| && IsHexDigit(s[i + 1]) && IsHexDigit(s[i + 2]))
    ensures Decode(s) == None
    decreases |s|
  {
    if s[0] != '%' {
      BadEscapeAfter(s, i, 1);
    } else if i == 0 {
      assert EscapedByte(s, 0) == None;
    } else {
      match DecodeEscape(s) {
        case None =>
        case Some((c, n)) =>
          DecodeEscapeEscaped(s);
          assert n <= i;
          BadEscapeAfter(s, i, n);
      }
    }
  }

  /** The bad escape at index i is still there after the first n characters. */
  lemma BadEscapeAfter(s: string, i: nat, n: nat)
    requires 0 < n <= i < |s| && s[i] == '%'
    requires !(i + 2 < |s| && IsHexDigit(s[i + 1]) && IsHexDigit(s[i + 2]))
    ensures Decode(s[n..]) == None
    decreases |s|, 0
  {
    var rest := s[n..];
    assert rest[i - n] == s[i];
    assert i + 1 < |s| ==> rest[i - n + 1] == s[i + 1];
    assert i + 2 < |s| ==> rest[i - n + 2] == s[i + 2];
    DecodeRejectsBadEscape(rest, i - n);
  }
}
