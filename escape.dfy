/**
  The diagnostic escaper `bytes_escape` (src/quic/common.rs:48-56): every byte
  of the request is replaced by its `std::ascii::escape_default` form and the
  pieces are concatenated in order.
 */
module Escape {
  import opened Types

  const Tab: byte := 0x09
  const LineFeed: byte := 0x0A
  const CarriageReturn: byte := 0x0D
  const DoubleQuote: byte := 0x22
  const SingleQuote: byte := 0x27
  const Backslash: byte := 0x5C
  const LowerT: byte := 0x74
  const LowerR: byte := 0x72
  const LowerN: byte := 0x6E
  const LowerX: byte := 0x78

  /** Printable ASCII, 0x20 (space) to 0x7E (`~`). */
  predicate IsPrintable(b: byte) {
    0x20 <= b <= 0x7E
  }

  /** The bytes `escape_default` leaves as they are. */
  predicate PassesThrough(b: byte) {
    IsPrintable(b) && b != Backslash && b != SingleQuote && b != DoubleQuote
  }

  /** The bytes `escape_default` writes as a backslash and one letter or symbol. */
  predicate HasShortEscape(b: byte) {
    b == Tab || b == CarriageReturn || b == LineFeed ||
    b == Backslash || b == SingleQuote || b == DoubleQuote
  }

  /** The bytes `escape_default` writes as `\xNN`. */
  predicate HasHexEscape(b: byte) {
    !PassesThrough(b) && !HasShortEscape(b)
  }

  predicate IsHexDigit(d: byte) {
    0x30 <= d <= 0x39 || 0x61 <= d <= 0x66
  }

  /** The value of a lower-case hexadecimal digit. */
  function HexValue(d: byte): (n: int)
    requires IsHexDigit(d)
    ensures 0 <= n < 16
  {
    if d <= 0x39 then d - 0x30 else d - 0x61 + 10
  }

  /** Digit `n` of the table "0123456789abcdef". */
  function HexDigit(n: int): (d: byte)
    requires 0 <= n < 16
    ensures IsHexDigit(d) && HexValue(d) == n
  {
    if n < 10 then 0x30 + n else 0x61 + (n - 10)
  }

  /** Every lower-case hexadecimal digit is the digit of its own value. */
  lemma HexDigitOfValue(d: byte)
    requires IsHexDigit(d)
    ensures HexDigit(HexValue(d)) == d
  {
  }

  /**
    `std::ascii::escape_default` on one byte. The hexadecimal digits are
    `b >> 4` and `b & 0xf`, which on a `u8` are `b / 16` and `b % 16`.
   */
  function EscapeByte(b: byte): (r: seq<byte>)
    ensures |r| == 1 || |r| == 2 || |r| == 4
    ensures forall i :: 0 <= i < |r| ==> IsPrintable(r[i])
    ensures r == [b] <==> PassesThrough(b)
    ensures |r| == 1 <==> PassesThrough(b)
    ensures |r| == 2 <==> HasShortEscape(b)
    ensures |r| > 1 ==> r[0] == Backslash
    ensures HasHexEscape(b) ==>
      r[1] == LowerX && IsHexDigit(r[2]) && IsHexDigit(r[3]) && 16 * HexValue(r[2]) + HexValue(r[3]) == b
  {
    if b == Tab then [Backslash, LowerT]
    else if b == CarriageReturn then [Backslash, LowerR]
    else if b == LineFeed then [Backslash, LowerN]
    else if b == Backslash || b == SingleQuote || b == DoubleQuote then [Backslash, b]
    else if IsPrintable(b) then [b]
    else [Backslash, LowerX, HexDigit(b / 16), HexDigit(b % 16)]
  }

  /** The escaped form of a whole buffer: the per-byte escapes, in order. */
  function Escape(s: seq<byte>): (r: seq<byte>)
    ensures |s| <= |r| <= 4 * |s|
    ensures forall i :: 0 <= i < |r| ==> IsPrintable(r[i])
  {
    if s == [] then [] else EscapeByte(s[0]) + Escape(s[1..])
  }

  /** `bytes_escape`: the loop that extends `escaped` with each byte's escape. */
  method BytesEscape(req: seq<byte>) returns (escaped: seq<byte>)
    ensures escaped == Escape(req)
  {
    escaped := [];
    for i := 0 to |req|
      invariant escaped == Escape(req[..i])
    {
      var part := EscapeByte(req[i]);
      EscapeAppend(req[..i], [req[i]]);
      assert req[..i + 1] == req[..i] + [req[i]];
      assert Escape([req[i]]) == part by {
        assert [req[i]][1..] == [];
      }
      escaped := escaped + part;
    }
    assert req[..|req|] == req;
  }

  /** Escaping distributes over concatenation. */
  lemma {:induction false} EscapeAppend(a: seq<byte>, b: seq<byte>)
    ensures Escape(a + b) == Escape(a) + Escape(b)
  {
    if a == [] {
      assert a + b == b;
    } else {
      assert (a + b)[1..] == a[1..] + b;
      EscapeAppend(a[1..], b);
    }
  }

  /** The output is exactly as long as the input iff no byte needs escaping. */
  lemma {:induction false} EscapeLengthExact(s: seq<byte>)
    ensures |Escape(s)| == |s| <==> forall i :: 0 <= i < |s| ==> PassesThrough(s[i])
  {
    if s != [] {
      EscapeLengthExact(s[1..]);
      assert forall i :: 1 <= i < |s| ==> s[i] == s[1..][i - 1];
    }
  }

  /** Escaping leaves a buffer unchanged iff all its bytes pass through. */
  lemma {:induction false} EscapeIdentity(s: seq<byte>)
    ensures Escape(s) == s <==> forall i :: 0 <= i < |s| ==> PassesThrough(s[i])
  {
    EscapeLengthExact(s);
    if s != [] && forall i :: 0 <= i < |s| ==> PassesThrough(s[i]) {
      EscapeIdentity(s[1..]);
      assert forall i :: 0 <= i < |s[1..]| ==> s[1..][i] == s[i + 1];
      assert s == [s[0]] + s[1..];
    }
  }

  /**
    Reads one escape off the front of `s`: the byte it stands for and its
    length. Only the forms `escape_default` produces are accepted. This is a
    specification device; the system has no unescaper.
   */
  function UnescapeOne(s: seq<byte>): (r: Option<(byte, nat)>)
    requires s != []
    ensures r.Some? ==> 1 <= r.value.1 <= |s| && s[..r.value.1] == EscapeByte(r.value.0)
  {
    if s[0] != Backslash then
      if PassesThrough(s[0]) then Some((s[0], 1)) else None
    else if |s| < 2 then None
    else if s[1] == LowerT then Some((Tab, 2))
    else if s[1] == LowerR then Some((CarriageReturn, 2))
    else if s[1] == LowerN then Some((LineFeed, 2))
    else if s[1] == Backslash || s[1] == SingleQuote || s[1] == DoubleQuote then Some((s[1], 2))
    else if s[1] == LowerX && |s| >= 4 && IsHexDigit(s[2]) && IsHexDigit(s[3]) then
      var b := 16 * HexValue(s[2]) + HexValue(s[3]);
      if HasHexEscape(b) then
        HexDigitOfValue(s[2]);
        HexDigitOfValue(s[3]);
        assert b / 16 == HexValue(s[2]) && b % 16 == HexValue(s[3]);
        assert s[..4] == [s[0], s[1], s[2], s[3]];
        Some((b, 4))
      else None
    else None
  }

  /** The inverse of `Escape` on its image; `None` for text it cannot produce. */
  function Unescape(s: seq<byte>): (r: Option<seq<byte>>)
    decreases |s|
  {
    if s == [] then Some([])
    else match UnescapeOne(s)
      case None => None
      case Some((b, n)) =>
        match Unescape(s[n..])
        case None => None
        case Some(rest) => Some([b] + rest)
  }

  /** Unescaping reads back each byte's escape, whatever follows it. */
  lemma UnescapeOneOfEscape(b: byte, rest: seq<byte>)
    ensures UnescapeOne(EscapeByte(b) + rest) == Some((b, |EscapeByte(b)|))
  {
    var s := EscapeByte(b) + rest;
    if HasHexEscape(b) {
      assert s[2] == HexDigit(b / 16) && s[3] == HexDigit(b % 16);
      assert 16 * HexValue(s[2]) + HexValue(s[3]) == b;
    }
  }

  /** Escaping loses nothing: unescaping gives the original buffer back. */
  lemma {:induction false} UnescapeEscape(s: seq<byte>)
    ensures Unescape(Escape(s)) == Some(s)
  {
    if s != [] {
      var e := EscapeByte(s[0]);
      UnescapeOneOfEscape(s[0], Escape(s[1..]));
      assert (e + Escape(s[1..]))[|e|..] == Escape(s[1..]);
      UnescapeEscape(s[1..]);
      assert s == [s[0]] + s[1..];
    }
  }

  /** Whatever unescapes, re-escapes to itself. */
  lemma {:induction false} EscapeUnescape(t: seq<byte>, s: seq<byte>)
    requires Unescape(t) == Some(s)
    ensures Escape(s) == t
    decreases |t|
  {
    if t != [] {
      var one := UnescapeOne(t);
      assert one.Some?;
      var b, n := one.value.0, one.value.1;
      var tail := Unescape(t[n..]);
      assert tail.Some? && s == [b] + tail.value;
      EscapeUnescape(t[n..], tail.value);
      assert s[0] == b && s[1..] == tail.value;
      calc {
        Escape(s);
        EscapeByte(b) + Escape(tail.value);
        t[..n] + t[n..];
        t;
      }
    }
  }

  /** Distinct buffers have distinct escaped forms. */
  lemma EscapeInjective(a: seq<byte>, b: seq<byte>)
    requires Escape(a) == Escape(b)
    ensures a == b
  {
    UnescapeEscape(a);
    UnescapeEscape(b);
  }
}
