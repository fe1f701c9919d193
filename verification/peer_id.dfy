/**
 * Decoding of the peer id that aria2 reports over JSON-RPC.
 *
 * aria2 hands out the 20 raw protocol bytes of a peer id percent-encoded
 * (section 2.1 of RFC 3986): letters and digits stay literal, every other
 * byte becomes a `%XX` triple.  `decode_peer_id` reverses the encoding the way
 * Python's `unquote_to_bytes` does (a `%` not followed by two hex digits is
 * kept as it is) and then reads the bytes as ASCII, replacing every byte of
 * 128 or more by U+FFFD, so one character comes out per decoded byte.
 */
module PeerId {

  newtype byte = b: int | 0 <= b < 256

  predicate IsAscii(s: string) {
    forall i :: 0 <= i < |s| ==> s[i] as int < 128
  }

  /** The raw `peerId` field, restricted to ASCII text (see README). */
  type AsciiString = s: string | IsAscii(s)

  /** What `bytes.decode("ascii", errors="replace")` puts in place of a non-ASCII byte. */
  const REPLACEMENT: char := '\U{FFFD}'

  predicate IsHexDigit(c: char) {
    '0' <= c <= '9' || 'a' <= c <= 'f' || 'A' <= c <= 'F'
  }

  function HexValue(c: char): (v: nat)
    requires IsHexDigit(c)
    ensures v < 16
  {
    if '0' <= c <= '9' then c as int - '0' as int
    else if 'a' <= c <= 'f' then c as int - 'a' as int + 10
    else c as int - 'A' as int + 10
  }

  /** The upper-case hex digit of a nibble; HexValue reads it back. */
  function HexDigit(v: nat): (c: char)
    requires v < 16
    ensures IsHexDigit(c) && c as int < 128
    ensures HexValue(c) == v
  {
    if v < 10 then ('0' as int + v) as char else ('A' as int + v - 10) as char
  }

  /** The byte an ASCII character stands for. */
  function ByteOf(c: char): (b: byte)
    requires c as int < 128
    ensures b as int == c as int
  {
    c as int as byte
  }

  /** The bytes of a text that carries no escapes at all. */
  function AsciiBytes(s: AsciiString): (raw: seq<byte>)
    ensures |raw| == |s|
    ensures forall i :: 0 <= i < |s| ==> raw[i] as int == s[i] as int
  {
    if s == [] then [] else [ByteOf(s[0])] + AsciiBytes(s[1..])
  }

  /**
   * `unquote_to_bytes`, read left to right: `%` and two hex digits (either
   * case) become one byte; every other character, `%` included, is its own
   * byte.  Each output byte uses one or three input characters.
   */
  function Unquote(s: AsciiString): (raw: seq<byte>)
    ensures |raw| <= |s| <= 3 * |raw|
  {
    if s == [] then []
    else if |s| >= 3 && s[0] == '%' && IsHexDigit(s[1]) && IsHexDigit(s[2]) then
      [(16 * HexValue(s[1]) + HexValue(s[2])) as byte] + Unquote(s[3..])
    else
      [ByteOf(s[0])] + Unquote(s[1..])
  }

  /** `bytes.decode("ascii", errors="replace")`: one character per byte. */
  function DecodeAscii(raw: seq<byte>): (s: string)
    ensures |s| == |raw|
    ensures forall i :: 0 <= i < |raw| ==>
      if raw[i] < 128 then s[i] as int == raw[i] as int else s[i] == REPLACEMENT
  {
    if raw == [] then []
    else [if raw[0] < 128 then raw[0] as int as char else REPLACEMENT] + DecodeAscii(raw[1..])
  }

  /** `decode_peer_id`: never fails, one character per decoded byte. */
  function DecodePeerId(id: AsciiString): (s: string)
    ensures |s| == |Unquote(id)| <= |id|
  {
    DecodeAscii(Unquote(id))
  }

  /**
   * A choice of bytes an encoder may leave as they are: ASCII bytes other
   * than `%` itself.  Every other byte must be escaped.
   */
  ghost predicate SafeLiterals(keep: byte -> bool) {
    forall b :: keep(b) ==> b < 128 && b != 37
  }

  /** The bytes aria2 leaves literal in a peer id: ASCII letters and digits. */
  predicate AriaLiteral(b: byte) {
    48 <= b <= 57 || 65 <= b <= 90 || 97 <= b <= 122
  }

  lemma AriaLiteralsAreSafe()
    ensures SafeLiterals(AriaLiteral)
  {
  }

  /**
   * Percent-encoding of raw peer-id bytes: a byte `keep` allows stays
   * literal, any other byte becomes `%XX` with upper-case hex digits.
   * With `keep` = AriaLiteral this is how aria2 reports the id, so an
   * Xunlei id arrives as `%2DXL…`.
   */
  function Encode(raw: seq<byte>, keep: byte -> bool): (s: AsciiString)
    requires SafeLiterals(keep)
    ensures |raw| <= |s| <= 3 * |raw|
  {
    if raw == [] then []
    else if keep(raw[0]) then [raw[0] as int as char] + Encode(raw[1..], keep)
    else ['%', HexDigit(raw[0] as int / 16), HexDigit(raw[0] as int % 16)] + Encode(raw[1..], keep)
  }

  /**
   * Decoding undoes the encoding, whichever bytes were left literal: the
   * doc comment's "converts it back".
   */
  lemma {:induction false} UnquoteEncode(raw: seq<byte>, keep: byte -> bool)
    requires SafeLiterals(keep)
    ensures Unquote(Encode(raw, keep)) == raw
  {
    if raw != [] {
      var s := Encode(raw, keep);
      UnquoteEncode(raw[1..], keep);
      if keep(raw[0]) {
        assert s[0] != '%';
        assert s[1..] == Encode(raw[1..], keep);
      } else {
        assert s[3..] == Encode(raw[1..], keep);
        var hi, lo := raw[0] as int / 16, raw[0] as int % 16;
        assert 16 * HexValue(s[1]) + HexValue(s[2]) == 16 * hi + lo == raw[0] as int;
      }
    }
  }

  /** An encoded peer id decodes to its raw bytes read as ASCII. */
  lemma DecodePeerIdOfEncoded(raw: seq<byte>, keep: byte -> bool)
    requires SafeLiterals(keep)
    ensures DecodePeerId(Encode(raw, keep)) == DecodeAscii(raw)
  {
    UnquoteEncode(raw, keep);
  }

  /** Text without `%` passes through the unquoting unchanged. */
  lemma {:induction false} UnquotePlain(s: AsciiString)
    requires '%' !in s
    ensures Unquote(s) == AsciiBytes(s)
  {
    if s != [] {
      assert s[0] != '%';
      UnquotePlain(s[1..]);
    }
  }

  /** Reading ASCII bytes back as text gives the text it came from. */
  lemma {:induction false} DecodeAsciiBytes(s: AsciiString)
    ensures DecodeAscii(AsciiBytes(s)) == s
  {
    if s != [] {
      DecodeAsciiBytes(s[1..]);
    }
  }

  /** A peer id that carries no escape is its own decoding. */
  lemma DecodePeerIdPlain(s: AsciiString)
    requires '%' !in s
    ensures DecodePeerId(s) == s
  {
    UnquotePlain(s);
    DecodeAsciiBytes(s);
  }

  // ---------------------------------------------------------------------
  // Reference definition: the library's own algorithm.  It splits the text
  // at every `%`; the first piece is copied, and each later piece is either
  // a byte from its two leading hex digits followed by the rest of the
  // piece, or a literal `%` followed by the whole piece.
  // ---------------------------------------------------------------------

  /** The pieces of `s` between its `%` characters (`str.split('%')`). */
  function SplitAtPercent(s: AsciiString): (pieces: seq<AsciiString>)
    ensures |pieces| >= 1
    ensures forall k :: 0 <= k < |pieces| ==> '%' !in pieces[k]
  {
    if s == [] then [[]]
    else
      var rest := SplitAtPercent(s[1..]);
      if s[0] == '%' then [[]] + rest
      else [[s[0]] + rest[0]] + rest[1..]
  }

  function UnquotePiece(piece: AsciiString): seq<byte> {
    if |piece| >= 2 && IsHexDigit(piece[0]) && IsHexDigit(piece[1]) then
      [(16 * HexValue(piece[0]) + HexValue(piece[1])) as byte] + AsciiBytes(piece[2..])
    else
      [37 as byte] + AsciiBytes(piece)
  }

  function UnquotePieces(pieces: seq<AsciiString>): seq<byte> {
    if pieces == [] then [] else UnquotePiece(pieces[0]) + UnquotePieces(pieces[1..])
  }

  function UnquoteBySplit(s: AsciiString): seq<byte> {
    var pieces := SplitAtPercent(s);
    AsciiBytes(pieces[0]) + UnquotePieces(pieces[1..])
  }

  /** Splitting after two leading non-`%` characters only shortens the first piece. */
  lemma SplitAfterTwo(t: AsciiString)
    requires |t| >= 2 && t[0] != '%' && t[1] != '%'
    ensures SplitAtPercent(t)[0] == t[..2] + SplitAtPercent(t[2..])[0]
    ensures SplitAtPercent(t)[1..] == SplitAtPercent(t[2..])[1..]
  {
    assert t[1..][1..] == t[2..];
  }

  /** The left-to-right reading agrees with the split-based algorithm on every input. */
  lemma {:induction false} UnquoteMatchesSplit(s: AsciiString)
    ensures Unquote(s) == UnquoteBySplit(s)
  {
    if s == [] {
    } else if s[0] != '%' {
      UnquoteMatchesSplit(s[1..]);
      PlainStep(s);
    } else if |s| >= 3 && IsHexDigit(s[1]) && IsHexDigit(s[2]) {
      UnquoteMatchesSplit(s[3..]);
      EscapeStep(s);
    } else {
      UnquoteMatchesSplit(s[1..]);
      LiteralPercentStep(s);
    }
  }

  /** A leading non-`%` character joins the first piece. */
  lemma PlainStep(s: AsciiString)
    requires s != [] && s[0] != '%'
    ensures UnquoteBySplit(s) == [ByteOf(s[0])] + UnquoteBySplit(s[1..])
  {
    var rest := SplitAtPercent(s[1..]);
    assert ([s[0]] + rest[0])[1..] == rest[0];
  }

  /** A leading `%XX` escape opens a piece whose first two characters it consumes. */
  lemma EscapeStep(s: AsciiString)
    requires |s| >= 3 && s[0] == '%' && IsHexDigit(s[1]) && IsHexDigit(s[2])
    ensures UnquoteBySplit(s) == [(16 * HexValue(s[1]) + HexValue(s[2])) as byte] + UnquoteBySplit(s[3..])
  {
    assert SplitAtPercent(s)[1..] == SplitAtPercent(s[1..]);
    EscapePiece(s);
  }

  /** After `%XX`, the piece holding XX is XX followed by the first piece of the rest. */
  lemma EscapePiece(s: AsciiString)
    requires |s| >= 3 && s[0] == '%' && IsHexDigit(s[1]) && IsHexDigit(s[2])
    ensures UnquotePiece(SplitAtPercent(s[1..])[0])
         == [(16 * HexValue(s[1]) + HexValue(s[2])) as byte] + AsciiBytes(SplitAtPercent(s[3..])[0])
    ensures SplitAtPercent(s[1..])[1..] == SplitAtPercent(s[3..])[1..]
  {
    var t := s[1..];
    assert t[2..] == s[3..];
    SplitAfterTwo(t);
    var first := SplitAtPercent(t)[0];
    assert first[0] == s[1] && first[1] == s[2];
    assert first[2..] == SplitAtPercent(s[3..])[0];
  }

  /** A leading `%` without two hex digits after it stays a literal `%`. */
  lemma LiteralPercentStep(s: AsciiString)
    requires s != [] && s[0] == '%'
    requires !(|s| >= 3 && IsHexDigit(s[1]) && IsHexDigit(s[2]))
    ensures UnquoteBySplit(s) == [37 as byte] + UnquoteBySplit(s[1..])
  {
    var t := s[1..];
    var pieces := SplitAtPercent(t);
    assert SplitAtPercent(s) == [[]] + pieces;
    if |pieces[0]| >= 2 {
      FirstPieceIsPrefix(t, 0);
      FirstPieceIsPrefix(t, 1);
    }
  }

  /** The first piece of a split is a prefix of the text. */
  lemma {:induction false} FirstPieceIsPrefix(t: AsciiString, k: nat)
    requires k < |SplitAtPercent(t)[0]|
    ensures k < |t| && SplitAtPercent(t)[0][k] == t[k]
  {
    if t != [] && t[0] != '%' && k > 0 {
      FirstPieceIsPrefix(t[1..], k - 1);
    }
  }
}
