/**
 * `parse_client_tag`: three pattern rules over the decoded peer id, tried in
 * a fixed order.  A `-XL` prefix (Xunlei) gives "XL"; the conventional
 * Azureus-style shape `-AAdddd-` gives the six characters after the dash;
 * anything else gives "UNK".
 */
module ClientTag {
  import opened PeerId

  const XL: string := "XL"
  const UNKNOWN: string := "UNK"

  predicate StartsWithXL(id: string) {
    |id| >= 3 && id[..3] == "-XL"
  }

  predicate IsDigit(c: char) {
    '0' <= c <= '9'
  }

  /** At least 8 characters, a leading `-` and a digit at index 3. */
  predicate HasConventionalShape(id: string) {
    |id| >= 8 && id[0] == '-' && IsDigit(id[3])
  }

  function ParseClientTag(id: string): (tag: string)
    ensures tag == XL <==> StartsWithXL(id)
    ensures !StartsWithXL(id) && HasConventionalShape(id) ==> |tag| == 6 && tag == id[1..7]
    ensures !StartsWithXL(id) && !HasConventionalShape(id) ==> tag == UNKNOWN
  {
    if StartsWithXL(id) then XL
    else if HasConventionalShape(id) then id[1..7]
    else UNKNOWN
  }

  /** The examples of the doc comment, and the prefix rule winning over the shape rule. */
  lemma DocExamples()
    ensures ParseClientTag("-XLxxxx-") == XL
    ensures ParseClientTag("-qB4670-") == "qB4670"
    ensures ParseClientTag("-TR4040-") == "TR4040"
    ensures HasConventionalShape("-XL1abcd-") && ParseClientTag("-XL1abcd-") == XL
    ensures ParseClientTag("") == UNKNOWN
  {
    assert "-XLxxxx-"[..3] == "-XL";
    assert "-XL1abcd-"[..3] == "-XL";
    assert "-qB4670-"[..3] != "-XL" by { assert "-qB4670-"[1] != 'X'; }
    assert "-TR4040-"[..3] != "-XL" by { assert "-TR4040-"[1] != 'X'; }
    assert "-qB4670-"[1..7] == "qB4670";
    assert "-TR4040-"[1..7] == "TR4040";
  }

  /**
   * On an encoded id, whichever bytes the encoder left literal (aria2 leaves
   * letters and digits, so `-XL` arrives as `%2DXL`), the tag is "XL"
   * exactly when the raw bytes begin with `-`, `X`, `L` (45, 88, 76).
   */
  lemma TagOfEncodedId(raw: seq<byte>, keep: byte -> bool)
    requires SafeLiterals(keep)
    ensures ParseClientTag(DecodePeerId(Encode(raw, keep))) == XL
        <==> |raw| >= 3 && raw[..3] == [45, 88, 76]
  {
    DecodePeerIdOfEncoded(raw, keep);
    DecodedStartsWithXL(raw);
    XLBytes(raw);
  }

  lemma XLBytes(raw: seq<byte>)
    ensures |raw| >= 3 && raw[..3] == [45, 88, 76]
        <==> |raw| >= 3 && raw[0] == 45 && raw[1] == 88 && raw[2] == 76
  {
    if |raw| >= 3 && raw[..3] == [45, 88, 76] {
      assert raw[..3][0] == 45 && raw[..3][1] == 88 && raw[..3][2] == 76;
    }
    if |raw| >= 3 && raw[0] == 45 && raw[1] == 88 && raw[2] == 76 {
      assert raw[..3] == [45, 88, 76];
    }
  }

  lemma DecodedStartsWithXL(raw: seq<byte>)
    ensures StartsWithXL(DecodeAscii(raw))
        <==> |raw| >= 3 && raw[0] == 45 && raw[1] == 88 && raw[2] == 76
  {
    var id := DecodeAscii(raw);
    if StartsWithXL(id) {
      assert id[..3][0] == '-' && id[..3][1] == 'X' && id[..3][2] == 'L';
      assert id[0] == '-' && id[1] == 'X' && id[2] == 'L';
    }
    if |raw| >= 3 && raw[0] == 45 && raw[1] == 88 && raw[2] == 76 {
      assert id[0] == '-' && id[1] == 'X' && id[2] == 'L';
      assert id[..3] == "-XL";
    }
  }

  /**
   * An Xunlei id in the form aria2 reports it: the leading `-` escaped as
   * `%2D`, letters and digits literal.  It is tagged "XL".
   */
  lemma XunleiAsReported(raw: seq<byte>)
    requires raw == [45, 88, 76, 48, 48, 48, 48, 45]
    ensures Encode(raw, AriaLiteral)[..5] == "%2DXL"
    ensures ParseClientTag(DecodePeerId(Encode(raw, AriaLiteral))) == XL
  {
    AriaLiteralsAreSafe();
    EncodedPrefix(raw);
    TagOfEncodedId(raw, AriaLiteral);
    assert raw[..3] == [45, 88, 76];
  }

  lemma EncodedPrefix(raw: seq<byte>)
    requires raw == [45, 88, 76, 48, 48, 48, 48, 45]
    ensures Encode(raw, AriaLiteral)[..5] == "%2DXL"
  {
    AriaLiteralsAreSafe();
    var rest := Encode(raw[3..], AriaLiteral);
    assert Encode(raw[2..], AriaLiteral) == ['L'] + rest;
    assert Encode(raw[1..], AriaLiteral) == ['X', 'L'] + rest;
    assert Encode(raw, AriaLiteral) == ['%', '2', 'D', 'X', 'L'] + rest;
  }
}
