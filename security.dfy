/**
 * The text part of `Security.exportCryptoKey`: the SPKI bytes that
 * `crypto.subtle.exportKey("spki", key)` resolves to become one line of
 * base64 between the PEM markers of a public key.
 */
module Security {
  import opened Wrappers
  import opened Base64

  const Header: string := "-----BEGIN PUBLIC KEY-----\n"
  const Footer: string := "\n-----END PUBLIC KEY-----"

  /** `exportCryptoKey(key)` for a key whose SPKI encoding is `der`. */
  function ExportCryptoKey(der: seq<Byte>): (pem: string)
    ensures pem == Header + Encode(der) + Footer
  {
    BtoaOfBytes(der);
    Header + Btoa(FromCharCodes(der)).value + Footer
  }

  lemma HeaderLines()
    ensures forall i :: 0 <= i < |Header| ==> (Header[i] == '\n' <==> i == |Header| - 1)
  {
  }

  lemma FooterLines()
    ensures forall i :: 0 <= i < |Footer| ==> (Footer[i] == '\n' <==> i == 0)
  {
  }

  /**
   * The text has the length of the markers and the base64 body, and its
   * only line breaks are the one ending the first line and the one
   * starting the last.
   */
  lemma ExportLines(der: seq<Byte>)
    ensures var pem := ExportCryptoKey(der);
      && |pem| == |Header| + 4 * ((|der| + 2) / 3) + |Footer|
      && forall i :: 0 <= i < |pem| ==> (pem[i] == '\n' <==> i == |Header| - 1 || i == |pem| - |Footer|)
  {
    var pem := ExportCryptoKey(der);
    var body := Encode(der);
    EncodeAlphabet(der);
    HeaderLines();
    FooterLines();
    forall i | 0 <= i < |pem|
      ensures pem[i] == '\n' <==> i == |Header| - 1 || i == |pem| - |Footer|
    {
      if i < |Header| {
        assert pem[i] == Header[i];
      } else if i < |Header| + |body| {
        assert pem[i] == body[i - |Header|];
      } else {
        assert pem[i] == Footer[i - |Header| - |body|];
      }
    }
  }

  /** Reads the key bytes back from a PEM text of this shape. */
  function Unwrap(pem: string): Option<seq<Byte>> {
    if |pem| >= |Header| + |Footer| && pem[..|Header|] == Header && pem[|pem| - |Footer|..] == Footer then
      Decode(pem[|Header|..|pem| - |Footer|])
    else None
  }

  lemma Framed(body: string)
    ensures var pem := Header + body + Footer;
      && pem[..|Header|] == Header
      && pem[|pem| - |Footer|..] == Footer
      && pem[|Header|..|pem| - |Footer|] == body
  {
  }

  lemma Reframed(pem: string)
    requires |pem| >= |Header| + |Footer|
    requires pem[..|Header|] == Header && pem[|pem| - |Footer|..] == Footer
    ensures pem == Header + pem[|Header|..|pem| - |Footer|] + Footer
  {
    assert pem == pem[..|Header|] + pem[|Header|..|pem| - |Footer|] + pem[|pem| - |Footer|..];
  }

  /** The exported text holds exactly the key's bytes, and nothing else unwraps to them. */
  lemma UnwrapExport(der: seq<Byte>, pem: string)
    ensures Unwrap(ExportCryptoKey(der)) == Some(der)
    ensures Unwrap(pem) == Some(der) ==> pem == ExportCryptoKey(der)
  {
    Framed(Encode(der));
    DecodeEncode(der);
    if Unwrap(pem) == Some(der) {
      Reframed(pem);
      EncodeDecode(pem[|Header|..|pem| - |Footer|]);
    }
  }
}
