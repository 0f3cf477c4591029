/**
 * The base64 encoding of section 4 of RFC 4648 (standard alphabet, `=`
 * padding, no line breaks), which `window.btoa` applies to a string whose
 * characters are bytes. The decoder is the encoder's inverse and is
 * strict: it also refuses non-zero pad bits (section 3.5).
 */
module Base64 {
  import opened Wrappers

  type Byte = b: int | 0 <= b < 256
  type Sextet = v: int | 0 <= v < 64

  /** Table 1 of RFC 4648: the character for a 6-bit value. */
  function Letter(v: Sextet): char {
    if v < 26 then ('A' as int + v) as char
    else if v < 52 then ('a' as int + (v - 26)) as char
    else if v < 62 then ('0' as int + (v - 52)) as char
    else if v == 62 then '+'
    else '/'
  }

  predicate IsLetter(c: char) {
    ('A' <= c <= 'Z') || ('a' <= c <= 'z') || ('0' <= c <= '9') || c == '+' || c == '/'
  }

  function SextetOf(c: char): Sextet
    requires IsLetter(c)
  {
    if 'A' <= c <= 'Z' then c as int - 'A' as int
    else if 'a' <= c <= 'z' then c as int - 'a' as int + 26
    else if '0' <= c <= '9' then c as int - '0' as int + 52
    else if c == '+' then 62
    else 63
  }

  lemma LetterInverse(v: Sextet)
    ensures IsLetter(Letter(v)) && SextetOf(Letter(v)) == v
  {
  }

  lemma SextetInverse(c: char)
    requires IsLetter(c)
    ensures Letter(SextetOf(c)) == c
  {
  }

  /** Number of `=` that end the encoding of `n` bytes. */
  function PadCount(n: nat): nat {
    (3 - n % 3) % 3
  }

  /** Three bytes become four characters. */
  function EncodeTriple(x0: Byte, x1: Byte, x2: Byte): string {
    [Letter(x0 / 4), Letter(x0 % 4 * 16 + x1 / 16), Letter(x1 % 16 * 4 + x2 / 64), Letter(x2 % 64)]
  }

  /** A final two bytes become three characters and one `=`. */
  function EncodePair(x0: Byte, x1: Byte): string {
    [Letter(x0 / 4), Letter(x0 % 4 * 16 + x1 / 16), Letter(x1 % 16 * 4), '=']
  }

  /** A final byte becomes two characters and `==`. */
  function EncodeSingle(x0: Byte): string {
    [Letter(x0 / 4), Letter(x0 % 4 * 16), '=', '=']
  }

  /** Each full group of three bytes becomes four characters; a short last group is padded. */
  function Encode(b: seq<Byte>): (s: string)
    ensures |s| == 4 * ((|b| + 2) / 3)
    decreases |b|
  {
    if |b| == 0 then []
    else if |b| == 1 then EncodeSingle(b[0])
    else if |b| == 2 then EncodePair(b[0], b[1])
    else
      assert (|b| + 2) / 3 == (|b[3..]| + 2) / 3 + 1;
      EncodeTriple(b[0], b[1], b[2]) + Encode(b[3..])
  }

  /**
   * `s` is `=`-padded base64 text with `pads` pad characters: every
   * character is from the alphabet or `=`, and `=` stands exactly in the
   * last `pads` places.
   */
  ghost predicate Padded(s: string, pads: nat) {
    forall i :: 0 <= i < |s| ==> (IsLetter(s[i]) || s[i] == '=') && (s[i] == '=' <==> i >= |s| - pads)
  }

  lemma GroupPadded(x0: Byte, x1: Byte, x2: Byte)
    ensures Padded(EncodeTriple(x0, x1, x2), 0)
    ensures Padded(EncodePair(x0, x1), 1)
    ensures Padded(EncodeSingle(x0), 2)
  {
    LetterInverse(x0 / 4);
    LetterInverse(x0 % 4 * 16 + x1 / 16);
    LetterInverse(x1 % 16 * 4 + x2 / 64);
    LetterInverse(x2 % 64);
    LetterInverse(x1 % 16 * 4);
    LetterInverse(x0 % 4 * 16);
  }

  /** A group without padding in front of padded text leaves the padding at the end. */
  lemma PaddedAppend(head: string, rest: string, pads: nat)
    requires Padded(head, 0) && Padded(rest, pads) && pads <= |rest|
    ensures Padded(head + rest, pads)
  {
    var s := head + rest;
    forall i | 0 <= i < |s|
      ensures (IsLetter(s[i]) || s[i] == '=') && (s[i] == '=' <==> i >= |s| - pads)
    {
      if i < |head| {
        assert s[i] == head[i];
      } else {
        assert s[i] == rest[i - |head|];
      }
    }
  }

  /** The encoding uses only the alphabet and `=`, and `=` only in the last `PadCount` places. */
  lemma {:induction false} EncodeAlphabet(b: seq<Byte>)
    ensures Padded(Encode(b), PadCount(|b|))
    decreases |b|
  {
    if |b| == 1 {
      GroupPadded(b[0], 0, 0);
    } else if |b| == 2 {
      GroupPadded(b[0], b[1], 0);
    } else if |b| >= 3 {
      var head, rest := EncodeTriple(b[0], b[1], b[2]), Encode(b[3..]);
      assert Encode(b) == head + rest;
      GroupPadded(b[0], b[1], b[2]);
      EncodeAlphabet(b[3..]);
      PadCountStep(|b|);
      PaddedAppend(head, rest, PadCount(|b|));
    }
  }

  lemma PadCountStep(n: nat)
    requires n >= 3
    ensures PadCount(n - 3) == PadCount(n) <= 4 * ((n - 3 + 2) / 3)
  {
  }

  /** Four characters without padding become three bytes. */
  function DecodeTriple(v0: Sextet, v1: Sextet, v2: Sextet, v3: Sextet): seq<Byte> {
    [v0 * 4 + v1 / 16, v1 % 16 * 16 + v2 / 4, v2 % 4 * 64 + v3]
  }

  /**
   * One group of four characters; `last` says whether it ends the text, the
   * only place where padding may stand.
   */
  function DecodeQuad(q: string, last: bool): Option<seq<Byte>>
    requires |q| == 4
  {
    if IsLetter(q[0]) && IsLetter(q[1]) && IsLetter(q[2]) && IsLetter(q[3]) then
      Some(DecodeTriple(SextetOf(q[0]), SextetOf(q[1]), SextetOf(q[2]), SextetOf(q[3])))
    else if last && IsLetter(q[0]) && IsLetter(q[1]) && IsLetter(q[2]) && q[3] == '='
         && SextetOf(q[2]) % 4 == 0 then
      Some(DecodeTriple(SextetOf(q[0]), SextetOf(q[1]), SextetOf(q[2]), 0)[..2])
    else if last && IsLetter(q[0]) && IsLetter(q[1]) && q[2] == '=' && q[3] == '='
         && SextetOf(q[1]) % 16 == 0 then
      Some(DecodeTriple(SextetOf(q[0]), SextetOf(q[1]), 0, 0)[..1])
    else None
  }

  function Decode(s: string): Option<seq<Byte>>
    decreases |s|
  {
    if |s| == 0 then Some([])
    else if |s| < 4 then None
    else
      match DecodeQuad(s[..4], |s| == 4)
      case None => None
      case Some(head) =>
        if |s| == 4 then Some(head)
        else
          match Decode(s[4..])
          case None => None
          case Some(tail) => Some(head + tail)
  }

  lemma TripleRoundTrip(x0: Byte, x1: Byte, x2: Byte)
    ensures DecodeTriple(x0 / 4, x0 % 4 * 16 + x1 / 16, x1 % 16 * 4 + x2 / 64, x2 % 64) == [x0, x1, x2]
  {
  }

  lemma SextetsRoundTrip(v0: Sextet, v1: Sextet, v2: Sextet, v3: Sextet)
    ensures var t := DecodeTriple(v0, v1, v2, v3);
      t[0] / 4 == v0 && t[0] % 4 * 16 + t[1] / 16 == v1
      && t[1] % 16 * 4 + t[2] / 64 == v2 && t[2] % 64 == v3
  {
  }

  lemma SingleDecodes(x0: Byte)
    ensures DecodeQuad(EncodeSingle(x0), true) == Some([x0])
  {
    var q := EncodeSingle(x0);
    LetterInverse(x0 / 4);
    LetterInverse(x0 % 4 * 16);
    assert !IsLetter(q[2]) && SextetOf(q[1]) % 16 == 0;
    var t := DecodeTriple(SextetOf(q[0]), SextetOf(q[1]), 0, 0);
    assert t[0] == x0;
    assert t[..1] == [x0];
  }

  lemma PairDecodes(x0: Byte, x1: Byte)
    ensures DecodeQuad(EncodePair(x0, x1), true) == Some([x0, x1])
  {
    var q := EncodePair(x0, x1);
    LetterInverse(x0 / 4);
    LetterInverse(x0 % 4 * 16 + x1 / 16);
    LetterInverse(x1 % 16 * 4);
    TripleRoundTrip(x0, x1, 0);
    assert !IsLetter(q[3]) && SextetOf(q[2]) % 4 == 0;
    var t := DecodeTriple(SextetOf(q[0]), SextetOf(q[1]), SextetOf(q[2]), 0);
    assert t[0] == x0 && t[1] == x1;
    assert t[..2] == [x0, x1];
  }

  lemma TripleDecodes(x0: Byte, x1: Byte, x2: Byte, last: bool)
    ensures DecodeQuad(EncodeTriple(x0, x1, x2), last) == Some([x0, x1, x2])
  {
    LetterInverse(x0 / 4);
    LetterInverse(x0 % 4 * 16 + x1 / 16);
    LetterInverse(x1 % 16 * 4 + x2 / 64);
    LetterInverse(x2 % 64);
    TripleRoundTrip(x0, x1, x2);
  }

  /** A text of one group is decoded as the last group. */
  lemma DecodeLast(q: string)
    requires |q| == 4
    ensures Decode(q) == DecodeQuad(q, true)
  {
    assert q[..4] == q;
  }

  /** A group that does not end the text is decoded on its own, the rest after it. */
  lemma DecodeAppend(q: string, r: string)
    requires |q| == 4 && |r| > 0
    ensures Decode(q + r) ==
      match DecodeQuad(q, false)
      case None => None
      case Some(head) =>
        match Decode(r)
        case None => None
        case Some(tail) => Some(head + tail)
  {
    assert (q + r)[..4] == q;
    assert (q + r)[4..] == r;
  }

  /** A byte string is its first three bytes followed by the rest. */
  lemma SplitThree(b: seq<Byte>)
    requires |b| >= 3
    ensures b == [b[0], b[1], b[2]] + b[3..]
  {
  }

  /** A byte string of one to three bytes is the display of its bytes. */
  lemma ShortDisplay(b: seq<Byte>)
    requires 1 <= |b| <= 3
    ensures |b| == 1 ==> b == [b[0]]
    ensures |b| == 2 ==> b == [b[0], b[1]]
    ensures |b| == 3 ==> b == [b[0], b[1], b[2]]
  {
  }

  lemma OneDecodes(x0: Byte)
    ensures Decode(Encode([x0])) == Some([x0])
  {
    DecodeLast(EncodeSingle(x0));
    SingleDecodes(x0);
  }

  lemma TwoDecode(x0: Byte, x1: Byte)
    ensures Decode(Encode([x0, x1])) == Some([x0, x1])
  {
    DecodeLast(EncodePair(x0, x1));
    PairDecodes(x0, x1);
  }

  lemma ThreeDecode(x0: Byte, x1: Byte, x2: Byte)
    ensures Decode(Encode([x0, x1, x2])) == Some([x0, x1, x2])
  {
    var head := EncodeTriple(x0, x1, x2);
    assert [x0, x1, x2][3..] == [];
    assert Encode([x0, x1, x2]) == head + [] == head;
    DecodeLast(head);
    TripleDecodes(x0, x1, x2, true);
  }

  /** The encoding of one to three bytes is a single last group. */
  lemma ShortDecodes(b: seq<Byte>)
    requires 1 <= |b| <= 3
    ensures Decode(Encode(b)) == Some(b)
  {
    ShortDisplay(b);
    if |b| == 1 {
      OneDecodes(b[0]);
    } else if |b| == 2 {
      TwoDecode(b[0], b[1]);
    } else {
      ThreeDecode(b[0], b[1], b[2]);
    }
  }

  /** The decoder undoes the encoder. */
  lemma {:induction false} DecodeEncode(b: seq<Byte>)
    ensures Decode(Encode(b)) == Some(b)
    decreases |b|
  {
    if 1 <= |b| <= 3 {
      ShortDecodes(b);
    } else if |b| > 3 {
      var head := EncodeTriple(b[0], b[1], b[2]);
      var rest := Encode(b[3..]);
      assert Encode(b) == head + rest;
      TripleDecodes(b[0], b[1], b[2], false);
      DecodeEncode(b[3..]);
      DecodeAppend(head, rest);
      SplitThree(b);
    }
  }

  lemma QuadDisplay(q: string)
    requires |q| == 4
    ensures q == [q[0], q[1], q[2], q[3]]
  {
  }

  lemma FullGroupEncodes(v0: Sextet, v1: Sextet, v2: Sextet, v3: Sextet)
    ensures Encode(DecodeTriple(v0, v1, v2, v3)) == [Letter(v0), Letter(v1), Letter(v2), Letter(v3)]
  {
    var t := DecodeTriple(v0, v1, v2, v3);
    SextetsRoundTrip(v0, v1, v2, v3);
    assert t[3..] == [];
    assert Encode(t) == EncodeTriple(t[0], t[1], t[2]) + Encode([]);
  }

  lemma PairGroupEncodes(v0: Sextet, v1: Sextet, v2: Sextet)
    requires v2 % 4 == 0
    ensures Encode(DecodeTriple(v0, v1, v2, 0)[..2]) == [Letter(v0), Letter(v1), Letter(v2), '=']
  {
    SextetsRoundTrip(v0, v1, v2, 0);
  }

  lemma SingleGroupEncodes(v0: Sextet, v1: Sextet)
    requires v1 % 16 == 0
    ensures Encode(DecodeTriple(v0, v1, 0, 0)[..1]) == [Letter(v0), Letter(v1), '=', '=']
  {
    SextetsRoundTrip(v0, v1, 0, 0);
  }

  /** A group the decoder accepts is the encoding of the bytes it yields. */
  lemma QuadEncodes(q: string, last: bool)
    requires |q| == 4 && DecodeQuad(q, last).Some?
    ensures var b := DecodeQuad(q, last).value;
      && 1 <= |b| <= 3
      && (|b| < 3 ==> last)
      && Encode(b) == q
  {
    QuadDisplay(q);
    SextetInverse(q[0]);
    SextetInverse(q[1]);
    if IsLetter(q[2]) && IsLetter(q[3]) {
      SextetInverse(q[2]);
      SextetInverse(q[3]);
      FullGroupEncodes(SextetOf(q[0]), SextetOf(q[1]), SextetOf(q[2]), SextetOf(q[3]));
    } else if IsLetter(q[2]) {
      SextetInverse(q[2]);
      PairGroupEncodes(SextetOf(q[0]), SextetOf(q[1]), SextetOf(q[2]));
    } else {
      SingleGroupEncodes(SextetOf(q[0]), SextetOf(q[1]));
    }
  }

  /** Only encodings decode: a text the decoder accepts is the encoding of what it yields. */
  lemma {:induction false} EncodeDecode(s: string)
    requires Decode(s).Some?
    ensures Encode(Decode(s).value) == s
    decreases |s|
  {
    if |s| == 0 {
      return;
    }
    var q := s[..4];
    QuadEncodes(q, |s| == 4);
    var head := DecodeQuad(q, |s| == 4).value;
    if |s| == 4 {
      assert s == q;
    } else {
      var tail := Decode(s[4..]).value;
      EncodeDecode(s[4..]);
      var b := head + tail;
      assert |head| == 3;
      assert b[..3] == head && b[3..] == tail;
      assert |tail| > 0;
      assert Encode(b) == EncodeTriple(head[0], head[1], head[2]) + Encode(tail);
      assert Encode(head) == EncodeTriple(head[0], head[1], head[2]) + Encode([]);
      assert s == q + s[4..];
    }
  }

  /** Decoding and encoding are inverse bijections between byte strings and valid texts. */
  lemma DecodeIff(s: string, b: seq<Byte>)
    ensures Decode(s) == Some(b) <==> Encode(b) == s
  {
    if Decode(s) == Some(b) {
      EncodeDecode(s);
    }
    if Encode(b) == s {
      DecodeEncode(b);
    }
  }

  /** `String.fromCharCode(...bytes)`: one character per byte. */
  function FromCharCodes(b: seq<Byte>): (s: string)
    ensures |s| == |b| && forall i :: 0 <= i < |b| ==> s[i] as int == b[i]
  {
    seq(|b|, i requires 0 <= i < |b| => b[i] as char)
  }

  /**
   * `window.btoa(s)`: fails (an InvalidCharacterError) when a character is
   * above U+00FF, and otherwise encodes the bytes the characters stand for.
   */
  function Btoa(s: string): Option<string> {
    if forall i :: 0 <= i < |s| ==> s[i] as int < 256 then
      Some(Encode(seq(|s|, i requires 0 <= i < |s| => s[i] as int)))
    else None
  }

  /** Converting bytes to characters first makes `btoa` the base64 encoding of the bytes. */
  lemma BtoaOfBytes(b: seq<Byte>)
    ensures Btoa(FromCharCodes(b)) == Some(Encode(b))
  {
    var s := FromCharCodes(b);
    assert seq(|s|, i requires 0 <= i < |s| => s[i] as int) == b;
  }
}
