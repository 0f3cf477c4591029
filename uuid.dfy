/**
 * The identifier a new message receives:
 * `crypto.randomUUID().replace(/-/g, "").padStart(32, '0')`, where the
 * random UUID is an input in the 8-4-4-4-12 form of section 4 of RFC 9562
 * (lower-case hexadecimal digits, as `randomUUID` produces).
 */
module Uuid {

  predicate IsLowerHex(c: char) {
    ('0' <= c <= '9') || ('a' <= c <= 'f')
  }

  /** The hyphens of the canonical text form stand at these indices. */
  predicate IsHyphenIndex(i: int) {
    i == 8 || i == 13 || i == 18 || i == 23
  }

  predicate IsCanonical(u: string) {
    && |u| == 36
    && forall i :: 0 <= i < 36 ==> if IsHyphenIndex(i) then u[i] == '-' else IsLowerHex(u[i])
  }

  /** The stored form of a message's uuid: 32 lower-case hexadecimal digits. */
  predicate IsMessageId(s: string) {
    |s| == 32 && forall i :: 0 <= i < 32 ==> IsLowerHex(s[i])
  }

  predicate NoHyphen(s: string) {
    forall i :: 0 <= i < |s| ==> s[i] != '-'
  }

  /** `s.replace(/-/g, "")`. */
  function StripHyphens(s: string): string {
    if s == [] then []
    else if s[0] == '-' then StripHyphens(s[1..])
    else [s[0]] + StripHyphens(s[1..])
  }

  /** Removing the hyphens leaves none and never lengthens; without hyphens it changes nothing. */
  lemma {:induction false} StripHyphensSpec(s: string)
    ensures |StripHyphens(s)| <= |s| && NoHyphen(StripHyphens(s))
    ensures NoHyphen(s) ==> StripHyphens(s) == s
  {
    if s != [] {
      StripHyphensSpec(s[1..]);
      if s[0] != '-' {
        assert StripHyphens(s) == [s[0]] + StripHyphens(s[1..]);
        if NoHyphen(s) {
          assert NoHyphen(s[1..]) by {
            forall i | 0 <= i < |s| - 1 ensures s[1..][i] != '-' {
              assert s[1..][i] == s[i + 1];
            }
          }
          assert s == [s[0]] + s[1..];
        }
      }
    }
  }

  /** `n` copies of `c`. */
  function Repeat(c: char, n: nat): string {
    if n == 0 then [] else [c] + Repeat(c, n - 1)
  }

  lemma {:induction false} RepeatSpec(c: char, n: nat)
    ensures |Repeat(c, n)| == n && forall i :: 0 <= i < n ==> Repeat(c, n)[i] == c
  {
    if n > 0 {
      RepeatSpec(c, n - 1);
    }
  }

  /** `s.padStart(target, fill)` with a one-character fill string. */
  function PadStart(s: string, target: nat, fill: char): string {
    if |s| < target then Repeat(fill, target - |s|) + s else s
  }

  /** `padStart` fills on the left up to the target length and keeps `s` as the suffix. */
  lemma PadStartSpec(s: string, target: nat, fill: char)
    ensures var r := PadStart(s, target, fill);
      && |r| == (if |s| < target then target else |s|)
      && r[|r| - |s|..] == s
      && forall i :: 0 <= i < |r| - |s| ==> r[i] == fill
  {
    if |s| < target {
      RepeatSpec(fill, target - |s|);
    }
  }

  /** The uuid a message built with `isNew` stores. */
  function MessageId(random: string): string {
    PadStart(StripHyphens(random), 32, '0')
  }

  /** Puts the four hyphens back at their canonical places. */
  function Hyphenate(h: string): string
    requires |h| == 32
  {
    h[..8] + "-" + h[8..12] + "-" + h[12..16] + "-" + h[16..20] + "-" + h[20..]
  }

  lemma {:induction false} StripHyphensAppend(a: string, b: string)
    ensures StripHyphens(a + b) == StripHyphens(a) + StripHyphens(b)
  {
    if a == [] {
      assert a + b == b;
    } else {
      assert (a + b)[1..] == a[1..] + b;
      StripHyphensAppend(a[1..], b);
    }
  }

  lemma {:induction false} StripGroup(a: string, b: string)
    requires NoHyphen(a)
    ensures StripHyphens(a + "-" + b) == a + StripHyphens(b)
  {
    assert a + "-" + b == a + ("-" + b);
    StripHyphensSpec(a);
    StripHyphensAppend(a, "-" + b);
    assert ("-" + b)[1..] == b;
  }

  /** The five digit groups of a canonical UUID hold no hyphen; the four separators are hyphens. */
  lemma CanonicalGroups(u: string)
    requires IsCanonical(u)
    ensures u[8] == '-' && u[13] == '-' && u[18] == '-' && u[23] == '-'
    ensures NoHyphen(u[..8]) && NoHyphen(u[9..13]) && NoHyphen(u[14..18]) && NoHyphen(u[19..23]) && NoHyphen(u[24..])
  {
    forall i | 0 <= i < 8 ensures u[..8][i] == u[i] && !IsHyphenIndex(i) { }
    forall i | 0 <= i < 4
      ensures u[9..13][i] == u[9 + i] && u[14..18][i] == u[14 + i] && u[19..23][i] == u[19 + i]
      ensures !IsHyphenIndex(9 + i) && !IsHyphenIndex(14 + i) && !IsHyphenIndex(19 + i)
    { }
    forall i | 0 <= i < 12 ensures u[24..][i] == u[24 + i] && !IsHyphenIndex(24 + i) { }
  }

  /** Removing the hyphens of a canonical UUID leaves its 32 digits in order. */
  lemma StripCanonical(u: string)
    requires IsCanonical(u)
    ensures StripHyphens(u) == u[..8] + u[9..13] + u[14..18] + u[19..23] + u[24..]
  {
    CanonicalGroups(u);
    assert u[19..] == u[19..23] + "-" + u[24..];
    StripGroup(u[19..23], u[24..]);
    assert u[14..] == u[14..18] + "-" + u[19..];
    StripGroup(u[14..18], u[19..]);
    assert u[9..] == u[9..13] + "-" + u[14..];
    StripGroup(u[9..13], u[14..]);
    assert u == u[..8] + "-" + u[9..];
    StripGroup(u[..8], u[9..]);
    StripHyphensSpec(u[24..]);
  }

  /**
   * A message id made from a canonical UUID is 32 lower-case hexadecimal
   * digits, and `padStart` never adds a zero to it.
   */
  lemma MessageIdFormat(u: string)
    requires IsCanonical(u)
    ensures IsMessageId(MessageId(u))
    ensures MessageId(u) == StripHyphens(u)
  {
    StripCanonical(u);
    var h := StripHyphens(u);
    forall i | 0 <= i < 32 ensures IsLowerHex(h[i]) {
      if i < 8 { assert h[i] == u[i]; }
      else if i < 12 { assert h[i] == u[i + 1]; }
      else if i < 16 { assert h[i] == u[i + 2]; }
      else if i < 20 { assert h[i] == u[i + 3]; }
      else { assert h[i] == u[i + 4]; }
    }
  }

  /** The message id loses nothing: the UUID is recovered from it. */
  lemma MessageIdRoundTrip(u: string)
    requires IsCanonical(u)
    ensures |MessageId(u)| == 32 && Hyphenate(MessageId(u)) == u
  {
    MessageIdFormat(u);
    StripCanonical(u);
    var h := MessageId(u);
    assert h[..8] == u[..8];
    assert h[8..12] == u[9..13];
    assert h[12..16] == u[14..18];
    assert h[16..20] == u[19..23];
    assert h[20..] == u[24..];
    assert u == u[..8] + "-" + u[9..13] + "-" + u[14..18] + "-" + u[19..23] + "-" + u[24..];
  }

  /** Distinct UUIDs from the generator give distinct message ids. */
  lemma MessageIdInjective(u: string, v: string)
    requires IsCanonical(u) && IsCanonical(v) && u != v
    ensures MessageId(u) != MessageId(v)
  {
    MessageIdRoundTrip(u);
    MessageIdRoundTrip(v);
  }
}
