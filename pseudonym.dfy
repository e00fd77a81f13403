/** The formatting half of `getHmacSHA256SigAsUUID`: the bytes of an HMAC-SHA256
    signature are written as lower-case hex and the first 32 hex digits are grouped
    8-4-4-4-12 like a UUID. The signature itself is a parameter. */
module Pseudonym {
  import opened ArrayOps
  import opened Strings

  /** A byte as Apps Script hands it to JavaScript: a signed value. */
  type SignedByte = x: int | -128 <= x < 128

  function HexDigit(d: nat): char
    requires d < 16
  {
    if d < 10 then ('0' as int + d) as char else ('a' as int + d - 10) as char
  }

  predicate IsHexDigit(c: char)
  {
    '0' <= c <= '9' || 'a' <= c <= 'f'
  }

  /** The value of a lower-case hex digit. */
  function HexValue(c: char): (d: nat)
    requires IsHexDigit(c)
    ensures d < 16 && HexDigit(d) == c
  {
    if c <= '9' then c as int - '0' as int else c as int - 'a' as int + 10
  }

  /** `n.toString(16)`. */
  function ToHex(n: nat): string
  {
    if n < 16 then [HexDigit(n)] else ToHex(n / 16) + [HexDigit(n % 16)]
  }

  /** `s.slice(-2)`: the last two characters, or all of a shorter string. */
  function LastTwo(s: string): string
  {
    if |s| < 2 then s else s[|s| - 2..]
  }

  /** `(chr + 256).toString(16).slice(-2)`. */
  function ByteHex(b: SignedByte): string
  {
    LastTwo(ToHex(b as int + 256))
  }

  /** The byte value two hex digits spell. */
  function PairValue(c0: char, c1: char): (v: nat)
    requires IsHexDigit(c0) && IsHexDigit(c1)
    ensures v < 256
  {
    16 * HexValue(c0) + HexValue(c1)
  }

  lemma HexDigitValue(d: nat)
    requires d < 16
    ensures IsHexDigit(HexDigit(d)) && HexValue(HexDigit(d)) == d
  {
  }

  lemma ToHexTwoDigits(hi: nat, lo: nat)
    requires 1 <= hi < 16 && lo < 16
    ensures ToHex(16 * hi + lo) == [HexDigit(hi), HexDigit(lo)]
  {
    var n := 16 * hi + lo;
    assert n / 16 == hi && n % 16 == lo;
  }

  lemma ToHexThreeDigits(hi: nat, lo: nat)
    requires hi < 16 && lo < 16
    ensures ToHex(256 + 16 * hi + lo) == [HexDigit(1), HexDigit(hi), HexDigit(lo)]
  {
    var n := 256 + 16 * hi + lo;
    assert n / 16 == 16 + hi && n % 16 == lo;
    ToHexTwoDigits(1, hi);
  }

  /** The two digits of a byte whose value modulo 256 is `16 * hi + lo`. */
  lemma ByteHexSplit(b: SignedByte, hi: nat, lo: nat)
    requires hi < 16 && lo < 16 && b as int % 256 == 16 * hi + lo
    ensures ByteHex(b) == [HexDigit(hi), HexDigit(lo)]
  {
    if b >= 0 {
      assert b as int + 256 == 256 + 16 * hi + lo;
      ToHexThreeDigits(hi, lo);
    } else {
      assert b as int + 256 == 16 * hi + lo && hi >= 8;
      ToHexTwoDigits(hi, lo);
    }
  }

  /** Each byte gives two lower-case hex digits that spell the byte modulo 256. */
  lemma ByteHexDigits(b: SignedByte)
    ensures |ByteHex(b)| == 2 && IsHexDigit(ByteHex(b)[0]) && IsHexDigit(ByteHex(b)[1])
    ensures PairValue(ByteHex(b)[0], ByteHex(b)[1]) == b as int % 256
  {
    var v := b as int % 256;
    var hi := v / 16;
    var lo := v % 16;
    ByteHexSplit(b, hi, lo);
    HexDigitValue(hi);
    HexDigitValue(lo);
  }

  /** `.map(...).join('')` over the signature bytes. */
  function Signature(sig: seq<SignedByte>): string
  {
    Flatten(Map(sig, ByteHex))
  }

  /** The bytes that a string of hex digit pairs spells: the reference decoding. */
  function Unhex(h: string): seq<nat>
    requires |h| % 2 == 0 && AllHex(h)
  {
    if h == [] then [] else [PairValue(h[0], h[1])] + Unhex(h[2..])
  }

  /** Every byte modulo 256. */
  function Unsigned(sig: seq<SignedByte>): (r: seq<nat>)
    ensures |r| == |sig| && forall k :: 0 <= k < |sig| ==> r[k] == sig[k] as int % 256
  {
    seq(|sig|, k requires 0 <= k < |sig| => sig[k] as int % 256)
  }

  predicate AllHex(h: string)
  {
    forall k :: 0 <= k < |h| ==> IsHexDigit(h[k])
  }

  /** Decoding a pair of hex digits followed by more pairs. */
  lemma UnhexCons(pair: string, rest: string)
    requires |pair| == 2 && AllHex(pair) && |rest| % 2 == 0 && AllHex(rest)
    ensures AllHex(pair + rest)
    ensures Unhex(pair + rest) == [PairValue(pair[0], pair[1])] + Unhex(rest)
  {
    var h := pair + rest;
    assert h[0] == pair[0] && h[1] == pair[1] && h[2..] == rest;
    forall k | 0 <= k < |h| ensures IsHexDigit(h[k]) {
      if k >= 2 {
        assert h[k] == rest[k - 2];
      }
    }
  }

  /** The hex string of a signature is that of its first byte followed by that of the
      rest. */
  lemma SignatureCons(sig: seq<SignedByte>)
    requires sig != []
    ensures Signature(sig) == ByteHex(sig[0]) + Signature(sig[1..])
    ensures Unsigned(sig) == [sig[0] as int % 256] + Unsigned(sig[1..])
  {
    assert sig == [sig[0]] + sig[1..];
    MapCons(sig[0], sig[1..], ByteHex);
  }

  /** The hex string has two hex digits per byte, and decoding it gives back every byte
      modulo 256. */
  lemma {:induction false} SignatureUnhex(sig: seq<SignedByte>)
    ensures |Signature(sig)| == 2 * |sig| && AllHex(Signature(sig))
    ensures Unhex(Signature(sig)) == Unsigned(sig)
  {
    if sig != [] {
      SignatureUnhex(sig[1..]);
      ByteHexDigits(sig[0]);
      SignatureCons(sig);
      UnhexCons(ByteHex(sig[0]), Signature(sig[1..]));
    }
  }

  /** The hex digits of the first 16 bytes are the first 32 of the whole signature. */
  lemma SignaturePrefix(sig: seq<SignedByte>)
    requires |sig| >= 16
    ensures |Signature(sig)| >= 32 && Signature(sig)[..32] == Signature(sig[..16])
  {
    assert sig == sig[..16] + sig[16..];
    MapAppend(sig[..16], sig[16..], ByteHex);
    FlattenAppend(Map(sig[..16], ByteHex), Map(sig[16..], ByteHex));
    SignatureUnhex(sig[..16]);
    SignatureUnhex(sig);
  }

  /** The 8-4-4-4-12 grouping of 32 hex digits. */
  function Grouped(h: string): (u: string)
    requires |h| == 32
  {
    h[..8] + "-" + h[8..12] + "-" + h[12..16] + "-" + h[16..20] + "-" + h[20..32]
  }

  /** `getHmacSHA256SigAsUUID` after the signature is computed. */
  function Uuid(sig: seq<SignedByte>): string
  {
    var h := Signature(sig);
    Join([Substring(h, 0, 8), Substring(h, 8, 12), Substring(h, 12, 16), Substring(h, 16, 20),
          Substring(h, 20, 32)], "-")
  }

  /** Reading the hex digits back out of a grouped string, skipping the dashes. */
  function Ungrouped(u: string): string
    requires |u| == 36
  {
    u[..8] + u[9..13] + u[14..18] + u[19..23] + u[24..]
  }

  /** The UUID form: 36 characters, dashes at 8, 13, 18 and 23, hex digits elsewhere. */
  predicate IsUuidShaped(u: string)
  {
    && |u| == 36
    && forall k :: 0 <= k < 36 ==>
         if k == 8 || k == 13 || k == 18 || k == 23 then u[k] == '-' else IsHexDigit(u[k])
  }

  lemma GroupedShape(h: string)
    requires |h| == 32 && AllHex(h)
    ensures IsUuidShaped(Grouped(h)) && Ungrouped(Grouped(h)) == h
  {
    var u := Grouped(h);
    forall k | 0 <= k < 36
      ensures if k == 8 || k == 13 || k == 18 || k == 23 then u[k] == '-' else IsHexDigit(u[k])
    {
      if k < 8 { assert u[k] == h[k]; }
      else if 8 < k < 13 { assert u[k] == h[k - 1]; }
      else if 13 < k < 18 { assert u[k] == h[k - 2]; }
      else if 18 < k < 23 { assert u[k] == h[k - 3]; }
      else if 23 < k { assert u[k] == h[k - 4]; }
    }
    assert u[..8] == h[..8] && u[9..13] == h[8..12] && u[14..18] == h[12..16];
    assert u[19..23] == h[16..20] && u[24..] == h[20..32];
    assert h == h[..8] + h[8..12] + h[12..16] + h[16..20] + h[20..32];
  }

  /** With at least 16 bytes, the result is the first 16 bytes' hex digits grouped
      8-4-4-4-12. */
  lemma UuidGroupsPrefix(sig: seq<SignedByte>)
    requires |sig| >= 16
    ensures |Signature(sig[..16])| == 32 && Uuid(sig) == Grouped(Signature(sig[..16]))
  {
    var h := Signature(sig);
    SignaturePrefix(sig);
    var p := h[..32];
    assert Substring(h, 0, 8) == p[..8];
    assert Substring(h, 8, 12) == p[8..12];
    assert Substring(h, 12, 16) == p[12..16];
    assert Substring(h, 16, 20) == p[16..20];
    assert Substring(h, 20, 32) == p[20..32];
    var parts := [p[..8], p[8..12], p[12..16], p[16..20], p[20..32]];
    assert Join(parts[4..], "-") == p[20..32];
    assert Join(parts[3..], "-") == p[16..20] + "-" + p[20..32];
    assert Join(parts[2..], "-") == p[12..16] + "-" + (p[16..20] + "-" + p[20..32]);
    assert Join(parts[1..], "-") == p[8..12] + "-" + (p[12..16] + "-" + (p[16..20] + "-" + p[20..32]));
  }

  /** A signature of at least 16 bytes gives a UUID-shaped string whose hex digits
      spell its first 16 bytes modulo 256; the later bytes do not matter. */
  lemma UuidOfSignature(sig: seq<SignedByte>)
    requires |sig| >= 16
    ensures IsUuidShaped(Uuid(sig))
    ensures var h := Ungrouped(Uuid(sig));
      |h| == 32 && AllHex(h) && Unhex(h) == Unsigned(sig[..16])
  {
    UuidGroupsPrefix(sig);
    SignatureUnhex(sig[..16]);
    GroupedShape(Signature(sig[..16]));
  }

  /** Bytes are told apart by their values modulo 256. */
  lemma UnsignedInjective(x: seq<SignedByte>, y: seq<SignedByte>)
    requires Unsigned(x) == Unsigned(y)
    ensures x == y
  {
    forall k | 0 <= k < |x| ensures x[k] == y[k] {
      assert Unsigned(x)[k] == Unsigned(y)[k];
    }
  }

  /** Two signatures give the same UUID exactly when their first 16 bytes agree. */
  lemma UuidIdentifiesPrefix(a: seq<SignedByte>, b: seq<SignedByte>)
    requires |a| >= 16 && |b| >= 16
    ensures Uuid(a) == Uuid(b) <==> a[..16] == b[..16]
  {
    if Uuid(a) == Uuid(b) {
      UuidOfSignature(a);
      UuidOfSignature(b);
      UnsignedInjective(a[..16], b[..16]);
    }
    if a[..16] == b[..16] {
      UuidGroupsPrefix(a);
      UuidGroupsPrefix(b);
    }
  }
}
