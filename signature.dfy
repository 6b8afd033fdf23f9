/** The request signature (`generateAuth`, amuse.py:31-34): the first four
    hex digits of the MD5 digest of `id + format + str(section) + ")82"`,
    encoded as UTF-8. MD5 itself is not modelled: it is passed in as a
    function from bytes to a 16-byte digest. */
module Signature {
  import opened Optional
  import opened Strings
  import opened Utf8
  import opened Formats

  /** The constant the script appends to every signed string. */
  const SEED := ")82"

  /** An MD5 digest: 16 bytes. */
  type Digest = d: seq<Byte> | |d| == 16 witness seq(16, i => 0)

  predicate IsLowerHex(c: char) { '0' <= c <= '9' || 'a' <= c <= 'f' }

  predicate AllLowerHex(s: string) { forall i :: 0 <= i < |s| ==> IsLowerHex(s[i]) }

  function HexChar(v: nat): (c: char)
    requires v < 16
    ensures IsLowerHex(c)
  {
    if v < 10 then ('0' as int + v) as char else ('a' as int + v - 10) as char
  }

  function HexValue(c: char): (v: nat)
    requires IsLowerHex(c)
    ensures v < 16 && HexChar(v) == c
  {
    if c <= '9' then c as int - '0' as int else c as int - 'a' as int + 10
  }

  /** `hexdigest()`: two lower-case hex digits per byte, high nibble first. */
  function HexDigest(d: seq<Byte>): (h: string)
    ensures |h| == 2 * |d| && AllLowerHex(h)
  {
    if d == [] then [] else [HexChar(d[0] / 16), HexChar(d[0] % 16)] + HexDigest(d[1..])
  }

  /** The inverse of `HexDigest`: `None` on an odd length or a character
      that is not a lower-case hex digit. */
  function FromHex(h: string): Option<seq<Byte>>
  {
    if h == [] then Some([])
    else if |h| == 1 || !IsLowerHex(h[0]) || !IsLowerHex(h[1]) then None
    else match FromHex(h[2..])
      case None => None
      case Some(rest) => Some([HexValue(h[0]) * 16 + HexValue(h[1])] + rest)
  }

  /** Reading back a hex digest gives the digest. */
  lemma {:induction false} HexRoundTrip(d: seq<Byte>)
    ensures FromHex(HexDigest(d)) == Some(d)
  {
    if d != [] {
      var h := HexDigest(d);
      assert h[2..] == HexDigest(d[1..]);
      HexRoundTrip(d[1..]);
      assert (d[0] / 16) * 16 + d[0] % 16 == d[0];
      assert [d[0]] + d[1..] == d;
    }
  }

  /** The first `2 * k` hex digits spell out the first `k` bytes. */
  lemma {:induction false} HexDigestPrefix(d: seq<Byte>, k: nat)
    requires k <= |d|
    ensures HexDigest(d)[..2 * k] == HexDigest(d[..k])
  {
    if k > 0 {
      HexDigestPrefix(d[1..], k - 1);
      assert d[..k][1..] == d[1..][..k - 1];
    }
  }

  /** The string that is hashed: no separators between the parts. */
  function SignatureInput(id: string, format: string, section: nat): (s: string)
    ensures id + format <= s && EndsWith(s, Decimal(section) + SEED)
    ensures |s| == |id| + |format| + |Decimal(section)| + |SEED|
  {
    EndsWithAppend(id + format, Decimal(section) + SEED);
    assert id + format + Decimal(section) + SEED == (id + format) + (Decimal(section) + SEED);
    id + format + Decimal(section) + SEED
  }

  /** `generateAuth(id, format, section)`: four lower-case hex digits, the
      hex form of the first two bytes of the digest of the UTF-8 encoding
      of `SignatureInput(id, format, section)`. */
  function GenerateAuth(md5: seq<Byte> -> Digest, id: string, format: string, section: nat := 0): (auth: string)
    ensures |auth| == 4 && AllLowerHex(auth)
    ensures auth == HexDigest(md5(Encode(SignatureInput(id, format, section)))[..2])
  {
    var d := md5(Encode(SignatureInput(id, format, section)));
    HexDigestPrefix(d, 2);
    HexDigest(d)[..4]
  }

  /** The three fields a signed string is made of. */
  datatype SignedFields = SignedFields(id: string, format: string, section: nat)

  /** Splits a signed string back into its fields, for the three formats of
      the `EXTS` table: the section is the digit run before the seed (less
      the `3` of `mp3`), the format is what precedes it. */
  function ParseSignatureInput(s: string): Option<SignedFields>
  {
    if EndsWith(s, SEED) then ParseBody(s[..|s| - |SEED|]) else None
  }

  function ParseBody(body: string): Option<SignedFields>
  {
    var n := TrailingDigits(body);
    var digits := body[|body| - n..];
    assert forall i :: 0 <= i < n ==> digits[i] == body[|body| - n + i];
    ParseFields(body[..|body| - n], digits)
  }

  function ParseFields(head: string, digits: string): Option<SignedFields>
    requires AllDigits(digits)
  {
    if digits != [] && EndsWith(head, "img") then
      Some(SignedFields(head[..|head| - 3], "img", DecimalValue(digits)))
    else if digits != [] && EndsWith(head, "midi") then
      Some(SignedFields(head[..|head| - 4], "midi", DecimalValue(digits)))
    else if |digits| > 1 && EndsWith(head, "mp") && digits[0] == '3' then
      Some(SignedFields(head[..|head| - 2], "mp3", DecimalValue(digits[1..])))
    else None
  }

  /** The digit run after a head that ends in a non-digit is what
      `ParseBody` takes for the section. */
  lemma {:induction false} ParseBodySplit(head: string, digits: string)
    requires head != [] && !IsDigit(head[|head| - 1]) && AllDigits(digits)
    ensures ParseBody(head + digits) == ParseFields(head, digits)
  {
    var body := head + digits;
    TrailingDigitsAfter(head, digits);
    assert body[..|body| - |digits|] == head;
    assert body[|body| - |digits|..] == digits;
  }

  /** The signed string of a format that ends in a letter (`img`, `midi`)
      splits back into its fields. */
  lemma {:induction false} ParseLetterFormat(id: string, format: string, section: nat)
    requires format == "img" || format == "midi"
    ensures ParseSignatureInput(SignatureInput(id, format, section)) == Some(SignedFields(id, format, section))
  {
    var dec := Decimal(section);
    var s := SignatureInput(id, format, section);
    var x := id + format;
    assert s[..|s| - |SEED|] == x + dec && EndsWith(s, SEED);
    ParseBodySplit(x, dec);
    assert EndsWith(x, format) && x[..|x| - |format|] == id;
    DecimalRoundTrip(section);
    if format == "midi" {
      assert !EndsWith(x, "img") by { assert x[|x| - 1] == 'i'; }
    }
  }

  /** The signed string of `mp3`, whose `3` joins the section's digit run,
      splits back into its fields. */
  lemma {:induction false} ParseMp3(id: string, section: nat)
    ensures ParseSignatureInput(SignatureInput(id, "mp3", section)) == Some(SignedFields(id, "mp3", section))
  {
    var dec := Decimal(section);
    var s := SignatureInput(id, "mp3", section);
    var x := id + "mp";
    var digits := "3" + dec;
    assert s[..|s| - |SEED|] == x + digits && EndsWith(s, SEED);
    ParseBodySplit(x, digits);
    assert !EndsWith(x, "img") && !EndsWith(x, "midi") by { assert x[|x| - 1] == 'p'; }
    assert EndsWith(x, "mp") && x[..|x| - 2] == id;
    assert digits[1..] == dec;
    DecimalRoundTrip(section);
  }

  /** For every format of the `EXTS` table the signed string determines the
      id, the format and the section. */
  lemma {:induction false} ParseSignatureInputRoundTrip(id: string, format: string, section: nat)
    requires format in EXTS
    ensures ParseSignatureInput(SignatureInput(id, format, section)) == Some(SignedFields(id, format, section))
  {
    if format == "mp3" { ParseMp3(id, section); } else { ParseLetterFormat(id, format, section); }
  }

  /** Two requests for formats of the `EXTS` table sign the same string only
      when they agree on id, format and section. */
  lemma {:induction false} SignatureInputInjective(id1: string, f1: string, s1: nat, id2: string, f2: string, s2: nat)
    requires f1 in EXTS && f2 in EXTS
    requires SignatureInput(id1, f1, s1) == SignatureInput(id2, f2, s2)
    ensures id1 == id2 && f1 == f2 && s1 == s2
  {
    ParseSignatureInputRoundTrip(id1, f1, s1);
    ParseSignatureInputRoundTrip(id2, f2, s2);
  }

  /** The bytes handed to MD5 determine the id, the format and the section,
      so two different requests never hash the same input. */
  lemma {:induction false} SignedBytesInjective(id1: string, f1: string, s1: nat, id2: string, f2: string, s2: nat)
    requires f1 in EXTS && f2 in EXTS
    requires Encode(SignatureInput(id1, f1, s1)) == Encode(SignatureInput(id2, f2, s2))
    ensures id1 == id2 && f1 == f2 && s1 == s2
  {
    EncodeInjective(SignatureInput(id1, f1, s1), SignatureInput(id2, f2, s2));
    SignatureInputInjective(id1, f1, s1, id2, f2, s2);
  }
}
