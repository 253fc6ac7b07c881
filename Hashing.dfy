/**
 * `PasswordHasher`: a password is stored as the lower-case hex text of the
 * SHA-256 digest of its UTF-8 bytes. The digest itself is an oracle.
 */
module Hashing {
  import opened Prelude
  import opened Strings

  type Digest = s: seq<byte> | |s| == 32 witness seq(32, _ => 0)

  /** SHA-256 applied to the UTF-8 encoding of a string. */
  type Sha256 = string -> Digest

  /** `b.ToString("x2")`: two lower-case hex digits, high nibble first. */
  function ByteHex(b: byte): string {
    [HexDigit(b / 16), HexDigit(b % 16)]
  }

  /** The text a `StringBuilder` holds after appending `ByteHex` of each byte in order. */
  function Hex(bytes: seq<byte>): string
    decreases |bytes|
  {
    if bytes == [] then "" else Hex(bytes[..|bytes| - 1]) + ByteHex(bytes[|bytes| - 1])
  }

  predicate IsLowerHex(s: string) {
    forall i :: 0 <= i < |s| ==> IsLowerHexDigit(s[i])
  }

  lemma {:induction false} HexLength(bytes: seq<byte>)
    ensures |Hex(bytes)| == 2 * |bytes|
    decreases |bytes|
  {
    if bytes != [] {
      HexLength(bytes[..|bytes| - 1]);
    }
  }

  /** Two digits per byte, in byte order: characters 2i and 2i+1 spell byte i. */
  lemma {:induction false} HexAt(bytes: seq<byte>)
    ensures |Hex(bytes)| == 2 * |bytes|
    ensures forall i :: 0 <= i < |bytes| ==> Hex(bytes)[2 * i] == ByteHex(bytes[i])[0] && Hex(bytes)[2 * i + 1] == ByteHex(bytes[i])[1]
    decreases |bytes|
  {
    HexLength(bytes);
    if bytes != [] {
      var init := bytes[..|bytes| - 1];
      var h, hi := Hex(bytes), Hex(init);
      HexAt(init);
      assert h == hi + ByteHex(bytes[|bytes| - 1]);
      forall i | 0 <= i < |bytes| ensures h[2 * i] == ByteHex(bytes[i])[0] && h[2 * i + 1] == ByteHex(bytes[i])[1] {
        if i < |init| {
          assert bytes[i] == init[i];
          assert h[2 * i] == hi[2 * i] && h[2 * i + 1] == hi[2 * i + 1];
        }
      }
    }
  }

  /** Every character of the encoding is one of 0-9a-f. */
  lemma HexAlphabet(bytes: seq<byte>)
    ensures IsLowerHex(Hex(bytes))
  {
    HexAt(bytes);
    var h := Hex(bytes);
    forall k | 0 <= k < |h| ensures IsLowerHexDigit(h[k]) {
      var i := k / 2;
      assert k == 2 * i || k == 2 * i + 1;
    }
  }

  /** The byte two lower-case hex digits spell, high nibble first. */
  function PairValue(c1: char, c2: char): byte
    requires IsLowerHexDigit(c1) && IsLowerHexDigit(c2)
  {
    var hi, lo := HexValue(c1), HexValue(c2);
    assert hi * 16 <= 15 * 16;
    hi * 16 + lo
  }

  lemma ByteHexOfPair(c1: char, c2: char)
    requires IsLowerHexDigit(c1) && IsLowerHexDigit(c2)
    ensures ByteHex(PairValue(c1, c2)) == [c1, c2]
  {
    var hi, lo := HexValue(c1), HexValue(c2);
    var b := hi * 16 + lo;
    assert b / 16 == hi && b % 16 == lo;
  }

  lemma PairOfByteHex(b: byte)
    ensures PairValue(ByteHex(b)[0], ByteHex(b)[1]) == b
  {
    HexValueOfDigit(b / 16);
    HexValueOfDigit(b % 16);
  }

  /** Reads back a text of lower-case hex digit pairs; `None` for anything else. */
  function ParseHex(s: string): Option<seq<byte>>
    decreases |s|
  {
    if s == [] then Some([])
    else if |s| < 2 || !IsLowerHexDigit(s[|s| - 2]) || !IsLowerHexDigit(s[|s| - 1]) then None
    else match ParseHex(s[..|s| - 2])
      case None => None
      case Some(init) => Some(init + [PairValue(s[|s| - 2], s[|s| - 1])])
  }

  /** Decoding undoes the encoding. */
  lemma {:induction false} ParseHexOfHex(bytes: seq<byte>)
    ensures ParseHex(Hex(bytes)) == Some(bytes)
    decreases |bytes|
  {
    if bytes != [] {
      var init, b := bytes[..|bytes| - 1], bytes[|bytes| - 1];
      var h := Hex(bytes);
      HexLength(init);
      assert h == Hex(init) + ByteHex(b);
      assert h[..|h| - 2] == Hex(init);
      assert h[|h| - 2] == ByteHex(b)[0] && h[|h| - 1] == ByteHex(b)[1];
      ParseHexOfHex(init);
      PairOfByteHex(b);
      assert init + [b] == bytes;
    }
  }

  /** Encoding undoes the decoding: every even-length lower-case hex text is some digest's encoding. */
  lemma {:induction false} HexOfParseHex(s: string)
    requires ParseHex(s).Some?
    ensures Hex(ParseHex(s).value) == s
    decreases |s|
  {
    if s != [] {
      var init, c1, c2 := s[..|s| - 2], s[|s| - 2], s[|s| - 1];
      var prev := ParseHex(init).value;
      var b := PairValue(c1, c2);
      var bytes := prev + [b];
      assert ParseHex(s).value == bytes;
      HexOfParseHex(init);
      assert bytes[..|bytes| - 1] == prev;
      assert Hex(bytes) == init + ByteHex(b);
      ByteHexOfPair(c1, c2);
      assert s == init + [c1, c2];
    }
  }

  /** Distinct digests give distinct texts. */
  lemma HexInjective(a: seq<byte>, b: seq<byte>)
    requires Hex(a) == Hex(b)
    ensures a == b
  {
    ParseHexOfHex(a);
    ParseHexOfHex(b);
  }

  /** The value `HashPassword` returns. */
  function HashOf(sha: Sha256, password: string): (h: string)
    ensures |h| == 64 && IsLowerHex(h)
  {
    HexLength(sha(password));
    HexAlphabet(sha(password));
    Hex(sha(password))
  }

  /** `HashPassword`: hashes, then appends two hex digits per digest byte. */
  method HashPassword(sha: Sha256, password: string) returns (hash: string)
    ensures hash == HashOf(sha, password)
  {
    var bytes := sha(password);
    var builder := "";
    for i := 0 to |bytes|
      invariant builder == Hex(bytes[..i])
    {
      assert bytes[..i + 1][..i] == bytes[..i];
      builder := builder + ByteHex(bytes[i]);
    }
    assert bytes[..|bytes|] == bytes;
    hash := builder;
  }

  /** `VerifyPassword`: false for a null or empty argument, else hash equality. */
  function VerifyPassword(sha: Sha256, password: NString, hashedPassword: NString): (ok: bool)
    ensures IsNullOrEmpty(password) || IsNullOrEmpty(hashedPassword) ==> !ok
    ensures ok ==> |hashedPassword.value| == 64 && IsLowerHex(hashedPassword.value)
  {
    if IsNullOrEmpty(password) || IsNullOrEmpty(hashedPassword) then false
    else HashOf(sha, password.value) == hashedPassword.value
  }

  /** A stored hash verifies against the password it was made from, and, for another password, only when the digests collide. */
  lemma VerifyAgainstHash(sha: Sha256, password: string, original: string)
    requires password != ""
    ensures VerifyPassword(sha, Some(password), Some(HashOf(sha, original))) <==> sha(password) == sha(original)
  {
    if HashOf(sha, password) == HashOf(sha, original) {
      HexInjective(sha(password), sha(original));
    }
  }
}
