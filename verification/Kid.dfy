/** Key identifiers and the four-byte references taken from them. */
module Kid {
  import opened Base

  /** What the device computes and this model does not look into: any deterministic functions. */
  datatype Crypto = Crypto(
    sha1: bytes -> Bytes20,
    hmac: (bytes, bytes) -> Bytes32,          // keyed by the self-ECDH of a public key's owner
    wrap: (bytes, string, bytes) -> bytes,    // the same key, a context, a plaintext
    unwrap: (bytes, string, bytes) -> bytes)  // the same key, a context, a wrap

  const KID_LEN := 16

  /** The context of a wrap names the peer whose record carries it. */
  function PskContext(peerKid: string): string {
    "ENC-WG-PSK-v2|" + peerKid
  }

  function HexDigit(n: nat): char
    requires n < 16
  {
    "0123456789abcdef"[n]
  }

  /** Decoding takes either case, as encoding/hex does. */
  function HexValue(c: char): (r: Option<nat>)
    ensures r.Some? ==> r.value < 16
  {
    if '0' <= c <= '9' then Some((c - '0') as nat)
    else if 'a' <= c <= 'f' then Some((c - 'a') as nat + 10)
    else if 'A' <= c <= 'F' then Some((c - 'A') as nat + 10)
    else None
  }

  function HexEncode(b: bytes): (s: string)
    ensures |s| == 2 * |b|
  {
    if b == [] then "" else [HexDigit(b[0] / 16), HexDigit(b[0] % 16)] + HexEncode(b[1..])
  }

  function HexDecode(s: string): Option<bytes> {
    if s == "" then Some([])
    else if |s| == 1 || HexValue(s[0]).None? || HexValue(s[1]).None? then None
    else
      match HexDecode(s[2..])
      case None => None
      case Some(rest) => Some([HexValue(s[0]).value * 16 + HexValue(s[1]).value] + rest)
  }

  predicate IsSpace(c: char) {
    || '\t' <= c <= '\r' || c == ' ' || c == '\U{0085}' || c == '\U{00A0}' || c == '\U{1680}'
    || '\U{2000}' <= c <= '\U{200A}' || c == '\U{2028}' || c == '\U{2029}' || c == '\U{202F}'
    || c == '\U{205F}' || c == '\U{3000}'
  }

  function TrimSpace(s: string): string {
    if s == "" then ""
    else if IsSpace(s[0]) then TrimSpace(s[1..])
    else if IsSpace(s[|s| - 1]) then TrimSpace(s[..|s| - 1])
    else s
  }

  function KeyId(c: Crypto, pub: bytes): string {
    HexEncode(c.sha1(pub)[..KID_LEN])
  }

  function MakeRef(c: Crypto, pub: bytes): Bytes4 {
    c.sha1(pub)[..4]
  }

  /** PeerRefFromKID; a string that is not a 16-byte identifier has no reference. */
  function RefOfKid(kid: string): Option<Bytes4> {
    match HexDecode(TrimSpace(kid))
    case None => None
    case Some(raw) => if |raw| == KID_LEN then Some(raw[..4]) else None
  }

  lemma DigitRoundTrip(n: nat)
    requires n < 16
    ensures HexValue(HexDigit(n)) == Some(n) && !IsSpace(HexDigit(n))
  {
    assert n < 10 ==> HexDigit(n) == '0' + n as char;
    assert n >= 10 ==> HexDigit(n) == 'a' + (n - 10) as char;
  }

  lemma {:induction false} HexRoundTrip(b: bytes)
    ensures HexDecode(HexEncode(b)) == Some(b)
  {
    if b != [] {
      HexRoundTrip(b[1..]);
      HexDecodeCons(b[0], HexEncode(b[1..]));
      assert [b[0]] + b[1..] == b;
    }
  }

  lemma HexDecodeCons(x: byte, s: string)
    ensures HexDecode([HexDigit(x / 16), HexDigit(x % 16)] + s) ==
            match HexDecode(s) case None => None case Some(rest) => Some([x] + rest)
  {
    DigitRoundTrip(x / 16);
    DigitRoundTrip(x % 16);
    assert ([HexDigit(x / 16), HexDigit(x % 16)] + s)[2..] == s;
  }

  lemma {:induction false} HexHasNoSpace(b: bytes)
    ensures forall i :: 0 <= i < 2 * |b| ==> !IsSpace(HexEncode(b)[i])
  {
    if b != [] {
      HexHasNoSpace(b[1..]);
      DigitRoundTrip(b[0] / 16);
      DigitRoundTrip(b[0] % 16);
    }
  }

  /** A reference read off a search result is the one derived from the key behind it. */
  lemma RefOfKeyId(c: Crypto, pub: bytes)
    ensures RefOfKid(KeyId(c, pub)) == Some(MakeRef(c, pub))
  {
    var raw := c.sha1(pub)[..KID_LEN];
    HexRoundTrip(raw);
    HexHasNoSpace(raw);
    assert raw[..4] == c.sha1(pub)[..4];
  }

  // ----- identifiers and references, character by character

  /** One hexadecimal digit, in either case. */
  predicate Spelled(ch: char, d: nat) {
    d < 16 && (ch == "0123456789abcdef"[d] || ch == "0123456789ABCDEF"[d])
  }

  lemma DigitSpelled(ch: char, d: nat)
    requires d < 16
    ensures HexValue(ch) == Some(d) <==> Spelled(ch, d)
  {
    assert d < 10 ==> "0123456789abcdef"[d] == '0' + d as char == "0123456789ABCDEF"[d];
    assert d >= 10 ==> "0123456789abcdef"[d] == 'a' + (d - 10) as char;
    assert d >= 10 ==> "0123456789ABCDEF"[d] == 'A' + (d - 10) as char;
  }

  predicate SpelledAs(s: string, raw: bytes) {
    && |s| == 2 * |raw|
    && forall i :: 0 <= i < |raw| ==> Spelled(s[2 * i], raw[i] / 16) && Spelled(s[2 * i + 1], raw[i] % 16)
  }

  lemma SpelledCons(s: string, raw: bytes)
    requires |s| >= 2 && raw != []
    ensures SpelledAs(s, raw)
       <==> Spelled(s[0], raw[0] / 16) && Spelled(s[1], raw[0] % 16) && SpelledAs(s[2..], raw[1..])
  {
    if SpelledAs(s, raw) {
      forall i | 0 <= i < |raw[1..]|
        ensures Spelled(s[2..][2 * i], raw[1..][i] / 16) && Spelled(s[2..][2 * i + 1], raw[1..][i] % 16)
      {
        assert raw[1..][i] == raw[i + 1] && s[2..][2 * i] == s[2 * (i + 1)];
      }
    }
    if Spelled(s[0], raw[0] / 16) && Spelled(s[1], raw[0] % 16) && SpelledAs(s[2..], raw[1..]) {
      forall i | 0 <= i < |raw| ensures Spelled(s[2 * i], raw[i] / 16) && Spelled(s[2 * i + 1], raw[i] % 16) {
        if i > 0 {
          assert raw[1..][i - 1] == raw[i] && s[2..][2 * (i - 1)] == s[2 * i];
        }
      }
    }
  }

  lemma TwoDigits(h: nat, l: nat, x: byte)
    requires h < 16 && l < 16
    ensures h * 16 + l == x <==> h == x / 16 && l == x % 16
  {}

  lemma FirstByteDecodes(s: string, raw: bytes)
    requires |s| >= 2 && raw != []
    ensures HexDecode(s) == Some(raw)
       <==> && HexValue(s[0]) == Some(raw[0] / 16) && HexValue(s[1]) == Some(raw[0] % 16)
            && HexDecode(s[2..]) == Some(raw[1..])
  {
    if HexValue(s[0]).Some? && HexValue(s[1]).Some? && HexDecode(s[2..]).Some? {
      var h, l, rest := HexValue(s[0]).value, HexValue(s[1]).value, HexDecode(s[2..]).value;
      TwoDigits(h, l, raw[0]);
      assert raw == [raw[0]] + raw[1..];
      assert ([h * 16 + l] + rest)[0] == h * 16 + l && ([h * 16 + l] + rest)[1..] == rest;
    }
  }

  /** Decoding reads a string exactly as the bytes its digits spell. */
  lemma {:induction false} HexDecodes(s: string, raw: bytes)
    ensures HexDecode(s) == Some(raw) <==> SpelledAs(s, raw)
    decreases |s|
  {
    if |s| >= 2 && raw != [] {
      HexDecodes(s[2..], raw[1..]);
      SpelledCons(s, raw);
      FirstByteDecodes(s, raw);
      DigitSpelled(s[0], raw[0] / 16);
      DigitSpelled(s[1], raw[0] % 16);
    }
  }

  /** A device-reported string has a reference exactly when, without the space around it, it spells 16 bytes in
      hexadecimal, and then the reference is the first four of them. */
  lemma RefOfKidExactly(kid: string, ref: Bytes4)
    ensures RefOfKid(kid) == Some(ref)
       <==> exists raw: bytes :: |raw| == 16 && ref == raw[..4] && SpelledAs(TrimSpace(kid), raw)
  {
    if raw: bytes :| |raw| == 16 && ref == raw[..4] && SpelledAs(TrimSpace(kid), raw) {
      HexDecodes(TrimSpace(kid), raw);
    }
    if RefOfKid(kid) == Some(ref) {
      HexDecodes(TrimSpace(kid), HexDecode(TrimSpace(kid)).value);
    }
  }

  /** What is left has no space at its ends, and what went was space. */
  lemma {:induction false} TrimSpaceTakesSpace(s: string) returns (i: nat, j: nat)
    ensures i <= j <= |s| && TrimSpace(s) == s[i..j]
    ensures forall k :: 0 <= k < i || j <= k < |s| ==> IsSpace(s[k])
    ensures i < j ==> !IsSpace(s[i]) && !IsSpace(s[j - 1])
    decreases |s|
  {
    if s == "" {
      return 0, 0;
    }
    if IsSpace(s[0]) {
      i, j := TrimSpaceTakesSpace(s[1..]);
      i, j := i + 1, j + 1;
    } else if IsSpace(s[|s| - 1]) {
      i, j := TrimSpaceTakesSpace(s[..|s| - 1]);
    } else {
      i, j := 0, |s|;
    }
  }

  /** An identifier is the first 16 bytes of the digest in lower-case hexadecimal; a reference is the first four. */
  lemma KeyIdSpells(c: Crypto, pub: bytes)
    ensures |KeyId(c, pub)| == 32 && SpelledAs(KeyId(c, pub), c.sha1(pub)[..16])
    ensures forall k :: 0 <= k < 32 ==> !('A' <= KeyId(c, pub)[k] <= 'F')
    ensures forall k :: 0 <= k < 4 ==> MakeRef(c, pub)[k] == c.sha1(pub)[k]
  {
    HexRoundTrip(c.sha1(pub)[..16]);
    HexDecodes(KeyId(c, pub), c.sha1(pub)[..16]);
    HexIsLower(c.sha1(pub)[..16]);
  }

  lemma {:induction false} HexIsLower(b: bytes)
    ensures forall k :: 0 <= k < 2 * |b| ==> !('A' <= HexEncode(b)[k] <= 'F')
  {
    if b != [] {
      HexIsLower(b[1..]);
    }
  }
}
