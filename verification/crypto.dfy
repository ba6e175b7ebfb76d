/** The opaque row-id codec of graff/crypto.py: a 32-bit row id becomes a
    22-character URL-safe token (Triple-DES in CBC mode over the packed id and
    a SHA-1 integrity tag, behind a content-derived IV) and back, with no
    lookup table. */
module Crypto {
  import opened Wrappers
  import opened Strings
  import Base64

  const HashSize: nat := 8
  const IvSize: nat := 8
  const Base64BlockSize: nat := 8
  const HalfHashSize: nat := 4

  /** Ids are packed as unsigned 32-bit integers. */
  const IdLimit: nat := 0x1_0000_0000

  /** The SHA-1 digest and Triple-DES in CBC mode (key, IV, data), which the
      codec calls but does not define. */
  datatype Primitives = Primitives(
    sha1: Bytes -> Bytes,
    des3CbcEncrypt: (Bytes, Bytes, Bytes) -> Bytes,
    des3CbcDecrypt: (Bytes, Bytes, Bytes) -> Bytes)

  /** What the codec relies on from its primitives: a SHA-1 digest has 20
      bytes; for an 8-byte IV and block-aligned data, CBC encryption and
      decryption keep the length, and decryption under the same key and IV
      undoes encryption. */
  ghost predicate Sound(p: Primitives)
  {
    && (forall m :: |p.sha1(m)| == 20)
    && (forall key, iv, data :: |iv| == IvSize && |data| % 8 == 0 ==> |p.des3CbcEncrypt(key, iv, data)| == |data|)
    && (forall key, iv, data :: |iv| == IvSize && |data| % 8 == 0 ==> |p.des3CbcDecrypt(key, iv, data)| == |data|)
    && (forall key, iv, data :: |iv| == IvSize && |data| % 8 == 0 ==>
          p.des3CbcDecrypt(key, iv, p.des3CbcEncrypt(key, iv, data)) == data)
  }

  // ---------------------------------------------------------------- keys

  /** The placeholder secret used when none is configured. */
  const DefaultSecret: string := "????????????????"

  /** A Python 2 `str` of single-byte characters, as the bytes it holds. */
  function StrBytes(s: string): (b: Bytes)
    requires forall i :: 0 <= i < |s| ==> s[i] as int < 256
    ensures |b| == |s| && forall i :: 0 <= i < |s| ==> b[i] == s[i] as int
  {
    if s == [] then [] else StrBytes(s[..|s| - 1]) + [s[|s| - 1] as int]
  }

  /** The placeholder secret as the key bytes it is used as. */
  const DefaultKey: Bytes := StrBytes(DefaultSecret)

  datatype KeyError = OddLengthString | NonHexadecimalDigit

  function HexDigitValue(c: char): Option<int>
  {
    if '0' <= c <= '9' then Some(c as int - '0' as int)
    else if 'a' <= c <= 'f' then Some(c as int - 'a' as int + 10)
    else if 'A' <= c <= 'F' then Some(c as int - 'A' as int + 10)
    else None
  }

  predicate IsHexDigit(c: char)
  {
    HexDigitValue(c).Some?
  }

  /** `s.decode('hex')`: an odd length is refused first, then any character
      that is not a hexadecimal digit; otherwise each pair of digits gives one byte. */
  function Unhexlify(s: string): (r: Result<Bytes, KeyError>)
    ensures r == Err(OddLengthString) <==> |s| % 2 == 1
    ensures r.Ok? <==> |s| % 2 == 0 && forall i :: 0 <= i < |s| ==> IsHexDigit(s[i])
    ensures r.Ok? ==> |r.value| * 2 == |s|
    decreases |s|
  {
    if |s| % 2 == 1 then Err(OddLengthString)
    else if s == [] then Ok([])
    else
      var hi, lo := HexDigitValue(s[0]), HexDigitValue(s[1]);
      if hi.None? || lo.None? then Err(NonHexadecimalDigit)
      else
        match Unhexlify(s[2..])
        case Err(e) => Err(e)
        case Ok(rest) => Ok([hi.value * 16 + lo.value] + rest)
  }

  function HexDigit(v: int): char
    requires 0 <= v < 16
  {
    if v < 10 then ('0' as int + v) as char else ('a' as int + v - 10) as char
  }

  /** The lower-case hexadecimal spelling of a byte string, two digits per byte. */
  function Hexlify(b: Bytes): string
  {
    if b == [] then [] else [HexDigit(b[0] / 16), HexDigit(b[0] % 16)] + Hexlify(b[1..])
  }

  /** Hex-decoding undoes hex-encoding. */
  lemma {:induction false} UnhexlifyHexlify(b: Bytes)
    ensures Unhexlify(Hexlify(b)) == Ok(b)
    decreases |b|
  {
    if b != [] {
      var s := Hexlify(b);
      assert s[2..] == Hexlify(b[1..]);
      UnhexlifyHexlify(b[1..]);
      assert b == [b[0]] + b[1..];
    }
  }

  lemma HexDigitOfValue(c: char)
    requires IsHexDigit(c)
    ensures HexDigit(HexDigitValue(c).value) == LowerChar(c)
  {
  }

  lemma HexlifyStep(b: Bytes, hi: int, lo: int)
    requires b != [] && 0 <= hi < 16 && 0 <= lo < 16 && b[0] == hi * 16 + lo
    ensures Hexlify(b) == [HexDigit(hi), HexDigit(lo)] + Hexlify(b[1..])
  {
  }

  /** Hex-encoding a decoded key gives back its spelling, in lower case. */
  lemma {:induction false} HexlifyUnhexlify(s: string)
    requires Unhexlify(s).Ok?
    ensures Hexlify(Unhexlify(s).value) == LowerAscii(s)
    decreases |s|
  {
    if s != [] {
      var r := Unhexlify(s).value;
      var hi, lo := HexDigitValue(s[0]).value, HexDigitValue(s[1]).value;
      assert r == [hi * 16 + lo] + Unhexlify(s[2..]).value;
      HexlifyUnhexlify(s[2..]);
      HexlifyStep(r, hi, lo);
      HexDigitOfValue(s[0]);
      HexDigitOfValue(s[1]);
      assert r[1..] == Unhexlify(s[2..]).value;
      assert LowerAscii(s) == [LowerChar(s[0]), LowerChar(s[1])] + LowerAscii(s[2..]);
    }
  }

  /** The codec's key: the placeholder when no secret is configured (or the
      configured value is the placeholder itself), the hex-decoded secret otherwise. */
  function SelectKey(configured: Option<string>): (r: Result<Bytes, KeyError>)
    ensures (configured.None? || configured == Some(DefaultSecret)) ==> r == Ok(DefaultKey) && |r.value| == 16
    ensures configured.Some? && configured.value != DefaultSecret ==>
      (r.Ok? <==> |configured.value| % 2 == 0 && forall i :: 0 <= i < |configured.value| ==> IsHexDigit(configured.value[i]))
    ensures configured.Some? && configured.value != DefaultSecret && r.Ok? ==> |r.value| * 2 == |configured.value|
    ensures configured.Some? && configured.value != DefaultSecret ==> r == Unhexlify(configured.value)
  {
    var secret := if configured.Some? then configured.value else DefaultSecret;
    if secret != DefaultSecret then Unhexlify(secret) else Ok(DefaultKey)
  }

  // ------------------------------------------------- the base64 variant

  /** `norm_b64`: trailing '=' and newlines dropped, then '+' written '_' and '/' written '-'. */
  function NormB64(s: string): (r: string)
    ensures |r| <= |s|
    ensures forall i :: 0 <= i < |r| ==> r[i] != '+' && r[i] != '/'
    ensures r == [] || (r[|r| - 1] != '=' && r[|r| - 1] != '\n')
  {
    var stripped := RStrip(s, {'=', '\n'});
    var plusReplaced := Replace(stripped, '+', '_');
    Replace(plusReplaced, '/', '-')
  }

  /** The '=' characters `unnorm_b64` appends to a string of length n. */
  function Repad(n: nat): (r: string)
    ensures 1 <= |r| <= Base64BlockSize && (n + |r|) % Base64BlockSize == 0
    ensures forall i :: 0 <= i < |r| ==> r[i] == '='
  {
    seq(Base64BlockSize - n % Base64BlockSize, _ => '=')
  }

  /** The character `unnorm_b64` writes for c. */
  function UnnormChar(c: char): char
  {
    if c == '_' then '+' else if c == '-' then '/' else c
  }

  /** `unnorm_b64`: '_' written '+' and '-' written '/', then padded with '='
      up to the next multiple of 8 characters (a whole block of 8 when the
      length already is a multiple of 8). */
  function UnnormB64(s: string): (r: string)
    ensures |s| < |r| <= |s| + Base64BlockSize && |r| % Base64BlockSize == 0
    ensures forall i :: 0 <= i < |s| ==> r[i] == UnnormChar(s[i])
    ensures r[|s|..] == Repad(|s|)
  {
    var underscoreReplaced := Replace(s, '_', '+');
    var dashReplaced := Replace(underscoreReplaced, '-', '/');
    dashReplaced + Repad(|dashReplaced|)
  }

  /** On a string of the standard alphabet (no '_' or '-'), `unnorm_b64` after
      `norm_b64` restores the string without its trailing '=' and newlines,
      re-padded with '=' to a multiple of 8. */
  lemma UnnormNorm(s: string)
    requires forall i :: 0 <= i < |s| ==> s[i] != '_' && s[i] != '-'
    ensures var t := RStrip(s, {'=', '\n'}); UnnormB64(NormB64(s)) == t + Repad(|t|)
  {
    var t := RStrip(s, {'=', '\n'});
    var n := NormB64(s);
    var back := Replace(Replace(n, '_', '+'), '-', '/');
    assert back == t by {
      forall i | 0 <= i < |t|
        ensures back[i] == t[i]
      {
        assert t[i] == s[i];
      }
    }
  }

  // ------------------------------------------------------------ packing

  datatype EncodeError = IntegerOutOfRange

  /** `struct.pack('=I', n)`, with the native byte order fixed to little-endian. */
  function PackU32(n: int): (r: Result<Bytes, EncodeError>)
    ensures r.Ok? <==> 0 <= n < IdLimit
    ensures r.Ok? ==> |r.value| == 4 && UnpackU32(r.value) == n
  {
    if 0 <= n < IdLimit then
      var m1 := n / 256;
      var m2 := m1 / 256;
      Ok([n % 256, m1 % 256, m2 % 256, m2 / 256])
    else Err(IntegerOutOfRange)
  }

  /** `struct.unpack('=I', b)[0]`, little-endian. */
  function UnpackU32(b: Bytes): (n: int)
    requires |b| == 4
    ensures 0 <= n < IdLimit
  {
    b[0] as int + 256 * (b[1] as int + 256 * (b[2] as int + 256 * b[3] as int))
  }

  lemma SplitByte(low: Byte, high: int)
    requires 0 <= high
    ensures (low + 256 * high) % 256 == low && (low + 256 * high) / 256 == high
  {
  }

  /** Packing is onto: every 4-byte string is the packing of its unpacked value. */
  lemma PackUnpack(b: Bytes)
    requires |b| == 4
    ensures PackU32(UnpackU32(b)) == Ok(b)
  {
    var m2: int := b[2] as int + 256 * b[3] as int;
    var m1: int := b[1] as int + 256 * m2;
    SplitByte(b[0], m1);
    SplitByte(b[1], m2);
    SplitByte(b[2], b[3]);
    assert b == [b[0], b[1], b[2], b[3]];
  }

  // ------------------------------------------------------ encid / decid

  /** The IV: the first 8 bytes of SHA-1 over the packed id followed by the key. */
  function DerivedIv(buf: Bytes, key: Bytes, p: Primitives): (iv: Bytes)
    ensures Sound(p) ==> |iv| == IvSize && StartsWith(p.sha1(buf + key), iv)
  {
    Take(p.sha1(buf + key), IvSize)
  }

  /** The integrity tag: the first 4 bytes of SHA-1 over the packed id. */
  function IntegrityTag(buf: Bytes, p: Primitives): (tag: Bytes)
    ensures Sound(p) ==> |tag| == HalfHashSize && StartsWith(p.sha1(buf), tag)
  {
    Take(p.sha1(buf), HalfHashSize)
  }

  /** `crypter.IV + crypter.encrypt(buf + buffer_hash)`: the IV followed by
      the one-block ciphertext of the packed id and its tag. */
  function EncryptBuffer(buf: Bytes, key: Bytes, p: Primitives): (raw: Bytes)
    ensures Sound(p) && |buf| == 4 ==>
      && |raw| == 16
      && raw[..IvSize] == DerivedIv(buf, key, p)
      && p.des3CbcDecrypt(key, raw[..IvSize], raw[IvSize..]) == buf + IntegrityTag(buf, p)
  {
    var iv := DerivedIv(buf, key, p);
    iv + p.des3CbcEncrypt(key, iv, buf + IntegrityTag(buf, p))
  }

  /** `encid`: fails (struct.error) exactly when the id does not fit 32 bits. */
  function Encid(num: int, key: Bytes, p: Primitives): (r: Result<string, EncodeError>)
    ensures r.Ok? <==> 0 <= num < IdLimit
  {
    match PackU32(num)
    case Err(e) => Err(e)
    case Ok(buf) => Ok(NormB64(Base64.EncodeString(EncryptBuffer(buf, key, p))))
  }

  datatype DecodeError =
    | MalformedBase64      // binascii.Error from decodestring
    | BadIvLength          // ValueError from DES3.new: fewer than 8 bytes for the IV
    | BadCiphertextLength  // ValueError from decrypt: not a whole number of blocks
    | HashMismatch         // ValueError raised by decid itself
    | ShortPlaintext       // struct.error from unpack

  /** The decrypted payload of a token: decoded, split into IV and ciphertext,
      and decrypted, or the error raised on the way. */
  function Payload(token: string, key: Bytes, p: Primitives): (r: Result<Bytes, DecodeError>)
    ensures r.Err? ==> r.error == MalformedBase64 || r.error == BadIvLength || r.error == BadCiphertextLength
    ensures Sound(p) && r.Ok? ==>
      && Base64.DecodeString(UnnormB64(token)).Some?
      && |r.value| % 8 == 0
      && |r.value| + IvSize == |Base64.DecodeString(UnnormB64(token)).value|
  {
    Decrypted(Base64.DecodeString(UnnormB64(token)), key, p)
  }

  /** The decoded bytes split into IV and ciphertext and decrypted. */
  function Decrypted(decoded: Option<Bytes>, key: Bytes, p: Primitives): (r: Result<Bytes, DecodeError>)
    ensures r == Err(MalformedBase64) <==> decoded.None?
    ensures r == Err(BadIvLength) <==> decoded.Some? && |decoded.value| < IvSize
    ensures r == Err(BadCiphertextLength) <==>
      decoded.Some? && |decoded.value| >= IvSize && (|decoded.value| - IvSize) % 8 != 0
    ensures r.Ok? <==> decoded.Some? && |decoded.value| >= IvSize && (|decoded.value| - IvSize) % 8 == 0
    ensures r.Ok? ==> r.value == p.des3CbcDecrypt(key, decoded.value[..IvSize], decoded.value[IvSize..])
    ensures Sound(p) && r.Ok? ==> |r.value| == |decoded.value| - IvSize
  {
    match decoded
    case None => Err(MalformedBase64)
    case Some(raw) =>
      if |raw| < IvSize then Err(BadIvLength)
      else if (|raw| - IvSize) % 8 != 0 then Err(BadCiphertextLength)
      else Ok(p.des3CbcDecrypt(key, raw[..IvSize], raw[IvSize..]))
  }

  /** The integrity check: the last 4 bytes equal the first 4 bytes of SHA-1
      over everything before them. */
  predicate TagMatches(plaintext: Bytes, p: Primitives): (r: bool)
    ensures r && Sound(p) ==> |plaintext| >= HalfHashSize
  {
    Take(p.sha1(DropLast(plaintext, HalfHashSize)), HalfHashSize) == TakeLast(plaintext, HalfHashSize)
  }

  /** `decid`: the id in the first 4 bytes of the payload, when the payload
      passes the integrity check. */
  function Decid(token: string, key: Bytes, p: Primitives): (r: Result<int, DecodeError>)
    ensures Payload(token, key, p).Err? ==> r == Err(Payload(token, key, p).error)
    ensures r == Err(HashMismatch) <==> Payload(token, key, p).Ok? && !TagMatches(Payload(token, key, p).value, p)
    ensures r == Err(ShortPlaintext) <==>
      Payload(token, key, p).Ok? && TagMatches(Payload(token, key, p).value, p) && |Payload(token, key, p).value| < HalfHashSize
    ensures Sound(p) ==> r != Err(ShortPlaintext)
    ensures r.Ok? <==>
      Payload(token, key, p).Ok? && TagMatches(Payload(token, key, p).value, p) && |Payload(token, key, p).value| >= HalfHashSize
    ensures r.Ok? ==> Payload(token, key, p).Ok? && TagMatches(Payload(token, key, p).value, p)
    ensures r.Ok? ==>
      && |Payload(token, key, p).value| >= HalfHashSize
      && r.value == UnpackU32(Payload(token, key, p).value[..HalfHashSize])
      && 0 <= r.value < IdLimit
  {
    match Payload(token, key, p)
    case Err(e) => Err(e)
    case Ok(plaintext) =>
      if !TagMatches(plaintext, p) then Err(HashMismatch)
      else if |plaintext| < HalfHashSize then Err(ShortPlaintext)
      else Ok(UnpackU32(plaintext[..HalfHashSize]))
  }

  // ------------------------------------------------- properties of tokens

  /** The characters a token is written in: letters, digits, '_' and '-'. */
  predicate IsTokenChar(c: char)
  {
    ('A' <= c <= 'Z') || ('a' <= c <= 'z') || ('0' <= c <= '9') || c == '_' || c == '-'
  }

  /** `norm_b64(encodestring(raw))` for one line of input: the unpadded
      base64 characters with '+' and '/' swapped for '_' and '-'. */
  lemma NormEncodeString(raw: Bytes)
    requires 0 < |raw| <= 57
    ensures NormB64(Base64.EncodeString(raw)) == Replace(Replace(Base64.EncodeBody(raw), '+', '_'), '/', '-')
  {
    StripEncodeString(raw);
  }

  lemma StripEncodeString(raw: Bytes)
    requires 0 < |raw| <= 57
    ensures RStrip(Base64.EncodeString(raw), {'=', '\n'}) == Base64.EncodeBody(raw)
  {
    EncodeStringOneLine(raw);
    StripLine(Base64.EncodeBody(raw), Base64.Padding(|raw|) + "\n");
  }

  /** A line of base64 characters followed by padding and a newline strips back to the characters. */
  lemma StripLine(body: string, tail: string)
    requires body != [] && Base64.IsAlphabetChar(body[|body| - 1])
    requires forall i :: 0 <= i < |tail| ==> tail[i] in {'=', '\n'}
    ensures RStrip(body + tail, {'=', '\n'}) == body
  {
    RStripPadding(body, tail, {'=', '\n'});
  }

  lemma EncodeStringOneLine(raw: Bytes)
    requires 0 < |raw| <= 57
    ensures Base64.EncodeString(raw) == Base64.EncodeBody(raw) + (Base64.Padding(|raw|) + "\n")
    ensures Base64.EncodeBody(raw) != [] && Base64.IsAlphabetChar(Base64.EncodeBody(raw)[|Base64.EncodeBody(raw)| - 1])
    ensures forall i :: 0 <= i < |Base64.Padding(|raw|) + "\n"| ==> (Base64.Padding(|raw|) + "\n")[i] in {'=', '\n'}
  {
  }

  /** The raw cipher buffer of 16 bytes survives `norm_b64`, `unnorm_b64` and
      the base64 round trip. */
  lemma DecodeNormalizedBuffer(raw: Bytes)
    requires |raw| == 16
    ensures Base64.DecodeString(UnnormB64(NormB64(Base64.EncodeString(raw)))) == Some(raw)
  {
    NormalizedBufferText(raw);
    DecodeBufferBody(raw);
  }

  /** The 22 unpadded characters of a 16-byte buffer, with "==", decode back. */
  lemma DecodeBufferBody(raw: Bytes)
    requires |raw| == 16
    ensures Base64.DecodeString(Base64.EncodeBody(raw) + "==") == Some(raw)
  {
    var body := Base64.EncodeBody(raw);
    assert |body| == 22;
    Base64.DecodeAlphabetPadded(body, "==");
    Base64.DecodeEncodeBody(raw);
  }

  /** What `unnorm_b64(norm_b64(...))` hands to `decodestring` for a 16-byte
      buffer: its 22 unpadded base64 characters and "==". */
  lemma NormalizedBufferText(raw: Bytes)
    requires |raw| == 16
    ensures UnnormB64(NormB64(Base64.EncodeString(raw))) == Base64.EncodeBody(raw) + "=="
  {
    var body := Base64.EncodeBody(raw);
    var line := Base64.EncodeString(raw);
    StripEncodeString(raw);
    NoVariantChars(line);
    UnnormNorm(line);
    assert |body| == 22;
    TokenRepad();
  }

  /** Standard base64 text holds neither of the variant's characters '_' and '-'. */
  lemma NoVariantChars(line: string)
    requires forall i :: 0 <= i < |line| ==> Base64.IsAlphabetChar(line[i]) || line[i] == '=' || line[i] == '\n'
    ensures forall i :: 0 <= i < |line| ==> line[i] != '_' && line[i] != '-'
  {
  }

  /** A 22-character token is re-padded with "==". */
  lemma TokenRepad()
    ensures Repad(22) == "=="
  {
    var r := Repad(22);
    assert |r| == 2;
  }

  /** Every token `encid` produces has 22 URL-safe characters. */
  lemma EncidTokenShape(num: int, key: Bytes, p: Primitives)
    requires Sound(p) && 0 <= num < IdLimit
    ensures |Encid(num, key, p).value| == 22
    ensures forall i :: 0 <= i < 22 ==> IsTokenChar(Encid(num, key, p).value[i])
  {
    var raw := EncryptBuffer(PackU32(num).value, key, p);
    NormEncodeString(raw);
    var body := Base64.EncodeBody(raw);
    var token := Encid(num, key, p).value;
    forall i | 0 <= i < 22
      ensures IsTokenChar(token[i])
    {
      assert Base64.IsAlphabetChar(body[i]);
    }
  }

  /** The token decodes to the IV followed by the ciphertext; the IV is the one
      derived from the packed id and the key, so equal ids under equal keys give
      equal tokens. */
  lemma TokenDecodesToCipherBuffer(num: int, key: Bytes, p: Primitives)
    requires Sound(p) && 0 <= num < IdLimit
    ensures Base64.DecodeString(UnnormB64(Encid(num, key, p).value)) == Some(EncryptBuffer(PackU32(num).value, key, p))
    ensures EncryptBuffer(PackU32(num).value, key, p)[..IvSize] == DerivedIv(PackU32(num).value, key, p)
  {
    DecodeNormalizedBuffer(EncryptBuffer(PackU32(num).value, key, p));
  }

  /** The payload of a token `encid` produced is the packed id followed by its tag. */
  lemma TokenPayload(num: int, key: Bytes, p: Primitives)
    requires Sound(p) && 0 <= num < IdLimit
    ensures Payload(Encid(num, key, p).value, key, p) == Ok(PackU32(num).value + IntegrityTag(PackU32(num).value, p))
  {
    DecodeNormalizedBuffer(EncryptBuffer(PackU32(num).value, key, p));
  }

  /** A packed id followed by its own tag passes the integrity check. */
  lemma TaggedBufferMatches(buf: Bytes, p: Primitives)
    requires Sound(p) && |buf| == 4
    ensures TagMatches(buf + IntegrityTag(buf, p), p)
  {
    var plaintext := buf + IntegrityTag(buf, p);
    assert DropLast(plaintext, HalfHashSize) == buf;
    assert TakeLast(plaintext, HalfHashSize) == IntegrityTag(buf, p);
  }

  /** Round trip: `decid(encid(num, key), key) == num` for every 32-bit id. */
  lemma EncidDecidRoundTrip(num: int, key: Bytes, p: Primitives)
    requires Sound(p) && 0 <= num < IdLimit
    ensures Decid(Encid(num, key, p).value, key, p) == Ok(num)
  {
    var buf := PackU32(num).value;
    var plaintext := buf + IntegrityTag(buf, p);
    TokenPayload(num, key, p);
    TaggedBufferMatches(buf, p);
    assert plaintext[..HalfHashSize] == buf;
  }

  /** A token is its cipher buffer's unpadded base64 characters, each of
      which `unnorm_b64` restores. */
  lemma TokenIsSwappedBody(num: int, key: Bytes, p: Primitives)
    requires Sound(p) && 0 <= num < IdLimit
    ensures var body := Base64.EncodeBody(EncryptBuffer(PackU32(num).value, key, p));
      var token := Encid(num, key, p).value;
      |body| == |token| == 22 && forall i :: 0 <= i < 22 ==> UnnormChar(token[i]) == body[i]
  {
    var raw := EncryptBuffer(PackU32(num).value, key, p);
    var body := Base64.EncodeBody(raw);
    NormEncodeString(raw);
    var token := Encid(num, key, p).value;
    forall i | 0 <= i < 22
      ensures UnnormChar(token[i]) == body[i]
    {
      assert Base64.IsAlphabetChar(body[i]);
    }
  }

  /** `decid` looks at a token only through its decoded bytes. */
  lemma SameBytesSameId(token: string, other: string, key: Bytes, p: Primitives)
    requires Base64.DecodeString(UnnormB64(token)) == Base64.DecodeString(UnnormB64(other))
    ensures Decid(token, key, p) == Decid(other, key, p)
  {
    assert Payload(token, key, p) == Payload(other, key, p);
  }

  /** Appending any number of '=' to a token still decodes to the same id:
      `decodestring` ignores the extra padding. */
  lemma PaddedTokenAccepted(num: int, key: Bytes, p: Primitives, pad: string)
    requires Sound(p) && 0 <= num < IdLimit
    requires forall i :: 0 <= i < |pad| ==> pad[i] == '='
    ensures Decid(Encid(num, key, p).value + pad, key, p) == Ok(num)
  {
    var raw := EncryptBuffer(PackU32(num).value, key, p);
    var body := Base64.EncodeBody(raw);
    var token := Encid(num, key, p).value;
    TokenIsSwappedBody(num, key, p);
    var padded := token + pad;
    var fill := pad + Repad(|padded|);
    assert UnnormB64(padded) == body + fill by {
      var u := UnnormB64(padded);
      assert u[|padded|..] == Repad(|padded|);
      forall i | 0 <= i < |u|
        ensures u[i] == (body + fill)[i]
      {
        if i < 22 {
          assert padded[i] == token[i];
        } else if i < |padded| {
          assert padded[i] == pad[i - 22];
        } else {
          assert u[i] == Repad(|padded|)[i - |padded|];
        }
      }
    }
    assert |fill| >= 2;
    Base64.DecodeAlphabetPadded(body, fill);
    Base64.DecodeEncodeBody(raw);
    DecodeNormalizedBuffer(raw);
    SameBytesSameId(padded, token, key, p);
    EncidDecidRoundTrip(num, key, p);
  }

  /** Anything written after a token and "==" is ignored: binascii takes the
      pad sequence closing the token's last group as the end of its input. */
  lemma TrailingTextAccepted(num: int, key: Bytes, p: Primitives, rest: string)
    requires Sound(p) && 0 <= num < IdLimit
    ensures Decid(Encid(num, key, p).value + "==" + rest, key, p) == Ok(num)
  {
    var raw := EncryptBuffer(PackU32(num).value, key, p);
    var body := Base64.EncodeBody(raw);
    var token := Encid(num, key, p).value;
    var longer := token + "==" + rest;
    var u := UnnormB64(longer);
    TokenIsSwappedBody(num, key, p);
    UnnormPadSequence(token, body, rest);
    Base64.DecodeStopsAtPadSequence(body, u[24..]);
    DecodeNormalizedBuffer(raw);
    Base64.DecodeAlphabetPadded(body, "==");
    SameBytesSameId(longer, token, key, p);
    EncidDecidRoundTrip(num, key, p);
  }

  /** `unnorm_b64` of a token, "==" and more text, in terms of the base64 characters of the token. */
  lemma UnnormPadSequence(token: string, body: string, rest: string)
    requires |token| == |body| == 22
    requires forall i :: 0 <= i < 22 ==> UnnormChar(token[i]) == body[i]
    ensures UnnormB64(token + "==" + rest) == body + "==" + UnnormB64(token + "==" + rest)[24..]
    ensures UnnormB64(token) == body + "=="
  {
    var longer := token + "==" + rest;
    var u := UnnormB64(longer);
    forall i | 0 <= i < 24
      ensures u[i] == (body + "==")[i]
    {
      assert longer[i] == (token + "==")[i];
    }
    assert u == u[..24] + u[24..];
    var v := UnnormB64(token);
    assert v[22..] == Repad(22) == "==";
    assert v == v[..22] + v[22..];
  }

  /** The top two bits of the 6-bit value a token character stands for
      (-1 for a character outside the token alphabet). */
  function TopBits(c: char): int
  {
    match Base64.SextetOf(UnnormChar(c))
    case Some(v) => v / 16
    case None => -1
  }

  /** `unnorm_b64` of a 22-character token, and of the token with its last
      character replaced, in terms of the base64 characters it restores. */
  lemma UnnormLastReplaced(token: string, body: string, d: char)
    requires |token| == |body| == 22
    requires forall i :: 0 <= i < 22 ==> UnnormChar(token[i]) == body[i]
    ensures UnnormB64(token) == body + "=="
    ensures UnnormB64(token[..21] + [d]) == body[..21] + [UnnormChar(d)] + "=="
  {
    var u := UnnormB64(token);
    assert u[22..] == Repad(22) == "==";
    assert forall i :: 0 <= i < 22 ==> u[i] == body[i];
    var changed := token[..21] + [d];
    var v := UnnormB64(changed);
    assert v[22..] == Repad(22) == "==";
    forall i | 0 <= i < 22
      ensures v[i] == (body[..21] + [UnnormChar(d)])[i]
    {
      assert changed[i] == if i < 21 then token[i] else d;
    }
  }

  /** Two padded 22-character base64 strings that differ only in the low bits
      of their last character decode to the same bytes. */
  lemma LastCharSwapDecodes(body: string, e: char)
    requires |body| == 22 && forall i :: 0 <= i < 22 ==> Base64.IsAlphabetChar(body[i])
    requires Base64.IsAlphabetChar(e) && Base64.IsAlphabetChar(body[21])
    requires Base64.SextetOf(e).value / 16 == Base64.SextetOf(body[21]).value / 16
    ensures Base64.DecodeString(body[..21] + [e] + "==") == Base64.DecodeString(body + "==")
  {
    var lead := body[..21];
    var swapped := lead + [e];
    assert Base64.DecodeString(swapped + "==") == Base64.DecodeBody(swapped) by {
      assert forall i :: 0 <= i < |swapped| ==> Base64.IsAlphabetChar(swapped[i]);
      Base64.DecodeAlphabetPadded(swapped, "==");
    }
    assert Base64.DecodeString(body + "==") == Base64.DecodeBody(body) by {
      Base64.DecodeAlphabetPadded(body, "==");
    }
    assert Base64.DecodeBody(swapped) == Base64.DecodeBody(body) by {
      Base64.LastCharLowBitsIgnored(lead, e, body[21]);
      assert lead + [body[21]] == body;
    }
  }

  /** The last character of a token carries only two bits of the cipher
      buffer: replacing it by any character with the same top bits yields
      a token that decodes to the same id. */
  lemma TokenLastCharLowBitsIgnored(num: int, key: Bytes, p: Primitives, d: char)
    requires Sound(p) && 0 <= num < IdLimit
    requires IsTokenChar(d)
    ensures var token := Encid(num, key, p).value;
      |token| == 22 && (TopBits(d) == TopBits(token[21]) ==> Decid(token[..21] + [d], key, p) == Ok(num))
  {
    var raw := EncryptBuffer(PackU32(num).value, key, p);
    var body := Base64.EncodeBody(raw);
    var token := Encid(num, key, p).value;
    TokenIsSwappedBody(num, key, p);
    if TopBits(d) == TopBits(token[21]) {
      UnnormLastReplaced(token, body, d);
      LastCharSwapDecodes(body, UnnormChar(d));
      SameBytesSameId(token[..21] + [d], token, key, p);
      EncidDecidRoundTrip(num, key, p);
    }
  }

  /** Unpadded base64 text that decodes to at least 16 bytes in whole 8-byte
      blocks has 22 characters or at least 32. */
  lemma DecodedLengthAligned(stripped: string)
    requires Base64.DecodeBody(stripped).Some?
    requires |Base64.DecodeBody(stripped).value| >= 16 && |Base64.DecodeBody(stripped).value| % 8 == 0
    ensures |stripped| == 22 || |stripped| >= 32
  {
    var n := |stripped|;
    var q := n / 4;
    var r := n % 4;
    assert n == 4 * q + r;
    assert |Base64.DecodeBody(stripped).value| == 3 * q + (if r == 0 then 0 else r - 1);
  }

  /** A string `decid` accepts decodes to at least two whole 8-byte blocks:
      the IV and a ciphertext long enough to hold the tag. */
  lemma AcceptedBufferLength(token: string, key: Bytes, p: Primitives)
    requires Sound(p) && Decid(token, key, p).Ok?
    ensures Base64.DecodeString(UnnormB64(token)).Some?
    ensures var raw := Base64.DecodeString(UnnormB64(token)).value; |raw| >= 16 && |raw| % 8 == 0
  {
    var decoded := Base64.DecodeString(UnnormB64(token));
    assert Payload(token, key, p) == Decrypted(decoded, key, p);
    CheckedBufferLength(decoded, key, p);
  }

  lemma CheckedBufferLength(decoded: Option<Bytes>, key: Bytes, p: Primitives)
    requires Sound(p) && Decrypted(decoded, key, p).Ok? && TagMatches(Decrypted(decoded, key, p).value, p)
    ensures decoded.Some? && |decoded.value| >= 16 && |decoded.value| % 8 == 0
  {
    var raw := decoded.value;
    var plaintext := p.des3CbcDecrypt(key, raw[..IvSize], raw[IvSize..]);
    assert |plaintext| == |raw| - IvSize;
    assert |Take(p.sha1(DropLast(plaintext, HalfHashSize)), HalfHashSize)| == HalfHashSize;
  }

  /** A string of token characters that `decid` accepts has exactly 22
      characters (one block after the IV) or at least 32 (two blocks or more). */
  lemma AcceptedTokenLength(token: string, key: Bytes, p: Primitives)
    requires Sound(p) && Decid(token, key, p).Ok?
    requires forall i :: 0 <= i < |token| ==> IsTokenChar(token[i])
    ensures |token| == 22 || |token| >= 32
  {
    UnnormTokenChars(token);
    var swapped := UnnormB64(token)[..|token|];
    Base64.DecodeAlphabetPadded(swapped, Repad(|token|));
    AcceptedBufferLength(token, key, p);
    DecodedLengthAligned(swapped);
  }

  /** `unnorm_b64` of token characters is base64 alphabet characters followed by '='. */
  lemma UnnormTokenChars(token: string)
    requires forall i :: 0 <= i < |token| ==> IsTokenChar(token[i])
    ensures UnnormB64(token) == UnnormB64(token)[..|token|] + Repad(|token|)
    ensures forall i :: 0 <= i < |token| ==> Base64.IsAlphabetChar(UnnormB64(token)[i])
  {
    var u := UnnormB64(token);
    assert u == u[..|token|] + u[|token|..];
    forall i | 0 <= i < |token|
      ensures Base64.IsAlphabetChar(u[i])
    {
      assert u[i] == UnnormChar(token[i]);
    }
  }

  /** A proper prefix of a token is rejected. */
  lemma TruncatedTokenRejected(num: int, key: Bytes, p: Primitives, k: nat)
    requires Sound(p) && 0 <= num < IdLimit && k < 22
    ensures var token := Encid(num, key, p).value; |token| == 22 && Decid(token[..k], key, p).Err?
  {
    EncidTokenShape(num, key, p);
    var prefix := Encid(num, key, p).value[..k];
    if Decid(prefix, key, p).Ok? {
      AcceptedTokenLength(prefix, key, p);
      assert false;
    }
  }

  /** A token followed by 1 to 9 more token characters is rejected. */
  lemma ExtendedTokenRejected(num: int, key: Bytes, p: Primitives, extra: string)
    requires Sound(p) && 0 <= num < IdLimit
    requires 0 < |extra| < 10 && forall i :: 0 <= i < |extra| ==> IsTokenChar(extra[i])
    ensures Decid(Encid(num, key, p).value + extra, key, p).Err?
  {
    EncidTokenShape(num, key, p);
    var longer := Encid(num, key, p).value + extra;
    if Decid(longer, key, p).Ok? {
      AcceptedTokenLength(longer, key, p);
      assert false;
    }
  }
}
