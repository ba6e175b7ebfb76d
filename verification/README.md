# graff: the opaque row-id codec and its neighbours, in Dafny

graff is a small photo-sharing web application (Python 2, Tornado,
SQLAlchemy). Its one piece of algorithmic content is the codec in
`graff/crypto.py`. The codec turns a database row id into a short URL-safe
token and back, with no lookup table:

- the id is packed into 4 bytes;
- the IV is derived from SHA-1 over the packed id and the key;
- the packed id and a 4-byte SHA-1 tag form one Triple-DES block, encrypted in CBC mode;
- the IV and ciphertext are encoded in MIME base64;
- the encoding is written in a variant alphabet with the padding dropped.

`decid` reverses the steps and refuses a token whose tag does not match.

This project models that codec in full. It also models the logic around the
codec in `graff/handlers.py` and `graff/db.py`:

- the signup username checks;
- the mobile/desktop host redirect decided by a request handler;
- the cookies the handler sets on the way;
- the timestamp suffix of secure cookies;
- the on-disk layout of uploaded photos;
- the display size of a photo;
- the lookup of a row by its token.

Files:

- `wrappers.dfy`: `Option` and `Result`.
- `strings.dfy`: the Python 2 string built-ins the code relies on:
  - clamped slicing;
  - `rstrip`, single-character `replace` and ASCII `lower`.
- `base64.dfy`: `base64.encodestring` and `base64.decodestring` (binascii's scan of the input, then the decoding of the characters it keeps).
  - The alphabet and padding follow section 4 of RFC 4648.
  - Lines are 57 input bytes each, as in section 6.8 of RFC 2045.
- `crypto.dfy`:
  - the key selection;
  - `norm_b64` and `unnorm_b64`;
  - packing;
  - `encid` and `decid`;
  - the properties of tokens.
- `handlers.dfy`:
  - `RequestHandler`, a class: `initialize` is its constructor; it also has `prepare` and the cookie methods;
  - secure-cookie framing;
  - the name checks;
  - `construct_path`.
- `db.dfy`: `Photo.html_dimensions`, and `_Base.encid`/`from_encid` over a table held as a sequence.

Modelling choices:

- **Bytes and strings.** A Python 2 byte string is a sequence of `Byte` (0..255). Host names, tokens, user names and paths are Dafny strings.
- **SHA-1 and Triple-DES** are not defined here. They are fields of a `Crypto.Primitives` value. The ghost predicate `Crypto.Sound` states what the codec relies on:
  - a digest has 20 bytes;
  - CBC encryption and decryption keep the length of block-aligned data under an 8-byte IV;
  - decryption with the same key and IV undoes encryption.

  Every property that needs these facts requires `Sound(p)`.
- **Byte order.** The `'='` (native) byte order of `struct` is fixed to little-endian. It is then the same as the explicit `'<I'` of the cookie timestamp.
- **Failures.** Exceptions become `Result` errors. `decid` reports the first failure on its path:
  1. malformed base64;
  2. an IV shorter than 8 bytes;
  3. a ciphertext that is not whole blocks;
  4. a tag mismatch;
  5. a plaintext too short to unpack.
- **Things outside the code** become parameters:
  - `detect_mobile`'s answer;
  - the clock (`time.time()`);
  - `TEMPDIR`;
  - the configured secret;
  - `crypto.encrypt_string` and `crypto.decrypt_string`, which handlers.py calls but crypto.py does not define.

What the code does not do:

- **No length pre-check.** `decid` does not check the token length before decrypting.
  - A token followed by any number of `=` is still accepted (`Crypto.PaddedTokenAccepted`).
  - A token followed by "==" and any text at all is accepted too (`Crypto.TrailingTextAccepted`): binascii ends its input at that pad sequence.
  - The token length is bounded only as a consequence of decoding (`Crypto.AcceptedTokenLength`).
- **One width, one key.** There is no 64-bit variant and no per-entity key registry: one process-wide key is chosen at start-up.

How `decodestring` reads its input (binascii's `a2b_base64` in Python 2):

- Characters that are neither in the alphabet nor '=' are skipped.
- A '=' is skipped at the first or second character of a group of four.
- After two characters of a group, "==" (with only skipped characters between) ends the input.
- After three characters of a group, one '=' ends the input.
- If the input ends with characters of an unfinished group and no '=' ended it, the result is the "Incorrect padding" error.

Name checks and newlines:

- `NAME_RE` ends in `$`, which also matches before a final newline. So `"Anonymous\n"` passes every check (`Handlers.ReservedNameWithNewlineAccepted`).
- Tornado's `get_argument` strips surrounding whitespace from the argument by default, before this check runs. The model follows the validator as written.

## Model

| member | source | states |
|---|---|---|
| Strings.RStrip | graff/crypto.py:18 | `rstrip` keeps a prefix of the input. That prefix does not end in a stripped character, and every character dropped is one of the stripped set |
| Strings.RStripPadding | graff/crypto.py:18 | stripping a suffix of stripped characters from text that does not end in one gives the text back |
| Strings.Replace | graff/crypto.py:19-20 | `replace` of one character keeps the length and changes exactly the occurrences of that character |
| Strings.LowerAscii | graff/handlers.py:196 | `lower` keeps the length and maps each character through ASCII lower-casing |
| Base64.SextetOf | graff/crypto.py:36 | a character that decodes yields a 6-bit value, and that value encodes back to the same character |
| Base64.SextetOfCharOf | graff/crypto.py:33 | every 6-bit value decodes back from its character |
| Base64.EncodeBody | graff/crypto.py:33 | unpadded base64 has 4 characters per 3 bytes plus 2 or 3 for a remainder, all from the alphabet |
| Base64.Encode | graff/crypto.py:33 | padded base64 length is a multiple of 4, namely 4 per started group of 3 bytes, using alphabet characters and '=' only |
| Base64.EncodeString | graff/crypto.py:33 | `encodestring` uses alphabet, '=' and newline only, and ends in a newline. For at most 57 bytes it is one padded line plus "\n" |
| Base64.DecodeGroup | graff/crypto.py:36 | a group of 2 to 4 characters decodes exactly when all are in the alphabet, to one byte fewer than its characters |
| Base64.DecodeBody | graff/crypto.py:36 | unpadded text decodes exactly when all characters are in the alphabet and no single character is left over. Decoded length is 3 per 4 characters plus 1 or 2 for a remainder |
| Base64.DecodeString | graff/crypto.py:36 | `decodestring` fails only with "Incorrect padding": exactly when the scan was not ended by '=' and keeps a number of characters that is not a multiple of 4. Otherwise it decodes the characters the scan keeps |
| Base64.ScanKeeps | graff/crypto.py:36 | the contract of `Base64.Scan`, the character loop of binascii's `a2b_base64`: the scan keeps only alphabet characters, no more than the input has. When '=' ends the input, the group it ends has at least two characters |
| Base64.ScanAlphabet | graff/crypto.py:36 | alphabet characters at the head of the input are all kept, and the rest is scanned from the group position they leave |
| Base64.ScanPadding | graff/crypto.py:36 | a run of '=' keeps nothing. It ends the input exactly after two characters of a group with two '=' or more, or after three with one or more |
| Base64.DecodeAlphabetPadded | graff/crypto.py:36 | alphabet text followed by '=' decodes as the text alone. It fails exactly when the last group has two characters and fewer than two '=' follow, or three characters and no '=' |
| Base64.DecodeStopsAtPadSequence | graff/crypto.py:36 | after alphabet text whose last group has two characters, "==" ends the input: anything after it is ignored |
| Base64.EncodeBodyLength | graff/crypto.py:33 | unpadded base64 leaves 0, 2 or 3 characters in its last group, for 0, 1 or 2 bytes left over from whole groups of three |
| Base64.EncodeBodyAppend | graff/crypto.py:33 | encoding splits at any whole number of three-byte groups |
| Base64.ScanEncodeString | graff/crypto.py:33-36 | the scan of `encodestring` output keeps exactly the unpadded base64 of the whole input, across all its lines, and stops at '=' exactly when the input is not whole groups |
| Base64.DecodeEncodeBody | graff/crypto.py:33-36 | decoding undoes unpadded encoding, for every byte string |
| Base64.DecodeEncode | graff/crypto.py:33-36 | `decodestring` undoes padded encoding |
| Base64.DecodeEncodeString | graff/crypto.py:33-36 | `decodestring` undoes `encodestring`, for input of any length |
| Base64.LastCharLowBitsIgnored | graff/crypto.py:36 | when the last group has two characters, last characters that agree in their top two bits decode to the same bytes |
| Crypto.Unhexlify | graff/crypto.py:12 | `decode('hex')` fails with "odd-length" exactly for odd lengths. It succeeds exactly when the length is even and every character is a hex digit, giving half as many bytes |
| Crypto.UnhexlifyHexlify | graff/crypto.py:12 | hex-decoding undoes hex-encoding |
| Crypto.HexlifyUnhexlify | graff/crypto.py:12 | hex-encoding a decoded secret gives its spelling in lower case |
| Crypto.SelectKey | graff/crypto.py:9-12 | with no secret configured, or the placeholder itself, the key is the 16 '?' bytes. Otherwise the result is exactly the hex decoding of the secret: it succeeds exactly when the secret is valid hex, with half its length |
| Crypto.NormB64 | graff/crypto.py:17-21 | `norm_b64` output is no longer than its input, has no '+' or '/', and does not end in '=' or newline |
| Crypto.Repad | graff/crypto.py:26 | the padding is 1 to 8 '=' characters and brings the length to a multiple of 8 |
| Crypto.UnnormB64 | graff/crypto.py:23-27 | `unnorm_b64` maps '_' to '+' and '-' to '/' position by position, then pads with 1 to 8 '=' to a multiple of 8 (a full 8 when the length already was one) |
| Crypto.UnnormNorm | graff/crypto.py:17-27 | on standard-alphabet text, `unnorm_b64(norm_b64(s))` is `s` without trailing '=' and newlines, re-padded to a multiple of 8 |
| Crypto.PackU32 | graff/crypto.py:30 | packing succeeds exactly for 0 <= n < 2^32, gives 4 bytes, and unpacking gives n back |
| Crypto.UnpackU32 | graff/crypto.py:41 | unpacking 4 bytes gives a value below 2^32 |
| Crypto.PackUnpack | graff/crypto.py:30 | every 4-byte string is the packing of its unpacked value |
| Crypto.DerivedIv | graff/crypto.py:31 | for 20-byte digests, the IV is 8 bytes and is a prefix of SHA-1 over the packed id followed by the key |
| Crypto.IntegrityTag | graff/crypto.py:32 | for 20-byte digests, the tag is 4 bytes and is a prefix of SHA-1 over the packed id |
| Crypto.EncryptBuffer | graff/crypto.py:31-33 | for a 4-byte packed id, the raw token is 16 bytes: the IV (first 8 bytes of SHA-1 over id and key), then a block that decrypts to the id and its tag |
| Crypto.Encid | graff/crypto.py:29-33 | `encid` succeeds exactly for ids in 0 .. 2^32-1 (otherwise `struct.error`) |
| Crypto.Payload | graff/crypto.py:36-38 | getting the payload can fail only with malformed base64, a short IV or a ciphertext that is not whole blocks. A payload is whole 8-byte blocks, 8 bytes shorter than the decoded token |
| Crypto.Decrypted | graff/crypto.py:37-38 | malformed base64 exactly when decoding failed; a short IV exactly for fewer than 8 bytes; a bad ciphertext exactly when the bytes after the IV are not whole blocks. It succeeds exactly when none of these holds, with the decryption of the bytes after the first 8 under those 8 as IV |
| Crypto.TagMatches | graff/crypto.py:39 | for 20-byte digests, a plaintext that passes the check has at least 4 bytes |
| Crypto.Decid | graff/crypto.py:35-41 | `decid` passes a payload error on unchanged. It fails with a tag mismatch exactly when the payload decrypts but its last 4 bytes differ from SHA-1 of the rest, and with a short plaintext exactly when such a payload has fewer than 4 bytes, which sound primitives rule out. It returns an id exactly when the payload decrypts, passes the check and has at least 4 bytes; that id is the unpacking of the first 4 payload bytes, below 2^32 |
| Crypto.NormEncodeString | graff/crypto.py:33 | `norm_b64` of a one-line `encodestring` is the unpadded base64 with '+' and '/' swapped for '_' and '-' |
| Crypto.DecodeNormalizedBuffer | graff/crypto.py:33-36 | a 16-byte buffer survives `encodestring`, `norm_b64`, `unnorm_b64` and `decodestring` |
| Crypto.EncidTokenShape | graff/crypto.py:29-33 | every token is 22 characters of letters, digits, '_' and '-' |
| Crypto.TokenDecodesToCipherBuffer | graff/crypto.py:31-36 | a token decodes to IV and ciphertext, and its IV is the one derived from id and key. So `encid` is deterministic in (id, key) |
| Crypto.TokenPayload | graff/crypto.py:29-38 | a token's payload decrypts to the packed id followed by its tag |
| Crypto.TaggedBufferMatches | graff/crypto.py:32-39 | a packed id followed by its own tag passes the check of `decid` |
| Crypto.EncidDecidRoundTrip | graff/crypto.py:29-41 | `decid(encid(num, key), key) == num` for every 0 <= num < 2^32 |
| Crypto.TokenIsSwappedBody | graff/crypto.py:23-33 | each of the 22 token characters is restored by `unnorm_b64` to the base64 character it replaced |
| Crypto.SameBytesSameId | graff/crypto.py:35-41 | two tokens that decode to the same bytes get the same answer from `decid` |
| Crypto.PaddedTokenAccepted | graff/crypto.py:23-41 | a token followed by any number of '=' still decodes to its id: `decid` has no length pre-check |
| Crypto.TrailingTextAccepted | graff/crypto.py:23-41 | a token followed by "==" and any text still decodes to its id |
| Crypto.TokenLastCharLowBitsIgnored | graff/crypto.py:35-41 | replacing a token's last character by any character with the same top two bits still decodes to the same id |
| Crypto.AcceptedBufferLength | graff/crypto.py:36-40 | whatever `decid` accepts decodes to at least 16 bytes in whole 8-byte blocks |
| Crypto.UnnormTokenChars | graff/crypto.py:23-27 | `unnorm_b64` of token characters is base64 alphabet characters, one per input character, followed by the re-padding |
| Crypto.AcceptedTokenLength | graff/crypto.py:35-41 | a string of token characters that `decid` accepts has exactly 22 characters or at least 32 |
| Crypto.TruncatedTokenRejected | graff/crypto.py:35-41 | every proper prefix of a token is rejected |
| Crypto.ExtendedTokenRejected | graff/crypto.py:35-41 | a token followed by 1 to 9 more token characters is rejected |
| Handlers.IsProductionHost | graff/handlers.py:35-36 | a production host ends in the site's domain, and both the site's domain and its mobile host are production hosts |
| Handlers.RedirectTarget | graff/handlers.py:35-55 | a redirect never targets the current host. It goes to the mobile host exactly from the desktop host with m=1, or with no m cookie and a mobile agent. It goes to the desktop host exactly from the mobile host with m=0 |
| Handlers.RequestHandler.constructor | graff/handlers.py:35-58 | `initialize` lower-cases the host and decides production from it. It decides the redirect by the table above. A missing m cookie is set to "1" exactly for a mobile agent, else "0". When there is no redirect, `mobile` is the agent's answer, or whether the cookie is "1" |
| Handlers.RequestHandler.SetCookie | graff/handlers.py:94-97 | a cookie is appended; it gets the site's domain in production when no domain is given; nothing else changes |
| Handlers.RequestHandler.ClearCookie | graff/handlers.py:115 | clearing appends an emptied cookie with the same domain rule |
| Handlers.RequestHandler.Prepare | graff/handlers.py:88-92 | a location exists exactly when a redirect was decided. It is protocol, "://", target host and path, with "?" and the query only for a non-empty query |
| Handlers.RequestHandler.SetSecureCookie | graff/handlers.py:99-103 | fails (sets nothing) exactly when a timestamp is asked for and the time does not fit 32 bits. Otherwise it appends the encrypted, stamped value |
| Handlers.RequestHandler.GetSecureCookie | graff/handlers.py:105-116 | returns what `ReadSecureCookie` says, and clears the cookie exactly when a present, non-default value fails to decrypt |
| Handlers.Stamp | graff/handlers.py:101-102 | stamping fails exactly outside 32 bits. It keeps the value as a prefix and appends 4 bytes that unpack to the time |
| Handlers.SecureCookieValue | graff/handlers.py:99-103 | the written value is the encryption of the value, stamped when a timestamp is asked for, and fails exactly as stamping does |
| Handlers.ReadSecureCookie | graff/handlers.py:105-116 | the default comes back exactly when the cookie is absent, equals the default, or fails to decrypt. Otherwise the decrypted value comes back, without its last 4 bytes when timestamped |
| Handlers.Unstamp | graff/handlers.py:111-112 | chopping keeps a prefix of the value, 4 bytes shorter, or empty when the value has fewer than 4 bytes |
| Handlers.UnstampStamp | graff/handlers.py:101-112 | chopping 4 bytes removes exactly the timestamp that was appended |
| Handlers.SecureCookieRoundTrip | graff/handlers.py:99-113 | reading back a written secure cookie gives the original value, whenever decryption undoes encryption |
| Handlers.InNameClass | graff/handlers.py:182 | the class is exactly '!'..'_', 'a'..'z' and '~'. Space, '`', '{', '\|', '}' and newline are outside it |
| Handlers.ClassPrefixLength | graff/handlers.py:182 | the greedy class run covers only class characters and stops at the first other one |
| Handlers.NameMatches | graff/handlers.py:182-192 | `NAME_RE.match` succeeds exactly when all characters are in the class, or all but a final newline |
| Handlers.ValidateName | graff/handlers.py:192-207 | the checks run in order, each error exactly when the earlier checks pass and its own fails: characters when the regex does not match; reserved when the lower-cased name is "anonymous"; too short under 2 characters; too long over 32. No error exactly when all pass |
| Handlers.NameAcceptedIff | graff/handlers.py:192-207 | a name is accepted exactly when it has 2 to 32 characters, all in the class except possibly a final newline, and is not "anonymous" in any case |
| Handlers.ReservedInAnyCase | graff/handlers.py:196-199 | "anonymous" in any mix of cases is turned down as reserved |
| Handlers.ForeignCharacterRejected | graff/handlers.py:192-195 | a character outside the class, other than a final newline, fails the first check |
| Handlers.ReservedNameWithNewlineAccepted | graff/handlers.py:192-199 | "Anonymous\n" passes every check |
| Handlers.PosixJoin | graff/handlers.py:274 | `os.path.join` ends with the joined component, and is that component when it is absolute. A relative component follows the directory directly when the directory is empty or ends in '/', and after one '/' otherwise |
| Handlers.ConstructPath | graff/handlers.py:273-277 | the path ends with `fsid[4:]` |
| Handlers.ShardsConcatenate | graff/handlers.py:274-277 | `fsid[:2]`, `fsid[2:4]` and `fsid[4:]` put together give the fsid, whatever its length |
| Handlers.ConstructPathLayout | graff/handlers.py:273-277 | for any directory (default /tmp) and an fsid of 4 or more characters without '/', the path is the directory, a '/' unless it is empty or ends in one, then graff/fsid[:2]/fsid[2:4]/fsid[4:] |
| Db.HtmlDimensions | graff/db.py:57-60 | up to 900 wide, the size is unchanged. Wider photos are 900 wide, with height = floor(height * 900 / width). The width never exceeds 900, and a scaled height lies between 0 and the original for non-negative heights |
| Db.ScaledDown | graff/db.py:60 | the rounded-down scaled height of a photo wider than 900 is between 0 and its original height |
| Db.EncidOf | graff/db.py:19-20 | a row's token exists exactly when its id fits 32 bits, and is the codec's token for that id |
| Db.FirstWithId | graff/db.py:31 | `.first()` of the id filter is empty exactly when no row has the id. Otherwise it is the first row that has it |
| Db.FromEncid | graff/db.py:29-31 | the lookup fails exactly when `decid` fails, with its error. Otherwise it is `.first()` of the rows with the decoded id: nothing exactly when no row has it, else a row of the table with that id |
| Db.FirstWithIdFinds | graff/db.py:31 | with unique ids, filtering by a row's id finds that row |
| Db.FromEncidOfRow | graff/db.py:19-31 | with unique ids, looking a row up by its own token finds that row |

## Left out

- SHA-1 and Triple-DES are not defined. `Crypto.Sound` states the digest length and the CBC inverse and length facts the codec relies on.
- The Triple-DES key-length check (`ValueError` for a key that is not 16 or 24 bytes) is not modelled. A configured secret whose hex decoding has another length is accepted by `Crypto.SelectKey`.
- Crypto.AcceptedTokenLength: only for strings of token characters. binascii skips other characters and ignores what follows a pad sequence, so a longer string can decode like a token (`Crypto.TrailingTextAccepted`).
- Handlers.RequestHandler.constructor: only the mobile part of `initialize` is modelled. Left out: the flash cookie, loading the user from the `s` cookie (database and `struct.unpack`), the visitor cookie `v` (random bytes from `os.urandom`), and the other template entries. The modelled cookie list therefore holds only the `m` cookie.
- `detect_mobile` lives in graff/util.py, whose shown version does not define it. Its answer is the `agentIsMobile` parameter.
- `crypto.encrypt_string` and `crypto.decrypt_string` are not in graff/crypto.py. They are the `encrypt` and `decrypt` parameters; a failed decryption is `None`.
- `time.time()` is the `now` parameter.
- Tornado itself is not modelled: cookie transport, `get_argument` (which strips whitespace), `redirect`, `render`, `finish`, `write_error`, sessions and the flash messages.
- Handlers other than the signup checks are not modelled. This covers the home, login, logout, force/unforce-mobile, not-found and upload handlers, and the user creation after a successful signup. They are database, file and image I/O, or floating-point GPS decoding.
- `construct_path` with `makedirs` creates directories, which is file-system I/O. Only the computed path is modelled, and the unused `content_type` argument is dropped.
- `encodestring` is modelled for inputs of any length, and `Base64.DecodeEncodeString` holds for all of them; the token properties need only the one-line case, because a token's 16 bytes fit one line.
- The SQLAlchemy engine, sessions and queries are persistence.
  - A table is a sequence of rows.
  - `.first()` returns the first matching row in sequence order.
  - `insert` and `most_recent` are left out.
  - Rows carry only the columns used here.
  - `_Base.encid` and `from_encid` are modelled for photos. The user table behaves the same way.
- graff/geo.py (floating-point distance and geohash), graff/config.py (YAML loading), graff/ui.py, graff/main.py and the JavaScript under static/ are outside this model.
- The configured secret is modelled as an optional string. Configuration values of other types are not modelled.
