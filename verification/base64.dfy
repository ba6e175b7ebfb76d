/** Base64 as the application uses it through Python 2's `base64` module:
    `encodestring` (the alphabet and padding of section 4 of RFC 4648, with the
    MIME line discipline of section 6.8 of RFC 2045: input taken 57 bytes at a
    time, each line ended by "\n") and `decodestring`. */
module Base64 {
  import opened Wrappers
  import opened Strings

  /** The character of a 6-bit value, in the order "A".."Z", "a".."z", "0".."9", "+", "/". */
  function CharOf(v: int): (c: char)
    requires 0 <= v < 64
  {
    if v < 26 then ('A' as int + v) as char
    else if v < 52 then ('a' as int + (v - 26)) as char
    else if v < 62 then ('0' as int + (v - 52)) as char
    else if v == 62 then '+'
    else '/'
  }

  /** The 6-bit value of a character of the alphabet; None for any other character, '=' included. */
  function SextetOf(c: char): (r: Option<int>)
    ensures r.Some? ==> 0 <= r.value < 64 && CharOf(r.value) == c
  {
    if 'A' <= c <= 'Z' then Some(c as int - 'A' as int)
    else if 'a' <= c <= 'z' then Some(c as int - 'a' as int + 26)
    else if '0' <= c <= '9' then Some(c as int - '0' as int + 52)
    else if c == '+' then Some(62)
    else if c == '/' then Some(63)
    else None
  }

  predicate IsAlphabetChar(c: char)
  {
    SextetOf(c).Some?
  }

  /** Every 6-bit value has exactly one character, and that character decodes back to it. */
  lemma SextetOfCharOf(v: int)
    requires 0 <= v < 64
    ensures SextetOf(CharOf(v)) == Some(v)
  {
  }

  /** The unpadded characters of `b`: four per three-byte group, then two for a
      trailing single byte or three for a trailing pair (the unused low bits zero). */
  function EncodeBody(b: Bytes): (r: string)
    ensures |r| == |b| / 3 * 4 + (if |b| % 3 == 0 then 0 else |b| % 3 + 1)
    ensures forall i :: 0 <= i < |r| ==> IsAlphabetChar(r[i])
    decreases |b|
  {
    if |b| == 0 then ""
    else if |b| == 1 then [CharOf(b[0] / 4), CharOf(b[0] % 4 * 16)]
    else if |b| == 2 then [CharOf(b[0] / 4), CharOf(b[0] % 4 * 16 + b[1] / 16), CharOf(b[1] % 16 * 4)]
    else EncodeTriple(b[0], b[1], b[2]) + EncodeBody(b[3..])
  }

  /** The four characters of a full group of three bytes. */
  function EncodeTriple(b0: Byte, b1: Byte, b2: Byte): (r: string)
    ensures |r| == 4 && forall i :: 0 <= i < 4 ==> IsAlphabetChar(r[i])
  {
    [CharOf(b0 / 4), CharOf(b0 % 4 * 16 + b1 / 16), CharOf(b1 % 16 * 4 + b2 / 64), CharOf(b2 % 64)]
  }

  /** The '=' characters that fill the last group of four. */
  function Padding(n: nat): string
  {
    if n % 3 == 0 then "" else if n % 3 == 1 then "==" else "="
  }

  /** Standard base64 of `b` (binascii's b2a_base64 without its newline). */
  function Encode(b: Bytes): (r: string)
    ensures |r| % 4 == 0 && |r| == (|b| + 2) / 3 * 4
    ensures forall i :: 0 <= i < |r| ==> IsAlphabetChar(r[i]) || r[i] == '='
  {
    EncodeBody(b) + Padding(|b|)
  }

  /** `base64.encodestring`: the input in chunks of 57 bytes, each chunk encoded on a line of its own. */
  function EncodeString(b: Bytes): (r: string)
    ensures forall i :: 0 <= i < |r| ==> IsAlphabetChar(r[i]) || r[i] == '=' || r[i] == '\n'
    ensures b != [] ==> r != [] && r[|r| - 1] == '\n'
    ensures 0 < |b| <= 57 ==> r == Encode(b) + "\n"
    decreases |b|
  {
    if |b| == 0 then ""
    else if |b| <= 57 then Encode(b) + "\n"
    else Encode(b[..57]) + "\n" + EncodeString(b[57..])
  }

  /** One group of two to four characters: the bytes its 6-bit values carry.
      The unused low bits of a two- or three-character group are ignored, as
      binascii does. */
  function DecodeGroup(g: string): (r: Option<Bytes>)
    requires 2 <= |g| <= 4
    ensures r.Some? <==> forall i :: 0 <= i < |g| ==> IsAlphabetChar(g[i])
    ensures r.Some? ==> |r.value| == |g| - 1
  {
    var v0, v1 := SextetOf(g[0]), SextetOf(g[1]);
    var v2 := if |g| > 2 then SextetOf(g[2]) else Some(0);
    var v3 := if |g| > 3 then SextetOf(g[3]) else Some(0);
    if v0.None? || v1.None? || v2.None? || v3.None? then None
    else
      var b0, b1, b2 := v0.value * 4 + v1.value / 16, v1.value % 16 * 16 + v2.value / 4, v2.value % 4 * 64 + v3.value;
      if |g| == 2 then Some([b0]) else if |g| == 3 then Some([b0, b1]) else Some([b0, b1, b2])
  }

  /** Decoding of unpadded characters, four to three bytes. None when a
      character is outside the alphabet or one character is left over. */
  function DecodeBody(s: string): (r: Option<Bytes>)
    ensures r.Some? <==> |s| % 4 != 1 && forall i :: 0 <= i < |s| ==> IsAlphabetChar(s[i])
    ensures r.Some? ==> |r.value| == |s| / 4 * 3 + (if |s| % 4 == 0 then 0 else |s| % 4 - 1)
    decreases |s|
  {
    if |s| == 0 then Some([])
    else if |s| == 1 then None
    else if |s| <= 4 then DecodeGroup(s)
    else
      assert |s| / 4 == |s[4..]| / 4 + 1 && |s| % 4 == |s[4..]| % 4;
      assert forall i :: 0 <= i < 4 ==> s[..4][i] == s[i];
      assert forall i :: 0 <= i < |s| - 4 ==> s[4..][i] == s[i + 4];
      match DecodeGroup(s[..4])
      case None => None
      case Some(head) =>
        match DecodeBody(s[4..])
        case None => None
        case Some(rest) => Some(head + rest)
  }

  /** What binascii's `a2b_base64` keeps of its input: the alphabet characters
      it reads, and whether a pad sequence ended the input early. */
  datatype Scanned = Scanned(kept: string, stopped: bool)

  /** The first character of `s` that binascii looks ahead to: an alphabet
      character or '='; every other character is skipped. */
  function NextSignificant(s: string): (r: Option<char>)
    ensures r.Some? ==> IsAlphabetChar(r.value) || r.value == '='
    decreases |s|
  {
    if s == [] then None
    else if IsAlphabetChar(s[0]) || s[0] == '=' then Some(s[0])
    else NextSignificant(s[1..])
  }

  /** The loop of `a2b_base64`, `quad` characters into the current group of
      four. Characters outside the alphabet other than '=' are skipped. A '='
      after none or one character of a group is skipped; after two it ends the
      input when the next significant character is another '=' and is skipped
      otherwise; after three it ends the input. */
  function Scan(s: string, quad: nat): Scanned
    requires quad < 4
    decreases |s|
  {
    if s == [] then Scanned([], false)
    else if IsAlphabetChar(s[0]) then
      var rest := Scan(s[1..], (quad + 1) % 4);
      Scanned([s[0]] + rest.kept, rest.stopped)
    else if s[0] == '=' && (quad == 3 || (quad == 2 && NextSignificant(s[1..]) == Some('='))) then
      Scanned([], true)
    else Scan(s[1..], quad)
  }

  /** `base64.decodestring`: the characters the scan keeps, decoded. It fails
      ("Incorrect padding") exactly when the input runs out inside a group
      that no pad sequence closed; the kept characters themselves always decode. */
  function DecodeString(s: string): (r: Option<Bytes>)
    ensures r.None? <==> !Scan(s, 0).stopped && |Scan(s, 0).kept| % 4 != 0
    ensures r.Some? ==> r == DecodeBody(Scan(s, 0).kept)
  {
    ScanKeeps(s, 0);
    var scanned := Scan(s, 0);
    if !scanned.stopped && |scanned.kept| % 4 != 0 then None
    else DecodeBody(scanned.kept)
  }

  /** The scan keeps only alphabet characters, never more than it reads, and
      a pad sequence ends the input only after two or three characters of a group. */
  lemma {:induction false} ScanKeeps(s: string, quad: nat)
    requires quad < 4
    ensures |Scan(s, quad).kept| <= |s|
    ensures forall i :: 0 <= i < |Scan(s, quad).kept| ==> IsAlphabetChar(Scan(s, quad).kept[i])
    ensures Scan(s, quad).stopped ==> (quad + |Scan(s, quad).kept|) % 4 >= 2
    decreases |s|
  {
    if s != [] {
      if IsAlphabetChar(s[0]) {
        var next := (quad + 1) % 4;
        ScanKeeps(s[1..], next);
        var rest := Scan(s[1..], next);
        assert Scan(s, quad) == Scanned([s[0]] + rest.kept, rest.stopped);
        assert (next + |rest.kept|) % 4 == (quad + 1 + |rest.kept|) % 4;
      } else if !(s[0] == '=' && (quad == 3 || (quad == 2 && NextSignificant(s[1..]) == Some('=')))) {
        ScanKeeps(s[1..], quad);
      }
    }
  }

  /** Alphabet characters are all kept, and the scan goes on behind them. */
  lemma {:induction false} ScanAlphabet(body: string, tail: string, quad: nat)
    requires quad < 4
    requires forall i :: 0 <= i < |body| ==> IsAlphabetChar(body[i])
    ensures Scan(body + tail, quad) ==
      Scanned(body + Scan(tail, (quad + |body|) % 4).kept, Scan(tail, (quad + |body|) % 4).stopped)
    decreases |body|
  {
    if body == [] {
      assert body + tail == tail;
    } else {
      var next := (quad + 1) % 4;
      assert (body + tail)[0] == body[0];
      DropAppend(body, 1, tail);
      ScanAlphabet(body[1..], tail, next);
      assert (next + |body[1..]|) % 4 == (quad + |body|) % 4;
      var rest := Scan(tail, (quad + |body|) % 4);
      SplitAppend(body, 1, rest.kept);
      assert body[..1] == [body[0]];
    }
  }

  /** A run of '=' ends the input after two characters of a group when it
      holds at least two '=', and after three characters when it holds one;
      otherwise it is skipped. */
  lemma {:induction false} ScanPadding(pad: string, quad: nat)
    requires quad < 4
    requires forall i :: 0 <= i < |pad| ==> pad[i] == '='
    ensures Scan(pad, quad) == Scanned([], (quad == 2 && |pad| >= 2) || (quad == 3 && |pad| >= 1))
    decreases |pad|
  {
    if pad != [] {
      if |pad| >= 2 {
        assert pad[1..][0] == '=';
      }
      if quad < 2 || (quad == 2 && |pad| < 2) {
        ScanPadding(pad[1..], quad);
      }
    }
  }

  /** The scan of alphabet characters followed by '=': all the characters are
      kept, and the '=' end the input when they close a group of two or three. */
  lemma ScanAlphabetPadded(body: string, pad: string)
    requires forall i :: 0 <= i < |body| ==> IsAlphabetChar(body[i])
    requires forall i :: 0 <= i < |pad| ==> pad[i] == '='
    ensures Scan(body + pad, 0) == Scanned(body, (|body| % 4 == 2 && |pad| >= 2) || (|body| % 4 == 3 && |pad| >= 1))
  {
    var quad := |body| % 4;
    ScanAlphabet(body, pad, 0);
    ScanPadding(pad, quad);
    var after := Scan(pad, quad);
    assert Scan(body + pad, 0) == Scanned(body + after.kept, after.stopped);
    assert body + after.kept == body;
  }

  /** `decodestring` on alphabet characters followed by '=': the characters
      decoded, except that a last group of two characters needs at least two
      '=' and one of three at least one ("Incorrect padding"). */
  lemma DecodeAlphabetPadded(body: string, pad: string)
    requires forall i :: 0 <= i < |body| ==> IsAlphabetChar(body[i])
    requires forall i :: 0 <= i < |pad| ==> pad[i] == '='
    ensures DecodeString(body + pad) ==
      if (|body| % 4 == 2 && |pad| < 2) || (|body| % 4 == 3 && |pad| < 1) then None else DecodeBody(body)
  {
    ScanAlphabetPadded(body, pad);
  }

  /** A pad sequence "==" after two characters of a group ends the input:
      whatever follows it is ignored. */
  lemma DecodeStopsAtPadSequence(body: string, rest: string)
    requires forall i :: 0 <= i < |body| ==> IsAlphabetChar(body[i])
    requires |body| % 4 == 2
    ensures DecodeString(body + "==" + rest) == DecodeBody(body)
  {
    AppendAssoc(body, "==", rest);
    ScanStopsAtPadSequence(body, rest);
  }

  /** The scan keeps the alphabet characters before the pad sequence and stops there. */
  lemma ScanStopsAtPadSequence(body: string, rest: string)
    requires forall i :: 0 <= i < |body| ==> IsAlphabetChar(body[i])
    requires |body| % 4 == 2
    ensures Scan(body + ("==" + rest), 0) == Scanned(body, true)
  {
    ScanAlphabet(body, "==" + rest, 0);
    ScanPadSequence(rest);
    assert body + [] == body;
  }

  /** Two characters into a group, "==" stops the scan whatever follows. */
  lemma ScanPadSequence(rest: string)
    ensures Scan("==" + rest, 2) == Scanned([], true)
  {
    var tail := "==" + rest;
    assert tail[1..][0] == '=';
  }

  lemma GroupRoundTrip(b0: Byte, b1: Byte, b2: Byte)
    ensures (b0 / 4) * 4 + (b0 % 4 * 16 + b1 / 16) / 16 == b0
    ensures (b0 % 4 * 16 + b1 / 16) % 16 * 16 + (b1 % 16 * 4 + b2 / 64) / 4 == b1
    ensures (b1 % 16 * 4 + b2 / 64) % 4 * 64 + b2 % 64 == b2
  {
  }

  lemma DecodeSingle(b0: Byte)
    ensures DecodeBody(EncodeBody([b0])) == Some([b0])
  {
    var x0, x1 := b0 / 4, b0 % 4 * 16;
    SextetOfCharOf(x0);
    SextetOfCharOf(x1);
    GroupRoundTrip(b0, 0, 0);
    assert EncodeBody([b0]) == [CharOf(x0), CharOf(x1)];
  }

  lemma DecodePair(b0: Byte, b1: Byte)
    ensures DecodeBody(EncodeBody([b0, b1])) == Some([b0, b1])
  {
    var x0, x1, x2 := b0 / 4, b0 % 4 * 16 + b1 / 16, b1 % 16 * 4;
    SextetOfCharOf(x0);
    SextetOfCharOf(x1);
    SextetOfCharOf(x2);
    GroupRoundTrip(b0, b1, 0);
    assert EncodeBody([b0, b1]) == [CharOf(x0), CharOf(x1), CharOf(x2)];
  }

  lemma DecodeTriple(b0: Byte, b1: Byte, b2: Byte)
    ensures DecodeGroup(EncodeTriple(b0, b1, b2)) == Some([b0, b1, b2])
  {
    SextetOfCharOf(b0 / 4);
    SextetOfCharOf(b0 % 4 * 16 + b1 / 16);
    SextetOfCharOf(b1 % 16 * 4 + b2 / 64);
    SextetOfCharOf(b2 % 64);
    GroupRoundTrip(b0, b1, b2);
  }

  /** A full group in front of a non-empty rest decodes on its own. */
  lemma DecodeBodySplit(head: string, tail: string)
    requires |head| == 4 && tail != []
    ensures DecodeBody(head + tail) ==
      match DecodeGroup(head)
      case None => None
      case Some(h) => (match DecodeBody(tail) case None => None case Some(t) => Some(h + t))
  {
    var s := head + tail;
    assert s[..4] == head && s[4..] == tail;
  }

  lemma DecodeBodyCons(head: string, tail: string, h: Bytes, t: Bytes)
    requires |head| == 4 && tail != []
    requires DecodeGroup(head) == Some(h) && DecodeBody(tail) == Some(t)
    ensures DecodeBody(head + tail) == Some(h + t)
  {
    DecodeBodySplit(head, tail);
  }

  lemma DecodeEncodeTriples(b: Bytes)
    requires |b| > 3
    requires DecodeBody(EncodeBody(b[3..])) == Some(b[3..])
    ensures DecodeBody(EncodeTriple(b[0], b[1], b[2]) + EncodeBody(b[3..])) == Some(b)
  {
    var head, tail := EncodeTriple(b[0], b[1], b[2]), EncodeBody(b[3..]);
    assert |tail| > 0;
    DecodeTriple(b[0], b[1], b[2]);
    DecodeBodyCons(head, tail, [b[0], b[1], b[2]], b[3..]);
    SplitThree(b);
  }

  lemma SplitThree(b: Bytes)
    requires |b| >= 3
    ensures [b[0], b[1], b[2]] + b[3..] == b
  {
  }

  /** Decoding undoes encoding, for the unpadded characters. */
  lemma {:induction false} DecodeEncodeBody(b: Bytes)
    ensures DecodeBody(EncodeBody(b)) == Some(b)
    decreases |b|
  {
    if |b| == 1 {
      assert b == [b[0]];
      DecodeSingle(b[0]);
    } else if |b| == 2 {
      assert b == [b[0], b[1]];
      DecodePair(b[0], b[1]);
    } else if |b| == 3 {
      assert b == [b[0], b[1], b[2]];
      assert EncodeBody(b) == EncodeTriple(b[0], b[1], b[2]);
      DecodeTriple(b[0], b[1], b[2]);
    } else if |b| > 3 {
      assert EncodeBody(b) == EncodeTriple(b[0], b[1], b[2]) + EncodeBody(b[3..]);
      DecodeEncodeBody(b[3..]);
      DecodeEncodeTriples(b);
    }
  }

  /** The length of the unpadded characters, group by group. */
  lemma {:induction false} EncodeBodyLength(b: Bytes)
    ensures |EncodeBody(b)| % 4 == (if |b| % 3 == 0 then 0 else |b| % 3 + 1)
    decreases |b|
  {
    if |b| > 3 {
      EncodeBodyLength(b[3..]);
      assert EncodeBody(b) == EncodeTriple(b[0], b[1], b[2]) + EncodeBody(b[3..]);
    }
  }

  /** Decoding undoes standard base64 encoding, padding included. */
  lemma DecodeEncode(b: Bytes)
    ensures DecodeString(Encode(b)) == Some(b)
  {
    EncodeBodyLength(b);
    DecodeAlphabetPadded(EncodeBody(b), Padding(|b|));
    DecodeEncodeBody(b);
  }

  /** Encoding splits at any whole number of three-byte groups. */
  lemma {:induction false} EncodeBodyAppend(x: Bytes, y: Bytes)
    requires |x| % 3 == 0
    ensures EncodeBody(x + y) == EncodeBody(x) + EncodeBody(y)
    decreases |x|
  {
    if x == [] {
      assert x + y == y;
    } else {
      var triple := EncodeTriple(x[0], x[1], x[2]);
      var front := EncodeBody(x[3..]);
      var back := EncodeBody(y);
      assert EncodeBody(x + y) == triple + EncodeBody(x[3..] + y) by {
        var xy := x + y;
        assert xy[0] == x[0] && xy[1] == x[1] && xy[2] == x[2];
        assert xy[3..] == x[3..] + y;
        EncodeBodyStep(xy);
      }
      assert EncodeBody(x) == triple + front by {
        EncodeBodyStep(x);
      }
      assert EncodeBody(x[3..] + y) == front + back by {
        EncodeBodyAppend(x[3..], y);
      }
      AppendAssoc(triple, front, back);
    }
  }

  /** Input of three bytes or more starts with a full group. */
  lemma EncodeBodyStep(b: Bytes)
    requires |b| >= 3
    ensures EncodeBody(b) == EncodeTriple(b[0], b[1], b[2]) + EncodeBody(b[3..])
  {
  }

  /** The end of the last line of `encodestring`: its padding and newline,
      seen `|EncodeBody|` characters into the scan. */
  lemma ScanLineEnd(n: nat)
    ensures Scan(Padding(n) + "\n", if n % 3 == 0 then 0 else n % 3 + 1) == Scanned([], n % 3 != 0)
  {
    var tail := Padding(n) + "\n";
    if n % 3 == 0 {
      assert tail[1..] == [];
    } else if n % 3 == 1 {
      assert tail[1..][0] == '=';
    }
  }

  /** The scan of `encodestring` keeps exactly the unpadded characters of the
      whole input and stops early exactly when the input is not whole groups. */
  lemma {:induction false} ScanEncodeString(b: Bytes)
    ensures Scan(EncodeString(b), 0) == Scanned(EncodeBody(b), |b| % 3 != 0)
    decreases |b|
  {
    if 0 < |b| <= 57 {
      ScanLastLine(b);
    } else if |b| > 57 {
      ScanEncodeString(b[57..]);
      ScanFirstLine(b);
    }
  }

  /** A first full line in front of the rest of `encodestring`'s output. */
  lemma ScanFirstLine(b: Bytes)
    requires |b| > 57
    requires Scan(EncodeString(b[57..]), 0) == Scanned(EncodeBody(b[57..]), |b[57..]| % 3 != 0)
    ensures Scan(EncodeString(b), 0) == Scanned(EncodeBody(b), |b| % 3 != 0)
  {
    var head, tail := b[..57], b[57..];
    var line := EncodeBody(head);
    FirstLineText(b);
    EncodeBodyLength(head);
    ScanFullLine(line, EncodeString(tail), EncodeBody(tail), |tail| % 3 != 0);
    EncodeBodyAppend(head, tail);
    assert head + tail == b;
  }

  lemma FirstLineText(b: Bytes)
    requires |b| > 57
    ensures EncodeString(b) == EncodeBody(b[..57]) + "\n" + EncodeString(b[57..])
  {
    var head, tail := b[..57], b[57..];
    EncodeWholeGroups(head);
    var text := EncodeString(b);
    assert text == Encode(head) + "\n" + EncodeString(tail);
  }

  /** Input of whole three-byte groups needs no padding. */
  lemma EncodeWholeGroups(x: Bytes)
    requires |x| % 3 == 0
    ensures Encode(x) == EncodeBody(x)
  {
    var body := EncodeBody(x);
    assert Padding(|x|) == "";
    assert body + "" == body;
  }

  /** The scan of a last line: its characters are kept, and its padding ends the input. */
  lemma ScanLastLine(b: Bytes)
    requires 0 < |b| <= 57
    ensures Scan(EncodeString(b), 0) == Scanned(EncodeBody(b), |b| % 3 != 0)
  {
    assert EncodeString(b) == EncodeBody(b) + (Padding(|b|) + "\n");
    EncodeBodyLength(b);
    ScanPaddedLine(EncodeBody(b), |b|);
  }

  lemma ScanPaddedLine(body: string, n: nat)
    requires forall i :: 0 <= i < |body| ==> IsAlphabetChar(body[i])
    requires |body| % 4 == (if n % 3 == 0 then 0 else n % 3 + 1)
    ensures Scan(body + (Padding(n) + "\n"), 0) == Scanned(body, n % 3 != 0)
  {
    var end := Padding(n) + "\n";
    ScanAlphabet(body, end, 0);
    ScanLineEnd(n);
    var after := Scan(end, |body| % 4);
    assert Scan(body + end, 0) == Scanned(body + after.kept, after.stopped);
    assert body + after.kept == body;
  }

  /** A full line of whole groups and its newline leave the scan of the next lines unchanged. */
  lemma ScanFullLine(line: string, next: string, kept: string, stopped: bool)
    requires forall i :: 0 <= i < |line| ==> IsAlphabetChar(line[i])
    requires |line| % 4 == 0
    requires Scan(next, 0) == Scanned(kept, stopped)
    ensures Scan(line + "\n" + next, 0) == Scanned(line + kept, stopped)
  {
    var rest := "\n" + next;
    assert line + "\n" + next == line + rest;
    ScanAlphabet(line, rest, 0);
    assert rest[1..] == next;
    assert Scan(rest, 0) == Scan(next, 0);
  }

  /** `decodestring(encodestring(b)) == b`, for input of any length: the
      newlines between lines are skipped and the padding closes the last group. */
  lemma DecodeEncodeString(b: Bytes)
    ensures DecodeString(EncodeString(b)) == Some(b)
  {
    ScanEncodeString(b);
    EncodeBodyLength(b);
    DecodeEncodeBody(b);
  }

  /** In a body whose last group has two characters, the low four bits of the
      last character are ignored: characters agreeing in their top two bits
      decode to the same bytes. */
  lemma {:induction false} LastCharLowBitsIgnored(s: string, c: char, d: char)
    requires |s| % 4 == 1
    requires IsAlphabetChar(c) && IsAlphabetChar(d)
    requires SextetOf(c).value / 16 == SextetOf(d).value / 16
    ensures DecodeBody(s + [c]) == DecodeBody(s + [d])
    decreases |s|
  {
    if |s| == 1 {
      assert s + [c] == [s[0], c];
      assert s + [d] == [s[0], d];
    } else {
      var head := s[..4];
      SplitAppend(s, 4, [c]);
      SplitAppend(s, 4, [d]);
      DecodeBodySplit(head, s[4..] + [c]);
      DecodeBodySplit(head, s[4..] + [d]);
      LastCharLowBitsIgnored(s[4..], c, d);
    }
  }
}
