/** The few Python 2 string and byte-string built-ins the application relies on:
    slicing with clamped and negative bounds, `rstrip`, single-character
    `replace`, ASCII `lower` and `endswith`. A Python 2 `str` is a byte string;
    it is modelled as a sequence of `Byte`. */
module Strings {

  type Byte = b: int | 0 <= b < 256
  type Bytes = seq<Byte>

  /** `s[:n]` for n >= 0: at most the first n elements. */
  function Take<T>(s: seq<T>, n: nat): seq<T>
  {
    if n <= |s| then s[..n] else s
  }

  /** `s[:-n]` for n > 0: everything but the last n elements (empty when s is shorter). */
  function DropLast<T>(s: seq<T>, n: nat): seq<T>
  {
    if n <= |s| then s[..|s| - n] else []
  }

  /** `s[-n:]` for n > 0: at most the last n elements. */
  function TakeLast<T>(s: seq<T>, n: nat): seq<T>
  {
    if n <= |s| then s[|s| - n..] else s
  }

  /** `s[i:j]` for 0 <= i, 0 <= j: bounds clamped to the length, empty when j <= i. */
  function Slice<T>(s: seq<T>, i: nat, j: nat): (r: seq<T>)
    ensures |r| <= |s|
  {
    var hi := if j <= |s| then j else |s|;
    if i < hi then s[i..hi] else []
  }

  predicate EndsWith<T(==)>(s: seq<T>, suffix: seq<T>)
  {
    |suffix| <= |s| && s[|s| - |suffix|..] == suffix
  }

  predicate StartsWith<T(==)>(s: seq<T>, prefix: seq<T>)
  {
    |prefix| <= |s| && s[..|prefix|] == prefix
  }

  /** `s.rstrip(chars)`: drops the longest suffix made only of characters in `chars`. */
  function RStrip(s: string, chars: set<char>): (r: string)
    ensures |r| <= |s| && r == s[..|r|]
    ensures r == [] || r[|r| - 1] !in chars
    ensures forall i :: |r| <= i < |s| ==> s[i] in chars
  {
    if s != [] && s[|s| - 1] in chars then RStrip(s[..|s| - 1], chars) else s
  }

  /** Stripping a suffix of strippable characters from a string whose own last
      character is not strippable gives back that string. */
  lemma {:induction false} RStripPadding(s: string, pad: string, chars: set<char>)
    requires s == [] || s[|s| - 1] !in chars
    requires forall i :: 0 <= i < |pad| ==> pad[i] in chars
    ensures RStrip(s + pad, chars) == s
  {
    if pad == [] {
      assert s + pad == s;
    } else {
      var shorter := pad[..|pad| - 1];
      assert (s + pad)[..|s + pad| - 1] == s + shorter;
      RStripPadding(s, shorter, chars);
    }
  }

  /** `s.replace(from, to)` for single characters: every occurrence of `from` becomes `to`. */
  function Replace(s: string, from: char, to: char): (r: string)
    ensures |r| == |s|
    ensures forall i :: 0 <= i < |s| ==> r[i] == (if s[i] == from then to else s[i])
  {
    if s == [] then [] else Replace(s[..|s| - 1], from, to) + [if s[|s| - 1] == from then to else s[|s| - 1]]
  }

  function LowerChar(c: char): char
  {
    if 'A' <= c <= 'Z' then (c as int - 'A' as int + 'a' as int) as char else c
  }

  /** `s.lower()` restricted to ASCII: only 'A'..'Z' change. */
  function LowerAscii(s: string): (r: string)
    ensures |r| == |s|
    ensures forall i :: 0 <= i < |s| ==> r[i] == LowerChar(s[i])
  {
    if s == [] then [] else LowerAscii(s[..|s| - 1]) + [LowerChar(s[|s| - 1])]
  }

  /** Concatenation regroups freely. */
  lemma AppendAssoc<T>(a: seq<T>, b: seq<T>, c: seq<T>)
    ensures a + (b + c) == a + b + c
  {
  }

  /** Cutting a sequence at `k` before appending to it. */
  lemma SplitAppend<T>(s: seq<T>, k: nat, t: seq<T>)
    requires k <= |s|
    ensures s + t == s[..k] + (s[k..] + t)
  {
  }

  /** Dropping a prefix of the left operand of a concatenation. */
  lemma DropAppend<T>(s: seq<T>, k: nat, t: seq<T>)
    requires k <= |s|
    ensures (s + t)[k..] == s[k..] + t
  {
  }
}
