/** The parts of Go's `strings` package (and of `len` on a string) that the
    authentication helpers and the chirp cleaner use. A Go string is modelled
    as the sequence of Unicode scalar values its UTF-8 bytes decode to. */
module Strings {

  /** Number of bytes in the UTF-8 encoding of `c`. */
  function Utf8Width(c: char): nat
  {
    if c as int < 0x80 then 1
    else if c as int < 0x800 then 2
    else if c as int < 0x1_0000 then 3
    else 4
  }

  /** Go's `len(s)`: the length of `s` in bytes, not in characters. */
  function ByteLen(s: string): nat
  {
    if |s| == 0 then 0 else Utf8Width(s[0]) + ByteLen(s[1..])
  }

  predicate IsAscii(s: string)
  {
    forall i :: 0 <= i < |s| ==> s[i] as int < 0x80
  }

  lemma {:induction false} ByteLenConcat(a: string, b: string)
    ensures ByteLen(a + b) == ByteLen(a) + ByteLen(b)
    decreases |a|
  {
    if |a| > 0 {
      assert (a + b)[1..] == a[1..] + b;
      ByteLenConcat(a[1..], b);
    } else {
      assert a + b == b;
    }
  }

  /** A string uses at least one byte per character. */
  lemma {:induction false} ByteLenAtLeastLength(s: string)
    ensures |s| <= ByteLen(s)
    decreases |s|
  {
    if |s| > 0 {
      ByteLenAtLeastLength(s[1..]);
    }
  }

  /** No character takes more than four bytes. */
  lemma {:induction false} ByteLenAtMostFour(s: string)
    ensures ByteLen(s) <= 4 * |s|
    decreases |s|
  {
    if |s| > 0 {
      ByteLenAtMostFour(s[1..]);
    }
  }

  /** On ASCII text, bytes and characters coincide. */
  lemma {:induction false} AsciiByteLen(s: string)
    requires IsAscii(s)
    ensures ByteLen(s) == |s|
    decreases |s|
  {
    if |s| > 0 {
      assert IsAscii(s[1..]) by {
        forall i | 0 <= i < |s[1..]| ensures s[1..][i] as int < 0x80 {
          assert s[1..][i] == s[i + 1];
        }
      }
      AsciiByteLen(s[1..]);
    }
  }

  /* ---------- strings.Split / strings.Join on a one-character separator ---------- */

  /** Position of the first `c` in `s`, or `|s|` when there is none. */
  function IndexOf(s: string, c: char): (i: nat)
    ensures i <= |s|
    ensures i < |s| ==> s[i] == c
    ensures forall j :: 0 <= j < i ==> s[j] != c
    decreases |s|
  {
    if |s| == 0 then 0
    else if s[0] == c then 0
    else 1 + IndexOf(s[1..], c)
  }

  /** Number of occurrences of `c` in `s`. */
  function Count(s: string, c: char): nat
  {
    if |s| == 0 then 0
    else (if s[0] == c then 1 else 0) + Count(s[1..], c)
  }

  /** Go's `strings.Split(s, string(sep))`: the pieces between the
      occurrences of `sep`; the empty string splits into `[""]`. */
  function Split(s: string, sep: char): (parts: seq<string>)
    ensures |parts| >= 1
    ensures forall k :: 0 <= k < |parts| ==> sep !in parts[k]
    decreases |s|
  {
    var i := IndexOf(s, sep);
    if i == |s| then [s] else [s[..i]] + Split(s[i + 1..], sep)
  }

  /** Go's `strings.Join(parts, string(sep))`. */
  function Join(parts: seq<string>, sep: char): string
  {
    if |parts| == 0 then ""
    else if |parts| == 1 then parts[0]
    else parts[0] + [sep] + Join(parts[1..], sep)
  }

  /** Count of `c` in a concatenation is the sum of the counts. */
  lemma {:induction false} CountConcat(a: string, b: string, c: char)
    ensures Count(a + b, c) == Count(a, c) + Count(b, c)
    decreases |a|
  {
    if |a| > 0 {
      assert (a + b)[1..] == a[1..] + b;
      CountConcat(a[1..], b, c);
    } else {
      assert a + b == b;
    }
  }

  lemma {:induction false} CountAbsent(s: string, c: char)
    requires c !in s
    ensures Count(s, c) == 0
    decreases |s|
  {
    if |s| > 0 {
      CountAbsent(s[1..], c);
    }
  }

  /** Splitting yields one more piece than there are separators. */
  lemma {:induction false} SplitCount(s: string, c: char)
    ensures |Split(s, c)| == Count(s, c) + 1
    decreases |s|
  {
    var i := IndexOf(s, c);
    assert s == s[..i] + s[i..];
    CountAbsent(s[..i], c);
    CountConcat(s[..i], s[i..], c);
    if i < |s| {
      assert s[i..] == [c] + s[i + 1..];
      CountConcat([c], s[i + 1..], c);
      SplitCount(s[i + 1..], c);
    }
  }

  /** Joining the pieces of a split gives back the original string. */
  lemma {:induction false} JoinSplit(s: string, c: char)
    ensures Join(Split(s, c), c) == s
    decreases |s|
  {
    var i := IndexOf(s, c);
    if i < |s| {
      JoinSplit(s[i + 1..], c);
      assert s == s[..i] + [c] + s[i + 1..];
    }
  }

  /** Splitting a join of separator-free pieces gives back the pieces. */
  lemma {:induction false} SplitJoin(parts: seq<string>, c: char)
    requires |parts| >= 1
    requires forall k :: 0 <= k < |parts| ==> c !in parts[k]
    ensures Split(Join(parts, c), c) == parts
    decreases |parts|
  {
    var s := Join(parts, c);
    if |parts| == 1 {
      assert IndexOf(s, c) == |s|;
    } else {
      var p := parts[0];
      var rest := Join(parts[1..], c);
      assert s == p + [c] + rest;
      assert IndexOf(s, c) == |p| by {
        assert s[|p|] == c;
        forall j | 0 <= j < |p| ensures s[j] != c {
          assert s[j] == p[j];
        }
      }
      assert s[..|p|] == p;
      assert s[|p| + 1..] == rest;
      SplitJoin(parts[1..], c);
    }
  }

  /* ---------- case mapping ---------- */

  /** `unicode.ToLower`, as far as it can decide membership in a set of ASCII
      words: ASCII capitals map to their small letters, and the two non-ASCII
      letters whose lower case is ASCII (KELVIN SIGN and LATIN CAPITAL LETTER I
      WITH DOT ABOVE) map to `k` and `i`. Every other character is kept, which
      leaves non-ASCII characters non-ASCII as `unicode.ToLower` also does. */
  function LowerChar(c: char): char
  {
    if 'A' <= c <= 'Z' then (c as int + 32) as char
    else if c == '\U{212A}' then 'k'
    else if c == '\U{0130}' then 'i'
    else c
  }

  /** `strings.ToLower`, character by character. */
  function Lower(s: string): string
  {
    seq(|s|, i requires 0 <= i < |s| => LowerChar(s[i]))
  }

  /** Lowering never makes a string longer in bytes. */
  lemma {:induction false} LowerByteLen(s: string)
    ensures ByteLen(Lower(s)) <= ByteLen(s)
    decreases |s|
  {
    if |s| > 0 {
      assert Lower(s)[1..] == Lower(s[1..]);
      LowerByteLen(s[1..]);
    }
  }

  /** The representative of `c`'s simple case-folding orbit, for the orbits
      that contain an ASCII character: ASCII capitals fold to small letters,
      KELVIN SIGN folds with `k` and LATIN SMALL LETTER LONG S with `s`. */
  function FoldChar(c: char): char
  {
    if 'A' <= c <= 'Z' then (c as int + 32) as char
    else if c == '\U{212A}' then 'k'
    else if c == '\U{017F}' then 's'
    else c
  }

  /** `strings.EqualFold(s, t)`: equal under simple case folding, character
      by character. Exact whenever one side is ASCII. */
  predicate EqualFold(s: string, t: string)
  {
    |s| == |t| && forall i :: 0 <= i < |s| ==> FoldChar(s[i]) == FoldChar(t[i])
  }

  /* ---------- substring search, as used by the error-message tests ---------- */

  /** `strings.Contains(s, sub)`. */
  predicate Contains(s: string, sub: string)
  {
    exists i :: 0 <= i <= |s| && sub <= s[i..]
  }

  /** A string contains whatever it is built around. */
  lemma ContainsMiddle(a: string, sub: string, b: string)
    ensures Contains(a + sub + b, sub)
  {
    var s := a + sub + b;
    assert s[|a|..] == sub + b;
  }
}
