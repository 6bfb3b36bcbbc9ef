/** Go's `strings.Fields`: a string split around runs of white space, and the
    shape facts about it that the header parsers rely on. */
module Whitespace {

  /** `unicode.IsSpace`: the Latin-1 spaces (`\t`, `\n`, `\v`, `\f`, `\r`,
      space, NEL, NO-BREAK SPACE) and the other characters with the Unicode
      White_Space property. */
  predicate IsSpace(c: char)
  {
    || c == ' '
    || '\t' <= c <= '\r'
    || c == '\U{85}'
    || c == '\U{A0}'
    || c == '\U{1680}'
    || '\U{2000}' <= c <= '\U{200A}'
    || c == '\U{2028}'
    || c == '\U{2029}'
    || c == '\U{202F}'
    || c == '\U{205F}'
    || c == '\U{3000}'
  }

  predicate NoSpace(s: string)
  {
    forall i :: 0 <= i < |s| ==> !IsSpace(s[i])
  }

  predicate AllSpace(s: string)
  {
    forall i :: 0 <= i < |s| ==> IsSpace(s[i])
  }

  /** A non-empty run of non-space characters: what `Fields` yields. */
  predicate IsWord(s: string)
  {
    |s| > 0 && NoSpace(s)
  }

  /** Length of the longest space-free prefix of `s`. */
  function WordLength(s: string): (n: nat)
    ensures n <= |s|
    ensures NoSpace(s[..n])
    ensures n < |s| ==> IsSpace(s[n])
    decreases |s|
  {
    if |s| == 0 || IsSpace(s[0]) then 0 else 1 + WordLength(s[1..])
  }

  /** `strings.Fields(s)`: the maximal space-free runs of `s`, in order. */
  function Fields(s: string): (fs: seq<string>)
    ensures forall k :: 0 <= k < |fs| ==> IsWord(fs[k])
    decreases |s|
  {
    if |s| == 0 then []
    else if IsSpace(s[0]) then Fields(s[1..])
    else
      var n := WordLength(s);
      [s[..n]] + Fields(s[n..])
  }

  /* ---------- shape lemmas ---------- */

  /** Leading white space does not change the fields. */
  lemma {:induction false} FieldsSkipSpace(lead: string, s: string)
    requires AllSpace(lead)
    ensures Fields(lead + s) == Fields(s)
    decreases |lead|
  {
    if |lead| > 0 {
      assert (lead + s)[1..] == lead[1..] + s;
      FieldsSkipSpace(lead[1..], s);
    } else {
      assert lead + s == s;
    }
  }

  /** A word followed by white space (or by nothing) is the first field. */
  lemma FieldsWord(w: string, s: string)
    requires IsWord(w)
    requires |s| == 0 || IsSpace(s[0])
    ensures Fields(w + s) == [w] + Fields(s)
  {
    var t := w + s;
    assert WordLength(t) == |w| by {
      WordLengthOfWord(w, s);
    }
    assert t[..|w|] == w;
    assert t[|w|..] == s;
  }

  lemma {:induction false} WordLengthOfWord(w: string, s: string)
    requires NoSpace(w)
    requires |s| == 0 || IsSpace(s[0])
    ensures WordLength(w + s) == |w|
    decreases |w|
  {
    if |w| > 0 {
      assert (w + s)[1..] == w[1..] + s;
      WordLengthOfWord(w[1..], s);
    } else {
      assert w + s == s;
    }
  }

  /** Only white space has no fields. */
  lemma {:induction false} FieldsEmpty(s: string)
    ensures Fields(s) == [] <==> AllSpace(s)
    decreases |s|
  {
    if |s| > 0 {
      FieldsEmpty(s[1..]);
    }
  }

  /** White space, a word, then white space: exactly one field. */
  lemma FieldsOfOne(lead: string, w: string, trail: string)
    requires AllSpace(lead) && IsWord(w) && AllSpace(trail)
    ensures Fields(lead + w + trail) == [w]
  {
    FieldsSkipSpace(lead, w + trail);
    assert lead + w + trail == lead + (w + trail);
    FieldsWord(w, trail);
    FieldsEmpty(trail);
  }

  /** Two words separated by non-empty white space, with optional white
      space around them, have exactly those two fields. */
  lemma FieldsOfTwo(lead: string, a: string, mid: string, b: string, trail: string)
    requires AllSpace(lead) && AllSpace(mid) && AllSpace(trail) && |mid| > 0
    requires IsWord(a) && IsWord(b)
    ensures Fields(lead + a + mid + b + trail) == [a, b]
  {
    var tail := mid + b + trail;
    assert Fields(tail) == [b] by {
      FieldsOfOne(mid, b, trail);
    }
    assert Fields(a + tail) == [a, b] by {
      assert tail[0] == mid[0];
      FieldsWord(a, tail);
    }
    RegroupFive(lead, a, mid, b, trail);
    FieldsSkipSpace(lead, a + tail);
  }

  /** Conversely, a string with a single field is that word surrounded by
      white space. */
  lemma {:induction false} OneFieldShape(s: string, w: string) returns (lead: string, trail: string)
    requires Fields(s) == [w]
    ensures AllSpace(lead) && AllSpace(trail)
    ensures s == lead + w + trail
    decreases |s|
  {
    if IsSpace(s[0]) {
      assert Fields(s) == Fields(s[1..]);
      var lead', trail' := OneFieldShape(s[1..], w);
      lead, trail := [s[0]] + lead', trail';
      calc {
        s;
        [s[0]] + s[1..];
        [s[0]] + (lead' + w + trail');
        lead + w + trail;
      }
    } else {
      var n := WordLength(s);
      var rest := s[n..];
      var fs := Fields(s);
      assert fs == [s[..n]] + Fields(rest);
      assert fs[0] == s[..n];
      assert fs[1..] == Fields(rest);
      FieldsEmpty(rest);
      lead, trail := "", rest;
      assert s == s[..n] + rest;
    }
  }

  /** Conversely, a string with exactly two fields is those two words
      separated by non-empty white space, with white space around them. */
  lemma {:induction false} TwoFieldShape(s: string, a: string, b: string)
    returns (lead: string, mid: string, trail: string)
    requires Fields(s) == [a, b]
    ensures AllSpace(lead) && AllSpace(mid) && AllSpace(trail) && |mid| > 0
    ensures s == lead + a + mid + b + trail
    decreases |s|
  {
    if IsSpace(s[0]) {
      assert Fields(s) == Fields(s[1..]);
      var lead', mid', trail' := TwoFieldShape(s[1..], a, b);
      lead, mid, trail := [s[0]] + lead', mid', trail';
      calc {
        s;
        [s[0]] + s[1..];
        [s[0]] + (lead' + a + mid' + b + trail');
        lead + a + mid + b + trail;
      }
    } else {
      lead := "";
      mid, trail := TwoFieldShapeAtWord(s, a, b);
    }
  }

  /** The case of `TwoFieldShape` where `s` starts with its first word. */
  lemma TwoFieldShapeAtWord(s: string, a: string, b: string) returns (mid: string, trail: string)
    requires Fields(s) == [a, b]
    requires !IsSpace(s[0])
    ensures AllSpace(mid) && AllSpace(trail) && |mid| > 0
    ensures s == a + mid + b + trail
  {
    var n := WordLength(s);
    var rest := s[n..];
    var fs := Fields(s);
    assert fs == [s[..n]] + Fields(rest);
    assert fs[0] == s[..n];
    assert fs[1..] == Fields(rest);
    var m, t := OneFieldShape(rest, b);
    assert IsWord(b) by {
      assert Fields(rest)[0] == b;
    }
    assert |m| > 0 by {
      assert IsSpace(rest[0]);
      FirstChar(m, b, t);
    }
    mid, trail := m, t;
    calc {
      s;
      s[..n] + rest;
      a + (m + b + t);
      a + mid + b + trail;
    }
  }

  /** Concatenation regrouped around the first two pieces. */
  lemma RegroupFive(lead: string, a: string, mid: string, b: string, trail: string)
    ensures lead + a + mid + b + trail == lead + (a + (mid + b + trail))
  {
  }

  lemma FirstChar(m: string, b: string, t: string)
    requires |b| > 0
    ensures (m + b + t)[0] == if |m| > 0 then m[0] else b[0]
  {
  }
}
