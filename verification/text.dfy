/** The three string operations the inventory relies on: Python's
    `str.strip()` (no argument), `str.lower()` and the `in` substring test. */
module Text {

  /** Python's `str.isspace()` for one code point: the characters that
      `str.strip()` removes when called without an argument. */
  predicate IsSpace(c: char)
  {
    || ('\t' <= c <= '\r')
    || ('\U{1C}' <= c <= ' ')
    || c == '\U{85}' || c == '\U{A0}' || c == '\U{1680}'
    || ('\U{2000}' <= c <= '\U{200A}')
    || c == '\U{2028}' || c == '\U{2029}' || c == '\U{202F}'
    || c == '\U{205F}' || c == '\U{3000}'
  }

  predicate AllSpace(s: string)
  {
    forall i :: 0 <= i < |s| ==> IsSpace(s[i])
  }

  /** `r` is what is left of `s` once the whitespace runs `s[..k]` and
      `s[k + |r|..]` are cut off. */
  predicate PaddedAt(s: string, r: string, k: int)
  {
    && 0 <= k <= |s| - |r|
    && s[k..k + |r|] == r
    && AllSpace(s[..k])
    && AllSpace(s[k + |r|..])
  }

  /** Neither end of `r` can be stripped further. */
  predicate Unpadded(r: string)
  {
    r == [] || (!IsSpace(r[0]) && !IsSpace(r[|r| - 1]))
  }

  /** Python's `s.strip()`: `s` without its leading and trailing whitespace,
      removed one code point at a time. */
  function Strip(s: string): string
    decreases |s|
  {
    if |s| > 0 && IsSpace(s[0]) then Strip(s[1..])
    else if |s| > 0 && IsSpace(s[|s| - 1]) then Strip(s[..|s| - 1])
    else s
  }

  /** One more whitespace character in front keeps a padding valid. */
  lemma PadFront(c: char, t: string, r: string, k: int)
    requires IsSpace(c) && PaddedAt(t, r, k)
    ensures PaddedAt([c] + t, r, k + 1)
  {
  }

  /** One more whitespace character behind keeps a padding valid. */
  lemma PadBack(t: string, c: char, r: string, k: int)
    requires IsSpace(c) && PaddedAt(t, r, k)
    ensures PaddedAt(t + [c], r, k)
  {
  }

  /** What `Strip` computes: a slice of `s` flanked by whitespace only, whose
      own ends are not whitespace. */
  lemma {:induction false} StripSpec(s: string)
    ensures |Strip(s)| <= |s|
    ensures Unpadded(Strip(s))
    ensures exists k :: PaddedAt(s, Strip(s), k)
    decreases |s|
  {
    var r := Strip(s);
    if |s| > 0 && IsSpace(s[0]) {
      var t := s[1..];
      assert r == Strip(t);
      StripSpec(t);
      var k :| PaddedAt(t, r, k);
      PadFront(s[0], t, r, k);
      assert [s[0]] + t == s;
    } else if |s| > 0 && IsSpace(s[|s| - 1]) {
      var t := s[..|s| - 1];
      assert r == Strip(t);
      StripSpec(t);
      var k :| PaddedAt(t, r, k);
      PadBack(t, s[|s| - 1], r, k);
      assert t + [s[|s| - 1]] == s;
    } else {
      assert r == s;
      assert s[0..|s|] == s;
      assert PaddedAt(s, s, 0);
    }
  }

  /** In a padded string every code point before the first non-space one
      belongs to the padding, so a non-space first character pins down `k`. */
  lemma PaddingStart(s: string, r: string, k: int)
    requires PaddedAt(s, r, k) && r != [] && !IsSpace(r[0])
    ensures forall i :: 0 <= i < k ==> IsSpace(s[i])
    ensures !IsSpace(s[k])
  {
  }

  /** The characterisation in `Strip`'s contract determines its result:
      any unpadded core of `s` surrounded by whitespace is `Strip(s)`. */
  lemma {:induction false} StripUnique(s: string, r: string, k: int)
    requires PaddedAt(s, r, k) && Unpadded(r)
    ensures Strip(s) == r
  {
    StripSpec(s);
    var r' := Strip(s);
    var k' :| PaddedAt(s, r', k');
    if r != [] && r' != [] {
      PaddingStart(s, r, k);
      PaddingStart(s, r', k');
    }
  }

  /** Extra whitespace around a string does not change its stripped form. */
  lemma StripIgnoresPadding(p: string, s: string, q: string)
    requires AllSpace(p) && AllSpace(q)
    ensures Strip(p + s + q) == Strip(s)
  {
    StripSpec(s);
    var r := Strip(s);
    var k :| PaddedAt(s, r, k);
    var t := p + s + q;
    assert t[|p| + k..|p| + k + |r|] == s[k..k + |r|];
    assert t[..|p| + k] == p + s[..k];
    assert t[|p| + k + |r|..] == s[k + |r|..] + q;
    AllSpaceAppend(p, s[..k]);
    AllSpaceAppend(s[k + |r|..], q);
    StripUnique(t, r, |p| + k);
  }

  lemma AllSpaceAppend(a: string, b: string)
    requires AllSpace(a) && AllSpace(b)
    ensures AllSpace(a + b)
  {
  }

  /** A whitespace-only string strips to the empty string. */
  lemma StripAllSpace(s: string)
    requires AllSpace(s)
    ensures Strip(s) == ""
  {
  }

  /** ASCII case folding of one character. */
  function LowerChar(c: char): (d: char)
  {
    if 'A' <= c <= 'Z' then (c as int + ('a' as int - 'A' as int)) as char else c
  }

  /** Python's `s.lower()` restricted to ASCII letters. */
  function Lower(s: string): (r: string)
    ensures |r| == |s|
    ensures forall i :: 0 <= i < |s| ==> r[i] == LowerChar(s[i])
    ensures forall i :: 0 <= i < |r| ==> !('A' <= r[i] <= 'Z')
  {
    seq(|s|, i requires 0 <= i < |s| => LowerChar(s[i]))
  }

  /** Case folding neither creates nor removes whitespace. */
  lemma LowerKeepsSpace(c: char)
    ensures IsSpace(LowerChar(c)) <==> IsSpace(c)
    ensures IsSpace(c) ==> LowerChar(c) == c
  {
  }

  /** Lower-casing a slice is slicing the lower-cased string. */
  lemma LowerSlice(s: string, i: int, j: int)
    requires 0 <= i <= j <= |s|
    ensures Lower(s)[i..j] == Lower(s[i..j])
  {
  }

  /** Lower-casing keeps a whitespace run as it is. */
  lemma LowerAllSpace(s: string)
    requires AllSpace(s)
    ensures Lower(s) == s
  {
    forall i | 0 <= i < |s|
      ensures Lower(s)[i] == s[i]
    {
      LowerKeepsSpace(s[i]);
    }
  }

  /** Lower-casing twice is lower-casing once. */
  lemma LowerIdempotent(s: string)
    ensures Lower(Lower(s)) == Lower(s)
  {
  }

  /** Lower-casing keeps a whitespace padding, with the core lower-cased. */
  lemma LowerPadded(s: string, r: string, k: int)
    requires PaddedAt(s, r, k)
    ensures PaddedAt(Lower(s), Lower(r), k)
  {
    var t := Lower(s);
    LowerSlice(s, k, k + |r|);
    LowerSlice(s, 0, k);
    LowerSlice(s, k + |r|, |s|);
    assert s[..k] == s[0..k] && t[..k] == t[0..k];
    assert s[k + |r|..] == s[k + |r|..|s|] && t[k + |r|..] == t[k + |r|..|s|];
    LowerAllSpace(s[..k]);
    LowerAllSpace(s[k + |r|..]);
  }

  /** Lower-casing cannot expose whitespace at either end. */
  lemma LowerUnpadded(r: string)
    requires Unpadded(r)
    ensures Unpadded(Lower(r))
  {
    if r != [] {
      LowerKeepsSpace(r[0]);
      LowerKeepsSpace(r[|r| - 1]);
    }
  }

  /** Stripping and lower-casing commute, since case folding maps whitespace
      to itself and everything else to non-whitespace. */
  lemma {:induction false} StripLowerCommute(s: string)
    ensures Strip(Lower(s)) == Lower(Strip(s))
  {
    StripSpec(s);
    var r := Strip(s);
    var k :| PaddedAt(s, r, k);
    LowerPadded(s, r, k);
    LowerUnpadded(r);
    StripUnique(Lower(s), Lower(r), k);
  }

  /** `needle` occurs in `hay` starting at index `i`. */
  predicate OccursAt(needle: string, hay: string, i: int)
    requires 0 <= i <= |hay| - |needle|
  {
    hay[i..i + |needle|] == needle
  }

  /** Python's `needle in hay` for strings. */
  predicate Contains(needle: string, hay: string)
  {
    exists i :: 0 <= i <= |hay| - |needle| && OccursAt(needle, hay, i)
  }

  /** The empty string occurs in every string. */
  lemma EmptyContained(hay: string)
    ensures Contains("", hay)
  {
    assert OccursAt("", hay, 0);
  }
}
