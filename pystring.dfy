/** The Python string built-ins the engines rely on: `str.strip()`, `str.upper()`,
    `str.endswith` and the substring test `k in s`. */
module PyString {

  /** The characters for which Python's `str.isspace()` holds. */
  predicate IsSpace(c: char)
  {
    || c == ' ' || c == '\t' || c == '\n' || c == '\r' || c == '\U{0B}' || c == '\U{0C}'
    || ('\U{1C}' <= c <= '\U{1F}') || c == '\U{85}' || c == '\U{A0}' || c == '\U{1680}'
    || ('\U{2000}' <= c <= '\U{200A}') || c == '\U{2028}' || c == '\U{2029}'
    || c == '\U{202F}' || c == '\U{205F}' || c == '\U{3000}'
  }

  /** `s.lstrip()`: drops the leading whitespace of `s` and nothing else. */
  function TrimStart(s: string): (r: string)
    ensures |r| <= |s|
    ensures forall i :: 0 <= i < |s| - |r| ==> IsSpace(s[i])
    ensures r == [] || !IsSpace(r[0])
    decreases |s|
  {
    if |s| > 0 && IsSpace(s[0]) then TrimStart(s[1..]) else s
  }

  /** `s.rstrip()`: drops the trailing whitespace of `s` and nothing else. */
  function TrimEnd(s: string): (r: string)
    ensures |r| <= |s|
    ensures forall i :: |r| <= i < |s| ==> IsSpace(s[i])
    ensures r == [] || !IsSpace(r[|r| - 1])
    decreases |s|
  {
    if |s| > 0 && IsSpace(s[|s| - 1]) then TrimEnd(s[..|s| - 1]) else s
  }

  /** What `lstrip` keeps is a suffix of its input. */
  lemma {:induction false} TrimStartIsSuffix(s: string)
    ensures TrimStart(s) == s[|s| - |TrimStart(s)|..]
    decreases |s|
  {
    if |s| > 0 && IsSpace(s[0]) {
      TrimStartIsSuffix(s[1..]);
    }
  }

  /** What `rstrip` keeps is a prefix of its input. */
  lemma {:induction false} TrimEndIsPrefix(s: string)
    ensures TrimEnd(s) == s[..|TrimEnd(s)|]
    decreases |s|
  {
    if |s| > 0 && IsSpace(s[|s| - 1]) {
      TrimEndIsPrefix(s[..|s| - 1]);
    }
  }

  /** `s.strip()` with no argument. */
  function Strip(s: string): string
  {
    TrimEnd(TrimStart(s))
  }

  /** A line made only of whitespace (a blank line with its newline) strips to "". */
  lemma StripBlank(s: string)
    requires forall i :: 0 <= i < |s| ==> IsSpace(s[i])
    ensures Strip(s) == ""
  {
    TrimStartIsSuffix(s);
  }

  /** A stripped string is a contiguous slice of the input with no whitespace at either end. */
  lemma StripSlice(s: string)
    ensures exists i, j :: 0 <= i <= j <= |s| && Strip(s) == s[i..j]
    ensures Strip(s) == [] || (!IsSpace(Strip(s)[0]) && !IsSpace(Strip(s)[|Strip(s)| - 1]))
  {
    var t := TrimStart(s);
    var r := TrimEnd(t);
    var i := |s| - |t|;
    TrimStartIsSuffix(s);
    TrimEndIsPrefix(t);
    assert t == s[i..];
    assert r == t[..|r|];
    assert s[i..][..|r|] == s[i..i + |r|];
    assert Strip(s) == s[i..i + |r|];
    if r != [] {
      assert r[0] == t[0];
    }
  }

  /** ASCII `str.upper()` of one character. */
  function UpperChar(c: char): char
  {
    if 'a' <= c <= 'z' then (c as int - 32) as char else c
  }

  predicate IsLowerAscii(c: char)
  {
    'a' <= c <= 'z'
  }

  /** `s.upper()`, restricted to ASCII letters. */
  function Upper(s: string): (r: string)
    ensures |r| == |s|
    ensures forall i :: 0 <= i < |s| ==> r[i] == UpperChar(s[i])
  {
    seq(|s|, i requires 0 <= i < |s| => UpperChar(s[i]))
  }

  /** An upper-cased string holds no lower-case ASCII letter, and so differs from
      every string that does. */
  lemma UpperHasNoLower(s: string, d: string)
    requires exists i :: 0 <= i < |d| && IsLowerAscii(d[i])
    ensures Upper(s) != d
  {
    var i :| 0 <= i < |d| && IsLowerAscii(d[i]);
    if |Upper(s)| == |d| {
      assert !IsLowerAscii(Upper(s)[i]);
    }
  }

  /** `s.endswith(suffix)`. */
  predicate EndsWith(s: string, suffix: string)
  {
    |suffix| <= |s| && s[|s| - |suffix|..] == suffix
  }

  /** `k` occurs in `s` starting at index `i`. */
  predicate OccursAt(k: string, s: string, i: nat)
  {
    i + |k| <= |s| && s[i..i + |k|] == k
  }

  /** Python's `k in s` for strings: `k` is a prefix of `s` or of one of its suffixes. */
  predicate Occurs(k: string, s: string)
    decreases |s|
  {
    k <= s || (|s| > 0 && Occurs(k, s[1..]))
  }

  /** The recursive substring test agrees with "some index where `k` starts". */
  lemma {:induction false} OccursIff(k: string, s: string)
    ensures Occurs(k, s) <==> exists i: nat :: OccursAt(k, s, i)
    decreases |s|
  {
    if k <= s {
      assert OccursAt(k, s, 0);
    } else if |s| > 0 {
      OccursIff(k, s[1..]);
      if Occurs(k, s[1..]) {
        var i: nat :| OccursAt(k, s[1..], i);
        assert s[1..][i..i + |k|] == s[i + 1..i + 1 + |k|];
        assert OccursAt(k, s, i + 1);
      }
      if exists i: nat :: OccursAt(k, s, i) {
        var i: nat :| OccursAt(k, s, i);
        assert s[1..][i - 1..i - 1 + |k|] == s[i..i + |k|];
        assert OccursAt(k, s[1..], i - 1);
      }
    }
  }

  /** Every character of an occurring keyword appears in the text. */
  lemma OccursOnlyWithItsCharacters(k: string, s: string, c: char)
    requires c in k && c !in s
    ensures !Occurs(k, s)
  {
    OccursIff(k, s);
  }

  /** A text holding `p` holds every prefix of `p`. */
  lemma OccursOfPrefix(k: string, p: string, s: string)
    requires k <= p && Occurs(p, s)
    ensures Occurs(k, s)
  {
    OccursIff(p, s);
    var i: nat :| OccursAt(p, s, i);
    assert s[i..i + |k|] == s[i..i + |p|][..|k|];
    assert OccursAt(k, s, i);
    OccursIff(k, s);
  }
}
