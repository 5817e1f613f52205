/** The few Python `str` operations the bot relies on, over `seq<char>`. */
module Text {

  /** Python's `str.isspace()` for one character: the ASCII controls TAB..CR and
      FS..US, the space, NEL, NO-BREAK SPACE and the Unicode space and line
      separators. `strip()` without arguments removes exactly these. */
  predicate IsSpace(c: char) {
    c == ' ' || ('\t' <= c <= '\r') || ('\U{1C}' <= c <= '\U{1F}')
    || c == '\U{85}' || c == '\U{A0}' || c == '\U{1680}'
    || ('\U{2000}' <= c <= '\U{200A}') || c == '\U{2028}' || c == '\U{2029}'
    || c == '\U{202F}' || c == '\U{205F}' || c == '\U{3000}'
  }

  /** `s.lstrip()`: `s` without its leading whitespace. */
  function StripLeft(s: string): string {
    if s != [] && IsSpace(s[0]) then StripLeft(s[1..]) else s
  }

  /** `s.rstrip()`: `s` without its trailing whitespace. */
  function StripRight(s: string): string {
    if s != [] && IsSpace(s[|s| - 1]) then StripRight(s[..|s| - 1]) else s
  }

  /** `s.strip()`: `s` without its leading and trailing whitespace. */
  function Strip(s: string): string {
    StripRight(StripLeft(s))
  }

  /** `s.lstrip(c)` for a single character `c`: every leading `c` removed. */
  function StripLeftChar(s: string, c: char): string {
    if s != [] && s[0] == c then StripLeftChar(s[1..], c) else s
  }

  /** `lstrip()` keeps a suffix, removes only whitespace, and removes all of it. */
  lemma {:induction false} StripLeftSpec(s: string)
    ensures var r := StripLeft(s);
      && |r| <= |s| && r == s[|s| - |r|..]
      && (forall i :: 0 <= i < |s| - |r| ==> IsSpace(s[i]))
      && (r == [] || !IsSpace(r[0]))
  {
    if s != [] && IsSpace(s[0]) {
      var t := s[1..];
      StripLeftSpec(t);
      var r := StripLeft(t);
      assert StripLeft(s) == r;
      assert t[|t| - |r|..] == s[|s| - |r|..];
      forall i | 0 <= i < |s| - |r| ensures IsSpace(s[i]) {
        if i > 0 {
          assert s[i] == t[i - 1];
        }
      }
    }
  }

  /** `rstrip()` keeps a prefix, removes only whitespace, and removes all of it. */
  lemma {:induction false} StripRightSpec(s: string)
    ensures var r := StripRight(s);
      && |r| <= |s| && r == s[..|r|]
      && (forall i :: |r| <= i < |s| ==> IsSpace(s[i]))
      && (r == [] || !IsSpace(r[|r| - 1]))
  {
    if s != [] && IsSpace(s[|s| - 1]) {
      StripRightSpec(s[..|s| - 1]);
    }
  }

  /** `strip()` keeps a contiguous part of `s`, with whitespace only around it,
      that neither starts nor ends with whitespace. */
  lemma StripSpec(s: string)
    ensures var r := Strip(s);
      && (exists k: nat :: OccursAt(s, r, k))
      && (r == [] || (!IsSpace(r[0]) && !IsSpace(r[|r| - 1])))
  {
    var l := StripLeft(s);
    StripLeftSpec(s);
    StripRightSpec(l);
    var r := Strip(s);
    var k := |s| - |l|;
    assert OccursAt(s, r, k);
  }

  /** `lstrip(c)` keeps a suffix, removes only `c`, and removes all of it. */
  lemma {:induction false} StripLeftCharSpec(s: string, c: char)
    ensures var r := StripLeftChar(s, c);
      && |r| <= |s| && r == s[|s| - |r|..]
      && (forall i :: 0 <= i < |s| - |r| ==> s[i] == c)
      && (r == [] || r[0] != c)
  {
    if s != [] && s[0] == c {
      var t := s[1..];
      StripLeftCharSpec(t, c);
      var r := StripLeftChar(t, c);
      assert StripLeftChar(s, c) == r;
      assert t[|t| - |r|..] == s[|s| - |r|..];
      forall i | 0 <= i < |s| - |r| ensures s[i] == c {
        if i > 0 {
          assert s[i] == t[i - 1];
        }
      }
    }
  }

  /** `str.lower()` restricted to ASCII: A-Z become a-z, every other character stays. */
  function LowerChar(c: char): char {
    if 'A' <= c <= 'Z' then (c as int - 'A' as int + 'a' as int) as char else c
  }

  function Lower(s: string): string {
    if s == [] then [] else [LowerChar(s[0])] + Lower(s[1..])
  }

  /** Lower-casing maps every character on its own and keeps the length. */
  lemma {:induction false} LowerSpec(s: string)
    ensures |Lower(s)| == |s|
    ensures forall i :: 0 <= i < |s| ==> Lower(s)[i] == LowerChar(s[i])
  {
    if s != [] {
      LowerSpec(s[1..]);
    }
  }

  /** `needle` occurs in `haystack` starting at position `i`. */
  predicate OccursAt(haystack: string, needle: string, i: nat) {
    i + |needle| <= |haystack| && haystack[i..i + |needle|] == needle
  }

  /** Python's `needle in haystack` on strings, as a left-to-right scan. */
  function Contains(haystack: string, needle: string): (found: bool)
    ensures found <==> exists i: nat :: OccursAt(haystack, needle, i)
  {
    if |needle| <= |haystack| && haystack[..|needle|] == needle then
      assert OccursAt(haystack, needle, 0);
      true
    else if haystack == [] then
      false
    else
      var rest := Contains(haystack[1..], needle);
      ContainsShift(haystack, needle);
      rest
  }

  /** An occurrence at a position other than 0 is an occurrence in the tail. */
  lemma ContainsShift(haystack: string, needle: string)
    requires haystack != []
    requires !OccursAt(haystack, needle, 0)
    ensures (exists i: nat :: OccursAt(haystack, needle, i)) <==> (exists i: nat :: OccursAt(haystack[1..], needle, i))
  {
    forall i: nat | OccursAt(haystack, needle, i) ensures OccursAt(haystack[1..], needle, i - 1) {
      assert haystack[1..][i - 1..i - 1 + |needle|] == haystack[i..i + |needle|];
    }
    forall i: nat | OccursAt(haystack[1..], needle, i) ensures OccursAt(haystack, needle, i + 1) {
      assert haystack[1..][i..i + |needle|] == haystack[i + 1..i + 1 + |needle|];
    }
  }

  /** Lower-casing twice is lower-casing once. */
  lemma {:induction false} LowerIdempotent(s: string)
    ensures Lower(Lower(s)) == Lower(s)
  {
    LowerSpec(s);
    LowerSpec(Lower(s));
  }

  /** Stripping a character is idempotent: a second `lstrip('@')` changes nothing. */
  lemma StripLeftCharIdempotent(s: string, c: char)
    ensures StripLeftChar(StripLeftChar(s, c), c) == StripLeftChar(s, c)
  {
    StripLeftCharSpec(s, c);
  }

  /** Whitespace on both sides of a text that neither starts nor ends with
      whitespace is exactly what `strip()` removes. */
  lemma {:induction false} StripAround(blanks: string, core: string, tail: string)
    requires forall i :: 0 <= i < |blanks| ==> IsSpace(blanks[i])
    requires forall i :: 0 <= i < |tail| ==> IsSpace(tail[i])
    requires core != [] && !IsSpace(core[0]) && !IsSpace(core[|core| - 1])
    ensures Strip(blanks + core + tail) == core
  {
    if blanks == [] {
      assert blanks + core + tail == core + tail;
      assert StripLeft(core + tail) == core + tail;
      StripRightTail(core, tail);
    } else {
      assert (blanks + core + tail)[1..] == blanks[1..] + core + tail;
      StripAround(blanks[1..], core, tail);
    }
  }

  lemma {:induction false} StripRightTail(core: string, tail: string)
    requires forall i :: 0 <= i < |tail| ==> IsSpace(tail[i])
    requires core != [] && !IsSpace(core[|core| - 1])
    ensures StripRight(core + tail) == core
  {
    if tail == [] {
      assert core + tail == core;
    } else {
      assert (core + tail)[..|core + tail| - 1] == core + tail[..|tail| - 1];
      StripRightTail(core, tail[..|tail| - 1]);
    }
  }
}
