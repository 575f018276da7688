/**
 * Character classes and string helpers shared by the validators, the batch
 * ingestor and the terminal: Python's `str.strip()`, the `\w` and `\d` classes
 * of Python's `re` (restricted to ASCII), and a first-occurrence search.
 */
module Text {

  /** `\d`: an ASCII decimal digit. */
  predicate IsDigit(c: char) {
    '0' <= c <= '9'
  }

  /** `\w`: an ASCII letter, an ASCII digit or the underscore. */
  predicate IsWordChar(c: char) {
    ('a' <= c <= 'z') || ('A' <= c <= 'Z') || IsDigit(c) || c == '_'
  }

  /** The characters for which Python's `str.isspace()` holds. */
  predicate IsSpace(c: char) {
    c == ' ' || c == '\t' || c == '\n' || c == '\r' || c == '\U{000B}' || c == '\U{000C}'
    || ('\U{001C}' <= c <= '\U{001F}') || c == '\U{0085}' || c == '\U{00A0}' || c == '\U{1680}'
    || ('\U{2000}' <= c <= '\U{200A}') || c == '\U{2028}' || c == '\U{2029}' || c == '\U{202F}'
    || c == '\U{205F}' || c == '\U{3000}'
  }

  predicate AllDigits(s: string) {
    forall i :: 0 <= i < |s| ==> IsDigit(s[i])
  }

  predicate AllWordChars(s: string) {
    forall i :: 0 <= i < |s| ==> IsWordChar(s[i])
  }

  predicate AllSpace(s: string) {
    forall i :: 0 <= i < |s| ==> IsSpace(s[i])
  }

  /**
   * Python's `str.strip()` without arguments: whitespace is cut from the
   * front, then from the back, until neither end is whitespace.
   */
  function Strip(s: string): (r: string)
    ensures |r| <= |s|
  {
    if s != [] && IsSpace(s[0]) then Strip(s[1..])
    else if s != [] && IsSpace(s[|s| - 1]) then Strip(s[..|s| - 1])
    else s
  }

  /** What `Strip` keeps neither starts nor ends with whitespace. */
  lemma {:induction false} StripEnds(s: string)
    ensures Strip(s) == [] || (!IsSpace(Strip(s)[0]) && !IsSpace(Strip(s)[|Strip(s)| - 1]))
  {
    if s != [] && IsSpace(s[0]) {
      StripEnds(s[1..]);
    } else if s != [] && IsSpace(s[|s| - 1]) {
      StripEnds(s[..|s| - 1]);
    }
  }

  /** Where the text kept by `Strip` starts in `s`. */
  function StripStart(s: string): (i: nat)
    ensures i <= |s|
  {
    if s != [] && IsSpace(s[0]) then 1 + StripStart(s[1..])
    else if s != [] && IsSpace(s[|s| - 1]) then StripStart(s[..|s| - 1])
    else 0
  }

  /** `Strip` keeps a slice of `s` and what it cuts off at either end is whitespace. */
  predicate IsStripSlice(s: string, r: string, i: nat) {
    i <= |s| - |r| && r == s[i..i + |r|] && AllSpace(s[..i]) && AllSpace(s[i + |r|..])
  }

  lemma {:induction false} StripIsSlice(s: string)
    ensures IsStripSlice(s, Strip(s), StripStart(s))
  {
    if s != [] && IsSpace(s[0]) {
      StripIsSlice(s[1..]);
      SliceAfterSpace(s, Strip(s[1..]), StripStart(s[1..]));
    } else if s != [] && IsSpace(s[|s| - 1]) {
      StripIsSlice(s[..|s| - 1]);
      SliceBeforeSpace(s, Strip(s[..|s| - 1]), StripStart(s[..|s| - 1]));
    } else {
      assert s[..0] == [] && s[|s|..] == [];
    }
  }

  /** A whitespace-framed slice of `s[1..]` is one of `s` when `s[0]` is whitespace. */
  lemma SliceAfterSpace(s: string, r: string, i: nat)
    requires s != [] && IsSpace(s[0])
    requires IsStripSlice(s[1..], r, i)
    ensures IsStripSlice(s, r, i + 1)
  {
    assert s[..i + 1] == [s[0]] + s[1..][..i];
    assert s[i + 1 + |r|..] == s[1..][i + |r|..];
  }

  /** A whitespace-framed slice of `s[..|s| - 1]` is one of `s` when its last character is whitespace. */
  lemma SliceBeforeSpace(s: string, r: string, i: nat)
    requires s != [] && IsSpace(s[|s| - 1])
    requires IsStripSlice(s[..|s| - 1], r, i)
    ensures IsStripSlice(s, r, i)
  {
    assert s[..i] == s[..|s| - 1][..i];
    assert s[i + |r|..] == s[..|s| - 1][i + |r|..] + [s[|s| - 1]];
  }

  /** Stripping leaves nothing exactly when the text is whitespace only. */
  lemma StripEmptyIffBlank(s: string)
    ensures Strip(s) == [] <==> AllSpace(s)
  {
    var r, i := Strip(s), StripStart(s);
    StripIsSlice(s);
    if r == [] {
      forall k | 0 <= k < |s|
        ensures IsSpace(s[k])
      {
        if k < i {
          assert s[..i][k] == s[k];
        } else {
          assert s[i..][k - i] == s[k];
        }
      }
    } else {
      StripEnds(s);
      assert r[0] == s[i];
    }
  }

  /** Stripping twice is stripping once. */
  lemma StripIdempotent(s: string)
    ensures Strip(Strip(s)) == Strip(s)
  {
    StripEnds(s);
  }

  /**
   * Position of the first `c` in `s`, or `|s|` when `s` holds none
   * (Python's `str.find` with `len(s)` standing for -1).
   */
  function IndexOf(s: string, c: char): (i: nat)
    ensures i <= |s|
    ensures i < |s| ==> s[i] == c
    ensures forall k :: 0 <= k < i ==> s[k] != c
  {
    if s == [] then 0
    else if s[0] == c then 0
    else
      var i := 1 + IndexOf(s[1..], c);
      assert forall k :: 1 <= k < i ==> s[k] == s[1..][k - 1];
      i
  }

  /** Text appended after an occurrence of `c` does not move its first occurrence. */
  lemma IndexOfAppend(s: string, t: string, c: char)
    requires IndexOf(s, c) < |s|
    ensures IndexOf(s + t, c) == IndexOf(s, c)
  {
    var i := IndexOf(s, c);
    assert (s + t)[i] == s[i];
    assert forall k :: 0 <= k < i ==> (s + t)[k] == s[k];
  }

  /** Position of the last `c` in `s`, or -1 when `s` holds none. */
  function LastIndexOf(s: string, c: char): (i: int)
    ensures -1 <= i < |s|
    ensures 0 <= i ==> s[i] == c
    ensures forall k :: i < k < |s| ==> s[k] != c
  {
    if s == [] then -1
    else if s[|s| - 1] == c then |s| - 1
    else
      var i := LastIndexOf(s[..|s| - 1], c);
      assert forall k :: i < k < |s| - 1 ==> s[k] == s[..|s| - 1][k];
      i
  }

  /** Python's `str.lower()` on ASCII letters. */
  function AsciiLower(s: string): (r: string)
    ensures |r| == |s|
    ensures forall i :: 0 <= i < |s| ==> r[i] == (if 'A' <= s[i] <= 'Z' then (s[i] as int + 32) as char else s[i])
  {
    if s == [] then []
    else [if 'A' <= s[0] <= 'Z' then (s[0] as int + 32) as char else s[0]] + AsciiLower(s[1..])
  }
}
