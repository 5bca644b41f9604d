/** Python's string primitives that the script relies on, stated on
    `seq<char>`: what counts as whitespace, `str.strip()` with no argument,
    and `str.replace()` for single-character arguments. */
module Strings {

  /** Python's `str.isspace()` on one character; `str.strip()` with no
      argument removes exactly these characters from both ends. */
  function IsSpace(c: char): (b: bool)
    ensures c == ' ' || c == '\t' || c == '\n' || c == '\r' ==> b
    ensures b ==> c != '_' && !('0' <= c <= '9') && !('a' <= c <= 'z') && !('A' <= c <= 'Z')
  {
    var n := c as int;
    (0x09 <= n <= 0x0D) || (0x1C <= n <= 0x20) || n == 0x85 || n == 0xA0 || n == 0x1680 ||
    (0x2000 <= n <= 0x200A) || n == 0x2028 || n == 0x2029 || n == 0x202F || n == 0x205F || n == 0x3000
  }

  /** No whitespace at either end: the shape `str.strip()` leaves. */
  predicate Trimmed(s: string) {
    s == [] || (!IsSpace(s[0]) && !IsSpace(s[|s| - 1]))
  }

  /** Where the text of `s[..hi]` ends once trailing whitespace is dropped. */
  function TrimEnd(s: string, hi: nat): (e: nat)
    requires hi <= |s|
    ensures e <= hi
    ensures forall k :: e <= k < hi ==> IsSpace(s[k])
    ensures e == 0 || !IsSpace(s[e - 1])
  {
    if hi > 0 && IsSpace(s[hi - 1]) then TrimEnd(s, hi - 1) else hi
  }

  /** Where the text of `s[lo..hi]` starts once leading whitespace is dropped. */
  function TrimStart(s: string, lo: nat, hi: nat): (b: nat)
    requires lo <= hi <= |s|
    ensures lo <= b <= hi
    ensures forall k :: lo <= k < b ==> IsSpace(s[k])
    ensures b == hi || !IsSpace(s[b])
    decreases hi - lo
  {
    if lo < hi && IsSpace(s[lo]) then TrimStart(s, lo + 1, hi) else lo
  }

  /** `str.strip()` with no argument. */
  function Strip(s: string): (r: string)
    ensures |r| <= |s| && Trimmed(r)
  {
    var hi := TrimEnd(s, |s|);
    s[TrimStart(s, 0, hi)..hi]
  }

  /** What `Strip` removes: `Strip(s)` is the slice of `s` between `lo` and
      `hi`, and everything outside that slice is whitespace. */
  lemma StripSlice(s: string) returns (lo: nat, hi: nat)
    ensures lo <= hi <= |s| && Strip(s) == s[lo..hi]
    ensures forall k :: 0 <= k < lo ==> IsSpace(s[k])
    ensures forall k :: hi <= k < |s| ==> IsSpace(s[k])
  {
    hi := TrimEnd(s, |s|);
    lo := TrimStart(s, 0, hi);
  }

  /** A string without whitespace at its ends is its own strip. */
  lemma StripTrimmed(s: string)
    requires Trimmed(s)
    ensures Strip(s) == s
  {
  }

  /** Strip is determined by the whitespace it removes: whenever `s[lo..hi]`
      is trimmed and everything outside it is whitespace, it is `Strip(s)`. */
  lemma StripUnique(s: string, lo: nat, hi: nat)
    requires lo <= hi <= |s|
    requires forall k :: 0 <= k < lo ==> IsSpace(s[k])
    requires forall k :: hi <= k < |s| ==> IsSpace(s[k])
    requires Trimmed(s[lo..hi])
    ensures Strip(s) == s[lo..hi]
  {
    var e := TrimEnd(s, |s|);
    if lo < hi {
      assert !IsSpace(s[hi - 1]) && !IsSpace(s[lo]);
      assert e == hi;
    }
  }

  /** Python's `s.replace(pat, sub)` when both arguments are single characters. */
  function ReplaceChar(s: string, pat: char, sub: char): (r: string)
    ensures |r| == |s|
    ensures forall k :: 0 <= k < |s| ==> r[k] == if s[k] == pat then sub else s[k]
  {
    if s == [] then [] else [if s[0] == pat then sub else s[0]] + ReplaceChar(s[1..], pat, sub)
  }

  /** Every character of `s` that is one of `chars` replaced by `sub`, in a
      single pass over `s`. */
  function ReplaceAny(s: string, chars: seq<char>, sub: char): (r: string)
    ensures |r| == |s|
    ensures forall k :: 0 <= k < |s| ==> r[k] == if s[k] in chars then sub else s[k]
  {
    if s == [] then [] else [if s[0] in chars then sub else s[0]] + ReplaceAny(s[1..], chars, sub)
  }

  /** Replacing nothing leaves the string as it is. */
  lemma ReplaceAnyNone(s: string, sub: char)
    ensures ReplaceAny(s, [], sub) == s
  {
    var r := ReplaceAny(s, [], sub);
    assert forall k :: 0 <= k < |s| ==> r[k] == s[k];
  }

  /** Replacing the characters of `chars` one after the other, with Python's
      single-character `replace`, does what one pass over all of them does:
      a further `replace` of `c` extends the list by `c`. */
  lemma ReplaceAnySnoc(s: string, chars: seq<char>, c: char, sub: char)
    ensures ReplaceAny(s, chars + [c], sub) == ReplaceChar(ReplaceAny(s, chars, sub), c, sub)
  {
    var lhs := ReplaceAny(s, chars + [c], sub);
    var rhs := ReplaceChar(ReplaceAny(s, chars, sub), c, sub);
    forall k | 0 <= k < |s| ensures lhs[k] == rhs[k] {
      assert s[k] in chars + [c] <==> s[k] in chars || s[k] == c;
    }
  }

  /** Replacing commutes with taking a slice. */
  lemma ReplaceAnySlice(s: string, chars: seq<char>, sub: char, lo: nat, hi: nat)
    requires lo <= hi <= |s|
    ensures ReplaceAny(s, chars, sub)[lo..hi] == ReplaceAny(s[lo..hi], chars, sub)
  {
    var lhs := ReplaceAny(s, chars, sub)[lo..hi];
    var rhs := ReplaceAny(s[lo..hi], chars, sub);
    forall k | 0 <= k < hi - lo ensures lhs[k] == rhs[k] {
      assert s[lo..hi][k] == s[lo + k];
    }
  }
}
