/**
 * Character classes and the few Python `str` operations the extractor uses.
 * Python's `\d`, `\w`, `\s`, `str.lower` and IGNORECASE are Unicode-aware;
 * here they are restricted to ASCII (`\s` keeps the ASCII characters that
 * `str.isspace` accepts, including the separators U+001C..U+001F).
 */
module Chars {

  predicate IsDigit(c: char) { '0' <= c <= '9' }

  predicate IsUpper(c: char) { 'A' <= c <= 'Z' }

  predicate IsLetter(c: char) { 'A' <= c <= 'Z' || 'a' <= c <= 'z' }

  /** `\w` */
  predicate IsWordChar(c: char) { IsLetter(c) || IsDigit(c) || c == '_' }

  /** `\s`, and the characters `str.strip()` removes */
  predicate IsSpace(c: char) { c == ' ' || '\t' <= c <= '\r' || '\U{1C}' <= c <= '\U{1F}' }

  /** `[a-f0-9]` */
  predicate IsLowerHex(c: char) { IsDigit(c) || 'a' <= c <= 'f' }

  /** `[A-Z0-9]` */
  predicate IsUpperAlnum(c: char) { IsUpper(c) || IsDigit(c) }

  function LowerChar(c: char): char
  {
    if IsUpper(c) then (c as int + 32) as char else c
  }

  /** `str.lower()` */
  function Lower(s: string): (r: string)
    ensures |r| == |s|
    ensures forall i :: 0 <= i < |s| ==> r[i] == LowerChar(s[i])
    ensures forall i :: 0 <= i < |r| ==> !IsUpper(r[i])
  {
    seq(|s|, i requires 0 <= i < |s| => LowerChar(s[i]))
  }

  /** Character comparison, case-insensitive under IGNORECASE. */
  predicate CharEq(a: char, b: char, ignoreCase: bool)
  {
    if ignoreCase then LowerChar(a) == LowerChar(b) else a == b
  }

  /** The literal `w` occurs in `s` at position `i`. */
  predicate LitAt(s: string, i: nat, w: string, ignoreCase: bool)
  {
    i + |w| <= |s| && forall j :: 0 <= j < |w| ==> CharEq(s[i + j], w[j], ignoreCase)
  }

  predicate All(s: string, p: char -> bool)
  {
    forall i :: 0 <= i < |s| ==> p(s[i])
  }

  /** `p` holds of every character of `s` at positions `i` up to (not including) `j`. */
  predicate AllBetween(s: string, i: nat, j: nat, p: char -> bool)
  {
    i <= j <= |s| && forall k :: i <= k < j ==> p(s[k])
  }

  /** Length of the longest run of characters satisfying `p` that starts at `i`. */
  function Run(s: string, i: nat, p: char -> bool): (n: nat)
    decreases |s| - i
    ensures i + n <= |s| || n == 0
    ensures forall j :: i <= j < i + n ==> p(s[j])
    ensures i + n < |s| ==> !p(s[i + n])
  {
    if i < |s| && p(s[i]) then 1 + Run(s, i + 1, p) else 0
  }

  /** Every run of `p` from `i` lies within the longest one, and is the longest one when it cannot be extended. */
  lemma {:induction false} RunCovers(s: string, i: nat, j: nat, p: char -> bool)
    requires AllBetween(s, i, j, p)
    ensures j <= i + Run(s, i, p)
    ensures (j == |s| || !p(s[j])) ==> Run(s, i, p) == j - i
    decreases j - i
  {
    if i < j {
      RunCovers(s, i + 1, j, p);
    }
  }

  /** `s[:n]` */
  function Take(s: string, n: nat): (r: string)
    ensures |r| == if |s| <= n then |s| else n
    ensures r == s[..|r|]
  {
    if |s| <= n then s else s[..n]
  }

  /** Characters of `s` that satisfy `keep`, in order (what `re.sub('[^...]', '', s)` leaves). */
  function Filter(s: string, keep: char -> bool): (r: string)
    ensures All(r, keep)
    ensures |r| <= |s|
    ensures forall i :: 0 <= i < |r| ==> r[i] in s
    ensures All(s, keep) ==> r == s
  {
    if s == [] then [] else (if keep(s[0]) then [s[0]] else []) + Filter(s[1..], keep)
  }

  /** `Filter` keeps every occurrence of a kept character and none of the others. */
  lemma {:induction false} FilterCounts(s: string, keep: char -> bool, x: char)
    ensures multiset(Filter(s, keep))[x] == if keep(x) then multiset(s)[x] else 0
  {
    if s != [] {
      assert s == [s[0]] + s[1..];
      FilterCounts(s[1..], keep, x);
    }
  }

  /** `s.replace(a, b)` for single characters. */
  function ReplaceChar(s: string, a: char, b: char): (r: string)
    ensures |r| == |s|
    ensures forall i :: 0 <= i < |s| ==> r[i] == if s[i] == a then b else s[i]
  {
    seq(|s|, i requires 0 <= i < |s| => if s[i] == a then b else s[i])
  }

  /** `s.replace(c, '')` */
  function RemoveChar(s: string, c: char): (r: string)
    ensures r == Filter(s, x => x != c)
    ensures c !in r
    ensures c !in s ==> r == s
  {
    var r := Filter(s, x => x != c);
    assert forall i :: 0 <= i < |r| ==> r[i] != c;
    r
  }

  /** `RemoveChar` drops every occurrence of `c` and keeps every other character. */
  lemma RemoveCharCounts(s: string, c: char)
    ensures multiset(RemoveChar(s, c)) == multiset(s)[c := 0]
  {
    forall x ensures multiset(RemoveChar(s, c))[x] == multiset(s)[c := 0][x] {
      FilterCounts(s, y => y != c, x);
    }
  }

  lemma LowerAppend(a: string, b: string)
    ensures Lower(a + b) == Lower(a) + Lower(b)
  {
  }

  lemma ReplaceCharAppend(s: string, t: string, a: char, b: char)
    ensures ReplaceChar(s + t, a, b) == ReplaceChar(s, a, b) + ReplaceChar(t, a, b)
  {
  }

  /** Removing a character from a concatenation removes it from each part. */
  lemma RemoveCharAppend(s: string, t: string, c: char)
    ensures RemoveChar(s + t, c) == RemoveChar(s, c) + RemoveChar(t, c)
  {
    FilterAppend(s, t, x => x != c);
  }

  /** Length of the longest run of characters satisfying `p` that ends `s`. */
  function TrailingRun(s: string, p: char -> bool): (n: nat)
    ensures n <= |s|
    ensures forall j :: |s| - n <= j < |s| ==> p(s[j])
    ensures n < |s| ==> !p(s[|s| - 1 - n])
  {
    if s != [] && p(s[|s| - 1]) then 1 + TrailingRun(s[..|s| - 1], p) else 0
  }

  /** The part of `s` between its leading and trailing runs of characters satisfying `p`. */
  function Trim(s: string, p: char -> bool): (r: string)
    ensures r == [] || (!p(r[0]) && !p(r[|r| - 1]))
    ensures exists i, j :: 0 <= i <= j <= |s| && r == s[i..j]
                           && (forall k :: 0 <= k < i ==> p(s[k])) && (forall k :: j <= k < |s| ==> p(s[k]))
    ensures (s == [] || (!p(s[0]) && !p(s[|s| - 1]))) ==> r == s
  {
    var i := Run(s, 0, p);
    var t := s[i..];
    var n := TrailingRun(t, p);
    assert t[..|t| - n] == s[i..i + |t| - n];
    assert forall k :: i + |t| - n <= k < |s| ==> s[k] == t[k - i];
    t[..|t| - n]
  }

  /** `s.strip()`: the part of `s` between its leading and trailing whitespace. */
  function Strip(s: string): (r: string)
    ensures r == [] || (!IsSpace(r[0]) && !IsSpace(r[|r| - 1]))
    ensures exists i, j :: 0 <= i <= j <= |s| && r == s[i..j]
                           && (forall k :: 0 <= k < i ==> IsSpace(s[k])) && (forall k :: j <= k < |s| ==> IsSpace(s[k]))
    ensures (s == [] || (!IsSpace(s[0]) && !IsSpace(s[|s| - 1]))) ==> r == s
  {
    Trim(s, IsSpace)
  }

  /** `s.strip(c)` for one character `c`. */
  function StripChar(s: string, c: char): (r: string)
    ensures r == [] || (r[0] != c && r[|r| - 1] != c)
    ensures exists i, j :: 0 <= i <= j <= |s| && r == s[i..j]
                           && (forall k :: 0 <= k < i ==> s[k] == c) && (forall k :: j <= k < |s| ==> s[k] == c)
    ensures (s == [] || (s[0] != c && s[|s| - 1] != c)) ==> r == s
  {
    Trim(s, x => x == c)
  }

  /** Filtering a concatenation filters each part: `Filter` keeps the kept characters in their order. */
  lemma {:induction false} FilterAppend(a: string, b: string, keep: char -> bool)
    ensures Filter(a + b, keep) == Filter(a, keep) + Filter(b, keep)
  {
    if a != [] {
      assert (a + b)[0] == a[0] && (a + b)[1..] == a[1..] + b;
      FilterAppend(a[1..], b, keep);
    } else {
      assert a + b == b;
    }
  }

  /** Every property of the characters of `s` holds of those `Filter` keeps. */
  lemma FilterKeeps(s: string, keep: char -> bool, p: char -> bool)
    requires All(s, p)
    ensures All(Filter(s, keep), p)
  {
    var r := Filter(s, keep);
    forall i | 0 <= i < |r| ensures p(r[i]) {
      var k :| 0 <= k < |s| && s[k] == r[i];
    }
  }

  /** A property of every character holds of every character of a slice. */
  lemma AllSlice(s: string, i: nat, j: nat, p: char -> bool)
    requires All(s, p) && i <= j <= |s|
    ensures All(s[i..j], p)
  {
    assert forall k :: 0 <= k < j - i ==> s[i..j][k] == s[i + k];
  }

  /** A property of the characters between `i` and `j` holds of every character of that slice. */
  lemma AllBetweenSlice(s: string, i: nat, j: nat, p: char -> bool)
    requires AllBetween(s, i, j, p)
    ensures All(s[i..j], p)
  {
    assert forall k :: 0 <= k < j - i ==> s[i..j][k] == s[i + k];
  }

  /** `sep.join(parts)` */
  function JoinWith(sep: string, parts: seq<string>): string
  {
    if parts == [] then ""
    else if |parts| == 1 then parts[0]
    else parts[0] + sep + JoinWith(sep, parts[1..])
  }
}
