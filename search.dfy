/**
 * Hand-written versions of the regular-expression searches the extractor
 * performs. `re.search` tries start positions from left to right and keeps
 * the first at which its pattern matches; within one start position the
 * backtracking order of the pattern decides which match is reported.
 */
module Search {
  import opened Wrappers
  import opened Chars

  /** The leftmost start position in `from..n` at which `m` matches, with what it matched. */
  function FindFirst<T>(from: nat, n: nat, m: nat -> Option<T>): (r: Option<(nat, T)>)
    decreases n + 1 - from
    ensures r.Some? ==> from <= r.value.0 <= n && m(r.value.0) == Some(r.value.1)
    ensures r.Some? ==> forall q :: from <= q < r.value.0 ==> m(q).None?
    ensures r.None? ==> forall q :: from <= q <= n ==> m(q).None?
  {
    if from > n then None
    else
      match m(from)
      case Some(v) => Some((from, v))
      case None => FindFirst(from + 1, n, m)
  }

  /** A matched group, as the slice `start..end` of the searched text. */
  datatype Span = Span(start: nat, end: nat)

  /** What may follow a lazy group: a literal, or `$` (the end, or a final newline). */
  datatype Alt = Lit(w: string) | End

  predicate AltAt(s: string, e: nat, a: Alt, ignoreCase: bool)
  {
    match a
    case Lit(w) => LitAt(s, e, w, ignoreCase)
    case End => e == |s| || (e + 1 == |s| && s[e] == '\n')
  }

  predicate AnyAltAt(s: string, e: nat, alts: seq<Alt>, ignoreCase: bool)
  {
    exists k :: 0 <= k < |alts| && AltAt(s, e, alts[k], ignoreCase)
  }

  /** `.` matches every character under DOTALL and all but the newline otherwise. */
  predicate Dots(s: string, g: nat, e: nat, dotAll: bool)
    requires g <= e <= |s|
  {
    dotAll || forall j :: g <= j < e ==> s[j] != '\n'
  }

  /**
   * `e` ends a lazy group (`(.*?)` for minLen 0, `(.+?)` for minLen 1) that
   * starts at `g`: the earliest end, at least minLen characters on, at which
   * one of the alternatives follows.
   */
  ghost predicate IsLazyEnd(s: string, g: nat, minLen: nat, dotAll: bool, alts: seq<Alt>, ignoreCase: bool, e: nat)
  {
    && g + minLen <= e <= |s|
    && Dots(s, g, e, dotAll)
    && AnyAltAt(s, e, alts, ignoreCase)
    && forall e' :: g + minLen <= e' < e ==> !AnyAltAt(s, e', alts, ignoreCase)
  }

  function LazyEndFrom(s: string, g: nat, e: nat, minLen: nat, dotAll: bool, alts: seq<Alt>, ignoreCase: bool): (r: Option<nat>)
    requires g + minLen <= e <= |s| && Dots(s, g, e, dotAll)
    requires forall e' :: g + minLen <= e' < e ==> !AnyAltAt(s, e', alts, ignoreCase)
    decreases |s| - e
    ensures r.Some? ==> IsLazyEnd(s, g, minLen, dotAll, alts, ignoreCase, r.value)
    ensures r.None? ==> forall e' :: !IsLazyEnd(s, g, minLen, dotAll, alts, ignoreCase, e')
  {
    if AnyAltAt(s, e, alts, ignoreCase) then Some(e)
    else if e < |s| && (dotAll || s[e] != '\n') then LazyEndFrom(s, g, e + 1, minLen, dotAll, alts, ignoreCase)
    else None
  }

  /** The lazy group that starts at `g`, if one can end. */
  function LazyGroup(s: string, g: nat, minLen: nat, dotAll: bool, alts: seq<Alt>, ignoreCase: bool): (r: Option<nat>)
    ensures r.Some? ==> IsLazyEnd(s, g, minLen, dotAll, alts, ignoreCase, r.value)
    ensures r.None? ==> forall e :: !IsLazyEnd(s, g, minLen, dotAll, alts, ignoreCase, e)
  {
    if g + minLen <= |s| && Dots(s, g, g + minLen, dotAll) then
      LazyEndFrom(s, g, g + minLen, minLen, dotAll, alts, ignoreCase)
    else
      None
  }

  /**
   * The shape most of the extractor's patterns share: a literal prefix,
   * optionally `\s+`, a lazy group, then one of several alternatives.
   */
  datatype LazyPattern = LazyPattern(prefix: string, spaces: bool, minLen: nat, dotAll: bool, alts: seq<Alt>, ignoreCase: bool)

  /** Some lazy group of `pat` that starts at `g` can end. */
  ghost predicate HasLazyEnd(s: string, pat: LazyPattern, g: nat)
  {
    exists e :: IsLazyEnd(s, g, pat.minLen, pat.dotAll, pat.alts, pat.ignoreCase, e)
  }

  /** The lazy group of `pat` when it starts at `g`. */
  function GroupFrom(s: string, pat: LazyPattern, g: nat): (r: Option<Span>)
    ensures r.Some? ==> r.value.start == g && IsLazyEnd(s, g, pat.minLen, pat.dotAll, pat.alts, pat.ignoreCase, r.value.end)
    ensures r.None? ==> !HasLazyEnd(s, pat, g)
  {
    match LazyGroup(s, g, pat.minLen, pat.dotAll, pat.alts, pat.ignoreCase)
    case Some(e) => Some(Span(g, e))
    case None => None
  }

  /** Greedy `\s+` of length n, giving back one character at a time until the group can match. */
  function SpacesThenGroup(s: string, pat: LazyPattern, g0: nat, n: nat): (r: Option<Span>)
    decreases n
    ensures r.Some? ==> g0 < r.value.start <= g0 + n
    ensures r.Some? ==> IsLazyEnd(s, r.value.start, pat.minLen, pat.dotAll, pat.alts, pat.ignoreCase, r.value.end)
    ensures r.Some? ==> forall g :: r.value.start < g <= g0 + n ==> !HasLazyEnd(s, pat, g)
    ensures r.None? ==> forall g :: g0 < g <= g0 + n ==> !HasLazyEnd(s, pat, g)
  {
    if n == 0 then None
    else
      match GroupFrom(s, pat, g0 + n)
      case Some(sp) => Some(sp)
      case None => SpacesThenGroup(s, pat, g0, n - 1)
  }

  /**
   * Where the group of `pat` may start when its prefix matched at `p`: right
   * after the prefix, or, with `\s+`, after one or more whitespace characters.
   */
  predicate GroupStart(s: string, pat: LazyPattern, p: nat, g: nat)
  {
    if pat.spaces then p + |pat.prefix| < g && AllBetween(s, p + |pat.prefix|, g, IsSpace)
    else g == p + |pat.prefix|
  }

  /** The starts `\s+` allows are those within the longest whitespace run after the prefix. */
  lemma GroupStartsInRun(s: string, pat: LazyPattern, p: nat)
    requires pat.spaces
    ensures forall g: nat :: GroupStart(s, pat, p, g) <==> p + |pat.prefix| < g <= p + |pat.prefix| + Run(s, p + |pat.prefix|, IsSpace)
  {
    var g0 := p + |pat.prefix|;
    forall g: nat ensures GroupStart(s, pat, p, g) <==> g0 < g <= g0 + Run(s, g0, IsSpace) {
      if GroupStart(s, pat, p, g) {
        RunCovers(s, g0, g, IsSpace);
      }
    }
  }

  /**
   * `pat` matched at start position `p`, giving its group: among the starts
   * the prefix and `\s+` allow, the latest (greedy) one from which the lazy
   * group can end, and within it the earliest end.
   */
  function LazyAt(s: string, pat: LazyPattern, p: nat): (r: Option<Span>)
    ensures r.Some? ==> LitAt(s, p, pat.prefix, pat.ignoreCase) && GroupStart(s, pat, p, r.value.start)
    ensures r.Some? ==> p + |pat.prefix| <= r.value.start <= r.value.end <= |s|
    ensures r.Some? ==> IsLazyEnd(s, r.value.start, pat.minLen, pat.dotAll, pat.alts, pat.ignoreCase, r.value.end)
    ensures r.Some? ==> forall g :: r.value.start < g && GroupStart(s, pat, p, g) ==> !HasLazyEnd(s, pat, g)
    ensures r.Some? && !pat.spaces ==> r.value.start == p + |pat.prefix|
    ensures r.None? && LitAt(s, p, pat.prefix, pat.ignoreCase) ==> forall g :: GroupStart(s, pat, p, g) ==> !HasLazyEnd(s, pat, g)
  {
    if !LitAt(s, p, pat.prefix, pat.ignoreCase) then None
    else if pat.spaces then
      GroupStartsInRun(s, pat, p);
      SpacesThenGroup(s, pat, p + |pat.prefix|, Run(s, p + |pat.prefix|, IsSpace))
    else GroupFrom(s, pat, p + |pat.prefix|)
  }

  /** `re.search(pat, s).group(1)`: the group at the leftmost position where `pat` matches, or None. */
  function LazySearch(s: string, pat: LazyPattern): (r: Option<string>)
    ensures r.Some? <==> exists p: nat :: p <= |s| && LazyAt(s, pat, p).Some?
    ensures r.Some? ==> exists p: nat :: p <= |s| && LazyAt(s, pat, p).Some? && r.value == s[LazyAt(s, pat, p).value.start..LazyAt(s, pat, p).value.end]
                                         && forall q: nat :: q < p ==> LazyAt(s, pat, q).None?
  {
    var m := p => LazyAt(s, pat, p);
    assert forall p :: m(p) == LazyAt(s, pat, p);
    match FindFirst(0, |s|, m)
    case Some((p, sp)) =>
      assert forall q: nat :: q < p ==> LazyAt(s, pat, q).None?;
      Some(s[sp.start..sp.end])
    case None => None
  }

  /** `\d{n}` at position p. */
  function DigitsAt(s: string, p: nat, n: nat): (r: Option<string>)
    ensures r.Some? <==> AllBetween(s, p, p + n, IsDigit)
    ensures r.Some? ==> r.value == s[p..p + n] && |r.value| == n && All(r.value, IsDigit)
  {
    if AllBetween(s, p, p + n, IsDigit) then Some(s[p..p + n]) else None
  }

  /** `re.search(r'(\d{4})', s).group(1)`: the leftmost four consecutive digits. */
  function FirstFourDigits(s: string): (r: Option<string>)
    ensures r.Some? ==> |r.value| == 4 && All(r.value, IsDigit)
    ensures r.Some? <==> exists p: nat :: p <= |s| && DigitsAt(s, p, 4).Some?
    ensures r.Some? ==> exists p: nat :: p <= |s| && DigitsAt(s, p, 4) == r && r.value == s[p..p + 4]
                                         && forall q: nat :: q < p ==> DigitsAt(s, q, 4).None?
  {
    var m := p => DigitsAt(s, p, 4);
    assert forall p :: m(p) == DigitsAt(s, p, 4);
    match FindFirst(0, |s|, m)
    case Some((p, d)) =>
      assert forall q: nat :: q < p ==> DigitsAt(s, q, 4).None?;
      Some(d)
    case None => None
  }

  /** `\d{4}-\d{2}-\d{2}` */
  predicate IsIsoDate(t: string)
  {
    |t| == 10 && All(t[..4], IsDigit) && t[4] == '-' && All(t[5..7], IsDigit) && t[7] == '-' && All(t[8..], IsDigit)
  }

  function IsoDateAt(s: string, p: nat): (r: Option<string>)
    ensures r.Some? <==> p + 10 <= |s| && IsIsoDate(s[p..p + 10])
    ensures r.Some? ==> r.value == s[p..p + 10] && IsIsoDate(r.value)
  {
    if p + 10 <= |s| && IsIsoDate(s[p..p + 10]) then Some(s[p..p + 10]) else None
  }

  /** `re.search(r'(\d{4}-\d{2}-\d{2})', s).group(1)`: the leftmost ISO date. */
  function FirstIsoDate(s: string): (r: Option<string>)
    ensures r.Some? ==> IsIsoDate(r.value)
    ensures r.Some? <==> exists p: nat :: p <= |s| && IsoDateAt(s, p).Some?
    ensures r.Some? ==> exists p: nat :: p <= |s| && IsoDateAt(s, p) == r && r.value == s[p..p + 10]
                                         && forall q: nat :: q < p ==> IsoDateAt(s, q).None?
  {
    var m := p => IsoDateAt(s, p);
    assert forall p :: m(p) == IsoDateAt(s, p);
    match FindFirst(0, |s|, m)
    case Some((p, d)) =>
      assert forall q: nat :: q < p ==> IsoDateAt(s, q).None?;
      Some(d)
    case None => None
  }

  /**
   * `\d{1,2}` followed by the non-digit `c`: greedy two digits first, then one.
   * The result is the position of `c`.
   */
  function DayDigits(s: string, k: nat, c: char): (r: Option<nat>)
    requires !IsDigit(c)
    ensures r.Some? ==> k < r.value <= k + 2 && r.value < |s| && s[r.value] == c
    ensures r.Some? ==> AllBetween(s, k, r.value, IsDigit)
    ensures k + 2 < |s| && IsDigit(s[k]) && IsDigit(s[k + 1]) && s[k + 2] == c ==> r == Some(k + 2)
    ensures k + 1 < |s| && IsDigit(s[k]) && s[k + 1] == c ==> r == Some(k + 1)
  {
    if k + 2 < |s| && IsDigit(s[k]) && IsDigit(s[k + 1]) && s[k + 2] == c then Some(k + 2)
    else if k + 1 < |s| && IsDigit(s[k]) && s[k + 1] == c then Some(k + 1)
    else None
  }

  /**
   * Where the groups of `(\w+)\s+(\d{1,2}),\s+(\d{4})` lie when it matches at
   * some k: the month is `k..monthEnd`, the day `dayAt..dayEnd` and the year
   * the four characters from `yearAt`, where the match ends.
   */
  datatype MonthDayYear = MonthDayYear(monthEnd: nat, dayAt: nat, dayEnd: nat, yearAt: nat)

  /** `m` places a match of `(\w+)\s+(\d{1,2}),\s+(\d{4})` at k. */
  predicate IsMonthDayYear(s: string, k: nat, m: MonthDayYear)
  {
    && k < m.monthEnd < m.dayAt < m.dayEnd <= m.dayAt + 2 && m.dayEnd + 1 < m.yearAt && m.yearAt + 4 <= |s|
    && AllBetween(s, k, m.monthEnd, IsWordChar)
    && AllBetween(s, m.monthEnd, m.dayAt, IsSpace)
    && AllBetween(s, m.dayAt, m.dayEnd, IsDigit) && s[m.dayEnd] == ','
    && AllBetween(s, m.dayEnd + 1, m.yearAt, IsSpace)
    && AllBetween(s, m.yearAt, m.yearAt + 4, IsDigit)
  }

  /** `.group(1)`: the month word. */
  function MonthGroup(s: string, k: nat, m: MonthDayYear): (r: string)
    requires IsMonthDayYear(s, k, m)
    ensures |r| == m.monthEnd - k && All(r, IsWordChar)
  {
    s[k..m.monthEnd]
  }

  /** `.group(2)`: the day, one or two digits. */
  function DayGroup(s: string, k: nat, m: MonthDayYear): (r: string)
    requires IsMonthDayYear(s, k, m)
    ensures 1 <= |r| <= 2 && All(r, IsDigit)
  {
    s[m.dayAt..m.dayEnd]
  }

  /** `.group(3)`: the year, four digits. */
  function YearGroup(s: string, k: nat, m: MonthDayYear): (r: string)
    requires IsMonthDayYear(s, k, m)
    ensures |r| == 4 && All(r, IsDigit)
  {
    s[m.yearAt..m.yearAt + 4]
  }

  /**
   * `(\w+)\s+(\d{1,2}),\s+(\d{4})` matched at k. Greedy `\w+` and `\s+` never
   * give characters back here, because the next element cannot match a word
   * character or a space.
   */
  function MonthDayYearAt(s: string, k: nat): (r: Option<MonthDayYear>)
    ensures r.Some? ==> IsMonthDayYear(s, k, r.value)
  {
    match WordThenSpaces(s, k)
    case None => None
    case Some((a, d)) =>
      match DayDigits(s, d, ',')
      case None => None
      case Some(c) =>
        match YearAfter(s, c + 1)
        case None => None
        case Some(y) => Some(MonthDayYear(a, d, c, y))
  }

  /** `\w+\s+` at k: where the word ends and where the whitespace after it ends. */
  function WordThenSpaces(s: string, k: nat): (r: Option<(nat, nat)>)
    ensures r.Some? ==> k < r.value.0 < r.value.1 <= |s|
                        && AllBetween(s, k, r.value.0, IsWordChar) && AllBetween(s, r.value.0, r.value.1, IsSpace)
                        && (r.value.1 == |s| || !IsSpace(s[r.value.1]))
  {
    var a := k + Run(s, k, IsWordChar);
    var d := a + Run(s, a, IsSpace);
    if a == k || d == a then None else Some((a, d))
  }

  /** `\s+(\d{4})` at i: where the four digits start. */
  function YearAfter(s: string, i: nat): (r: Option<nat>)
    ensures r.Some? ==> i < r.value && AllBetween(s, i, r.value, IsSpace) && AllBetween(s, r.value, r.value + 4, IsDigit)
  {
    var y := i + Run(s, i, IsSpace);
    if y == i || !AllBetween(s, y, y + 4, IsDigit) then None else Some(y)
  }

  /** Whitespace then four digits is always found, at those digits. */
  lemma YearAfterComplete(s: string, i: nat, y: nat)
    requires i < y && AllBetween(s, i, y, IsSpace) && AllBetween(s, y, y + 4, IsDigit)
    ensures YearAfter(s, i) == Some(y)
  {
    RunCovers(s, i, y, IsSpace);
  }

  /** Every placement of the date shape at k is the match `MonthDayYearAt` reports. */
  lemma MonthDayYearComplete(s: string, k: nat, m: MonthDayYear)
    requires IsMonthDayYear(s, k, m)
    ensures MonthDayYearAt(s, k) == Some(m)
  {
    WordThenSpacesComplete(s, k, m.monthEnd, m.dayAt);
    DayOfMonthDayYear(s, m);
    YearAfterComplete(s, m.dayEnd + 1, m.yearAt);
  }

  /** A word then whitespace up to a non-space is always found. */
  lemma WordThenSpacesComplete(s: string, k: nat, a: nat, d: nat)
    requires k < a < d < |s| && AllBetween(s, k, a, IsWordChar) && AllBetween(s, a, d, IsSpace) && !IsSpace(s[d])
    ensures WordThenSpaces(s, k) == Some((a, d))
  {
    assert IsSpace(s[a]);
    RunCovers(s, k, a, IsWordChar);
    RunCovers(s, a, d, IsSpace);
  }

  lemma DayOfMonthDayYear(s: string, m: MonthDayYear)
    requires m.dayAt < m.dayEnd <= m.dayAt + 2 && m.dayEnd < |s|
    requires AllBetween(s, m.dayAt, m.dayEnd, IsDigit) && s[m.dayEnd] == ','
    ensures DayDigits(s, m.dayAt, ',') == Some(m.dayEnd)
  {
  }

  /** `prefix(\w+\s+\d{1,2},\s+\d{4})` matched at p, case-sensitively; the group's span. */
  function PrefixedDateAt(s: string, prefix: string, p: nat): (r: Option<Span>)
    ensures r.Some? <==> LitAt(s, p, prefix, false) && MonthDayYearAt(s, p + |prefix|).Some?
    ensures r.Some? ==> r.value == Span(p + |prefix|, MonthDayYearAt(s, p + |prefix|).value.yearAt + 4)
    ensures r.Some? ==> p + |prefix| == r.value.start < r.value.end <= |s|
  {
    if !LitAt(s, p, prefix, false) then None
    else
      match MonthDayYearAt(s, p + |prefix|)
      case Some(m) => Some(Span(p + |prefix|, m.yearAt + 4))
      case None => None
  }

  /** `re.search(prefix + r'(\w+\s+\d{1,2},\s+\d{4})', s).group(1)`: the date after the leftmost match. */
  function PrefixedDate(s: string, prefix: string): (r: Option<string>)
    ensures r.Some? <==> exists p: nat :: p <= |s| && PrefixedDateAt(s, prefix, p).Some?
    ensures r.Some? ==> exists p: nat :: p <= |s| && PrefixedDateAt(s, prefix, p).Some?
                                         && r.value == s[PrefixedDateAt(s, prefix, p).value.start..PrefixedDateAt(s, prefix, p).value.end]
                                         && forall q: nat :: q < p ==> PrefixedDateAt(s, prefix, q).None?
  {
    var m := p => PrefixedDateAt(s, prefix, p);
    assert forall p :: m(p) == PrefixedDateAt(s, prefix, p);
    match FindFirst(0, |s|, m)
    case Some((p, sp)) =>
      assert forall q: nat :: q < p ==> PrefixedDateAt(s, prefix, q).None?;
      Some(s[sp.start..sp.end])
    case None => None
  }

  /** The first occurrence of the literal `w` in `s` at or after `from`. */
  function FindLit(s: string, w: string, from: nat): (r: Option<nat>)
    ensures r.Some? ==> from <= r.value && LitAt(s, r.value, w, false)
    ensures r.Some? ==> forall q :: from <= q < r.value ==> !LitAt(s, q, w, false)
    ensures r.None? ==> forall q: nat :: from <= q ==> !LitAt(s, q, w, false)
  {
    var m := q => if LitAt(s, q, w, false) then Some(q) else None;
    assert forall q :: m(q) == if LitAt(s, q, w, false) then Some(q) else None;
    match FindFirst(from, |s|, m)
    case Some((q, _)) => Some(q)
    case None => None
  }

  /** `s.split(sep)` for a non-empty separator. */
  function Split(s: string, sep: string): (r: seq<string>)
    requires |sep| > 0
    decreases |s|
    ensures |r| > 0
    ensures forall i, q: nat :: 0 <= i < |r| ==> !LitAt(r[i], q, sep, false)
  {
    match FindLit(s, sep, 0)
    case None => [s]
    case Some(i) =>
      var head := s[..i];
      assert forall q: nat :: !LitAt(head, q, sep, false) by {
        forall q: nat | LitAt(head, q, sep, false) ensures false {
          assert LitAt(s, q, sep, false);
        }
      }
      [head] + Split(s[i + |sep|..], sep)
  }

  /** Joining the parts of a split with the separator gives back the string. */
  lemma {:induction false} SplitJoin(s: string, sep: string)
    requires |sep| > 0
    decreases |s|
    ensures JoinWith(sep, Split(s, sep)) == s
  {
    match FindLit(s, sep, 0)
    case None =>
    case Some(i) =>
      var rest := s[i + |sep|..];
      var tail := Split(rest, sep);
      SplitJoin(rest, sep);
      assert Split(s, sep) == [s[..i]] + tail;
      JoinCons(sep, s[..i], tail);
      LitAtSlice(s, i, sep);
      assert s == s[..i] + s[i..i + |sep|] + rest;
  }

  lemma JoinCons(sep: string, head: string, tail: seq<string>)
    requires tail != []
    ensures JoinWith(sep, [head] + tail) == head + sep + JoinWith(sep, tail)
  {
    assert ([head] + tail)[1..] == tail;
  }

  lemma LitAtSlice(s: string, i: nat, w: string)
    requires LitAt(s, i, w, false)
    ensures s[i..i + |w|] == w
  {
    var t := s[i..i + |w|];
    assert forall j :: 0 <= j < |w| ==> t[j] == s[i + j];
  }
}
