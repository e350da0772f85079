/**
 * Filename derivation: `rename_file`, which names a certificate
 * `<ISO date>-<title>.pdf` and renames it without ever overwriting, and the
 * name `rename_udemy_file` computes from a certificate's text. The file
 * system is the set of paths that exist.
 */
module FileNames {
  import opened Wrappers
  import opened Chars
  import opened Search

  /** `p.rfind('/') + 1`: where the last path component starts. */
  function AfterLastSlash(p: string): (i: nat)
    ensures i <= |p|
    ensures '/' !in p[i..]
    ensures i > 0 ==> p[i - 1] == '/'
  {
    if p == [] then 0
    else if p[|p| - 1] == '/' then |p|
    else
      var i := AfterLastSlash(p[..|p| - 1]);
      assert p[i..] == p[..|p| - 1][i..] + [p[|p| - 1]];
      i
  }

  /** The two properties of `AfterLastSlash` determine it. */
  lemma AfterLastSlashUnique(p: string, k: nat)
    requires k <= |p| && '/' !in p[k..] && (k == 0 || p[k - 1] == '/')
    ensures AfterLastSlash(p) == k
  {
  }

  predicate IsSlash(c: char) { c == '/' }

  /** `os.path.dirname`: the path up to its last `/`, with trailing slashes removed unless it is all slashes. */
  function DirName(p: string): string
  {
    var head := p[..AfterLastSlash(p)];
    if head != [] && !All(head, IsSlash) then head[..|head| - TrailingRun(head, IsSlash)] else head
  }

  /** `os.path.basename` */
  function BaseName(p: string): string
  {
    p[AfterLastSlash(p)..]
  }

  /** `os.path.join(a, b)` for two components. */
  function PathJoin(a: string, b: string): string
  {
    if b != [] && b[0] == '/' then b
    else if a == [] || a[|a| - 1] == '/' then a + b
    else a + "/" + b
  }

  /** A directory name is empty, all slashes, or does not end with a slash. */
  lemma DirNameShape(p: string)
    ensures var d := DirName(p); d == [] || All(d, IsSlash) || d[|d| - 1] != '/'
  {
    var head := p[..AfterLastSlash(p)];
    if head != [] && !All(head, IsSlash) {
      var t := TrailingRun(head, IsSlash);
      assert t < |head|;
    }
  }

  /**
   * A file name without `/` joined to the directory of `p` stays in that
   * directory and keeps its name: renaming never moves a file elsewhere.
   */
  lemma JoinKeepsDirectory(p: string, name: string)
    requires name != [] && '/' !in name
    ensures BaseName(PathJoin(DirName(p), name)) == name
    ensures DirName(PathJoin(DirName(p), name)) == DirName(p)
  {
    var d := DirName(p);
    DirNameShape(p);
    var j := PathJoin(d, name);
    if d == [] {
      assert j == name;
      AfterLastSlashUnique(j, 0);
    } else if d[|d| - 1] == '/' {
      assert j == d + name;
      assert j[|d|..] == name;
      AfterLastSlashUnique(j, |d|);
      assert j[..|d|] == d;
    } else {
      assert j == d + "/" + name;
      assert j[|d| + 1..] == name;
      AfterLastSlashUnique(j, |d| + 1);
      var head := j[..|d| + 1];
      assert head == d + "/";
      assert !All(head, IsSlash) by { assert !IsSlash(head[|d| - 1]); }
      assert TrailingRun(head, IsSlash) == 1 by {
        assert !IsSlash(head[|head| - 2]);
      }
      assert head[..|head| - 1] == d;
    }
  }

  /** `[\w\-]` */
  predicate KeptByTitle(c: char) { IsWordChar(c) || c == '-' }

  /**
   * `re.sub(r'[^\w\-]', '', title).lower().replace(' ', '-')`. Spaces are
   * removed by the substitution before the replacement could turn them into
   * hyphens, so words run together.
   */
  function SanitizeTitle(title: string): (r: string)
    ensures r == Lower(Filter(title, KeptByTitle))
    ensures All(r, KeptByTitle)
    ensures forall i :: 0 <= i < |r| ==> !IsUpper(r[i])
    ensures ' ' !in r && '/' !in r
  {
    var f := Filter(title, KeptByTitle);
    var l := Lower(f);
    assert All(l, KeptByTitle) by {
      forall i | 0 <= i < |l| ensures KeptByTitle(l[i]) { assert KeptByTitle(f[i]); }
    }
    var r := ReplaceChar(l, ' ', '-');
    assert r == l;
    r
  }

  /** Sanitizing works character by character, so the parts of a title sanitize separately. */
  lemma SanitizeTitleAppend(a: string, b: string)
    ensures SanitizeTitle(a + b) == SanitizeTitle(a) + SanitizeTitle(b)
  {
    FilterAppend(a, b, KeptByTitle);
    var fa := Filter(a, KeptByTitle);
    var fb := Filter(b, KeptByTitle);
    assert Lower(fa + fb) == Lower(fa) + Lower(fb);
  }

  /** Words separated by a space run together: the space is dropped, no hyphen takes its place. */
  lemma SanitizeTitleJoinsWords(a: string, b: string)
    ensures SanitizeTitle(a + " " + b) == SanitizeTitle(a) + SanitizeTitle(b)
  {
    var sa, sb := SanitizeTitle(a), SanitizeTitle(b);
    SanitizeTitleAppend(a + " ", b);
    SanitizeTitleAppend(a, " ");
    SanitizeDropped(" ");
    assert SanitizeTitle(a + " ") == sa;
  }

  /** `Intro to Networking!` becomes `introtonetworking`. */
  lemma SanitizeTitleExample()
    ensures SanitizeTitle("Intro to Networking!") == "introtonetworking"
  {
    ExampleTitleParts();
    SanitizeTitleOfWords('I', "ntro", "to", 'N', "etworking", "!");
    ExampleResultParts();
  }

  lemma ExampleTitleParts()
    ensures "Intro to Networking!" == ['I'] + "ntro" + " " + "to" + " " + (['N'] + "etworking") + "!"
  {
  }

  lemma ExampleResultParts()
    ensures [LowerChar('I')] + "ntro" + "to" + ([LowerChar('N')] + "etworking") == "introtonetworking"
  {
    assert LowerChar('I') == 'i' && LowerChar('N') == 'n';
  }

  predicate LowerWord(s: string) { forall i :: 0 <= i < |s| ==> 'a' <= s[i] <= 'z' }

  /**
   * A title of three words, the first and last capitalised, followed by
   * punctuation: the words are lowered and run together.
   */
  lemma SanitizeTitleOfWords(c1: char, r1: string, w2: string, c3: char, r3: string, d: string)
    requires IsUpper(c1) && LowerWord(r1) && LowerWord(w2) && IsUpper(c3) && LowerWord(r3)
    requires forall i :: 0 <= i < |d| ==> !KeptByTitle(d[i])
    ensures SanitizeTitle([c1] + r1 + " " + w2 + " " + ([c3] + r3) + d) == [LowerChar(c1)] + r1 + w2 + ([LowerChar(c3)] + r3)
  {
    SanitizeThreeWords([c1] + r1, w2, [c3] + r3, d);
    SanitizeCapitalized(c1, r1);
    SanitizeCapitalized(c3, r3);
    SanitizeLowerWord(w2);
    SanitizeDropped(d);
  }

  lemma SanitizeThreeWords(a: string, b: string, c: string, d: string)
    ensures SanitizeTitle(a + " " + b + " " + c + d) == SanitizeTitle(a) + SanitizeTitle(b) + SanitizeTitle(c) + SanitizeTitle(d)
  {
    SanitizeTitleAppend(a + " " + b + " " + c, d);
    SanitizeTitleJoinsWords(a + " " + b, c);
    SanitizeTitleJoinsWords(a, b);
  }

  /** A capitalised word is lowered and otherwise kept. */
  lemma SanitizeCapitalized(c: char, rest: string)
    requires IsUpper(c) && LowerWord(rest)
    ensures SanitizeTitle([c] + rest) == [LowerChar(c)] + rest
  {
    SanitizeTitleAppend([c], rest);
    assert Filter([c], KeptByTitle) == [c];
    SanitizeLowerWord(rest);
  }

  /** A lower-case word sanitizes to itself. */
  lemma SanitizeLowerWord(s: string)
    requires LowerWord(s)
    ensures SanitizeTitle(s) == s
  {
    assert All(s, KeptByTitle);
    assert Lower(s) == s;
  }

  /** A title made only of dropped characters sanitizes to nothing. */
  lemma {:induction false} SanitizeDropped(s: string)
    requires forall i :: 0 <= i < |s| ==> !KeptByTitle(s[i])
    ensures SanitizeTitle(s) == ""
  {
    if s != [] {
      SanitizeDropped(s[1..]);
    }
  }

  /** A title made only of kept characters is just lowered. */
  lemma SanitizeKept(s: string)
    requires All(s, KeptByTitle)
    ensures SanitizeTitle(s) == Lower(s)
  {
  }

  /** The month table of `rename_file`, keyed by lower-case three-letter prefixes. */
  const Months: map<string, string> :=
    map["jan" := "01", "feb" := "02", "mar" := "03", "apr" := "04", "may" := "05", "jun" := "06",
        "jul" := "07", "aug" := "08", "sep" := "09", "oct" := "10", "nov" := "11", "dec" := "12"]

  /** `{...}.get(word[:3].lower(), '01')`: two digits; `01` for an unknown prefix. */
  function MonthNumber(word: string): (r: string)
    ensures |r| == 2 && All(r, IsDigit)
    ensures Lower(Take(word, 3)) !in Months ==> r == "01"
    ensures Lower(Take(word, 3)) in Months ==> r == Months[Lower(Take(word, 3))]
  {
    var key := Lower(Take(word, 3));
    if key in Months then Months[key] else "01"
  }

  /** `str.zfill(2)` on one or two digits. */
  function ZeroPad2(d: string): (r: string)
    requires 1 <= |d| <= 2
    ensures |r| == 2
    ensures |d| == 2 ==> r == d
    ensures |d| == 1 ==> r == ['0'] + d
  {
    if |d| == 2 then d else "0" + d
  }

  /** `re.match(r'(\d{4})-(\d{2})-(\d{2})', date)`: the date starts in ISO form. */
  predicate StartsIso(date: string)
  {
    |date| >= 10 && IsIsoDate(date[..10])
  }

  /** `f"{year}-{month}-{day.zfill(2)}"` from the groups of a `<Month> <d>, <yyyy>` match. */
  function IsoFromGroups(month: string, day: string, year: string): (r: string)
    requires 1 <= |day| <= 2 && All(day, IsDigit) && |year| == 4 && All(year, IsDigit)
    ensures IsIsoDate(r)
    ensures r[..4] == year && r[5..7] == MonthNumber(month) && r[8..] == ZeroPad2(day)
  {
    var r := year + "-" + MonthNumber(month) + "-" + ZeroPad2(day);
    assert r[..4] == year && r[5..7] == MonthNumber(month) && r[8..] == ZeroPad2(day);
    r
  }

  /**
   * The date part of `rename_file`: kept when it starts in ISO form, else
   * `<Month> <d>, <yyyy>` at its start becomes `yyyy-MM-dd`, else kept.
   */
  function NormalizeDate(date: string): (r: string)
    ensures StartsIso(date) ==> r == date
    ensures !StartsIso(date) && MonthDayYearAt(date, 0).None? ==> r == date
    ensures !StartsIso(date) && MonthDayYearAt(date, 0).Some? ==> IsIsoDate(r)
  {
    if StartsIso(date) then date
    else
      match MonthDayYearAt(date, 0)
      case None => date
      case Some(m) => IsoFromGroups(MonthGroup(date, 0, m), DayGroup(date, 0, m), YearGroup(date, 0, m))
  }

  /**
   * A date written `<Month> <d>, <yyyy>` (whitespace runs between the
   * parts, anything after) becomes `yyyy-MM-dd`: the year, the month's
   * number from the table, and the day padded to two digits.
   */
  lemma NormalizeMonthDayYear(month: string, gap1: string, day: string, gap2: string, year: string, rest: string)
    requires |month| > 0 && All(month, IsWordChar) && |gap1| > 0 && All(gap1, IsSpace)
    requires 1 <= |day| <= 2 && All(day, IsDigit) && |gap2| > 0 && All(gap2, IsSpace)
    requires |year| == 4 && All(year, IsDigit)
    ensures NormalizeDate(month + gap1 + day + "," + gap2 + year + rest) == IsoFromGroups(month, day, year)
  {
    var date := month + gap1 + day + "," + gap2 + year + rest;
    var d := |month| + |gap1|;
    var m := MonthDayYear(|month|, d, d + |day|, d + |day| + 1 + |gap2|);
    DatePlacement(month, gap1, day, gap2, year, rest);
    DateGroups(date, m, month, gap1, day, gap2, year, rest);
    NormalizeFoundDate(date, m);
  }

  lemma DateGroups(date: string, m: MonthDayYear, month: string, gap1: string, day: string, gap2: string, year: string, rest: string)
    requires date == month + gap1 + day + "," + gap2 + year + rest
    requires m.monthEnd == |month| && m.dayAt == m.monthEnd + |gap1| && m.dayEnd == m.dayAt + |day|
    requires m.yearAt == m.dayEnd + 1 + |gap2| && |year| == 4
    requires IsMonthDayYear(date, 0, m)
    ensures MonthGroup(date, 0, m) == month && DayGroup(date, 0, m) == day && YearGroup(date, 0, m) == year
  {
    assert date[0..m.monthEnd] == month;
    assert date[m.dayAt..m.dayEnd] == day;
    assert date[m.yearAt..m.yearAt + 4] == year;
  }

  /** A date whose start matches `(\w+)\s+(\d{1,2}),\s+(\d{4})` is rebuilt from the three groups. */
  lemma NormalizeFoundDate(date: string, m: MonthDayYear)
    requires IsMonthDayYear(date, 0, m) && !StartsIso(date)
    ensures NormalizeDate(date) == IsoFromGroups(MonthGroup(date, 0, m), DayGroup(date, 0, m), YearGroup(date, 0, m))
  {
    MonthDayYearComplete(date, 0, m);
  }

  /** Where the parts of a `<Month> <d>, <yyyy>` date lie, and that it is not in ISO form. */
  lemma DatePlacement(month: string, gap1: string, day: string, gap2: string, year: string, rest: string)
    requires |month| > 0 && All(month, IsWordChar) && |gap1| > 0 && All(gap1, IsSpace)
    requires 1 <= |day| <= 2 && All(day, IsDigit) && |gap2| > 0 && All(gap2, IsSpace)
    requires |year| == 4 && All(year, IsDigit)
    ensures var date := month + gap1 + day + "," + gap2 + year + rest;
            var d := |month| + |gap1|;
            IsMonthDayYear(date, 0, MonthDayYear(|month|, d, d + |day|, d + |day| + 1 + |gap2|)) && !StartsIso(date)
  {
    var date := month + gap1 + day + "," + gap2 + year + rest;
    var a := |month|;
    var d := a + |gap1|;
    var c := d + |day|;
    var y := c + 1 + |gap2|;
    assert forall i :: 0 <= i < a ==> date[i] == month[i];
    assert forall i :: a <= i < d ==> date[i] == gap1[i - a];
    assert forall i :: d <= i < c ==> date[i] == day[i - d];
    assert date[c] == ',';
    assert forall i :: c + 1 <= i < y ==> date[i] == gap2[i - c - 1];
    assert forall i :: y <= i < y + 4 ==> date[i] == year[i - y];
    assert date[4] != '-';
  }

  /** `f"{date}-{clean_title}.pdf"` */
  function NewName(date: string, title: string): string
  {
    NormalizeDate(date) + "-" + SanitizeTitle(title) + ".pdf"
  }

  /** The path `rename_file` returns: the original one unless both the date and the title are non-empty. */
  function RenameTarget(filePath: string, date: string, title: string): (r: string)
    ensures date == "" || title == "" ==> r == filePath
  {
    if date != "" && title != "" then PathJoin(DirName(filePath), NewName(date, title)) else filePath
  }

  /** An ISO date holds no `/`. */
  lemma IsoDateHasNoSlash(r: string)
    requires IsIsoDate(r)
    ensures '/' !in r
  {
    forall i | 0 <= i < |r| ensures r[i] != '/' {
      if i < 4 { assert r[..4][i] == r[i]; }
      else if 5 <= i < 7 { assert r[5..7][i - 5] == r[i]; }
      else if 8 <= i { assert r[8..][i - 8] == r[i]; }
    }
  }

  /**
   * When both parts are given, the file keeps its directory and is named
   * `<date>-<title>.pdf` (for a date without `/`, which would make the name
   * a path).
   */
  lemma RenameTargetPlacement(filePath: string, date: string, title: string)
    requires date != "" && title != "" && '/' !in date
    ensures BaseName(RenameTarget(filePath, date, title)) == NewName(date, title)
    ensures DirName(RenameTarget(filePath, date, title)) == DirName(filePath)
  {
    var d := NormalizeDate(date);
    if !StartsIso(date) && MonthDayYearAt(date, 0).Some? {
      IsoDateHasNoSlash(d);
    }
    var n := NewName(date, title);
    assert n == d + "-" + SanitizeTitle(title) + ".pdf";
    assert '/' !in n;
    JoinKeepsDirectory(filePath, n);
  }

  /** `title_match.group(1).strip().replace(' ', '-').lower()` */
  function UdemyNameTitle(group: string): (r: string)
    ensures |r| == |Strip(group)|
    ensures forall i :: 0 <= i < |r| ==> r[i] == if Strip(group)[i] == ' ' then '-' else LowerChar(Strip(group)[i])
    ensures ' ' !in r
    ensures forall i :: 0 <= i < |r| ==> !IsUpper(r[i])
  {
    Lower(ReplaceChar(Strip(group), ' ', '-'))
  }

  /** Two words become the lower-case words joined by a hyphen. */
  lemma UdemyNameTitleOfWords(a: string, b: string)
    requires a != [] && b != [] && ' ' !in a && ' ' !in b && !IsSpace(a[0]) && !IsSpace(b[|b| - 1])
    ensures UdemyNameTitle(a + " " + b) == Lower(a) + "-" + Lower(b)
  {
    StripTwoWords(a, b);
    HyphenateTwoWords(a, b);
    LowerAppend(a + "-", b);
    LowerAppend(a, "-");
  }

  lemma StripTwoWords(a: string, b: string)
    requires a != [] && b != [] && !IsSpace(a[0]) && !IsSpace(b[|b| - 1])
    ensures Strip(a + " " + b) == a + " " + b
  {
    var t := a + " " + b;
    assert t[0] == a[0] && t[|t| - 1] == b[|b| - 1];
  }

  lemma HyphenateTwoWords(a: string, b: string)
    requires ' ' !in a && ' ' !in b
    ensures ReplaceChar(a + " " + b, ' ', '-') == a + "-" + b
  {
    ReplaceCharAppend(a + " ", b, ' ', '-');
    ReplaceCharAppend(a, " ", ' ', '-');
    assert ReplaceChar(a, ' ', '-') == a && ReplaceChar(b, ' ', '-') == b;
  }

  /** `date_match.group(1).replace(',', '').replace(' ', '-')` */
  function UdemyNameDate(group: string): (r: string)
    ensures |r| == |RemoveChar(group, ',')|
    ensures forall i :: 0 <= i < |r| ==> r[i] == if RemoveChar(group, ',')[i] == ' ' then '-' else RemoveChar(group, ',')[i]
    ensures ' ' !in r && ',' !in r
  {
    ReplaceChar(RemoveChar(group, ','), ' ', '-')
  }

  /** `<Month> <d>, <yyyy>` becomes `<Month>-<d>-<yyyy>`. */
  lemma UdemyNameDateOfMonthDayYear(month: string, day: string, year: string)
    requires ',' !in month && ',' !in day && ',' !in year && ' ' !in month && ' ' !in day && ' ' !in year
    ensures UdemyNameDate(month + " " + day + ", " + year) == month + "-" + day + "-" + year
  {
    DropDateComma(month, day, year);
    HyphenateDate(month, day, year);
  }

  lemma DropDateComma(month: string, day: string, year: string)
    requires ',' !in month && ',' !in day && ',' !in year
    ensures RemoveChar(month + " " + day + ", " + year, ',') == month + " " + day + " " + year
  {
    var left := month + " " + day;
    assert ',' !in left;
    assert month + " " + day + ", " + year == left + ", " + year;
    RemoveCharAppend(left + ", ", year, ',');
    RemoveCharAppend(left, ", ", ',');
    assert RemoveChar(", ", ',') == " " by {
      assert ", " == [','] + " ";
      RemoveCharAppend([','], " ", ',');
    }
  }

  lemma HyphenateDate(month: string, day: string, year: string)
    requires ' ' !in month && ' ' !in day && ' ' !in year
    ensures ReplaceChar(month + " " + day + " " + year, ' ', '-') == month + "-" + day + "-" + year
  {
    ReplaceCharAppend(month + " " + day + " ", year, ' ', '-');
    ReplaceCharAppend(month + " " + day, " ", ' ', '-');
    ReplaceCharAppend(month + " ", day, ' ', '-');
    ReplaceCharAppend(month, " ", ' ', '-');
    assert ReplaceChar(month, ' ', '-') == month && ReplaceChar(day, ' ', '-') == day && ReplaceChar(year, ' ', '-') == year;
  }

  /** `completed the (.*?)(?: online course)? on`, case-insensitive, on the page text as extracted. */
  const UdemyRenameTitlePattern := LazyPattern("completed the ", false, 0, false, [Lit(" online course on"), Lit(" on")], true)

  /** The new name `rename_udemy_file` gives a certificate whose first page reads `text`. */
  function UdemyRenameName(text: string): (r: Option<string>)
    ensures r.Some? <==> LazySearch(text, UdemyRenameTitlePattern).Some? && PrefixedDate(text, "on ").Some?
    ensures r.Some? ==>
              r.value == UdemyNameDate(PrefixedDate(text, "on ").value) + "-"
                         + UdemyNameTitle(LazySearch(text, UdemyRenameTitlePattern).value) + ".pdf"
  {
    match (LazySearch(text, UdemyRenameTitlePattern), PrefixedDate(text, "on "))
    case (Some(t), Some(d)) => Some(UdemyNameDate(d) + "-" + UdemyNameTitle(t) + ".pdf")
    case _ => None
  }

  /** The directory of certificates, as the set of paths that exist. */
  class FileSystem {
    var paths: set<string>

    constructor (existing: set<string>)
      ensures paths == existing
    {
      paths := existing;
    }

    /**
     * `rename_file`. The rename happens only when the target differs from
     * the source and does not exist yet; the target path is returned even
     * when it already existed and nothing was renamed.
     */
    method RenameFile(filePath: string, date: string, title: string) returns (newPath: string)
      requires filePath in paths
      modifies this
      ensures newPath == RenameTarget(filePath, date, title)
      ensures paths == if newPath != filePath && newPath !in old(paths)
                       then old(paths) - {filePath} + {newPath}
                       else old(paths)
      ensures |paths| == |old(paths)|
      ensures newPath in paths
    {
      newPath := filePath;
      if date != "" && title != "" {
        newPath := PathJoin(DirName(filePath), NewName(date, title));
        if filePath != newPath && newPath !in paths {
          MoveKeepsCount(paths, filePath, newPath);
          paths := paths - {filePath} + {newPath};
        }
      }
    }

    /**
     * `rename_udemy_file`: true when the text yields a name; the file is
     * renamed unless in test mode or when the target exists.
     */
    method RenameUdemyFile(pdfPath: string, text: string, testMode: bool) returns (ok: bool)
      requires pdfPath in paths
      modifies this
      ensures ok <==> UdemyRenameName(text).Some?
      ensures !ok ==> paths == old(paths)
      ensures ok ==> var target := PathJoin(DirName(pdfPath), UdemyRenameName(text).value);
                     paths == if !testMode && target !in old(paths) then old(paths) - {pdfPath} + {target} else old(paths)
      ensures |paths| == |old(paths)|
    {
      var n := UdemyRenameName(text);
      ok := n.Some?;
      if ok {
        var newPath := PathJoin(DirName(pdfPath), n.value);
        if !testMode && newPath !in paths {
          MoveKeepsCount(paths, pdfPath, newPath);
          paths := paths - {pdfPath} + {newPath};
        }
      }
    }
  }

  /** Moving one existing path to one new path keeps the number of files. */
  lemma MoveKeepsCount(s: set<string>, from: string, to: string)
    requires from in s && to !in s
    ensures |s - {from} + {to}| == |s|
  {
    assert |s - {from}| == |s| - 1;
  }
}
