/**
 * The per-provider layout matchers of `extract_metadata` and the record
 * builder around them. The matchers read the normalized text (and, for two
 * providers, the PDF's file name); the builder applies the filters and fills
 * in the URLs. Reading the PDF, hashing it and percent-encoding are done by
 * the caller: the raw text, the hex digest of the file's bytes and the
 * quoting function are parameters.
 */
module Extraction {
  import opened Wrappers
  import opened Chars
  import opened Search
  import opened Normalizer
  import opened Providers
  import opened CourseUrls
  import opened FileNames

  /** What a provider's matcher extracts from one certificate. */
  datatype Fields = Fields(
    title: string,
    completion: string,
    skills: string,
    year: Option<string>,
    certId: string,
    instructors: seq<string>)

  /** The metadata dict, one field per key. */
  datatype Record = Record(
    title: string,
    completion: string,
    skills: string,
    year: Option<string>,
    certId: string,
    instructors: seq<string>,
    certUrl: string,
    courseUrl: string,
    pdfUrl: string,
    provider: string)

  /** `generate_cert_id(pdf_path)[:8]`, from the hex digest of the file's content. */
  function FallbackId(digest: string): (r: string)
    ensures |r| == if |digest| <= 8 then |digest| else 8
    ensures r == digest[..|r|]
  {
    Take(digest, 8)
  }

  /** `re.search(r'(\d{4})', completion).group(1) if ... else None`: the leftmost four digits in a row. */
  function YearOf(completion: string): (r: Option<string>)
    ensures r.Some? <==> exists p: nat :: p <= |completion| && DigitsAt(completion, p, 4).Some?
    ensures r.Some? ==> |r.value| == 4 && All(r.value, IsDigit)
    ensures r.Some? ==> exists p: nat :: DigitsAt(completion, p, 4) == r && r.value == completion[p..p + 4]
                                         && forall q: nat :: q < p ==> DigitsAt(completion, q, 4).None?
  {
    FirstFourDigits(completion)
  }

  /** A completion that starts with four digits has them as its year. */
  lemma YearOfLeadingDigits(year: string, rest: string)
    requires |year| == 4 && All(year, IsDigit)
    ensures YearOf(year + rest) == Some(year)
  {
    var s := year + rest;
    assert DigitsAt(s, 0, 4).Some? by {
      assert forall k :: 0 <= k < 4 ==> s[k] == year[k];
    }
    var p: nat :| DigitsAt(s, p, 4) == YearOf(s) && YearOf(s).value == s[p..p + 4]
                  && forall q: nat :: q < p ==> DigitsAt(s, q, 4).None?;
    assert p == 0;
    assert s[..4] == year;
  }

  // ---- Udemy -------------------------------------------------------------

  /** `completed the (.+?)(?:online course)? on`, IGNORECASE | DOTALL */
  const UdemyTitlePattern := LazyPattern("completed the ", false, 1, true, [Lit("online course on"), Lit(" on")], true)

  /** `on (.+?)(?:Instructor|Certificate|UC-)`, IGNORECASE | DOTALL */
  const UdemyDatePattern := LazyPattern("on ", false, 1, true, [Lit("Instructor"), Lit("Certificate"), Lit("UC-")], true)

  /** `Instructor: (.+?)(?:\n|$)`, IGNORECASE */
  const UdemyInstructorPattern := LazyPattern("Instructor: ", false, 1, false, [Lit("\n"), End], true)

  /** `<prefix>(UC-[A-Z0-9]+)` matched at p: the group's span, `UC-` and the longest run of capitals and digits after it. */
  function UdemyCertAt(s: string, prefix: string, p: nat): (r: Option<Span>)
    ensures r.Some? <==> LitAt(s, p, prefix + "UC-", false) && p + |prefix| + 3 < |s| && IsUpperAlnum(s[p + |prefix| + 3])
    ensures r.Some? ==> r.value.start == p + |prefix| && r.value.start + 3 < r.value.end <= |s|
    ensures r.Some? ==> AllBetween(s, r.value.start + 3, r.value.end, IsUpperAlnum)
                        && (r.value.end == |s| || !IsUpperAlnum(s[r.value.end]))
  {
    if !LitAt(s, p, prefix + "UC-", false) then None
    else
      var g := p + |prefix|;
      var n := Run(s, g + 3, IsUpperAlnum);
      if n == 0 then None else Some(Span(g, g + 3 + n))
  }

  /** `re.search(r'<prefix>(UC-[A-Z0-9]+)', s).group(1)`: the group of the leftmost match. */
  function UdemyCertSearch(s: string, prefix: string): (r: Option<string>)
    ensures r.Some? ==> |r.value| > 3 && r.value[..3] == "UC-"
    ensures r.Some? <==> exists p: nat :: p <= |s| && UdemyCertAt(s, prefix, p).Some?
    ensures r.Some? ==> exists p: nat :: p <= |s| && UdemyCertAt(s, prefix, p).Some?
                                         && r.value == s[UdemyCertAt(s, prefix, p).value.start..UdemyCertAt(s, prefix, p).value.end]
                                         && forall q: nat :: q < p ==> UdemyCertAt(s, prefix, q).None?
  {
    var m := p => UdemyCertAt(s, prefix, p);
    assert forall p :: m(p) == UdemyCertAt(s, prefix, p);
    match FindFirst(0, |s|, m)
    case Some((p, sp)) =>
      assert UdemyCertAt(s, prefix, p) == Some(sp);
      assert forall q: nat :: q < p ==> UdemyCertAt(s, prefix, q).None?;
      var w := prefix + "UC-";
      assert LitAt(s, p, w, false);
      var g := s[sp.start..sp.end];
      assert g[0] == s[p + |prefix|] == w[|prefix|];
      assert g[1] == s[p + |prefix| + 1] == w[|prefix| + 1];
      assert g[2] == s[p + |prefix| + 2] == w[|prefix| + 2];
      Some(g)
    case None => None
  }

  /** `re.search(r'Certificate no\. (UC-[A-Z0-9]+)', text) or re.search(r'Certificate url ude\.my/(UC-[A-Z0-9]+)', text)` */
  function UdemyCertId(text: string): (r: Option<string>)
    ensures r.Some? ==> |r.value| > 3 && r.value[..3] == "UC-"
    ensures UdemyCertSearch(text, "Certificate no. ").Some? ==> r == UdemyCertSearch(text, "Certificate no. ")
    ensures UdemyCertSearch(text, "Certificate no. ").None? ==> r == UdemyCertSearch(text, "Certificate url ude.my/")
  {
    match UdemyCertSearch(text, "Certificate no. ")
    case Some(id) => Some(id)
    case None => UdemyCertSearch(text, "Certificate url ude.my/")
  }

  /** A text that opens with `Certificate no. UC-<id>` has that certificate id. */
  lemma UdemyCertIdOfLeadingNumber(id: string, rest: string)
    requires |id| > 0 && All(id, IsUpperAlnum) && (rest == [] || !IsUpperAlnum(rest[0]))
    ensures UdemyCertId("Certificate no. UC-" + id + rest) == Some("UC-" + id)
  {
    var prefix := "Certificate no. ";
    var s := "Certificate no. UC-" + id + rest;
    LeadingCertNumberAt(id, rest);
    UdemyCertSearchAtStart(s, prefix);
    LeadingCertNumberSlice(id, rest);
  }

  lemma LeadingCertNumberSlice(id: string, rest: string)
    ensures ("Certificate no. UC-" + id + rest)[16..19 + |id|] == "UC-" + id
  {
    var s := "Certificate no. UC-" + id + rest;
    assert forall k :: 16 <= k < 19 + |id| ==> s[k] == ("UC-" + id)[k - 16];
  }

  /** A match at the very start is the leftmost one. */
  lemma UdemyCertSearchAtStart(s: string, prefix: string)
    requires UdemyCertAt(s, prefix, 0).Some?
    ensures UdemyCertSearch(s, prefix) == Some(s[UdemyCertAt(s, prefix, 0).value.start..UdemyCertAt(s, prefix, 0).value.end])
  {
    var p: nat :| p <= |s| && UdemyCertAt(s, prefix, p).Some?
                  && UdemyCertSearch(s, prefix).value == s[UdemyCertAt(s, prefix, p).value.start..UdemyCertAt(s, prefix, p).value.end]
                  && forall q: nat :: q < p ==> UdemyCertAt(s, prefix, q).None?;
    assert p == 0;
  }

  lemma LeadingCertNumberAt(id: string, rest: string)
    requires |id| > 0 && All(id, IsUpperAlnum) && (rest == [] || !IsUpperAlnum(rest[0]))
    ensures UdemyCertAt("Certificate no. UC-" + id + rest, "Certificate no. ", 0) == Some(Span(16, 19 + |id|))
  {
    var prefix := "Certificate no. ";
    var s := "Certificate no. UC-" + id + rest;
    var e := 19 + |id|;
    assert LitAt(s, 0, prefix + "UC-", false) by {
      assert prefix + "UC-" == "Certificate no. UC-";
      assert forall j :: 0 <= j < 19 ==> s[j] == "Certificate no. UC-"[j];
    }
    assert forall k :: 19 <= k < e ==> s[k] == id[k - 19];
    assert e == |s| || s[e] == rest[0];
    RunCovers(s, 19, e, IsUpperAlnum);
  }

  /**
   * The Udemy branch. A record needs both the title and the date; the
   * instructor is optional, skills are always empty, and the id falls back
   * to the content hash.
   */
  function MatchUdemy(text: string, digest: string): (r: Option<Fields>)
    ensures r.Some? <==> LazySearch(text, UdemyTitlePattern).Some? && LazySearch(text, UdemyDatePattern).Some?
    ensures r.Some? ==>
              && r.value.title == Strip(LazySearch(text, UdemyTitlePattern).value)
              && r.value.completion == Strip(LazySearch(text, UdemyDatePattern).value)
              && r.value.instructors == (if LazySearch(text, UdemyInstructorPattern).Some?
                                         then [Strip(LazySearch(text, UdemyInstructorPattern).value)] else [])
              && r.value.skills == ""
              && r.value.year == YearOf(r.value.completion)
              && r.value.certId == (if UdemyCertId(text).Some? then UdemyCertId(text).value else FallbackId(digest))
  {
    match (LazySearch(text, UdemyTitlePattern), LazySearch(text, UdemyDatePattern))
    case (Some(t), Some(d)) =>
      var completion := Strip(d);
      var instructors := match LazySearch(text, UdemyInstructorPattern)
        case Some(i) => [Strip(i)]
        case None => [];
      var certId := match UdemyCertId(text)
        case Some(id) => id
        case None => FallbackId(digest);
      Some(Fields(Strip(t), completion, "", YearOf(completion), certId, instructors))
    case _ => None
  }

  // ---- Cybrary -----------------------------------------------------------

  /** `provided by Cybrary in\s+(.+?)(?:\n|Date)`, IGNORECASE | DOTALL */
  const CybraryTitlePattern := LazyPattern("provided by Cybrary in", true, 1, true, [Lit("\n"), Lit("Date")], true)

  /**
   * `May \d{1,2}, \d{4} \d{1,2}:\d{2}[AP]M UTC` at p, with a day of d digits
   * and an hour of h digits. The comma is at p + 4 + d, the minutes start
   * eight places later plus the hour, and the match ends at p + 20 + d + h.
   */
  predicate MayDateShape(s: string, p: nat, d: nat, h: nat)
  {
    var c := p + 4 + d;
    var m := c + 8 + h;
    && 1 <= d <= 2 && 1 <= h <= 2 && m + 8 <= |s|
    && LitAt(s, p, "May ", false) && AllBetween(s, p + 4, c, IsDigit)
    && s[c] == ',' && s[c + 1] == ' ' && AllBetween(s, c + 2, c + 6, IsDigit) && s[c + 6] == ' '
    && AllBetween(s, c + 7, c + 7 + h, IsDigit) && s[c + 7 + h] == ':'
    && AllBetween(s, m, m + 2, IsDigit) && (s[m + 2] == 'A' || s[m + 2] == 'P') && LitAt(s, m + 3, "M UTC", false)
  }

  /** The `May ...` date pattern matched at p: where it ends. */
  function MayDateAt(s: string, p: nat): (r: Option<nat>)
    ensures r.Some? ==> exists d: nat, h: nat :: MayDateShape(s, p, d, h) && r.value == p + 20 + d + h
  {
    if !LitAt(s, p, "May ", false) then None
    else
      match DayDigits(s, p + 4, ',')
      case None => None
      case Some(c) =>
        var y := c + 2;
        if !(LitAt(s, c, ", ", false) && y + 5 <= |s| && AllBetween(s, y, y + 4, IsDigit) && s[y + 4] == ' ') then None
        else
          match DayDigits(s, y + 5, ':')
          case None => None
          case Some(h) =>
            var m := h + 1;
            if m + 8 <= |s| && AllBetween(s, m, m + 2, IsDigit) && (s[m + 2] == 'A' || s[m + 2] == 'P') && LitAt(s, m + 3, "M UTC", false)
            then
              assert s[c] == ", "[0] && s[c + 1] == ", "[1];
              assert MayDateShape(s, p, c - p - 4, h - y - 5);
              Some(m + 8)
            else None
  }

  /** Every `May ...` date at p is found, with its day and hour as long as they are. */
  lemma MayDateAtComplete(s: string, p: nat, d: nat, h: nat)
    requires MayDateShape(s, p, d, h)
    ensures MayDateAt(s, p) == Some(p + 20 + d + h)
  {
    var c := p + 4 + d;
    assert DayDigits(s, p + 4, ',') == Some(c);
    assert LitAt(s, c, ", ", false);
    assert DayDigits(s, c + 7, ':') == Some(c + 7 + h);
  }

  /** `\d{2}/\d{2}/\d{4}` */
  predicate IsSlashDate(t: string)
  {
    |t| == 10 && All(t[..2], IsDigit) && t[2] == '/' && All(t[3..5], IsDigit) && t[5] == '/' && All(t[6..], IsDigit)
  }

  /** The slashed date at p. */
  predicate SlashDateAt(s: string, p: nat)
  {
    p + 10 <= |s| && IsSlashDate(s[p..p + 10])
  }

  /** The Cybrary date pattern at p: the `May ...` alternative first, then the slashed one. */
  function CybraryDateAt(s: string, p: nat): (r: Option<nat>)
    ensures r.Some? ==> p < r.value <= |s|
    ensures r.Some? ==> (exists d: nat, h: nat :: MayDateShape(s, p, d, h) && r.value == p + 20 + d + h)
                        || (r.value == p + 10 && SlashDateAt(s, p))
  {
    match MayDateAt(s, p)
    case Some(e) => Some(e)
    case None => if SlashDateAt(s, p) then Some(p + 10) else None
  }

  /** Either alternative at p is found, and the slashed one only when `May` does not start there. */
  lemma CybraryDateAtComplete(s: string, p: nat)
    ensures forall d: nat, h: nat :: MayDateShape(s, p, d, h) ==> CybraryDateAt(s, p) == Some(p + 20 + d + h)
    ensures SlashDateAt(s, p) ==> CybraryDateAt(s, p) == Some(p + 10)
  {
    forall d: nat, h: nat | MayDateShape(s, p, d, h) ensures CybraryDateAt(s, p) == Some(p + 20 + d + h) {
      MayDateAtComplete(s, p, d, h);
    }
    if SlashDateAt(s, p) {
      var t := s[p..p + 10];
      assert t[..2][0] == t[0] == s[p];
      assert !LitAt(s, p, "May ", false) by { assert "May "[0] == 'M'; }
    }
  }

  /** The Cybrary completion date: the leftmost match of either alternative. */
  function CybraryDate(s: string): (r: Option<string>)
    ensures r.Some? <==> exists p: nat :: p <= |s| && CybraryDateAt(s, p).Some?
    ensures r.Some? ==> exists p: nat :: p <= |s| && CybraryDateAt(s, p).Some? && r.value == s[p..CybraryDateAt(s, p).value]
                                         && forall q: nat :: q < p ==> CybraryDateAt(s, q).None?
    ensures r.Some? ==> (|r.value| > 4 && r.value[..4] == "May ") || IsSlashDate(r.value)
  {
    var m := p => CybraryDateAt(s, p);
    assert forall p :: m(p) == CybraryDateAt(s, p);
    match FindFirst(0, |s|, m)
    case Some((p, e)) =>
      assert forall q: nat :: q < p ==> CybraryDateAt(s, q).None?;
      assert p + 10 <= e;
      var d := s[p..e];
      MayPrefix(s, p, e);
      Some(d)
    case None => None
  }

  lemma MayPrefix(s: string, p: nat, e: nat)
    requires p + 4 < e <= |s|
    ensures LitAt(s, p, "May ", false) ==> s[p..e][..4] == "May "
  {
    if LitAt(s, p, "May ", false) {
      assert forall j :: 0 <= j < 4 ==> s[p..e][j] == s[p + j];
    }
  }

  /** A text that opens with a slashed date has it as its Cybrary date. */
  lemma CybraryDateOfLeadingSlashDate(date: string, rest: string)
    requires IsSlashDate(date)
    ensures CybraryDate(date + rest) == Some(date)
  {
    var s := date + rest;
    assert s[0..10] == date;
    CybraryDateAtComplete(s, 0);
    var p: nat :| p <= |s| && CybraryDateAt(s, p).Some? && CybraryDate(s).value == s[p..CybraryDateAt(s, p).value]
                  && forall q: nat :: q < p ==> CybraryDateAt(s, q).None?;
    assert p == 0;
  }

  /** `C-([a-f0-9]{8}-[a-f0-9]{6})` matched at p: the group. */
  function CybraryIdAt(s: string, p: nat): (r: Option<string>)
    ensures r.Some? <==> p + 17 <= |s| && s[p] == 'C' && s[p + 1] == '-' && AllBetween(s, p + 2, p + 10, IsLowerHex)
                         && s[p + 10] == '-' && AllBetween(s, p + 11, p + 17, IsLowerHex)
    ensures r.Some? ==> r.value == s[p + 2..p + 17]
    ensures r.Some? ==> |r.value| == 15 && r.value[8] == '-' && All(r.value[..8], IsLowerHex) && All(r.value[9..], IsLowerHex)
  {
    if p + 17 <= |s| && s[p] == 'C' && s[p + 1] == '-' && AllBetween(s, p + 2, p + 10, IsLowerHex)
       && s[p + 10] == '-' && AllBetween(s, p + 11, p + 17, IsLowerHex)
    then
      var g := s[p + 2..p + 17];
      assert forall i :: 0 <= i < 8 ==> g[i] == s[p + 2 + i];
      assert forall i :: 9 <= i < 15 ==> g[i] == s[p + 2 + i];
      assert g[..8] == s[p + 2..p + 10] && g[9..] == s[p + 11..p + 17];
      Some(g)
    else
      None
  }

  /** `re.search(r'C-([a-f0-9]{8}-[a-f0-9]{6})', text).group(1)`: the group of the leftmost match. */
  function CybraryId(s: string): (r: Option<string>)
    ensures r.Some? <==> exists p: nat :: p <= |s| && CybraryIdAt(s, p).Some?
    ensures r.Some? ==> exists p: nat :: p <= |s| && CybraryIdAt(s, p) == r && r.value == s[p + 2..p + 17]
                                         && forall q: nat :: q < p ==> CybraryIdAt(s, q).None?
    ensures r.Some? ==> |r.value| == 15 && r.value[8] == '-'
  {
    var m := p => CybraryIdAt(s, p);
    assert forall p :: m(p) == CybraryIdAt(s, p);
    match FindFirst(0, |s|, m)
    case Some((p, id)) =>
      assert forall q: nat :: q < p ==> CybraryIdAt(s, q).None?;
      Some(id)
    case None => None
  }

  /** A text that opens with `C-<8 hex>-<6 hex>` has that id. */
  lemma CybraryIdOfLeadingId(a: string, b: string, rest: string)
    requires |a| == 8 && All(a, IsLowerHex) && |b| == 6 && All(b, IsLowerHex)
    ensures CybraryId("C-" + a + "-" + b + rest) == Some(a + "-" + b)
  {
    var s := "C-" + a + "-" + b + rest;
    assert forall k :: 2 <= k < 10 ==> s[k] == a[k - 2];
    assert forall k :: 11 <= k < 17 ==> s[k] == b[k - 11];
    assert CybraryIdAt(s, 0).Some?;
    var p: nat :| p <= |s| && CybraryIdAt(s, p) == CybraryId(s) && CybraryId(s).value == s[p + 2..p + 17]
                  && forall q: nat :: q < p ==> CybraryIdAt(s, q).None?;
    assert p == 0;
    assert s[2..17] == a + "-" + b;
  }

  /** The Cybrary branch: title, date and certificate id are all required; no instructors, no skills. */
  function MatchCybrary(text: string): (r: Option<Fields>)
    ensures r.Some? <==> LazySearch(text, CybraryTitlePattern).Some? && CybraryDate(text).Some? && CybraryId(text).Some?
    ensures r.Some? ==>
              && r.value.title == Strip(LazySearch(text, CybraryTitlePattern).value)
              && r.value.completion == Strip(CybraryDate(text).value)
              && r.value.certId == CybraryId(text).value
              && r.value.instructors == []
              && r.value.skills == ""
              && r.value.year == YearOf(r.value.completion)
  {
    match (LazySearch(text, CybraryTitlePattern), CybraryDate(text), CybraryId(text))
    case (Some(t), Some(d), Some(id)) =>
      var completion := Strip(d);
      Some(Fields(Strip(t), completion, "", YearOf(completion), id, []))
    case _ => None
  }

  // ---- DeepLearning.AI ---------------------------------------------------

  /** `congratulations on completing (.+?)(?=\.|!|\n)`, IGNORECASE */
  const DeepLearningAiTitlePattern :=
    LazyPattern("congratulations on completing ", false, 1, false, [Lit("."), Lit("!"), Lit("\n")], true)

  /** `[a-zA-Z\s]` */
  predicate IsSkillChar(c: char) { IsLetter(c) || IsSpace(c) }

  /** MULTILINE `^`: the start of the text or just after a newline. */
  predicate LineStart(s: string, q: nat)
  {
    q == 0 || (q <= |s| && s[q - 1] == '\n')
  }

  /** MULTILINE `$`: the end of the text or just before a newline. */
  predicate LineEnd(s: string, e: nat)
  {
    e == |s| || (e < |s| && s[e] == '\n')
  }

  /**
   * Greedy `[a-zA-Z\s]+` of length n from k followed by MULTILINE `$`:
   * the run gives characters back until it ends at a line end, so the
   * match ends at the last line end within the run, if any.
   */
  function LastLineEnd(s: string, k: nat, n: nat): (r: Option<nat>)
    requires k + n <= |s|
    decreases n
    ensures r.Some? ==> k < r.value <= k + n && LineEnd(s, r.value)
    ensures r.Some? ==> forall e :: r.value < e <= k + n ==> !LineEnd(s, e)
    ensures r.None? ==> forall e :: k < e <= k + n ==> !LineEnd(s, e)
  {
    if n == 0 then None
    else if LineEnd(s, k + n) then Some(k + n)
    else LastLineEnd(s, k, n - 1)
  }

  /** `^([A-Z][a-zA-Z\s]+)$` under MULTILINE matched at q: where the match ends. */
  function SkillLineAt(s: string, q: nat): (r: Option<nat>)
    ensures r.Some? ==> q < |s| && LineStart(s, q) && IsUpper(s[q])
    ensures r.Some? ==> q + 2 <= r.value <= |s| && AllBetween(s, q + 1, r.value, IsSkillChar) && LineEnd(s, r.value)
  {
    if q < |s| && LineStart(s, q) && IsUpper(s[q]) then LastLineEnd(s, q + 1, Run(s, q + 1, IsSkillChar))
    else None
  }

  /** The match at q is found and is the longest: no later line end is reachable through skill characters. */
  lemma SkillLineAtLongest(s: string, q: nat, e: nat)
    requires q < |s| && LineStart(s, q) && IsUpper(s[q])
    requires q + 1 < e && AllBetween(s, q + 1, e, IsSkillChar) && LineEnd(s, e)
    ensures SkillLineAt(s, q).Some? && e <= SkillLineAt(s, q).value
  {
    RunCovers(s, q + 1, e, IsSkillChar);
  }

  /** `re.findall(r'^([A-Z][a-zA-Z\s]+)$', s[from:], re.MULTILINE)`, continuing after each match. */
  function SkillLines(s: string, from: nat): seq<string>
    decreases |s| + 1 - from
  {
    if from > |s| then []
    else
      match SkillLineAt(s, from)
      case Some(e) => [s[from..e]] + SkillLines(s, e)
      case None => SkillLines(s, from + 1)
  }

  /** The skill items: each line stripped, keeping those longer than two characters. */
  function LongSkills(lines: seq<string>): (r: seq<string>)
    ensures forall i :: 0 <= i < |r| ==> |r[i]| > 2
    ensures |r| <= |lines|
  {
    LongItems(StrippedLines(lines))
  }

  /** Each line stripped. */
  function StrippedLines(lines: seq<string>): (r: seq<string>)
    ensures |r| == |lines| && forall j :: 0 <= j < |lines| ==> r[j] == Strip(lines[j])
  {
    Each(lines, Strip)
  }

  /** `f` applied to each item. */
  function Each(items: seq<string>, f: string -> string): (r: seq<string>)
    ensures |r| == |items| && forall j :: 0 <= j < |items| ==> r[j] == f(items[j])
  {
    seq(|items|, j requires 0 <= j < |items| => f(items[j]))
  }

  lemma EachAppend(a: seq<string>, b: seq<string>, f: string -> string)
    ensures Each(a + b, f) == Each(a, f) + Each(b, f)
  {
    var l, r := Each(a + b, f), Each(a, f) + Each(b, f);
    forall j | 0 <= j < |a + b| ensures l[j] == r[j] {
      if j < |a| {
        assert (a + b)[j] == a[j];
      } else {
        assert (a + b)[j] == b[j - |a|];
      }
    }
  }

  /** The items longer than two characters, in their order. */
  function LongItems(items: seq<string>): (r: seq<string>)
    ensures forall i :: 0 <= i < |r| ==> |r[i]| > 2
    ensures |r| <= |items|
  {
    if items == [] then []
    else (if |items[0]| > 2 then [items[0]] else []) + LongItems(items[1..])
  }

  /** The kept items are among the items, each kept at most as often as it occurs. */
  lemma {:induction false} LongItemsSubMultiset(items: seq<string>)
    ensures multiset(LongItems(items)) <= multiset(items)
    decreases |items|
  {
    if items != [] {
      var head := if |items[0]| > 2 then [items[0]] else [];
      LongItemsSubMultiset(items[1..]);
      assert items == [items[0]] + items[1..];
      assert multiset(head) <= multiset([items[0]]);
    }
  }

  /** Every item longer than two characters is kept. */
  lemma {:induction false} LongItemsKeepsLong(items: seq<string>)
    ensures forall j :: 0 <= j < |items| && |items[j]| > 2 ==> items[j] in LongItems(items)
    decreases |items|
  {
    if items != [] {
      LongItemsKeepsLong(items[1..]);
      assert forall j :: 1 <= j < |items| ==> items[j] == items[1..][j - 1];
    }
  }

  /** The filter works item by item. */
  lemma {:induction false} LongItemsAppend(a: seq<string>, b: seq<string>)
    ensures LongItems(a + b) == LongItems(a) + LongItems(b)
    decreases |a|
  {
    if a != [] {
      var head := if |a[0]| > 2 then [a[0]] else [];
      assert (a + b)[0] == a[0] && (a + b)[1..] == a[1..] + b;
      assert LongItems(a + b) == head + LongItems(a[1..] + b);
      LongItemsAppend(a[1..], b);
      assert LongItems(a) == head + LongItems(a[1..]);
    } else {
      assert a + b == b;
    }
  }

  /** Every kept item is a stripped line, kept at most as often as it occurs. */
  lemma LongSkillsFromLines(lines: seq<string>)
    ensures multiset(LongSkills(lines)) <= multiset(StrippedLines(lines))
    ensures forall x :: x in LongSkills(lines) ==> x in StrippedLines(lines)
  {
    var kept, all := LongSkills(lines), StrippedLines(lines);
    LongItemsSubMultiset(all);
    forall x | x in kept ensures x in all {
      assert x in multiset(kept);
    }
  }

  /** Every stripped line longer than two characters is kept. */
  lemma LongSkillsKeepsLong(lines: seq<string>)
    ensures forall j :: 0 <= j < |lines| && |Strip(lines[j])| > 2 ==> Strip(lines[j]) in LongSkills(lines)
  {
    LongItemsKeepsLong(StrippedLines(lines));
  }

  /** The kept lines keep their order: the filter works line by line. */
  lemma LongSkillsAppend(a: seq<string>, b: seq<string>)
    ensures LongSkills(a + b) == LongSkills(a) + LongSkills(b)
  {
    StrippedLinesAppend(a, b);
    LongItemsAppend(StrippedLines(a), StrippedLines(b));
  }

  lemma StrippedLinesAppend(a: seq<string>, b: seq<string>)
    ensures StrippedLines(a + b) == StrippedLines(a) + StrippedLines(b)
  {
    EachAppend(a, b, Strip);
  }

  /** The DeepLearning.AI skills string. */
  function DeepLearningAiSkills(text: string): string
  {
    JoinWith(", ", LongSkills(SkillLines(text, 0)))
  }

  /**
   * The DeepLearning.AI branch: the title from the text and an ISO date
   * from the file name are required; the instructor is fixed, the id is
   * always the hash fallback and the year is the date's first four characters.
   */
  function MatchDeepLearningAi(text: string, basename: string, digest: string): (r: Option<Fields>)
    ensures r.Some? <==> LazySearch(text, DeepLearningAiTitlePattern).Some? && FirstIsoDate(basename).Some?
    ensures r.Some? ==>
              && r.value.title == Strip(LazySearch(text, DeepLearningAiTitlePattern).value)
              && r.value.completion == FirstIsoDate(basename).value
              && IsIsoDate(r.value.completion)
              && r.value.instructors == ["DeepLearning.AI"]
              && r.value.certId == FallbackId(digest)
              && r.value.skills == DeepLearningAiSkills(text)
              && r.value.year == Some(r.value.completion[..4])
  {
    match (LazySearch(text, DeepLearningAiTitlePattern), FirstIsoDate(basename))
    case (Some(t), Some(d)) =>
      Some(Fields(Strip(t), d, DeepLearningAiSkills(text), Some(Take(d, 4)), FallbackId(digest), ["DeepLearning.AI"]))
    case _ => None
  }

  /**
   * On text without newlines `^` and `$` anchor the skills pattern to the
   * whole text, so it yields the whole text or nothing.
   */
  lemma SkillLinesOfOneLine(s: string)
    requires '\n' !in s
    ensures SkillLines(s, 0) == [] || SkillLines(s, 0) == [s]
  {
    NoSkillLineStartsLater(s, 1);
    match SkillLineAt(s, 0)
    case None =>
    case Some(e) =>
      assert e == |s|;
      NoSkillLineStartsLater(s, e);
      assert s[0..e] == s;
  }

  /**
   * So on normalized text the DeepLearning.AI skills are either empty or
   * the whole text.
   */
  lemma DeepLearningAiSkillsOfCleanText(rawText: string)
    ensures var text := CleanText(rawText);
            DeepLearningAiSkills(text) == "" || DeepLearningAiSkills(text) == text
  {
    var text := CleanText(rawText);
    CleanTextIsClean(rawText);
    CleanTextHasNoNewline(rawText);
    SkillLinesOfOneLine(text);
    if SkillLines(text, 0) == [text] {
      assert Strip(text) == text;
      assert StrippedLines([text]) == [text];
      assert LongItems([text]) == (if |text| > 2 then [text] else []) + LongItems([]);
    }
  }

  lemma {:induction false} NoSkillLineStartsLater(s: string, from: nat)
    requires '\n' !in s && from >= 1
    ensures SkillLines(s, from) == []
    decreases |s| + 1 - from
  {
    if from <= |s| {
      assert SkillLineAt(s, from).None? by {
        if from < |s| { assert s[from - 1] != '\n'; }
      }
      NoSkillLineStartsLater(s, from + 1);
    }
  }

  // ---- LinkedIn Learning -------------------------------------------------

  /** `CertificateOfCompletion_(.*?)(?:_|\.pdf)`, IGNORECASE, on the file name */
  const LinkedInTitlePattern := LazyPattern("CertificateOfCompletion_", false, 0, false, [Lit("_"), Lit(".pdf")], true)

  /** `Top skills covered\s+(.+?)(?:Certificate ID|\n|$)`, DOTALL */
  const LinkedInSkillsPattern := LazyPattern("Top skills covered", true, 1, true, [Lit("Certificate ID"), Lit("\n"), End], false)

  /**
   * `Certificate ID:\s*(\w+)` matched at p: the group is the longest run of
   * word characters after the longest run of whitespace. `\s*` never gives
   * characters back, since a whitespace character cannot start `\w+`.
   */
  function LinkedInCertAt(s: string, p: nat): (r: Option<Span>)
    ensures r.Some? ==> LitAt(s, p, "Certificate ID:", false) && p + 15 <= r.value.start < r.value.end <= |s|
    ensures r.Some? ==> AllBetween(s, p + 15, r.value.start, IsSpace) && AllBetween(s, r.value.start, r.value.end, IsWordChar)
                        && (r.value.end == |s| || !IsWordChar(s[r.value.end]))
  {
    if !LitAt(s, p, "Certificate ID:", false) then None
    else
      var g := p + 15 + Run(s, p + 15, IsSpace);
      var w := Run(s, g, IsWordChar);
      if w == 0 then None else Some(Span(g, g + w))
  }

  /** Whitespace then a maximal word after `Certificate ID:` at p is what the matcher finds there. */
  lemma LinkedInCertAtComplete(s: string, p: nat, g: nat, e: nat)
    requires LitAt(s, p, "Certificate ID:", false) && p + 15 <= g < e <= |s|
    requires AllBetween(s, p + 15, g, IsSpace) && AllBetween(s, g, e, IsWordChar) && (e == |s| || !IsWordChar(s[e]))
    ensures LinkedInCertAt(s, p) == Some(Span(g, e))
  {
    assert IsWordChar(s[g]) && !IsSpace(s[g]);
    RunCovers(s, p + 15, g, IsSpace);
    RunCovers(s, g, e, IsWordChar);
  }

  /** `re.search(r'Certificate ID:\s*(\w+)', text).group(1)`: the group of the leftmost match. */
  function LinkedInCertId(s: string): (r: Option<string>)
    ensures r.Some? <==> exists p: nat :: p <= |s| && LinkedInCertAt(s, p).Some?
    ensures r.Some? ==> exists p: nat :: p <= |s| && LinkedInCertAt(s, p).Some?
                                         && r.value == s[LinkedInCertAt(s, p).value.start..LinkedInCertAt(s, p).value.end]
                                         && forall q: nat :: q < p ==> LinkedInCertAt(s, q).None?
    ensures r.Some? ==> |r.value| > 0 && All(r.value, IsWordChar)
  {
    var m := p => LinkedInCertAt(s, p);
    assert forall p :: m(p) == LinkedInCertAt(s, p);
    match FindFirst(0, |s|, m)
    case Some((p, sp)) =>
      assert LinkedInCertAt(s, p) == Some(sp);
      assert forall q: nat :: q < p ==> LinkedInCertAt(s, q).None?;
      AllBetweenSlice(s, sp.start, sp.end, IsWordChar);
      Some(s[sp.start..sp.end])
    case None => None
  }

  /**
   * `Top skills covered` holds `ll`, and normalized text has no two equal
   * neighbours, so on normalized text the skills pattern never matches and
   * LinkedIn Learning records never carry skills.
   */
  lemma LinkedInSkillsNeverMatch(rawText: string)
    ensures LazySearch(CleanText(rawText), LinkedInSkillsPattern).None?
  {
    var s := CleanText(rawText);
    CleanTextIsClean(rawText);
    forall p: nat | p <= |s| ensures LazyAt(s, LinkedInSkillsPattern, p).None? {
      NoTopSkillsWithoutRepeats(s, p);
    }
  }

  /** Hence a LinkedIn Learning match on normalized text has empty skills. */
  lemma LinkedInRecordsHaveNoSkills(rawText: string, basename: string, digest: string)
    ensures var m := MatchLinkedIn(CleanText(rawText), basename, digest);
            m.Some? ==> m.value.skills == ""
  {
    LinkedInSkillsNeverMatch(rawText);
  }

  /**
   * The same collapse hits digits: a run of four digits in normalized text
   * never repeats a digit, so a year such as 2022 or 2000 cannot be matched
   * by `\d{4}` once the text is normalized.
   */
  lemma CleanTextDigitsDiffer(rawText: string, p: nat)
    requires DigitsAt(CleanText(rawText), p, 4).Some?
    ensures var s := CleanText(rawText); s[p] != s[p + 1] && s[p + 1] != s[p + 2] && s[p + 2] != s[p + 3]
  {
    CleanTextIsClean(rawText);
  }

  /**
   * A Cybrary id found in normalized text has no two equal adjacent
   * characters, so an id such as `C-aab…` in the PDF text is never found.
   */
  lemma CleanTextCybraryIdDiffers(rawText: string, p: nat)
    requires CybraryIdAt(CleanText(rawText), p).Some?
    ensures var s := CleanText(rawText); forall i :: p + 2 <= i < p + 16 ==> s[i] != s[i + 1]
  {
    CleanTextIsClean(rawText);
  }

  /**
   * The minutes of a `May` date found in normalized text are two different
   * digits, so a time on the hour (`:00`) never matches.
   */
  lemma CleanTextMayMinutesDiffer(rawText: string, p: nat, d: nat, h: nat)
    requires MayDateShape(CleanText(rawText), p, d, h)
    ensures var s := CleanText(rawText); s[p + 12 + d + h] != s[p + 13 + d + h]
  {
    CleanTextIsClean(rawText);
  }

  lemma NoTopSkillsWithoutRepeats(s: string, p: nat)
    requires NoRepeats(s)
    ensures !LitAt(s, p, "Top skills covered", false)
  {
    if p + 18 <= |s| {
      assert s[p + 7] != s[p + 8];
      assert "Top skills covered"[7] == 'l' && "Top skills covered"[8] == 'l';
    }
  }

  /**
   * The LinkedIn Learning branch: the title from the file name and a
   * `completed by` date are required; no instructors; skills and the id are
   * optional, the id falling back to the content hash.
   */
  function MatchLinkedIn(text: string, basename: string, digest: string): (r: Option<Fields>)
    ensures r.Some? <==> LazySearch(basename, LinkedInTitlePattern).Some? && PrefixedDate(text, "completed by ").Some?
    ensures r.Some? ==>
              && r.value.title == ReplaceChar(Strip(LazySearch(basename, LinkedInTitlePattern).value), '_', ' ')
              && r.value.completion == Strip(PrefixedDate(text, "completed by ").value)
              && r.value.instructors == []
              && r.value.skills == (if LazySearch(text, LinkedInSkillsPattern).Some? then Strip(LazySearch(text, LinkedInSkillsPattern).value) else "")
              && r.value.certId == (if LinkedInCertId(text).Some? then LinkedInCertId(text).value else FallbackId(digest))
              && r.value.year == YearOf(r.value.completion)
  {
    match (LazySearch(basename, LinkedInTitlePattern), PrefixedDate(text, "completed by "))
    case (Some(t), Some(d)) =>
      var completion := Strip(d);
      var skills := match LazySearch(text, LinkedInSkillsPattern)
        case Some(g) => if g != "" then Strip(g) else ""
        case None => "";
      var certId := match LinkedInCertId(text)
        case Some(id) => id
        case None => FallbackId(digest);
      Some(Fields(ReplaceChar(Strip(t), '_', ' '), completion, skills, YearOf(completion), certId, []))
    case _ => None
  }

  /**
   * The lazy title group stops at the first `_`, so it holds none and the
   * `.replace('_', ' ')` applied to it changes nothing.
   */
  lemma LinkedInTitleHasNoUnderscore(basename: string)
    ensures LazySearch(basename, LinkedInTitlePattern).Some? ==> '_' !in LazySearch(basename, LinkedInTitlePattern).value
    ensures LazySearch(basename, LinkedInTitlePattern).Some? ==>
              var t := Strip(LazySearch(basename, LinkedInTitlePattern).value); ReplaceChar(t, '_', ' ') == t
  {
    if LazySearch(basename, LinkedInTitlePattern).Some? {
      var g := LazySearch(basename, LinkedInTitlePattern).value;
      LazyGroupHasNoUnderscore(basename, g);
      StripKeepsAbsent(g, '_');
      ReplaceAbsent(Strip(g), '_', ' ');
    }
  }

  lemma LazyGroupHasNoUnderscore(s: string, g: string)
    requires exists p: nat :: p <= |s| && LazyAt(s, LinkedInTitlePattern, p).Some?
               && g == s[LazyAt(s, LinkedInTitlePattern, p).value.start..LazyAt(s, LinkedInTitlePattern, p).value.end]
    ensures '_' !in g
  {
    var p: nat :| p <= |s| && LazyAt(s, LinkedInTitlePattern, p).Some?
                  && g == s[LazyAt(s, LinkedInTitlePattern, p).value.start..LazyAt(s, LinkedInTitlePattern, p).value.end];
    var sp := LazyAt(s, LinkedInTitlePattern, p).value;
    GroupStopsAtUnderscore(s, sp.start, sp.end);
  }

  lemma StripKeepsAbsent(g: string, c: char)
    requires c !in g
    ensures c !in Strip(g)
  {
    var t := Strip(g);
    var a, b :| 0 <= a <= b <= |g| && t == g[a..b];
    assert forall i :: 0 <= i < |t| ==> t[i] == g[a + i];
  }

  /** No character before the lazy end can be `_`, or the group would have ended there. */
  lemma GroupStopsAtUnderscore(s: string, g: nat, e: nat)
    requires IsLazyEnd(s, g, 0, false, LinkedInTitlePattern.alts, true, e)
    ensures '_' !in s[g..e]
  {
    var alts := LinkedInTitlePattern.alts;
    forall j | g <= j < e ensures s[j] != '_' {
      assert !AnyAltAt(s, j, alts, true);
      assert !AltAt(s, j, alts[0], true);
      assert alts[0] == Lit("_");
      assert !LitAt(s, j, "_", true);
      assert !CharEq(s[j], '_', true);
    }
  }

  lemma ReplaceAbsent(t: string, a: char, b: char)
    requires a !in t
    ensures ReplaceChar(t, a, b) == t
  {
  }

  // ---- Record builder ----------------------------------------------------

  /**
   * The run's options: the three filters (a user regex is an opaque
   * predicate, None when not given; the year filter is inactive when empty),
   * URL generation, and what the document URL is built from.
   */
  datatype Options = Options(
    skillFilter: Option<string -> bool>,
    yearFilter: string,
    titleFilter: Option<string -> bool>,
    fetchUrls: bool,
    testMode: bool,
    githubPageUrl: string,
    repo: string,
    releaseTag: string,
    quote: string -> string)

  /** The provider branch `extract_metadata` takes; an unknown provider yields no record. */
  function MatchProvider(providerId: string, text: string, basename: string, digest: string): (r: Option<Fields>)
    ensures ProviderOf(providerId).None? ==> r.None?
    ensures ProviderOf(providerId) == Some(Udemy) ==> r == MatchUdemy(text, digest)
    ensures ProviderOf(providerId) == Some(Cybrary) ==> r == MatchCybrary(text)
    ensures ProviderOf(providerId) == Some(DeepLearningAi) ==> r == MatchDeepLearningAi(text, basename, digest)
    ensures ProviderOf(providerId) == Some(LinkedInLearning) ==> r == MatchLinkedIn(text, basename, digest)
  {
    match ProviderOf(providerId)
    case None => None
    case Some(Udemy) => MatchUdemy(text, digest)
    case Some(Cybrary) => MatchCybrary(text)
    case Some(DeepLearningAi) => MatchDeepLearningAi(text, basename, digest)
    case Some(LinkedInLearning) => MatchLinkedIn(text, basename, digest)
  }

  /** A record is kept unless an active filter rejects it. */
  predicate PassesFilters(f: Fields, opts: Options)
  {
    !(  (opts.skillFilter.Some? && !opts.skillFilter.value(f.skills))
     || (opts.yearFilter != "" && f.year != Some(opts.yearFilter))
     || (opts.titleFilter.Some? && !opts.titleFilter.value(f.title)))
  }

  /** `pdf_url`: the staging URL in test mode, the release-download URL otherwise; both end in the quoted file name. */
  function PdfUrl(pdfPath: string, opts: Options): (r: string)
    ensures var name := opts.quote(BaseName(pdfPath)); |name| < |r| && r[|r| - |name|..] == name
    ensures opts.testMode ==> |opts.githubPageUrl| < |r| && r[..|opts.githubPageUrl|] == opts.githubPageUrl
    ensures !opts.testMode ==> 19 < |r| && r[..19] == "https://github.com/"
  {
    var name := opts.quote(BaseName(pdfPath));
    var base := if opts.testMode then opts.githubPageUrl + "/assets/pdfs/"
                else "https://github.com/" + opts.repo + "/releases/download/" + opts.releaseTag + "/";
    assert (base + name)[..|base|] == base && (base + name)[|base|..] == name;
    if opts.testMode then
      assert (base + name)[..|opts.githubPageUrl|] == base[..|opts.githubPageUrl|];
      base + name
    else
      assert (base + name)[..19] == base[..19];
      base + name
  }

  /** The path the record is built from: for Udemy, the one `rename_file` returned. */
  function PathAfterMatch(providerId: string, pdfPath: string, f: Fields): (r: string)
    ensures providerId != "udemy" || f.completion == "" || f.title == "" ==> r == pdfPath
    ensures providerId == "udemy" && f.completion != "" && f.title != "" && '/' !in f.completion ==>
              BaseName(r) == NewName(f.completion, f.title) && DirName(r) == DirName(pdfPath)
  {
    if providerId == "udemy" then
      if f.completion != "" && f.title != "" && '/' !in f.completion then
        RenameTargetPlacement(pdfPath, f.completion, f.title);
        RenameTarget(pdfPath, f.completion, f.title)
      else RenameTarget(pdfPath, f.completion, f.title)
    else pdfPath
  }

  /**
   * `extract_metadata` as a value, on the text after `clean_text`: match the
   * provider's layout, filter, then fill in the URLs.
   */
  function Extract(pdfPath: string, text: string, digest: string, providerId: string, opts: Options): (r: Option<Record>)
    ensures ProviderOf(providerId).None? ==> r.None?
    ensures match MatchProvider(providerId, text, BaseName(pdfPath), digest)
            case None => r.None?
            case Some(f) =>
              && (r.Some? <==> PassesFilters(f, opts))
              && (r.Some? ==>
                    && r.value.title == f.title && r.value.completion == f.completion && r.value.skills == f.skills
                    && r.value.year == f.year && r.value.certId == f.certId && r.value.instructors == f.instructors
                    && r.value.pdfUrl == PdfUrl(PathAfterMatch(providerId, pdfPath, f), opts))
    ensures r.Some? ==> r.value.provider == providerId && r.value.certUrl == ""
    ensures r.Some? ==> r.value.courseUrl == if opts.fetchUrls then CourseUrl(r.value.title, providerId) else ""
    ensures r.Some? && opts.yearFilter != "" ==> r.value.year == Some(opts.yearFilter)
    ensures r.Some? && opts.skillFilter.Some? ==> opts.skillFilter.value(r.value.skills)
    ensures r.Some? && opts.titleFilter.Some? ==> opts.titleFilter.value(r.value.title)
  {
    var m := MatchProvider(providerId, text, BaseName(pdfPath), digest);
    if m.None? || !PassesFilters(m.value, opts) then None
    else
      var f := m.value;
      var courseUrl := if opts.fetchUrls then CourseUrl(f.title, providerId) else "";
      var pdfUrl := PdfUrl(PathAfterMatch(providerId, pdfPath, f), opts);
      Some(Record(f.title, f.completion, f.skills, f.year, f.certId, f.instructors, "", courseUrl, pdfUrl, providerId))
  }

  /** Every record has the matches its provider requires. */
  lemma RequiredMatches(pdfPath: string, text: string, digest: string, providerId: string, opts: Options)
    ensures var found := Extract(pdfPath, text, digest, providerId, opts).Some?;
      && (found && providerId == "udemy" ==> LazySearch(text, UdemyTitlePattern).Some? && LazySearch(text, UdemyDatePattern).Some?)
      && (found && providerId == "cybrary" ==> LazySearch(text, CybraryTitlePattern).Some? && CybraryDate(text).Some? && CybraryId(text).Some?)
      && (found && providerId == "deeplearningai" ==> LazySearch(text, DeepLearningAiTitlePattern).Some? && FirstIsoDate(BaseName(pdfPath)).Some?)
      && (found && providerId == "linkedinlearning" ==> LazySearch(BaseName(pdfPath), LinkedInTitlePattern).Some? && PrefixedDate(text, "completed by ").Some?)
  {
    if Extract(pdfPath, text, digest, providerId, opts).Some? {
      ProviderMatchesRequired(providerId, text, BaseName(pdfPath), digest);
    }
  }

  /** A provider's match succeeds only once all the patterns it needs have matched. */
  lemma ProviderMatchesRequired(providerId: string, text: string, basename: string, digest: string)
    requires MatchProvider(providerId, text, basename, digest).Some?
    ensures providerId == "udemy" ==> LazySearch(text, UdemyTitlePattern).Some? && LazySearch(text, UdemyDatePattern).Some?
    ensures providerId == "cybrary" ==> LazySearch(text, CybraryTitlePattern).Some? && CybraryDate(text).Some? && CybraryId(text).Some?
    ensures providerId == "deeplearningai" ==> LazySearch(text, DeepLearningAiTitlePattern).Some? && FirstIsoDate(basename).Some?
    ensures providerId == "linkedinlearning" ==> LazySearch(basename, LinkedInTitlePattern).Some? && PrefixedDate(text, "completed by ").Some?
  {
    if providerId == "udemy" {
      assert ProviderOf(providerId) == Some(Udemy);
    } else if providerId == "cybrary" {
      assert ProviderOf(providerId) == Some(Cybrary);
    } else if providerId == "deeplearningai" {
      assert ProviderOf(providerId) == Some(DeepLearningAi);
    } else if providerId == "linkedinlearning" {
      assert ProviderOf(providerId) == Some(LinkedInLearning);
    }
  }

  /**
   * `extract_metadata` on the file system: the Udemy branch renames the file
   * (before filtering, so a filtered-out certificate is still renamed), and
   * the record is the one `Extract` describes.
   */
  method ExtractMetadata(fs: FileSystem, pdfPath: string, rawText: string, digest: string, providerId: string, opts: Options)
    returns (r: Option<Record>)
    requires pdfPath in fs.paths
    modifies fs
    ensures r == Extract(pdfPath, CleanText(rawText), digest, providerId, opts)
    ensures var m := MatchProvider(providerId, CleanText(rawText), BaseName(pdfPath), digest);
            var target := if m.Some? then PathAfterMatch(providerId, pdfPath, m.value) else pdfPath;
            fs.paths == if target != pdfPath && target !in old(fs.paths)
                        then old(fs.paths) - {pdfPath} + {target}
                        else old(fs.paths)
  {
    var text := CleanText(rawText);
    var matched := MatchProvider(providerId, text, BaseName(pdfPath), digest);
    if matched.None? {
      return None;
    }
    var f := matched.value;
    var path := pdfPath;
    if providerId == "udemy" {
      path := fs.RenameFile(pdfPath, f.completion, f.title);
    }
    if !PassesFilters(f, opts) {
      return None;
    }
    var courseUrl := if opts.fetchUrls then CourseUrl(f.title, providerId) else "";
    r := Some(Record(f.title, f.completion, f.skills, f.year, f.certId, f.instructors, "", courseUrl, PdfUrl(path, opts), providerId));
  }
}
