/** `generate_course_url`: a slug built from the title, placed in the provider's URL template. */
module CourseUrls {
  import opened Wrappers
  import opened Chars
  import opened Providers

  /** `[\w\s-]` */
  predicate KeptBySlug(c: char)
  {
    IsWordChar(c) || IsSpace(c) || c == '-'
  }

  /** The characters a slug can hold: lower-case word characters, `-`, and whitespace other than the space. */
  predicate SlugChar(c: char)
  {
    'a' <= c <= 'z' || IsDigit(c) || c == '_' || c == '-' || (IsSpace(c) && c != ' ')
  }

  /** `re.sub(r'[^\w\s-]', '', title.lower()).replace(' ', '-').strip('-')` */
  function Slug(title: string): string
  {
    StripChar(ReplaceChar(Filter(Lower(title), KeptBySlug), ' ', '-'), '-')
  }

  function UrlPrefix(p: Provider): string
  {
    match p
    case LinkedInLearning => "https://www.linkedin.com/learning/"
    case Udemy => "https://www.udemy.com/course/"
    case Cybrary => "https://www.cybrary.it/course/"
    case DeepLearningAi => "https://www.deeplearning.ai/short-courses/"
  }

  function UrlSuffix(p: Provider): string
  {
    if p == LinkedInLearning then "" else "/"
  }

  /** `generate_course_url(title, provider_id)`: empty exactly for an identifier outside the provider set. */
  function CourseUrl(title: string, providerId: string): (r: string)
    ensures r == "" <==> ProviderOf(providerId).None?
    ensures ProviderOf(providerId).Some? ==>
              var p := ProviderOf(providerId).value;
              r == UrlPrefix(p) + Slug(title) + UrlSuffix(p)
  {
    match ProviderOf(providerId)
    case None => ""
    case Some(p) => UrlPrefix(p) + Slug(title) + UrlSuffix(p)
  }

  /** What `Slug` strips: lower-case, without the characters the pattern removes, spaces made `-`. */
  lemma HyphenatedShape(title: string)
    ensures All(ReplaceChar(Filter(Lower(title), KeptBySlug), ' ', '-'), SlugChar)
  {
    var l := Lower(title);
    FilterKeeps(l, KeptBySlug, c => !IsUpper(c));
    var f := Filter(l, KeptBySlug);
    var q := ReplaceChar(f, ' ', '-');
    forall k | 0 <= k < |q| ensures SlugChar(q[k]) {
      assert KeptBySlug(f[k]) && !IsUpper(f[k]);
    }
  }

  lemma StripKeepsSlugChars(q: string)
    requires All(q, SlugChar)
    ensures All(StripChar(q, '-'), SlugChar)
  {
    var i, j :| 0 <= i <= j <= |q| && StripChar(q, '-') == q[i..j];
    AllSlice(q, i, j, SlugChar);
  }

  /** A slug is lower-case, holds no space, and neither starts nor ends with `-`. */
  lemma SlugShape(title: string)
    ensures All(Slug(title), SlugChar)
    ensures ' ' !in Slug(title)
    ensures Slug(title) == [] || (Slug(title)[0] != '-' && Slug(title)[|Slug(title)| - 1] != '-')
  {
    var q := ReplaceChar(Filter(Lower(title), KeptBySlug), ' ', '-');
    HyphenatedShape(title);
    StripKeepsSlugChars(q);
    var r := StripChar(q, '-');
    assert r == Slug(title);
  }

  lemma LowerFixes(s: string)
    requires forall i :: 0 <= i < |s| ==> !IsUpper(s[i])
    ensures Lower(s) == s
  {
  }

  /** A string already shaped like a slug is its own slug. */
  lemma SlugOfSlugShaped(u: string)
    requires All(u, SlugChar) && ' ' !in u
    requires u == [] || (u[0] != '-' && u[|u| - 1] != '-')
    ensures Slug(u) == u
  {
    assert forall i :: 0 <= i < |u| ==> SlugChar(u[i]);
    LowerFixes(u);
    assert All(u, KeptBySlug);
    var f := Filter(Lower(u), KeptBySlug);
    assert f == u;
    var q := ReplaceChar(f, ' ', '-');
    assert forall i :: 0 <= i < |u| ==> u[i] != ' ';
    assert q == u;
  }

  /** Building the slug of a slug changes nothing. */
  lemma SlugIdempotent(title: string)
    ensures Slug(Slug(title)) == Slug(title)
  {
    SlugShape(title);
    SlugOfSlugShaped(Slug(title));
  }
}
