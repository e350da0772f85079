# Certificate metadata extraction, modelled in Dafny

`li_extract.py` builds a catalogue of a user's course-completion
certificates. The certificates come from four providers: Udemy, Cybrary,
DeepLearning.AI and LinkedIn Learning. The script works in five steps:

- It reads the PDF text and normalizes it.
- It recognizes the provider's layout with regular expressions.
- It extracts title, completion date, skills, year, certificate id and instructors.
- It builds the course and document URLs, and renames Udemy certificates to `<ISO date>-<title>.pdf`.
- It summarizes the collection in a statistics dict.

This project models that decision logic and proves properties of it. The modules follow the program's parts:

| module | file | models |
|---|---|---|
| `Wrappers` | `wrappers.dfy` | `Option`, for "no match" |
| `Chars` | `chars.dfy` | the character classes `\w`, `\s`, `\d` and the Python string methods the script uses (`lower`, `strip`, `replace`, `join`, `[:n]`) |
| `Search` | `search.dfy` | `re.search` as the leftmost position at which a hand-written matcher succeeds; lazy groups `(.+?)`/`(.*?)` that end at the earliest terminator; the fixed-shape digit patterns; `str.split` |
| `Normalizer` | `normalizer.dfy` | `clean_text` |
| `Providers` | `providers.dfy` | the closed set of provider identifiers |
| `CourseUrls` | `course_url.dfy` | `generate_course_url` |
| `FileNames` | `file_names.dfy` | `rename_file`, the name step of `rename_udemy_file`, and a file system held as a set of existing paths |
| `Extraction` | `extraction.dfy` | the provider branches, filters and record assembly of `extract_metadata` |
| `Statistics` | `statistics.dfy` | `generate_statistics` |

Each regular expression is written out as a search over positions, with the semantics of the expression as written:

- greedy runs that give characters back (`\s+` before a lazy group, `[a-zA-Z\s]+` before `$`);
- `DOTALL` versus a `.` that stops at newlines;
- `$` at the end or before a final newline;
- `IGNORECASE` as ASCII case folding;
- for an alternation, the first alternative that matches at the leftmost position.

`rename_file` and `rename_udemy_file` change the file system. They are
methods of the class `FileNames.FileSystem`, whose field `paths` is the set
of files that exist. Each method states the new set exactly.

`extract_metadata` calls `rename_file` before the filters apply. It is
therefore the method `Extraction.ExtractMetadata` on a `FileSystem`. That
method normalizes the text with `clean_text`. Its result is the pure
function `Extraction.Extract` applied to that normalized text, and the
properties of the record are proved about `Extract`.

The byte-level inputs are parameters of the model:

- `rawText`: the PDF's extracted text;
- `digest`: the hex SHA-256 digest of the file;
- `quote`: the URL-quoting function;
- the user's filter regexes, as opaque predicates;
- the release tag, repository and page URL.

### Where the code differs from its description

The model follows the code as written:

- `rename_file` runs `re.sub(r'[^\w\-]', '', title)` before `.replace(' ', '-')`. The spaces are already gone when the replacement runs, so a title's words run together without hyphens (`FileNames.SanitizeTitle`). By the same step, a title such as "Intro to Networking!" becomes `introtonetworking` and not `intro-to-networking`.
- `rename_file` returns the new path whenever the date and the title are both non-empty, even when that path already existed and nothing was renamed. `extract_metadata` then builds the document URL from that path (`FileNames.FileSystem.RenameFile`, `Extraction.PathAfterMatch`).
- The Cybrary date pattern accepts only the month `May` (in the form `May d, yyyy h:mmAM UTC` or `h:mmPM UTC`, with no space before `AM`/`PM`) or `dd/dd/dddd` (`Extraction.CybraryDate`).
- `clean_text` collapses runs of any character except the newline, because `.` does not match `\n`. The second pass then turns every whitespace run, newlines included, into one space. No newline survives (`Normalizer.CleanTextHasNoNewline`). So:
  - the `\n` alternatives in the extraction patterns never fire on normalized text;
  - the DeepLearning.AI skills pattern `^...$` with MULTILINE is anchored to the whole text (`Extraction.DeepLearningAiSkillsOfCleanText`).
- The collapsing pass of `clean_text` also removes letters and digits that the patterns expect twice in a row:
  - the LinkedIn Learning skills pattern `Top skills covered` contains `ll`, so it never matches normalized text, and no LinkedIn Learning record carries skills (`Extraction.LinkedInSkillsNeverMatch`, `Extraction.LinkedInRecordsHaveNoSkills`);
  - a time such as `10:00AM` becomes `10:0AM`, so the Cybrary `May` alternative, which needs two minute digits, fails on it (`Extraction.CleanTextMayMinutesDiffer`);
  - a Cybrary id with two equal adjacent hex digits loses one of them, so the id pattern's fixed lengths no longer fit (`Extraction.CleanTextCybraryIdDiffers`);
  - a year with two equal adjacent digits (2000, 2011, 2022, 2033) loses one, so `(\d{4})` never finds it (`Extraction.CleanTextDigitsDiffer`).
- The Udemy title pattern in `extract_metadata` (`(.+?)(?:online course)? on`, DOTALL) is not the one in `rename_udemy_file` (`(.*?)(?: online course)? on`, no DOTALL). The date patterns differ too. Each is modelled separately.

## Model

| member | source | states |
|---|---|---|
| `Chars.Lower` | li_extract.py:60 | `str.lower` keeps the length, folds each character to its lower-case form, and leaves no upper-case ASCII letter |
| `Chars.Filter` | li_extract.py:60 | `re.sub('[^…]', '', s)` keeps only characters of the class, each taken from the input, and leaves a string made only of such characters unchanged |
| `Chars.FilterAppend` | li_extract.py:60 | filtering a concatenation filters each part in turn, so the kept characters stay in their order |
| `Chars.FilterCounts` | li_extract.py:60 | a kept character occurs in the result exactly as often as in the input, and a dropped one not at all |
| `Chars.Strip` | li_extract.py:53 | `str.strip()` yields the slice of its input left after removing whitespace from both ends: it starts and ends with a non-space, and everything cut off is whitespace. An already trimmed string is unchanged |
| `Chars.StripChar` | li_extract.py:60 | `str.strip('-')` yields the slice left after removing `-` from both ends: it neither starts nor ends with `-`, and everything cut off is `-`. A string without such ends is unchanged |
| `Chars.RemoveChar` | li_extract.py:99 | `.replace(',', '')` is the filter that keeps every other character. It leaves no occurrence of the removed character, and leaves a string without it unchanged |
| `Chars.RemoveCharCounts` | li_extract.py:99 | removing a character keeps every other character's number of occurrences and sets its own to zero |
| `Chars.RemoveCharAppend` | li_extract.py:99 | removing a character from a concatenation removes it from each part |
| `Chars.ReplaceCharAppend` | li_extract.py:98-99 | `.replace(' ', '-')` on a concatenation replaces in each part |
| `Chars.ReplaceChar` | li_extract.py:98-99 | `.replace(a, b)` for single characters keeps the length and replaces exactly the occurrences of `a` |
| `Chars.LowerAppend` | li_extract.py:98 | lowering a concatenation lowers each part |
| `Search.FindFirst` | li_extract.py:161 | `re.search` finds the leftmost position at which the pattern matches, and fails only when it matches nowhere |
| `Search.LazyAt` | li_extract.py:161-164 | a prefix followed by a lazy group. The group ends at the earliest end, at least the minimum length on, at which a terminator follows. With `\s+` after the prefix, the group starts after some whitespace the greedy run gives back: the longest run from which a lazy end exists. A failure after the prefix means that no admissible group start has a lazy end |
| `Search.LazySearch` | li_extract.py:161-164 | the search succeeds exactly when the lazy pattern matches at some position. It returns the group of the match at the leftmost such position, as the slice between the group's bounds |
| `Search.DigitsAt` | li_extract.py:171 | `\d{n}` matches at p exactly when the n characters from p are digits, and yields that slice |
| `Search.FirstFourDigits` | li_extract.py:171 | `re.search(r'(\d{4})', …)` succeeds exactly when four digits occur somewhere, and yields the slice at the leftmost such position |
| `Search.IsoDateAt` | li_extract.py:197 | `\d{4}-\d{2}-\d{2}` matches at p exactly when the ten characters from p have the ISO shape, and yields them |
| `Search.FirstIsoDate` | li_extract.py:197 | `(\d{4}-\d{2}-\d{2})` succeeds exactly when an ISO-shaped date occurs in the file name, and yields the slice at the leftmost such position |
| `Search.DayDigits` | li_extract.py:74 | `\d{1,2}` followed by a given separator ends before that separator after one or two digits. It takes two digits when they are followed by the separator, and one digit otherwise |
| `Search.MonthDayYearAt` | li_extract.py:74 | what `(\w+)\s+(\d{1,2}),\s+(\d{4})` finds at k is a placement of its three groups: a word, spaces, one or two digits, a comma, spaces and four digits |
| `Search.MonthDayYearComplete` | li_extract.py:74 | every placement of the pattern's groups at k is the one the matcher finds, so the match at k is unique and found whenever one exists |
| `Search.WordThenSpacesComplete` | li_extract.py:74 | the greedy `(\w+)\s+` takes the whole word and the whole run of spaces after it |
| `Search.YearAfterComplete` | li_extract.py:74 | the greedy `\s+` before `(\d{4})` takes every space up to the year |
| `Search.WordThenSpaces` | li_extract.py:74 | `\w+\s+` at k ends after a non-empty word and a non-empty run of spaces that stops before the next non-space |
| `Search.YearAfter` | li_extract.py:74 | `\s+(\d{4})` places the year after a non-empty run of spaces, on four digits |
| `Search.MonthGroup` | li_extract.py:76-78 | `group(1)` is a non-empty word from k to the word's end |
| `Search.DayGroup` | li_extract.py:79 | `group(2)` is one or two digits |
| `Search.YearGroup` | li_extract.py:80 | `group(3)` is four digits |
| `Search.DayOfMonthDayYear` | li_extract.py:74 | the day group of a placement is the one the day matcher finds |
| `Search.PrefixedDateAt` | li_extract.py:212 | `completed by (\w+\s+\d{1,2},\s+\d{4})` matches at p exactly when the prefix occurs at p and a month-day-year follows. The group runs from after the prefix to the end of the year |
| `Search.PrefixedDate` | li_extract.py:212 | the search succeeds exactly when the prefixed date matches somewhere, and yields the group of the match at the leftmost such position |
| `Search.FindLit` | li_extract.py:255 | the first occurrence of a literal at or after a position, or the fact that it occurs nowhere after it |
| `Search.Split` | li_extract.py:255 | `str.split(', ')` yields at least one part, and no part contains the separator |
| `Search.SplitJoin` | li_extract.py:255 | joining the parts of a split with the separator gives back the original string |
| `Normalizer.CollapseRuns` | li_extract.py:52 | pass one, `re.sub(r'(.)\1+', r'\1', …)`. Its properties are stated by `CollapseRunsIsReference` (equal to the character-by-character reading), `CollapseRunsRepeats` and `CollapseRunsFixes` |
| `Normalizer.SqueezeSpaces` | li_extract.py:53 | pass two, `re.sub(r'\s+', ' ', …)`. Its properties are stated by `SqueezeSpacesShape` and `SqueezeSpacesFixes` |
| `Normalizer.CleanText` | li_extract.py:51-53 | `clean_text`: the two passes, then `strip()`. Its properties are stated by `CleanTextIsClean`, `CleanTextHasNoNewline`, `CleanTextFixesClean` and `CleanTextIdempotent` |
| `Normalizer.CollapseRunsRepeats` | li_extract.py:52 | after `re.sub(r'(.)\1+', r'\1', …)` two adjacent characters are equal only when both are newlines. The result is empty exactly when the input is, and starts with the input's first character |
| `Normalizer.CollapseRunsIsReference` | li_extract.py:52 | the first pass, which replaces each run of a repeated non-newline character by one copy, equals a character-by-character reading: a character is dropped exactly when it repeats the one before it and that one is not a newline |
| `Normalizer.SqueezeSpacesShape` | li_extract.py:53 | after `re.sub(r'\s+', ' ', …)` on the output of the first pass, no two adjacent characters are equal and the only whitespace is a single space |
| `Normalizer.CleanTextIsClean` | li_extract.py:51-53 | the output of `clean_text` has no two equal adjacent characters, no whitespace but single spaces, and no leading or trailing whitespace |
| `Normalizer.CleanTextHasNoNewline` | li_extract.py:51-53 | no newline survives `clean_text` |
| `Normalizer.CollapseRunsFixes` | li_extract.py:52 | the first pass leaves a string without repeats unchanged |
| `Normalizer.SqueezeSpacesFixes` | li_extract.py:53 | the second pass leaves a string without repeats whose only whitespace is single spaces unchanged |
| `Normalizer.CleanTextFixesClean` | li_extract.py:51-53 | `clean_text` leaves clean text unchanged |
| `Normalizer.CleanTextIdempotent` | li_extract.py:51-53 | applying `clean_text` twice equals applying it once |
| `Providers.ProviderOf` | li_extract.py:61-66 | an identifier names a provider exactly when it is that provider's identifier |
| `Providers.ProviderOfId` | li_extract.py:61-66 | every provider is recognized by its own identifier |
| `CourseUrls.Slug` | li_extract.py:60 | the slug of a title: lowered, filtered, spaces made `-`, then `strip('-')`. Its properties are stated by `HyphenatedShape`, `SlugShape`, `SlugOfSlugShaped` and `SlugIdempotent` |
| `CourseUrls.CourseUrl` | li_extract.py:59-66 | the URL is empty exactly for an identifier outside the four providers. Otherwise it is the provider's prefix, the slug and the provider's suffix (`/` except for LinkedIn Learning) |
| `CourseUrls.HyphenatedShape` | li_extract.py:60 | after lowering, filtering and replacing spaces, only lower-case word characters, `-` and non-space whitespace remain |
| `CourseUrls.SlugShape` | li_extract.py:60 | the slug is lower-case, contains no space, and neither starts nor ends with `-` |
| `CourseUrls.SlugOfSlugShaped` | li_extract.py:60 | a string already shaped like a slug is its own slug |
| `CourseUrls.SlugIdempotent` | li_extract.py:60 | the slug of a slug is the slug itself |
| `FileNames.BaseName` | li_extract.py:70 | `os.path.basename`: the text after the last `/`. Its properties are stated by `AfterLastSlash` and `AfterLastSlashUnique` |
| `FileNames.DirName` | li_extract.py:70 | `os.path.dirname`: the text before the last `/`, without trailing slashes unless it is all slashes. Its shape is stated by `DirNameShape` |
| `FileNames.PathJoin` | li_extract.py:83 | `os.path.join` of two parts. `JoinKeepsDirectory` states that joining a `/`-free name keeps the directory and yields that base name |
| `FileNames.AfterLastSlash` | li_extract.py:70 | the last path component starts right after the last `/` and holds no `/` |
| `FileNames.AfterLastSlashUnique` | li_extract.py:70 | that start is the only position with these two properties |
| `FileNames.DirNameShape` | li_extract.py:70 | `os.path.dirname` is empty, all slashes, or ends in something other than `/` |
| `FileNames.JoinKeepsDirectory` | li_extract.py:70-83 | joining a `/`-free name to a file's directory yields a path with that directory and that base name |
| `FileNames.SanitizeTitle` | li_extract.py:71 | the cleaned title is the title filtered to word characters and `-`, then lowered. It holds only such characters, nothing upper-case, no space and no `/` |
| `FileNames.SanitizeTitleAppend` | li_extract.py:71 | cleaning a concatenation cleans each part |
| `FileNames.SanitizeTitleJoinsWords` | li_extract.py:71 | cleaning two words separated by a space runs the cleaned words together, with no hyphen |
| `FileNames.SanitizeThreeWords` | li_extract.py:71 | cleaning three words and a tail, separated by spaces, concatenates their cleaned forms |
| `FileNames.SanitizeTitleOfWords` | li_extract.py:71 | a title of three words, the first and last capitalised, followed by punctuation, becomes the three words lowered and run together |
| `FileNames.SanitizeTitleExample` | li_extract.py:71 | "Intro to Networking!" becomes `introtonetworking` |
| `FileNames.SanitizeCapitalized` | li_extract.py:71 | a capitalised lower-case word is cleaned to its lowered form |
| `FileNames.SanitizeLowerWord` | li_extract.py:71 | a lower-case word is unchanged |
| `FileNames.SanitizeDropped` | li_extract.py:71 | a string of removed characters is cleaned to the empty string |
| `FileNames.SanitizeKept` | li_extract.py:71 | a string of kept characters is only lowered |
| `FileNames.MonthNumber` | li_extract.py:76-78 | the month is two digits: the table's entry for the lower-cased three-letter prefix, or `01` when the prefix is unknown |
| `FileNames.ZeroPad2` | li_extract.py:79 | `zfill(2)` pads one digit with a leading zero and keeps two |
| `FileNames.IsoFromGroups` | li_extract.py:76-81 | the date built from the groups is ISO-shaped. It is the year, then the month number, then the zero-padded day |
| `FileNames.NormalizeDate` | li_extract.py:72-81 | a date that starts in ISO form is kept; one that is neither ISO nor `<Month> <d>, <yyyy>` is kept; a converted one is an ISO date |
| `FileNames.NormalizeMonthDayYear` | li_extract.py:72-81 | a date written as a word, spaces, a day, a comma, spaces, a year and any tail becomes the ISO date built from exactly that word, day and year |
| `FileNames.NormalizeFoundDate` | li_extract.py:72-81 | a non-ISO date with a month-day-year match at its start becomes the ISO date built from that match's groups |
| `FileNames.DateGroups` | li_extract.py:74-80 | in a date assembled from a word, a day and a year, the three groups of the match are those parts |
| `FileNames.DatePlacement` | li_extract.py:72-74 | such a date does not start in ISO form, and the pattern's groups sit at the parts' positions |
| `FileNames.NewName` | li_extract.py:82 | the name `<date>-<title>.pdf` from the normalized date and the cleaned title. Its parts are stated by `NormalizeDate`, `NormalizeMonthDayYear`, `SanitizeTitle` and `RenameTargetPlacement` |
| `FileNames.RenameTarget` | li_extract.py:69-88 | with an empty date or title the original path is returned |
| `FileNames.IsoDateHasNoSlash` | li_extract.py:72 | an ISO date holds no `/` |
| `FileNames.RenameTargetPlacement` | li_extract.py:82-83 | with a date and a title, and a date without `/`, the file stays in its directory and is named `<date>-<title>.pdf`. A date holding `/`, which a Udemy date may, makes `os.path.join` put the file in a sub-directory, so the lemma does not cover it |
| `FileNames.UdemyNameTitle` | li_extract.py:98 | the renamed title is the stripped group, character by character: each space becomes `-`, every other character is lowered. It holds no space and nothing upper-case |
| `FileNames.UdemyNameTitleOfWords` | li_extract.py:98 | two space-separated words become the lowered words joined by `-` |
| `FileNames.UdemyNameDate` | li_extract.py:99 | the renamed date is the group without commas, character by character, with each space turned into `-`. It holds no space and no comma |
| `FileNames.UdemyNameDateOfMonthDayYear` | li_extract.py:99 | `May 5, 2024` becomes `May-5-2024`: month, day and year joined by `-` |
| `FileNames.UdemyRenameName` | li_extract.py:94-100 | a name exists exactly when both the title and the date patterns match, and it is `<date>-<title>.pdf` built from their groups |
| `FileNames.FileSystem.RenameFile` | li_extract.py:68-88 | returns the rename target. The path set changes only when the target differs from the file and does not exist yet, and then exactly by moving the file. The number of files is preserved, and the returned path exists |
| `FileNames.FileSystem.RenameUdemyFile` | li_extract.py:94-107 | succeeds exactly when the text yields a name. Outside test mode it moves the file onto the new path in its directory when that path does not exist, and otherwise nothing changes. The number of files is preserved |
| `FileNames.MoveKeepsCount` | li_extract.py:84-85 | moving an existing file onto a free path keeps the number of files |
| `Extraction.FallbackId` | li_extract.py:169 | the fallback id is the first eight characters of the content digest |
| `Extraction.YearOf` | li_extract.py:171 | the year is present exactly when four digits occur in the completion date, and it is the four digits at the leftmost such position |
| `Extraction.YearOfLeadingDigits` | li_extract.py:171 | a completion date that starts with four digits has those digits as its year |
| `Extraction.UdemyCertAt` | li_extract.py:163 | the certificate-id pattern matches at p exactly when the prefix and `UC-` occur there and are followed by an upper-case letter or digit. The group starts at `UC-` and takes the whole run of upper-case letters and digits |
| `Extraction.UdemyCertSearch` | li_extract.py:163 | a search for one certificate-id pattern succeeds exactly when it matches somewhere. It yields the group at the leftmost match, which starts with `UC-` |
| `Extraction.UdemyCertSearchAtStart` | li_extract.py:163 | a pattern that matches at position 0 yields the group found there |
| `Extraction.UdemyCertId` | li_extract.py:163 | the `Certificate no.` search is used when it matches, and otherwise the `ude.my/` search; either id starts with `UC-` |
| `Extraction.UdemyCertIdOfLeadingNumber` | li_extract.py:163 | a text starting `Certificate no. UC-<id>`, the id ending where the run of upper-case letters and digits ends, yields `UC-<id>` |
| `Extraction.MatchUdemy` | li_extract.py:160-178 | a Udemy record exists exactly when title and date match. The title and date are their stripped groups. The instructors are the stripped instructor group when that pattern matches, and none otherwise. Skills are empty. The year is the first four digits of the date. The id is the one found, else the digest fallback |
| `Extraction.MayDateAt` | li_extract.py:182 | the first alternative of the Cybrary date, at p, matches only text of the shape `May d, yyyy h:mmAM UTC` (or `PM`, with no space after the minutes), with one or two digits for the day and the hour, and ends after `UTC` |
| `Extraction.MayDateAtComplete` | li_extract.py:182 | every text of that shape at p is matched there, up to its end |
| `Extraction.CybraryDateAt` | li_extract.py:182 | a Cybrary date match at p is either of the `May` shape or ten characters of the `dd/dd/dddd` shape |
| `Extraction.CybraryDateAtComplete` | li_extract.py:182 | each of the two shapes at p is matched there, with the `May` alternative tried first |
| `Extraction.CybraryDate` | li_extract.py:182 | the Cybrary date is found exactly when one matches somewhere. It is the match at the leftmost such position, and starts with `May ` or has the slashed shape |
| `Extraction.CybraryDateOfLeadingSlashDate` | li_extract.py:182 | a text starting with a slashed date yields that date |
| `Extraction.CybraryIdAt` | li_extract.py:183 | `C-([a-f0-9]{8}-[a-f0-9]{6})` matches at p exactly when `C-`, eight lower-case hex digits, `-` and six more follow. The group is the fifteen characters after `C-` |
| `Extraction.CybraryId` | li_extract.py:183 | the Cybrary id is found exactly when the pattern matches somewhere. It is the group at the leftmost match, 15 characters with `-` at position 8 |
| `Extraction.CybraryIdOfLeadingId` | li_extract.py:183 | a text starting `C-<8 hex>-<6 hex>` yields `<8 hex>-<6 hex>` |
| `Extraction.MatchCybrary` | li_extract.py:180-194 | a Cybrary record exists exactly when title, date and id all match. Instructors and skills are empty. The fields are the stripped groups, and the year is the first four digits of the date |
| `Extraction.LastLineEnd` | li_extract.py:198 | the greedy `[a-zA-Z\s]+` before MULTILINE `$` ends at the last line end within the run; there is none exactly when no line end lies in the run |
| `Extraction.SkillLineAt` | li_extract.py:198 | a skill line starts at a line start with an upper-case letter, continues with letters and whitespace, has at least two characters, and ends at a line end |
| `Extraction.SkillLineAtLongest` | li_extract.py:198 | whenever such a line ends at e, the matcher finds a line there, ending no earlier than e |
| `Extraction.LongSkills` | li_extract.py:204 | the kept skill items are each longer than two characters, and there are no more of them than lines |
| `Extraction.LongItems` | li_extract.py:204 | the items longer than two characters, in their order; each kept item is longer than two characters |
| `Extraction.LongItemsSubMultiset` | li_extract.py:204 | the kept items are a sub-multiset of the items |
| `Extraction.LongItemsKeepsLong` | li_extract.py:204 | every item longer than two characters is kept |
| `Extraction.LongItemsAppend` | li_extract.py:204 | the filter works block by block: the kept items of a concatenation are those of each part, in order |
| `Extraction.LongSkillsFromLines` | li_extract.py:204 | every kept item is a stripped line, and is kept at most as often as that stripped line occurs |
| `Extraction.LongSkillsKeepsLong` | li_extract.py:204 | every line whose stripped form is longer than two characters is kept, stripped |
| `Extraction.LongSkillsAppend` | li_extract.py:204 | the kept items of two blocks of lines are those of the first block followed by those of the second |
| `Extraction.MatchDeepLearningAi` | li_extract.py:195-209 | a DeepLearning.AI record exists exactly when the title matches and the file name holds an ISO date. The date is that date. The instructor is always `DeepLearning.AI`. The skills are the items found on the skill lines. The id is the digest fallback, and the year is the date's first four characters |
| `Extraction.SkillLines` | li_extract.py:198 | `re.findall` of the skill-line pattern from a position on, each match taken where the previous one ended. Each match is stated by `SkillLineAt` and `SkillLineAtLongest`; on text without newlines by `SkillLinesOfOneLine` |
| `Extraction.DeepLearningAiSkills` | li_extract.py:198-204 | the kept skill lines joined with `, `. The kept items are stated by `LongSkills`, `LongSkillsFromLines`, `LongSkillsKeepsLong` and `LongSkillsAppend`; on normalized text by `DeepLearningAiSkillsOfCleanText` |
| `Extraction.SkillLinesOfOneLine` | li_extract.py:198 | on text without newlines the skills pattern yields nothing or the whole text |
| `Extraction.NoSkillLineStartsLater` | li_extract.py:198 | without newlines no skill line starts after position 0 |
| `Extraction.DeepLearningAiSkillsOfCleanText` | li_extract.py:198-204 | on normalized text the DeepLearning.AI skills are empty or the whole text |
| `Extraction.LinkedInCertAt` | li_extract.py:218 | a match of `Certificate ID:\s*(\w+)` at p has the literal at p, then whitespace, then the group: a run of word characters that stops before the next non-word character |
| `Extraction.LinkedInCertAtComplete` | li_extract.py:218 | every such placement of whitespace and a maximal word after the literal is the one the matcher finds |
| `Extraction.LinkedInCertId` | li_extract.py:218 | the LinkedIn id is found exactly when the pattern matches somewhere. It is the group at the leftmost match, made of one or more word characters |
| `Extraction.LinkedInSkillsNeverMatch` | li_extract.py:213 | on normalized text the `Top skills covered` pattern never matches, because its `ll` cannot survive `clean_text` |
| `Extraction.LinkedInRecordsHaveNoSkills` | li_extract.py:213-219 | so every LinkedIn Learning record built from normalized text has empty skills |
| `Extraction.NoTopSkillsWithoutRepeats` | li_extract.py:213 | `Top skills covered` occurs in no text without two equal adjacent characters |
| `Extraction.CleanTextDigitsDiffer` | li_extract.py:171 | four digits found in normalized text never have two equal neighbours, so years such as 2000 or 2022 are never matched |
| `Extraction.CleanTextCybraryIdDiffers` | li_extract.py:183 | a Cybrary id found in normalized text has no two equal adjacent characters, because `clean_text` collapsed them |
| `Extraction.CleanTextMayMinutesDiffer` | li_extract.py:182 | the two minute digits of a `May` date found in normalized text differ, so a time on the hour never matches |
| `Extraction.MatchLinkedIn` | li_extract.py:210-224 | a LinkedIn Learning record exists exactly when the file-name title and the `completed by` date match. Instructors are empty. Skills are the stripped group or empty. The id is found or falls back to the digest. The year is the first four digits of the date |
| `Extraction.LinkedInTitleHasNoUnderscore` | li_extract.py:211-214 | the lazy file-name title stops at the first `_`, so `.replace('_', ' ')` changes nothing |
| `Extraction.LazyGroupHasNoUnderscore` | li_extract.py:211 | a group of the file-name title pattern holds no `_` |
| `Extraction.GroupStopsAtUnderscore` | li_extract.py:211 | no character before the lazy end of that group is `_` |
| `Extraction.MatchProvider` | li_extract.py:159-226 | each known provider takes its own branch, and an unknown provider yields no record |
| `Extraction.PdfUrl` | li_extract.py:233-234 | the document URL ends with the quoted base name of the path. In test mode it starts with the page URL; otherwise it starts with `https://github.com/` |
| `Extraction.PathAfterMatch` | li_extract.py:167-174 | the path the record is built from is the original one unless the provider is Udemy and both the date and the title are non-empty. A Udemy certificate with a date free of `/` keeps its directory and is named `<date>-<title>.pdf` |
| `Extraction.PassesFilters` | li_extract.py:228-231 | no set filter rejects the record: the skills filter accepts the skills, a non-empty year filter equals the year, and the title filter accepts the title. `Extract` states that a record exists exactly when this holds, and what each filter then guarantees |
| `Extraction.Extract` | li_extract.py:158-245 | on the normalized text, a record exists exactly when the provider's branch matches and no active filter rejects it. Its fields are the branch's. Its document URL is built from the path after the rename. `provider` is the identifier and `cert_url` is empty. `course_url` is generated only when URLs are requested. A set year filter equals the year, and the skill and title filters accept their fields |
| `Extraction.RequiredMatches` | li_extract.py:165-214 | every record has its provider's required matches: title and date for Udemy; title, date and id for Cybrary; title and file-name date for DeepLearning.AI; file-name title and date for LinkedIn Learning |
| `Extraction.ProviderMatchesRequired` | li_extract.py:165-214 | each provider branch succeeds only once every pattern it requires has matched |
| `Extraction.ExtractMetadata` | li_extract.py:150-245 | normalizes the text and returns the record `Extract` describes for it. A matched Udemy certificate is renamed before the filters apply, just as `FileSystem.RenameFile` does |
| `Statistics.CountKeys` | li_extract.py:253 | a `Counter` built key by key. Its counts are stated by `CountKeysCounts` and `CountKeysTotal`, and the in-place loop of `GenerateStatistics` is proved to compute it |
| `Statistics.CountKeysCounts` | li_extract.py:253-260 | a key is counted exactly when it occurs, and its count is its number of occurrences |
| `Statistics.SumValuesRemove` | li_extract.py:253 | a map's value sum splits into one entry plus the rest |
| `Statistics.CountKeysTotal` | li_extract.py:253-260 | the counts of a counter add up to the number of keys counted |
| `Statistics.WithSkills` | li_extract.py:254 | the number of records with skills is at most the total, and zero exactly when no record has skills |
| `Statistics.WithSkillsCounts` | li_extract.py:254 | that number is exactly the number of records whose skills are non-empty |
| `Statistics.WithSkillsAppend` | li_extract.py:254 | the count over two lists of records is the sum of the counts |
| `Statistics.AllSkills` | li_extract.py:255 | the flattened skill list is empty exactly when no record has skills |
| `Statistics.MostCommonFrom` | li_extract.py:256 | the scan yields a position whose key occurs at least as often as every key, and that is no later than any equally frequent key |
| `Statistics.MostCommon` | li_extract.py:256 | `most_common(1)[0][0]` is a key of greatest count; among equally frequent keys it is the one seen first; none for no keys |
| `Statistics.MostCommonSkill` | li_extract.py:256 | `N/A` when no record has skills; otherwise a skill of greatest count, ties going to the first seen |
| `Statistics.CompletionTrend` | li_extract.py:257 | `completion_trend`, a year-to-count comprehension. `TrendIsByYear` states that it equals the `by_year` counter |
| `Statistics.TrendIsByYear` | li_extract.py:257 | `completion_trend` equals the year counter `by_year` |
| `Statistics.SkillsRatio` | li_extract.py:254 | the skills ratio lies in [0, 1], and times the total it gives the number of records with skills |
| `Statistics.RatioOfCounts` | li_extract.py:254 | a count at most a positive total gives a ratio in [0, 1] that multiplies back to the count |
| `Statistics.UniqueSkills` | li_extract.py:255 | the number of distinct skills is at most the number listed, and zero exactly when no record has skills |
| `Statistics.StatisticsOf` | li_extract.py:247-258 | an empty list gives no statistics (the `{}` of the source). Otherwise the total is the length, at most that many records have skills, and there are distinct skills exactly when some record has skills |
| `Statistics.CountsAddUp` | li_extract.py:251-260 | the counts in `by_year` and in `by_provider` each add up to the total |
| `Statistics.GenerateStatistics` | li_extract.py:247-261 | the loop that fills `by_year` in place computes the year counter, and the result is `StatisticsOf` |

## Left out

- PDF and OCR text extraction (`pdfplumber`, `pytesseract`, PIL) is I/O. The text a PDF yields is the parameter `rawText`.
- SHA-256 (`generate_cert_id`) is a foreign hash. The hex digest of the file's content is the parameter `digest`.
- `urllib.parse.quote` is a library function. It is the parameter `Options.quote`.
- The user's filter regexes are opaque predicates on the skills and title strings (`Options.skillFilter`, `Options.titleFilter`). `None` stands for an unset filter.
- `Extraction.Options.yearFilter`: an unset year filter (`None` in the source) is the empty string, since both are falsy.
- `rename_cybrary_file` depends on `dateutil.parse`, a foreign library, so it is not part of this model.
- Python's Unicode semantics of `\w`, `\s`, `\d`, `str.lower` and `IGNORECASE` are approximated by ASCII classes. `\s` follows `str.isspace` on ASCII, including `\x1c`–`\x1f`.
- Logging, the debug text files, the `verbose` flag and `print` are output only. Argument parsing and YAML configuration are left out too.
- `gh release`, `os.system`, `cp`, the git push and the exporters (CSV, text, YAML, display) are I/O and output formatting.
- The `os.walk` driver loop with its `--test` cap is file-system traversal.
- The global `repo` is undefined when no configuration exists, and the `NameError` is caught so that no record results. The model takes `repo` as a given parameter instead.
- The exception paths of `extract_metadata`, `rename_file` and `rename_udemy_file` (an unreadable PDF, a failing `os.rename`) are left out. The model's renames always succeed.
- `Statistics.SkillsRatio`: the floating-point division is a Dafny `real`, the exact quotient.
- `FileNames.FileSystem`: only the existence of paths is modelled. File contents, directories and the distinction between `os.path.exists` and `os.path.isfile` are not.
