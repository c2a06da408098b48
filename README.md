# Threads of Grace: text canonicalisation, grouping and counting

Threads of Grace is a website of dated meditations. A set of Python scripts
turns the hand-typed metadata of each meditation into a page and into the
keys of the site's indexes. This project models, in Dafny, the logic those
scripts share:

- **Scripture references.** The Bible book table and its sort key, the
  reference parser and its chapter/verse sort key (`books.dfy`,
  `references.dfy`). Also the tests that say whether a line looks like
  scripture or like an occasion (`detect.dfy`).
- **Occasions and seasons.** Every first-match season cascade and counter
  (`seasons.dfy`). The lectionary-year clean-up, and the occasion display
  line written and read back (`occasions.dfy`).
- **Titles.**
  - The title grouping key, canonical spellings, near matches and the
    content-hash reuse statistics (`titles.dfy`).
  - `smart_title_case` and the change notes (`titlecase.dfy`), and the
    three older `title_case_smart` routines (`smartcase.dfy`).
  - The title-validity tests and the choice of a title source
    (`validity.dfy`).
- **Input clean-up.** The plain-text ingest: signature trimming, Roman
  book prefixes, file names, paragraphs, HTML escaping and de-duplicated
  merging (`ingest.dfy`). Also the readings fixer (`readings.dfy`).
- **Pages.** Missing dates and ordered insertion on the chronological page
  (`chrono.dfy`). The season pages (`pages.dfy`), the regenerated index
  pages (`indexes.dfy`), and the first website updater's rewrite of listing
  entries (`relink.dfy`).

Python's string built-ins, regular expressions, `defaultdict`
accumulations and `sorted` are modelled once, in `text.dfy`, `scan.dfy`,
`dates.dfy`, `grouping.dfy` and `sorting.dfy`:

- text is ASCII;
- each regular expression is a hand-written recogniser;
- a dictionary filled in a loop is a sequence of groups in key
  first-appearance order;
- `sorted` is a stable insertion sort.

Where the scripts update state step by step, the model is a method with a
loop proved against a specification function. Examples are the counters,
`clean_author_lines`, the chronological insertion loop, `process_files`
and the readings fixer's page. What the scripts promise is then proved
about those functions.

`parse_scripture_references` does not match "Romans 6:1b-11", the example
in its own docstring (scripts/generate_indexes.py:176-178), because the
verse group admits no letters. The season counter of
`scripts/update_tog_website_v4.py` has nine labels, including "Other".

## Model

| member | source | states |
|---|---|---|
| Books.BookOrder | scripts/generate_indexes.py:36-50 | The book table has exactly 67 entries, Genesis to Revelation. |
| Books.BookOrderDistinct | scripts/generate_indexes.py:36-50 | The 67 entries of the book table are pairwise distinct. |
| Books.NormalizeBookName | scripts/generate_indexes.py:151-158 | The result carries no surrounding whitespace, and exactly `"Psalms"` (after stripping) becomes `"Psalm"`. |
| Books.NormalizeWellFormed | scripts/generate_indexes.py:151-158 | A name that is stripped, is not `"Psalms"` and has its leading digit already followed by one space is left unchanged. |
| Books.NormalizedIsWellFormed | scripts/generate_indexes.py:151-158 | Every result of the normalisation is such a well-formed name. |
| Books.NormalizeIdempotent | scripts/generate_indexes.py:151-158 | Normalising twice gives the same name as normalising once. |
| Books.NormalizeShape | scripts/generate_indexes.py:156-157 | A leading digit followed by optional whitespace and a letter ends up followed by exactly one space and that letter; other names keep their stripped text. |
| Books.NormalizeDigitName | scripts/generate_indexes.py:157 | A digit, any whitespace run (possibly empty) and a word normalise to the digit, one space and the word, so `"1Samuel"` and `"2   Kings"` become `"1 Samuel"` and `"2 Kings"`. |
| Books.NormalizePsalms | scripts/generate_indexes.py:153-155 | `" Psalms "` normalises to `"Psalm"`. |
| Books.ExactFrom | scripts/generate_indexes.py:164-165 | `BOOK_ORDER.index`: the first position holding exactly the name, or -1 (the `ValueError`) when no entry equals it. |
| Books.IndexOf | scripts/generate_indexes.py:164-165 | The search loop of `list.index` returns -1 exactly when the item is absent, and otherwise its first position. |
| Books.PrefixFrom | scripts/generate_indexes.py:168-170 | The first position whose entry is a case-insensitive prefix of the name, or -1 when none is. |
| Books.FirstPrefix | scripts/generate_indexes.py:167-170 | The prefix loop with its early return: -1 exactly when no entry is a case-insensitive prefix of the name, otherwise the first entry that is. |
| Books.BookRank | scripts/generate_indexes.py:161-172 | The index is in 0..66 or exactly 999, and it is 999 exactly when no entry equals the name or is a case-insensitive prefix of it. |
| Books.GetBookSortKey | scripts/generate_indexes.py:161-172 | The method (search loops with early return) yields the normalised name and the index `BookRank` gives for it. |
| Books.ExactFirst | scripts/generate_indexes.py:164-166 | An exact hit at its first position returns that position. |
| Books.PrefixFirst | scripts/generate_indexes.py:167-170 | Without an exact hit, the first entry that is a case-insensitive prefix decides the index. |
| Books.NoRank | scripts/generate_indexes.py:171-172 | With neither an exact nor a prefix hit the index is 999. |
| Books.RankOfEntry | scripts/generate_indexes.py:36-50 | Each table entry is already normalised and sorts at its own position. |
| Books.TestamentsOrdered | scripts/generate_indexes.py:36-50 | Old Testament books sort before New Testament books, and unknown names after every book. |
| References.MatchAt | scripts/generate_indexes.py:188 | A match of the reference pattern at an index is a book group and a non-empty verse group made only of digits, `:`, `,`, `-` and whitespace; the "of" phrase is tried first. |
| References.FindAllFrom | scripts/generate_indexes.py:190 | `re.findall` scans left to right, resuming after each match; every match found has a non-empty verse group of verse characters. |
| References.FindAllStep | scripts/generate_indexes.py:190 | Where the pattern matches, `findall` keeps the match and resumes at its end. |
| References.FindAllNone | scripts/generate_indexes.py:190 | Where the pattern does not match, `findall` moves on by one character. |
| References.FindAllNoCapitals | scripts/generate_indexes.py:188-190 | `findall` finds nothing in a stretch without capital letters that ends in a character other than whitespace or a digit. |
| References.MatchAtTo | scripts/generate_indexes.py:188 | A book group followed by a run of verse characters up to the next book or the end is matched, and both groups are captured as they appear in the text. |
| References.OneMatchAt | scripts/generate_indexes.py:188 | On a line made of a book group `[A-Z][a-z]+` (with an optional leading digit and space), one space and verse text, the pattern matches at the start and captures exactly that book and those verses. |
| References.OneMatch | scripts/generate_indexes.py:188-190 | On such a line, `findall` finds that one match and nothing else. |
| References.RStripChar | scripts/generate_indexes.py:195 | `rstrip(',')` removes exactly the trailing run of commas and keeps the rest as a prefix. |
| References.ParseScriptureReferences | scripts/generate_indexes.py:175-204 | An absent or empty readings string gives no references. |
| References.ParsedReferencesWellFormed | scripts/generate_indexes.py:192-202 | Every parsed reference has a normalised book, verses made only of verse characters with no leading whitespace and no trailing comma (trailing whitespace can remain), and `full == book + " " + verses`. |
| References.OneReference | scripts/generate_indexes.py:180-202 | A readings line holding one reference, book group `B` and verse text `v`, parses to exactly one reference `(B, v, B + " " + v)`; `"Psalms"` becomes `"Psalm"`. |
| References.BookOfMatch | scripts/generate_indexes.py:194 | A captured book group, with or without the space before it, normalises to itself (other than `"Psalms"`). |
| References.VersesOfMatch | scripts/generate_indexes.py:195 | `verses.strip().rstrip(',')` returns clean verses whether or not the separating comma was captured. |
| References.ToReferenceOf | scripts/generate_indexes.py:193-200 | The loop body makes the reference `(name, verses, name + " " + verses)` from a match of a book group and clean verses. |
| References.ThreeReferences | scripts/generate_indexes.py:192-202 | Three such matches give their three references, in order. |
| References.DocExampleMatches | scripts/generate_indexes.py:177-190 | On the docstring's example, `findall` finds the Genesis, Psalm and Matthew groups, and nothing inside `"Romans 6:1b-11,"`. |
| References.DocExampleReferences | scripts/generate_indexes.py:175-204 | The docstring's example parses to Genesis 21:8-21, Psalm 86:1-10, 16-17 and Matthew 10:24-39, in that order; the Romans reading is dropped. |
| References.VersesHaveNoLetters | scripts/generate_indexes.py:188 | The verses of a reference never contain a letter. |
| References.NoMatchBeforeLetterInVerses | scripts/generate_indexes.py:176-178 | At `"Romans 6:1b-11"` the pattern does not match, so the docstring's example yields three references, not four. |
| References.FirstDigit | scripts/generate_indexes.py:668 | The first digit at or after an index, with no digit before it. |
| References.RefSortKey | scripts/generate_indexes.py:666-673 | A reference without any digit gets the key `(999, 999)`. |
| References.RefSortKeyReadsChapterVerse | scripts/generate_indexes.py:666-673 | For a book name without digits followed by `" c:v"`, the key is `(c, v)`, read back from the decimal text. |
| References.RefSortKeyOfNumberedBook | scripts/generate_indexes.py:666-673 | A numbered book (`"1 John 3:1"`) sorts by its book number with verse 0, because the first digits are the book number. |
| Titles.TrimTrailing | scripts/generate_indexes.py:461-463 | The result is a prefix of the input that does not end in any of `!?.,:;`, and everything it drops is such punctuation. |
| Titles.NormalizeForGrouping | scripts/generate_indexes.py:455-466 | The trimming `while` loop followed by `lower().strip()` computes the grouping key. |
| Titles.GroupingKeyShape | scripts/generate_indexes.py:455-466 | `GroupingKey` has no upper-case letter and no surrounding whitespace, and it is a prefix of `title.strip().lower()`. |
| Titles.GroupingKeyIgnoresCase | scripts/generate_indexes.py:455-466 | Titles that differ only in case have the same key. |
| Titles.TrailingPunctuationIgnored | fix_titles.py:204-212 | A stripped title followed by any run of `!?.,:;` has the same key as the title alone (the same function as `normalize_title_for_grouping`). |
| Titles.CanonicalTitle | scripts/generate_indexes.py:486-489 | The counting loop and `max` return a spelling of the group that no other spelling beats: none is more frequent, and none equally frequent is greater. |
| Titles.CanonicalUnique | scripts/generate_indexes.py:489 | At most one spelling is canonical, so the choice is determined by the group alone. |
| Titles.TitleGroups | scripts/generate_indexes.py:471-496 | There is one index entry per grouping key, in first-appearance order, with the key, the members sorted by date and the canonical spelling of its members' titles. |
| Titles.TitleGroupsPartition | scripts/generate_indexes.py:471-475 | The group sizes add up to the number of meditations, and no group is empty. |
| Titles.LetterOf | scripts/generate_indexes.py:504-509 | A group is filed under a capital letter or `#`, and under a letter exactly when its canonical title starts with one. |
| Titles.LetterSections | scripts/generate_indexes.py:498-509 | The sort by upper-cased canonical title and the `by_letter` loop build the sections of the reference grouping. |
| Titles.SectionsPartition | scripts/generate_indexes.py:502-509 | Every group lands in exactly one section, and each section is headed by a capital letter or `#`. |
| Titles.SectionContents | scripts/generate_indexes.py:499-509 | The section under a heading holds exactly the groups with that heading, ordered by upper-cased canonical title. |
| Titles.NearGroups | fix_titles.py:225-230 | The kept groups are exactly the groups that spell the title in at least two ways. |
| Titles.NearMatches | fix_titles.py:215-232 | The method returns exactly the grouping keys whose items carry two or more distinct titles, each with all its items. |
| Titles.DistinctTitles | fix_titles.py:228-229 | `len(set(titles)) > 1` holds exactly when two items have different titles. |
| Titles.Repeated | scripts/generate_indexes.py:727 | `reused_count` never exceeds the number of hash groups. |
| Titles.ReuseInstances | scripts/generate_indexes.py:722-728 | `total - unique_essays` equals the number of meditations beyond the first in each hash group, and it lies between `reused_count` and the total. |
| Titles.ExtrasCount | scripts/generate_indexes.py:726-728 | For non-empty groups, the extras are the total size minus the number of groups, and there are at least as many as there are groups with more than one item. |
| Titles.Repeats | scripts/generate_indexes.py:731-732 | The comprehension keeps one entry per hash group of size above one, and every entry comes from such a group. |
| Titles.RepeatedEssaysOrder | scripts/generate_indexes.py:731-733 | `RepeatedEssays` has one entry per reused essay, and the list runs by date of first use. |
| Titles.RepeatOfSorted | scripts/generate_indexes.py:731 | An entry lists all uses of its essay, sorted by date. |
| Titles.RepeatedEssaysMember | scripts/generate_indexes.py:731-733 | An entry is in the list exactly when it is built from a hash group of two or more meditations. |
| Detect.ScriptureBySeparators | fix_meditation_titles.py:20-40 | Empty text is never scripture, and text with at least two colons and at least two commas always is. |
| Detect.LooksLikeScripture | fix_meditation_titles.py:20-40 | The definition: non-empty text with two colons and two commas, a listed book name then `chapter:verse`, or a Roman-numeral book; its properties are the lemmas in the rows around it. |
| Detect.NoDigitsNoBook | fix_meditation_titles.py:31-34 | Without a digit, the book-name-plus-chapter:verse pattern matches nowhere. |
| Detect.ScriptureIgnoresCase | fix_meditation_titles.py:33-37 | The test gives the same answer on the lower-cased text (`re.IGNORECASE`, counts of `:` and `,` unchanged). |
| Detect.ScriptureAtStart | fix_meditation_titles.py:31-34 | Text that opens with a listed book name, a space and `chapter:verse` is scripture, whatever follows. |
| Detect.ScriptureOfCitation | scripts/update_tog_website_v4.py:56-60 | Any listed book name followed by `" c:v"` with digit runs `c` and `v` is scripture, whatever follows. |
| Detect.IsaiahReadingsAreScripture | scripts/update_tog_website_v4.py:36 | The docstring's Isaiah reading list is scripture. |
| Detect.ActsReadingsAreScripture | scripts/update_tog_website_v4.py:37 | The docstring's Acts reading list is scripture. |
| Detect.NoRomanWithoutWordStart | scripts/update_tog_website_v4.py:62-65 | When no `i`/`I` starts a word, the Roman-prefixed pattern matches nowhere. |
| Detect.GiftsIsNotScripture | scripts/update_tog_website_v4.py:38 | `"GIFTS"` is not scripture. |
| Detect.PlainWordsAreNotScripture | scripts/update_tog_website_v4.py:41-67 | Text of letters and spaces in which no `i` or `I` starts a word is not scripture. |
| Detect.ResurrectionGraceIsNotScripture | scripts/update_tog_website_v4.py:39 | `"Resurrection Grace"` is not scripture. |
| Detect.ContainsScriptureIff | scripts/fix_meditation_readings.py:45-55 | The position-by-position, name-by-name search succeeds exactly when the text is non-empty and some listed name occurs as a whole word, compared without regard to case. |
| Detect.ContainsScriptureAt | scripts/fix_meditation_readings.py:51-55 | Any listed name occurring as a whole word makes the text contain scripture. |
| Detect.ContainsScriptureIgnoresCase | scripts/fix_meditation_readings.py:45-48 | The answer is the same on the lower-cased text. |
| Detect.WisdomIsScripture | scripts/fix_meditation_readings.py:40 | `"wisdom 7:1"` contains scripture: the deuterocanonical names are in the list. |
| Detect.CanticleIsScripture | scripts/fix_meditation_readings.py:28 | `"Canticle 2:8"` contains scripture. |
| Detect.GluedNameIsNotWhole | scripts/fix_meditation_readings.py:46 | `"John"` inside `"Johnson"` is not a whole-word match. |
| Detect.PhraseEnd | fix_meditation_titles.py:54-74 | Where a pattern's words end when each later word follows at least one whitespace character; the end lies within the text and after the first word. |
| Detect.OccasionGuards | fix_meditation_titles.py:43-81 | Empty text and upper-case text longer than 10 characters are never occasions; otherwise the text is an occasion exactly when some pattern matches its lower-cased form. |
| Detect.OccasionOfLower | fix_meditation_titles.py:51 | Lower-cased text is an occasion exactly when it is non-empty and some pattern matches it. |
| Detect.OccasionExtends | fix_meditation_titles.py:77-79 | A pattern that matches a text still matches it with anything appended. |
| Detect.ProperIsOccasion | fix_meditation_titles.py:60 | `"Proper 5"` is an occasion. |
| Detect.PalmSundayIsOccasion | fix_meditation_titles.py:64 | `"Palm Sunday"` is an occasion. |
| Detect.YearIsOccasion | fix_meditation_titles.py:54 | `"Year A"` is an occasion. |
| Detect.ShoutedOccasionIsNot | fix_meditation_titles.py:48-49 | `"CHRISTMAS DAY"` is not an occasion: it is upper-case and longer than 10 characters. |
| Validity.NoPeriodNoBreak | scripts/update_tog_website_v4.py:80 | Text without a period never matches `\.\s+[A-Z]`. |
| Validity.BreakAt | scripts/update_tog_website_v4.py:80 | A period, a whitespace character and a capital make a sentence break. |
| Validity.EllipsisRule | fix_meditation_titles.py:93 | A spaced ellipsis match starts and ends with a period, spans at least three characters and is replaced by `"..."`. |
| Validity.DotsRule | fix_meditation_titles.py:94 | The rule fires exactly at `"..."` and deletes those three characters. |
| Validity.FirstAbbreviation | fix_meditation_titles.py:95 | The first abbreviation of the alternation, from a given one on, that occurs at the index with its stop and a whitespace character; none when no later one does. |
| Validity.AbbreviationRule | fix_meditation_titles.py:95 | An abbreviation match starts at a word boundary, ends in a period and one whitespace character, spans 4 or 5 characters and is replaced by one space. |
| Validity.CleanedWithoutPeriod | fix_meditation_titles.py:92-95 | The three substitutions of `Cleaned` leave text without a period unchanged. |
| Validity.CleanedWhenNothingFires | fix_meditation_titles.py:92-95 | Where no rule fires, the searched text is the text itself. |
| Validity.OnePeriodNoEllipsis | fix_meditation_titles.py:93-94 | With a single period, neither ellipsis substitution changes the text. |
| Validity.AbbreviationNeedsPeriod | fix_meditation_titles.py:95 | The abbreviation rule fires only at a word boundary with a period two or three characters on. |
| Validity.StopAfterLongWordKept | fix_meditation_titles.py:95 | A single period after a word of four or more letters is not removed, so it can still mark a sentence break. |
| Validity.InvalidTitles | fix_meditation_titles.py:84-105 | Both versions reject empty text, text longer than 150 characters, scripture-like text and text with two colons and two commas; the older one also rejects occasions. |
| Validity.IsValidTitle | fix_meditation_titles.py:84-105 | The definition: non-empty, at most 150 characters, no sentence break after clean-up, not scripture and not an occasion; see `InvalidTitles`. |
| Validity.ValidTitleVersions | scripts/update_tog_website_v4.py:70-87 | Where no ellipsis or abbreviation rule fires, the two versions differ only in the occasion test. |
| Validity.ValidTitleWithoutPeriod | scripts/update_tog_website_v4.py:70-87 | Without a period, each version accepts exactly the non-empty text of at most 150 characters that is not scripture (and, for the older one, not an occasion). |
| Validity.TwoSentencesAreInvalid | scripts/update_tog_website_v4.py:79-81 | `"Grace. Peace"` is rejected by both versions. |
| Validity.SaintIsNotABreak | fix_meditation_titles.py:95-97 | `"St. Francis"` has a sentence break as written, but the older version's cleaning turns it into `" Francis"`, which has none. |
| Validity.ExtractTitle | scripts/update_tog_website_v4.py:117-147 | The heading wins when it is a valid title; otherwise the first paragraph when valid; otherwise nothing. Every returned title is valid and comes from the source it names. |
| Validity.ExtractTitleV3 | threads-of-grace-website/backups/update_tog_website_v3.py:64-75 | The v3 updater takes the first paragraph exactly when it is under 100 characters and has no sentence break. |
| Validity.ExtractTitleVersions | scripts/update_tog_website_v4.py:136-143 | A non-empty, non-scripture paragraph the v3 updater accepts is also what the v4 updater returns when the page has no heading. |
| Readings.TitleHead | scripts/fix_meditation_readings.py:66-70 | The text kept from a title has no `|` and no surrounding whitespace. |
| Readings.TitleHeadWithoutBar | scripts/fix_meditation_readings.py:69-70 | Without a `|`, removing `" | Threads of Grace"` changes nothing, so the title is only stripped. |
| Readings.ReadingsFromTitle | scripts/fix_meditation_readings.py:58-76 | Readings come from a title exactly when it is non-empty and its stripped text before the first `|` contains scripture; they are that text. |
| Readings.ReadingsFromSiteTitle | scripts/fix_meditation_readings.py:61-74 | For stripped readings without a `|` that contain scripture, the title `readings + " | Threads of Grace"` gives the readings back. |
| Readings.ReadingsFromContent | scripts/fix_meditation_readings.py:93-103 | The first paragraph is taken exactly when its stripped text is under 200 characters, contains scripture and does not open with a listed word and whitespace; the result is that stripped text. |
| Readings.ProseIsNotReadings | scripts/fix_meditation_readings.py:100 | A paragraph opening with `The`, `In`, `When` (or another listed word) and whitespace is never taken. |
| Readings.NewReadings | scripts/fix_meditation_readings.py:139-147 | New readings come from the title when it yields any, otherwise from the content; they always contain scripture and are stripped. |
| Readings.ReadingsFix | scripts/fix_meditation_readings.py:154-158 | At most one readings change, and always one when the new readings contain scripture and the current ones do not. |
| Readings.TitleFix | scripts/fix_meditation_readings.py:160-166 | At most one title change, and it always sets the title to the heading plus `" | Threads of Grace"`. |
| Readings.ChangesWhen | scripts/fix_meditation_readings.py:135-158 | Changes are recorded exactly when the current readings contain no scripture and some source yields readings; the first change then replaces the readings. |
| Readings.MissingPartNoChanges | scripts/fix_meditation_readings.py:129-130 | A page without a title tag or readings block gets no changes. |
| Readings.TitleChangeShape | scripts/fix_meditation_readings.py:149-166 | A title change happens only when the old title contains scripture and the heading is non-empty, and it sets the heading plus the site suffix. |
| Readings.FixIsIdempotent | scripts/fix_meditation_readings.py:114-176 | Running the fixer again on a page it has fixed records no changes. |
| Readings.AlreadyNamed | scripts/fix_meditation_readings.py:136-137 | Readings that already contain scripture are never changed. |
| Readings.MeditationPage.Fix | scripts/fix_meditation_readings.py:114-176 | The method records the page's changes and reports `changed` exactly when there are some; a dry run changes nothing, and otherwise the page afterwards is the changes applied to the old page. |
| Seasons.MentionsIff | scripts/generate_indexes.py:211 | The left-to-right search for a phrase succeeds exactly when the phrase occurs somewhere in the text (Python `in`). |
| Seasons.MentionedInside | scripts/update_tog_website_v4.py:429-432 | Text that contains a phrase contains every part of that phrase. |
| Seasons.SeasonFromOccasionIgnoresCase | scripts/generate_indexes.py:207-209 | The season does not depend on letter case. |
| Seasons.SeasonFromOccasion | scripts/generate_indexes.py:207-234 | The definition: the first key word found in the lower-cased occasion decides the season; see `OtherIffNoKeyWord` for the fallback. |
| Seasons.OtherIffNoKeyWord | scripts/generate_indexes.py:207-234 | `SeasonFromOccasion`, the if/elif cascade, falls back to Other exactly when the lower-cased occasion contains none of the thirteen key words. |
| Seasons.AdventComesFirst | scripts/generate_indexes.py:211-212 | Anything that mentions `advent` is Advent, whatever else it says. |
| Seasons.PentecostWithoutDayOf | scripts/generate_indexes.py:223-228 | Once no earlier season is mentioned, `pentecost` without `day of` is Ordinary Time. |
| Seasons.YearLetterAt | scripts/generate_indexes.py:239 | A match of `Year\s+([ABC])` at an index captures A, B or C. |
| Seasons.YearSearch | scripts/generate_indexes.py:239 | The search returns the leftmost matching index at or after the start, or one past the end when there is none. |
| Seasons.LectionaryYear | scripts/generate_indexes.py:237-242 | The result is A, B or C from the leftmost match, and `None` exactly when the pattern matches nowhere. |
| Seasons.ProperYearB | scripts/generate_indexes.py:237-242 | `"Proper 5, Year B"` gives B. |
| Seasons.LowercaseYearIsNoYear | scripts/generate_indexes.py:239 | `"year b"` and `"YearB"` give `None`: the match is case-sensitive and needs whitespace. |
| Seasons.PageSeasonLabel | scripts/update_tog_website_v4.py:429-449 | `PageSeason`, the v3/v4 counter cascade, gives every page one of the nine counter labels, never Holy Week. |
| Seasons.PageAdventIff | scripts/update_tog_website_v4.py:429-433 | A page is Advent exactly when it mentions one of the four `… sunday of advent` phrases (each of which contains `advent`). |
| Seasons.PageSeasonIgnoresCase | threads-of-grace-website/backups/update_tog_website_v3.py:345-368 | The v3/v4 season of a page does not depend on letter case. |
| Seasons.FirstUpdaterSeasonLabel | threads-of-grace-website/backups/update_tog_website.py:342-364 | `FirstUpdaterSeason`, the first updater's cascade, gives every page one of the nine counter labels. |
| Seasons.FirstUpdaterPentecostIff | threads-of-grace-website/backups/update_tog_website.py:352-356 | A page is Pentecost only if it mentions `day of pentecost`, and always is when it does and no earlier season is mentioned. |
| Seasons.Classified | threads-of-grace-website/backups/update_tog_website.py:335-364 | There is one season per page, in order. |
| Seasons.CountBySeason | scripts/update_tog_website_v4.py:420-451 | Each label's count is the number of pages classified under it, and exactly the labels that occur are keys. |
| Seasons.CountsCoverPages | scripts/update_tog_website_v4.py:420-451 | When every page gets one of the listed labels, the per-label counts add up to the number of pages. |
| Seasons.PageCountsCoverPages | threads-of-grace-website/backups/update_tog_website_v3.py:339-370 | The v3/v4 counts add up to the number of pages: each page is counted exactly once. |
| Seasons.FirstUpdaterCountsCoverPages | threads-of-grace-website/backups/update_tog_website.py:328-367 | The first updater's counts add up to the number of pages. |
| Seasons.ChronoSeason | add_missing_to_chrono.py:45-62 | The season is never Other or Holy Week; it is `None` without an occasion or when no test holds. |
| Seasons.ChronoPentecost | add_missing_to_chrono.py:57-58 | Once no earlier season is mentioned, a Pentecost occasion is Pentecost exactly when it does not say `after`. |
| Seasons.AfterPentecostIsNotPentecost | add_missing_to_chrono.py:57-59 | An occasion saying `after pentecost` is never Pentecost. |
| Seasons.CountText | update_by_season_counts.py:76 | The line ends in `meditations` except for a count of 1 when the script makes the noun agree. |
| Seasons.CountTextRoundTrip | update_by_season_counts.py:76 | Reading the number back from a count line gives the count it was made from. |
| Seasons.Touched | scripts/update_tog_website_v4.py:500 | The number of updated cards never exceeds the number of cards. |
| Seasons.UpdateCards | scripts/update_tog_website_v4.py:480-501 | The loop counts the cards it touches; with `analyze_only` the cards are unchanged, and otherwise each card with a heading, a count line and a mapped season gets its new line and every other card is unchanged. |
| Seasons.PageCardLine | scripts/update_tog_website_v4.py:468-501 | A card gets a new line exactly when some map key occurs in its lower-cased heading; the line shows that season's count, 0 when the season is absent. |
| Seasons.FileSeasons | update_by_season_counts.py:30-33 | There is at most one season per file: one for each `.html` file. |
| Seasons.CountFromDatabase | update_by_season_counts.py:16-38 | The keys are exactly the seven seasons, each starting at 0, and each count is the number of `.html` files whose season (`DatabaseSeason`: Ordinary Time when the date is not in the database) is that key. |
| Seasons.SeasonKeysDistinct | update_by_season_counts.py:20-28 | The seven keys are distinct. |
| Seasons.DatabaseCountsBounded | update_by_season_counts.py:35-36 | Seasons outside the seven keys are dropped, so the counts add up to at most the number of files. |
| Seasons.DatabaseCardLine | update_by_season_counts.py:62-77 | Only a mapped heading whose key is counted gets a new line, which shows that count. |
| Seasons.PaddedHeading | update_by_season_counts.py:59-71 | Whitespace around a card heading does not change the count key it is looked up under. |
| Seasons.SpecialOccasionsCount | update_by_season_counts.py:69-77 | With the counter's own keys, the `Special Occasions` card shows the Special count. |
| Occasions.YearRAt | scripts/process_meditations_complete.py:104 | A match of `Year\s*R\s*([ABC])` starts with `Year`, stays within the text and is replaced by `"Year "` and the captured letter. |
| Occasions.YearRRewritten | scripts/process_meditations_complete.py:102-104 | `FixYearDesignation` rewrites `"Year R C"`, `"YearRC"` and every other whitespace spacing to `"Year C"`. |
| Occasions.NoCapitalRUnchanged | scripts/process_meditations_complete.py:102-104 | Text without a capital R is left unchanged. |
| Occasions.OccasionDisplay | scripts/process_meditations_complete.py:256-261 | The line starts with the occasion; it contains `", Year X"` when the year is known (non-empty and not `?`); it contains `•` exactly when there is a season; with neither, it is the occasion alone. |
| Occasions.SpacesBefore | scripts/regenerate_all_indexes.py:58 | The start of the whitespace run that ends at an index. |
| Occasions.YearSuffixStart | scripts/regenerate_all_indexes.py:58 | A match of `,\s*Year\s+[ABC]$` starts at a comma and the text ends in a year letter. |
| Occasions.StripYearSuffix | scripts/regenerate_all_indexes.py:58 | Removing the year suffix leaves a prefix of the text. |
| Occasions.SplitOccasion | scripts/regenerate_all_indexes.py:49-58 | Without `•` the occasion is the full text and the season is empty; with it, both parts are stripped; neither part contains `•`. |
| Occasions.YearSuffixOfDisplay | scripts/regenerate_all_indexes.py:58 | In `occasion + ", Year X"` the suffix is found exactly where the occasion ends. |
| Occasions.ReadBack | scripts/regenerate_all_indexes.py:53-58 | Splitting `head + " • " + season` gives the head without its year suffix, and the season. |
| Occasions.BulletSplit | scripts/regenerate_all_indexes.py:54 | `split('•')` of such a line gives exactly the two sides. |
| Occasions.DisplayRoundTrip | scripts/regenerate_all_indexes.py:49-58 | Reading back a display line written by process_meditations_complete.py recovers the occasion and the season it was built from. |
| Occasions.DisplayHead | scripts/process_meditations_complete.py:257-259 | The part before `•` is the occasion, plus `", Year X"` when a year is known, and removing the suffix gives the occasion back. |
| Occasions.FormatOccasionWithYear | rebuild_season_pages.py:82-96 | An empty occasion gives `""`; an unknown year gives the occasion unchanged; otherwise the result starts with the occasion and names `Year X`. |
| Occasions.FormatOccasionIdempotent | rebuild_season_pages.py:91-96 | Decorating an occasion twice gives the same result as decorating it once. |
| Ingest.BlankIffStripsEmpty | scripts/process_meditations_complete.py:55-57 | A line counts as blank exactly when stripping it leaves nothing, so `not line.strip()` and the model's blank test agree. |
| Ingest.DropTrailing | scripts/process_meditations_complete.py:53-67 | What the popping loop keeps is a prefix of the lines; every line popped is droppable, and the last line kept (if any) is not. |
| Ingest.DropTrailingTail | scripts/process_meditations_complete.py:53-67 | A tail made only of blank or signature lines, after a body whose last line is kept, is removed in full and nothing of the body is removed. |
| Ingest.CleanAuthorLines | scripts/process_meditations_complete.py:35-69 | The cleaned text is the stripped text's lines, trailing blank lines and the nine signature or credit lines popped from the end, joined with newlines. |
| Ingest.RomanFixAt | scripts/process_meditations_complete.py:74-94 | Each of the nineteen substitutions has a one- to three-letter numeral made only of the letter i. |
| Ingest.RomanAt | scripts/process_meditations_complete.py:96-97 | A substitution fires only at a word boundary where the numeral occurs in any case, consumes text inside the string and writes the numeral in capitals, one space and the book name. |
| Ingest.RomanAtIgnoresCase | scripts/process_meditations_complete.py:97 | With `re.IGNORECASE` a substitution finds the same match in the text and in its lower-cased form. |
| Ingest.RomanFixRewrites | scripts/process_meditations_complete.py:74-97 | A numeral in any case, any non-empty run of whitespace and the book name in any case are rewritten to the canonical `"II Corinthians"`-style form. |
| Ingest.NoNumeralUnchanged | scripts/process_meditations_complete.py:72-99 | Text without the letter i in either case passes through all nineteen substitutions unchanged. |
| Ingest.FixRomanNumerals | scripts/process_meditations_complete.py:72-99 | The loop applies the substitutions in their listed order, each to the result of the one before. |
| Ingest.ParseFilename | scripts/process_meditations_complete.py:111-116 | A date is returned only when the name starts with a well-formed `YYYY-MM-DD` followed by `_`, and then it is that prefix; any other name gives nothing. |
| Ingest.ParseFilenameOf | scripts/process_meditations_complete.py:111-116 | Any well-formed date followed by `_` and any rest is read back as that date. |
| Ingest.EscapeChar | scripts/process_meditations_complete.py:237-243 | The escape of one character is never empty and never holds `<`, `>` or `"`. |
| Ingest.EscapeHtmlCons | scripts/process_meditations_complete.py:237-243 | Although `&` is replaced first, the four chained replacements act character by character: no entity written by one replacement is touched by a later one. |
| Ingest.UnescapeEscape | scripts/process_meditations_complete.py:237-243 | `EscapeHtml` loses nothing: reading the four entities back gives the original text. |
| Ingest.EscapedHasNoMarkup | scripts/regenerate_all_indexes.py:76-82 | Escaped text holds no `<`, `>` or `"`, so it cannot open a tag or close an attribute. |
| Ingest.ParagraphsNonEmpty | scripts/process_meditations_complete.py:173-186 | No paragraph is empty and there are never more paragraphs than lines. |
| Ingest.ParagraphsSkipBlanks | scripts/process_meditations_complete.py:169-171 | Skipping blank lines before the body does not change its paragraphs. |
| Ingest.OneRunOneParagraph | scripts/process_meditations_complete.py:176-185 | A body with no blank line is one paragraph: its stripped lines joined with single spaces. |
| Ingest.BuildParagraphs | scripts/process_meditations_complete.py:173-186 | The accumulating loop produces exactly the maximal runs of non-blank lines, each stripped and joined with spaces. |
| Ingest.MeditationOf | scripts/process_meditations_complete.py:146-194 | There is no result exactly when there are fewer than four lines or only blank lines from the fourth on; otherwise the title is non-empty and stripped and no paragraph is empty. |
| Ingest.ParseLines | scripts/process_meditations_complete.py:146-194 | The two skipping loops and the paragraph loop give exactly the parse the specification function describes. |
| Ingest.ParseMeditation | scripts/process_meditations_complete.py:139-144 | Parsing a file's text is clean-up, numeral fixing, stripping and splitting into lines, then the line parse. |
| Ingest.EntryFor | scripts/process_meditations_complete.py:211-223 | The entry keeps the file's date and parsed title; a date missing from the database gives the file's own occasion line with empty season and year. |
| Ingest.DatesOfMember | scripts/process_meditations_complete.py:609 | The set holds the date of every entry and no other date. |
| Ingest.AddNewKeepsBase | scripts/process_meditations_complete.py:663-666 | Merging only appends: the site's list keeps every existing entry in place. |
| Ingest.AddNewDates | scripts/process_meditations_complete.py:663-666 | After the merge the list's dates are the old dates together with every processed date. |
| Ingest.AddNewUnique | scripts/process_meditations_complete.py:663-666 | A list without repeated dates still has none after the merge. |
| Ingest.AppendNewDate | scripts/process_meditations_complete.py:663-666 | Appending an entry whose date is new keeps all dates distinct. |
| Ingest.OutcomeOf | scripts/process_meditations_complete.py:620-640 | A file is skipped exactly when its name has a date already on the site; a name without a date is an error; a made entry carries the name's date, which is not on the site. |
| Ingest.ProcessFile | scripts/process_meditations_complete.py:620-668 | One loop iteration yields exactly the outcome the specification function gives. |
| Ingest.MadeEntries | scripts/process_meditations_complete.py:620-668 | There are at most as many entries as files, and none has a date already on the site. |
| Ingest.MadeEntriesNamed | scripts/process_meditations_complete.py:620-668 | Every processed entry comes from one of the input files and is that file's outcome. |
| Ingest.ProcessFiles | scripts/process_meditations_complete.py:593-670 | Every file ends up exactly once among processed, skipped and errors; processed is the files' entries in order; the site's list is the old list with each processed entry appended when its date is new. |
| Chrono.MonthName | add_missing_to_chrono.py:70 | `%B` gives a non-empty name made only of letters for every month. |
| Chrono.DateDisplayShape | add_missing_to_chrono.py:67-70 | `FormatDateDisplay` reads month name, the day without its leading zero, a comma and the year ("January 5, 2012"): the `' 0'` replacement touches only the day. |
| Chrono.DayDigits | add_missing_to_chrono.py:70 | A day whose first digit is not zero is written with both its digits. |
| Chrono.ReplaceFree | add_missing_to_chrono.py:70 | Text with no space followed by a zero is left unchanged by `.replace(' 0', ' ')`. |
| Chrono.PaddedDay | add_missing_to_chrono.py:70 | After a month name, a zero-padded day loses exactly its zero. |
| Chrono.WideDay | add_missing_to_chrono.py:70 | After a month name, a two-digit day not starting with zero is kept as it is. |
| Chrono.TruncateScripture | add_missing_to_chrono.py:78-80 | Scripture is never longer than 80 characters; up to 80 it is unchanged, and beyond that it is the first 77 characters followed by `...`, exactly 80 in all. |
| Chrono.EntryFor | add_missing_to_chrono.py:67-91 | There is no entry exactly when the date is not one `strptime` can read (the uncaught `ValueError` that stops the run); otherwise the meta line starts with the date display and a bullet, a missing title becomes `Untitled`, a missing occasion `Unknown occasion`, missing scripture empty, and the scripture is at most 80 characters. |
| Chrono.MissingDates | add_missing_to_chrono.py:157-175 | The loops compute the dates of the file stems minus the first dates of the page's links. |
| Chrono.MissingIff | add_missing_to_chrono.py:157-175 | A date is in the missing set (`FileDates` minus the link dates) exactly when some file stem is that date (starting with `YYYY-MM-DD`) and no link's first date is it. |
| Chrono.LongStemAlwaysMissing | add_missing_to_chrono.py:157-172 | A stem with text after its date is always reported missing, because the stem match is not anchored at the end while links only yield ten-character dates. |
| Chrono.LongStemHasNoEntry | add_missing_to_chrono.py:67-75 | Such a stem (`"2012-01-15-draft"`) is missing but has no entry, so any run that adds it stops in `create_entry_html`. |
| Chrono.InsertionPoint | add_missing_to_chrono.py:254-259 | The new date goes before the first tracked date it is later than; all dates before that position are not earlier than it. |
| Chrono.InsertStep | add_missing_to_chrono.py:253-267 | Inserting at that position equals re-sorting the tracked list with the new date, and the list stays newest first. |
| Chrono.AddToSection | add_missing_to_chrono.py:238-267 | For a year list in any order, with or without dated links: no result exactly when some date cannot be displayed; otherwise the list is the one the insertions build, holds exactly the old `li`s plus one new `li` per date, and keeps the old `li`s in their old order. |
| Chrono.Insertions | add_missing_to_chrono.py:246-267 | The loop over the dates, with its re-sorted tracking copy, builds exactly the list and copy of the specification function `AddAll`, or stops at the first date that cannot be displayed. |
| Chrono.DatedPairs | add_missing_to_chrono.py:238-244 | `existing_in_section` holds a pair for each `li` whose link carries a date, in page order, and for no other `li`. |
| Chrono.AddAllContents | add_missing_to_chrono.py:253-267 | Whatever the list's order, after the insertions it holds exactly its old `li`s and one new `li` per date. |
| Chrono.AddAllKeepsPage | add_missing_to_chrono.py:253-267 | The old `li`s stay in their old relative order: the insertions only add. |
| Chrono.AddAllTracking | add_missing_to_chrono.py:246-267 | Whatever the list's order, the tracking copy always holds exactly the dated `li`s of the list, sorted newest first. |
| Chrono.SortedSectionStaysSorted | add_missing_to_chrono.py:253-267 | A list whose links all carry dates and which runs newest first still does after the insertions, and the tracking copy is then the list itself. |
| Chrono.YearPatternFrom | add_missing_to_chrono.py:128 | The search returns the first index where `20\d{2}` matches, or none when it matches nowhere. |
| Chrono.HeadingYear | add_missing_to_chrono.py:128-130 | A year read from a heading lies between 2000 and 2099. |
| Chrono.HeadingYearOfNew | add_missing_to_chrono.py:114-130 | The heading written for a new year from 2000 to 2099 reads back as that year. |
| Chrono.YearSectionPosition | add_missing_to_chrono.py:124-141 | A new year section goes before the first heading with an earlier year, or at the end when there is none. |
| Chrono.PlacementKeepsOrder | add_missing_to_chrono.py:124-141 | Headings whose years run strictly newest first still do after the new year is placed there. |
| Chrono.AdditionPlan | add_missing_to_chrono.py:192-226 | The `by_year` accumulation and the loops over years and dates visit the dates in the order the specification function gives. |
| Chrono.VisitYears | add_missing_to_chrono.py:225-226 | The loop over the years visits exactly the blocks of the specification function: each year's dates newest first, year after year. |
| Chrono.YearOrder | add_missing_to_chrono.py:195 | A date whose year is earlier is an earlier date. |
| Chrono.BlocksMember | add_missing_to_chrono.py:225-226 | A date is visited exactly when it is among the dates and its year is one of the years visited. |
| Chrono.BlocksSorted | add_missing_to_chrono.py:225-226 | With the years newest first and each year's dates newest first, the whole visit runs newest first. |
| Chrono.AdditionOrderMembers | add_missing_to_chrono.py:192-226 | `AdditionOrder` (years newest first, each year's dates newest first) adds every missing date, and no other date. |
| Chrono.AdditionOrderNewestFirst | add_missing_to_chrono.py:192-226 | The dates are added newest first, across years as well as within one. |
| TitleCase.SkipRun | fix_titles.py:40 | The run of one character starting at an index is taken in full: every character before the returned index is that character and the next one is not. |
| TitleCase.SlashUnderscores | fix_titles.py:39-40 | After the underscore runs are replaced no underscore is left, and text without underscores is unchanged. |
| TitleCase.SlashPlain | fix_titles.py:40 | Text without underscores is copied, and the replacement goes on after it. |
| TitleCase.SlashRun | fix_titles.py:40 | A whole run of underscores, of any length, becomes exactly one `" / "` and the text after the run is rewritten in turn. |
| TitleCase.DropSpaceBefore | fix_titles.py:43-44 | After removing whitespace before a mark, no whitespace stands before that mark; every character other than whitespace is kept, in order; text without the mark is unchanged; the text only shrinks and gains no new character. |
| TitleCase.DropPlain | fix_titles.py:43-44 | Text without whitespace is copied, and the substitution goes on after it. |
| TitleCase.DropGap | fix_titles.py:43-44 | A whitespace run is removed exactly when the mark follows it, and kept as it is otherwise. |
| TitleCase.DropKeeps | fix_titles.py:43-44 | Removing spaces before `?` never puts a space back before `!`, and the other way round. |
| TitleCase.CollapseSpaces | fix_titles.py:47 | After collapsing, no two whitespace characters are adjacent; every character other than whitespace is kept, in order; the text only shrinks and gains no character other than a space. |
| TitleCase.CollapsePlain | fix_titles.py:47 | Text without whitespace is copied, and the substitution goes on after it. |
| TitleCase.CollapseGap | fix_titles.py:47 | A whitespace run of two or more characters becomes one space, and a single whitespace character is kept. |
| TitleCase.StripKeepsText | fix_titles.py:50 | `strip()` keeps every character other than whitespace, in order. |
| TitleCase.CollapseKeeps | fix_titles.py:47 | Collapsing whitespace never puts whitespace before a mark that had none. |
| TitleCase.StripKeeps | fix_titles.py:50 | Stripping keeps both facts: no space before a mark and no double whitespace. |
| TitleCase.Cleaned | fix_titles.py:38-50 | The cleaned title is stripped, single-spaced and has no whitespace before `!` or `?`. Without `_____` in the title, its characters other than whitespace are the title's, in order. With `_____`, it has no underscore and its characters other than whitespace are those of the title with each underscore run replaced by `" / "` (see SlashPlain and SlashRun). |
| TitleCase.LeadEnd | fix_titles.py:60-62 | The leading-punctuation loop stops at the first character that is not leading punctuation. |
| TitleCase.CoreEnd | fix_titles.py:66-68 | The trailing-punctuation loop stops at the last character that is not trailing punctuation, never going into the leading part. |
| TitleCase.Peel | fix_titles.py:57-68 | Leading punctuation, core and trailing punctuation concatenate back to the word, and a non-empty core neither starts with leading nor ends with trailing punctuation. |
| TitleCase.PeelLeading | fix_titles.py:58-62 | The first loop moves exactly the leading punctuation run off the word. |
| TitleCase.PeelTrailing | fix_titles.py:64-68 | The second loop moves exactly the trailing punctuation run off what is left. |
| TitleCase.PeelWord | fix_titles.py:57-68 | The two loops together split the word into the three pieces of the specification function. |
| TitleCase.DashFrom | fix_titles.py:104 | The first dash at or after an index, or the end of the text. |
| TitleCase.DashCase | fix_titles.py:102-110 | Each character of a dashed word is upper-cased when it starts the word or follows a dash and lower-cased otherwise; the dashes are kept and the length is unchanged. |
| TitleCase.Apostrophe | fix_titles.py:92 | The position of the first apostrophe. |
| TitleCase.ContractionCase | fix_titles.py:90-100 | A core starting with an apostrophe is lower-cased in full; otherwise the segment before the apostrophe is capitalised and the rest lower-cased (`GOD'S` becomes `God's`). |
| TitleCase.CaseFolds | fix_titles.py:81-113 | Upper-casing, capitalising and lower-casing all keep the lower-case form of a text. |
| TitleCase.DashCaseFolds | fix_titles.py:102-110 | Dash casing keeps the lower-case form of a word. |
| TitleCase.CaseCore | fix_titles.py:74-113 | The cased core has the core's letters in some case; a Roman numeral from I to X comes out in capitals; a minor word after the first position is lower-cased exactly when the previous output word does not end a clause. |
| TitleCase.MinorWordCapitalized | fix_titles.py:85-88 | Capitalising a minor word changes it, so a minor word after a clause break never comes out lower-cased. |
| TitleCase.CaseToken | fix_titles.py:56-115 | A cased word has the word's letters in some case: only case changes. |
| TitleCase.CaseWord | fix_titles.py:56-115 | One loop iteration yields exactly the cased word of the specification function. |
| TitleCase.Cased | fix_titles.py:54-115 | The output has one word per input word, each with that word's letters. |
| TitleCase.SmartTitleCase | fix_titles.py:30-117 | The method returns the cased words of the cleaned title joined by single spaces, which is the specification function `SmartTitleCaseOf`. |
| TitleCase.SmartTitleCaseShape | fix_titles.py:47-53 | The result is stripped, words are separated by exactly one space, and it has as many words as the cleaned input, each with the same letters. |
| TitleCase.SmartTitleCaseKeepsText | fix_titles.py:38-117 | Up to letter case, the result holds the cleaned title's characters other than whitespace, in order; for a title without `_____`, those are the characters of the title itself. |
| TitleCase.SplitText | fix_titles.py:53 | `split()` keeps every character other than whitespace, in order. |
| TitleCase.JoinText | fix_titles.py:117 | Joining words with single spaces adds nothing but the spaces. |
| TitleCase.SplitFirstChars | fix_titles.py:53 | Words from `split()` are non-empty, and a mark never preceded by whitespace starts no word after the first. |
| TitleCase.JoinNoSpaceBefore | fix_titles.py:117 | Joining words with single spaces puts a mark after a space only when some word after the first starts with it. |
| TitleCase.MarksAfterWords | fix_titles.py:53-117 | Casing and re-joining the words never puts whitespace before a non-letter mark that had none. |
| TitleCase.SmartTitleCaseMarks | fix_titles.py:42-44 | The output never holds whitespace before `!` or `?`, so never `" !"` or `" ?"`. |
| TitleCase.NumeralExample | fix_titles.py:74-81 | Example: in `"PART III: THE ROAD HOME"` the token `III:` keeps its capitals and its colon. |
| TitleCase.MinorWordAfterColonExample | fix_titles.py:83-88 | Example: `THE` after `III:` is capitalised to `The`. |
| TitleCase.MinorWordLoweredExample | fix_titles.py:83-86 | Example: `THE` after an ordinary word becomes `the`. |
| TitleCase.TheToken | fix_titles.py:83-88 | `THE` after the first position becomes `The` exactly when the previous output word ends a clause, `the` otherwise. |
| TitleCase.ChangeNotes | fix_titles.py:135-147 | A changed title always gets at least one note, and the capitalisation note only when no other note applies. |
| TitleCase.FixTitle | fix_titles.py:126-149 | The fixed title is the smart title case, and the notes are empty exactly when the title did not change. |
| TitleCase.SpaceBeforeMarkNoted | fix_titles.py:138-139 | A title with whitespace before `!` or `?` is always changed, and the note says so. |
| TitleCase.OuterWhitespaceNoted | fix_titles.py:144-145 | A title with surrounding whitespace is always changed, and the note says so. |
| TitleCase.CheckForIssues | fix_titles.py:151-172 | Each issue is reported exactly when its condition holds: Word artifacts, an unusual character, more than 80 characters, or a backslash or a capital followed by a colon; at most four issues. |
| SmartCase.FirstLetter | fix_meditation_titles.py:114-115 | The scan stops at the first letter of the word, or at its end when there is none. |
| SmartCase.CapitalizedWord | fix_meditation_titles.py:108-120 | Characters before the first letter are kept, that letter is upper-cased and everything after it lower-cased; the length is unchanged. |
| SmartCase.NoLetterWordKept | fix_meditation_titles.py:119-120 | A word with no letters is returned unchanged. |
| SmartCase.CapitalizeWord | fix_meditation_titles.py:108-120 | The scanning loop returns exactly the capitalised word of the specification function. |
| SmartCase.WrapEnd | fix_meditation_titles.py:139 | The run of stripped characters at the front of a word is taken in full. |
| SmartCase.WrapStart | fix_meditation_titles.py:139 | The run of stripped characters at the end of a word is taken in full, never going into the front run. |
| SmartCase.CoreOf | fix_meditation_titles.py:139 | The core neither starts nor ends with a stripped character, and it is empty exactly when the word is made only of them. |
| SmartCase.CoreOfWrapped | fix_meditation_titles.py:139 | Wrapping a core in quotes and punctuation and stripping them gives the core back. |
| SmartCase.CoreOfLower | fix_meditation_titles.py:139-144 | Taking the core and lower-casing commute. |
| SmartCase.CoreFolds | fix_meditation_titles.py:139-144 | Words with the same lower-case form have cores with the same lower-case form. |
| SmartCase.Capitalized | scripts/update_tog_website_v4.py:108-112 | Each version's capitalisation keeps the word's length and lower-case form: only case changes. |
| SmartCase.CaseWordAt | scripts/update_tog_website_v4.py:106-112 | A cased word keeps its letters; the first word is always capitalised. |
| SmartCase.SmallKeyFolds | fix_meditation_titles.py:144 | Whether a word counts as small depends only on its lower-case form. |
| SmartCase.CapitalizedIdempotent | fix_meditation_titles.py:108-120 | Capitalising twice is capitalising once, for both `capitalize_word` and `str.capitalize`. |
| SmartCase.CaseWordIdempotent | fix_meditation_titles.py:137-147 | Re-casing a cased word at the same position changes nothing. |
| SmartCase.Cased | scripts/update_tog_website_v4.py:103-112 | There is one output word per input word, each with the same letters. |
| SmartCase.TitleCaseSmart | scripts/update_tog_website_v4.py:90-114 | The method returns empty or, for gated versions, not-all-capitals text unchanged, and otherwise the cased words joined with single spaces; it equals the specification function `TitleCaseSmartOf` for each version. |
| SmartCase.CaseWords | scripts/update_tog_website_v4.py:103-112 | The loop that appends to `result` yields exactly one cased word per word, in order (`Cased`). |
| SmartCase.CaseWord | fix_meditation_titles.py:137-147 | One loop iteration yields exactly the cased word at that position. |
| SmartCase.CaseFirst | threads-of-grace-website/backups/update_tog_website.py:54 | Each version capitalises with its own routine. |
| SmartCase.CasedWords | scripts/update_tog_website_v4.py:103-114 | Casing keeps every word a word, so splitting the joined result gives the cased words back. |
| SmartCase.CasedIdempotent | scripts/update_tog_website_v4.py:106-112 | Casing already cased words changes nothing. |
| SmartCase.GateKeepsText | fix_meditation_titles.py:125-129 | A gated version returns text that is not all capitals unchanged. |
| SmartCase.TitleCaseShape | threads-of-grace-website/backups/update_tog_website_v3.py:41-55 | For text the version re-cases, the result is stripped, has one word per input word with the same letters, and its first word is capitalised. |
| SmartCase.TitleCaseSmartIdempotent | fix_meditation_titles.py:123-149 | Applying `title_case_smart` twice gives the same as applying it once, in every version. |
| SmartCase.QuotedWordExample | fix_meditation_titles.py:114-117 | Example: `capitalize_word` reaches past an opening quote: `"GRACE` becomes `"Grace`. |
| SmartCase.QuotedCapitalizeExample | scripts/update_tog_website_v4.py:108 | Example: `str.capitalize` does not: `"GRACE` becomes `"grace`. |
| SmartCase.CoreExample | fix_meditation_titles.py:139-145 | Example: in fix_meditation_titles.py, `THE,` after the first word becomes `the,`. |
| SmartCase.SmallCoreLowered | fix_meditation_titles.py:144-145 | A later word whose core is a small word is lower-cased in full, punctuation included. |
| SmartCase.WholeWordExample | scripts/update_tog_website_v4.py:109-112 | Example: the website updater tests the whole word, so `THE,` becomes `The,`. |
| SmartCase.AsExample | threads-of-grace-website/backups/update_tog_website.py:45-46 | Example: `as` stays lower case in the later versions but is capitalised by the original updater. |
| SmartCase.GateExample | scripts/update_tog_website_v4.py:95-97 | Example: a gated version leaves `of` alone. |
| SmartCase.UngatedExample | threads-of-grace-website/backups/update_tog_website.py:39-58 | Example: the original updater re-cases `of` to `Of`. |
| SeasonPages.CollapseWhitespace | rebuild_season_pages.py:25 | The collapsed text is no longer than the text, empty exactly when it is, and starts with whitespace exactly when the text does. |
| SeasonPages.CollapseSingleSpaces | rebuild_season_pages.py:25 | After `re.sub(r'\s+', ' ', title)` the only whitespace left is single spaces. |
| SeasonPages.CollapseKeepsWords | rebuild_season_pages.py:25 | Collapsing whitespace keeps the words `split()` finds. |
| SeasonPages.SplitAfterSpaces | rebuild_season_pages.py:25 | Leading whitespace does not change the words. |
| SeasonPages.CollapseIdempotent | rebuild_season_pages.py:25 | Collapsing twice is collapsing once. |
| SeasonPages.TitleFromHeading | rebuild_season_pages.py:14-31 | There is no title exactly when there is no heading or its text is empty; otherwise the title has the heading's words, single-spaced, and collapsing it again changes nothing. |
| SeasonPages.HtmlFiles | rebuild_season_pages.py:43 | The listing is cut down to names ending in `.html`, in their listed order. |
| SeasonPages.MedFor | rebuild_season_pages.py:47-77 | A file yields a record exactly when its heading gives a title; the record keeps the file name and a non-empty title, and a date missing from the database gets occasion `""`, year `?` and season `Ordinary Time`. |
| SeasonPages.Collected | rebuild_season_pages.py:47-77 | There are at most as many records as files, each with a non-empty title and the name of one of the files. |
| SeasonPages.CollectMeditationData | rebuild_season_pages.py:38-80 | The loop collects exactly the records of the sorted `.html` files, skipping those without a title. |
| SeasonPages.CollectedFromListing | rebuild_season_pages.py:38-80 | Every collected record comes from an `.html` file of the listing and carries a title. |
| SeasonPages.PageFor | rebuild_season_pages.py:98-129 | A season page lists a permutation of its meditations, newest first, and its count line reads back as their number, plural exactly when the number is not one. |
| SeasonPages.Pages | rebuild_season_pages.py:211-216 | There are never more pages than listed seasons. |
| SeasonPages.RebuildSeasonPages | rebuild_season_pages.py:195-216 | The grouping loop and the loop over the seven seasons make exactly the pages of the specification function. |
| SeasonPages.PagesShowSeasons | rebuild_season_pages.py:195-216 | Every page belongs to a listed season, is non-empty, lists exactly that season's meditations newest first, and has the matching count. |
| SeasonPages.PageIffMeditations | rebuild_season_pages.py:211-216 | A listed season gets a page exactly when some meditation has that season. |
| SeasonPages.PagesSeasons | rebuild_season_pages.py:175-216 | Only the listed seasons get pages. |
| SeasonPages.BySeasonPartition | rebuild_season_pages.py:197-202 | Each collected meditation sits in exactly one season group: the group sizes add up to the number of meditations, and no group is empty. |
| SeasonPages.SeasonFilesDistinct | rebuild_season_pages.py:175-183 | The seven seasons are distinct, so each gets at most one page. |
| Indexes.DateFromFilename | scripts/regenerate_all_indexes.py:34-35 | A date is read exactly when the name starts with a well-formed `YYYY-MM-DD.html`, and it is that prefix; otherwise there is none. |
| Indexes.DatedNameParts | scripts/regenerate_all_indexes.py:34 | A name starting with a date and `.html` has the date in its first ten characters and `.html` right after. |
| Indexes.DateFromDatedName | scripts/regenerate_all_indexes.py:34-35 | The name of a dated file gives its date back, whatever follows `.html`. |
| Indexes.ElementText | scripts/regenerate_all_indexes.py:39 | An element's text is stripped, and a missing element gives the empty text. |
| Indexes.ExtractEntry | scripts/regenerate_all_indexes.py:25-73 | The record keeps the file name and the name's date; its texts are stripped; without `•` the occasion is the full text and the season is empty; neither part then holds a `•`. |
| Indexes.ExtractReadsBack | scripts/regenerate_all_indexes.py:49-58 | An occasion line written as `head • season` reads back as the head without its year suffix and the season. |
| Indexes.Chronological | scripts/regenerate_all_indexes.py:89 | The listing is a permutation of the records sorted newest first, an undated record counting as the empty date. |
| Indexes.GroupByYear | scripts/regenerate_all_indexes.py:88-96 | The sort and the grouping loop build the newest-first listing and the year groups of the dated records. |
| Indexes.BuildByYear | scripts/regenerate_all_indexes.py:317-365 | The total counts every record, dated or not, and there is one section per year heading in order. |
| Indexes.BuildSections | scripts/regenerate_all_indexes.py:363-365 | The loop over the years makes exactly one section per year, in order. |
| Indexes.YearSectionCount | scripts/regenerate_all_indexes.py:324-365 | The count beside a year heading is the number of dated records whose date starts with that year, and the section lists exactly those records, newest first. |
| Indexes.YearsDescending | scripts/regenerate_all_indexes.py:98 | The year headings appear once each, strictly newest first. |
| Indexes.EveryYearShown | scripts/regenerate_all_indexes.py:92-98 | Every dated record has its year among the headings. |
| Indexes.RangeAsWritten | scripts/regenerate_all_indexes.py:101-109 | The range is computed exactly when there is at least one record. |
| Indexes.UndatedBreaksRange | scripts/regenerate_all_indexes.py:102-106 | When any record has no date, the range as written starts at an undated record, whose missing date `strptime` cannot parse. |
| Indexes.DatedMember | scripts/regenerate_all_indexes.py:94 | The dated records are exactly the records with a date. |
| Indexes.DatedNonEmpty | scripts/regenerate_all_indexes.py:94 | There are no dated records exactly when no record has a date. |
| Indexes.DatedRange | scripts/regenerate_all_indexes.py:101-109 | The corrected range, from the oldest to the newest dated record, is absent exactly when no record has a date. |
| Indexes.DatedRangeBounds | scripts/regenerate_all_indexes.py:101-107 | Every dated record falls inside the corrected range. |
| Indexes.DatedRangeEnds | scripts/regenerate_all_indexes.py:101-107 | Both ends of the corrected range are dates of records. |
| Indexes.SeasonEntries | scripts/regenerate_all_indexes.py:249-257 | A season page lists a permutation of the records whose season matches without regard to case, and only those, newest first. |
| Indexes.LowerSeasons | scripts/regenerate_all_indexes.py:407 | There is one lower-cased season per record. |
| Indexes.CountLowerSeasons | scripts/regenerate_all_indexes.py:405-409 | Counting a lower-cased season name counts the records with that season. |
| Indexes.CountSeasons | scripts/regenerate_all_indexes.py:404-409 | The empty season is never counted, and every other season's count is the number of records with it, case ignored. |
| Indexes.SeasonTableKeys | scripts/regenerate_all_indexes.py:414-422 | Each card's key is its display name lower-cased, no key is empty, and the keys are distinct. |
| Indexes.BuildBySeason | scripts/regenerate_all_indexes.py:401-461 | The total counts every record; there is one card per listed season, in order, with its name, its file and the number of records its season page lists (0 when absent). |
| Indexes.TableTotalIsSum | scripts/regenerate_all_indexes.py:455-456 | The card counts add up to the summed counts of the card keys. |
| Indexes.SeasonCardsBounded | scripts/regenerate_all_indexes.py:455-456 | The seven cards together never show more meditations than the total. |
| Relink.NonBlank | threads-of-grace-website/backups/update_tog_website.py:152 | Every kept line is non-empty and already stripped, and no more lines are kept than there were pieces. |
| Relink.NonBlankKeeps | threads-of-grace-website/backups/update_tog_website.py:152 | Every piece that is not blank is kept, stripped. |
| Relink.NonBlankFrom | threads-of-grace-website/backups/update_tog_website.py:152 | Every kept line is one of the pieces, stripped. |
| Relink.NonBlankAppend | threads-of-grace-website/backups/update_tog_website.py:152 | The pieces are taken in order: filtering a concatenation concatenates the results. |
| Relink.NonBlankOfLines | threads-of-grace-website/backups/update_tog_website.py:152 | Pieces that are already stripped and not blank are all kept, unchanged. |
| Relink.LinkLines | threads-of-grace-website/backups/update_tog_website.py:151-152 | The lines of a link's text are non-empty and stripped. |
| Relink.LinkLinesOfJoin | threads-of-grace-website/backups/update_tog_website.py:151-152 | A text made of stripped, non-blank lines joined by newlines reads back exactly those lines, in order. |
| Relink.LinkLinesCount | threads-of-grace-website/backups/update_tog_website.py:151-152 | A link has at most one line more than its stripped text has newlines. |
| Relink.ShortLinkLeftAlone | threads-of-grace-website/backups/update_tog_website.py:151-155 | A link whose stripped text has at most one newline is left as it is. |
| Relink.LastTitle | threads-of-grace-website/backups/update_tog_website.py:165-176 | The index found is a title-like line that is neither the date nor the scripture, and no later line is; when none is found, no line is. |
| Relink.OccasionLines | threads-of-grace-website/backups/update_tog_website.py:165-176 | The occasion lines gathered by the loop are never title-like, never the (non-empty) scripture, and are no more than the lines seen. |
| Relink.Classify | threads-of-grace-website/backups/update_tog_website.py:161-176 | The loop's title and occasion lines are the last title-like line and the lines that are neither skipped nor title-like. |
| Relink.Without | threads-of-grace-website/backups/update_tog_website.py:181 | Filtering out the scripture leaves no copy of it, and with no scripture the lines are unchanged. |
| Relink.DateLine | threads-of-grace-website/backups/update_tog_website.py:202-207 | `Assemble` writes a display line that starts with the date; it is the date alone without an occasion, and otherwise continues with `" — "` and the occasion. |
| Relink.RebuiltOf | threads-of-grace-website/backups/update_tog_website.py:147-207 | An entry of fewer than three lines, or a chronological entry without a bold date, is left alone; a rewritten entry's display line starts with its first line. |
| Relink.RebuildLink | threads-of-grace-website/backups/update_tog_website.py:261-310 | The rewrite performed by the loop, on either kind of page, is the one the classification describes. |
| Relink.UpperLineIsTitleLike | threads-of-grace-website/backups/update_tog_website.py:173 | A line in capitals is title-like on both kinds of page. |
| Relink.TitleLike | threads-of-grace-website/backups/update_tog_website.py:173 | The definition: a line in capitals, or one with more than 70% capitals on the chronological page (60% and longer than 3 characters on the season pages, line 282). |
| Relink.TitleIsLastTitleLike | threads-of-grace-website/backups/update_tog_website.py:165-176 | `Parts`: when some line is title-like, the title is the last title-like line and the occasion lines are the loop's. |
| Relink.FallbackTitle | threads-of-grace-website/backups/update_tog_website.py:178-181 | With no title-like line, the title is the last line and the occasion lines are the inner lines without the scripture. |
| Relink.ScriptureNotOccasion | threads-of-grace-website/backups/update_tog_website.py:169-171 | A non-empty scripture never ends up among the occasion lines, whichever way the title was found. |
| Relink.OccasionsKept | threads-of-grace-website/backups/update_tog_website.py:165-176 | Every occasion line is a line of the entry that is neither skipped nor title-like. |
| Relink.ClassifyExample | threads-of-grace-website/backups/update_tog_website.py:140-145 | Example: a chronological entry with date, occasion, scripture and a title in capitals gives that title and the occasion alone. |
| Relink.ExampleTitle | threads-of-grace-website/backups/update_tog_website.py:173-174 | Example: in that entry the capitalised last line is the title. |
| Relink.ExampleOccasions | threads-of-grace-website/backups/update_tog_website.py:165-176 | Example: in that entry the only occasion line is "Third Sunday in Lent"; the date and the scripture are skipped. |
| Relink.OccasionNotTitle | threads-of-grace-website/backups/update_tog_website.py:173 | "Third Sunday in Lent" is not title-like on either kind of page. |
| Relink.NonUpperRun | threads-of-grace-website/backups/update_tog_website.py:173 | A run of characters that are not capitals bounds the count of capitals the threshold compares. |
| Text.Lower | fix_titles.py:221 | Each character is mapped to its ASCII lower case and the length is kept. |
| Text.LowerIdempotent | fix_titles.py:221 | Lower-casing twice is lower-casing once. |
| Text.Strip | threads-of-grace-website/backups/update_tog_website.py:152 | The result neither starts nor ends with whitespace. |
| Text.StripPadded | threads-of-grace-website/backups/update_tog_website.py:152 | Stripping whitespace padding on both sides of stripped text gives that text back. |
| Text.SplitWords | fix_titles.py:53 | Every piece of `split()` is a non-empty word without whitespace. |
| Text.SplitJoin | fix_titles.py:53-117 | Joining words with single spaces and splitting the result gives the words back. |
| Text.LexLessTransitive | rebuild_season_pages.py:102 | String order, as `sorted` compares dates, is transitive. |
| Text.LexLessTotal | rebuild_season_pages.py:102 | Any two different strings are ordered one way or the other. |
| Dates.DateFrom | add_missing_to_chrono.py:170 | The index found is where a date starts, with none earlier; when there is none, no date starts anywhere. |
| Dates.FirstDate | add_missing_to_chrono.py:170 | The value found is a date that occurs in the text; none is found exactly when no date occurs. |
| Dates.FirstDateOfLink | add_missing_to_chrono.py:170 | A date placed after text that holds no date is the one found. |
| Dates.EarlierYearSortsFirst | add_missing_to_chrono.py:199-226 | For well-formed dates, an earlier year means an earlier date in string order. |
| Grouping.Accumulate | scripts/regenerate_all_indexes.py:92-96 | Appending each item to its key's list gives exactly `GroupBy`, the grouping by key with keys in first-appearance order. |
| Grouping.KeysOfGroupBy | scripts/regenerate_all_indexes.py:98 | The keys of the grouping are the distinct keys of the items, in first-appearance order. |
| Grouping.KeysOfDistinct | scripts/regenerate_all_indexes.py:98 | No key appears twice among the keys. |
| Grouping.GroupBySnoc | scripts/regenerate_all_indexes.py:93-96 | Grouping one more item files it under its key and changes nothing else. |
| Grouping.GroupsPartition | scripts/regenerate_all_indexes.py:92-96 | The groups together hold exactly as many items as were grouped. |
| Grouping.GroupsNonEmpty | scripts/regenerate_all_indexes.py:92-96 | No group is empty. |
| Grouping.LookupGroupBy | scripts/regenerate_all_indexes.py:204 | The list under a key is the items with that key, in their original order. |
| Grouping.FilterMember | scripts/regenerate_all_indexes.py:204 | An item is under a key exactly when it was grouped and has that key. |
| Grouping.FilterPermutation | scripts/regenerate_all_indexes.py:204 | Grouping a reordering of the items gives each key a reordering of its list. |
| Grouping.Tally | scripts/regenerate_all_indexes.py:405-409 | Each key's count is the number of times it occurs, and only occurring keys are counted. |
| Grouping.SumCountsIsCountIn | scripts/regenerate_all_indexes.py:405-411 | Summing the counts of distinct keys gives the number of items with one of those keys. |
| Grouping.CountInAll | scripts/regenerate_all_indexes.py:405-411 | When every item has one of the keys, the counts add up to the number of items. |
| Grouping.DistinctPermutation | scripts/regenerate_all_indexes.py:98 | A reordering of a list without repeats has no repeats. |
| Sorting.SortBy | rebuild_season_pages.py:102 | The result is a reordering of the input. |
| Sorting.SortBySorted | rebuild_season_pages.py:102 | The result is ordered by the key, ascending or descending as asked. |
| Sorting.SortByOfSorted | scripts/regenerate_all_indexes.py:204 | Sorting an already ordered list leaves it unchanged. |
| Sorting.InsertStable | rebuild_season_pages.py:102 | Inserting into an ordered list puts the item after every item with its key; the items of any other key keep their order. |
| Sorting.SortByStable | rebuild_season_pages.py:102 | The sort is stable: for every key, the items with that key come out in their input order. |
| Sorting.InsertSorted | rebuild_season_pages.py:102 | Inserting into an ordered list keeps it ordered. |
| Sorting.FilterSorted | scripts/regenerate_all_indexes.py:204 | Picking the items of one key from an ordered list keeps them ordered. |
| Sorting.PrecedesTransitive | rebuild_season_pages.py:102 | "Not after" is transitive in either direction of sorting. |

## Left out

- Non-ASCII text. Python's Unicode `isspace`, `isupper`, `lower`, `capitalize` and `\w` are modelled on ASCII only. `re.IGNORECASE` is ASCII case folding. Curly quotes and dashes are opaque characters.
- File and directory I/O, `glob`/`listdir`, backups, JSON loading, command-line handling and printed reports. A directory listing is a parameter, taken in the order given. The liturgical database is a map parameter. A database value of `null` is read as an absent field.
- BeautifulSoup and `HTMLParser` DOM work, including `MeditationParser`. A page is modelled by the text of the parts the scripts read, such as heading, title tag, readings block, first paragraph and link text. `get_text(strip=True)` is taken as already-stripped text, except for season card headings, which the model strips itself.
- Pages whose title headings are read from files receive them as a map from file name to heading text.
- HTML, CSS and page-template string building. Only the entries, orders and counts that the pages show are modelled.
- MD5 hashing. The content hash is an opaque string field of each meditation.
- `strptime`/`strftime` calendar validation. Dates are `YYYY-MM-DD` text.
- Chrono.EntryFor: a date counts as displayable when its month is 1-12, its day 1-31 and its year four digits from 1000 on; the finer calendar check of `strptime` (30 February, years before 1000) is not modelled. Any other date, such as a file stem with text after its date, gives no entry: the uncaught `ValueError` that stops the run.
- The `%B %Y` range text of the chronological index is not modelled. Its bounds are (see Findings).
- The heading search that finds a year's section on the chronological page (`str(year) in h2_text`) is not modelled. A section's entries are a parameter.
- Chrono.YearOf: keeps the year as four characters of text rather than an `int`. Descending string order is numeric order for four-digit years.
- Relink.TitleLike: the thresholds `> len(line) * 0.7` and `* 0.6` are compared exactly as `10 * count > 7 * length`. Python's floating-point product can differ from this for lines of 90 characters or more.
- `proper_num` in `format_occasion_with_year` is computed but unused, so it is not modelled.
- The message texts of `check_for_issues` and the unused `filename` parameter are not modelled. The issues are a datatype.
- The error and skip messages of `process_files` are not modelled. The file names of skipped and failed files are kept instead.
- The `by_year`, `by_season` and `by_lectionary` statistics tables of `generate_indexes.py` are not modelled. The title groups, the letter sections, repeated essays and hash reuse counts are.
- The order of the letter navigation bar (`sorted(by_letter.keys())`) is not modelled. The sections themselves are, in first-appearance order of their letters over the sorted groups.
- Soup mutation in the `update_*` functions is modelled as the new value of each card's count line or each link's parts, not as node edits.
- `scripts/reformat_meditations.py` and `find_missing_meditations.py` are not part of this model. The former is an HTML re-templater. The latter's set difference and year grouping are the ones modelled for the chronological page.

## Findings

| source | as written | input that shows it | evidently intended | confidence | as-written member | corrected member |
|---|---|---|---|---|---|---|
| scripts/regenerate_all_indexes.py:102-106 | The date range starts at the last entry of the descending sort. Undated entries sort last there (their key is `''`), so `strptime` receives `None`. | A meditations directory holding any `.html` file whose name is not `YYYY-MM-DD.html`, such as `index.html` | The range runs from the oldest to the newest dated entry | medium, not executed | Indexes.UndatedBreaksRange | Indexes.DatedRangeBounds |
