# Scraper cores of the COVID-19 literature crawlers, in Dafny

This project models the parts of the COVID-19 scrapers repository that do
their own computing. The rest of that repository is crawling and storage
plumbing. The modelled parts are:

- the PDF paragraph reconstruction engine
  (`COVID_19_biorxiv_scraper/pdf_extractor/paragraphs.py`), in three modules:
  - `LineGrouping` (`line_grouping.dfy`): the patched `group_textlines`. It
    corrects the line margin for each line, merges boxes through the
    line-to-box map, and emits the boxes in first-line order;
  - `PageLayout` (`page_layout.dfy`): the `TextHandler` device. It holds the
    layout parameters, walks each page for its text boxes, and runs the
    cross-page clean-up of `get_true_paragraphs`. The clean-up drops repeated
    texts, drops texts that are mostly non-letters, and collapses whitespace;
  - `ParagraphAssembly` (`paragraph_assembly.dfy`): the body of
    `extract_paragraphs_pdf`. It stably sorts each page by truncated vertical
    position, computes indentation buckets, and stitches the first paragraph
    of a page onto the last one of the page before;
- `JobScheduler` (`scheduler.dfy`): the `Scheduler` of `job.py`, a class
  over the period, countdown and running-thread maps, and one pass of
  `run_forever`;
- `BaseSpider` (`base_spider.dfy`): record shaping in `save_article`, the
  `has_duplicate` decision, and `get_col`;
- `VersionTracker` (`version_tracker.dfy`): `url_to_doi`, the newest-version
  selection loop, the site choice, and the latest-per-DOI table of
  `start_requests`;
- `Chictr` (`chictr.dfy`): the Chinese Clinical Trial Registry spider. It
  covers the in-place rowspan fix, `parse_row`/`parse_table`, title
  normalisation, the `info` dictionary, and the "first data row only" rule of
  `parse_history`;
- `PublicHealthOntario` (`public_health_ontario.dfy`): the recursive
  abstract search, the PDF file-name sanitising, and the skip rule for
  listed articles;
- `BiorxivMeta` (`biorxiv_meta.dfy`): the author meta aggregation of
  `handle_medrxiv` (name split and attributes), DOI lowercasing, and the
  subject-area filter;
- two support modules:
  - `Wrappers` (`wrappers.dfy`): `Option`, `Result` and the Python exception
    kinds that the modelled code can raise;
  - `PyStrings` (`pystrings.dfy`): the Python `str` operations the code uses
    (`strip`, `split`, `join`, `lower`, `capitalize`, `in`, `int()` of
    digits), with the properties the proofs need.

Several files exist in two copies, one under `covidscholar_scraper/`
(including `_base.py`) and one under `COVID_19_biorxiv_scraper/`. Where the
logic of both copies is identical, one Dafny member models both. The table
cites the `covidscholar_scraper` copy, and the other copy's lines are:

- `chictr.py`: `parse_history` 74-110, `parse_row` 113-131, `parse_table`
  133-154 (rowspan 142-151), `info` 156-159;
- `publichealthontario.py`: `find_section` 79-94, `find_abstract` 96-99,
  file name 56.

Where the copies differ, the model has a switch or a member for each:

- `BiorxivMeta.SplitName` takes `fallback`. It is `true` for the
  covidscholar copy (single-token names become `('', name)`) and `false` for
  the other copy (the two-name unpacking raises ValueError);
- the tracker skip of `start_requests` has two members:
  `VersionTracker.LatestPerDoi` builds the per-DOI table,
  `VersionTracker.UntrackedDocuments` skips only;
- `PublicHealthOntario.ShouldSkip` exists only in the second copy.

Errors that the Python code raises (IndexError, KeyError, ValueError,
TypeError, AttributeError, ZeroDivisionError) are modelled as `Failure`
results with the exception's kind. Where real code stops part-way with a
partly built value, the model returns only the failure.

Behaviour of the code that is easy to misread; the model follows the code:

- repeated texts: a text counted more than once anywhere in the document is dropped from every page, including a text repeated on a single page (`PageLayout.RepeatedTextDropped`);
- stitching: an empty previous or current text raises IndexError at `last_paragraph[-1]` or `text[0]` (`ParagraphAssembly.ShouldJoinWith`);
- sentence ends: the code's sentence-end test never fires, so a paragraph that ends a sentence is still joined to a continuation that does not start with a capital (see Findings). The assembly functions `Step`, `PageFold`, `Assemble` and `Extract` take the terminator test as a parameter `ends`. Every other lemma about them holds for any test; the Findings lemmas `AsWrittenJoinsAcrossPages` and `AsWrittenPageJoins` fix the code's test `EndsAsWritten`, and `IntendedKeepsSentencesApart` fixes the intended test `IsEndingChar`. The methods `StitchOne`, `StitchPages` and `ExtractParagraphs` use the code's test `EndsAsWritten`;
- emptiness: a box is dropped when its union bounding box has no width or no height (`is_empty`). Blank lines never enter a box in the first place;
- box merging: the code makes a single pass in which each new box absorbs the boxes of its seed's neighbours. Which lines end up together does not depend on the order of the pass: each yielded box is a connected component of the seeds' groups (`LineGrouping.EmittedComponents`). Only the order of the lines inside a box, and the box's orientation, follow the pass: a box takes the orientation of the last seed that merged into it, which is the greatest seed among its members (`LineGrouping.EmittedCreatorOriented`). The boxes themselves are yielded in the order of their first line;
- configuration: the defaults are `char_margin` 3.0 and `line_margin` 2.5.

## Model

| member | source | states |
|---|---|---|
| LineGrouping.BlankIsStripEmpty | COVID_19_biorxiv_scraper/pdf_extractor/paragraphs.py:25 | a line is blank exactly when its stripped text is empty |
| LineGrouping.MarginIsMinimum | COVID_19_biorxiv_scraper/pdf_extractor/paragraphs.py:29-36 | the corrected margin is at most `line_margin`, at most every other neighbour's scaled gap, and equal to `line_margin` or to one of those gaps; it fails exactly when the seed has height zero and has another neighbour |
| LineGrouping.CorrectMargin | COVID_19_biorxiv_scraper/pdf_extractor/paragraphs.py:29-36 | the margin loop computes that minimum, never above `line_margin` and below every other neighbour's gap |
| LineGrouping.FailureExtends | COVID_19_biorxiv_scraper/pdf_extractor/paragraphs.py:33-34 | once the division fails on a prefix of the neighbours, the whole loop fails with ZeroDivisionError |
| LineGrouping.FailureIsDivision | COVID_19_biorxiv_scraper/pdf_extractor/paragraphs.py:34 | the only failure of the margin loop is ZeroDivisionError |
| LineGrouping.Uniq | COVID_19_biorxiv_scraper/pdf_extractor/paragraphs.py:53 | `uniq(members)` has no duplicates, the same elements, and is non-empty for a non-empty input |
| LineGrouping.MinOf | COVID_19_biorxiv_scraper/pdf_extractor/paragraphs.py:57-63 | the first line of a box is a member, and no member comes before it |
| LineGrouping.UnionBoxEncloses | COVID_19_biorxiv_scraper/pdf_extractor/paragraphs.py:53-54 | the box's bounding box encloses every member line added to it |
| LineGrouping.MemberWithAreaMakesNonEmpty | COVID_19_biorxiv_scraper/pdf_extractor/paragraphs.py:64 | a box holding a line of positive width and height is not empty |
| LineGrouping.CollectPop | COVID_19_biorxiv_scraper/pdf_extractor/paragraphs.py:47-48 | a neighbour that already has a box is popped from the map and brings that whole box into `members`; every absorbed box stays wholly among the members, and only members leave the map |
| LineGrouping.CollectKeep | COVID_19_biorxiv_scraper/pdf_extractor/paragraphs.py:43-46 | a neighbour without a box joins alone; the map is unchanged and every absorbed box stays wholly among the members |
| LineGrouping.CollectMembers | COVID_19_biorxiv_scraper/pdf_extractor/paragraphs.py:42-48 | the members are non-blank lines and contain every non-blank neighbour; every absorbed box is contained whole; only lines of absorbed boxes leave the map; every member is a non-blank neighbour or shared a box with one |
| LineGrouping.NewBoxMapped | COVID_19_biorxiv_scraper/pdf_extractor/paragraphs.py:53-55 | after the new box is added, every mapped line lies in the box it maps to |
| LineGrouping.NewBoxConsistent | COVID_19_biorxiv_scraper/pdf_extractor/paragraphs.py:53-55 | after the new box is added, all members of a mapped line's box map to the same box |
| LineGrouping.OldBoxUntouched | COVID_19_biorxiv_scraper/pdf_extractor/paragraphs.py:47-55 | a line whose box was not absorbed shares its box only with lines that were not absorbed either |
| LineGrouping.NewBoxWellFormed | COVID_19_biorxiv_scraper/pdf_extractor/paragraphs.py:49-54 | the new box lists valid, distinct, non-blank lines |
| LineGrouping.AddBox | COVID_19_biorxiv_scraper/pdf_extractor/paragraphs.py:49-55 | the new box holds the unique members with the seed's orientation; the map stays a partition; every member maps to the new box; every other line keeps its box |
| LineGrouping.FirstIsMin | COVID_19_biorxiv_scraper/pdf_extractor/paragraphs.py:57-63 | the line at which the emission loop first meets a box is that box's smallest member |
| LineGrouping.EmitSkip | COVID_19_biorxiv_scraper/pdf_extractor/paragraphs.py:58-59 | a line without a box, or whose box was already seen, changes nothing |
| LineGrouping.EmitDrop | COVID_19_biorxiv_scraper/pdf_extractor/paragraphs.py:61-64 | the first line of an empty box marks it seen without emitting it |
| LineGrouping.EmitTake | COVID_19_biorxiv_scraper/pdf_extractor/paragraphs.py:60-65 | a non-empty box met for the first time is emitted, recorded with its first line |
| LineGrouping.EmitBoxes | COVID_19_biorxiv_scraper/pdf_extractor/paragraphs.py:56-65 | the emitted boxes are the distinct non-empty boxes of the map, each once, in the order of their first lines |
| LineGrouping.EmitFinish | COVID_19_biorxiv_scraper/pdf_extractor/paragraphs.py:56-65 | the loop's invariant at the end gives that emission order |
| LineGrouping.EmittedCoverAll | COVID_19_biorxiv_scraper/pdf_extractor/paragraphs.py:56-65 | every mapped line whose box is not empty is in some emitted box |
| LineGrouping.SeedsExtend | COVID_19_biorxiv_scraper/pdf_extractor/paragraphs.py:49-55 | each box records the seed line that built it, which is one of its members |
| LineGrouping.SeedsBoxedStep | COVID_19_biorxiv_scraper/pdf_extractor/paragraphs.py:23-55 | every seed seen so far still has a box after the next line is handled |
| LineGrouping.EmittedBoxesOk | COVID_19_biorxiv_scraper/pdf_extractor/paragraphs.py:56-65 | emitted boxes are well formed and non-empty, in first-line order |
| LineGrouping.EmittedDisjoint | COVID_19_biorxiv_scraper/pdf_extractor/paragraphs.py:56-65 | no line is in two emitted boxes |
| LineGrouping.EmittedSeeded | COVID_19_biorxiv_scraper/pdf_extractor/paragraphs.py:49-52 | each emitted box has a seed line among its members and has that seed's orientation |
| LineGrouping.EmittedCovers | COVID_19_biorxiv_scraper/pdf_extractor/paragraphs.py:38-65 | every seed line with positive width and height is in an emitted box |
| LineGrouping.Group | COVID_19_biorxiv_scraper/pdf_extractor/paragraphs.py:29-38 | the neighbour list of a seed at its corrected margin lies within the page's lines and contains the seed |
| LineGrouping.SeedStepHolds | COVID_19_biorxiv_scraper/pdf_extractor/paragraphs.py:38-55 | registering the collected members in a new box sends the seed, its non-blank neighbours and every line of an absorbed box to the new box and leaves every other line's box as it was |
| LineGrouping.SeedStepMerges | COVID_19_biorxiv_scraper/pdf_extractor/paragraphs.py:47-55 | a turn never splits a box: lines that shared a box still share one, and no line loses its box |
| LineGrouping.GroupsKeptStep | COVID_19_biorxiv_scraper/pdf_extractor/paragraphs.py:23-55 | after a turn, every earlier seed still shares a box with all its non-blank neighbours, and the current seed now does too |
| LineGrouping.EmittedGroupOf | COVID_19_biorxiv_scraper/pdf_extractor/paragraphs.py:56-65 | the yielded box holding a seed with an area also holds all that seed's non-blank neighbours |
| LineGrouping.EmittedGroups | COVID_19_biorxiv_scraper/pdf_extractor/paragraphs.py:23-65 | when every seed shares a box with its group at the end of the loop, every seed with an area has its whole group in one yielded box |
| LineGrouping.GroupLine | COVID_19_biorxiv_scraper/pdf_extractor/paragraphs.py:23-55 | one pass for one line raises ZeroDivisionError exactly when the line is faulty; otherwise the map stays a partition and boxes only merge; for a seed line, the line itself, its non-blank neighbours at the corrected margin and every line that shared a box with one of them map to the new box, no other line does, and every other line keeps its box; a line that is not a seed changes nothing |
| LineGrouping.GroupTextlines | COVID_19_biorxiv_scraper/pdf_extractor/paragraphs.py:17-66 | fails exactly when some line is faulty, with ZeroDivisionError; otherwise yields disjoint, non-empty boxes of non-blank lines, in first-line order; each yielded box has the orientation of the seed whose turn created it, which is the greatest seed line among its members; every seed whose connected component has a union bounding box of positive width and height is in a yielded box; every seed with an area is in one yielded box together with all its non-blank neighbours at its corrected margin; each yielded box is a connected component of the groups: a line is in it exactly when a chain of seed groups, each sharing a line with the next, links it to a line of the box |
| LineGrouping.LinkedInGroup | COVID_19_biorxiv_scraper/pdf_extractor/paragraphs.py:38-48 | two lines of one seed's group (the seed or a non-blank neighbour at its corrected margin) are linked |
| LineGrouping.GroupMemberLinked | COVID_19_biorxiv_scraper/pdf_extractor/paragraphs.py:38-48 | a non-blank neighbour of a seed at its corrected margin is linked to that seed |
| LineGrouping.LinkedThroughBox | COVID_19_biorxiv_scraper/pdf_extractor/paragraphs.py:42-55 | a line that shares a box with `y` is linked to every line `y` is linked to, through the seed of that box |
| LineGrouping.AnchoredNew | COVID_19_biorxiv_scraper/pdf_extractor/paragraphs.py:42-55 | every line the new box of a seed receives is linked to that seed: it is in the seed's group, or it was in the box of a line of that group |
| LineGrouping.AnchoredStep | COVID_19_biorxiv_scraper/pdf_extractor/paragraphs.py:23-55 | after a turn, every mapped line is still linked to the seed that built its box |
| LineGrouping.BoxConnected | COVID_19_biorxiv_scraper/pdf_extractor/paragraphs.py:42-55 | any two lines of a box are linked, through the box's seed |
| LineGrouping.BoxClosed | COVID_19_biorxiv_scraper/pdf_extractor/paragraphs.py:42-55 | once every seed shares a box with its group, a box holding one line of a group holds the whole group |
| LineGrouping.ConnectedClosedComponent | COVID_19_biorxiv_scraper/pdf_extractor/paragraphs.py:42-55 | a box that is connected and closed under the groups holds exactly the lines linked to any of its lines |
| LineGrouping.EmittedComponents | COVID_19_biorxiv_scraper/pdf_extractor/paragraphs.py:23-65 | each yielded box is a connected component of the seeds' groups |
| LineGrouping.UnionWithin | COVID_19_biorxiv_scraper/pdf_extractor/paragraphs.py:52-54 | a bounding box that encloses every line of a list encloses their union (`box.add`) |
| LineGrouping.SubsetSpansArea | COVID_19_biorxiv_scraper/pdf_extractor/paragraphs.py:52-64 | a box holding some lines whose union has positive width and height is not empty, so `is_empty()` is false for it |
| LineGrouping.EmittedComponentsCovered | COVID_19_biorxiv_scraper/pdf_extractor/paragraphs.py:56-65 | every seed whose connected component holds lines whose union has positive width and height is in a yielded box, even when no single line of it has an area |
| LineGrouping.SeedsNotAfterStep | COVID_19_biorxiv_scraper/pdf_extractor/paragraphs.py:23-55 | after each turn, every seed handled so far that has a box is no later than the seed whose turn created that box, because a seed's own turn moves it into a fresh box |
| LineGrouping.BoxCreatorOriented | COVID_19_biorxiv_scraper/pdf_extractor/paragraphs.py:49-55 | a box holds the seed whose turn created it, that seed is the greatest seed among its members, and the box has that seed's orientation (`LTTextBoxHorizontal` for a horizontal line) |
| LineGrouping.EmittedCreatorOriented | COVID_19_biorxiv_scraper/pdf_extractor/paragraphs.py:49-65 | every yielded box has the orientation of the greatest seed among its members, the seed whose turn created it |
| PageLayout.RenderHolds | COVID_19_biorxiv_scraper/pdf_extractor/paragraphs.py:88-97 | a record is collected exactly when some text box in the item's tree carries that text and bounding box |
| PageLayout.RenderAllHolds | COVID_19_biorxiv_scraper/pdf_extractor/paragraphs.py:95-97 | the children's records are exactly those of the text boxes below some child |
| PageLayout.RenderCount | COVID_19_biorxiv_scraper/pdf_extractor/paragraphs.py:88-97 | the walk collects one record per text box in the tree |
| PageLayout.RenderAllCount | COVID_19_biorxiv_scraper/pdf_extractor/paragraphs.py:95-97 | the walk over children collects one record per text box below them |
| PageLayout.MergeLaparams | COVID_19_biorxiv_scraper/pdf_extractor/paragraphs.py:75-79 | the defaults `char_margin` 3.0 and `line_margin` 2.5 are kept unless overridden; every given key wins; no other key is added |
| PageLayout.TextHandler.constructor | COVID_19_biorxiv_scraper/pdf_extractor/paragraphs.py:74-83 | a new device has the merged parameters and no pages |
| PageLayout.TextHandler.ReceiveLayout | COVID_19_biorxiv_scraper/pdf_extractor/paragraphs.py:85-100 | a page's records are appended as one new page |
| PageLayout.OccInPositive | COVID_19_biorxiv_scraper/pdf_extractor/paragraphs.py:105-107 | a record's text occurs on its own page |
| PageLayout.OccurrencesPositive | COVID_19_biorxiv_scraper/pdf_extractor/paragraphs.py:105-107 | a record's text is counted at least as often as it occurs on its page |
| PageLayout.CountTexts | COVID_19_biorxiv_scraper/pdf_extractor/paragraphs.py:104-107 | the counter holds, for every text, its number of occurrences over all pages, and has only positive counts |
| PageLayout.CountedTextIsCarried | COVID_19_biorxiv_scraper/pdf_extractor/paragraphs.py:105-107 | a counted text is the text of some record |
| PageLayout.RedundantIff | COVID_19_biorxiv_scraper/pdf_extractor/paragraphs.py:108 | a text is redundant exactly when it occurs more than once in the document |
| PageLayout.RedundantFromCounter | COVID_19_biorxiv_scraper/pdf_extractor/paragraphs.py:104-108 | the set built from the counter is the set of texts occurring more than once |
| PageLayout.OccInAt | COVID_19_biorxiv_scraper/pdf_extractor/paragraphs.py:106-107 | a text occurring on a page is the text of one of its records |
| PageLayout.WithoutTexts | COVID_19_biorxiv_scraper/pdf_extractor/paragraphs.py:109-113 | the filter keeps exactly the records whose text is not dropped |
| PageLayout.WithoutTextsOrder | COVID_19_biorxiv_scraper/pdf_extractor/paragraphs.py:109-113 | the filter keeps the page order: it picks the records at strictly increasing positions, and a position is picked exactly when its text is not dropped |
| PageLayout.WordyHasLetter | COVID_19_biorxiv_scraper/pdf_extractor/paragraphs.py:121-122 | a kept text has at least one ASCII letter |
| PageLayout.KeepWordyMembers | COVID_19_biorxiv_scraper/pdf_extractor/paragraphs.py:117-124 | the letter filter keeps exactly the records with more letters than half the printable, stripped length |
| PageLayout.KeepWordyOrder | COVID_19_biorxiv_scraper/pdf_extractor/paragraphs.py:117-124 | the letter filter keeps the page order: it picks the records at strictly increasing positions, and a position is picked exactly when its text passes the letter test |
| PageLayout.KeepWordyPage | COVID_19_biorxiv_scraper/pdf_extractor/paragraphs.py:118-124 | the page loop builds that filtered page |
| PageLayout.NumberOnlyIsNotWordy | COVID_19_biorxiv_scraper/pdf_extractor/paragraphs.py:121-122 | a text of digits only (a page number) is dropped by the letter test |
| PageLayout.LettersOnlyWordy | COVID_19_biorxiv_scraper/pdf_extractor/paragraphs.py:121-122 | a non-empty text of letters only is kept by the letter test |
| PageLayout.CollapseSpacesShape | COVID_19_biorxiv_scraper/pdf_extractor/paragraphs.py:129 | after `re.sub(r'\s+', ' ', ...)` no two whitespace characters are adjacent, the only whitespace is ' ', every other character is kept, and a second pass changes nothing |
| PageLayout.CollapsePage | COVID_19_biorxiv_scraper/pdf_extractor/paragraphs.py:127-129 | every record keeps its bounding box and gets the collapsed text, in place and in order |
| PageLayout.CollapseAllMembers | COVID_19_biorxiv_scraper/pdf_extractor/paragraphs.py:127-129 | the collapsed page holds exactly the collapsed records of the page |
| PageLayout.CleanPageMembers | COVID_19_biorxiv_scraper/pdf_extractor/paragraphs.py:109-129 | a cleaned page holds exactly the collapsed records of the kept, wordy records |
| PageLayout.CleanPageOrder | COVID_19_biorxiv_scraper/pdf_extractor/paragraphs.py:109-124 | the first two passes together pick the records at strictly increasing positions, exactly those whose text is not dropped and passes the letter test |
| PageLayout.TrueParagraphs | COVID_19_biorxiv_scraper/pdf_extractor/paragraphs.py:102-131 | the clean-up keeps the number of pages |
| PageLayout.TrueParagraphsSurvivors | COVID_19_biorxiv_scraper/pdf_extractor/paragraphs.py:102-131 | a record survives on page i exactly when it is the collapse of a wordy record of page i whose text occurs once in the whole document |
| PageLayout.TrueParagraphsOrder | COVID_19_biorxiv_scraper/pdf_extractor/paragraphs.py:102-131 | page i of the result is, record by record, the collapse of the subsequence of page i at exactly the positions whose text occurs once in the document and passes the letter test, in page order |
| PageLayout.WordyCollapsed | COVID_19_biorxiv_scraper/pdf_extractor/paragraphs.py:122-129 | collapsing the whitespace of a wordy text keeps a letter |
| PageLayout.SurvivorSource | COVID_19_biorxiv_scraper/pdf_extractor/paragraphs.py:109-129 | each survivor comes from a wordy original record of the same page |
| PageLayout.TrueParagraphsTexts | COVID_19_biorxiv_scraper/pdf_extractor/paragraphs.py:115-129 | a surviving text has a letter, has no two adjacent whitespace characters, and has only ' ' as whitespace |
| PageLayout.OccInTwice | COVID_19_biorxiv_scraper/pdf_extractor/paragraphs.py:105-107 | a text repeated on one page is counted at least twice |
| PageLayout.OccurrencesCoverPage | COVID_19_biorxiv_scraper/pdf_extractor/paragraphs.py:105-107 | the document count is at least any page's count |
| PageLayout.OccurrencesCoverTwoPages | COVID_19_biorxiv_scraper/pdf_extractor/paragraphs.py:105-107 | the document count is at least the sum of two pages' counts |
| PageLayout.RepeatedTextDropped | COVID_19_biorxiv_scraper/pdf_extractor/paragraphs.py:104-113 | a text carried by two records, on one page or two, is redundant, and no survivor on any page comes from a record with that text |
| PageLayout.TextHandler.GetTrueParagraphs | COVID_19_biorxiv_scraper/pdf_extractor/paragraphs.py:102-131 | the device's pages are replaced by their cleaned version, which is also returned |
| PageLayout.CleanPages | COVID_19_biorxiv_scraper/pdf_extractor/paragraphs.py:102-131 | the three in-place passes produce the cleaned pages |
| ParagraphAssembly.Trunc | COVID_19_biorxiv_scraper/pdf_extractor/paragraphs.py:148 | `int(y)` truncates toward zero: the floor for non-negative y, the ceiling for negative y |
| ParagraphAssembly.TruncMonotone | COVID_19_biorxiv_scraper/pdf_extractor/paragraphs.py:148 | truncation is monotone |
| ParagraphAssembly.HigherRanksFirst | COVID_19_biorxiv_scraper/pdf_extractor/paragraphs.py:146-148 | a paragraph whose bottom edge is higher on the page never ranks after a lower one |
| ParagraphAssembly.Indention | COVID_19_biorxiv_scraper/pdf_extractor/paragraphs.py:165 | for x0 >= 0 the level is the bucket of width 10 that x0 falls in |
| ParagraphAssembly.WithRank | COVID_19_biorxiv_scraper/pdf_extractor/paragraphs.py:157 | the records of one rank form a subsequence |
| ParagraphAssembly.InsertByRank | COVID_19_biorxiv_scraper/pdf_extractor/paragraphs.py:157 | inserting adds exactly that record |
| ParagraphAssembly.ConsSorted | COVID_19_biorxiv_scraper/pdf_extractor/paragraphs.py:157 | a record of lowest rank in front keeps the order sorted |
| ParagraphAssembly.InsertSorted | COVID_19_biorxiv_scraper/pdf_extractor/paragraphs.py:157 | insertion keeps a sorted page sorted |
| ParagraphAssembly.SortByRank | COVID_19_biorxiv_scraper/pdf_extractor/paragraphs.py:157 | the sorted page is a permutation of the page |
| ParagraphAssembly.SortIsSorted | COVID_19_biorxiv_scraper/pdf_extractor/paragraphs.py:157 | the sorted page is in non-decreasing rank |
| ParagraphAssembly.WithRankCons | COVID_19_biorxiv_scraper/pdf_extractor/paragraphs.py:157 | the records of a rank split over the head and the tail |
| ParagraphAssembly.InsertKeepsRankOrder | COVID_19_biorxiv_scraper/pdf_extractor/paragraphs.py:157 | insertion puts the new record before every record of equal rank, and keeps the records of every other rank as they were |
| ParagraphAssembly.SortedTail | COVID_19_biorxiv_scraper/pdf_extractor/paragraphs.py:157 | the tail of a sorted page is sorted |
| ParagraphAssembly.SortIsStable | COVID_19_biorxiv_scraper/pdf_extractor/paragraphs.py:157 | records of equal rank keep the order the page walk found them in |
| ParagraphAssembly.WithRankMember | COVID_19_biorxiv_scraper/pdf_extractor/paragraphs.py:157 | a record is among those of rank k exactly when it is on the page with rank k |
| ParagraphAssembly.WithRankOfHead | COVID_19_biorxiv_scraper/pdf_extractor/paragraphs.py:157 | the first record's rank has records |
| ParagraphAssembly.StableSortIsUnique | COVID_19_biorxiv_scraper/pdf_extractor/paragraphs.py:157 | two sorted pages with the same records of every rank, in the same order, are equal |
| ParagraphAssembly.SortByRankIsPythonSorted | COVID_19_biorxiv_scraper/pdf_extractor/paragraphs.py:157 | any sorted arrangement that is stable per rank (what Python's `sorted` returns) is the model's sort |
| ParagraphAssembly.PrepareKeepsLetter | COVID_19_biorxiv_scraper/pdf_extractor/paragraphs.py:160-163 | the printable filter and the strip keep every ASCII letter of the text |
| ParagraphAssembly.ShouldJoinWith | COVID_19_biorxiv_scraper/pdf_extractor/paragraphs.py:167-172 | the join test raises IndexError exactly when the previous text is empty, or when it does not end a sentence and the new text is empty; otherwise it joins exactly when the previous text does not end a sentence and the new one does not start uppercase |
| ParagraphAssembly.EndingPatternNeverMatches | COVID_19_biorxiv_scraper/pdf_extractor/paragraphs.py:150-151 | the pattern `!\.\?` never matches a single character |
| ParagraphAssembly.AsWrittenJoinsAfterFullStop | COVID_19_biorxiv_scraper/pdf_extractor/paragraphs.py:150-151 | as written, a paragraph ending in "." is joined with a lowercase continuation; the corrected test does not join them |
| ParagraphAssembly.ShouldJoinRespectsSentences | COVID_19_biorxiv_scraper/pdf_extractor/paragraphs.py:150-151 | with the character class `[.!?]`, text ending a sentence is never joined; otherwise the join depends on the next text's first character |
| ParagraphAssembly.TextsOf | COVID_19_biorxiv_scraper/pdf_extractor/paragraphs.py:170 | one text per output record |
| ParagraphAssembly.PrepareAll | COVID_19_biorxiv_scraper/pdf_extractor/paragraphs.py:158-163 | one prepared text per record |
| ParagraphAssembly.PreparedCount | COVID_19_biorxiv_scraper/pdf_extractor/paragraphs.py:156-163 | as many prepared texts as records on all pages |
| ParagraphAssembly.SameReadingAppend | COVID_19_biorxiv_scraper/pdf_extractor/paragraphs.py:180-188 | appending one text to two outputs that read the same keeps them reading the same |
| ParagraphAssembly.SameReadingStep | COVID_19_biorxiv_scraper/pdf_extractor/paragraphs.py:174-188 | "reads the same" chains through one appended text |
| ParagraphAssembly.ConcatAssoc | COVID_19_biorxiv_scraper/pdf_extractor/paragraphs.py:175 | concatenating outputs is associative |
| ParagraphAssembly.SameReadingTrans | COVID_19_biorxiv_scraper/pdf_extractor/paragraphs.py:174-188 | "reads the same" is transitive |
| ParagraphAssembly.MergeReadsSame | COVID_19_biorxiv_scraper/pdf_extractor/paragraphs.py:175-178 | replacing the last paragraph by `last + ' ' + text` reads the same as keeping both |
| ParagraphAssembly.StepReading | COVID_19_biorxiv_scraper/pdf_extractor/paragraphs.py:158-188 | one step reads as the output before it followed by the prepared text (for any terminator test, the code's included) |
| ParagraphAssembly.StepLength | COVID_19_biorxiv_scraper/pdf_extractor/paragraphs.py:167-188 | one step adds a record, or replaces the last one when it joins (for any terminator test, the code's included) |
| ParagraphAssembly.PageFoldReading | COVID_19_biorxiv_scraper/pdf_extractor/paragraphs.py:157-188 | a page reads as the output before it followed by its prepared texts in sorted order (for any terminator test, the code's included) |
| ParagraphAssembly.PageFoldLength | COVID_19_biorxiv_scraper/pdf_extractor/paragraphs.py:157-188 | a page adds its records, one fewer when its first one is joined (for any terminator test, the code's included) |
| ParagraphAssembly.AssemblyKeepsReading | COVID_19_biorxiv_scraper/pdf_extractor/paragraphs.py:156-190 | the assembled output reads as all prepared texts, page by page in sorted order: stitching only joins neighbours with a space (for any terminator test, the code's included) |
| ParagraphAssembly.SameReadingConcat | COVID_19_biorxiv_scraper/pdf_extractor/paragraphs.py:156-190 | "reads the same" survives appending the same texts |
| ParagraphAssembly.StepNeverRaises | COVID_19_biorxiv_scraper/pdf_extractor/paragraphs.py:167-172 | with non-empty texts so far and a non-empty new text, a step does not raise and keeps all texts non-empty (for any terminator test, the code's included) |
| ParagraphAssembly.PageFoldNeverRaises | COVID_19_biorxiv_scraper/pdf_extractor/paragraphs.py:157-188 | the same for a page of non-empty prepared texts (for any terminator test, the code's included) |
| ParagraphAssembly.AssembleNeverRaises | COVID_19_biorxiv_scraper/pdf_extractor/paragraphs.py:156-190 | the same for a document of non-empty prepared texts (for any terminator test, the code's included) |
| ParagraphAssembly.CleanedPagesNeverRaise | COVID_19_biorxiv_scraper/pdf_extractor/paragraphs.py:115-190 | on pages coming out of `get_true_paragraphs` the assembly never raises, because each kept text has a letter that survives the preparation (for any terminator test, the code's included) |
| ParagraphAssembly.AssembleRaisesIndexError | COVID_19_biorxiv_scraper/pdf_extractor/paragraphs.py:171-172 | the assembly can only raise IndexError (for any terminator test, the code's included) |
| ParagraphAssembly.PageFoldRaisesIndexError | COVID_19_biorxiv_scraper/pdf_extractor/paragraphs.py:171-172 | a page can only raise IndexError (for any terminator test, the code's included) |
| ParagraphAssembly.PageFoldStopsAtFailure | COVID_19_biorxiv_scraper/pdf_extractor/paragraphs.py:157-188 | a failure on a prefix of a page is the failure of the page (for any terminator test, the code's included) |
| ParagraphAssembly.AssembleStopsAtFailure | COVID_19_biorxiv_scraper/pdf_extractor/paragraphs.py:156-190 | a failure on a prefix of the pages is the failure of the whole assembly (for any terminator test, the code's included) |
| ParagraphAssembly.PageFoldSnoc | COVID_19_biorxiv_scraper/pdf_extractor/paragraphs.py:157-188 | one more record of a page is one more step (for any terminator test, the code's included) |
| ParagraphAssembly.AssembleSnoc | COVID_19_biorxiv_scraper/pdf_extractor/paragraphs.py:156-157 | one more page is one more page fold over the sorted page (for any terminator test, the code's included) |
| ParagraphAssembly.PageFailureAborts | COVID_19_biorxiv_scraper/pdf_extractor/paragraphs.py:156-190 | a failing record aborts the whole extraction with that failure (for any terminator test, the code's included) |
| ParagraphAssembly.PageFoldKeepsHead | COVID_19_biorxiv_scraper/pdf_extractor/paragraphs.py:157-188 | after a page's first paragraph the steps only append, so the output after the first step stays a prefix |
| ParagraphAssembly.StepJoinsHead | COVID_19_biorxiv_scraper/pdf_extractor/paragraphs.py:171-178 | when the join test says yes, the first step replaces the last record by `last + ' ' + text`, keeping its indentation |
| ParagraphAssembly.StepKeepsHead | COVID_19_biorxiv_scraper/pdf_extractor/paragraphs.py:171-188 | when the join test says no, the first step keeps every earlier record |
| ParagraphAssembly.PageFoldFirst | COVID_19_biorxiv_scraper/pdf_extractor/paragraphs.py:157-158 | a page's output after its first paragraph is the first step |
| ParagraphAssembly.PageFoldFromHead | COVID_19_biorxiv_scraper/pdf_extractor/paragraphs.py:157-188 | once the first step succeeds, the page succeeds and extends that step's output |
| ParagraphAssembly.AsWrittenJoinsAcrossPages | COVID_19_biorxiv_scraper/pdf_extractor/paragraphs.py:150-151 | with the code's test, a non-empty last record is joined with the next page's first text whenever that text does not start with a capital, whatever character ends the record |
| ParagraphAssembly.AsWrittenPageJoins | COVID_19_biorxiv_scraper/pdf_extractor/paragraphs.py:150-151 | as written, a page whose first prepared text is non-empty and does not start with a capital continues the previous non-empty record with it, whatever that record ends with |
| ParagraphAssembly.IntendedKeepsSentencesApart | COVID_19_biorxiv_scraper/pdf_extractor/paragraphs.py:150-151 | with the intended test, a record that ends a sentence is kept: the next page does not raise and only appends records |
| ParagraphAssembly.StitchOne | COVID_19_biorxiv_scraper/pdf_extractor/paragraphs.py:158-188 | the loop body: prepare, indent, possibly delete the last paragraph and join, then append; the record gets the current page and bbox and, when joined, the previous indentation, all with the code's terminator test |
| ParagraphAssembly.StitchPages | COVID_19_biorxiv_scraper/pdf_extractor/paragraphs.py:153-190 | the nested loops compute the assembly of all pages, with the code's terminator test |
| ParagraphAssembly.ExtractParagraphs | COVID_19_biorxiv_scraper/pdf_extractor/paragraphs.py:134-190 | cleans the device's pages and assembles them into records or plain texts; on a device's pages it always succeeds, with the code's terminator test |
| JobScheduler.RegistryPeriodsPositive | job.py:32-40 | the registry has seven jobs, all with positive periods |
| JobScheduler.Scheduler.constructor | job.py:65-71 | copies of the periods, every countdown at its period, no job running |
| JobScheduler.Scheduler.ResetJob | job.py:80-82 | a known job's countdown restarts at its period; an unknown name raises KeyError and changes nothing |
| JobScheduler.Scheduler.PollJobs | job.py:73-78 | exactly the entries whose thread is no longer alive are cleared |
| JobScheduler.Scheduler.Tick | job.py:89-105 | one pass: countdowns become the next timer, runs the next running map, the started jobs are returned, and with positive periods every countdown ends at least 1 |
| JobScheduler.PollClearsExactlyFinished | job.py:73-78 | an entry becomes None exactly when it was None or its thread ended; other entries stay |
| JobScheduler.NoDoubleStart | job.py:95-103 | a job whose thread is alive is never started again; a started job is due and had no live thread |
| JobScheduler.DueJobsRescheduled | job.py:90-105 | a due job gets its full period back, started or skipped; any other countdown keeps its decremented value |
| JobScheduler.TimersStayPositive | job.py:90-105 | with positive periods every countdown is at least 1 after a tick |
| JobScheduler.TickKeepsKeys | job.py:90-105 | a tick changes no key set |
| JobScheduler.DecrementAll | job.py:90-91 | every countdown drops by exactly one |
| JobScheduler.PollAll | job.py:74-78 | the poll loop computes the polled map |
| JobScheduler.DueNow | job.py:95 | `execution` holds exactly the jobs whose countdown is at most zero |
| JobScheduler.RescheduleStep | job.py:105 | handling a due job resets exactly its countdown |
| JobScheduler.LaunchStep | job.py:96-103 | handling a due job starts it exactly when it is not running |
| JobScheduler.NothingDoneYet | job.py:96 | before the loop nothing has changed |
| JobScheduler.WholeStep | job.py:96-105 | after all due jobs, the state is the rescheduled and launched one |
| JobScheduler.RunDue | job.py:96-105 | the execution loop reschedules every due job and starts exactly the due jobs that are not running |
| BaseSpider.GetCol | covidscholar_scraper/spiders/_base.py:134-137 | a collection is used as given; a name is looked up, with KeyError when it is missing |
| BaseSpider.SplitMeta | covidscholar_scraper/spiders/_base.py:82-86 | the key loop raises IndexError exactly when there is an empty key; otherwise it splits the article into the non-lowercase fields and the lowercase ones |
| BaseSpider.SaveArticle | covidscholar_scraper/spiders/_base.py:73-90 | fails exactly on an empty key (IndexError) or an unknown collection (KeyError); otherwise inserts the shaped document into the collection `get_col` chose |
| BaseSpider.ShapedMovesLowercaseKeys | covidscholar_scraper/spiders/_base.py:82-88 | the document has the non-lowercase keys plus `_scrapy_meta` and `last_updated`; every lowercase key moves under `_scrapy_meta` with its value, and every other key keeps its value |
| BaseSpider.ShapedFailsOnEmptyKey | covidscholar_scraper/spiders/_base.py:84 | shaping raises exactly on an empty key, and raises IndexError |
| BaseSpider.MetaAndTopPartition | covidscholar_scraper/spiders/_base.py:82-86 | the metadata and the top-level fields are disjoint and together make up the article |
| BaseSpider.HasDuplicate | covidscholar_scraper/spiders/_base.py:121-132 | False for no results; otherwise True exactly when some result satisfies the comparator (any does without one) and None otherwise; truthy exactly when some result matches |
| VersionTracker.LastTwo | covidscholar_scraper/spiders/biorxiv_version_tracker.py:45 | `[-2:]` takes the last two items, or all of fewer |
| VersionTracker.JoinAvoids | covidscholar_scraper/spiders/biorxiv_version_tracker.py:45 | joining parts that lack a character, with another separator, gives a string without it |
| VersionTracker.JoinSuffix | covidscholar_scraper/spiders/biorxiv_version_tracker.py:45 | a join ends with the join of any suffix of the parts |
| VersionTracker.BeforeQueryShape | covidscholar_scraper/spiders/biorxiv_version_tracker.py:45 | `u.split('?')[0]` is a prefix of u without '?' |
| VersionTracker.LastSegmentsShape | covidscholar_scraper/spiders/biorxiv_version_tracker.py:45 | the result is a suffix of the path with at most one '/' |
| VersionTracker.LastSegmentsAvoid | covidscholar_scraper/spiders/biorxiv_version_tracker.py:45 | the last segments add no character the path lacks |
| VersionTracker.UrlToDoiShape | covidscholar_scraper/spiders/biorxiv_version_tracker.py:44-45 | the DOI is a suffix of the part before the query, with no '?' and at most one '/' |
| VersionTracker.SplitKeepsOut | covidscholar_scraper/spiders/biorxiv_version_tracker.py:45 | splitting adds no character |
| VersionTracker.JoinPrefix | covidscholar_scraper/spiders/biorxiv_version_tracker.py:45 | a join begins with its first part |
| VersionTracker.SplitAppend | covidscholar_scraper/spiders/biorxiv_version_tracker.py:45 | splitting at a separator splits the two sides |
| VersionTracker.LastTwoOfPath | covidscholar_scraper/spiders/biorxiv_version_tracker.py:45 | `path/a/b` ends in the segments a and b |
| VersionTracker.UrlToDoiTakesLastTwoSegments | covidscholar_scraper/spiders/biorxiv_version_tracker.py:44-45 | `url_to_doi` of `path/a/b`, with or without a query, is `a/b` |
| VersionTracker.VersionNumber | covidscholar_scraper/spiders/biorxiv_version_tracker.py:57 | a non-numeric version suffix raises ValueError |
| VersionTracker.SelectFindsFirstMaximum | covidscholar_scraper/spiders/biorxiv_version_tracker.py:54-59 | when every number parses, the loop ends on None if no listed version beats the stored one, and otherwise on the first listed version with the greatest number, which beats the stored one |
| VersionTracker.SelectFailsIff | covidscholar_scraper/spiders/biorxiv_version_tracker.py:56-57 | the loop fails exactly when there is a listed version and some number does not parse; the failure is the parser's |
| VersionTracker.SelectFoldFailsIff | covidscholar_scraper/spiders/biorxiv_version_tracker.py:56-57 | with the tracker's parser that failure is ValueError |
| VersionTracker.SelectSnoc | covidscholar_scraper/spiders/biorxiv_version_tracker.py:56-59 | one more listed version is one more pass of the comparison |
| VersionTracker.SelectNewVersion | covidscholar_scraper/spiders/biorxiv_version_tracker.py:52-59 | the loop computes the newer version's URL, if any |
| VersionTracker.SelectStops | covidscholar_scraper/spiders/biorxiv_version_tracker.py:56-57 | if the comparison loop has already raised on the first k listed versions (an `int()` of a suffix failed), then running it over the whole listing gives that same failure: the exception at line 57 ends the loop, so the later versions are never read and cannot change the outcome |
| VersionTracker.Site | covidscholar_scraper/spiders/biorxiv_version_tracker.py:62 | 'biorxiv' exactly when 'biorxiv.org' is in the URL, else 'medrxiv' |
| VersionTracker.TestNewVersions | covidscholar_scraper/spiders/biorxiv_version_tracker.py:43-72 | fails exactly when the selection fails; no job without a newer version; otherwise the job carries the chosen URL, its site as site and journal, and the stored DOI, date and origin |
| VersionTracker.PerDoiKeys | covidscholar_scraper/spiders/biorxiv_version_tracker.py:25-35 | `per_doi` has exactly the untracked DOIs of the stored documents |
| VersionTracker.KeptAfterOlder | covidscholar_scraper/spiders/biorxiv_version_tracker.py:30-33 | a later document that is not strictly newer keeps the kept entry |
| VersionTracker.NewerReplaces | covidscholar_scraper/spiders/biorxiv_version_tracker.py:35 | a document strictly newer than all earlier ones with its DOI becomes the entry |
| VersionTracker.PerDoiKeepsLatest | covidscholar_scraper/spiders/biorxiv_version_tracker.py:30-35 | each DOI's entry is its latest document, the first one on ties |
| VersionTracker.LatestPerDoi | covidscholar_scraper/spiders/biorxiv_version_tracker.py:23-35 | the loop builds `per_doi` |
| VersionTracker.RequestsPerDoi | covidscholar_scraper/spiders/biorxiv_version_tracker.py:37-41 | one request per kept DOI, for its document's versions page |
| VersionTracker.UntrackedDocuments | COVID_19_biorxiv_scraper/spiders/biorxiv_version_tracker.py:42-48 | a document is requested exactly when its DOI is not tracked |
| VersionTracker.UntrackedKeepsOrder | COVID_19_biorxiv_scraper/spiders/biorxiv_version_tracker.py:42-48 | the requests follow the stored order: those for two runs of documents are the first run's followed by the second's |
| Chictr.RowsOf | covidscholar_scraper/spiders/chictr.py:107-112 | `cells` holds each row's cells, row by row |
| Chictr.Rowspan | covidscholar_scraper/spiders/chictr.py:118-119 | a rowspan that is not a number raises ValueError |
| Chictr.InsertAt | covidscholar_scraper/spiders/chictr.py:122 | `list.insert` adds exactly the cell, at the index or at the end when the index is past it |
| Chictr.SpanDown | covidscholar_scraper/spiders/chictr.py:121-122 | the expansion touches only the rows it spans |
| Chictr.SpanDownEffect | covidscholar_scraper/spiders/chictr.py:121-122 | the cell is inserted at column j into exactly the rows it spans; IndexError exactly when those rows run past the table |
| Chictr.FixCell | covidscholar_scraper/spiders/chictr.py:117-123 | a cell changes no row at or above its own |
| Chictr.FixRow | covidscholar_scraper/spiders/chictr.py:117-123 | a row's pass changes no row at or above it |
| Chictr.FixRows | covidscholar_scraper/spiders/chictr.py:116-123 | the fix from row i on changes no row above i |
| Chictr.FixCellOnce | covidscholar_scraper/spiders/chictr.py:120-123 | a processed cell is never expanded again; an expanded cell is added to `processed`, which only grows |
| Chictr.FixCellEffect | covidscholar_scraper/spiders/chictr.py:118-123 | a bad rowspan raises ValueError; a new spanning cell reaching past the end raises IndexError; otherwise exactly the rows below it that it spans get it |
| Chictr.SpanDownKeepsCells | covidscholar_scraper/spiders/chictr.py:121-122 | the expansion only copies cells of the body |
| Chictr.FixRowKeepsCells | covidscholar_scraper/spiders/chictr.py:117-123 | a row's pass only copies cells of the body |
| Chictr.FixRowsKeepsCells | covidscholar_scraper/spiders/chictr.py:116-123 | the fix only copies cells of the body |
| Chictr.FixedKeepsCells | covidscholar_scraper/spiders/chictr.py:114-123 | every cell of the fixed rows comes from the body |
| Chictr.FixRowStep | covidscholar_scraper/spiders/chictr.py:117-123 | one inner pass, then the rest of the row |
| Chictr.FixRowDone | covidscholar_scraper/spiders/chictr.py:116-117 | a finished row passes on to the next |
| Chictr.FixRowsStep | covidscholar_scraper/spiders/chictr.py:116-117 | the outer loop starts a row at column 0 |
| Chictr.RowFailureIsFinal | covidscholar_scraper/spiders/chictr.py:116-123 | a failure inside a row is the failure of the whole fix |
| Chictr.ExpandCell | covidscholar_scraper/spiders/chictr.py:121-122 | the `range(1, rowspan)` loop is the expansion |
| Chictr.FixRowspans | covidscholar_scraper/spiders/chictr.py:114-123 | the nested loops over `cells`, with the `processed` set, compute the fixed rows or the error |
| Chictr.NormTitleShape | covidscholar_scraper/spiders/chictr.py:91 | a normalised title has no '$' or '.', no two adjacent separators, and every other character of the raw title except '：' |
| Chictr.NestedKeyRecoversTitle | covidscholar_scraper/spiders/chictr.py:98 | the title of a nested key is everything before its first '$' |
| Chictr.FirstSeparator | covidscholar_scraper/spiders/chictr.py:98 | the first '$' of `title$$k` follows the title |
| Chictr.CellValue | covidscholar_scraper/spiders/chictr.py:100-101 | a non-empty English text is the value, else the plain text (Python's `or`) |
| Chictr.RenderAll | covidscholar_scraper/spiders/chictr.py:91-103 | each entry is rendered as its normalised key and stripped value |
| Chictr.NestedKeyNamesTitle | covidscholar_scraper/spiders/chictr.py:94-98 | a nested entry's key names the row's normalised title before its first '$' |
| Chictr.PlainEntries | covidscholar_scraper/spiders/chictr.py:99-103 | a value cell without tables yields one entry exactly when it has text |
| Chictr.Prefixed | covidscholar_scraper/spiders/chictr.py:96-98 | every nested entry is put under the row's title |
| Chictr.NestedKeysPrefixed | covidscholar_scraper/spiders/chictr.py:94-98 | every entry of a cell with tables is keyed under the row's title |
| Chictr.FlatValue | covidscholar_scraper/spiders/chictr.py:93-103 | in a flat row a titled pair yields its plain entry |
| Chictr.FlatRowFails | covidscholar_scraper/spiders/chictr.py:86-93 | a flat row raises IndexError exactly when a titled cell is in the last position of an odd-length row |
| Chictr.FlatRowEntries | covidscholar_scraper/spiders/chictr.py:85-103 | a flat row that does not raise yields its entries read off by position |
| Chictr.FlatEntriesMembers | covidscholar_scraper/spiders/chictr.py:86-103 | those entries are exactly the titled even positions whose next cell has text |
| Chictr.ToInfoLastWins | covidscholar_scraper/spiders/chictr.py:128-131 | a key is in `info` exactly when some entry has it, and it holds the last such entry's value |
| Chictr.ToInfoAppend | covidscholar_scraper/spiders/chictr.py:131 | one more entry is one more assignment |
| Chictr.AllPairsStops | covidscholar_scraper/spiders/chictr.py:129-131 | a table that fails makes the whole loop fail |
| Chictr.AssignAll | covidscholar_scraper/spiders/chictr.py:130-131 | assigning a table's entries in order |
| Chictr.BuildInfo | covidscholar_scraper/spiders/chictr.py:128-131 | the loop computes `info` over all tables, or the first error |
| Chictr.ParseHistory | covidscholar_scraper/spiders/chictr.py:48-82 | a request exists exactly when there is a data row after the header and its version is not stored yet; it is for that first data row |
| PublicHealthOntario.WordChars | covidscholar_scraper/spiders/publichealthontario.py:59 | removing `[^\w]+` keeps exactly the word characters, in order |
| PublicHealthOntario.WordCharsAppend | covidscholar_scraper/spiders/publichealthontario.py:59 | the removal works piecewise |
| PublicHealthOntario.NoWordChars | covidscholar_scraper/spiders/publichealthontario.py:59 | a string of non-word characters vanishes |
| PublicHealthOntario.SectionNameIgnoresPunctuation | covidscholar_scraper/spiders/publichealthontario.py:59 | punctuation and spaces around a name do not change whether it names the abstract |
| PublicHealthOntario.Strings | covidscholar_scraper/spiders/publichealthontario.py:60 | the string children are exactly the string items |
| PublicHealthOntario.StringChildren | covidscholar_scraper/spiders/publichealthontario.py:60 | a non-iterable content raises TypeError; a list gives its string items |
| PublicHealthOntario.FindSection | covidscholar_scraper/spiders/publichealthontario.py:57-72 | the search fails only with TypeError |
| PublicHealthOntario.FirstFound | covidscholar_scraper/spiders/publichealthontario.py:62-70 | the loop fails only with TypeError |
| PublicHealthOntario.FindAbstract | covidscholar_scraper/spiders/publichealthontario.py:74-77 | every string returned is a string child of an abstract section of the tree; failures are TypeError |
| PublicHealthOntario.FirstDecisive | covidscholar_scraper/spiders/publichealthontario.py:63-72 | the first decisive outcome, or the empty list when there is none |
| PublicHealthOntario.FirstDecisiveAppend | covidscholar_scraper/spiders/publichealthontario.py:62-70 | searching two runs of outcomes tries the first run, then the second |
| PublicHealthOntario.FindSectionIsFirstDecisive | covidscholar_scraper/spiders/publichealthontario.py:57-72 | the search returns the first non-empty result or error of a depth-first, left-to-right walk over the abstract sections |
| PublicHealthOntario.FirstFoundIsFirstDecisive | covidscholar_scraper/spiders/publichealthontario.py:62-70 | the loop over items returns the first decisive outcome among them |
| PublicHealthOntario.EmptyMatchContinues | covidscholar_scraper/spiders/publichealthontario.py:62-70 | an abstract section with no string children does not stop the search among its siblings |
| PublicHealthOntario.FirstFoundShift | covidscholar_scraper/spiders/publichealthontario.py:67-70 | the loop from item k is the loop over the tail from k-1 |
| PublicHealthOntario.FoundOnlyInAbstracts | covidscholar_scraper/spiders/publichealthontario.py:57-72 | everything found is a string child of an abstract section |
| PublicHealthOntario.NoAbstractFindsNothing | covidscholar_scraper/spiders/publichealthontario.py:72 | a tree with no reachable abstract section gives the empty list |
| PublicHealthOntario.Sanitized | covidscholar_scraper/spiders/publichealthontario.py:45 | every character that is not ASCII alphanumeric becomes '-', position by position |
| PublicHealthOntario.PdfFileName | covidscholar_scraper/spiders/publichealthontario.py:45 | the name is the title's length plus 4, ends in ".pdf", and has only alphanumerics and '-' before it |
| PublicHealthOntario.SanitizedIdempotent | covidscholar_scraper/spiders/publichealthontario.py:45 | sanitising twice is sanitising once; titles alike in every alphanumeric position give the same file name |
| PublicHealthOntario.StrLessTrichotomy | COVID_19_biorxiv_scraper/spiders/publichealthontario.py:151 | Python's string order is irreflexive, asymmetric and total |
| PublicHealthOntario.StrLessTransitive | COVID_19_biorxiv_scraper/spiders/publichealthontario.py:151 | Python's string order is transitive |
| PublicHealthOntario.ShouldSkip | COVID_19_biorxiv_scraper/spiders/publichealthontario.py:150-152 | no synopsis skips; no stored item processes; comparing with a missing date raises TypeError |
| PublicHealthOntario.ProcessedOnlyWhenNewer | COVID_19_biorxiv_scraper/spiders/publichealthontario.py:151 | a listed row is processed exactly when the stored date is lexicographically smaller than the new one; an equal date is skipped |
| BiorxivMeta.SplitStripped | covidscholar_scraper/spiders/biorxiv.py:193-197 | without a space the strict split raises ValueError and the fallback gives ('', name); with one, fn + ' ' + ln is the name and ln has no space |
| BiorxivMeta.SplitNameRoundTrip | covidscholar_scraper/spiders/biorxiv.py:193-197 | first and last name put back together give the stripped content |
| BiorxivMeta.AfterTag | covidscholar_scraper/spiders/biorxiv.py:203 | `name[len('citation_author'):]` is what follows the tag |
| BiorxivMeta.AttrKey | covidscholar_scraper/spiders/biorxiv.py:203 | the key is no longer than the suffix |
| BiorxivMeta.AttrKeyOfSuffix | covidscholar_scraper/spiders/biorxiv.py:203 | `citation_author_s` gives the key `s.capitalize()` |
| BiorxivMeta.Zip | covidscholar_scraper/spiders/biorxiv.py:188-190 | `zip` pairs names and contents and stops at the shorter list |
| BiorxivMeta.AddValue | covidscholar_scraper/spiders/biorxiv.py:204-206 | the value is appended to the key's list, created empty if new, and nothing else changes; the key 'Name' raises AttributeError |
| BiorxivMeta.AggregateAuthors | covidscholar_scraper/spiders/biorxiv.py:187-207 | the loop computes the authors of the zipped metas |
| BiorxivMeta.AuthorsSnoc | covidscholar_scraper/spiders/biorxiv.py:188-206 | one more meta is one more step |
| BiorxivMeta.AuthorsStops | covidscholar_scraper/spiders/biorxiv.py:188-206 | a failure part-way is the failure of the loop |
| BiorxivMeta.AttributeFirstFails | covidscholar_scraper/spiders/biorxiv.py:204 | an attribute before any author raises IndexError |
| BiorxivMeta.AuthorCount | covidscholar_scraper/spiders/biorxiv.py:191 | at most one author per meta |
| BiorxivMeta.OneAuthorPerTag | covidscholar_scraper/spiders/biorxiv.py:191-200 | there is exactly one author per `citation_author` meta |
| BiorxivMeta.GatheredSnoc | covidscholar_scraper/spiders/biorxiv.py:204-206 | the values gathered per key grow by the last meta's value |
| BiorxivMeta.StepAdds | covidscholar_scraper/spiders/biorxiv.py:201-206 | an attribute meta adds its value to the last author only |
| BiorxivMeta.CollectsSnoc | covidscholar_scraper/spiders/biorxiv.py:201-206 | an author collects its block's values key by key, in order |
| BiorxivMeta.AuthorBlock | covidscholar_scraper/spiders/biorxiv.py:191-206 | an author meta followed by attribute metas appends exactly one author, with the split name and each attribute's values in order; earlier authors are unchanged |
| BiorxivMeta.Doi | covidscholar_scraper/spiders/biorxiv.py:127 | the lowercased DOI keeps its length, has no uppercase ASCII letter, and is its own lowercase |
| BiorxivMeta.SubjectAreasMembers | covidscholar_scraper/spiders/biorxiv.py:216-222 | the subject areas are exactly the non-empty stripped texts |
| BiorxivMeta.SubjectAreasStripped | covidscholar_scraper/spiders/biorxiv.py:216-222 | every subject area is already stripped |
| PyStrings.CollapseRunsIdempotent | COVID_19_biorxiv_scraper/pdf_extractor/paragraphs.py:129 | collapsing runs twice is collapsing once |
| PyStrings.StripCharsIdempotent | covidscholar_scraper/spiders/chictr.py:91 | stripping twice is stripping once |
| PyStrings.SplitJoin | covidscholar_scraper/spiders/biorxiv_version_tracker.py:45 | splitting the join of parts without the separator gives the parts back |
| PyStrings.ParseIntOfNatToString | covidscholar_scraper/spiders/biorxiv_version_tracker.py:57 | `int(str(n))` is n for every natural n |

## Left out

- Floating point: coordinates, margins and versions are `real`. The model has no rounding, infinities or NaN. `int()` on a float is modelled as truncation toward zero.
- pdfminer is not part of this model. The following are parameters or stand-ins:
  - `Plane.find_neighbors` is a function parameter from a line and a margin to neighbour indices;
  - `is_empty` is taken as a union box of zero width or height;
  - `LAParams` validation is not modelled;
  - the page tree is a datatype of text boxes, containers and other items;
  - PDF parsing and `process_page` are not modelled.
- `LineGrouping.GroupTextlines`: pdfminer's `LTTextBox` is identified by its position in an arena. The model does not capture object identity beyond that.
- I/O is outside the model:
  - MongoDB, GridFS and Scrapy requests;
  - the spiders' xpath/BeautifulSoup/regex extraction of strings;
  - threads (`Thread`, `os.system`, `join`), `time.sleep`, `install_pip` and the command-line entry points.
  - Thread liveness, query results and the current time are inputs.
- Character classes are ASCII only: `str.lower`, `isupper`, `capitalize` and `\w` are modelled for ASCII, and `int()` (`PyStrings.ParseInt`, used for version suffixes and rowspans) accepts only ASCII digits where Python also accepts other Unicode decimal digits. `\s` and `strip()` use Python's whitespace set.
- Dictionary order: Python dicts iterate in insertion order. The model uses `map` and `set` for dicts and stores them without their key order. This is visible in stored documents in three places:
  - an author's `attrs` (`BiorxivMeta.Author`), whose keys the code inserts after `Name`, in the order the `citation_author_…` meta tags appear;
  - the `info` dict of a registry entry (`Chictr.ToInfo`), whose keys follow the table rows;
  - the shaped article of `BaseSpider.Shaped`, whose `_scrapy_meta` and top-level keys follow the order in which the code moves them.
  For `per_doi` the requests are the map that `VersionTracker.RequestsPerDoi` returns, without their order.
- `BaseSpider.SaveArticle` and `BaseSpider.SplitMeta`: on an empty key Python has already moved some keys before raising. The model returns only the error, not the partly changed article.
- `Chictr.BuildInfo`: `parse_table` is a generator, so `info` is partly filled when a later row raises. The model returns only the error.
- `Chictr.ParseHistory`: each history row is taken as already read. Reading a row involves `float()`, `strptime`, `re.search` and `urljoin`, which are not modelled; the request's URL is the detail link itself.
- `VersionTracker.TestNewVersions`: `urljoin` of the listed links is not modelled; the listed URLs are taken as absolute.
- `PublicHealthOntario.FindSection`:
  - a section dictionary is taken to have exactly the keys `name` and `content`. A missing key (KeyError) and a non-string name are not modelled;
  - iterating a section as content gives those two keys;
  - `find_abstract_by_parsing`'s HTML extraction (`extract_paragraphs_recursive`) is not part of this model.
- `BiorxivMeta.AuthorBlock`, `BiorxivMeta.OneAuthorPerTag`, `VersionTracker.SelectFindsFirstMaximum`, `Chictr.FixCellEffect` and other lemmas are stated over a parameter:
  - a name splitter and key function for the authors;
  - a DOI and number reader for the versions;
  - a rowspan reader for the cells.
  - The concrete members instantiate it with the modelled Python functions (`AuthorsOf`, `SelectFold`, `Fixed`). So their statements hold for the code as a special case.
- `Chictr`: entries are built from raw titles and cells and rendered to key/value strings afterwards. This is the same result as normalising while parsing, because the normalisation is applied once to each raw title.
- `Chictr.FixRowspans`: the `processed` set holds cell identities. The model does not state a global count of expansions over a whole table; `Chictr.FixCellOnce` states the per-cell rule.
- `Chictr.FixRowspans`: a cell's identity is the `id` the selection gives it. The model does not require distinct selected cells to carry distinct ids. If two cells of a body share an id, the model treats the second as already processed, where Python would expand it too.
- The version tracker's `logger`, Sentry scopes and the insertion of the new job are not modelled; `VersionTracker.TestNewVersions` returns the job.
- The deadline wrapper `extract_paragraphs_pdf_timeout` is not part of this model: its source is not in the repository files modelled, and it relies on signals or threads.

## Findings

| source | as written | input that shows it | evidently intended | confidence | as-written member | corrected member |
|---|---|---|---|---|---|---|
| COVID_19_biorxiv_scraper/pdf_extractor/paragraphs.py:150-151 | `re.match(r'!\.\?', c)` needs the three characters `!.?` in a row, so it never matches the single character it is given and `is_ending_char` is always false | a page whose last paragraph is "as shown in Table 2." followed by a page starting "the cohort was": they are joined across the sentence end | a character class `[.!?]`, so that a paragraph ending a sentence is never joined to the next page | not executed | ParagraphAssembly.AsWrittenJoinsAcrossPages | ParagraphAssembly.IntendedKeepsSentencesApart |
