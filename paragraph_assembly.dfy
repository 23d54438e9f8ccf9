/** The last stage of the PDF paragraph extractor: the cleaned pages of
    paragraphs are put in reading order, their texts normalised, and the
    first paragraph of each page is stitched onto the last paragraph of the
    previous page when the two evidently form one sentence. */
module ParagraphAssembly {
  import opened Wrappers
  import opened PyStrings
  import LG = LineGrouping
  import PL = PageLayout

  type Paragraph = PL.Paragraph

  /** One entry of the dictionaries returned with `return_dicts=True`. */
  datatype ParagraphRecord = ParagraphRecord(
    text: string, pageNum: nat, indentionLevel: int, bbox: LG.BBox)

  /** What `extract_paragraphs_pdf` returns: dictionaries or plain texts. */
  datatype Output = Records(records: seq<ParagraphRecord>) | Texts(texts: seq<string>)

  // ---------------------------------------------------------------------
  // int() on floats, ranks and indentation
  // ---------------------------------------------------------------------

  /** Python's `int(x)` on a float: truncation toward zero. */
  function Trunc(x: real): (r: int)
    ensures x >= 0.0 ==> 0 <= r && r as real <= x < r as real + 1.0
    ensures x < 0.0 ==> r <= 0 && r as real - 1.0 < x <= r as real
  {
    if x >= 0.0 then x.Floor else -((-x).Floor)
  }

  lemma TruncMonotone(x: real, y: real)
    requires x <= y
    ensures Trunc(x) <= Trunc(y)
  {
  }

  /** `paragraph_pos_rank`: the negated bottom edge, truncated. */
  function PosRank(p: Paragraph): int { Trunc(-p.bbox.y0) }

  /** A paragraph lower on the page never ranks before a higher one. */
  lemma HigherRanksFirst(p: Paragraph, q: Paragraph)
    requires p.bbox.y0 >= q.bbox.y0
    ensures PosRank(p) <= PosRank(q)
  {
    TruncMonotone(-p.bbox.y0, -q.bbox.y0);
  }

  /** `int(bbox[0] / 10)`: the left edge in buckets of ten units. */
  function Indention(b: LG.BBox): (r: int)
    ensures b.x0 >= 0.0 ==> 0 <= 10 * r && 10.0 * r as real <= b.x0 < 10.0 * r as real + 10.0
  {
    Trunc(b.x0 / 10.0)
  }

  // ---------------------------------------------------------------------
  // sorted(page, key=paragraph_pos_rank)
  // ---------------------------------------------------------------------

  predicate SortedByRank(s: seq<Paragraph>) {
    forall i, j :: 0 <= i < j < |s| ==> PosRank(s[i]) <= PosRank(s[j])
  }

  /** The paragraphs of `s` whose rank is `k`, in their order in `s`. */
  function WithRank(s: seq<Paragraph>, k: int): (r: seq<Paragraph>)
    ensures |r| <= |s|
  {
    if s == [] then []
    else (if PosRank(s[0]) == k then [s[0]] else []) + WithRank(s[1..], k)
  }

  /** Inserts `x` before the first element whose rank is at least its own. */
  function InsertByRank(x: Paragraph, s: seq<Paragraph>): (r: seq<Paragraph>)
    ensures multiset(r) == multiset(s) + multiset{x}
  {
    if s == [] then [x]
    else if PosRank(x) <= PosRank(s[0]) then [x] + s
    else
      assert s == [s[0]] + s[1..];
      [s[0]] + InsertByRank(x, s[1..])
  }

  lemma ConsSorted(h: Paragraph, t: seq<Paragraph>)
    requires SortedByRank(t)
    requires forall y :: y in t ==> PosRank(h) <= PosRank(y)
    ensures SortedByRank([h] + t)
  {
    var r := [h] + t;
    forall i, j | 0 <= i < j < |r| ensures PosRank(r[i]) <= PosRank(r[j]) {
      assert r[j] == t[j - 1];
      if i > 0 {
        assert r[i] == t[i - 1];
      }
    }
  }

  lemma {:induction false} InsertSorted(x: Paragraph, s: seq<Paragraph>)
    requires SortedByRank(s)
    ensures SortedByRank(InsertByRank(x, s))
    decreases |s|
  {
    if s == [] {
    } else if PosRank(x) <= PosRank(s[0]) {
      forall y | y in s ensures PosRank(x) <= PosRank(y) {
        var i :| 0 <= i < |s| && s[i] == y;
      }
      ConsSorted(x, s);
    } else {
      var t := InsertByRank(x, s[1..]);
      InsertSorted(x, s[1..]);
      forall y | y in t ensures PosRank(s[0]) <= PosRank(y) {
        assert y in multiset(t);
        if y != x {
          assert y in s[1..];
          var i :| 0 <= i < |s[1..]| && s[1..][i] == y;
          assert s[i + 1] == y;
        }
      }
      ConsSorted(s[0], t);
    }
  }

  /** Python's `sorted` with a key: a stable sort by rank. */
  function SortByRank(s: seq<Paragraph>): (r: seq<Paragraph>)
    ensures multiset(r) == multiset(s)
    ensures |r| == |s|
  {
    if s == [] then []
    else
      assert s == [s[0]] + s[1..];
      InsertByRank(s[0], SortByRank(s[1..]))
  }

  lemma {:induction false} SortIsSorted(s: seq<Paragraph>)
    ensures SortedByRank(SortByRank(s))
    decreases |s|
  {
    if s != [] {
      SortIsSorted(s[1..]);
      InsertSorted(s[0], SortByRank(s[1..]));
    }
  }

  lemma WithRankCons(h: Paragraph, t: seq<Paragraph>, k: int)
    ensures WithRank([h] + t, k) == (if PosRank(h) == k then [h] else []) + WithRank(t, k)
  {
    assert ([h] + t)[1..] == t;
  }

  lemma {:induction false} InsertKeepsRankOrder(x: Paragraph, s: seq<Paragraph>, k: int)
    requires SortedByRank(s)
    ensures WithRank(InsertByRank(x, s), k) ==
            (if PosRank(x) == k then [x] else []) + WithRank(s, k)
    decreases |s|
  {
    if s == [] || PosRank(x) <= PosRank(s[0]) {
      WithRankCons(x, s, k);
    } else {
      SortedTail(s);
      InsertKeepsRankOrder(x, s[1..], k);
      assert InsertByRank(x, s) == [s[0]] + InsertByRank(x, s[1..]);
      WithRankCons(s[0], InsertByRank(x, s[1..]), k);
      WithRankCons(s[0], s[1..], k);
      assert [s[0]] + s[1..] == s;
      SwapFronts(if PosRank(s[0]) == k then [s[0]] else [], if PosRank(x) == k then [x] else [], WithRank(s[1..], k));
    }
  }

  /** Two fronts commute when one of them is empty. */
  lemma SwapFronts<T>(a: seq<T>, b: seq<T>, w: seq<T>)
    requires a == [] || b == []
    ensures a + (b + w) == b + (a + w)
  {
    if a == [] {
      assert a + (b + w) == b + w == b + (a + w);
    } else {
      assert a + (b + w) == a + w == b + (a + w);
    }
  }

  lemma SortedTail(s: seq<Paragraph>)
    requires s != [] && SortedByRank(s)
    ensures SortedByRank(s[1..])
  {
    forall i, j | 0 <= i < j < |s| - 1 ensures PosRank(s[1..][i]) <= PosRank(s[1..][j]) {
      assert s[1..][i] == s[i + 1] && s[1..][j] == s[j + 1];
    }
  }

  /** Stability: among paragraphs of equal rank the input order is kept. */
  lemma {:induction false} SortIsStable(s: seq<Paragraph>, k: int)
    ensures WithRank(SortByRank(s), k) == WithRank(s, k)
    decreases |s|
  {
    if s != [] {
      SortIsStable(s[1..], k);
      SortIsSorted(s[1..]);
      InsertKeepsRankOrder(s[0], SortByRank(s[1..]), k);
    }
  }

  lemma WithRankMember(s: seq<Paragraph>, k: int, y: Paragraph)
    ensures y in WithRank(s, k) <==> y in s && PosRank(y) == k
  {
  }

  lemma WithRankOfHead(s: seq<Paragraph>)
    requires s != []
    ensures WithRank(s, PosRank(s[0])) != []
  {
  }

  /** A sorted sequence and a stable reordering of it are one and the same:
      so any stable sort by this key (Python's included) gives `SortByRank`. */
  lemma {:induction false} StableSortIsUnique(a: seq<Paragraph>, b: seq<Paragraph>)
    requires SortedByRank(a) && SortedByRank(b)
    requires forall k :: WithRank(a, k) == WithRank(b, k)
    ensures a == b
    decreases |a|
  {
    if a == [] || b == [] {
      if a != [] {
        WithRankOfHead(a);
        assert false;
      } else if b != [] {
        WithRankOfHead(b);
        assert false;
      }
    } else {
      HeadsAgree(a, b);
      TailsAgree(a, b);
      StableSortIsUnique(a[1..], b[1..]);
      assert a == [a[0]] + a[1..];
      assert b == [b[0]] + b[1..];
    }
  }

  /** Two sorted sequences with the same paragraphs of each rank, in the
      same order, start with the same paragraph. */
  lemma HeadsAgree(a: seq<Paragraph>, b: seq<Paragraph>)
    requires a != [] && b != [] && SortedByRank(a) && SortedByRank(b)
    requires forall k :: WithRank(a, k) == WithRank(b, k)
    ensures a[0] == b[0]
  {
    var ra, rb := PosRank(a[0]), PosRank(b[0]);
    WithRankHead(a);
    WithRankHead(b);
    WithRankMember(b, ra, a[0]);
    NoRankBelowHead(b, a[0]);
    WithRankMember(a, rb, b[0]);
    NoRankBelowHead(a, b[0]);
    assert ra == rb;
  }

  /** No element of a sorted sequence ranks before its head. */
  lemma NoRankBelowHead(s: seq<Paragraph>, y: Paragraph)
    requires s != [] && SortedByRank(s) && y in s
    ensures PosRank(s[0]) <= PosRank(y)
  {
    var i :| 0 <= i < |s| && s[i] == y;
    if i > 0 {
      assert PosRank(s[0]) <= PosRank(s[i]);
    }
  }

  /** The head comes first among the elements of its own rank. */
  lemma WithRankHead(s: seq<Paragraph>)
    requires s != []
    ensures WithRank(s, PosRank(s[0])) != [] && WithRank(s, PosRank(s[0]))[0] == s[0]
    ensures s[0] in WithRank(s, PosRank(s[0]))
  {
    assert WithRank(s, PosRank(s[0])) == [s[0]] + WithRank(s[1..], PosRank(s[0]));
  }

  /** With equal heads, the tails have the same paragraphs of each rank. */
  lemma TailsAgree(a: seq<Paragraph>, b: seq<Paragraph>)
    requires a != [] && b != [] && a[0] == b[0]
    requires forall k :: WithRank(a, k) == WithRank(b, k)
    ensures forall k :: WithRank(a[1..], k) == WithRank(b[1..], k)
  {
    var ra := PosRank(a[0]);
    forall k ensures WithRank(a[1..], k) == WithRank(b[1..], k) {
      assert WithRank(a, k) == WithRank(b, k);
      if k == ra {
        assert WithRank(a[1..], k) == WithRank(a, k)[1..];
        assert WithRank(b[1..], k) == WithRank(b, k)[1..];
      } else {
        assert WithRank(a, k) == WithRank(a[1..], k);
        assert WithRank(b, k) == WithRank(b[1..], k);
      }
    }
  }

  /** Any sequence Python's stable `sorted` may return equals `SortByRank`. */
  lemma SortByRankIsPythonSorted(s: seq<Paragraph>, b: seq<Paragraph>)
    requires SortedByRank(b)
    requires forall k :: WithRank(b, k) == WithRank(s, k)
    ensures b == SortByRank(s)
  {
    SortIsSorted(s);
    forall k ensures WithRank(SortByRank(s), k) == WithRank(b, k) {
      SortIsStable(s, k);
    }
    StableSortIsUnique(SortByRank(s), b);
  }

  // ---------------------------------------------------------------------
  // Text normalisation and the stitching rule
  // ---------------------------------------------------------------------

  /** The filter to `string.printable` (when asked for), then `strip()`. */
  function Prepare(text: string, onlyPrintable: bool): string {
    Strip(if onlyPrintable then FilterPrintable(text) else text)
  }

  /** An ASCII letter of the text survives normalisation. */
  lemma PrepareKeepsLetter(text: string, onlyPrintable: bool, k: nat)
    requires k < |text| && IsAsciiLetter(text[k])
    ensures text[k] in Prepare(text, onlyPrintable)
  {
    var c := text[k];
    var u := if onlyPrintable then FilterPrintable(text) else text;
    assert c in u;
    assert c !in Whitespace;
    StripCharsKeeps(u, Whitespace);
  }

  /** The sentence terminators `.`, `!` and `?`. */
  predicate IsEndingChar(c: char) { c == '.' || c == '!' || c == '?' }

  /** `is_ending_char` as written: `re.match(r'!\.\?', s)`, which asks for
      the three-character text "!.?" at the start of `s`. */
  predicate MatchesEndingPattern(s: string) { |s| >= 3 && s[..3] == "!.?" }

  /** The decision `not is_ending_char(last[-1]) and not text[0].isupper()`,
      with `and` evaluated left to right, for a given terminator test. */
  function ShouldJoinWith(ends: char -> bool, last: string, text: string): (r: Result<bool>)
    ensures r.Failure? <==> |last| == 0 || (!ends(last[|last| - 1]) && |text| == 0)
    ensures r.Failure? ==> r.error == IndexError
    ensures r == Success(true) <==>
              |last| > 0 && |text| > 0 && !ends(last[|last| - 1]) && !IsAsciiUpper(text[0])
  {
    if |last| == 0 then Failure(IndexError)
    else if ends(last[|last| - 1]) then Success(false)
    else if |text| == 0 then Failure(IndexError)
    else Success(!IsAsciiUpper(text[0]))
  }

  /** `is_ending_char` applied to one character, as the code has it. */
  predicate EndsAsWritten(c: char) { MatchesEndingPattern([c]) }

  /** The joining rule as the code has it. */
  function ShouldJoinAsWritten(last: string, text: string): Result<bool> {
    ShouldJoinWith(EndsAsWritten, last, text)
  }

  /** The joining rule with the terminator test the code evidently means. */
  function ShouldJoin(last: string, text: string): Result<bool> {
    ShouldJoinWith(IsEndingChar, last, text)
  }

  /** As written, the terminator test holds for no single character, so only
      a capital letter prevents a join. */
  lemma EndingPatternNeverMatches(c: char)
    ensures !MatchesEndingPattern([c])
  {
  }

  lemma AsWrittenJoinsAfterFullStop()
    ensures ShouldJoinAsWritten("as shown in Table 2.", "the cohort was") == Success(true)
    ensures ShouldJoin("as shown in Table 2.", "the cohort was") == Success(false)
  {
    EndingPatternNeverMatches('.');
  }

  /** With the intended test, a paragraph ending a sentence is never
      continued, and a non-empty one not ending a sentence is continued
      exactly when the next text starts with anything but a capital. */
  lemma ShouldJoinRespectsSentences(last: string, text: string)
    requires |last| > 0
    ensures IsEndingChar(last[|last| - 1]) ==> ShouldJoin(last, text) == Success(false)
    ensures !IsEndingChar(last[|last| - 1]) && |text| > 0 ==>
              ShouldJoin(last, text) == Success(!IsAsciiUpper(text[0]))
  {
  }

  // ---------------------------------------------------------------------
  // The assembly loop, as functions over prefixes
  // ---------------------------------------------------------------------

  /** One iteration of the inner loop: paragraph `p`, the `j`th in reading
      order of page `pageNum`, meets the records built so far. */
  function Step(acc: seq<ParagraphRecord>, pageNum: nat, j: nat, p: Paragraph,
                onlyPrintable: bool, ends: char -> bool): Result<seq<ParagraphRecord>>
  {
    var text := Prepare(p.text, onlyPrintable);
    if j == 0 && |acc| > 0 then
      var last := acc[|acc| - 1];
      var join :- ShouldJoinWith(ends, last.text, text);
      if join then
        Success(acc[..|acc| - 1] +
                [ParagraphRecord(last.text + " " + text, pageNum, last.indentionLevel, p.bbox)])
      else Success(acc + [ParagraphRecord(text, pageNum, Indention(p.bbox), p.bbox)])
    else Success(acc + [ParagraphRecord(text, pageNum, Indention(p.bbox), p.bbox)])
  }

  /** The inner loop over the first `|items|` paragraphs of a sorted page. */
  function PageFold(acc: seq<ParagraphRecord>, pageNum: nat, items: seq<Paragraph>,
                    onlyPrintable: bool, ends: char -> bool): Result<seq<ParagraphRecord>>
  {
    if items == [] then Success(acc)
    else
      var a :- PageFold(acc, pageNum, items[..|items| - 1], onlyPrintable, ends);
      Step(a, pageNum, |items| - 1, items[|items| - 1], onlyPrintable, ends)
  }

  /** The outer loop over the first `|pages|` pages. */
  function Assemble(pages: seq<seq<Paragraph>>, onlyPrintable: bool, ends: char -> bool): Result<seq<ParagraphRecord>>
  {
    if pages == [] then Success([])
    else
      var a :- Assemble(pages[..|pages| - 1], onlyPrintable, ends);
      PageFold(a, |pages| - 1, SortByRank(pages[|pages| - 1]), onlyPrintable, ends)
  }

  /** The texts of the records, as with `return_dicts=False`. */
  function TextsOf(rs: seq<ParagraphRecord>): (ts: seq<string>)
    ensures |ts| == |rs|
  {
    if rs == [] then [] else TextsOf(rs[..|rs| - 1]) + [rs[|rs| - 1].text]
  }

  /** The normalised texts of a page's paragraphs, in the given order. */
  function PrepareAll(items: seq<Paragraph>, onlyPrintable: bool): (ts: seq<string>)
    ensures |ts| == |items|
  {
    if items == [] then []
    else PrepareAll(items[..|items| - 1], onlyPrintable) + [Prepare(items[|items| - 1].text, onlyPrintable)]
  }

  /** Every normalised text of the document, page by page in reading order. */
  function Prepared(pages: seq<seq<Paragraph>>, onlyPrintable: bool): seq<string> {
    if pages == [] then []
    else Prepared(pages[..|pages| - 1], onlyPrintable) +
         PrepareAll(SortByRank(pages[|pages| - 1]), onlyPrintable)
  }

  /** The total number of paragraphs on all pages. */
  function CountAll(pages: seq<seq<Paragraph>>): nat {
    if pages == [] then 0 else CountAll(pages[..|pages| - 1]) + |pages[|pages| - 1]|
  }

  lemma {:induction false} PreparedCount(pages: seq<seq<Paragraph>>, onlyPrintable: bool)
    ensures |Prepared(pages, onlyPrintable)| == CountAll(pages)
    decreases |pages|
  {
    if pages != [] {
      PreparedCount(pages[..|pages| - 1], onlyPrintable);
    }
  }

  // ---------------------------------------------------------------------
  // Stitching only merges neighbours: the joined text is unchanged
  // ---------------------------------------------------------------------

  /** Two lists of texts that read the same once joined with spaces. */
  predicate SameReading(xs: seq<string>, ys: seq<string>) {
    Join(xs, " ") == Join(ys, " ") && (|xs| == 0 <==> |ys| == 0)
  }

  lemma SameReadingAppend(xs: seq<string>, ys: seq<string>, t: string)
    requires SameReading(xs, ys)
    ensures SameReading(xs + [t], ys + [t])
  {
    if |xs| > 0 {
      JoinAppend(xs, [t], " ");
      JoinAppend(ys, [t], " ");
    }
  }

  lemma SameReadingStep(xs: seq<string>, ys: seq<string>, zs: seq<string>, t: string)
    requires SameReading(xs, ys) && SameReading(zs, xs + [t])
    ensures SameReading(zs, ys + [t])
  {
    SameReadingAppend(xs, ys, t);
  }

  lemma ConcatAssoc(xs: seq<string>, ys: seq<string>, zs: seq<string>)
    ensures (xs + ys) + zs == xs + (ys + zs)
  {
  }

  lemma SameReadingTrans(xs: seq<string>, ys: seq<string>, zs: seq<string>)
    requires SameReading(xs, ys) && SameReading(ys, zs)
    ensures SameReading(xs, zs)
  {
  }

  lemma MergeReadsSame(xs: seq<string>, last: string, t: string)
    ensures SameReading(xs + [last + " " + t], xs + [last] + [t])
  {
    if |xs| == 0 {
      assert xs + [last + " " + t] == [last + " " + t];
      assert xs + [last] + [t] == [last, t];
    } else {
      JoinAppend(xs, [last + " " + t], " ");
      JoinAppend(xs + [last], [t], " ");
      JoinAppend(xs, [last], " ");
    }
  }

  /** What one step does: it appends one record, or (at the head of a page)
      merges the new text into the previous record; the reading is kept. */
  lemma StepReading(acc: seq<ParagraphRecord>, pageNum: nat, j: nat, p: Paragraph,
                    onlyPrintable: bool, ends: char -> bool)
    requires Step(acc, pageNum, j, p, onlyPrintable, ends).Success?
    ensures SameReading(TextsOf(Step(acc, pageNum, j, p, onlyPrintable, ends).value),
                        TextsOf(acc) + [Prepare(p.text, onlyPrintable)])
  {
    var text := Prepare(p.text, onlyPrintable);
    if j == 0 && |acc| > 0 && ShouldJoinWith(ends, acc[|acc| - 1].text, text) == Success(true) {
      StepJoinsHead(acc, pageNum, p, text, onlyPrintable, ends);
      MergedReading(acc, ParagraphRecord(acc[|acc| - 1].text + " " + text, pageNum,
                                         acc[|acc| - 1].indentionLevel, p.bbox), text);
    } else {
      StepAppends(acc, pageNum, j, p, onlyPrintable, ends);
      TextsOfSnoc(acc, ParagraphRecord(text, pageNum, Indention(p.bbox), p.bbox));
    }
  }

  /** Merging a text into the last record keeps the reading. */
  lemma MergedReading(acc: seq<ParagraphRecord>, merged: ParagraphRecord, t: string)
    requires |acc| > 0 && merged.text == acc[|acc| - 1].text + " " + t
    ensures SameReading(TextsOf(acc[..|acc| - 1] + [merged]), TextsOf(acc) + [t])
  {
    var n := |acc|;
    TextsOfSnoc(acc[..n - 1], merged);
    assert acc[..n - 1] + [acc[n - 1]] == acc;
    TextsOfSnoc(acc[..n - 1], acc[n - 1]);
    MergeReadsSame(TextsOf(acc[..n - 1]), acc[n - 1].text, t);
  }

  /** A step that does not join appends a fresh record. */
  lemma StepAppends(acc: seq<ParagraphRecord>, pageNum: nat, j: nat, p: Paragraph,
                    onlyPrintable: bool, ends: char -> bool)
    requires Step(acc, pageNum, j, p, onlyPrintable, ends).Success?
    requires !(j == 0 && |acc| > 0 &&
               ShouldJoinWith(ends, acc[|acc| - 1].text, Prepare(p.text, onlyPrintable)) == Success(true))
    ensures Step(acc, pageNum, j, p, onlyPrintable, ends).value ==
            acc + [ParagraphRecord(Prepare(p.text, onlyPrintable), pageNum, Indention(p.bbox), p.bbox)]
  {
  }

  lemma TextsOfSnoc(rs: seq<ParagraphRecord>, r: ParagraphRecord)
    ensures TextsOf(rs + [r]) == TextsOf(rs) + [r.text]
  {
    assert (rs + [r])[..|rs|] == rs;
  }

  lemma StepLength(acc: seq<ParagraphRecord>, pageNum: nat, j: nat, p: Paragraph,
                   onlyPrintable: bool, ends: char -> bool)
    requires Step(acc, pageNum, j, p, onlyPrintable, ends).Success?
    ensures var a := Step(acc, pageNum, j, p, onlyPrintable, ends).value;
      |a| > 0 && (|a| == |acc| + 1 || (j == 0 && |a| == |acc|))
  {
  }

  lemma {:induction false} PageFoldReading(acc: seq<ParagraphRecord>, pageNum: nat,
                                           items: seq<Paragraph>, onlyPrintable: bool, ends: char -> bool)
    requires PageFold(acc, pageNum, items, onlyPrintable, ends).Success?
    ensures SameReading(TextsOf(PageFold(acc, pageNum, items, onlyPrintable, ends).value),
                        TextsOf(acc) + PrepareAll(items, onlyPrintable))
    decreases |items|
  {
    if items == [] {
      assert TextsOf(acc) + [] == TextsOf(acc);
    } else {
      var n := |items|;
      var prefix := items[..n - 1];
      var b := PageFold(acc, pageNum, prefix, onlyPrintable, ends).value;
      var a := PageFold(acc, pageNum, items, onlyPrintable, ends).value;
      assert a == Step(b, pageNum, n - 1, items[n - 1], onlyPrintable, ends).value;
      PageFoldReading(acc, pageNum, prefix, onlyPrintable, ends);
      StepReading(b, pageNum, n - 1, items[n - 1], onlyPrintable, ends);
      var t := Prepare(items[n - 1].text, onlyPrintable);
      var before := TextsOf(acc) + PrepareAll(prefix, onlyPrintable);
      SameReadingStep(TextsOf(b), before, TextsOf(a), t);
      assert PrepareAll(items, onlyPrintable) == PrepareAll(prefix, onlyPrintable) + [t];
      ConcatAssoc(TextsOf(acc), PrepareAll(prefix, onlyPrintable), [t]);
    }
  }

  lemma {:induction false} PageFoldLength(acc: seq<ParagraphRecord>, pageNum: nat,
                                          items: seq<Paragraph>, onlyPrintable: bool, ends: char -> bool)
    requires PageFold(acc, pageNum, items, onlyPrintable, ends).Success?
    ensures var a := PageFold(acc, pageNum, items, onlyPrintable, ends).value;
      |acc| + |items| - 1 <= |a| <= |acc| + |items| && (|items| > 0 ==> |a| > 0)
    decreases |items|
  {
    if items != [] {
      var n := |items|;
      PageFoldLength(acc, pageNum, items[..n - 1], onlyPrintable, ends);
      StepLength(PageFold(acc, pageNum, items[..n - 1], onlyPrintable, ends).value,
                 pageNum, n - 1, items[n - 1], onlyPrintable, ends);
    }
  }

  /** The stitched texts, joined with spaces, read exactly as all the
      normalised paragraph texts in reading order; between one text per
      record and one fewer per page, no record is lost or made up. */
  lemma {:induction false} AssemblyKeepsReading(pages: seq<seq<Paragraph>>, onlyPrintable: bool, ends: char -> bool)
    requires Assemble(pages, onlyPrintable, ends).Success?
    ensures var r := Assemble(pages, onlyPrintable, ends).value;
      && Join(TextsOf(r), " ") == Join(Prepared(pages, onlyPrintable), " ")
      && (|r| == 0 <==> |Prepared(pages, onlyPrintable)| == 0)
      && |Prepared(pages, onlyPrintable)| - |pages| <= |r| <= |Prepared(pages, onlyPrintable)|
    decreases |pages|
  {
    if pages != [] {
      var n := |pages|;
      AssemblyKeepsReading(pages[..n - 1], onlyPrintable, ends);
      var b := Assemble(pages[..n - 1], onlyPrintable, ends).value;
      var items := SortByRank(pages[n - 1]);
      PageFoldReading(b, n - 1, items, onlyPrintable, ends);
      PageFoldLength(b, n - 1, items, onlyPrintable, ends);
      var a := PageFold(b, n - 1, items, onlyPrintable, ends).value;
      var pa := PrepareAll(items, onlyPrintable);
      var pre := Prepared(pages[..n - 1], onlyPrintable);
      assert SameReading(TextsOf(b), pre);
      SameReadingConcat(TextsOf(b), pre, pa);
      SameReadingTrans(TextsOf(a), TextsOf(b) + pa, pre + pa);
    }
  }

  lemma {:induction false} SameReadingConcat(xs: seq<string>, ys: seq<string>, zs: seq<string>)
    requires SameReading(xs, ys)
    ensures SameReading(xs + zs, ys + zs)
    decreases |zs|
  {
    if zs == [] {
      assert xs + zs == xs && ys + zs == ys;
    } else {
      var m := |zs|;
      SameReadingConcat(xs, ys, zs[..m - 1]);
      SameReadingAppend(xs + zs[..m - 1], ys + zs[..m - 1], zs[m - 1]);
      assert xs + zs[..m - 1] + [zs[m - 1]] == xs + zs;
      assert ys + zs[..m - 1] + [zs[m - 1]] == ys + zs;
    }
  }

  // ---------------------------------------------------------------------
  // When the assembly raises
  // ---------------------------------------------------------------------

  predicate AllNonEmpty(rs: seq<ParagraphRecord>) {
    forall k :: 0 <= k < |rs| ==> |rs[k].text| > 0
  }

  lemma StepNeverRaises(acc: seq<ParagraphRecord>, pageNum: nat, j: nat, p: Paragraph,
                        onlyPrintable: bool, ends: char -> bool)
    requires AllNonEmpty(acc)
    requires |Prepare(p.text, onlyPrintable)| > 0
    ensures Step(acc, pageNum, j, p, onlyPrintable, ends).Success?
    ensures AllNonEmpty(Step(acc, pageNum, j, p, onlyPrintable, ends).value)
  {
  }

  lemma {:induction false} PageFoldNeverRaises(acc: seq<ParagraphRecord>, pageNum: nat,
                                               items: seq<Paragraph>, onlyPrintable: bool, ends: char -> bool)
    requires AllNonEmpty(acc)
    requires forall q :: q in items ==> |Prepare(q.text, onlyPrintable)| > 0
    ensures PageFold(acc, pageNum, items, onlyPrintable, ends).Success?
    ensures AllNonEmpty(PageFold(acc, pageNum, items, onlyPrintable, ends).value)
    decreases |items|
  {
    if items != [] {
      var n := |items|;
      var init, last := items[..n - 1], items[n - 1];
      forall q | q in init ensures |Prepare(q.text, onlyPrintable)| > 0 {
        assert q in items;
      }
      assert last in items;
      PageFoldNeverRaises(acc, pageNum, init, onlyPrintable, ends);
      var b := PageFold(acc, pageNum, init, onlyPrintable, ends).value;
      StepNeverRaises(b, pageNum, n - 1, last, onlyPrintable, ends);
    }
  }

  /** A document none of whose paragraphs normalises to the empty text is
      assembled without an `IndexError`. */
  lemma {:induction false} AssembleNeverRaises(pages: seq<seq<Paragraph>>, onlyPrintable: bool, ends: char -> bool)
    requires forall i, q :: 0 <= i < |pages| && q in pages[i] ==> |Prepare(q.text, onlyPrintable)| > 0
    ensures Assemble(pages, onlyPrintable, ends).Success?
    ensures AllNonEmpty(Assemble(pages, onlyPrintable, ends).value)
    decreases |pages|
  {
    if pages != [] {
      var n := |pages|;
      AssembleNeverRaises(pages[..n - 1], onlyPrintable, ends);
      var b := Assemble(pages[..n - 1], onlyPrintable, ends).value;
      var items := SortByRank(pages[n - 1]);
      forall q | q in items ensures |Prepare(q.text, onlyPrintable)| > 0 {
        assert q in multiset(items);
        assert q in pages[n - 1];
      }
      PageFoldNeverRaises(b, n - 1, items, onlyPrintable, ends);
    }
  }

  /** The pages the clean-up passes return always assemble: each of their
      texts keeps an ASCII letter, which normalisation does not remove. */
  lemma CleanedPagesNeverRaise(pages: seq<seq<Paragraph>>, onlyPrintable: bool, ends: char -> bool)
    ensures Assemble(PL.TrueParagraphs(pages), onlyPrintable, ends).Success?
  {
    var ps := PL.TrueParagraphs(pages);
    forall i: nat, q: Paragraph | i < |ps| && q in ps[i]
      ensures |Prepare(q.text, onlyPrintable)| > 0
    {
      PL.TrueParagraphsTexts(pages, i, q);
      var k :| 0 <= k < |q.text| && IsAsciiLetter(q.text[k]);
      PrepareKeepsLetter(q.text, onlyPrintable, k);
    }
    AssembleNeverRaises(ps, onlyPrintable, ends);
  }

  /** The only exception the assembly raises is `IndexError`. */
  lemma {:induction false} AssembleRaisesIndexError(pages: seq<seq<Paragraph>>, onlyPrintable: bool, ends: char -> bool)
    requires Assemble(pages, onlyPrintable, ends).Failure?
    ensures Assemble(pages, onlyPrintable, ends).error == IndexError
    decreases |pages|
  {
    var n := |pages|;
    if Assemble(pages[..n - 1], onlyPrintable, ends).Failure? {
      AssembleRaisesIndexError(pages[..n - 1], onlyPrintable, ends);
    } else {
      PageFoldRaisesIndexError(Assemble(pages[..n - 1], onlyPrintable, ends).value, n - 1,
                               SortByRank(pages[n - 1]), onlyPrintable, ends);
    }
  }

  lemma {:induction false} PageFoldRaisesIndexError(acc: seq<ParagraphRecord>, pageNum: nat,
                                                    items: seq<Paragraph>, onlyPrintable: bool, ends: char -> bool)
    requires PageFold(acc, pageNum, items, onlyPrintable, ends).Failure?
    ensures PageFold(acc, pageNum, items, onlyPrintable, ends).error == IndexError
    decreases |items|
  {
    var n := |items|;
    if PageFold(acc, pageNum, items[..n - 1], onlyPrintable, ends).Failure? {
      PageFoldRaisesIndexError(acc, pageNum, items[..n - 1], onlyPrintable, ends);
    }
  }

  lemma {:induction false} PageFoldStopsAtFailure(acc: seq<ParagraphRecord>, pageNum: nat,
                                                  items: seq<Paragraph>, k: nat, onlyPrintable: bool, ends: char -> bool)
    requires k <= |items|
    requires PageFold(acc, pageNum, items[..k], onlyPrintable, ends).Failure?
    ensures PageFold(acc, pageNum, items, onlyPrintable, ends) == PageFold(acc, pageNum, items[..k], onlyPrintable, ends)
    decreases |items| - k
  {
    if k < |items| {
      assert items[..k + 1][..k] == items[..k];
      PageFoldStopsAtFailure(acc, pageNum, items, k + 1, onlyPrintable, ends);
    } else {
      assert items[..k] == items;
    }
  }

  lemma {:induction false} AssembleStopsAtFailure(pages: seq<seq<Paragraph>>, k: nat, onlyPrintable: bool, ends: char -> bool)
    requires k <= |pages|
    requires Assemble(pages[..k], onlyPrintable, ends).Failure?
    ensures Assemble(pages, onlyPrintable, ends) == Assemble(pages[..k], onlyPrintable, ends)
    decreases |pages| - k
  {
    if k < |pages| {
      assert pages[..k + 1][..k] == pages[..k];
      AssembleStopsAtFailure(pages, k + 1, onlyPrintable, ends);
    } else {
      assert pages[..k] == pages;
    }
  }

  // ---------------------------------------------------------------------
  // extract_paragraphs_pdf
  // ---------------------------------------------------------------------

  lemma PageFoldSnoc(acc: seq<ParagraphRecord>, pageNum: nat, items: seq<Paragraph>, j: nat,
                     onlyPrintable: bool, ends: char -> bool)
    requires j < |items| && PageFold(acc, pageNum, items[..j], onlyPrintable, ends).Success?
    ensures PageFold(acc, pageNum, items[..j + 1], onlyPrintable, ends) ==
            Step(PageFold(acc, pageNum, items[..j], onlyPrintable, ends).value, pageNum, j, items[j], onlyPrintable, ends)
  {
    assert items[..j + 1][..j] == items[..j];
  }

  lemma AssembleSnoc(pages: seq<seq<Paragraph>>, k: nat, onlyPrintable: bool, ends: char -> bool)
    requires k < |pages| && Assemble(pages[..k], onlyPrintable, ends).Success?
    ensures Assemble(pages[..k + 1], onlyPrintable, ends) ==
            PageFold(Assemble(pages[..k], onlyPrintable, ends).value, k, SortByRank(pages[k]), onlyPrintable, ends)
  {
    assert pages[..k + 1][..k] == pages[..k];
  }

  lemma PageFailureAborts(pages: seq<seq<Paragraph>>, pageNum: nat, start: seq<ParagraphRecord>,
                          j: nat, onlyPrintable: bool, ends: char -> bool)
    requires pageNum < |pages| && j < |pages[pageNum]|
    requires Assemble(pages[..pageNum], onlyPrintable, ends) == Success(start)
    requires PageFold(start, pageNum, SortByRank(pages[pageNum])[..j + 1], onlyPrintable, ends).Failure?
    ensures Assemble(pages, onlyPrintable, ends) ==
            PageFold(start, pageNum, SortByRank(pages[pageNum])[..j + 1], onlyPrintable, ends)
  {
    var page := SortByRank(pages[pageNum]);
    PageFoldStopsAtFailure(start, pageNum, page, j + 1, onlyPrintable, ends);
    AssembleSnoc(pages, pageNum, onlyPrintable, ends);
    AssembleStopsAtFailure(pages, pageNum + 1, onlyPrintable, ends);
  }

  // ---------------------------------------------------------------------
  // Joining across a page break, as written and as intended
  // ---------------------------------------------------------------------

  /** After the first paragraph of a page, the steps only append: the
      records after the first step stay a prefix of the page's output. */
  lemma {:induction false} PageFoldKeepsHead(acc: seq<ParagraphRecord>, pageNum: nat,
                                             items: seq<Paragraph>, j: nat,
                                             onlyPrintable: bool, ends: char -> bool)
    requires 1 <= j <= |items|
    requires PageFold(acc, pageNum, items[..1], onlyPrintable, ends).Success?
    ensures PageFold(acc, pageNum, items[..j], onlyPrintable, ends).Success?
    ensures PageFold(acc, pageNum, items[..1], onlyPrintable, ends).value <=
            PageFold(acc, pageNum, items[..j], onlyPrintable, ends).value
    decreases j
  {
    if j > 1 {
      PageFoldKeepsHead(acc, pageNum, items, j - 1, onlyPrintable, ends);
      PageFoldSnoc(acc, pageNum, items, j - 1, onlyPrintable, ends);
    }
  }

  /** The first step of a page when the join test says yes. */
  lemma StepJoinsHead(acc: seq<ParagraphRecord>, pageNum: nat, p: Paragraph, t: string,
                      onlyPrintable: bool, ends: char -> bool)
    requires t == Prepare(p.text, onlyPrintable) && |acc| > 0
    requires ShouldJoinWith(ends, acc[|acc| - 1].text, t) == Success(true)
    ensures Step(acc, pageNum, 0, p, onlyPrintable, ends) ==
            Success(acc[..|acc| - 1] + [ParagraphRecord(acc[|acc| - 1].text + " " + t, pageNum,
                                                         acc[|acc| - 1].indentionLevel, p.bbox)])
  {
  }

  /** The first step of a page when the join test says no. */
  lemma StepKeepsHead(acc: seq<ParagraphRecord>, pageNum: nat, p: Paragraph,
                      onlyPrintable: bool, ends: char -> bool)
    requires |acc| > 0 && ShouldJoinWith(ends, acc[|acc| - 1].text, Prepare(p.text, onlyPrintable)) == Success(false)
    ensures Step(acc, pageNum, 0, p, onlyPrintable, ends).Success?
    ensures acc <= Step(acc, pageNum, 0, p, onlyPrintable, ends).value
  {
  }

  /** A page's output after its first paragraph is the first step. */
  lemma PageFoldFirst(acc: seq<ParagraphRecord>, pageNum: nat, items: seq<Paragraph>,
                      onlyPrintable: bool, ends: char -> bool)
    requires items != []
    ensures PageFold(acc, pageNum, items[..1], onlyPrintable, ends) ==
            Step(acc, pageNum, 0, items[0], onlyPrintable, ends)
  {
    assert items[..1][..0] == [];
  }

  /** A page's whole output, from its first step on. */
  lemma PageFoldFromHead(acc: seq<ParagraphRecord>, pageNum: nat, items: seq<Paragraph>,
                         onlyPrintable: bool, ends: char -> bool)
    requires items != [] && Step(acc, pageNum, 0, items[0], onlyPrintable, ends).Success?
    ensures PageFold(acc, pageNum, items, onlyPrintable, ends).Success?
    ensures Step(acc, pageNum, 0, items[0], onlyPrintable, ends).value <=
            PageFold(acc, pageNum, items, onlyPrintable, ends).value
  {
    PageFoldFirst(acc, pageNum, items, onlyPrintable, ends);
    PageFoldKeepsHead(acc, pageNum, items, |items|, onlyPrintable, ends);
    assert items[..|items|] == items;
  }

  /** As written, the last record so far is continued by the first
      paragraph of the next page whenever that paragraph's text starts with
      anything but a capital, even when the record ends a sentence: the
      page's output begins with the two texts joined by a space. */
  lemma AsWrittenJoinsAcrossPages(pages: seq<seq<Paragraph>>, k: nat, acc: seq<ParagraphRecord>,
                                  onlyPrintable: bool)
    requires k < |pages| && pages[k] != []
    requires Assemble(pages[..k], onlyPrintable, EndsAsWritten) == Success(acc)
    requires |acc| > 0 && |acc[|acc| - 1].text| > 0
    requires var t := Prepare(SortByRank(pages[k])[0].text, onlyPrintable);
      |t| > 0 && !IsAsciiUpper(t[0])
    ensures Assemble(pages[..k + 1], onlyPrintable, EndsAsWritten).Success?
    ensures var r := Assemble(pages[..k + 1], onlyPrintable, EndsAsWritten).value;
      var n := |acc|;
      && n <= |r| && r[..n - 1] == acc[..n - 1]
      && r[n - 1].text == acc[n - 1].text + " " + Prepare(SortByRank(pages[k])[0].text, onlyPrintable)
  {
    AssembleSnoc(pages, k, onlyPrintable, EndsAsWritten);
    AsWrittenPageJoins(acc, k, SortByRank(pages[k]), onlyPrintable);
  }

  /** The page-level half: the fold over a page whose first prepared text
      does not start with a capital continues the last record with it. */
  lemma AsWrittenPageJoins(acc: seq<ParagraphRecord>, pageNum: nat, items: seq<Paragraph>, onlyPrintable: bool)
    requires items != [] && |acc| > 0 && |acc[|acc| - 1].text| > 0
    requires var t := Prepare(items[0].text, onlyPrintable); |t| > 0 && !IsAsciiUpper(t[0])
    ensures PageFold(acc, pageNum, items, onlyPrintable, EndsAsWritten).Success?
    ensures var r := PageFold(acc, pageNum, items, onlyPrintable, EndsAsWritten).value;
      var n := |acc|;
      && n <= |r| && r[..n - 1] == acc[..n - 1]
      && r[n - 1].text == acc[n - 1].text + " " + Prepare(items[0].text, onlyPrintable)
  {
    var n := |acc|;
    var last := acc[n - 1];
    var t := Prepare(items[0].text, onlyPrintable);
    AsWrittenJoinTest(last.text, t);
    StepJoinsHead(acc, pageNum, items[0], t, onlyPrintable, EndsAsWritten);
    PageFoldFromHead(acc, pageNum, items, onlyPrintable, EndsAsWritten);
    PrefixEndsWith(acc[..n - 1], ParagraphRecord(last.text + " " + t, pageNum, last.indentionLevel, items[0].bbox),
                   PageFold(acc, pageNum, items, onlyPrintable, EndsAsWritten).value);
  }

  /** As written, the join test says yes whenever the previous text is
      non-empty and the next one does not start with a capital. */
  lemma AsWrittenJoinTest(last: string, t: string)
    requires |last| > 0 && |t| > 0 && !IsAsciiUpper(t[0])
    ensures ShouldJoinWith(EndsAsWritten, last, t) == Success(true)
  {
    EndingPatternNeverMatches(last[|last| - 1]);
  }

  lemma PrefixEndsWith<T>(front: seq<T>, x: T, r: seq<T>)
    requires front + [x] <= r
    ensures |front| < |r| && r[..|front|] == front && r[|front|] == x
  {
    assert r[..|front| + 1] == front + [x];
    assert r[..|front|] == (front + [x])[..|front|];
  }

  /** With the intended terminator test, a record that ends a sentence is
      never continued: the next page never raises at its first paragraph and
      only appends records after it. */
  lemma IntendedKeepsSentencesApart(pages: seq<seq<Paragraph>>, k: nat, acc: seq<ParagraphRecord>,
                                    onlyPrintable: bool)
    requires k < |pages|
    requires Assemble(pages[..k], onlyPrintable, IsEndingChar) == Success(acc)
    requires |acc| > 0 && |acc[|acc| - 1].text| > 0
    requires IsEndingChar(acc[|acc| - 1].text[|acc[|acc| - 1].text| - 1])
    ensures Assemble(pages[..k + 1], onlyPrintable, IsEndingChar).Success?
    ensures acc <= Assemble(pages[..k + 1], onlyPrintable, IsEndingChar).value
  {
    var items := SortByRank(pages[k]);
    AssembleSnoc(pages, k, onlyPrintable, IsEndingChar);
    if items == [] {
      assert PageFold(acc, k, items, onlyPrintable, IsEndingChar) == Success(acc);
    } else {
      StepKeepsHead(acc, k, items[0], onlyPrintable, IsEndingChar);
      PageFoldFromHead(acc, k, items, onlyPrintable, IsEndingChar);
    }
  }

  /** The body of the inner loop for paragraph `p`, the `j`th of its page. */
  method StitchOne(paragraphs: seq<ParagraphRecord>, pageNum: nat, j: nat, p: Paragraph,
                   onlyPrintable: bool) returns (r: Result<seq<ParagraphRecord>>)
    ensures r == Step(paragraphs, pageNum, j, p, onlyPrintable, EndsAsWritten)
  {
    var text := p.text;
    if onlyPrintable {
      text := FilterPrintable(text);
    }
    text := Strip(text);
    var indention := Indention(p.bbox);
    var out := paragraphs;
    if j == 0 && |out| > 0 {
      var last := out[|out| - 1];
      var join := ShouldJoinAsWritten(last.text, text);
      if join.Failure? {
        return Failure(join.error);
      }
      if join.value {
        text := last.text + " " + text;
        indention := last.indentionLevel;
        out := out[..|out| - 1];
      }
    }
    return Success(out + [ParagraphRecord(text, pageNum, indention, p.bbox)]);
  }

  /** The double loop of `extract_paragraphs_pdf` over the cleaned pages. */
  method StitchPages(pages: seq<seq<Paragraph>>, onlyPrintable: bool)
    returns (res: Result<seq<ParagraphRecord>>)
    ensures res == Assemble(pages, onlyPrintable, EndsAsWritten)
  {
    var paragraphs: seq<ParagraphRecord> := [];
    for pageNum := 0 to |pages|
      invariant Assemble(pages[..pageNum], onlyPrintable, EndsAsWritten) == Success(paragraphs)
    {
      var page := SortByRank(pages[pageNum]);
      ghost var start := paragraphs;
      AssembleSnoc(pages, pageNum, onlyPrintable, EndsAsWritten);
      for j := 0 to |page|
        invariant PageFold(start, pageNum, page[..j], onlyPrintable, EndsAsWritten) == Success(paragraphs)
      {
        PageFoldSnoc(start, pageNum, page, j, onlyPrintable, EndsAsWritten);
        var next := StitchOne(paragraphs, pageNum, j, page[j], onlyPrintable);
        if next.Failure? {
          PageFailureAborts(pages, pageNum, start, j, onlyPrintable, EndsAsWritten);
          return Failure(next.error);
        }
        paragraphs := next.value;
      }
      assert page[..|page|] == page;
    }
    assert pages[..|pages|] == pages;
    return Success(paragraphs);
  }

  /** The output of `extract_paragraphs_pdf` for the pages the device holds. */
  function Extract(pages: seq<seq<Paragraph>>, returnDicts: bool, onlyPrintable: bool, ends: char -> bool): Result<Output> {
    var rs :- Assemble(pages, onlyPrintable, ends);
    if returnDicts then Success(Records(rs)) else Success(Texts(TextsOf(rs)))
  }

  /** `extract_paragraphs_pdf` once the parser has fed every page's layout to
      `device`: the device's clean-up runs, and then the stitching loop. */
  method ExtractParagraphs(device: PL.TextHandler, returnDicts: bool, onlyPrintable: bool)
    returns (res: Result<Output>)
    modifies device
    ensures res == Extract(PL.TrueParagraphs(old(device.pages)), returnDicts, onlyPrintable, EndsAsWritten)
    ensures res.Success?
  {
    var pages := device.GetTrueParagraphs();
    var stitched := StitchPages(pages, onlyPrintable);
    CleanedPagesNeverRaise(old(device.pages), onlyPrintable, EndsAsWritten);
    var rs := stitched.value;
    if returnDicts {
      res := Success(Records(rs));
    } else {
      res := Success(Texts(TextsOf(rs)));
    }
  }
}
