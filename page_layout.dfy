/** The text device of the PDF paragraph extractor: rendering a page's
    layout tree into paragraph records (`TextHandler.receive_layout`), the
    layout parameters it starts from, and the clean-up of all pages'
    records (`TextHandler.get_true_paragraphs`). */
module PageLayout {
  import opened Wrappers
  import opened PyStrings
  import LG = LineGrouping

  /** A node of pdfminer's layout tree, as far as rendering looks at it: a
      text box (which is also a container), another container (a page, a
      figure, a text line), or a leaf. */
  datatype Item =
    | TextBoxItem(text: string, bbox: LG.BBox, children: seq<Item>)
    | ContainerItem(children: seq<Item>)
    | LeafItem

  /** The `{'text': ..., 'bbox': ...}` record of one text box. */
  datatype Paragraph = Paragraph(text: string, bbox: LG.BBox)

  /** A layout parameter value: a number, a flag or None. */
  datatype ParamValue = Number(x: real) | Flag(b: bool) | NoValue

  // ---------------------------------------------------------------------
  // render
  // ---------------------------------------------------------------------

  /** `render(item)`: the record of a text box, then, for any container,
      the records of its children in order. */
  function Render(item: Item): seq<Paragraph>
    decreases item
  {
    match item
    case TextBoxItem(t, b, cs) => [Paragraph(t, b)] + RenderAll(cs)
    case ContainerItem(cs) => RenderAll(cs)
    case LeafItem => []
  }

  function RenderAll(cs: seq<Item>): seq<Paragraph>
    decreases cs
  {
    if cs == [] then [] else Render(cs[0]) + RenderAll(cs[1..])
  }

  /** The record `p` belongs to a text box somewhere in the tree. */
  ghost predicate Holds(item: Item, p: Paragraph)
    decreases item
  {
    match item
    case TextBoxItem(t, b, cs) => p == Paragraph(t, b) || exists c :: c in cs && Holds(c, p)
    case ContainerItem(cs) => exists c :: c in cs && Holds(c, p)
    case LeafItem => false
  }

  /** Rendering yields exactly the records of the tree's text boxes. */
  lemma {:induction false} RenderHolds(item: Item, p: Paragraph)
    ensures p in Render(item) <==> Holds(item, p)
    decreases item
  {
    match item
    case TextBoxItem(t, b, cs) => RenderAllHolds(cs, p);
    case ContainerItem(cs) => RenderAllHolds(cs, p);
    case LeafItem =>
  }

  lemma {:induction false} RenderAllHolds(cs: seq<Item>, p: Paragraph)
    ensures p in RenderAll(cs) <==> exists c :: c in cs && Holds(c, p)
    decreases cs
  {
    if cs != [] {
      RenderHolds(cs[0], p);
      RenderAllHolds(cs[1..], p);
      assert forall c :: c in cs <==> c == cs[0] || c in cs[1..];
    }
  }

  /** The number of text boxes in the tree. */
  function CountBoxes(item: Item): nat
    decreases item
  {
    match item
    case TextBoxItem(_, _, cs) => 1 + CountBoxesAll(cs)
    case ContainerItem(cs) => CountBoxesAll(cs)
    case LeafItem => 0
  }

  function CountBoxesAll(cs: seq<Item>): nat
    decreases cs
  {
    if cs == [] then 0 else CountBoxes(cs[0]) + CountBoxesAll(cs[1..])
  }

  /** Rendering yields one record per text box: none is lost or repeated. */
  lemma {:induction false} RenderCount(item: Item)
    ensures |Render(item)| == CountBoxes(item)
    decreases item
  {
    match item
    case TextBoxItem(_, _, cs) => RenderAllCount(cs);
    case ContainerItem(cs) => RenderAllCount(cs);
    case LeafItem =>
  }

  lemma {:induction false} RenderAllCount(cs: seq<Item>)
    ensures |RenderAll(cs)| == CountBoxesAll(cs)
    decreases cs
  {
    if cs != [] {
      RenderCount(cs[0]);
      RenderAllCount(cs[1..]);
    }
  }

  // ---------------------------------------------------------------------
  // Layout parameters
  // ---------------------------------------------------------------------

  const DefaultLaparams: map<string, ParamValue> := map["char_margin" := Number(3.0), "line_margin" := Number(2.5)]

  /** `_laparams.update(laparams or {})` on the two defaults. */
  function MergeLaparams(overrides: Option<map<string, ParamValue>>): (m: map<string, ParamValue>)
    ensures overrides.None? ==> m == DefaultLaparams
    ensures overrides.Some? ==> m.Keys == DefaultLaparams.Keys + overrides.value.Keys
    ensures overrides.Some? ==> forall k :: k in overrides.value ==> m[k] == overrides.value[k]
    ensures forall k :: k in DefaultLaparams && (overrides.None? || k !in overrides.value) ==>
      m[k] == DefaultLaparams[k]
  {
    match overrides
    case None => DefaultLaparams
    case Some(o) => DefaultLaparams + o
  }

  // ---------------------------------------------------------------------
  // get_true_paragraphs: the three clean-up passes
  // ---------------------------------------------------------------------

  /** How many records of one page carry `t`. */
  function OccIn(page: seq<Paragraph>, t: string): nat
  {
    if page == [] then 0
    else OccIn(page[..|page| - 1], t) + (if page[|page| - 1].text == t then 1 else 0)
  }

  /** How many records of all pages carry `t`: the `Counter` of texts. */
  function Occurrences(pages: seq<seq<Paragraph>>, t: string): nat
  {
    if pages == [] then 0
    else Occurrences(pages[..|pages| - 1], t) + OccIn(pages[|pages| - 1], t)
  }

  lemma {:induction false} OccInPositive(page: seq<Paragraph>, k: nat)
    requires k < |page|
    ensures OccIn(page, page[k].text) > 0
    decreases |page|
  {
    if k < |page| - 1 {
      OccInPositive(page[..|page| - 1], k);
    }
  }

  lemma {:induction false} OccurrencesPositive(pages: seq<seq<Paragraph>>, i: nat, k: nat)
    requires i < |pages| && k < |pages[i]|
    ensures Occurrences(pages, pages[i][k].text) >= OccIn(pages[i], pages[i][k].text) > 0
    decreases |pages|
  {
    OccInPositive(pages[i], k);
    if i < |pages| - 1 {
      OccurrencesPositive(pages[..|pages| - 1], i, k);
    }
  }

  /** A counter entry; a missing key counts as zero, as in `Counter`. */
  function Get(counter: map<string, nat>, t: string): nat
  {
    if t in counter then counter[t] else 0
  }

  /** The counting loop of `get_true_paragraphs`. */
  method CountTexts(pages: seq<seq<Paragraph>>) returns (counter: map<string, nat>)
    ensures forall t :: Get(counter, t) == Occurrences(pages, t)
    ensures forall t :: t in counter ==> counter[t] > 0
  {
    counter := map[];
    for i := 0 to |pages|
      invariant forall t :: Get(counter, t) == Occurrences(pages[..i], t)
      invariant forall t :: t in counter ==> counter[t] > 0
    {
      assert pages[..i + 1][..i] == pages[..i];
      for j := 0 to |pages[i]|
        invariant forall t :: Get(counter, t) == Occurrences(pages[..i], t) + OccIn(pages[i][..j], t)
        invariant forall t :: t in counter ==> counter[t] > 0
      {
        assert pages[i][..j + 1][..j] == pages[i][..j];
        var t := pages[i][j].text;
        counter := counter[t := Get(counter, t) + 1];
      }
      assert pages[i][..|pages[i]|] == pages[i];
    }
    assert pages[..|pages|] == pages;
  }

  /** Every text carried by some record of some page. */
  function AllTexts(pages: seq<seq<Paragraph>>): set<string>
  {
    if pages == [] then {}
    else AllTexts(pages[..|pages| - 1]) + set p | p in pages[|pages| - 1] :: p.text
  }

  lemma {:induction false} CountedTextIsCarried(pages: seq<seq<Paragraph>>, t: string)
    requires Occurrences(pages, t) > 0
    ensures t in AllTexts(pages)
    decreases |pages|
  {
    var last := pages[|pages| - 1];
    if OccIn(last, t) > 0 {
      var k := OccInAt(last, t);
      assert last[k] in last;
    } else {
      CountedTextIsCarried(pages[..|pages| - 1], t);
    }
  }

  /** The texts carried by more than one record over all pages. */
  ghost function Redundant(pages: seq<seq<Paragraph>>): set<string>
  {
    set t | t in AllTexts(pages) && Occurrences(pages, t) > 1
  }

  /** A text is redundant exactly when it is counted more than once. */
  lemma RedundantIff(pages: seq<seq<Paragraph>>, t: string)
    ensures t in Redundant(pages) <==> Occurrences(pages, t) > 1
  {
    if Occurrences(pages, t) > 1 {
      CountedTextIsCarried(pages, t);
    }
  }

  /** `filter(lambda x: x['text'] not in drop, page)`. */
  function WithoutTexts(page: seq<Paragraph>, drop: set<string>): (r: seq<Paragraph>)
    ensures forall p :: p in r <==> p in page && p.text !in drop
  {
    if page == [] then []
    else
      var rest := WithoutTexts(page[1..], drop);
      assert forall p :: p in page <==> p == page[0] || p in page[1..];
      if page[0].text in drop then rest else [page[0]] + rest
  }
  /** `r` lists the records of `page` at the positions `idx`, which
      strictly increase: `r` is a subsequence of `page` in page order. */
  ghost predicate PickedAt(page: seq<Paragraph>, r: seq<Paragraph>, idx: seq<nat>)
  {
    && |idx| == |r|
    && (forall j :: 0 <= j < |idx| ==> idx[j] < |page| && r[j] == page[idx[j]])
    && (forall j, j' :: 0 <= j < j' < |idx| ==> idx[j] < idx[j'])
  }

  /** Every position one further on. */
  function Shift(idx: seq<nat>): (r: seq<nat>)
    ensures |r| == |idx| && forall j :: 0 <= j < |idx| ==> r[j] == idx[j] + 1
  {
    seq(|idx|, j requires 0 <= j < |idx| => idx[j] + 1)
  }

  /** A pick from the tail of a page is a pick from the page, with or
      without the head in front. */
  lemma PickedBehind(page: seq<Paragraph>, r: seq<Paragraph>, rest: seq<nat>)
    requires |page| > 0 && PickedAt(page[1..], r, rest)
    ensures PickedAt(page, r, Shift(rest))
    ensures PickedAt(page, [page[0]] + r, [0] + Shift(rest))
  {
  }

  /** A position past the first is among the shifted positions exactly
      when the one before it was among the originals. */
  lemma ShiftMembers(rest: seq<nat>, n: nat)
    ensures 0 !in Shift(rest)
    ensures forall k :: 0 < k < n ==> (k in Shift(rest) <==> k - 1 in rest)
  {
    var sh := Shift(rest);
    forall k | 0 < k < n ensures k in sh <==> k - 1 in rest {
      if k - 1 in rest {
        var j :| 0 <= j < |rest| && rest[j] == k - 1;
        assert sh[j] == k;
      }
    }
  }

  /** The first pass keeps the page order: it picks exactly the positions
      whose text is not dropped, in increasing order. */
  lemma {:induction false} WithoutTextsOrder(page: seq<Paragraph>, drop: set<string>) returns (idx: seq<nat>)
    ensures PickedAt(page, WithoutTexts(page, drop), idx)
    ensures forall k :: 0 <= k < |page| ==> (k in idx <==> page[k].text !in drop)
    decreases |page|
  {
    if page == [] {
      idx := [];
    } else {
      var rest := WithoutTextsOrder(page[1..], drop);
      PickedBehind(page, WithoutTexts(page[1..], drop), rest);
      ShiftMembers(rest, |page|);
      idx := if page[0].text in drop then Shift(rest) else [0] + Shift(rest);
      forall k | 0 < k < |page| ensures k in idx <==> page[k].text !in drop {
        assert page[k] == page[1..][k - 1];
      }
    }
  }


  /** The test of the second pass: more ASCII letters than half the
      length of the stripped, printable-only text. */
  predicate IsWordy(text: string)
  {
    2 * CountLetters(text) > |Strip(FilterPrintable(text))|
  }

  /** A text that passes the second pass holds an ASCII letter. */
  lemma WordyHasLetter(text: string)
    requires IsWordy(text)
    ensures exists k :: 0 <= k < |text| && IsAsciiLetter(text[k])
  {
  }

  /** The records of a page that pass the second pass, in order. */
  function KeepWordy(page: seq<Paragraph>): seq<Paragraph>
  {
    if page == [] then []
    else
      var front := KeepWordy(page[..|page| - 1]);
      var last := page[|page| - 1];
      assert forall p :: p in page <==> p in page[..|page| - 1] || p == last;
      if IsWordy(last.text) then front + [last] else front
  }

  /** The second pass keeps exactly the records whose text is wordy. */
  lemma {:induction false} KeepWordyMembers(page: seq<Paragraph>)
    ensures forall p :: p in KeepWordy(page) <==> p in page && IsWordy(p.text)
    decreases |page|
  {
    if page != [] {
      var init := page[..|page| - 1];
      KeepWordyMembers(init);
      assert forall p :: p in page <==> p in init || p == page[|page| - 1];
    }
  }
  /** A pick from all but the last record of a page is a pick from the
      page, with or without the last record behind. */
  lemma PickedBefore(page: seq<Paragraph>, r: seq<Paragraph>, front: seq<nat>)
    requires |page| > 0 && PickedAt(page[..|page| - 1], r, front)
    ensures PickedAt(page, r, front)
    ensures PickedAt(page, r + [page[|page| - 1]], front + [|page| - 1])
    ensures |page| - 1 !in front
  {
  }

  /** The positions `idx` are exactly those of the wordy records of `page`. */
  ghost predicate WordyPositions(page: seq<Paragraph>, idx: seq<nat>)
  {
    forall k :: 0 <= k < |page| ==> (k in idx <==> IsWordy(page[k].text))
  }

  /** The wordy positions of a page extend those of all but its last
      record by the last position, when that record is wordy. */
  lemma WordyPositionsSnoc(page: seq<Paragraph>, front: seq<nat>)
    requires |page| > 0 && WordyPositions(page[..|page| - 1], front) && |page| - 1 !in front
    ensures WordyPositions(page, if IsWordy(page[|page| - 1].text) then front + [|page| - 1] else front)
  {
    var last := |page| - 1;
    var idx := if IsWordy(page[last].text) then front + [last] else front;
    forall k | 0 <= k < |page| ensures k in idx <==> IsWordy(page[k].text) {
      if k < last {
        assert page[k] == page[..last][k];
        assert k in idx <==> k in front;
      } else if IsWordy(page[last].text) {
        assert idx[|front|] == k;
      }
    }
  }

  /** The second pass keeps the page order: it picks exactly the positions
      whose text is wordy, in increasing order. */
  lemma {:induction false} KeepWordyOrder(page: seq<Paragraph>) returns (idx: seq<nat>)
    ensures PickedAt(page, KeepWordy(page), idx)
    ensures WordyPositions(page, idx)
    decreases |page|
  {
    if page == [] {
      idx := [];
    } else {
      var front := KeepWordyOrder(page[..|page| - 1]);
      idx := KeepWordyOrderStep(page, front);
    }
  }

  lemma KeepWordyOrderStep(page: seq<Paragraph>, front: seq<nat>) returns (idx: seq<nat>)
    requires |page| > 0
    requires PickedAt(page[..|page| - 1], KeepWordy(page[..|page| - 1]), front)
    requires WordyPositions(page[..|page| - 1], front)
    ensures PickedAt(page, KeepWordy(page), idx)
    ensures WordyPositions(page, idx)
  {
    var n := |page|;
    PickedBefore(page, KeepWordy(page[..n - 1]), front);
    WordyPositionsSnoc(page, front);
    if IsWordy(page[n - 1].text) {
      idx := front + [n - 1];
    } else {
      idx := front;
    }
  }

  /** The loop of the second pass over one page. */
  method KeepWordyPage(page: seq<Paragraph>) returns (newPage: seq<Paragraph>)
    ensures newPage == KeepWordy(page)
  {
    newPage := [];
    for k := 0 to |page|
      invariant newPage == KeepWordy(page[..k])
    {
      assert page[..k + 1][..k] == page[..k];
      var item := page[k];
      var normalizedText := Strip(FilterPrintable(item.text));
      var words := CountLetters(item.text);
      if 2 * words > |normalizedText| {
        newPage := newPage + [item];
      }
    }
    assert page[..|page|] == page;
  }

  /** `re.sub(r'\s+', ' ', text)`. */
  function CollapseSpaces(text: string): string
  {
    CollapseRuns(text, Whitespace)
  }

  /** The text after the third pass: no two neighbouring whitespace
      characters, every whitespace a plain space, and the same non-space
      characters as the input. */
  lemma CollapseSpacesShape(text: string, c: char)
    requires !IsSpace(c)
    ensures NoAdjacentRun(CollapseSpaces(text), Whitespace)
    ensures OnlySpaces(CollapseSpaces(text), Whitespace)
    ensures c in CollapseSpaces(text) <==> c in text
    ensures CollapseSpaces(CollapseSpaces(text)) == CollapseSpaces(text)
  {
    CollapseRunsShape(text, Whitespace);
    CollapseRunsKeeps(text, Whitespace, c);
    CollapseRunsIdempotent(text, Whitespace);
  }

  /** The third pass on one record: only the text changes. */
  function CollapseRecord(p: Paragraph): Paragraph
  {
    p.(text := CollapseSpaces(p.text))
  }

  function CollapseAll(page: seq<Paragraph>): seq<Paragraph>
  {
    seq(|page|, k requires 0 <= k < |page| => CollapseRecord(page[k]))
  }

  /** The in-place loop of the third pass over one page. */
  method CollapsePage(page: seq<Paragraph>) returns (r: seq<Paragraph>)
    ensures r == CollapseAll(page)
    ensures |r| == |page|
    ensures forall k :: 0 <= k < |page| ==> r[k].bbox == page[k].bbox && r[k].text == CollapseSpaces(page[k].text)
  {
    r := page;
    for k := 0 to |r|
      invariant |r| == |page|
      invariant forall k' :: 0 <= k' < k ==> r[k'] == CollapseRecord(page[k'])
      invariant forall k' :: k <= k' < |r| ==> r[k'] == page[k']
    {
      r := r[k := r[k].(text := CollapseSpaces(r[k].text))];
    }
  }

  /** One page after the three passes, given the redundant texts. */
  function CleanPage(page: seq<Paragraph>, drop: set<string>): seq<Paragraph>
  {
    CollapseAll(KeepWordy(WithoutTexts(page, drop)))
  }

  lemma CollapseAllMembers(page: seq<Paragraph>, q: Paragraph)
    ensures q in CollapseAll(page) <==> exists p :: p in page && q == CollapseRecord(p)
  {
    if q in CollapseAll(page) {
      var k :| 0 <= k < |page| && CollapseAll(page)[k] == q;
      assert page[k] in page;
    }
    if exists p :: p in page && q == CollapseRecord(p) {
      var p :| p in page && q == CollapseRecord(p);
      var k :| 0 <= k < |page| && page[k] == p;
      assert CollapseAll(page)[k] == q;
    }
  }

  /** A record comes out of the three passes exactly when its text is not
      dropped and is wordy, and then with its whitespace collapsed. */
  lemma CleanPageMembers(page: seq<Paragraph>, drop: set<string>, q: Paragraph)
    ensures q in CleanPage(page, drop) <==>
      exists p :: p in page && p.text !in drop && IsWordy(p.text) && q == CollapseRecord(p)
  {
    var kept := KeepWordy(WithoutTexts(page, drop));
    KeepWordyMembers(WithoutTexts(page, drop));
    CollapseAllMembers(kept, q);
    assert forall p :: p in kept <==> p in page && p.text !in drop && IsWordy(p.text);
  }
  /** A pick from a pick is a pick, at the composed positions. */
  lemma PickedTwice(page: seq<Paragraph>, mid: seq<Paragraph>, r: seq<Paragraph>, i1: seq<nat>, i2: seq<nat>)
    returns (idx: seq<nat>)
    requires PickedAt(page, mid, i1) && PickedAt(mid, r, i2)
    ensures PickedAt(page, r, idx)
    ensures forall j :: 0 <= j < |i2| ==> idx[j] == i1[i2[j]]
  {
    idx := seq(|i2|, j requires 0 <= j < |i2| => i1[i2[j]]);
  }

  /** The first two passes together keep the page order: they pick exactly
      the positions whose text is not dropped and is wordy, in increasing
      order; the third pass then rewrites each record where it stands. */
  lemma CleanPageOrder(page: seq<Paragraph>, drop: set<string>) returns (idx: seq<nat>)
    ensures PickedAt(page, KeepWordy(WithoutTexts(page, drop)), idx)
    ensures forall k :: 0 <= k < |page| ==> (k in idx <==> page[k].text !in drop && IsWordy(page[k].text))
  {
    var mid := WithoutTexts(page, drop);
    var i1 := WithoutTextsOrder(page, drop);
    var i2 := KeepWordyOrder(mid);
    idx := PickedTwice(page, mid, KeepWordy(mid), i1, i2);
    forall k | 0 <= k < |page| ensures k in idx <==> page[k].text !in drop && IsWordy(page[k].text) {
      if k in idx {
        var j :| 0 <= j < |idx| && idx[j] == k;
        assert mid[i2[j]] == page[k];
      }
      if page[k].text !in drop && IsWordy(page[k].text) {
        var j1 :| 0 <= j1 < |i1| && i1[j1] == k;
        assert mid[j1] == page[k];
        var j2 :| 0 <= j2 < |i2| && i2[j2] == j1;
        assert idx[j2] == k;
      }
    }
  }


  /** The result of `get_true_paragraphs` on the pages collected so far. */
  ghost function TrueParagraphs(pages: seq<seq<Paragraph>>): (r: seq<seq<Paragraph>>)
    ensures |r| == |pages|
  {
    var drop := Redundant(pages);
    seq(|pages|, i requires 0 <= i < |pages| => CleanPage(pages[i], drop))
  }

  /** A record survives the clean-up exactly when its text occurs once
      over all pages and passes the letter test; it then comes out with its
      whitespace collapsed and its box unchanged. */
  lemma TrueParagraphsSurvivors(pages: seq<seq<Paragraph>>, i: nat, q: Paragraph)
    requires i < |pages|
    ensures q in TrueParagraphs(pages)[i] <==>
      exists p :: p in pages[i] && Occurrences(pages, p.text) == 1 && IsWordy(p.text) && q == CollapseRecord(p)
  {
    var drop := Redundant(pages);
    CleanPageMembers(pages[i], drop, q);
    forall p | p in pages[i] ensures p.text !in drop <==> Occurrences(pages, p.text) == 1 {
      var k :| 0 <= k < |pages[i]| && pages[i][k] == p;
      OccurrencesPositive(pages, i, k);
      RedundantIff(pages, p.text);
    }
  }
  /** `get_true_paragraphs` keeps each page in order: page `i` of the
      result collapses, record by record, the subsequence of `pages[i]` at
      exactly the positions whose text occurs once in the whole document
      and is wordy. */
  lemma TrueParagraphsOrder(pages: seq<seq<Paragraph>>, i: nat) returns (kept: seq<Paragraph>, idx: seq<nat>)
    requires i < |pages|
    ensures TrueParagraphs(pages)[i] == CollapseAll(kept)
    ensures PickedAt(pages[i], kept, idx)
    ensures forall k :: 0 <= k < |pages[i]| ==>
      (k in idx <==> Occurrences(pages, pages[i][k].text) == 1 && IsWordy(pages[i][k].text))
  {
    var drop := Redundant(pages);
    kept := KeepWordy(WithoutTexts(pages[i], drop));
    idx := CleanPageOrder(pages[i], drop);
    forall k | 0 <= k < |pages[i]| ensures pages[i][k].text !in drop <==> Occurrences(pages, pages[i][k].text) == 1 {
      OccurrencesPositive(pages, i, k);
      RedundantIff(pages, pages[i][k].text);
    }
  }


  /** A letter of the text is still in it after the third pass. */
  lemma LetterCollapsed(text: string, k: nat)
    requires k < |text| && IsAsciiLetter(text[k])
    ensures var r := CollapseSpaces(text); exists j :: 0 <= j < |r| && IsAsciiLetter(r[j])
  {
    var c := text[k];
    assert !IsSpace(c);
    CollapseRunsKeeps(text, Whitespace, c);
    var r := CollapseSpaces(text);
    var j :| 0 <= j < |r| && r[j] == c;
  }

  /** A wordy text keeps an ASCII letter through the third pass. */
  lemma WordyCollapsed(text: string)
    requires IsWordy(text)
    ensures var r := CollapseSpaces(text);
      && (exists k :: 0 <= k < |r| && IsAsciiLetter(r[k]))
      && NoAdjacentRun(r, Whitespace) && OnlySpaces(r, Whitespace)
  {
    WordyHasLetter(text);
    var k :| 0 <= k < |text| && IsAsciiLetter(text[k]);
    LetterCollapsed(text, k);
    CollapseRunsShape(text, Whitespace);
  }

  lemma SurvivorSource(pages: seq<seq<Paragraph>>, i: nat, q: Paragraph) returns (p: Paragraph)
    requires i < |pages| && q in TrueParagraphs(pages)[i]
    ensures p in pages[i] && IsWordy(p.text) && q == CollapseRecord(p)
  {
    CleanPageMembers(pages[i], Redundant(pages), q);
    p :| p in pages[i] && p.text !in Redundant(pages) && IsWordy(p.text) && q == CollapseRecord(p);
  }

  /** Every text after the clean-up holds an ASCII letter and is in
      collapsed shape. */
  lemma TrueParagraphsTexts(pages: seq<seq<Paragraph>>, i: nat, q: Paragraph)
    requires i < |pages| && q in TrueParagraphs(pages)[i]
    ensures exists k :: 0 <= k < |q.text| && IsAsciiLetter(q.text[k])
    ensures NoAdjacentRun(q.text, Whitespace) && OnlySpaces(q.text, Whitespace)
  {
    var p := SurvivorSource(pages, i, q);
    WordyCollapsed(p.text);
  }

  lemma {:induction false} OccInTwice(page: seq<Paragraph>, k1: nat, k2: nat)
    requires k1 < k2 < |page| && page[k1].text == page[k2].text
    ensures OccIn(page, page[k1].text) >= 2
    decreases |page|
  {
    var front := page[..|page| - 1];
    if k2 == |page| - 1 {
      OccInPositive(front, k1);
    } else {
      OccInTwice(front, k1, k2);
    }
  }

  lemma {:induction false} OccurrencesCoverPage(pages: seq<seq<Paragraph>>, i: nat, t: string)
    requires i < |pages|
    ensures Occurrences(pages, t) >= OccIn(pages[i], t)
    decreases |pages|
  {
    if i < |pages| - 1 {
      OccurrencesCoverPage(pages[..|pages| - 1], i, t);
    }
  }

  lemma {:induction false} OccurrencesCoverTwoPages(pages: seq<seq<Paragraph>>, i: nat, j: nat, t: string)
    requires i < j < |pages|
    ensures Occurrences(pages, t) >= OccIn(pages[i], t) + OccIn(pages[j], t)
    decreases |pages|
  {
    var front := pages[..|pages| - 1];
    if j == |pages| - 1 {
      OccurrencesCoverPage(front, i, t);
    } else {
      OccurrencesCoverTwoPages(front, i, j, t);
    }
  }

  /** A text carried by two different records, on one page or on two, is
      redundant: no record of the result comes from a record with that
      text. This is how running headers and footers disappear. */
  lemma RepeatedTextDropped(pages: seq<seq<Paragraph>>, i1: nat, k1: nat, i2: nat, k2: nat)
    requires i1 < |pages| && k1 < |pages[i1]| && i2 < |pages| && k2 < |pages[i2]|
    requires (i1, k1) != (i2, k2) && pages[i1][k1].text == pages[i2][k2].text
    ensures pages[i1][k1].text in Redundant(pages)
    ensures forall i, q :: 0 <= i < |pages| && q in TrueParagraphs(pages)[i] ==>
      exists p :: p in pages[i] && p.text != pages[i1][k1].text && q == CollapseRecord(p)
  {
    var t := pages[i1][k1].text;
    if i1 == i2 {
      if k1 < k2 { OccInTwice(pages[i1], k1, k2); } else { OccInTwice(pages[i1], k2, k1); }
      OccurrencesCoverPage(pages, i1, t);
    } else {
      OccInPositive(pages[i1], k1);
      OccInPositive(pages[i2], k2);
      if i1 < i2 {
        OccurrencesCoverTwoPages(pages, i1, i2, t);
      } else {
        OccurrencesCoverTwoPages(pages, i2, i1, t);
      }
    }
    RedundantIff(pages, t);
    forall i, q | 0 <= i < |pages| && q in TrueParagraphs(pages)[i]
      ensures exists p :: p in pages[i] && p.text != t && q == CollapseRecord(p)
    {
      CleanPageMembers(pages[i], Redundant(pages), q);
    }
  }

  /** A page number, a text of digits only, is dropped by the second
      pass. */
  lemma NumberOnlyIsNotWordy(text: string)
    requires forall k :: 0 <= k < |text| ==> IsAsciiDigit(text[k])
    ensures !IsWordy(text)
  {
    assert forall k :: 0 <= k < |text| ==> !IsAsciiLetter(text[k]);
  }

  /** A non-empty text of ASCII letters only, such as a single word, is
      kept by the second pass. */
  lemma LettersOnlyWordy(text: string)
    requires text != [] && forall k :: 0 <= k < |text| ==> IsAsciiLetter(text[k])
    ensures IsWordy(text)
  {
    CountLettersAll(text);
    var clean := FilterPrintable(text);
    assert |StripChars(clean, Whitespace)| <= |clean|;
  }

  // ---------------------------------------------------------------------
  // TextHandler
  // ---------------------------------------------------------------------

  /** The text device: its layout parameters and one list of records per
      page received. */
  class TextHandler {
    var laparams: map<string, ParamValue>
    var pages: seq<seq<Paragraph>>

    /** `TextHandler(rsrcmgr, laparams)`: the defaults updated with the
        caller's parameters, and no pages yet. */
    constructor (overrides: Option<map<string, ParamValue>>)
      ensures laparams == MergeLaparams(overrides)
      ensures pages == []
    {
      laparams := MergeLaparams(overrides);
      pages := [];
    }

    /** `receive_layout`: the page's records, in render order, become a
        new last page. */
    method ReceiveLayout(ltpage: Item)
      modifies this
      ensures pages == old(pages) + [Render(ltpage)]
      ensures laparams == old(laparams)
    {
      var paragraphs := Render(ltpage);
      pages := pages + [paragraphs];
    }

    /** `get_true_paragraphs`: drop texts repeated anywhere, drop records
        that are not wordy, collapse whitespace, in place, and return the
        pages. */
    method GetTrueParagraphs() returns (r: seq<seq<Paragraph>>)
      modifies this
      ensures pages == TrueParagraphs(old(pages))
      ensures r == pages
      ensures laparams == old(laparams)
    {
      var ps := CleanPages(pages);
      pages := ps;
      r := pages;
    }
  }

  /** The three passes of `get_true_paragraphs` over the pages. */
  method CleanPages(pages: seq<seq<Paragraph>>) returns (ps: seq<seq<Paragraph>>)
    ensures ps == TrueParagraphs(pages)
  {
    var counter := CountTexts(pages);
    var redundant := set t | t in counter && counter[t] > 1;
    RedundantFromCounter(pages, counter, redundant);
    ps := pages;
    for i := 0 to |ps|
      invariant |ps| == |pages|
      invariant forall i' :: 0 <= i' < |ps| ==>
        ps[i'] == if i' < i then WithoutTexts(pages[i'], redundant) else pages[i']
    {
      ps := ps[i := WithoutTexts(ps[i], redundant)];
    }
    for i := 0 to |ps|
      invariant |ps| == |pages|
      invariant forall i' :: 0 <= i' < |ps| ==>
        ps[i'] == if i' < i then KeepWordy(WithoutTexts(pages[i'], redundant)) else WithoutTexts(pages[i'], redundant)
    {
      var newPage := KeepWordyPage(ps[i]);
      ps := ps[i := newPage];
    }
    for i := 0 to |ps|
      invariant |ps| == |pages|
      invariant forall i' :: 0 <= i' < |ps| ==>
        ps[i'] == if i' < i then CleanPage(pages[i'], redundant) else KeepWordy(WithoutTexts(pages[i'], redundant))
    {
      var page := CollapsePage(ps[i]);
      ps := ps[i := page];
    }
  }

  lemma RedundantFromCounter(pages: seq<seq<Paragraph>>, counter: map<string, nat>, redundant: set<string>)
    requires forall t :: Get(counter, t) == Occurrences(pages, t)
    requires redundant == set t | t in counter && counter[t] > 1
    ensures redundant == Redundant(pages)
  {
    forall t ensures t in redundant <==> t in Redundant(pages) {
      RedundantIff(pages, t);
      assert Get(counter, t) == Occurrences(pages, t);
    }
  }

  lemma {:induction false} OccInAt(page: seq<Paragraph>, t: string) returns (k: nat)
    requires OccIn(page, t) > 0
    ensures k < |page| && page[k].text == t
    decreases |page|
  {
    if page[|page| - 1].text == t {
      k := |page| - 1;
    } else {
      k := OccInAt(page[..|page| - 1], t);
    }
  }
}
