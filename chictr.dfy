/** The Chinese Clinical Trial Registry spider: it reads the history page
    of a registered trial, follows the newest version, and flattens the
    detail page's tables into a dictionary of (title, value) entries.
    HTML selection is an input: a table is a list of bodies, a body a
    list of rows, a row a list of cells, and a cell carries what the
    spider reads from it (its rowspan attribute, its English title text,
    its nested tables, its English and plain text). */
module Chictr {
  import opened Wrappers
  import opened PyStrings

  /** A table cell. `id` stands for the identity of the selector object:
      the same cell inserted into several rows keeps its `id`. The
      selection is expected to give distinct cells distinct ids; nothing
      here depends on it except what `processed` skips. */
  datatype Cell = Cell(id: nat, rowspan: Option<string>, title: Option<string>,
                       tables: seq<Table>, enText: Option<string>, text: Option<string>)

  datatype Row = Row(cells: seq<Cell>)

  datatype Body = Body(rows: seq<Row>)

  datatype Table = Table(bodies: seq<Body>)

  /** The `cells` list `parse_table` builds for one body: a list of rows,
      each the list of its cells. */
  type Rows = seq<seq<Cell>>

  function RowsOf(body: Body): (r: Rows)
    ensures |r| == |body.rows|
    ensures forall q :: 0 <= q < |r| ==> r[q] == body.rows[q].cells
  {
    seq(|body.rows|, q requires 0 <= q < |body.rows| => body.rows[q].cells)
  }

  type Pair = (string, string)

  // ---------------------------------------------------------------------
  // The rowspan fix
  // ---------------------------------------------------------------------

  /** `int((cell.xpath('./@rowspan').extract_first() or '1').strip())`. */
  function Rowspan(c: Cell): (r: Result<int>)
    ensures r.Failure? ==> r.error == ValueError
  {
    var attr := if c.rowspan.None? || c.rowspan.value == "" then "1" else c.rowspan.value;
    ParseInt(Strip(attr))
  }

  /** `row.insert(j, c)`: an index past the end appends. */
  function InsertAt(row: seq<Cell>, j: nat, c: Cell): (r: seq<Cell>)
    ensures |r| == |row| + 1
    ensures multiset(r) == multiset(row) + multiset{c}
    ensures var at := if j <= |row| then j else |row|;
      r[at] == c && r[..at] == row[..at] && r[at + 1..] == row[at..]
  {
    var at := if j <= |row| then j else |row|;
    assert row == row[..at] + row[at..];
    row[..at] + [c] + row[at..]
  }

  /** `for k in range(k, span): cells[i + k].insert(j, c)`. */
  function SpanDown(cells: Rows, i: nat, j: nat, c: Cell, k: nat, span: int): (r: Result<Rows>)
    ensures r.Success? ==> |r.value| == |cells|
    ensures r.Success? ==> forall q :: 0 <= q < |cells| && (q < i + k || q >= i + span) ==> r.value[q] == cells[q]
    decreases span - k
  {
    if k >= span then Success(cells)
    else if i + k >= |cells| then Failure(IndexError)
    else SpanDown(cells[i + k := InsertAt(cells[i + k], j, c)], i, j, c, k + 1, span)
  }

  /** The expansion inserts the cell at column `j` into rows `i+k … i+span-1`
      and nowhere else, or raises IndexError when those rows run past the
      table. */
  lemma {:induction false} SpanDownEffect(cells: Rows, i: nat, j: nat, c: Cell, k: nat, span: int)
    requires 1 <= k
    ensures SpanDown(cells, i, j, c, k, span).Failure? <==> k < span && i + span > |cells|
    ensures SpanDown(cells, i, j, c, k, span).Failure? ==> SpanDown(cells, i, j, c, k, span).error == IndexError
    ensures SpanDown(cells, i, j, c, k, span).Success? ==>
      forall q :: 0 <= q < |cells| && i + k <= q < i + span ==>
        SpanDown(cells, i, j, c, k, span).value[q] == InsertAt(cells[q], j, c)
    decreases span - k
  {
    if k < span && i + k < |cells| {
      var next := cells[i + k := InsertAt(cells[i + k], j, c)];
      SpanDownEffect(next, i, j, c, k + 1, span);
    }
  }

  /** One pass of the inner loop: cell `j` of row `i`. */
  function FixCell(cells: Rows, processed: set<nat>, i: nat, j: nat, spanOf: Cell -> Result<int>): (r: Result<(Rows, set<nat>)>)
    requires i < |cells| && j < |cells[i]|
    ensures r.Success? ==> |r.value.0| == |cells|
    ensures r.Success? ==> forall q :: 0 <= q <= i ==> r.value.0[q] == cells[q]
  {
    var c := cells[i][j];
    var span :- spanOf(c);
    if span > 1 && c.id !in processed then
      var expanded :- SpanDown(cells, i, j, c, 1, span);
      Success((expanded, processed + {c.id}))
    else Success((cells, processed))
  }

  /** The rest of row `i`, from column `j` on. */
  function FixRow(cells: Rows, processed: set<nat>, i: nat, j: nat, spanOf: Cell -> Result<int>): (r: Result<(Rows, set<nat>)>)
    ensures r.Success? ==> |r.value.0| == |cells|
    ensures r.Success? ==> forall q :: 0 <= q < |cells| && q <= i ==> r.value.0[q] == cells[q]
    decreases if i < |cells| then |cells[i]| - j else 0
  {
    if i >= |cells| || j >= |cells[i]| then Success((cells, processed))
    else
      var step :- FixCell(cells, processed, i, j, spanOf);
      FixRow(step.0, step.1, i, j + 1, spanOf)
  }

  /** The rest of the outer loop, from row `i` on. */
  function FixRows(cells: Rows, processed: set<nat>, i: nat, spanOf: Cell -> Result<int>): (r: Result<(Rows, set<nat>)>)
    ensures r.Success? ==> |r.value.0| == |cells|
    ensures r.Success? ==> forall q :: 0 <= q < |cells| && q < i ==> r.value.0[q] == cells[q]
    decreases |cells| - i
  {
    if i >= |cells| then Success((cells, processed))
    else
      var step :- FixRow(cells, processed, i, 0, spanOf);
      FixRows(step.0, step.1, i + 1, spanOf)
  }

  /** The rows of one body after the rowspan fix. */
  function Fixed(body: Rows): Result<Rows> {
    var s :- FixRows(body, {}, 0, Rowspan);
    Success(s.0)
  }

  /** A cell already expanded is never expanded again; a cell that is
      expanded is remembered; the set of expanded cells only grows. */
  lemma FixCellOnce(cells: Rows, processed: set<nat>, i: nat, j: nat, spanOf: Cell -> Result<int>)
    requires i < |cells| && j < |cells[i]|
    ensures cells[i][j].id in processed && spanOf(cells[i][j]).Success? ==>
              FixCell(cells, processed, i, j, spanOf) == Success((cells, processed))
    ensures FixCell(cells, processed, i, j, spanOf).Success? ==>
              processed <= FixCell(cells, processed, i, j, spanOf).value.1
    ensures FixCell(cells, processed, i, j, spanOf).Success? && FixCell(cells, processed, i, j, spanOf).value.0 != cells ==>
              FixCell(cells, processed, i, j, spanOf).value.1 == processed + {cells[i][j].id}
  {
  }

  /** A cell fails the fix with ValueError when its rowspan is not a
      number, and with IndexError when it is a new spanning cell that
      reaches past the last row; otherwise it expands into exactly the
      rows below it that it spans. */
  lemma FixCellEffect(cells: Rows, processed: set<nat>, i: nat, j: nat, spanOf: Cell -> Result<int>)
    requires i < |cells| && j < |cells[i]|
    ensures var c := cells[i][j]; var r := FixCell(cells, processed, i, j, spanOf);
      && (spanOf(c).Failure? ==> r == Failure(spanOf(c).error))
      && (spanOf(c).Success? ==>
            (r.Failure? <==> spanOf(c).value > 1 && c.id !in processed && i + spanOf(c).value > |cells|))
      && (r.Failure? ==> (spanOf(c).Failure? && r.error == spanOf(c).error) || r.error == IndexError)
      && (r.Success? && spanOf(c).value > 1 && c.id !in processed ==>
            forall q :: 0 <= q < |cells| ==>
              r.value.0[q] == if i < q < i + spanOf(c).value then InsertAt(cells[q], j, c) else cells[q])
  {
    var c := cells[i][j];
    if spanOf(c).Success? {
      SpanDownEffect(cells, i, j, c, 1, spanOf(c).value);
    }
  }

  /** Every cell in the fixed rows is a cell of the body it came from. */
  ghost predicate CellsFrom(cells: Rows, body: Rows) {
    forall q, c :: 0 <= q < |cells| && c in cells[q] ==> exists p :: 0 <= p < |body| && c in body[p]
  }

  lemma {:induction false} SpanDownKeepsCells(cells: Rows, i: nat, j: nat, c: Cell, k: nat, span: int, body: Rows)
    requires CellsFrom(cells, body)
    requires exists p :: 0 <= p < |body| && c in body[p]
    requires SpanDown(cells, i, j, c, k, span).Success?
    ensures CellsFrom(SpanDown(cells, i, j, c, k, span).value, body)
    decreases span - k
  {
    if k < span {
      var next := cells[i + k := InsertAt(cells[i + k], j, c)];
      forall q, x | 0 <= q < |next| && x in next[q]
        ensures exists p :: 0 <= p < |body| && x in body[p]
      {
        if q == i + k {
          assert x in multiset(next[q]);
          assert x in cells[q] || x == c;
        } else {
          assert x in cells[q];
        }
      }
      SpanDownKeepsCells(next, i, j, c, k + 1, span, body);
    }
  }

  lemma {:induction false} FixRowKeepsCells(cells: Rows, processed: set<nat>, i: nat, j: nat, spanOf: Cell -> Result<int>, body: Rows)
    requires CellsFrom(cells, body)
    requires FixRow(cells, processed, i, j, spanOf).Success?
    ensures CellsFrom(FixRow(cells, processed, i, j, spanOf).value.0, body)
    decreases if i < |cells| then |cells[i]| - j else 0
  {
    if i < |cells| && j < |cells[i]| {
      var c := cells[i][j];
      var span := spanOf(c).value;
      if span > 1 && c.id !in processed {
        assert c in cells[i];
        SpanDownKeepsCells(cells, i, j, c, 1, span, body);
      }
      var step := FixCell(cells, processed, i, j, spanOf).value;
      FixRowKeepsCells(step.0, step.1, i, j + 1, spanOf, body);
    }
  }

  lemma {:induction false} FixRowsKeepsCells(cells: Rows, processed: set<nat>, i: nat, spanOf: Cell -> Result<int>, body: Rows)
    requires CellsFrom(cells, body)
    requires FixRows(cells, processed, i, spanOf).Success?
    ensures CellsFrom(FixRows(cells, processed, i, spanOf).value.0, body)
    decreases |cells| - i
  {
    if i < |cells| {
      var step := FixRow(cells, processed, i, 0, spanOf).value;
      assert FixRows(cells, processed, i, spanOf) == FixRows(step.0, step.1, i + 1, spanOf);
      FixRowKeepsCells(cells, processed, i, 0, spanOf, body);
      FixRowsKeepsCells(step.0, step.1, i + 1, spanOf, body);
    }
  }

  /** The fix only copies cells of the body. */
  lemma FixedKeepsCells(body: Rows)
    ensures Fixed(body).Success? ==> CellsFrom(Fixed(body).value, body)
  {
    if FixRows(body, {}, 0, Rowspan).Success? {
      FixRowsKeepsCells(body, {}, 0, Rowspan, body);
    }
  }

  /** The whole rest of the outer loop, once row `i` ends in `res`. */
  function AfterRow(res: Result<(Rows, set<nat>)>, i: nat, spanOf: Cell -> Result<int>): Result<(Rows, set<nat>)> {
    var s :- res;
    FixRows(s.0, s.1, i + 1, spanOf)
  }

  /** One pass of the inner loop, and what is left of the row after it. */
  lemma FixRowStep(cells: Rows, processed: set<nat>, i: nat, j: nat, spanOf: Cell -> Result<int>)
    requires i < |cells| && j < |cells[i]|
    ensures var c := cells[i][j]; var span := spanOf(c);
      && (span.Failure? ==> FixRow(cells, processed, i, j, spanOf) == Failure(span.error))
      && (span.Success? && span.value > 1 && c.id !in processed &&
          SpanDown(cells, i, j, c, 1, span.value).Failure? ==>
            FixRow(cells, processed, i, j, spanOf) == Failure(SpanDown(cells, i, j, c, 1, span.value).error))
      && (span.Success? && span.value > 1 && c.id !in processed &&
          SpanDown(cells, i, j, c, 1, span.value).Success? ==>
            FixRow(cells, processed, i, j, spanOf) ==
              FixRow(SpanDown(cells, i, j, c, 1, span.value).value, processed + {c.id}, i, j + 1, spanOf))
      && (span.Success? && !(span.value > 1 && c.id !in processed) ==>
            FixRow(cells, processed, i, j, spanOf) == FixRow(cells, processed, i, j + 1, spanOf))
  {
  }

  /** Row `i` done: the outer loop goes on with row `i + 1`. */
  lemma FixRowDone(cells: Rows, processed: set<nat>, i: nat, j: nat, spanOf: Cell -> Result<int>)
    requires i < |cells| && j >= |cells[i]|
    ensures AfterRow(FixRow(cells, processed, i, j, spanOf), i, spanOf) == FixRows(cells, processed, i + 1, spanOf)
  {
  }

  /** Row `i` about to start. */
  lemma FixRowsStep(cells: Rows, processed: set<nat>, i: nat, spanOf: Cell -> Result<int>)
    requires i < |cells|
    ensures FixRows(cells, processed, i, spanOf) == AfterRow(FixRow(cells, processed, i, 0, spanOf), i, spanOf)
  {
  }

  /** A failure inside row `i` is the failure of the whole fix. */
  lemma RowFailureIsFinal(body: Rows, res: Result<(Rows, set<nat>)>, i: nat, e: PyError)
    requires res == Failure(e)
    requires AfterRow(res, i, Rowspan) == FixRows(body, {}, 0, Rowspan)
    ensures Fixed(body) == Failure(e)
  {
  }

  /** `for k in range(1, span): cells[i + k].insert(j, cell)`. */
  method ExpandCell(body: Rows, i: nat, j: nat, cell: Cell, span: int) returns (r: Result<Rows>)
    requires span > 1
    ensures r == SpanDown(body, i, j, cell, 1, span)
  {
    var cells := body;
    for k := 1 to span
      invariant |cells| == |body|
      invariant SpanDown(cells, i, j, cell, k, span) == SpanDown(body, i, j, cell, 1, span)
    {
      if i + k >= |cells| {
        return Failure(IndexError);
      }
      cells := cells[i + k := InsertAt(cells[i + k], j, cell)];
    }
    return Success(cells);
  }

  /** The rowspan fix of `parse_table`, in place on the rows of a body. */
  method FixRowspans(body: Rows) returns (r: Result<Rows>)
    ensures r == Fixed(body)
  {
    var cells := body;
    var processed: set<nat> := {};
    var n := |cells|;
    for i := 0 to n
      invariant |cells| == n
      invariant FixRows(cells, processed, i, Rowspan) == FixRows(body, {}, 0, Rowspan)
    {
      FixRowsStep(cells, processed, i, Rowspan);
      var j := 0;
      while j < |cells[i]|
        invariant |cells| == n
        invariant AfterRow(FixRow(cells, processed, i, j, Rowspan), i, Rowspan) == FixRows(body, {}, 0, Rowspan)
        decreases |cells[i]| - j
      {
        var cell := cells[i][j];
        var span := Rowspan(cell);
        FixRowStep(cells, processed, i, j, Rowspan);
        if span.Failure? {
          RowFailureIsFinal(body, FixRow(cells, processed, i, j, Rowspan), i, ValueError);
          return Failure(ValueError);
        }
        if span.value > 1 && cell.id !in processed {
          var expanded := ExpandCell(cells, i, j, cell, span.value);
          if expanded.Failure? {
            SpanDownEffect(cells, i, j, cell, 1, span.value);
            RowFailureIsFinal(body, FixRow(cells, processed, i, j, Rowspan), i, IndexError);
            return Failure(IndexError);
          }
          cells := expanded.value;
          processed := processed + {cell.id};
        }
        j := j + 1;
      }
      FixRowDone(cells, processed, i, j, Rowspan);
    }
    return Success(cells);
  }

  // ---------------------------------------------------------------------
  // Titles
  // ---------------------------------------------------------------------

  /** The characters `title.strip('\r\n： ')` removes from the ends. */
  const TitleEnds: set<char> := {'\r', '\n', '：', ' '}

  /** The class `[$\s.]`. */
  const TitleRun: set<char> := Whitespace + {'$', '.'}

  /** `re.sub(r'[$\s.]+', ' ', title.strip('\r\n： '))`. */
  function NormTitle(raw: string): string {
    CollapseRuns(StripChars(raw, TitleEnds), TitleRun)
  }

  /** A normalised title has no `$` and no `.`, never two whitespace
      characters in a row, and keeps every other character of the raw
      title except the full-width colons it strips from the ends. */
  lemma NormTitleShape(raw: string)
    ensures '$' !in NormTitle(raw) && '.' !in NormTitle(raw)
    ensures NoAdjacentRun(NormTitle(raw), TitleRun)
    ensures forall c :: c !in TitleRun && c != '：' ==> (c in NormTitle(raw) <==> c in raw)
  {
    var s := StripChars(raw, TitleEnds);
    CollapseRunsShape(s, TitleRun);
    StripCharsKeeps(raw, TitleEnds);
    forall c | c !in TitleRun && c != '：' ensures c in NormTitle(raw) <==> c in raw {
      CollapseRunsKeeps(s, TitleRun, c);
    }
    assert '$' in TitleRun && '.' in TitleRun;
  }

  /** A nested entry's key is `title + '$$' + k`. */
  function NestedKey(title: string, k: string): string {
    title + "$$" + k
  }

  /** Since a normalised title has no `$`, the title of a nested entry is
      everything before the first `$` of its key. */
  lemma NestedKeyRecoversTitle(raw: string, k: string)
    ensures var key := NestedKey(NormTitle(raw), k);
      '$' in key && key[..IndexOf(key, '$')] == NormTitle(raw)
  {
    NormTitleShape(raw);
    FirstSeparator(NormTitle(raw), k);
  }

  lemma FirstSeparator(t: string, k: string)
    requires '$' !in t
    ensures var key := NestedKey(t, k); '$' in key && IndexOf(key, '$') == |t| && key[..|t|] == t
  {
    var key := NestedKey(t, k);
    assert key[|t|] == '$';
    assert forall m :: 0 <= m < |t| ==> key[m] == t[m];
    IndexOfIsFirst(key, '$', |t|);
    assert key[..|t|] == t;
  }

  // ---------------------------------------------------------------------
  // parse_row and parse_table
  // ---------------------------------------------------------------------

  /** A cell of some row of some body of `t`. */
  ghost predicate CellOf(c: Cell, t: Table) {
    exists b, q :: 0 <= b < |t.bodies| && 0 <= q < |t.bodies[b].rows| && c in t.bodies[b].rows[q].cells
  }

  /** The text of a value cell: the English text, or the plain text when
      that is missing or empty. */
  function CellValue(value: Cell): (v: Option<string>)
    ensures value.enText.Some? && value.enText.value != "" ==> v == value.enText
  {
    if value.enText.Some? && value.enText.value != "" then value.enText else value.text
  }

  /** The key of an entry before normalisation: the raw title of its row,
      behind the raw titles of the rows whose nested tables hold it. */
  datatype Key = Plain(title: string) | Nested(title: string, inner: Key)

  /** An entry as a row yields it: its key and the raw text of its value cell. */
  datatype Entry = Entry(key: Key, text: string)

  /** The key string: each title normalised, nested ones joined by `$$`. */
  function KeyText(k: Key): string {
    match k
    case Plain(t) => NormTitle(t)
    case Nested(t, inner) => NestedKey(NormTitle(t), KeyText(inner))
  }

  /** The pair `parse_table` yields for an entry: the key and the stripped text. */
  function Rendered(e: Entry): Pair {
    (KeyText(e.key), Strip(e.text))
  }

  function RenderAll(es: seq<Entry>): (r: seq<Pair>)
    ensures |r| == |es|
    ensures forall n :: 0 <= n < |es| ==> r[n] == Rendered(es[n])
  {
    seq(|es|, n requires 0 <= n < |es| => Rendered(es[n]))
  }

  /** The key of a nested entry names the row's title before the first `$`. */
  lemma NestedKeyNamesTitle(title: string, inner: Key)
    ensures var key := KeyText(Nested(title, inner));
      '$' in key && key[..IndexOf(key, '$')] == NormTitle(title)
  {
    NestedKeyRecoversTitle(title, KeyText(inner));
  }

  /** The entry of a value cell without nested tables. */
  function PlainEntries(title: string, value: Cell): (r: seq<Entry>)
    ensures |r| <= 1
    ensures |r| == 1 <==> CellValue(value).Some?
    ensures |r| == 1 ==> r[0] == Entry(Plain(title), CellValue(value).value)
  {
    match CellValue(value)
    case None => []
    case Some(v) => [Entry(Plain(title), v)]
  }

  /** Nested entries, with the row's title in front of their keys. */
  function Prefixed(title: string, es: seq<Entry>): (r: seq<Entry>)
    ensures |r| == |es|
    ensures forall n :: 0 <= n < |r| ==> r[n] == Entry(Nested(title, es[n].key), es[n].text)
  {
    seq(|es|, n requires 0 <= n < |es| => Entry(Nested(title, es[n].key), es[n].text))
  }

  /** `parse_table(tbl)`: the bodies in order, each fixed, then its rows. */
  function ParseTable(t: Table): Result<seq<Entry>>
    decreases t, 4, 0
  {
    ParseBodies(t, 0)
  }

  function ParseBodies(t: Table, b: nat): Result<seq<Entry>>
    decreases t, 3, |t.bodies| - b
  {
    if b >= |t.bodies| then Success([])
    else
      var rows :- Fixed(RowsOf(t.bodies[b]));
      FixedKeepsCells(RowsOf(t.bodies[b]));
      assert forall q, c :: 0 <= q < |rows| && c in rows[q] ==> CellOf(c, t);
      var here :- ParseRows(rows, t, 0);
      var rest :- ParseBodies(t, b + 1);
      Success(here + rest)
  }

  function ParseRows(rows: Rows, ghost t: Table, q: nat): Result<seq<Entry>>
    requires forall p, c :: 0 <= p < |rows| && c in rows[p] ==> CellOf(c, t)
    decreases t, 2, |rows| - q
  {
    if q >= |rows| then Success([])
    else
      var here :- ParseRow(rows[q], t, 0);
      var rest :- ParseRows(rows, t, q + 1);
      Success(here + rest)
  }

  /** `parse_row(cells)` from position `i`: even positions hold titles,
      the next cell the value; a missing title skips the pair. */
  function ParseRow(cells: seq<Cell>, ghost t: Table, i: nat): Result<seq<Entry>>
    requires forall c :: c in cells ==> CellOf(c, t)
    decreases t, 1, |cells| - i
  {
    if i >= |cells| then Success([])
    else if cells[i].title.None? then ParseRow(cells, t, i + 2)
    else if i + 1 >= |cells| then Failure(IndexError)
    else
      var here :- ValueEntries(cells[i].title.value, cells[i + 1], t);
      var rest :- ParseRow(cells, t, i + 2);
      Success(here + rest)
  }

  /** What the value cell of a titled pair yields: the entries of its
      nested tables when it has any, else its own text. */
  function ValueEntries(title: string, value: Cell, ghost t: Table): Result<seq<Entry>>
    requires CellOf(value, t)
    decreases t, 0, |value.tables| + 1
  {
    if |value.tables| > 0 then NestedEntries(title, value, 0, t)
    else Success(PlainEntries(title, value))
  }

  /** The entries of the nested tables of `value`, from the `k`-th on. */
  function NestedEntries(title: string, value: Cell, k: nat, ghost t: Table): Result<seq<Entry>>
    requires CellOf(value, t)
    decreases t, 0, |value.tables| - k
  {
    if k >= |value.tables| then Success([])
    else
      var inner :- ParseTable(value.tables[k]);
      var rest :- NestedEntries(title, value, k + 1, t);
      Success(Prefixed(title, inner) + rest)
  }

  /** Every entry a cell with nested tables yields is keyed under the row's
      title, so its key string starts with the normalised title and `$$`. */
  lemma {:induction false} NestedKeysPrefixed(title: string, value: Cell, k: nat, t: Table)
    requires CellOf(value, t) && NestedEntries(title, value, k, t).Success?
    ensures forall e :: e in NestedEntries(title, value, k, t).value ==>
              e.key.Nested? && e.key.title == title
    decreases |value.tables| - k
  {
    if k < |value.tables| {
      NestedKeysPrefixed(title, value, k + 1, t);
      var inner := ParseTable(value.tables[k]).value;
      forall e | e in Prefixed(title, inner)
        ensures e.key.Nested? && e.key.title == title
      {
        var n :| 0 <= n < |inner| && Prefixed(title, inner)[n] == e;
      }
    }
  }

  /** A row with no nested tables. */
  predicate Flat(cells: seq<Cell>) {
    forall c :: c in cells ==> |c.tables| == 0
  }

  /** The entry a titled pair at position `i` contributes, for flat rows. */
  predicate PairAt(cells: seq<Cell>, i: int, e: Entry) {
    && 0 <= i && i + 1 < |cells| && i % 2 == 0
    && cells[i].title.Some? && CellValue(cells[i + 1]).Some?
    && e == Entry(Plain(cells[i].title.value), CellValue(cells[i + 1]).value)
  }

  /** What one titled pair of a flat row yields. */
  lemma FlatValue(cells: seq<Cell>, t: Table, i: nat)
    requires forall c :: c in cells ==> CellOf(c, t)
    requires Flat(cells) && i + 1 < |cells| && cells[i].title.Some?
    ensures ValueEntries(cells[i].title.value, cells[i + 1], t) ==
              Success(PlainEntries(cells[i].title.value, cells[i + 1]))
  {
    assert cells[i + 1] in cells;
  }

  /** For a flat row, `parse_row` raises IndexError exactly when a titled
      cell sits at an even last position. */
  lemma {:induction false} FlatRowFails(cells: seq<Cell>, t: Table, i: nat)
    requires forall c :: c in cells ==> CellOf(c, t)
    requires Flat(cells) && i % 2 == 0
    ensures ParseRow(cells, t, i).Failure? <==>
              i < |cells| && (|cells| - i) % 2 == 1 && cells[|cells| - 1].title.Some?
    ensures ParseRow(cells, t, i).Failure? ==> ParseRow(cells, t, i).error == IndexError
    decreases |cells| - i
  {
    if i < |cells| {
      FlatRowFails(cells, t, i + 2);
      if i + 1 < |cells| && cells[i].title.Some? {
        FlatValue(cells, t, i);
      }
    }
  }

  /** The entries of a flat row read off by position: each titled even
      position whose following cell has text gives one entry. */
  function FlatEntries(cells: seq<Cell>, i: nat): seq<Entry>
    decreases |cells| - i
  {
    if i + 1 >= |cells| then []
    else
      var here := if cells[i].title.Some? && CellValue(cells[i + 1]).Some?
                  then [Entry(Plain(cells[i].title.value), CellValue(cells[i + 1]).value)]
                  else [];
      here + FlatEntries(cells, i + 2)
  }

  /** For a flat row that does not raise, `parse_row` yields the entries
      read off by position, in order. */
  lemma {:induction false} FlatRowEntries(cells: seq<Cell>, t: Table, i: nat)
    requires forall c :: c in cells ==> CellOf(c, t)
    requires Flat(cells) && i % 2 == 0
    requires !(i < |cells| && (|cells| - i) % 2 == 1 && cells[|cells| - 1].title.Some?)
    ensures ParseRow(cells, t, i) == Success(FlatEntries(cells, i))
    decreases |cells| - i
  {
    if i < |cells| {
      FlatRowEntries(cells, t, i + 2);
      var rest := FlatEntries(cells, i + 2);
      if cells[i].title.Some? {
        assert i + 1 < |cells|;
        FlatValue(cells, t, i);
        var here := PlainEntries(cells[i].title.value, cells[i + 1]);
        assert ParseRow(cells, t, i) == Success(here + rest);
      } else if i + 1 < |cells| {
        assert FlatEntries(cells, i) == [] + rest;
        assert [] + rest == rest;
        assert ParseRow(cells, t, i) == ParseRow(cells, t, i + 2);
      }
    }
  }

  /** The entries read off by position are those of the titled even
      positions with text. */
  lemma {:induction false} FlatEntriesMembers(cells: seq<Cell>, i: nat, e: Entry)
    requires i % 2 == 0
    ensures e in FlatEntries(cells, i) <==> exists j :: i <= j && PairAt(cells, j, e)
    decreases |cells| - i
  {
    if i + 1 < |cells| {
      FlatEntriesMembers(cells, i + 2, e);
      if e in FlatEntries(cells, i) && !PairAt(cells, i, e) {
        var j :| i + 2 <= j && PairAt(cells, j, e);
      }
      if !(e in FlatEntries(cells, i)) {
        forall j | i <= j ensures !PairAt(cells, j, e) {
          if j < i + 2 {
            assert j == i || j % 2 == 1;
          }
        }
      }
    } else {
      forall j | i <= j ensures !PairAt(cells, j, e) {
      }
    }
  }

  // ---------------------------------------------------------------------
  // info
  // ---------------------------------------------------------------------

  /** The dictionary after assigning the entries in order. */
  function ToInfo(pairs: seq<Pair>): map<string, string> {
    if pairs == [] then map[]
    else ToInfo(pairs[..|pairs| - 1])[pairs[|pairs| - 1].0 := pairs[|pairs| - 1].1]
  }

  /** No entry after position `i` has the key of entry `i`. */
  predicate LastWithKey(pairs: seq<Pair>, i: int)
    requires 0 <= i < |pairs|
  {
    forall j :: i < j < |pairs| ==> pairs[j].0 != pairs[i].0
  }

  /** A key is in `info` exactly when some entry has it, and it holds the
      value of the last such entry. */
  lemma {:induction false} ToInfoLastWins(pairs: seq<Pair>, key: string)
    ensures key in ToInfo(pairs) <==> exists i :: 0 <= i < |pairs| && pairs[i].0 == key
    ensures forall i :: (0 <= i < |pairs| && pairs[i].0 == key && LastWithKey(pairs, i)) ==>
              ToInfo(pairs)[key] == pairs[i].1
    decreases |pairs|
  {
    if pairs != [] {
      var n := |pairs|;
      var prefix := pairs[..n - 1];
      ToInfoLastWins(prefix, key);
      assert forall i :: 0 <= i < n - 1 ==> prefix[i] == pairs[i];
    }
  }

  /** All entries of the detail page's tables, in order. */
  function AllPairs(tables: seq<Table>): Result<seq<Pair>> {
    if tables == [] then Success([])
    else
      var before :- AllPairs(tables[..|tables| - 1]);
      var here :- ParseTable(tables[|tables| - 1]);
      Success(before + RenderAll(here))
  }

  function Info(tables: seq<Table>): Result<map<string, string>> {
    var pairs :- AllPairs(tables);
    Success(ToInfo(pairs))
  }

  lemma ToInfoAppend(pairs: seq<Pair>, p: Pair)
    ensures ToInfo(pairs + [p]) == ToInfo(pairs)[p.0 := p.1]
  {
    assert (pairs + [p])[..|pairs|] == pairs;
  }

  lemma {:induction false} AllPairsStops(tables: seq<Table>, k: nat)
    requires k <= |tables| && AllPairs(tables[..k]).Failure?
    ensures AllPairs(tables) == AllPairs(tables[..k])
    decreases |tables| - k
  {
    if k < |tables| {
      assert tables[..k + 1][..k] == tables[..k];
      AllPairsStops(tables, k + 1);
    } else {
      assert tables[..k] == tables;
    }
  }

  /** The inner loop of `parse_detail`: the entries of one table assigned
      in order. */
  method AssignAll(info: map<string, string>, ghost before: seq<Pair>, pairs: seq<Pair>)
    returns (r: map<string, string>)
    requires info == ToInfo(before)
    ensures r == ToInfo(before + pairs)
  {
    r := info;
    assert before + pairs[..0] == before;
    for m := 0 to |pairs|
      invariant r == ToInfo(before + pairs[..m])
    {
      ToInfoAppend(before + pairs[..m], pairs[m]);
      assert before + pairs[..m + 1] == before + pairs[..m] + [pairs[m]];
      var (key, value) := pairs[m];
      r := r[key := value];
    }
    assert pairs[..|pairs|] == pairs;
  }

  /** The loop of `parse_detail` that fills `info`. */
  method BuildInfo(tables: seq<Table>) returns (r: Result<map<string, string>>)
    ensures r == Info(tables)
  {
    var info: map<string, string> := map[];
    for t := 0 to |tables|
      invariant AllPairs(tables[..t]).Success?
      invariant info == ToInfo(AllPairs(tables[..t]).value)
    {
      assert tables[..t + 1][..t] == tables[..t];
      var parsed := ParseTable(tables[t]);
      if parsed.Failure? {
        AllPairsStops(tables, t + 1);
        return Failure(parsed.error);
      }
      info := AssignAll(info, AllPairs(tables[..t]).value, RenderAll(parsed.value));
    }
    assert tables[..|tables|] == tables;
    return Success(info);
  }

  // ---------------------------------------------------------------------
  // parse_history
  // ---------------------------------------------------------------------

  /** A row of the version history, with its cells already read. */
  datatype HistoryRow = HistoryRow(version: real, regId: string, createdTime: int, detailUrl: string)

  /** A trial version already stored. */
  datatype StoredTrial = StoredTrial(regId: string, createdTime: int)

  datatype DetailRequest = DetailRequest(url: string, regId: string, createdTime: int, version: real)

  /** The stored trials hold this registration at this time or later. */
  predicate AlreadyStored(stored: seq<StoredTrial>, row: HistoryRow) {
    exists k :: 0 <= k < |stored| && stored[k].regId == row.regId && stored[k].createdTime >= row.createdTime
  }

  function RequestFor(row: HistoryRow): DetailRequest {
    DetailRequest(row.detailUrl, row.regId, row.createdTime, row.version)
  }

  /** `parse_history`: the first row is the header; the loop over the
      remaining rows stops after the first one. */
  method ParseHistory(rows: seq<HistoryRow>, stored: seq<StoredTrial>) returns (req: Option<DetailRequest>)
    ensures req.Some? <==> |rows| >= 2 && !AlreadyStored(stored, rows[1])
    ensures req.Some? ==> req.value == RequestFor(rows[1])
  {
    req := None;
    if |rows| < 1 {
      return;
    }
    var rest := rows[1..];
    for k := 0 to |rest|
      invariant k == 0 && req.None?
    {
      var row := rest[k];
      if !AlreadyStored(stored, row) {
        req := Some(RequestFor(row));
      }
      break;
    }
  }
}
