/** Grouping of text lines into paragraph boxes (the patched
    `group_textlines` of the PDF paragraph extractor).

    Lines are identified by their index in the page's line list. The
    spatial index (pdfminer's `Plane` and `find_neighbors`) is an abstract
    query from a line index and a margin ratio to the list of lines it
    finds. Boxes live in an arena and are identified by their index in it;
    the map `boxes` sends a line to the box that currently holds it, as
    the Python dictionary from line objects to box objects does. */
module LineGrouping {
  import opened Wrappers
  import opened PyStrings

  /** One text line: its bounding box, its text and whether it is set
      horizontally (`LTTextLineHorizontal`) or vertically. */
  datatype Line = Line(x0: real, y0: real, x1: real, y1: real, text: string, horizontal: bool)

  /** A text box: its member lines in the order they were added, and its
      orientation (`LTTextBoxHorizontal` or `LTTextBoxVertical`). */
  datatype TextBox = TextBox(lines: seq<nat>, horizontal: bool)

  datatype BBox = BBox(x0: real, y0: real, x1: real, y1: real)

  /** `find_neighbors(plane, margin)` for line `i`, as a list of line indices. */
  type NeighborQuery = (nat, real) -> seq<nat>

  function Height(l: Line): real { l.y1 - l.y0 }

  function Width(l: Line): real { l.x1 - l.x0 }

  /** The text is empty or all whitespace, which is when
      `line.get_text().strip()` is empty (see `BlankIsStripEmpty`). */
  predicate IsBlank(l: Line) { forall k :: 0 <= k < |l.text| ==> IsSpace(l.text[k]) }

  lemma BlankIsStripEmpty(l: Line)
    ensures IsBlank(l) <==> Strip(l.text) == ""
  {
    StripCharsKeeps(l.text, Whitespace);
  }

  /** The plane only ever returns lines of the page. */
  ghost predicate QueryInRange(query: NeighborQuery, n: nat) {
    forall i: nat, m: real, k: int :: i < n && 0 <= k < |query(i, m)| ==> query(i, m)[k] < n
  }

  ghost predicate AllBelow(s: seq<nat>, n: nat) {
    forall k :: 0 <= k < |s| ==> s[k] < n
  }

  function Abs(x: real): (r: real)
    ensures r >= 0.0 && (r == x || r == -x)
  {
    if x < 0.0 then -x else x
  }

  function MinReal(a: real, b: real): (r: real)
    ensures r <= a && r <= b && (r == a || r == b)
  {
    if a <= b then a else b
  }

  /** The gap between `o` and `l`, relative to the height of `l` and scaled
      by the slack factor 1.05. */
  function Gap(l: Line, o: Line): real
    requires Height(l) != 0.0
  {
    MinReal(Abs(o.y0 - l.y1), Abs(o.y1 - l.y0)) * 1.05 / Height(l)
  }

  // ---------------------------------------------------------------------
  // Per-line margin correction
  // ---------------------------------------------------------------------

  /** The corrected margin after the first |nbrs| neighbours have been
      looked at; a neighbour other than the seed, with a seed of height
      zero, makes the division fail. */
  function MarginOver(lines: seq<Line>, seed: nat, nbrs: seq<nat>, lineMargin: real): Result<real>
    requires seed < |lines| && AllBelow(nbrs, |lines|)
    decreases |nbrs|
  {
    if nbrs == [] then Success(lineMargin)
    else
      var prev :- MarginOver(lines, seed, nbrs[..|nbrs| - 1], lineMargin);
      var o := nbrs[|nbrs| - 1];
      if o == seed then Success(prev)
      else if Height(lines[seed]) == 0.0 then Failure(ZeroDivisionError)
      else
        var g := Gap(lines[seed], lines[o]);
        Success(if g < prev then g else prev)
  }

  /** The corrected margin is the minimum of the configured margin and the
      gaps to every other neighbour; it fails exactly when the seed has
      height zero and has some other neighbour. */
  lemma {:induction false} MarginIsMinimum(lines: seq<Line>, seed: nat, nbrs: seq<nat>, lineMargin: real)
    requires seed < |lines| && AllBelow(nbrs, |lines|)
    ensures var r := MarginOver(lines, seed, nbrs, lineMargin);
      && (r.Failure? <==> Height(lines[seed]) == 0.0 && exists k :: 0 <= k < |nbrs| && nbrs[k] != seed)
      && (r.Success? ==>
            && r.value <= lineMargin
            && (Height(lines[seed]) != 0.0 ==>
                  && (forall k :: 0 <= k < |nbrs| && nbrs[k] != seed ==> r.value <= Gap(lines[seed], lines[nbrs[k]]))
                  && (r.value == lineMargin
                      || exists k :: 0 <= k < |nbrs| && nbrs[k] != seed && r.value == Gap(lines[seed], lines[nbrs[k]]))))
    decreases |nbrs|
  {
    if nbrs != [] {
      var front := nbrs[..|nbrs| - 1];
      MarginIsMinimum(lines, seed, front, lineMargin);
      assert forall k :: 0 <= k < |front| ==> front[k] == nbrs[k];
    }
  }

  /** The margin-correction loop of `group_textlines`. */
  method CorrectMargin(lines: seq<Line>, seed: nat, nbrs: seq<nat>, lineMargin: real) returns (r: Result<real>)
    requires seed < |lines| && AllBelow(nbrs, |lines|)
    ensures r == MarginOver(lines, seed, nbrs, lineMargin)
    ensures r.Success? ==> r.value <= lineMargin
    ensures r.Success? ==> forall k :: 0 <= k < |nbrs| && nbrs[k] != seed && Height(lines[seed]) != 0.0 ==>
      r.value <= Gap(lines[seed], lines[nbrs[k]])
  {
    var trueMargin := lineMargin;
    for i := 0 to |nbrs|
      invariant MarginOver(lines, seed, nbrs[..i], lineMargin) == Success(trueMargin)
    {
      assert nbrs[..i + 1][..i] == nbrs[..i];
      var o := nbrs[i];
      if o == seed {
        continue;
      }
      if Height(lines[seed]) == 0.0 {
        r := Failure(ZeroDivisionError);
        assert MarginOver(lines, seed, nbrs[..i + 1], lineMargin).Failure?;
        FailureExtends(lines, seed, nbrs, lineMargin, i + 1);
        return;
      }
      var margin := MinReal(Abs(lines[o].y0 - lines[seed].y1), Abs(lines[o].y1 - lines[seed].y0));
      margin := margin * 1.05 / Height(lines[seed]);
      if margin < trueMargin {
        trueMargin := margin;
      }
    }
    assert nbrs[..|nbrs|] == nbrs;
    r := Success(trueMargin);
    MarginIsMinimum(lines, seed, nbrs, lineMargin);
  }

  lemma {:induction false} FailureExtends(lines: seq<Line>, seed: nat, nbrs: seq<nat>, lineMargin: real, i: nat)
    requires seed < |lines| && AllBelow(nbrs, |lines|) && i <= |nbrs|
    requires MarginOver(lines, seed, nbrs[..i], lineMargin).Failure?
    ensures MarginOver(lines, seed, nbrs, lineMargin) == Failure(ZeroDivisionError)
    decreases |nbrs| - i
  {
    MarginIsMinimum(lines, seed, nbrs[..i], lineMargin);
    MarginIsMinimum(lines, seed, nbrs, lineMargin);
    var k :| 0 <= k < |nbrs[..i]| && nbrs[..i][k] != seed;
    assert nbrs[k] != seed;
    FailureIsDivision(lines, seed, nbrs, lineMargin);
  }

  lemma {:induction false} FailureIsDivision(lines: seq<Line>, seed: nat, nbrs: seq<nat>, lineMargin: real)
    requires seed < |lines| && AllBelow(nbrs, |lines|)
    ensures MarginOver(lines, seed, nbrs, lineMargin).Failure? ==>
      MarginOver(lines, seed, nbrs, lineMargin).error == ZeroDivisionError
    decreases |nbrs|
  {
    if nbrs != [] {
      FailureIsDivision(lines, seed, nbrs[..|nbrs| - 1], lineMargin);
    }
  }

  // ---------------------------------------------------------------------
  // What happens to one line
  // ---------------------------------------------------------------------

  /** Line `l` passes the first test: it is among its own neighbours at the
      configured margin and its text is not blank. */
  ghost predicate Candidate(lines: seq<Line>, query: NeighborQuery, lineMargin: real, l: nat)
    requires QueryInRange(query, |lines|) && l < |lines|
  {
    l in query(l, lineMargin) && !IsBlank(lines[l])
  }

  /** Line `l` makes `group_textlines` raise ZeroDivisionError. */
  ghost predicate Faulty(lines: seq<Line>, query: NeighborQuery, lineMargin: real, l: nat)
    requires QueryInRange(query, |lines|) && l < |lines|
  {
    Candidate(lines, query, lineMargin, l)
    && MarginOver(lines, l, query(l, lineMargin), lineMargin).Failure?
  }

  /** Line `l` seeds a box: it passes the first test, its corrected margin
      exists, and it is still among its own neighbours at that margin. */
  ghost predicate Seeded(lines: seq<Line>, query: NeighborQuery, lineMargin: real, l: nat)
    requires QueryInRange(query, |lines|) && l < |lines|
  {
    && Candidate(lines, query, lineMargin, l)
    && var m := MarginOver(lines, l, query(l, lineMargin), lineMargin);
       m.Success? && l in query(l, m.value)
  }

  // ---------------------------------------------------------------------
  // Boxes
  // ---------------------------------------------------------------------

  predicate NoDup(s: seq<nat>) {
    forall i, j :: 0 <= i < j < |s| ==> s[i] != s[j]
  }

  /** pdfminer's `uniq`: the first occurrence of every element, in order. */
  function Uniq(s: seq<nat>): (r: seq<nat>)
    ensures NoDup(r)
    ensures forall x :: x in r <==> x in s
    ensures |s| > 0 ==> |r| > 0
  {
    if s == [] then []
    else
      var p := Uniq(s[..|s| - 1]);
      assert forall x :: x in s <==> x in s[..|s| - 1] || x == s[|s| - 1];
      if s[|s| - 1] in p then p else p + [s[|s| - 1]]
  }

  /** The smallest line index of a non-empty list. */
  function MinOf(s: seq<nat>): (m: nat)
    requires |s| > 0
    ensures m in s && forall x :: x in s ==> m <= x
  {
    if |s| == 1 then s[0]
    else
      var t := MinOf(s[1..]);
      assert forall x :: x in s ==> x == s[0] || x in s[1..];
      if s[0] <= t then s[0] else t
  }

  /** The union of the bounding boxes of the given lines (`box.add`). */
  function UnionBox(lines: seq<Line>, ms: seq<nat>): BBox
    requires |ms| > 0 && AllBelow(ms, |lines|)
  {
    var l := lines[ms[0]];
    if |ms| == 1 then BBox(l.x0, l.y0, l.x1, l.y1)
    else
      var r := UnionBox(lines, ms[1..]);
      BBox(MinReal(l.x0, r.x0), MinReal(l.y0, r.y0), -MinReal(-l.x1, -r.x1), -MinReal(-l.y1, -r.y1))
  }

  /** The union box encloses every member line. */
  lemma {:induction false} UnionBoxEncloses(lines: seq<Line>, ms: seq<nat>, k: nat)
    requires |ms| > 0 && AllBelow(ms, |lines|) && k < |ms|
    ensures var b := UnionBox(lines, ms);
      b.x0 <= lines[ms[k]].x0 && b.y0 <= lines[ms[k]].y0 && lines[ms[k]].x1 <= b.x1 && lines[ms[k]].y1 <= b.y1
    decreases |ms|
  {
    if k > 0 {
      UnionBoxEncloses(lines, ms[1..], k - 1);
    }
  }

  /** pdfminer's `is_empty`: the box has no width or no height. */
  predicate IsEmptyBox(lines: seq<Line>, box: TextBox)
    requires |box.lines| > 0 && AllBelow(box.lines, |lines|)
  {
    var b := UnionBox(lines, box.lines);
    b.x1 - b.x0 <= 0.0 || b.y1 - b.y0 <= 0.0
  }

  /** A box holding a line of positive width and height is not empty. */
  lemma MemberWithAreaMakesNonEmpty(lines: seq<Line>, box: TextBox, l: nat)
    requires |box.lines| > 0 && AllBelow(box.lines, |lines|)
    requires l in box.lines && l < |lines| && Width(lines[l]) > 0.0 && Height(lines[l]) > 0.0
    ensures !IsEmptyBox(lines, box)
  {
    var k :| 0 <= k < |box.lines| && box.lines[k] == l;
    UnionBoxEncloses(lines, box.lines, k);
  }

  ghost predicate WellFormedBox(lines: seq<Line>, box: TextBox) {
    && |box.lines| > 0
    && NoDup(box.lines)
    && AllBelow(box.lines, |lines|)
    && forall m :: m in box.lines ==> m < |lines| && !IsBlank(lines[m])
  }

  /** Every mapped line is a page line and a member of its box. */
  ghost predicate Mapped(lines: seq<Line>, boxes: map<nat, nat>, arena: seq<TextBox>) {
    forall l :: l in boxes ==> l < |lines| && boxes[l] < |arena| && l in arena[boxes[l]].lines
  }

  /** Every member of a box that some line maps to maps to that same box. */
  ghost predicate Consistent(boxes: map<nat, nat>, arena: seq<TextBox>) {
    forall l, m :: l in boxes && boxes[l] < |arena| && m in arena[boxes[l]].lines ==> m in boxes && boxes[m] == boxes[l]
  }

  ghost predicate ArenaOk(lines: seq<Line>, arena: seq<TextBox>) {
    forall b :: 0 <= b < |arena| ==> WellFormedBox(lines, arena[b])
  }

  /** The line-to-box map is a partition of the mapped lines into
      well-formed boxes. */
  ghost predicate Partition(lines: seq<Line>, boxes: map<nat, nat>, arena: seq<TextBox>) {
    Mapped(lines, boxes, arena) && Consistent(boxes, arena) && ArenaOk(lines, arena)
  }

  ghost predicate MembersOk(lines: seq<Line>, members: seq<nat>) {
    forall m :: m in members ==> m < |lines| && !IsBlank(lines[m])
  }

  /** Every box that holds one of the members lies wholly among them. */
  ghost predicate Closed(members: seq<nat>, boxes0: map<nat, nat>, arena: seq<TextBox>) {
    forall m, x :: m in members && m in boxes0 && boxes0[m] < |arena| && x in arena[boxes0[m]].lines ==> x in members
  }

  /** `boxes` is `boxes0` with the entries of some members popped. */
  ghost predicate PoppedFrom(boxes: map<nat, nat>, boxes0: map<nat, nat>, members: seq<nat>) {
    && (forall l :: l in boxes ==> l in boxes0 && boxes[l] == boxes0[l])
    && (forall l :: l in boxes0 && l !in boxes ==> l in members)
  }

  lemma CollectPop(lines: seq<Line>, boxes0: map<nat, nat>, arena: seq<TextBox>,
                   boxes: map<nat, nat>, before: seq<nat>, o: nat)
    requires Mapped(lines, boxes0, arena) && Consistent(boxes0, arena)
    requires Closed(before, boxes0, arena) && PoppedFrom(boxes, boxes0, before)
    requires o in boxes
    ensures boxes[o] < |arena|
    ensures Closed(before + [o] + arena[boxes[o]].lines, boxes0, arena)
    ensures PoppedFrom(boxes - {o}, boxes0, before + [o] + arena[boxes[o]].lines)
  {
    var b := boxes[o];
    var after := before + [o] + arena[b].lines;
    forall m, x | m in after && m in boxes0 && boxes0[m] < |arena| && x in arena[boxes0[m]].lines
      ensures x in after
    {
      if m !in before && m != o {
        assert m in arena[boxes0[o]].lines;
        assert boxes0[m] == b;
      }
    }
  }

  lemma CollectKeep(boxes0: map<nat, nat>, arena: seq<TextBox>, boxes: map<nat, nat>, before: seq<nat>, o: nat)
    requires Closed(before, boxes0, arena) && PoppedFrom(boxes, boxes0, before)
    requires o !in boxes
    ensures Closed(before + [o], boxes0, arena)
    ensures PoppedFrom(boxes, boxes0, before + [o])
  {
    var after := before + [o];
    forall m, x | m in after && m in boxes0 && boxes0[m] < |arena| && x in arena[boxes0[m]].lines
      ensures x in after
    {
      assert m in before;
    }
  }

  /** Line `x` is a non-blank line of `nbrs`, or a line of the box that
      such a neighbour had before the collection. */
  ghost predicate ComesFrom(lines: seq<Line>, nbrs: seq<nat>, boxes0: map<nat, nat>, arena: seq<TextBox>, x: nat)
    requires AllBelow(nbrs, |lines|)
  {
    exists k :: 0 <= k < |nbrs| && !IsBlank(lines[nbrs[k]]) &&
      (x == nbrs[k] || (nbrs[k] in boxes0 && boxes0[nbrs[k]] < |arena| && x in arena[boxes0[nbrs[k]]].lines))
  }

  /** The lines added for neighbour `nbrs[i]` all come from the neighbours. */
  lemma ComesFromAt(lines: seq<Line>, nbrs: seq<nat>, boxes0: map<nat, nat>, arena: seq<TextBox>,
                    i: nat, added: seq<nat>)
    requires AllBelow(nbrs, |lines|) && i < |nbrs| && !IsBlank(lines[nbrs[i]])
    requires forall x :: x in added ==> (x == nbrs[i] ||
      (nbrs[i] in boxes0 && boxes0[nbrs[i]] < |arena| && x in arena[boxes0[nbrs[i]]].lines))
    ensures forall x :: x in added ==> ComesFrom(lines, nbrs, boxes0, arena, x)
  {
  }

  /** The members after the first `i` neighbours: each non-blank one is
      in, and only lines coming from the neighbours are. */
  ghost predicate MembersFrom(lines: seq<Line>, nbrs: seq<nat>, boxes0: map<nat, nat>, arena: seq<TextBox>,
                              i: nat, members: seq<nat>)
    requires AllBelow(nbrs, |lines|) && i <= |nbrs|
  {
    && MembersOk(lines, members)
    && (forall k :: 0 <= k < i && !IsBlank(lines[nbrs[k]]) ==> nbrs[k] in members)
    && (forall x :: x in members ==> ComesFrom(lines, nbrs, boxes0, arena, x))
  }

  /** The collection after the first `i` neighbours. */
  ghost predicate CollectInv(lines: seq<Line>, nbrs: seq<nat>, boxes0: map<nat, nat>, arena: seq<TextBox>,
                             i: nat, members: seq<nat>, boxes: map<nat, nat>)
    requires AllBelow(nbrs, |lines|) && i <= |nbrs|
  {
    MembersFrom(lines, nbrs, boxes0, arena, i, members) && Closed(members, boxes0, arena) && PoppedFrom(boxes, boxes0, members)
  }

  lemma MembersFromStep(lines: seq<Line>, nbrs: seq<nat>, boxes0: map<nat, nat>, arena: seq<TextBox>,
                        i: nat, members: seq<nat>, added: seq<nat>)
    requires AllBelow(nbrs, |lines|) && i < |nbrs| && !IsBlank(lines[nbrs[i]])
    requires MembersFrom(lines, nbrs, boxes0, arena, i, members)
    requires |added| > 0 && added[0] == nbrs[i] && MembersOk(lines, added)
    requires forall x :: x in added ==> (x == nbrs[i] ||
      (nbrs[i] in boxes0 && boxes0[nbrs[i]] < |arena| && x in arena[boxes0[nbrs[i]]].lines))
    ensures MembersFrom(lines, nbrs, boxes0, arena, i + 1, members + added)
  {
    ComesFromAt(lines, nbrs, boxes0, arena, i, added);
    assert nbrs[i] in members + added;
  }

  lemma CollectSkip(lines: seq<Line>, nbrs: seq<nat>, boxes0: map<nat, nat>, arena: seq<TextBox>,
                    i: nat, members: seq<nat>, boxes: map<nat, nat>)
    requires AllBelow(nbrs, |lines|) && i < |nbrs| && IsBlank(lines[nbrs[i]])
    requires CollectInv(lines, nbrs, boxes0, arena, i, members, boxes)
    ensures CollectInv(lines, nbrs, boxes0, arena, i + 1, members, boxes)
  {
  }

  lemma CollectPopStep(lines: seq<Line>, nbrs: seq<nat>, boxes0: map<nat, nat>, arena: seq<TextBox>,
                       i: nat, members: seq<nat>, boxes: map<nat, nat>)
    requires Partition(lines, boxes0, arena)
    requires AllBelow(nbrs, |lines|) && i < |nbrs| && !IsBlank(lines[nbrs[i]]) && nbrs[i] in boxes
    requires CollectInv(lines, nbrs, boxes0, arena, i, members, boxes)
    ensures boxes[nbrs[i]] < |arena|
    ensures CollectInv(lines, nbrs, boxes0, arena, i + 1,
                       members + [nbrs[i]] + arena[boxes[nbrs[i]]].lines, boxes - {nbrs[i]})
  {
    var o := nbrs[i];
    var b := boxes[o];
    CollectPop(lines, boxes0, arena, boxes, members, o);
    var added := [o] + arena[b].lines;
    assert members + [o] + arena[b].lines == members + added;
    MembersFromStep(lines, nbrs, boxes0, arena, i, members, added);
  }

  lemma CollectKeepStep(lines: seq<Line>, nbrs: seq<nat>, boxes0: map<nat, nat>, arena: seq<TextBox>,
                        i: nat, members: seq<nat>, boxes: map<nat, nat>)
    requires AllBelow(nbrs, |lines|) && i < |nbrs| && !IsBlank(lines[nbrs[i]]) && nbrs[i] !in boxes
    requires CollectInv(lines, nbrs, boxes0, arena, i, members, boxes)
    ensures CollectInv(lines, nbrs, boxes0, arena, i + 1, members + [nbrs[i]], boxes)
  {
    CollectKeep(boxes0, arena, boxes, members, nbrs[i]);
    MembersFromStep(lines, nbrs, boxes0, arena, i, members, [nbrs[i]]);
  }

  /** The member-collection loop: every non-blank neighbour joins, and a
      neighbour that already had a box is popped from the map and brings
      the whole of that box along; nothing else joins. */
  method CollectMembers(lines: seq<Line>, nbrs: seq<nat>, boxes0: map<nat, nat>, arena: seq<TextBox>)
    returns (members: seq<nat>, boxes: map<nat, nat>)
    requires Partition(lines, boxes0, arena)
    requires AllBelow(nbrs, |lines|)
    ensures MembersOk(lines, members)
    ensures forall k :: 0 <= k < |nbrs| && !IsBlank(lines[nbrs[k]]) ==> nbrs[k] in members
    ensures forall x :: x in members ==> ComesFrom(lines, nbrs, boxes0, arena, x)
    ensures Closed(members, boxes0, arena)
    ensures PoppedFrom(boxes, boxes0, members)
  {
    members := [];
    boxes := boxes0;
    for i := 0 to |nbrs|
      invariant CollectInv(lines, nbrs, boxes0, arena, i, members, boxes)
    {
      var o := nbrs[i];
      if IsBlank(lines[o]) {
        CollectSkip(lines, nbrs, boxes0, arena, i, members, boxes);
        continue;
      }
      if o in boxes {
        var b := boxes[o];
        CollectPopStep(lines, nbrs, boxes0, arena, i, members, boxes);
        boxes := boxes - {o};
        members := members + [o] + arena[b].lines;
      } else {
        CollectKeepStep(lines, nbrs, boxes0, arena, i, members, boxes);
        members := members + [o];
      }
    }
  }

  /** `boxes2` is `boxes` with every member mapped to the new box `nb`. */
  ghost predicate Registered(boxes2: map<nat, nat>, boxes: map<nat, nat>, members: seq<nat>, nb: nat) {
    && (forall l :: l in boxes2 <==> l in boxes || l in members)
    && (forall l :: l in boxes2 ==> boxes2[l] == if l in members then nb else boxes[l])
  }

  /** Registering the members over the popped map registers them over
      the map before popping. */
  lemma RegisteredOverOld(boxes2: map<nat, nat>, boxes: map<nat, nat>, boxes0: map<nat, nat>,
                          members: seq<nat>, nb: nat)
    requires Registered(boxes2, boxes, members, nb) && PoppedFrom(boxes, boxes0, members)
    ensures Registered(boxes2, boxes0, members, nb)
  {
  }

  lemma NewBoxMapped(lines: seq<Line>, boxes0: map<nat, nat>, arena: seq<TextBox>,
                     members: seq<nat>, boxes2: map<nat, nat>, horizontal: bool)
    requires Mapped(lines, boxes0, arena)
    requires MembersOk(lines, members)
    requires Registered(boxes2, boxes0, members, |arena|)
    ensures Mapped(lines, boxes2, arena + [TextBox(Uniq(members), horizontal)])
  {
    var arena2 := arena + [TextBox(Uniq(members), horizontal)];
    forall l | l in boxes2
      ensures l < |lines| && boxes2[l] < |arena2| && l in arena2[boxes2[l]].lines
    {
      if l !in members {
        assert boxes2[l] == boxes0[l];
        assert arena2[boxes0[l]] == arena[boxes0[l]];
      }
    }
  }

  lemma NewBoxConsistent(lines: seq<Line>, boxes0: map<nat, nat>, arena: seq<TextBox>,
                         members: seq<nat>, boxes2: map<nat, nat>, horizontal: bool)
    requires Mapped(lines, boxes0, arena) && Consistent(boxes0, arena) && Closed(members, boxes0, arena)
    requires Registered(boxes2, boxes0, members, |arena|)
    ensures Consistent(boxes2, arena + [TextBox(Uniq(members), horizontal)])
  {
    var arena2 := arena + [TextBox(Uniq(members), horizontal)];
    forall l, m | l in boxes2 && boxes2[l] < |arena2| && m in arena2[boxes2[l]].lines
      ensures m in boxes2 && boxes2[m] == boxes2[l]
    {
      if l in members {
        NewBoxMember(boxes0, arena, members, boxes2, horizontal, l, m);
      } else {
        OldBoxMember(lines, boxes0, arena, members, boxes2, horizontal, l, m);
      }
    }
  }

  /** A line of the new box maps to it, like every other member. */
  lemma NewBoxMember(boxes0: map<nat, nat>, arena: seq<TextBox>, members: seq<nat>, boxes2: map<nat, nat>,
                     horizontal: bool, l: nat, m: nat)
    requires Registered(boxes2, boxes0, members, |arena|)
    requires l in members && m in (arena + [TextBox(Uniq(members), horizontal)])[|arena|].lines
    ensures m in boxes2 && boxes2[m] == boxes2[l]
  {
    assert m in Uniq(members);
  }

  /** A line of a box left alone maps where its box-mates map. */
  lemma OldBoxMember(lines: seq<Line>, boxes0: map<nat, nat>, arena: seq<TextBox>,
                     members: seq<nat>, boxes2: map<nat, nat>, horizontal: bool, l: nat, m: nat)
    requires Mapped(lines, boxes0, arena) && Consistent(boxes0, arena) && Closed(members, boxes0, arena)
    requires Registered(boxes2, boxes0, members, |arena|)
    requires l in boxes2 && l !in members
    requires boxes2[l] < |arena| + 1 && m in (arena + [TextBox(Uniq(members), horizontal)])[boxes2[l]].lines
    ensures m in boxes2 && boxes2[m] == boxes2[l]
  {
    assert boxes2[l] == boxes0[l];
    assert (arena + [TextBox(Uniq(members), horizontal)])[boxes0[l]] == arena[boxes0[l]];
    OldBoxUntouched(lines, boxes0, arena, members, l, m);
  }

  /** A box none of whose lines joined the new box keeps all its lines
      out of the new box. */
  lemma OldBoxUntouched(lines: seq<Line>, boxes0: map<nat, nat>, arena: seq<TextBox>,
                        members: seq<nat>, l: nat, m: nat)
    requires Mapped(lines, boxes0, arena) && Consistent(boxes0, arena) && Closed(members, boxes0, arena)
    requires l in boxes0 && l !in members && m in arena[boxes0[l]].lines
    ensures m in boxes0 && m !in members && boxes0[m] == boxes0[l]
  {
    assert m in boxes0 && boxes0[m] == boxes0[l];
    assert l in arena[boxes0[m]].lines;
  }

  lemma NewBoxWellFormed(lines: seq<Line>, arena: seq<TextBox>, members: seq<nat>, horizontal: bool)
    requires ArenaOk(lines, arena)
    requires |members| > 0 && MembersOk(lines, members)
    ensures ArenaOk(lines, arena + [TextBox(Uniq(members), horizontal)])
  {
    var arena2 := arena + [TextBox(Uniq(members), horizontal)];
    var u := Uniq(members);
    forall k | 0 <= k < |u| ensures u[k] < |lines| {
      assert u[k] in members;
    }
    assert WellFormedBox(lines, arena2[|arena|]);
    forall b | 0 <= b < |arena2| ensures WellFormedBox(lines, arena2[b]) {
      if b < |arena| {
        assert arena2[b] == arena[b];
      }
    }
  }

  /** The new box: the distinct members in order, each mapped to it. */
  method AddBox(lines: seq<Line>, ghost boxes0: map<nat, nat>, boxes: map<nat, nat>, arena: seq<TextBox>,
                members: seq<nat>, horizontal: bool)
    returns (boxes2: map<nat, nat>, arena2: seq<TextBox>)
    requires Partition(lines, boxes0, arena)
    requires |members| > 0 && MembersOk(lines, members)
    requires Closed(members, boxes0, arena) && PoppedFrom(boxes, boxes0, members)
    ensures arena2 == arena + [TextBox(Uniq(members), horizontal)]
    ensures Partition(lines, boxes2, arena2)
    ensures forall l :: l in boxes2 <==> l in boxes0 || l in members
    ensures forall m :: m in members ==> boxes2[m] == |arena|
    ensures forall l :: l in boxes0 && l !in members ==> boxes2[l] == boxes0[l]
  {
    var u := Uniq(members);
    var box: seq<nat> := [];
    boxes2 := boxes;
    for k := 0 to |u|
      invariant box == u[..k]
      invariant Registered(boxes2, boxes, u[..k], |arena|)
    {
      assert u[..k + 1] == u[..k] + [u[k]];
      box := box + [u[k]];
      boxes2 := boxes2[u[k] := |arena|];
    }
    assert u[..|u|] == u;
    assert Registered(boxes2, boxes, members, |arena|);
    RegisteredOverOld(boxes2, boxes, boxes0, members, |arena|);
    arena2 := arena + [TextBox(box, horizontal)];
    NewBoxMapped(lines, boxes0, arena, members, boxes2, horizontal);
    NewBoxConsistent(lines, boxes0, arena, members, boxes2, horizontal);
    NewBoxWellFormed(lines, arena, members, horizontal);
  }

  /** The first line that maps to a box is the smallest line of that box. */
  lemma FirstIsMin(lines: seq<Line>, boxes: map<nat, nat>, arena: seq<TextBox>, l: nat, done: set<nat>)
    requires Partition(lines, boxes, arena)
    requires l in boxes && boxes[l] !in done
    requires forall l' :: l' in boxes && l' < l ==> boxes[l'] in done
    ensures MinOf(arena[boxes[l]].lines) == l
  {
    var b := boxes[l];
    forall m | m in arena[b].lines ensures m >= l {
      assert m in boxes && boxes[m] == b;
    }
  }

  /** Every line below `l` that has a box has had its box seen. */
  ghost predicate SeenBelow(boxes: map<nat, nat>, l: nat, done: set<nat>) {
    forall l' :: l' in boxes && l' < l ==> boxes[l'] in done
  }

  /** Every seen box was emitted or is empty. */
  ghost predicate DoneAccounted(lines: seq<Line>, arena: seq<TextBox>, done: set<nat>, ids: seq<nat>)
    requires ArenaOk(lines, arena)
  {
    forall b :: b in done ==> b < |arena| && (b in ids || IsEmptyBox(lines, arena[b]))
  }

  /** The k-th emitted box is the box `ids[k]` of the line `firsts[k]`, a
      line below `l`. */
  ghost predicate OutOfBoxes(boxes: map<nat, nat>, arena: seq<TextBox>, l: nat,
                             out: seq<TextBox>, firsts: seq<nat>, ids: seq<nat>) {
    && |firsts| == |out| == |ids|
    && (forall k :: 0 <= k < |out| ==>
          firsts[k] in boxes && boxes[firsts[k]] == ids[k] && ids[k] < |arena| && out[k] == arena[ids[k]] && firsts[k] < l)
  }

  /** Each emitted box is not empty and starts at its recorded line. */
  ghost predicate OutFirsts(lines: seq<Line>, out: seq<TextBox>, firsts: seq<nat>)
    requires |firsts| == |out|
  {
    forall k :: 0 <= k < |out| ==>
      WellFormedBox(lines, out[k]) && firsts[k] == MinOf(out[k].lines) && !IsEmptyBox(lines, out[k])
  }

  ghost predicate Increasing(firsts: seq<nat>) {
    forall a, b :: 0 <= a < b < |firsts| ==> firsts[a] < firsts[b]
  }

  /** The invariant of the emission loop after the first `l` lines. */
  ghost predicate EmitInv(lines: seq<Line>, boxes: map<nat, nat>, arena: seq<TextBox>, l: nat,
                          done: set<nat>, out: seq<TextBox>, firsts: seq<nat>, ids: seq<nat>)
    requires Partition(lines, boxes, arena)
  {
    && SeenBelow(boxes, l, done)
    && DoneAccounted(lines, arena, done, ids)
    && OutOfBoxes(boxes, arena, l, out, firsts, ids)
    && OutFirsts(lines, out, firsts)
    && Increasing(firsts)
  }

  /** A line without a box, or whose box was already seen, changes nothing. */
  lemma EmitSkip(lines: seq<Line>, boxes: map<nat, nat>, arena: seq<TextBox>, l: nat,
                 done: set<nat>, out: seq<TextBox>, firsts: seq<nat>, ids: seq<nat>)
    requires Partition(lines, boxes, arena)
    requires EmitInv(lines, boxes, arena, l, done, out, firsts, ids)
    requires l !in boxes || boxes[l] in done
    ensures EmitInv(lines, boxes, arena, l + 1, done, out, firsts, ids)
  {
    assert SeenBelow(boxes, l + 1, done);
    OutOfBoxesLater(boxes, arena, l, out, firsts, ids);
  }

  lemma OutOfBoxesLater(boxes: map<nat, nat>, arena: seq<TextBox>, l: nat,
                        out: seq<TextBox>, firsts: seq<nat>, ids: seq<nat>)
    requires OutOfBoxes(boxes, arena, l, out, firsts, ids)
    ensures OutOfBoxes(boxes, arena, l + 1, out, firsts, ids)
  {
  }

  /** The first line of an empty box marks it seen without emitting it. */
  lemma EmitDrop(lines: seq<Line>, boxes: map<nat, nat>, arena: seq<TextBox>, l: nat,
                 done: set<nat>, out: seq<TextBox>, firsts: seq<nat>, ids: seq<nat>)
    requires Partition(lines, boxes, arena)
    requires EmitInv(lines, boxes, arena, l, done, out, firsts, ids)
    requires l in boxes && boxes[l] !in done && IsEmptyBox(lines, arena[boxes[l]])
    ensures EmitInv(lines, boxes, arena, l + 1, done + {boxes[l]}, out, firsts, ids)
  {
    var b := boxes[l];
    assert SeenBelow(boxes, l + 1, done + {b});
    assert DoneAccounted(lines, arena, done + {b}, ids);
    OutOfBoxesLater(boxes, arena, l, out, firsts, ids);
  }

  lemma TakeSeen(lines: seq<Line>, boxes: map<nat, nat>, arena: seq<TextBox>, l: nat,
                 done: set<nat>, ids: seq<nat>)
    requires Partition(lines, boxes, arena)
    requires DoneAccounted(lines, arena, done, ids) && SeenBelow(boxes, l, done)
    requires l in boxes
    ensures DoneAccounted(lines, arena, done + {boxes[l]}, ids + [boxes[l]])
    ensures SeenBelow(boxes, l + 1, done + {boxes[l]})
  {
    var b := boxes[l];
    assert b < |arena|;
    forall b' | b' in done + {b} ensures b' < |arena| && (b' in ids + [b] || IsEmptyBox(lines, arena[b'])) {
      if b' != b {
        assert b' in ids ==> b' in ids + [b];
      }
    }
  }

  lemma TakeOut(boxes: map<nat, nat>, arena: seq<TextBox>, l: nat,
                out: seq<TextBox>, firsts: seq<nat>, ids: seq<nat>)
    requires OutOfBoxes(boxes, arena, l, out, firsts, ids)
    requires l in boxes && boxes[l] < |arena|
    ensures OutOfBoxes(boxes, arena, l + 1, out + [arena[boxes[l]]], firsts + [l], ids + [boxes[l]])
    ensures Increasing(firsts) ==> Increasing(firsts + [l])
  {
  }

  lemma TakeFirsts(lines: seq<Line>, out: seq<TextBox>, firsts: seq<nat>, box: TextBox, l: nat)
    requires |firsts| == |out| && OutFirsts(lines, out, firsts)
    requires WellFormedBox(lines, box) && MinOf(box.lines) == l && !IsEmptyBox(lines, box)
    ensures OutFirsts(lines, out + [box], firsts + [l])
  {
  }

  /** The first line of a non-empty box emits that box. */
  lemma EmitTake(lines: seq<Line>, boxes: map<nat, nat>, arena: seq<TextBox>, l: nat,
                 done: set<nat>, out: seq<TextBox>, firsts: seq<nat>, ids: seq<nat>)
    requires Partition(lines, boxes, arena)
    requires EmitInv(lines, boxes, arena, l, done, out, firsts, ids)
    requires l in boxes && boxes[l] !in done && !IsEmptyBox(lines, arena[boxes[l]])
    ensures EmitInv(lines, boxes, arena, l + 1, done + {boxes[l]},
                    out + [arena[boxes[l]]], firsts + [l], ids + [boxes[l]])
  {
    var b := boxes[l];
    FirstIsMin(lines, boxes, arena, l, done);
    TakeSeen(lines, boxes, arena, l, done, ids);
    TakeOut(boxes, arena, l, out, firsts, ids);
    TakeFirsts(lines, out, firsts, arena[b], l);
  }

  /** One pass of the emission loop, in each of its three cases. */
  lemma EmitStep(lines: seq<Line>, boxes: map<nat, nat>, arena: seq<TextBox>, l: nat,
                 done: set<nat>, out: seq<TextBox>, firsts: seq<nat>, ids: seq<nat>)
    requires Partition(lines, boxes, arena)
    requires EmitInv(lines, boxes, arena, l, done, out, firsts, ids)
    ensures l !in boxes || boxes[l] in done ==> EmitInv(lines, boxes, arena, l + 1, done, out, firsts, ids)
    ensures l in boxes && boxes[l] !in done && IsEmptyBox(lines, arena[boxes[l]]) ==>
              EmitInv(lines, boxes, arena, l + 1, done + {boxes[l]}, out, firsts, ids)
    ensures l in boxes && boxes[l] !in done && !IsEmptyBox(lines, arena[boxes[l]]) ==>
              EmitInv(lines, boxes, arena, l + 1, done + {boxes[l]},
                      out + [arena[boxes[l]]], firsts + [l], ids + [boxes[l]])
  {
    if l !in boxes || boxes[l] in done {
      EmitSkip(lines, boxes, arena, l, done, out, firsts, ids);
    } else if IsEmptyBox(lines, arena[boxes[l]]) {
      EmitDrop(lines, boxes, arena, l, done, out, firsts, ids);
    } else {
      EmitTake(lines, boxes, arena, l, done, out, firsts, ids);
    }
  }

  /** The emission loop: boxes in the order of the first line that maps to
      them, each box once, empty boxes dropped. */
  method EmitBoxes(lines: seq<Line>, boxes: map<nat, nat>, arena: seq<TextBox>)
    returns (out: seq<TextBox>, ghost firsts: seq<nat>)
    requires Partition(lines, boxes, arena)
    ensures EmittedFrom(lines, boxes, arena, out, firsts)
  {
    var done: set<nat> := {};
    out := [];
    firsts := [];
    ghost var ids: seq<nat> := [];
    for l := 0 to |lines|
      invariant EmitInv(lines, boxes, arena, l, done, out, firsts, ids)
    {
      EmitStep(lines, boxes, arena, l, done, out, firsts, ids);
      if l !in boxes || boxes[l] in done {
        continue;
      }
      var b := boxes[l];
      done := done + {b};
      if !IsEmptyBox(lines, arena[b]) {
        out := out + [arena[b]];
        firsts := firsts + [l];
        ids := ids + [b];
      }
    }
    EmitFinish(lines, boxes, arena, done, out, firsts, ids);
  }

  lemma EmitFinish(lines: seq<Line>, boxes: map<nat, nat>, arena: seq<TextBox>,
                   done: set<nat>, out: seq<TextBox>, firsts: seq<nat>, ids: seq<nat>)
    requires Partition(lines, boxes, arena)
    requires EmitInv(lines, boxes, arena, |lines|, done, out, firsts, ids)
    ensures EmittedFrom(lines, boxes, arena, out, firsts)
  {
    EmittedCoverAll(lines, boxes, arena, out, ids, done);
  }

  lemma EmittedCoverAll(lines: seq<Line>, boxes: map<nat, nat>, arena: seq<TextBox>,
                        out: seq<TextBox>, ids: seq<nat>, done: set<nat>)
    requires Partition(lines, boxes, arena)
    requires forall l' :: l' in boxes ==> boxes[l'] in done
    requires forall b :: b in done ==> b < |arena| && (b in ids || IsEmptyBox(lines, arena[b]))
    requires |ids| == |out| && forall k :: 0 <= k < |out| ==> ids[k] < |arena| && out[k] == arena[ids[k]]
    ensures forall l :: l in boxes && !IsEmptyBox(lines, arena[boxes[l]]) ==>
      exists k :: 0 <= k < |out| && l in out[k].lines
  {
    forall l | l in boxes && !IsEmptyBox(lines, arena[boxes[l]])
      ensures exists k :: 0 <= k < |out| && l in out[k].lines
    {
      var k :| 0 <= k < |ids| && ids[k] == boxes[l];
      assert l in out[k].lines;
    }
  }

  /** What the emission loop yields: each emitted box is the box of its own
      smallest line, the boxes are ordered by that line, and every line
      whose box is not empty is in one of them. */
  ghost predicate EmittedFrom(lines: seq<Line>, boxes: map<nat, nat>, arena: seq<TextBox>,
                              out: seq<TextBox>, firsts: seq<nat>)
    requires Partition(lines, boxes, arena)
  {
    && |firsts| == |out|
    && (forall k :: 0 <= k < |out| ==> firsts[k] in boxes && out[k] == arena[boxes[firsts[k]]])
    && (forall k :: 0 <= k < |out| ==> firsts[k] == MinOf(out[k].lines) && !IsEmptyBox(lines, out[k]))
    && (forall a, b :: 0 <= a < b < |out| ==> firsts[a] < firsts[b])
    && (forall l :: l in boxes && !IsEmptyBox(lines, arena[boxes[l]]) ==>
          exists k :: 0 <= k < |out| && l in out[k].lines)
  }

  // ---------------------------------------------------------------------
  // group_textlines
  // ---------------------------------------------------------------------

  /** Every box was built from a seed line that is one of its members and
      gave it its orientation. */
  ghost predicate SeedsOk(lines: seq<Line>, query: NeighborQuery, lineMargin: real, arena: seq<TextBox>, seeds: seq<nat>)
    requires QueryInRange(query, |lines|)
  {
    && |seeds| == |arena|
    && forall b :: 0 <= b < |arena| ==>
         && seeds[b] < |lines| && seeds[b] in arena[b].lines
         && Seeded(lines, query, lineMargin, seeds[b]) && lines[seeds[b]].horizontal == arena[b].horizontal
  }

  /** Every seed line among the first `n` lines has a box. */
  ghost predicate SeedsBoxed(lines: seq<Line>, query: NeighborQuery, lineMargin: real, boxes: map<nat, nat>, n: nat)
    requires QueryInRange(query, |lines|) && n <= |lines|
  {
    forall l :: 0 <= l < n && Seeded(lines, query, lineMargin, l) ==> l in boxes
  }

  ghost predicate NoFaultBelow(lines: seq<Line>, query: NeighborQuery, lineMargin: real, n: nat)
    requires QueryInRange(query, |lines|) && n <= |lines|
  {
    forall l :: 0 <= l < n ==> !Faulty(lines, query, lineMargin, l)
  }

  lemma SeedsExtend(lines: seq<Line>, query: NeighborQuery, lineMargin: real, arena: seq<TextBox>, seeds: seq<nat>,
                    box: TextBox, l: nat)
    requires QueryInRange(query, |lines|) && l < |lines|
    requires SeedsOk(lines, query, lineMargin, arena, seeds)
    requires Seeded(lines, query, lineMargin, l) && l in box.lines && lines[l].horizontal == box.horizontal
    ensures SeedsOk(lines, query, lineMargin, arena + [box], seeds + [l])
  {
    var arena2, seeds2 := arena + [box], seeds + [l];
    forall b | 0 <= b < |arena2|
      ensures seeds2[b] < |lines| && seeds2[b] in arena2[b].lines
        && Seeded(lines, query, lineMargin, seeds2[b]) && lines[seeds2[b]].horizontal == arena2[b].horizontal
    {
      if b < |arena| {
        assert seeds2[b] == seeds[b] && arena2[b] == arena[b];
      }
    }
  }

  lemma SeedsBoxedStep(lines: seq<Line>, query: NeighborQuery, lineMargin: real,
                       boxes: map<nat, nat>, boxes2: map<nat, nat>, n: nat)
    requires QueryInRange(query, |lines|) && n < |lines|
    requires SeedsBoxed(lines, query, lineMargin, boxes, n)
    requires forall l :: l in boxes ==> l in boxes2
    requires Seeded(lines, query, lineMargin, n) ==> n in boxes2
    ensures SeedsBoxed(lines, query, lineMargin, boxes2, n + 1)
  {
  }

  /** The boxes yielded contain only non-blank lines and are not empty. */
  ghost predicate BoxesOk(lines: seq<Line>, out: seq<TextBox>) {
    forall k :: 0 <= k < |out| ==> WellFormedBox(lines, out[k]) && !IsEmptyBox(lines, out[k])
  }

  /** No line is in two of the boxes yielded. */
  ghost predicate Disjoint(out: seq<TextBox>) {
    forall a, b, m :: 0 <= a < b < |out| && m in out[a].lines ==> m !in out[b].lines
  }

  /** The boxes yielded come in the order of their first line. */
  ghost predicate InFirstLineOrder(lines: seq<Line>, out: seq<TextBox>)
    requires BoxesOk(lines, out)
  {
    forall a, b :: 0 <= a < b < |out| ==> MinOf(out[a].lines) < MinOf(out[b].lines)
  }

  /** The box holds a seed line whose orientation it has. */
  ghost predicate HasSeed(lines: seq<Line>, query: NeighborQuery, lineMargin: real, box: TextBox)
    requires QueryInRange(query, |lines|)
  {
    exists s :: s in box.lines && s < |lines| && Seeded(lines, query, lineMargin, s) && lines[s].horizontal == box.horizontal
  }

  /** Each box yielded holds a seed line whose orientation it has. */
  ghost predicate SeedOriented(lines: seq<Line>, query: NeighborQuery, lineMargin: real, out: seq<TextBox>)
    requires QueryInRange(query, |lines|)
  {
    forall k :: 0 <= k < |out| ==> HasSeed(lines, query, lineMargin, out[k])
  }

  /** Every seed line with a positive width and height is in a box yielded. */
  ghost predicate SeedsCovered(lines: seq<Line>, query: NeighborQuery, lineMargin: real, out: seq<TextBox>)
    requires QueryInRange(query, |lines|)
  {
    forall l :: (0 <= l < |lines| && Seeded(lines, query, lineMargin, l)
                 && Width(lines[l]) > 0.0 && Height(lines[l]) > 0.0) ==>
      exists k :: 0 <= k < |out| && l in out[k].lines
  }

  lemma EmittedBoxesOk(lines: seq<Line>, boxes: map<nat, nat>, arena: seq<TextBox>, out: seq<TextBox>, firsts: seq<nat>)
    requires Partition(lines, boxes, arena)
    requires EmittedFrom(lines, boxes, arena, out, firsts)
    ensures BoxesOk(lines, out)
    ensures InFirstLineOrder(lines, out)
  {
    forall k | 0 <= k < |out| ensures WellFormedBox(lines, out[k]) {
      assert out[k] == arena[boxes[firsts[k]]];
    }
  }

  /** Boxes emitted this way never share a line. */
  lemma EmittedDisjoint(lines: seq<Line>, boxes: map<nat, nat>, arena: seq<TextBox>,
                        out: seq<TextBox>, firsts: seq<nat>)
    requires Partition(lines, boxes, arena)
    requires EmittedFrom(lines, boxes, arena, out, firsts)
    ensures Disjoint(out)
  {
    forall a, b, m | 0 <= a < b < |out| && m in out[a].lines
      ensures m !in out[b].lines
    {
      var ba, bb := boxes[firsts[a]], boxes[firsts[b]];
      assert out[a] != out[b] by {
        assert MinOf(out[a].lines) == firsts[a] < firsts[b] == MinOf(out[b].lines);
      }
      assert ba != bb;
      assert m in boxes && boxes[m] == ba;
    }
  }

  lemma EmittedSeeded(lines: seq<Line>, query: NeighborQuery, lineMargin: real,
                      boxes: map<nat, nat>, arena: seq<TextBox>, seeds: seq<nat>, out: seq<TextBox>, firsts: seq<nat>)
    requires QueryInRange(query, |lines|)
    requires Partition(lines, boxes, arena)
    requires SeedsOk(lines, query, lineMargin, arena, seeds)
    requires EmittedFrom(lines, boxes, arena, out, firsts)
    ensures SeedOriented(lines, query, lineMargin, out)
  {
    forall k | 0 <= k < |out| ensures HasSeed(lines, query, lineMargin, out[k]) {
      var b := boxes[firsts[k]];
      assert b < |arena| && arena[b] == out[k];
      var s := seeds[b];
      assert s in arena[b].lines;
      assert s < |lines| && s in out[k].lines;
      assert Seeded(lines, query, lineMargin, s) && lines[s].horizontal == out[k].horizontal;
    }
  }

  lemma EmittedCovers(lines: seq<Line>, query: NeighborQuery, lineMargin: real,
                      boxes: map<nat, nat>, arena: seq<TextBox>, out: seq<TextBox>, firsts: seq<nat>)
    requires QueryInRange(query, |lines|)
    requires Partition(lines, boxes, arena)
    requires SeedsBoxed(lines, query, lineMargin, boxes, |lines|)
    requires EmittedFrom(lines, boxes, arena, out, firsts)
    ensures SeedsCovered(lines, query, lineMargin, out)
  {
    forall l | 0 <= l < |lines| && Seeded(lines, query, lineMargin, l) && Width(lines[l]) > 0.0 && Height(lines[l]) > 0.0
      ensures exists k :: 0 <= k < |out| && l in out[k].lines
    {
      MemberWithAreaMakesNonEmpty(lines, arena[boxes[l]], l);
    }
  }

  // ---------------------------------------------------------------------
  // Which lines a turn groups together
  // ---------------------------------------------------------------------

  /** The neighbours of a seed line at its corrected margin. */
  ghost function Group(lines: seq<Line>, query: NeighborQuery, lineMargin: real, l: nat): (g: seq<nat>)
    requires QueryInRange(query, |lines|) && l < |lines| && Seeded(lines, query, lineMargin, l)
    ensures AllBelow(g, |lines|) && l in g
  {
    query(l, MarginOver(lines, l, query(l, lineMargin), lineMargin).value)
  }

  /** What a seed's turn does to the map: its non-blank neighbours at the
      corrected margin, and every line that shared a box with one of them,
      now map to the new box `|arena|`; only those lines do; every other
      line keeps its box. */
  ghost predicate SeedStep(lines: seq<Line>, query: NeighborQuery, lineMargin: real, l: nat,
                           boxes: map<nat, nat>, arena: seq<TextBox>, boxes2: map<nat, nat>)
    requires QueryInRange(query, |lines|) && l < |lines| && Seeded(lines, query, lineMargin, l)
  {
    var g := Group(lines, query, lineMargin, l);
    && l in boxes2 && boxes2[l] == |arena|
    && (forall k :: 0 <= k < |g| && !IsBlank(lines[g[k]]) ==> g[k] in boxes2 && boxes2[g[k]] == |arena|)
    && (forall k, x :: (0 <= k < |g| && !IsBlank(lines[g[k]]) && g[k] in boxes && boxes[g[k]] < |arena|
                        && x in arena[boxes[g[k]]].lines) ==> x in boxes2 && boxes2[x] == |arena|)
    && (forall x :: x in boxes2 && boxes2[x] == |arena| ==> ComesFrom(lines, g, boxes, arena, x))
    && (forall x :: x in boxes2 ==> x in boxes || boxes2[x] == |arena|)
    && (forall x :: x in boxes ==> x in boxes2 && (boxes2[x] == |arena| || boxes2[x] == boxes[x]))
  }

  /** Boxes only merge: every mapped line stays mapped, and lines that
      shared a box still do. */
  ghost predicate OnlyMerges(boxes: map<nat, nat>, boxes2: map<nat, nat>) {
    && (forall x :: x in boxes ==> x in boxes2)
    && (forall x, y :: x in boxes && y in boxes && boxes[x] == boxes[y] ==> boxes2[x] == boxes2[y])
  }

  /** Registering the collected members in a new box is a seed step. */
  lemma SeedStepHolds(lines: seq<Line>, query: NeighborQuery, lineMargin: real, l: nat,
                      boxes: map<nat, nat>, arena: seq<TextBox>, members: seq<nat>, boxes2: map<nat, nat>)
    requires QueryInRange(query, |lines|) && l < |lines| && Seeded(lines, query, lineMargin, l)
    requires Partition(lines, boxes, arena)
    requires var g := Group(lines, query, lineMargin, l);
      && (forall k :: 0 <= k < |g| && !IsBlank(lines[g[k]]) ==> g[k] in members)
      && (forall x :: x in members ==> ComesFrom(lines, g, boxes, arena, x))
    requires Closed(members, boxes, arena)
    requires forall x :: x in boxes2 <==> x in boxes || x in members
    requires forall m :: m in members ==> boxes2[m] == |arena|
    requires forall x :: x in boxes && x !in members ==> boxes2[x] == boxes[x]
    ensures SeedStep(lines, query, lineMargin, l, boxes, arena, boxes2)
  {
    var g := Group(lines, query, lineMargin, l);
    assert !IsBlank(lines[l]);
    forall x | x in boxes && x !in members ensures boxes2[x] != |arena| {
      assert boxes[x] < |arena|;
    }
  }

  /** A seed step, or no change, only merges boxes. */
  lemma SeedStepMerges(lines: seq<Line>, boxes: map<nat, nat>, arena: seq<TextBox>, members: seq<nat>,
                       boxes2: map<nat, nat>)
    requires Partition(lines, boxes, arena) && Closed(members, boxes, arena)
    requires forall x :: x in boxes ==> x in boxes2
    requires forall m :: m in members ==> m in boxes2 && boxes2[m] == |arena|
    requires forall x :: x in boxes && x !in members ==> boxes2[x] == boxes[x]
    ensures OnlyMerges(boxes, boxes2)
  {
    forall x, y | x in boxes && y in boxes && boxes[x] == boxes[y]
      ensures boxes2[x] == boxes2[y]
    {
      assert x in arena[boxes[x]].lines && y in arena[boxes[y]].lines;
      assert x in members <==> y in members;
    }
  }

  /** Seed `s` and its non-blank neighbours at its corrected margin share a box. */
  ghost predicate Together(lines: seq<Line>, query: NeighborQuery, lineMargin: real, boxes: map<nat, nat>, s: nat)
    requires QueryInRange(query, |lines|) && s < |lines| && Seeded(lines, query, lineMargin, s)
  {
    var g := Group(lines, query, lineMargin, s);
    s in boxes && forall k :: 0 <= k < |g| && !IsBlank(lines[g[k]]) ==> g[k] in boxes && boxes[g[k]] == boxes[s]
  }

  /** Every seed among the first `n` lines is together with its group. */
  ghost predicate GroupsKept(lines: seq<Line>, query: NeighborQuery, lineMargin: real, boxes: map<nat, nat>, n: nat)
    requires QueryInRange(query, |lines|) && n <= |lines|
  {
    forall s :: 0 <= s < n && Seeded(lines, query, lineMargin, s) ==> Together(lines, query, lineMargin, boxes, s)
  }

  lemma TogetherMerged(lines: seq<Line>, query: NeighborQuery, lineMargin: real,
                       boxes: map<nat, nat>, boxes2: map<nat, nat>, s: nat)
    requires QueryInRange(query, |lines|) && s < |lines| && Seeded(lines, query, lineMargin, s)
    requires Together(lines, query, lineMargin, boxes, s) && OnlyMerges(boxes, boxes2)
    ensures Together(lines, query, lineMargin, boxes2, s)
  {
  }

  /** One turn keeps every earlier group together and puts a new seed
      together with its group. */
  lemma GroupsKeptStep(lines: seq<Line>, query: NeighborQuery, lineMargin: real,
                       boxes: map<nat, nat>, arena: seq<TextBox>, boxes2: map<nat, nat>, n: nat)
    requires QueryInRange(query, |lines|) && n < |lines|
    requires GroupsKept(lines, query, lineMargin, boxes, n) && OnlyMerges(boxes, boxes2)
    requires Seeded(lines, query, lineMargin, n) ==> SeedStep(lines, query, lineMargin, n, boxes, arena, boxes2)
    ensures GroupsKept(lines, query, lineMargin, boxes2, n + 1)
  {
    forall s | 0 <= s < n + 1 && Seeded(lines, query, lineMargin, s)
      ensures Together(lines, query, lineMargin, boxes2, s)
    {
      if s < n {
        TogetherMerged(lines, query, lineMargin, boxes, boxes2, s);
      }
    }
  }

  /** The box holds seed `s` and all its non-blank neighbours at its
      corrected margin. */
  ghost predicate BoxHoldsGroup(lines: seq<Line>, query: NeighborQuery, lineMargin: real, box: TextBox, s: nat)
    requires QueryInRange(query, |lines|) && s < |lines| && Seeded(lines, query, lineMargin, s)
  {
    var g := Group(lines, query, lineMargin, s);
    s in box.lines && forall j :: 0 <= j < |g| && !IsBlank(lines[g[j]]) ==> g[j] in box.lines
  }

  /** Every seed line with an area is in a yielded box together with all
      its non-blank neighbours at its corrected margin. */
  ghost predicate GroupsInBoxes(lines: seq<Line>, query: NeighborQuery, lineMargin: real, out: seq<TextBox>)
    requires QueryInRange(query, |lines|)
  {
    forall s :: (0 <= s < |lines| && Seeded(lines, query, lineMargin, s)
                 && Width(lines[s]) > 0.0 && Height(lines[s]) > 0.0) ==>
      exists k :: 0 <= k < |out| && BoxHoldsGroup(lines, query, lineMargin, out[k], s)
  }

  lemma GroupInBox(lines: seq<Line>, query: NeighborQuery, lineMargin: real,
                   boxes: map<nat, nat>, arena: seq<TextBox>, s: nat)
    requires QueryInRange(query, |lines|) && s < |lines| && Seeded(lines, query, lineMargin, s)
    requires Partition(lines, boxes, arena) && Together(lines, query, lineMargin, boxes, s)
    ensures BoxHoldsGroup(lines, query, lineMargin, arena[boxes[s]], s)
  {
  }

  /** The emitted box of a seed with an area holds its group. */
  lemma EmittedGroupOf(lines: seq<Line>, query: NeighborQuery, lineMargin: real,
                       boxes: map<nat, nat>, arena: seq<TextBox>, out: seq<TextBox>, firsts: seq<nat>, s: nat)
    requires QueryInRange(query, |lines|) && s < |lines| && Seeded(lines, query, lineMargin, s)
    requires Width(lines[s]) > 0.0 && Height(lines[s]) > 0.0
    requires Partition(lines, boxes, arena) && Together(lines, query, lineMargin, boxes, s)
    requires EmittedFrom(lines, boxes, arena, out, firsts)
    ensures exists k :: 0 <= k < |out| && BoxHoldsGroup(lines, query, lineMargin, out[k], s)
  {
    MemberWithAreaMakesNonEmpty(lines, arena[boxes[s]], s);
    var k :| 0 <= k < |out| && s in out[k].lines;
    assert out[k] == arena[boxes[firsts[k]]];
    assert boxes[s] == boxes[firsts[k]];
    GroupInBox(lines, query, lineMargin, boxes, arena, s);
  }

  lemma EmittedGroups(lines: seq<Line>, query: NeighborQuery, lineMargin: real,
                      boxes: map<nat, nat>, arena: seq<TextBox>, out: seq<TextBox>, firsts: seq<nat>)
    requires QueryInRange(query, |lines|)
    requires Partition(lines, boxes, arena)
    requires GroupsKept(lines, query, lineMargin, boxes, |lines|)
    requires EmittedFrom(lines, boxes, arena, out, firsts)
    ensures GroupsInBoxes(lines, query, lineMargin, out)
  {
    forall s | 0 <= s < |lines| && Seeded(lines, query, lineMargin, s) && Width(lines[s]) > 0.0 && Height(lines[s]) > 0.0
      ensures exists k :: 0 <= k < |out| && BoxHoldsGroup(lines, query, lineMargin, out[k], s)
    {
      EmittedGroupOf(lines, query, lineMargin, boxes, arena, out, firsts, s);
    }
  }

  // ---------------------------------------------------------------------
  // The yielded boxes are the connected components of the groups
  // ---------------------------------------------------------------------

  /** Line `x` is seed `s` or one of its non-blank neighbours at its
      corrected margin: the lines `s`'s turn puts into one box. */
  ghost predicate InGroup(lines: seq<Line>, query: NeighborQuery, lineMargin: real, s: nat, x: nat)
    requires QueryInRange(query, |lines|)
  {
    && s < |lines| && Seeded(lines, query, lineMargin, s)
    && x < |lines| && x in Group(lines, query, lineMargin, s) && !IsBlank(lines[x])
  }

  /** The pairs (seed, line of its group). */
  ghost function Groups(lines: seq<Line>, query: NeighborQuery, lineMargin: real): set<(nat, nat)>
    requires QueryInRange(query, |lines|)
  {
    set s: nat, x: nat | s < |lines| && x < |lines| && InGroup(lines, query, lineMargin, s, x) :: (s, x)
  }

  /** `c` is a walk over lines in which each step stays inside the group
      of the seed `via` names for it. */
  ghost predicate IsChain(groups: set<(nat, nat)>, c: seq<nat>, via: seq<nat>) {
    && |c| == |via| + 1
    && forall i :: 0 <= i < |via| ==> (via[i], c[i]) in groups && (via[i], c[i + 1]) in groups
  }

  /** A chain of overlapping groups leads from `x` to `y`. */
  ghost predicate Linked(groups: set<(nat, nat)>, x: nat, y: nat) {
    exists c, via :: IsChain(groups, c, via) && c[0] == x && c[|c| - 1] == y
  }

  /** The box is a connected component of the groups: a line is in it
      exactly when a chain of groups links it to a line of the box. */
  ghost predicate Component(lines: seq<Line>, query: NeighborQuery, lineMargin: real, box: TextBox)
    requires QueryInRange(query, |lines|)
  {
    var groups := Groups(lines, query, lineMargin);
    forall x, y :: x in box.lines ==> (y in box.lines <==> Linked(groups, x, y))
  }

  /** Any two lines of the box are linked. */
  ghost predicate GroupConnected(groups: set<(nat, nat)>, box: TextBox) {
    forall x, y :: x in box.lines && y in box.lines ==> Linked(groups, x, y)
  }

  /** A box that holds one line of a group holds the whole group. */
  ghost predicate GroupClosed(groups: set<(nat, nat)>, box: TextBox) {
    forall s, x, y :: x in box.lines && (s, x) in groups && (s, y) in groups ==> y in box.lines
  }

  lemma LinkedInGroup(lines: seq<Line>, query: NeighborQuery, lineMargin: real, s: nat, x: nat, y: nat)
    requires QueryInRange(query, |lines|)
    requires InGroup(lines, query, lineMargin, s, x) && InGroup(lines, query, lineMargin, s, y)
    ensures Linked(Groups(lines, query, lineMargin), x, y)
  {
    var groups := Groups(lines, query, lineMargin);
    assert (s, x) in groups && (s, y) in groups;
    assert IsChain(groups, [x, y], [s]);
  }

  /** A seed is in its own group. */
  lemma SeedInGroup(lines: seq<Line>, query: NeighborQuery, lineMargin: real, s: nat)
    requires QueryInRange(query, |lines|) && s < |lines| && Seeded(lines, query, lineMargin, s)
    ensures InGroup(lines, query, lineMargin, s, s)
  {
  }

  lemma LinkedSymmetric(groups: set<(nat, nat)>, x: nat, y: nat)
    requires Linked(groups, x, y)
    ensures Linked(groups, y, x)
  {
    var c, via :| IsChain(groups, c, via) && c[0] == x && c[|c| - 1] == y;
    var rc := seq(|c|, i requires 0 <= i < |c| => c[|c| - 1 - i]);
    var rv := seq(|via|, i requires 0 <= i < |via| => via[|via| - 1 - i]);
    forall i | 0 <= i < |rv|
      ensures (rv[i], rc[i]) in groups && (rv[i], rc[i + 1]) in groups
    {
      var j := |via| - 1 - i;
      assert rv[i] == via[j] && rc[i] == c[j + 1] && rc[i + 1] == c[j];
    }
    assert IsChain(groups, rc, rv) && rc[0] == y && rc[|rc| - 1] == x;
  }

  lemma LinkedTransitive(groups: set<(nat, nat)>, x: nat, y: nat, z: nat)
    requires Linked(groups, x, y) && Linked(groups, y, z)
    ensures Linked(groups, x, z)
  {
    var c1, v1 :| IsChain(groups, c1, v1) && c1[0] == x && c1[|c1| - 1] == y;
    var c2, v2 :| IsChain(groups, c2, v2) && c2[0] == y && c2[|c2| - 1] == z;
    var c, v := c1 + c2[1..], v1 + v2;
    forall i | 0 <= i < |v|
      ensures (v[i], c[i]) in groups && (v[i], c[i + 1]) in groups
    {
      if i < |v1| {
        assert v[i] == v1[i] && c[i] == c1[i] && c[i + 1] == c1[i + 1];
      } else {
        var j := i - |v1|;
        assert c[i] == c2[j] by {
          if j == 0 {
            assert c[i] == c1[|c1| - 1];
          }
        }
        assert v[i] == v2[j] && c[i + 1] == c2[j + 1];
      }
    }
    assert c[|c| - 1] == z by {
      if |c2| == 1 {
        assert c[|c| - 1] == c1[|c1| - 1];
      } else {
        assert c[|c| - 1] == c2[|c2| - 1];
      }
    }
    assert IsChain(groups, c, v);
  }

  /** A chain that starts in a closed box never leaves it. */
  lemma {:induction false} ChainStaysIn(groups: set<(nat, nat)>, box: TextBox, c: seq<nat>, via: seq<nat>, i: nat)
    requires GroupClosed(groups, box) && IsChain(groups, c, via)
    requires c[0] in box.lines && i < |c|
    ensures c[i] in box.lines
    decreases i
  {
    if i > 0 {
      ChainStaysIn(groups, box, c, via, i - 1);
      assert (via[i - 1], c[i - 1]) in groups && (via[i - 1], c[i]) in groups;
    }
  }

  /** A connected box that is closed under the groups is a component. */
  lemma ConnectedClosedComponent(lines: seq<Line>, query: NeighborQuery, lineMargin: real, box: TextBox)
    requires QueryInRange(query, |lines|)
    requires GroupConnected(Groups(lines, query, lineMargin), box)
    requires GroupClosed(Groups(lines, query, lineMargin), box)
    ensures Component(lines, query, lineMargin, box)
  {
    var groups := Groups(lines, query, lineMargin);
    forall x, y | x in box.lines && Linked(groups, x, y)
      ensures y in box.lines
    {
      var c, via :| IsChain(groups, c, via) && c[0] == x && c[|c| - 1] == y;
      ChainStaysIn(groups, box, c, via, |c| - 1);
    }
  }

  /** Every mapped line is linked to the seed its box was built from. */
  ghost predicate Anchored(groups: set<(nat, nat)>, boxes: map<nat, nat>, seeds: seq<nat>) {
    forall x :: x in boxes && boxes[x] < |seeds| ==> Linked(groups, x, seeds[boxes[x]])
  }

  /** A line of a seed's group is linked to the seed. */
  lemma GroupMemberLinked(lines: seq<Line>, query: NeighborQuery, lineMargin: real, n: nat, y: nat)
    requires QueryInRange(query, |lines|) && n < |lines| && Seeded(lines, query, lineMargin, n)
    requires y < |lines| && y in Group(lines, query, lineMargin, n) && !IsBlank(lines[y])
    ensures Linked(Groups(lines, query, lineMargin), y, n)
  {
    SeedInGroup(lines, query, lineMargin, n);
    LinkedInGroup(lines, query, lineMargin, n, y, n);
  }

  /** A line sharing a box with `y` is linked to whatever `y` is linked to,
      through the seed of that box. */
  lemma LinkedThroughBox(groups: set<(nat, nat)>, boxes: map<nat, nat>, arena: seq<TextBox>, seeds: seq<nat>,
                         y: nat, x: nat, n: nat)
    requires Consistent(boxes, arena) && |seeds| == |arena| && Anchored(groups, boxes, seeds)
    requires y in boxes && boxes[y] < |arena| && x in arena[boxes[y]].lines
    requires Linked(groups, y, n)
    ensures Linked(groups, x, n)
  {
    var b := boxes[y];
    assert x in boxes && boxes[x] == b;
    LinkedSymmetric(groups, y, seeds[b]);
    LinkedTransitive(groups, x, seeds[b], y);
    LinkedTransitive(groups, x, y, n);
  }

  /** A line of the new box of seed `n` is linked to `n`: it is in `n`'s
      group, or it was in the box of a line of that group. */
  lemma AnchoredNew(lines: seq<Line>, query: NeighborQuery, lineMargin: real, boxes: map<nat, nat>,
                    arena: seq<TextBox>, seeds: seq<nat>, n: nat, x: nat)
    requires QueryInRange(query, |lines|) && n < |lines| && Seeded(lines, query, lineMargin, n)
    requires Partition(lines, boxes, arena) && |seeds| == |arena|
    requires Anchored(Groups(lines, query, lineMargin), boxes, seeds)
    requires ComesFrom(lines, Group(lines, query, lineMargin, n), boxes, arena, x)
    ensures Linked(Groups(lines, query, lineMargin), x, n)
  {
    var g := Group(lines, query, lineMargin, n);
    var k :| 0 <= k < |g| && !IsBlank(lines[g[k]]) &&
      (x == g[k] || (g[k] in boxes && boxes[g[k]] < |arena| && x in arena[boxes[g[k]]].lines));
    GroupMemberLinked(lines, query, lineMargin, n, g[k]);
    if x != g[k] {
      LinkedThroughBox(Groups(lines, query, lineMargin), boxes, arena, seeds, g[k], x, n);
    }
  }

  /** One turn keeps every mapped line linked to the seed of its box. */
  lemma AnchoredStep(lines: seq<Line>, query: NeighborQuery, lineMargin: real, boxes: map<nat, nat>,
                     arena: seq<TextBox>, seeds: seq<nat>, boxes2: map<nat, nat>, seeds2: seq<nat>, n: nat)
    requires QueryInRange(query, |lines|) && n < |lines|
    requires Partition(lines, boxes, arena) && |seeds| == |arena|
    requires Anchored(Groups(lines, query, lineMargin), boxes, seeds)
    requires Seeded(lines, query, lineMargin, n) ==>
      SeedStep(lines, query, lineMargin, n, boxes, arena, boxes2) && seeds2 == seeds + [n]
    requires !Seeded(lines, query, lineMargin, n) ==> boxes2 == boxes && seeds2 == seeds
    ensures Anchored(Groups(lines, query, lineMargin), boxes2, seeds2)
  {
    var groups := Groups(lines, query, lineMargin);
    if Seeded(lines, query, lineMargin, n) {
      forall x | x in boxes2 && boxes2[x] < |seeds2|
        ensures Linked(groups, x, seeds2[boxes2[x]])
      {
        if boxes2[x] == |arena| {
          AnchoredNew(lines, query, lineMargin, boxes, arena, seeds, n, x);
        } else {
          assert x in boxes && boxes2[x] == boxes[x] && seeds2[boxes[x]] == seeds[boxes[x]];
        }
      }
    }
  }

  /** The box of a mapped line is connected. */
  lemma BoxConnected(groups: set<(nat, nat)>, boxes: map<nat, nat>, arena: seq<TextBox>, seeds: seq<nat>, f: nat)
    requires Consistent(boxes, arena) && f in boxes && boxes[f] < |arena| && |seeds| == |arena|
    requires Anchored(groups, boxes, seeds)
    ensures GroupConnected(groups, arena[boxes[f]])
  {
    var b := boxes[f];
    forall x, y | x in arena[b].lines && y in arena[b].lines
      ensures Linked(groups, x, y)
    {
      assert boxes[x] == b && boxes[y] == b;
      LinkedSymmetric(groups, y, seeds[b]);
      LinkedTransitive(groups, x, seeds[b], y);
    }
  }

  /** Once every seed is together with its group, the box of a mapped
      line is closed under the groups. */
  lemma BoxClosed(lines: seq<Line>, query: NeighborQuery, lineMargin: real, boxes: map<nat, nat>,
                  arena: seq<TextBox>, f: nat)
    requires QueryInRange(query, |lines|)
    requires Partition(lines, boxes, arena) && GroupsKept(lines, query, lineMargin, boxes, |lines|) && f in boxes
    ensures GroupClosed(Groups(lines, query, lineMargin), arena[boxes[f]])
  {
    var groups := Groups(lines, query, lineMargin);
    var b := boxes[f];
    forall s, x, y | x in arena[b].lines && (s, x) in groups && (s, y) in groups
      ensures y in arena[b].lines
    {
      assert InGroup(lines, query, lineMargin, s, x) && InGroup(lines, query, lineMargin, s, y);
      var g := Group(lines, query, lineMargin, s);
      assert Together(lines, query, lineMargin, boxes, s);
      var i :| 0 <= i < |g| && g[i] == x;
      var j :| 0 <= j < |g| && g[j] == y;
      assert boxes[x] == b && boxes[y] == boxes[s];
    }
  }

  lemma EmittedComponents(lines: seq<Line>, query: NeighborQuery, lineMargin: real, boxes: map<nat, nat>,
                          arena: seq<TextBox>, seeds: seq<nat>, out: seq<TextBox>, firsts: seq<nat>)
    requires QueryInRange(query, |lines|)
    requires Partition(lines, boxes, arena) && |seeds| == |arena|
    requires Anchored(Groups(lines, query, lineMargin), boxes, seeds)
    requires GroupsKept(lines, query, lineMargin, boxes, |lines|)
    requires EmittedFrom(lines, boxes, arena, out, firsts)
    ensures forall k :: 0 <= k < |out| ==> Component(lines, query, lineMargin, out[k])
  {
    forall k | 0 <= k < |out| ensures Component(lines, query, lineMargin, out[k]) {
      BoxConnected(Groups(lines, query, lineMargin), boxes, arena, seeds, firsts[k]);
      BoxClosed(lines, query, lineMargin, boxes, arena, firsts[k]);
      ConnectedClosedComponent(lines, query, lineMargin, out[k]);
    }
  }

  // ---------------------------------------------------------------------
  // Which boxes are yielded, and with which orientation
  // ---------------------------------------------------------------------

  /** The lines `ms` have a union bounding box of positive width and height. */
  ghost predicate SpansArea(lines: seq<Line>, ms: seq<nat>) {
    |ms| > 0 && AllBelow(ms, |lines|) && !IsEmptyBox(lines, TextBox(ms, true))
  }

  /** Some lines linked to seed `s` by a chain of groups span an area. */
  ghost predicate ComponentHasArea(lines: seq<Line>, query: NeighborQuery, lineMargin: real, s: nat)
    requires QueryInRange(query, |lines|)
  {
    exists ms :: SpansArea(lines, ms) && forall x :: x in ms ==> Linked(Groups(lines, query, lineMargin), s, x)
  }

  /** Every seed whose connected component spans an area is in a yielded box. */
  ghost predicate ComponentsCovered(lines: seq<Line>, query: NeighborQuery, lineMargin: real, out: seq<TextBox>)
    requires QueryInRange(query, |lines|)
  {
    forall s :: 0 <= s < |lines| && Seeded(lines, query, lineMargin, s) && ComponentHasArea(lines, query, lineMargin, s) ==>
      exists k :: 0 <= k < |out| && s in out[k].lines
  }

  /** A box enclosing every line of `ms` encloses their union. */
  lemma {:induction false} UnionWithin(lines: seq<Line>, ms: seq<nat>, outer: BBox)
    requires |ms| > 0 && AllBelow(ms, |lines|)
    requires forall x :: x in ms ==> x < |lines| && outer.x0 <= lines[x].x0 && outer.y0 <= lines[x].y0
                                     && lines[x].x1 <= outer.x1 && lines[x].y1 <= outer.y1
    ensures var u := UnionBox(lines, ms);
      outer.x0 <= u.x0 && outer.y0 <= u.y0 && u.x1 <= outer.x1 && u.y1 <= outer.y1
    decreases |ms|
  {
    assert ms[0] in ms;
    if |ms| > 1 {
      assert forall x :: x in ms[1..] ==> x in ms;
      UnionWithin(lines, ms[1..], outer);
    }
  }

  /** A box holding lines that span an area is not empty. */
  lemma SubsetSpansArea(lines: seq<Line>, ms: seq<nat>, box: TextBox)
    requires SpansArea(lines, ms) && |box.lines| > 0 && AllBelow(box.lines, |lines|)
    requires forall x :: x in ms ==> x in box.lines
    ensures !IsEmptyBox(lines, box)
  {
    var b := UnionBox(lines, box.lines);
    forall x | x in ms
      ensures x < |lines| && b.x0 <= lines[x].x0 && b.y0 <= lines[x].y0 && lines[x].x1 <= b.x1 && lines[x].y1 <= b.y1
    {
      var k :| 0 <= k < |box.lines| && box.lines[k] == x;
      UnionBoxEncloses(lines, box.lines, k);
    }
    UnionWithin(lines, ms, b);
  }

  /** The box of a seed is yielded whenever the seed's component spans an
      area: the box is that component, so its union box has the area. */
  lemma EmittedComponentsCovered(lines: seq<Line>, query: NeighborQuery, lineMargin: real, boxes: map<nat, nat>,
                                 arena: seq<TextBox>, seeds: seq<nat>, out: seq<TextBox>, firsts: seq<nat>)
    requires QueryInRange(query, |lines|)
    requires Partition(lines, boxes, arena) && |seeds| == |arena|
    requires Anchored(Groups(lines, query, lineMargin), boxes, seeds)
    requires GroupsKept(lines, query, lineMargin, boxes, |lines|)
    requires SeedsBoxed(lines, query, lineMargin, boxes, |lines|)
    requires EmittedFrom(lines, boxes, arena, out, firsts)
    ensures ComponentsCovered(lines, query, lineMargin, out)
  {
    var groups := Groups(lines, query, lineMargin);
    forall s | 0 <= s < |lines| && Seeded(lines, query, lineMargin, s) && ComponentHasArea(lines, query, lineMargin, s)
      ensures exists k :: 0 <= k < |out| && s in out[k].lines
    {
      var ms :| SpansArea(lines, ms) && forall x :: x in ms ==> Linked(groups, s, x);
      var box := arena[boxes[s]];
      BoxConnected(groups, boxes, arena, seeds, s);
      BoxClosed(lines, query, lineMargin, boxes, arena, s);
      ConnectedClosedComponent(lines, query, lineMargin, box);
      assert s in box.lines;
      forall x | x in ms ensures x in box.lines {
        assert Linked(groups, s, x);
      }
      SubsetSpansArea(lines, ms, box);
    }
  }

  /** Every seed among the first `n` lines that has a box is no later than
      the seed whose turn created that box. */
  ghost predicate SeedsNotAfter(lines: seq<Line>, query: NeighborQuery, lineMargin: real,
                                boxes: map<nat, nat>, seeds: seq<nat>, n: nat)
    requires QueryInRange(query, |lines|) && n <= |lines|
  {
    forall x :: x in boxes && x < n && Seeded(lines, query, lineMargin, x) && boxes[x] < |seeds| ==>
      x <= seeds[boxes[x]]
  }

  /** A seed's own turn moves it into a fresh box, so it is never found in
      a box created by an earlier seed. */
  lemma SeedsNotAfterStep(lines: seq<Line>, query: NeighborQuery, lineMargin: real, boxes: map<nat, nat>,
                          arena: seq<TextBox>, seeds: seq<nat>, boxes2: map<nat, nat>, seeds2: seq<nat>, n: nat)
    requires QueryInRange(query, |lines|) && n < |lines|
    requires Partition(lines, boxes, arena) && |seeds| == |arena|
    requires SeedsNotAfter(lines, query, lineMargin, boxes, seeds, n)
    requires Seeded(lines, query, lineMargin, n) ==>
      SeedStep(lines, query, lineMargin, n, boxes, arena, boxes2) && seeds2 == seeds + [n]
    requires !Seeded(lines, query, lineMargin, n) ==> boxes2 == boxes && seeds2 == seeds
    ensures SeedsNotAfter(lines, query, lineMargin, boxes2, seeds2, n + 1)
  {
    if Seeded(lines, query, lineMargin, n) {
      forall x | x in boxes2 && x < n + 1 && Seeded(lines, query, lineMargin, x) && boxes2[x] < |seeds2|
        ensures x <= seeds2[boxes2[x]]
      {
        if boxes2[x] == |arena| {
          assert seeds2[|arena|] == n;
        } else {
          assert x in boxes && boxes2[x] == boxes[x] && x != n;
          assert seeds2[boxes[x]] == seeds[boxes[x]];
        }
      }
    }
  }

  /** The box holds a seed line that is the greatest seed among its
      members, which is the seed whose turn created it, and the box has
      that seed's orientation. */
  ghost predicate LastSeedOriented(lines: seq<Line>, query: NeighborQuery, lineMargin: real, box: TextBox)
    requires QueryInRange(query, |lines|)
  {
    exists s :: && s in box.lines && s < |lines| && Seeded(lines, query, lineMargin, s)
                && lines[s].horizontal == box.horizontal
                && forall t :: t in box.lines && t < |lines| && Seeded(lines, query, lineMargin, t) ==> t <= s
  }

  /** Each yielded box is oriented like the last seed that merged into it. */
  ghost predicate CreatorOriented(lines: seq<Line>, query: NeighborQuery, lineMargin: real, out: seq<TextBox>)
    requires QueryInRange(query, |lines|)
  {
    forall k :: 0 <= k < |out| ==> LastSeedOriented(lines, query, lineMargin, out[k])
  }

  /** The box of a mapped line is oriented like the seed that created it,
      which is the greatest seed among its members. */
  lemma BoxCreatorOriented(lines: seq<Line>, query: NeighborQuery, lineMargin: real, boxes: map<nat, nat>,
                           arena: seq<TextBox>, seeds: seq<nat>, f: nat)
    requires QueryInRange(query, |lines|)
    requires Partition(lines, boxes, arena) && f in boxes
    requires SeedsOk(lines, query, lineMargin, arena, seeds)
    requires SeedsNotAfter(lines, query, lineMargin, boxes, seeds, |lines|)
    ensures LastSeedOriented(lines, query, lineMargin, arena[boxes[f]])
  {
    var b := boxes[f];
    var s := seeds[b];
    forall t | t in arena[b].lines && t < |lines| && Seeded(lines, query, lineMargin, t)
      ensures t <= s
    {
      assert t in boxes && boxes[t] == b;
    }
    assert s in arena[b].lines && Seeded(lines, query, lineMargin, s) && lines[s].horizontal == arena[b].horizontal;
  }

  lemma EmittedCreatorOriented(lines: seq<Line>, query: NeighborQuery, lineMargin: real, boxes: map<nat, nat>,
                               arena: seq<TextBox>, seeds: seq<nat>, out: seq<TextBox>, firsts: seq<nat>)
    requires QueryInRange(query, |lines|)
    requires Partition(lines, boxes, arena)
    requires SeedsOk(lines, query, lineMargin, arena, seeds)
    requires SeedsNotAfter(lines, query, lineMargin, boxes, seeds, |lines|)
    requires EmittedFrom(lines, boxes, arena, out, firsts)
    ensures CreatorOriented(lines, query, lineMargin, out)
  {
    forall k | 0 <= k < |out| ensures LastSeedOriented(lines, query, lineMargin, out[k]) {
      BoxCreatorOriented(lines, query, lineMargin, boxes, arena, seeds, firsts[k]);
      assert out[k] == arena[boxes[firsts[k]]];
    }
  }

  /** One turn of the main loop of `group_textlines`, for line `l`: it
      raises exactly when `l` is faulty; otherwise every line keeps a box,
      and `l` gets one when it is a seed. */
  method GroupLine(lines: seq<Line>, lineMargin: real, query: NeighborQuery, l: nat,
                   boxes: map<nat, nat>, arena: seq<TextBox>, ghost seeds: seq<nat>)
    returns (err: Option<PyError>, boxes2: map<nat, nat>, arena2: seq<TextBox>, ghost seeds2: seq<nat>)
    requires QueryInRange(query, |lines|) && l < |lines|
    requires Partition(lines, boxes, arena)
    requires SeedsOk(lines, query, lineMargin, arena, seeds)
    ensures err.Some? <==> Faulty(lines, query, lineMargin, l)
    ensures err.Some? ==> err.value == ZeroDivisionError
    ensures err.None? ==>
      && Partition(lines, boxes2, arena2)
      && SeedsOk(lines, query, lineMargin, arena2, seeds2)
      && OnlyMerges(boxes, boxes2)
      && (Seeded(lines, query, lineMargin, l) ==> SeedStep(lines, query, lineMargin, l, boxes, arena, boxes2))
      && (Seeded(lines, query, lineMargin, l) ==> seeds2 == seeds + [l])
      && (!Seeded(lines, query, lineMargin, l) ==> boxes2 == boxes && arena2 == arena && seeds2 == seeds)
  {
    err, boxes2, arena2, seeds2 := None, boxes, arena, seeds;
    var nbrs := query(l, lineMargin);
    if l !in nbrs || IsBlank(lines[l]) {
      return;
    }
    var trueMargin := CorrectMargin(lines, l, nbrs, lineMargin);
    if trueMargin.Failure? {
      FailureIsDivision(lines, l, nbrs, lineMargin);
      err := Some(trueMargin.error);
      return;
    }
    nbrs := query(l, trueMargin.value);
    if l !in nbrs {
      return;
    }
    var members, boxesMid := CollectMembers(lines, nbrs, boxes, arena);
    boxes2, arena2 := AddBox(lines, boxes, boxesMid, arena, members, lines[l].horizontal);
    SeedStepHolds(lines, query, lineMargin, l, boxes, arena, members, boxes2);
    SeedStepMerges(lines, boxes, arena, members, boxes2);
    SeedsExtend(lines, query, lineMargin, arena, seeds, arena2[|arena|], l);
    assert arena2 == arena + [arena2[|arena|]];
    seeds2 := seeds + [l];
  }

  /** `group_textlines`: fails exactly when some candidate line of height
      zero has another neighbour; otherwise yields pairwise disjoint,
      non-empty boxes of non-blank lines, in the order of their first
      line, each oriented like the last seed that merged into it (the
      seed whose turn created it), each a connected component of the
      seeds' groups, and covering every seed whose component spans an
      area. */
  method GroupTextlines(lines: seq<Line>, lineMargin: real, query: NeighborQuery)
    returns (res: Result<seq<TextBox>>)
    requires QueryInRange(query, |lines|)
    ensures res.Failure? <==> exists l :: 0 <= l < |lines| && Faulty(lines, query, lineMargin, l)
    ensures res.Failure? ==> res.error == ZeroDivisionError
    ensures res.Success? ==>
      && BoxesOk(lines, res.value)
      && Disjoint(res.value)
      && InFirstLineOrder(lines, res.value)
      && SeedOriented(lines, query, lineMargin, res.value)
      && SeedsCovered(lines, query, lineMargin, res.value)
      && GroupsInBoxes(lines, query, lineMargin, res.value)
      && (forall k :: 0 <= k < |res.value| ==> Component(lines, query, lineMargin, res.value[k]))
      && CreatorOriented(lines, query, lineMargin, res.value)
      && ComponentsCovered(lines, query, lineMargin, res.value)
  {
    var boxes: map<nat, nat> := map[];
    var arena: seq<TextBox> := [];
    ghost var seeds: seq<nat> := [];
    for l := 0 to |lines|
      invariant Partition(lines, boxes, arena)
      invariant SeedsOk(lines, query, lineMargin, arena, seeds)
      invariant SeedsBoxed(lines, query, lineMargin, boxes, l)
      invariant NoFaultBelow(lines, query, lineMargin, l)
      invariant GroupsKept(lines, query, lineMargin, boxes, l)
      invariant Anchored(Groups(lines, query, lineMargin), boxes, seeds)
      invariant SeedsNotAfter(lines, query, lineMargin, boxes, seeds, l)
    {
      var err;
      ghost var boxes0, arena0, seeds0 := boxes, arena, seeds;
      err, boxes, arena, seeds := GroupLine(lines, lineMargin, query, l, boxes, arena, seeds);
      if err.Some? {
        return Failure(err.value);
      }
      SeedsBoxedStep(lines, query, lineMargin, boxes0, boxes, l);
      GroupsKeptStep(lines, query, lineMargin, boxes0, arena0, boxes, l);
      AnchoredStep(lines, query, lineMargin, boxes0, arena0, seeds0, boxes, seeds, l);
      SeedsNotAfterStep(lines, query, lineMargin, boxes0, arena0, seeds0, boxes, seeds, l);
    }
    var out;
    ghost var firsts;
    out, firsts := EmitBoxes(lines, boxes, arena);
    EmittedBoxesOk(lines, boxes, arena, out, firsts);
    EmittedDisjoint(lines, boxes, arena, out, firsts);
    EmittedSeeded(lines, query, lineMargin, boxes, arena, seeds, out, firsts);
    EmittedCovers(lines, query, lineMargin, boxes, arena, out, firsts);
    EmittedGroups(lines, query, lineMargin, boxes, arena, out, firsts);
    EmittedComponents(lines, query, lineMargin, boxes, arena, seeds, out, firsts);
    EmittedComponentsCovered(lines, query, lineMargin, boxes, arena, seeds, out, firsts);
    EmittedCreatorOriented(lines, query, lineMargin, boxes, arena, seeds, out, firsts);
    res := Success(out);
  }
}
