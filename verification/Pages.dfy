/** Reading the rows of a directory page by page, each with the ID of the child directory it names. */
module Pages {
  import opened Options
  import opened StoreModel

  /** A row on a page; `child` is the directory that the row names, if it names one. */
  datatype Line = Line(row: nat, child: Option<nat>)

  datatype Page = Page(childCount: nat, next: nat, done: bool, lines: seq<Line>)

  /** The children whose rows are on the page, by row. */
  function ChildIds(children: seq<(nat, nat)>, offset: nat, next: nat): map<nat, nat> {
    if children == [] then map[]
    else
      var last := children[|children| - 1];
      var before := ChildIds(children[..|children| - 1], offset, next);
      if offset <= last.0 < next then before[last.0 := last.1] else before
  }

  function Lines(ids: map<nat, nat>, offset: nat, next: nat): (lines: seq<Line>)
    requires offset <= next
    ensures |lines| == next - offset
  {
    seq(next - offset, i requires 0 <= i < next - offset => LineOf(ids, offset + i))
  }

  function LineOf(ids: map<nat, nat>, row: nat): Line {
    Line(row, if row in ids then Some(ids[row]) else None)
  }

  function DirectoryPage(count: nat, children: seq<(nat, nat)>, offset: nat, limit: nat): Option<Page> {
    if offset > count then None
    else
      var next := if offset + limit < count then offset + limit else count;
      Some(Page(|children|, next, next == count, Lines(ChildIds(children, offset, next), offset, next)))
  }

  /** What a reader collects that starts at `offset` and asks for the next page until the last. */
  function Collected(count: nat, children: seq<(nat, nat)>, offset: nat, limit: nat): seq<Line>
    requires offset <= count && limit > 0
    decreases count - offset
  {
    var page := DirectoryPage(count, children, offset, limit).value;
    if page.done then page.lines else page.lines + Collected(count, children, page.next, limit)
  }

  ghost predicate OneChildARow(children: seq<(nat, nat)>) {
    forall i, j {:trigger children[i], children[j]} :: 0 <= i < j < |children| ==> children[i].0 != children[j].0
  }

  /** The row is that of the `i`-th child. */
  predicate Names(children: seq<(nat, nat)>, i: nat, row: nat)
    requires i < |children|
  {
    children[i].0 == row
  }

  lemma {:induction false} ChildIdIsFound(children: seq<(nat, nat)>, offset: nat, next: nat, row: nat)
    requires OneChildARow(children) && offset <= row < next
    ensures var ids := ChildIds(children, offset, next);
            && (row in ids <==> exists i :: 0 <= i < |children| && Names(children, i, row))
            && (forall i :: 0 <= i < |children| && Names(children, i, row) ==> row in ids && ids[row] == children[i].1)
  {
    if children != [] {
      var before, last := children[..|children| - 1], |children| - 1;
      ChildIdIsFound(before, offset, next, row);
      assert forall i :: 0 <= i < last ==> Names(before, i, row) == Names(children, i, row);
      if Names(children, last, row) {
        forall i | 0 <= i < last ensures !Names(children, i, row) { assert children[i].0 != children[last].0; }
      }
    }
  }

  /** A line as it should be: the row, and the child that it names if there is one. */
  ghost predicate IsLine(line: Line, children: seq<(nat, nat)>, row: nat) {
    && line.row == row
    && (line.child.None? ==> forall i :: 0 <= i < |children| ==> !Names(children, i, row))
    && (line.child.Some? ==> exists i :: 0 <= i < |children| && Names(children, i, row) && children[i].1 == line.child.value)
  }

  lemma LineIsRight(children: seq<(nat, nat)>, offset: nat, next: nat, row: nat)
    requires OneChildARow(children) && offset <= row < next
    ensures IsLine(LineOf(ChildIds(children, offset, next), row), children, row)
  {
    ChildIdIsFound(children, offset, next, row);
    var ids := ChildIds(children, offset, next);
    if row in ids {
      var i :| 0 <= i < |children| && Names(children, i, row);
      assert ids[row] == children[i].1;
    }
  }

  /** Page after page, of whatever size, every row comes exactly once and in order, with its child. */
  lemma {:induction false} PagesCoverTheDirectory(count: nat, children: seq<(nat, nat)>, offset: nat, limit: nat)
    requires offset <= count && limit > 0 && OneChildARow(children)
    ensures var lines := Collected(count, children, offset, limit);
            |lines| == count - offset && forall i :: 0 <= i < |lines| ==> IsLine(lines[i], children, offset + i)
    decreases count - offset
  {
    var page, lines := DirectoryPage(count, children, offset, limit).value, Collected(count, children, offset, limit);
    if !page.done { PagesCoverTheDirectory(count, children, page.next, limit); }
    forall i | 0 <= i < |lines| ensures IsLine(lines[i], children, offset + i) {
      if offset + i < page.next {
        LineIsRight(children, offset, page.next, offset + i);
      } else {
        assert lines[i] == Collected(count, children, page.next, limit)[offset + i - page.next];
      }
    }
  }

  /** A page begins at its offset, holds at most `limit` rows, and is short only where the directory ends. */
  lemma PageIsBounded(count: nat, children: seq<(nat, nat)>, offset: nat, limit: nat)
    requires OneChildARow(children)
    ensures DirectoryPage(count, children, offset, limit) == None <==> offset > count
    ensures offset <= count ==>
              var page := DirectoryPage(count, children, offset, limit).value;
              && |page.lines| == (if count - offset < limit then count - offset else limit)
              && page.next == offset + |page.lines| && (page.done <==> page.next == count) && page.childCount == |children|
              && forall i :: 0 <= i < |page.lines| ==> IsLine(page.lines[i], children, offset + i)
  {
    if offset <= count {
      var page := DirectoryPage(count, children, offset, limit).value;
      forall i | 0 <= i < |page.lines| ensures IsLine(page.lines[i], children, offset + i) {
        LineIsRight(children, offset, page.next, offset + i);
      }
    }
  }
}
