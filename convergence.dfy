/** Convergence of the transform against the reference semantics of the
    text: for one-character edits inside a line, applying `op2` and then
    `Xform(op1, op2)` gives the same text as applying `op1` and then
    `Xform(op2, op1)`; the batch transform therefore brings two sides that
    applied concurrent batches to the same text. Newline inserts and
    line-joining deletes are outside this guarantee: with the row test of
    `IsOpBefore` comparing a row with itself, the transform does not move an
    operation down past a line split on an earlier row (see
    `NewlineOnEarlierRowDiverges`). */
module Convergence {
  import opened Transform
  import opened Document

  /** `op` is a one-character edit inside one line of `rows`: an Identity,
      an insert of a character other than a newline at a column from 0 to
      the row's length, or a delete of a character of the row. */
  predicate InLine(rows: Rows, op: Op)
  {
    match op
    case Identity(_) => true
    case Insert(p, ch, _) => ch != '\n' && 0 <= p.row < |rows| && 0 <= p.column <= |rows[p.row]|
    case Delete(p, _) => 0 <= p.row < |rows| && 0 <= p.column < |rows[p.row]|
  }

  /** What an in-line edit does: change one row. */
  function EditRow(rows: Rows, op: Op): Rows
    requires InLine(rows, op)
  {
    match op
    case Identity(_) => rows
    case Insert(p, ch, _) => rows[p.row := InsertAt(rows[p.row], p.column, ch)]
    case Delete(p, _) => rows[p.row := RemoveAt(rows[p.row], p.column)]
  }

  lemma ApplyInLine(rows: Rows, op: Op)
    requires InLine(rows, op)
    ensures ApplyOp(rows, op) == Applied(EditRow(rows, op), true)
  {
  }

  // ---------------------------------------------------------------------
  // Two edits of one row commute once the later one is shifted

  lemma InsertInsert<T>(s: seq<T>, i: nat, j: nat, x: T, y: T)
    requires i <= j <= |s|
    ensures InsertAt(InsertAt(s, j, y), i, x) == InsertAt(InsertAt(s, i, x), j + 1, y)
  {
    var a := InsertAt(InsertAt(s, j, y), i, x);
    var b := InsertAt(InsertAt(s, i, x), j + 1, y);
    assert |a| == |b|;
    forall k | 0 <= k < |a| ensures a[k] == b[k] {
    }
  }

  lemma InsertRemove<T>(s: seq<T>, i: nat, j: nat, x: T)
    requires i <= j < |s|
    ensures InsertAt(RemoveAt(s, j), i, x) == RemoveAt(InsertAt(s, i, x), j + 1)
  {
    var a := InsertAt(RemoveAt(s, j), i, x);
    var b := RemoveAt(InsertAt(s, i, x), j + 1);
    assert |a| == |b|;
    forall k | 0 <= k < |a| ensures a[k] == b[k] {
    }
  }

  lemma RemoveInsert<T>(s: seq<T>, j: nat, i: nat, x: T)
    requires j < i <= |s|
    ensures InsertAt(RemoveAt(s, j), i - 1, x) == RemoveAt(InsertAt(s, i, x), j)
  {
    var a := InsertAt(RemoveAt(s, j), i - 1, x);
    var b := RemoveAt(InsertAt(s, i, x), j);
    assert |a| == |b|;
    forall k | 0 <= k < |a| ensures a[k] == b[k] {
    }
  }

  lemma RemoveRemove<T>(s: seq<T>, i: nat, j: nat)
    requires i < j < |s|
    ensures RemoveAt(RemoveAt(s, j), i) == RemoveAt(RemoveAt(s, i), j - 1)
  {
    var a := RemoveAt(RemoveAt(s, j), i);
    var b := RemoveAt(RemoveAt(s, i), j - 1);
    assert |a| == |b|;
    forall k | 0 <= k < |a| ensures a[k] == b[k] {
    }
  }

  // ---------------------------------------------------------------------
  // Pairwise convergence

  /** Operations on different rows pass each other unchanged. */
  lemma XformOtherRow(rows: Rows, op1: Op, op2: Op)
    requires InLine(rows, op1) && InLine(rows, op2)
    requires !op1.Identity? && !op2.Identity? && op1.pos.row != op2.pos.row
    ensures Xform(op1, op2) == op1
  {
  }

  /** Two in-line edits on the same row: `op1` rebased past `op2` is an
      in-line edit of the new text, and both orders give the same row. */
  predicate SameRowCommutes(rows: Rows, op1: Op, op2: Op)
    requires InLine(rows, op1) && InLine(rows, op2)
  {
    && InLine(EditRow(rows, op2), Xform(op1, op2))
    && InLine(EditRow(rows, op1), Xform(op2, op1))
    && EditRow(EditRow(rows, op2), Xform(op1, op2)) == EditRow(EditRow(rows, op1), Xform(op2, op1))
  }

  /** Two inserts on one row: the one further right, or the one losing the
      tie on author, moves one column right. */
  lemma SameRowInsIns(rows: Rows, op1: Op, op2: Op)
    requires InLine(rows, op1) && InLine(rows, op2) && op1.author != op2.author
    requires op1.Insert? && op2.Insert? && op1.pos.row == op2.pos.row
    ensures SameRowCommutes(rows, op1, op2)
  {
    var r, s := op1.pos.row, rows[op1.pos.row];
    var c1, c2 := op1.pos.column, op2.pos.column;
    if c1 == c2 {
      TieBreakDecides(op1, op2);
    }
    if c1 < c2 || (c1 == c2 && InsertPrecedes(op1, op2)) {
      var op2' := Insert(Position(r, c2 + 1), op2.ch, op2.author);
      assert Xform(op1, op2) == op1 && Xform(op2, op1) == op2';
      InsertInsert(s, c1, c2, op1.ch, op2.ch);
      assert EditRow(EditRow(rows, op2), op1) == rows[r := InsertAt(InsertAt(s, c2, op2.ch), c1, op1.ch)];
      assert EditRow(EditRow(rows, op1), op2') == rows[r := InsertAt(InsertAt(s, c1, op1.ch), c2 + 1, op2.ch)];
    } else {
      var op1' := Insert(Position(r, c1 + 1), op1.ch, op1.author);
      assert Xform(op1, op2) == op1' && Xform(op2, op1) == op2;
      InsertInsert(s, c2, c1, op2.ch, op1.ch);
      assert EditRow(EditRow(rows, op2), op1') == rows[r := InsertAt(InsertAt(s, c2, op2.ch), c1 + 1, op1.ch)];
      assert EditRow(EditRow(rows, op1), op2) == rows[r := InsertAt(InsertAt(s, c1, op1.ch), c2, op2.ch)];
    }
  }

  /** An insert and a delete on one row: the insert moves left when it is
      after the deleted character, the delete moves right otherwise. */
  lemma SameRowInsDel(rows: Rows, op1: Op, op2: Op)
    requires InLine(rows, op1) && InLine(rows, op2)
    requires op1.Insert? && op2.Delete? && op1.pos.row == op2.pos.row
    ensures SameRowCommutes(rows, op1, op2)
    ensures SameRowCommutes(rows, op2, op1)
  {
    var r, s := op1.pos.row, rows[op1.pos.row];
    var c1, c2 := op1.pos.column, op2.pos.column;
    if c1 <= c2 {
      var op2' := Delete(Position(r, c2 + 1), op2.author);
      assert Xform(op1, op2) == op1 && Xform(op2, op1) == op2';
      InsertRemove(s, c1, c2, op1.ch);
      assert EditRow(EditRow(rows, op2), op1) == rows[r := InsertAt(RemoveAt(s, c2), c1, op1.ch)];
      assert EditRow(EditRow(rows, op1), op2') == rows[r := RemoveAt(InsertAt(s, c1, op1.ch), c2 + 1)];
    } else {
      var op1' := Insert(Position(r, c1 - 1), op1.ch, op1.author);
      assert Xform(op1, op2) == op1' && Xform(op2, op1) == op2;
      RemoveInsert(s, c2, c1, op1.ch);
      assert EditRow(EditRow(rows, op2), op1') == rows[r := InsertAt(RemoveAt(s, c2), c1 - 1, op1.ch)];
      assert EditRow(EditRow(rows, op1), op2) == rows[r := RemoveAt(InsertAt(s, c1, op1.ch), c2)];
    }
  }

  /** Two deletes on one row: of the same character both become Identity,
      otherwise the one further right moves one column left. */
  lemma SameRowDelDel(rows: Rows, op1: Op, op2: Op)
    requires InLine(rows, op1) && InLine(rows, op2)
    requires op1.Delete? && op2.Delete? && op1.pos.row == op2.pos.row
    ensures SameRowCommutes(rows, op1, op2)
  {
    var r, s := op1.pos.row, rows[op1.pos.row];
    var c1, c2 := op1.pos.column, op2.pos.column;
    if c1 < c2 {
      var op2' := Delete(Position(r, c2 - 1), op2.author);
      assert Xform(op1, op2) == op1 && Xform(op2, op1) == op2';
      RemoveRemove(s, c1, c2);
      assert EditRow(EditRow(rows, op2), op1) == rows[r := RemoveAt(RemoveAt(s, c2), c1)];
      assert EditRow(EditRow(rows, op1), op2') == rows[r := RemoveAt(RemoveAt(s, c1), c2 - 1)];
    } else if c2 < c1 {
      var op1' := Delete(Position(r, c1 - 1), op1.author);
      assert Xform(op1, op2) == op1' && Xform(op2, op1) == op2;
      RemoveRemove(s, c2, c1);
      assert EditRow(EditRow(rows, op2), op1') == rows[r := RemoveAt(RemoveAt(s, c2), c1 - 1)];
      assert EditRow(EditRow(rows, op1), op2) == rows[r := RemoveAt(RemoveAt(s, c1), c2)];
    } else {
      assert op1.pos == op2.pos;
      assert Xform(op1, op2).Identity? && Xform(op2, op1).Identity?;
    }
  }

  /** The transform property for one-character edits inside lines, on any
      rows, by different authors: both orders apply without error, the
      rebased operations are again in-line edits, and the texts agree. */
  lemma XformConverges(rows: Rows, op1: Op, op2: Op)
    requires InLine(rows, op1) && InLine(rows, op2) && op1.author != op2.author
    ensures var a1 := ApplyOp(rows, op1);
            var a2 := ApplyOp(rows, op2);
            && a1.ok && a2.ok
            && InLine(a2.text, Xform(op1, op2)) && InLine(a1.text, Xform(op2, op1))
            && ApplyOp(a2.text, Xform(op1, op2)) == ApplyOp(a1.text, Xform(op2, op1))
  {
    ApplyInLine(rows, op1);
    ApplyInLine(rows, op2);
    var t1, t2 := EditRow(rows, op1), EditRow(rows, op2);
    if op1.Identity? || op2.Identity? {
      ApplyInLine(t2, Xform(op1, op2));
      ApplyInLine(t1, Xform(op2, op1));
    } else if op1.pos.row != op2.pos.row {
      XformOtherRow(rows, op1, op2);
      XformOtherRow(rows, op2, op1);
      ApplyInLine(t2, op1);
      ApplyInLine(t1, op2);
      assert EditRow(t2, op1) == EditRow(t1, op2);
    } else {
      if op1.Insert? && op2.Insert? {
        SameRowInsIns(rows, op1, op2);
      } else if op1.Insert? && op2.Delete? {
        SameRowInsDel(rows, op1, op2);
      } else if op1.Delete? && op2.Insert? {
        SameRowInsDel(rows, op2, op1);
      } else {
        SameRowDelDel(rows, op1, op2);
      }
      ApplyInLine(t2, Xform(op1, op2));
      ApplyInLine(t1, Xform(op2, op1));
    }
  }

  // ---------------------------------------------------------------------
  // Batch convergence

  /** Every operation of `ops` is an in-line edit of the text the ones
      before it leave. */
  predicate AllInLine(rows: Rows, ops: seq<Op>)
    decreases ops
  {
    ops == [] || (InLine(rows, ops[0]) && AllInLine(ApplyOp(rows, ops[0]).text, ops[1..]))
  }

  lemma {:induction false} AllInLineApplies(rows: Rows, ops: seq<Op>)
    requires AllInLine(rows, ops)
    ensures ApplyAll(rows, ops).ok
    decreases ops
  {
    if ops != [] {
      ApplyInLine(rows, ops[0]);
      AllInLineApplies(ApplyOp(rows, ops[0]).text, ops[1..]);
    }
  }

  /** No author appears on both sides. */
  predicate AuthorsApart(lefts: seq<Op>, rights: seq<Op>)
  {
    forall i, j :: 0 <= i < |lefts| && 0 <= j < |rights| ==> lefts[i].author != rights[j].author
  }

  /** One row of the grid: `left` threaded through `rights` lands where
      `rights` rebased past `left` land. */
  lemma {:induction false} PassThroughConverges(rows: Rows, left: Op, rights: seq<Op>)
    requires InLine(rows, left) && AllInLine(rows, rights)
    requires forall j :: 0 <= j < |rights| ==> rights[j].author != left.author
    ensures var pass := PassThrough(left, rights);
            var afterLeft := ApplyOp(rows, left).text;
            var afterRights := ApplyAll(rows, rights).text;
            && AllInLine(afterLeft, pass.0) && InLine(afterRights, pass.1)
            && ApplyAll(afterLeft, pass.0) == ApplyOp(afterRights, pass.1)
    decreases rights
  {
    ApplyInLine(rows, left);
    if rights != [] {
      var r0 := rights[0];
      XformConverges(rows, left, r0);
      var s1 := ApplyOp(rows, r0).text;
      var l1 := Xform(left, r0);
      PassThroughConverges(s1, l1, rights[1..]);
    }
  }

  /** Batch convergence: after `(toLeft, toRight) := Grid(lefts, rights)`,
      the side that applied `lefts` and then `toLeft` and the side that
      applied `rights` and then `toRight` hold the same text, and every
      rebased operation is again an in-line edit where it is applied. */
  lemma {:induction false} GridConverges(rows: Rows, lefts: seq<Op>, rights: seq<Op>)
    requires AllInLine(rows, lefts) && AllInLine(rows, rights) && AuthorsApart(lefts, rights)
    ensures var grid := Grid(lefts, rights);
            var afterLefts := ApplyAll(rows, lefts).text;
            var afterRights := ApplyAll(rows, rights).text;
            && AllInLine(afterLefts, grid.0) && AllInLine(afterRights, grid.1)
            && ApplyAll(afterLefts, grid.0) == ApplyAll(afterRights, grid.1)
    decreases lefts
  {
    AllInLineApplies(rows, rights);
    if lefts != [] {
      var l := lefts[0];
      var pass := PassThrough(l, rights);
      PassThroughConverges(rows, l, rights);
      ApplyInLine(rows, l);
      var s1 := ApplyOp(rows, l).text;
      GridConverges(s1, lefts[1..], pass.0);
      var afterRights := ApplyAll(rows, rights).text;
      ApplyInLine(afterRights, pass.1);
    }
  }

  /** Across rows the transform does not converge once a newline is
      involved: an insert on row 1 is "before" a newline inserted at column
      5 of row 0 (its column is smaller), so it is not moved down. */
  lemma NewlineOnEarlierRowDiverges()
    ensures var rows := ["abcdef", "xy"];
            var op1 := Insert(Position(1, 0), 'Z', "a");
            var op2 := Insert(Position(0, 5), '\n', "b");
            && Xform(op1, op2) == op1 && Xform(op2, op1) == op2
            && ApplyOp(ApplyOp(rows, op2).text, Xform(op1, op2))
               == Applied(["abcde", "Zf", "xy"], true)
            && ApplyOp(ApplyOp(rows, op1).text, Xform(op2, op1))
               == Applied(["abcde", "f", "Zxy"], true)
  {
    var rows := ["abcdef", "xy"];
    var op1 := Insert(Position(1, 0), 'Z', "a");
    var op2 := Insert(Position(0, 5), '\n', "b");
    assert rows[0][..5] == "abcde" && rows[0][5..] == "f";
    assert ApplyOp(rows, op2).text == ["abcde", "f", "xy"];
    assert InsertAt(rows[1], 0, 'Z') == "Zxy";
    assert ApplyOp(rows, op1).text == ["abcdef", "Zxy"];
    assert InsertAt("f", 0, 'Z') == "Zf";
    var t := ApplyOp(rows, op1).text;
    assert t[0][..5] == "abcde" && t[0][5..] == "f";
  }
}
