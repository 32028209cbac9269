/** Operations on a shared line-oriented text and their operational
    transformation: `Xform(op1, op2)` rebases `op1` past a concurrent `op2`
    that has already been applied, and `XformMultiple` reconciles two
    concurrent batches of operations. */
module Transform {
  import opened Wire

  /** A place in the document. `column == -1` stands for the line break
      that joins `row` to the row before it. Rows and columns are not
      constrained: the code itself uses row 0 and column -1. */
  datatype Position = Position(row: int, column: int)

  /** One edit. `author` is the session id of the client that made it. */
  datatype Op =
    | Insert(pos: Position, ch: char, author: string)
    | Delete(pos: Position, author: string)
    | Identity(author: string)

  function Down(p: Position): Position { Position(p.row + 1, p.column) }
  function Up(p: Position): Position { Position(p.row - 1, p.column) }
  function Right(p: Position): Position { Position(p.row, p.column + 1) }
  function Left(p: Position): Position { Position(p.row, p.column - 1) }

  /** `b` is `a` or one row or one column away from it. */
  predicate OneStep(a: Position, b: Position)
  {
    b == a || b == Up(a) || b == Down(a) || b == Left(a) || b == Right(a)
  }

  // ---------------------------------------------------------------------
  // Wire form of operations

  /** The tag an operation is sent with. */
  function Kind(op: Op): (k: string)
    ensures k == "INS" <==> op.Insert?
    ensures k == "DEL" <==> op.Delete?
    ensures k == "ID" <==> op.Identity?
  {
    match op
    case Insert(_, _, _) => "INS"
    case Delete(_, _) => "DEL"
    case Identity(_) => "ID"
  }

  function PositionList(p: Position): Json
  {
    JList([JInt(p.row), JInt(p.column)])
  }

  /** The list an operation is sent as: its tag, then its position and
      character where it has them, and its author last. */
  function ListStructure(op: Op): (j: Json)
    ensures j.JList? && 2 <= |j.items| <= 4
    ensures j.items[0] == JStr(Kind(op))
    ensures j.items[|j.items| - 1] == JStr(op.author)
    ensures !op.Identity? ==> j.items[1] == PositionList(op.pos)
  {
    match op
    case Insert(p, ch, a) => JList([JStr("INS"), PositionList(p), JStr([ch]), JStr(a)])
    case Delete(p, a) => JList([JStr("DEL"), PositionList(p), JStr(a)])
    case Identity(a) => JList([JStr("ID"), JStr(a)])
  }

  function ParsePosition(j: Json): Option<Position>
  {
    if j.JList? && |j.items| == 2 && j.items[0].JInt? && j.items[1].JInt?
    then Some(Position(j.items[0].i, j.items[1].i))
    else None
  }

  /** Reads back a list structure; `None` for any list no operation is sent as. */
  function ParseListStructure(j: Json): Option<Op>
  {
    if !j.JList? || |j.items| < 2 || !j.items[|j.items| - 1].JStr? then None
    else
      var author := j.items[|j.items| - 1].s;
      if j.items[0] == JStr("ID") && |j.items| == 2 then Some(Identity(author))
      else if |j.items| == 3 && j.items[0] == JStr("DEL") && ParsePosition(j.items[1]).Some? then
        Some(Delete(ParsePosition(j.items[1]).value, author))
      else if |j.items| == 4 && j.items[0] == JStr("INS") && ParsePosition(j.items[1]).Some?
              && j.items[2].JStr? && |j.items[2].s| == 1 then
        Some(Insert(ParsePosition(j.items[1]).value, j.items[2].s[0], author))
      else None
  }

  /** The list structure loses nothing: every operation can be read back. */
  lemma ListStructureRoundTrip(op: Op)
    ensures ParseListStructure(ListStructure(op)) == Some(op)
  {
  }

  /** Distinct operations are sent as distinct lists. */
  lemma ListStructureInjective(a: Op, b: Op)
    ensures ListStructure(a) == ListStructure(b) ==> a == b
  {
    ListStructureRoundTrip(a);
    ListStructureRoundTrip(b);
  }

  // ---------------------------------------------------------------------
  // Order of authors

  /** Python's `<` on strings: the first differing code point decides,
      and a proper prefix sorts first. */
  function StrLess(a: string, b: string): (lt: bool)
    ensures lt ==> a != b
    ensures a < b ==> lt
    ensures |a| > 0 && |b| > 0 && a[0] != b[0] ==> (lt <==> a[0] < b[0])
  {
    if |a| == 0 then |b| > 0
    else if |b| == 0 then false
    else if a[0] != b[0] then a[0] < b[0]
    else StrLess(a[1..], b[1..])
  }

  /** `StrLess` is a strict total order: of two distinct session ids exactly
      one sorts first, and no id sorts before itself. */
  lemma {:induction false} StrLessTotal(a: string, b: string)
    ensures !(StrLess(a, b) && StrLess(b, a))
    ensures a != b <==> StrLess(a, b) || StrLess(b, a)
  {
    if |a| > 0 && |b| > 0 && a[0] == b[0] {
      StrLessTotal(a[1..], b[1..]);
      assert a == [a[0]] + a[1..] && b == [b[0]] + b[1..];
    }
  }

  /** The first position where two strings differ decides `StrLess`. */
  lemma {:induction false} StrLessFirstDifference(a: string, b: string, k: nat)
    requires k < |a| && k < |b| && a[..k] == b[..k] && a[k] != b[k]
    ensures StrLess(a, b) <==> a[k] < b[k]
  {
    if k > 0 {
      assert a[0] == a[..k][0] == b[..k][0] == b[0];
      assert a[1..][..k - 1] == a[..k][1..] == b[..k][1..] == b[1..][..k - 1];
      StrLessFirstDifference(a[1..], b[1..], k - 1);
    }
  }

  /** `StrLess` is transitive, so with `StrLessTotal` it orders the
      session ids strictly and totally. */
  lemma {:induction false} StrLessTransitive(a: string, b: string, c: string)
    requires StrLess(a, b) && StrLess(b, c)
    ensures StrLess(a, c)
  {
    if |a| > 0 && |b| > 0 && |c| > 0 && a[0] == b[0] && b[0] == c[0] {
      StrLessTransitive(a[1..], b[1..], c[1..]);
    }
  }

  // ---------------------------------------------------------------------
  // Relative position of two operations

  /** Whether `op1` is positioned before `op2`. The row test of the code
      compares `op1`'s row with itself, so the column test applies across
      rows too: "before" means "smaller row OR smaller column". */
  function IsOpBefore(op1: Op, op2: Op): (before: bool)
    requires !op1.Identity? && !op2.Identity?
    ensures before <==> op1.pos.row < op2.pos.row || op1.pos.column < op2.pos.column
    ensures op1.pos == op2.pos ==> !before
  {
    op1.pos.row < op2.pos.row || (op1.pos.row == op1.pos.row && op1.pos.column < op2.pos.column)
  }

  function IsOpSamePos(op1: Op, op2: Op): (same: bool)
    requires !op1.Identity? && !op2.Identity?
    ensures same <==> op1.pos == op2.pos
    ensures same ==> !IsOpBefore(op1, op2) && !IsOpBefore(op2, op1)
  {
    op1.pos.row == op2.pos.row && op1.pos.column == op2.pos.column
  }

  /** `IsOpSamePos` is reflexive and symmetric. */
  lemma SamePosReflexiveSymmetric(a: Op, b: Op)
    requires !a.Identity? && !b.Identity?
    ensures IsOpSamePos(a, a)
    ensures IsOpSamePos(a, b) == IsOpSamePos(b, a)
  {
  }

  /** The "before" of the code is not an order: two operations on different
      rows can each be before the other. */
  lemma IsOpBeforeNotAsymmetric()
    ensures var a := Insert(Position(0, 5), 'a', "x");
            var b := Insert(Position(1, 0), 'b', "y");
            IsOpBefore(a, b) && IsOpBefore(b, a)
  {
  }

  /** Insert `op1` keeps its place against insert `op2`: it is before it,
      or at the same place with the smaller author. */
  function InsertPrecedes(op1: Op, op2: Op): bool
    requires op1.Insert? && op2.Insert?
  {
    IsOpBefore(op1, op2) || (IsOpSamePos(op1, op2) && StrLess(op1.author, op2.author))
  }

  /** Of two inserts at one place by different authors exactly one keeps
      its place. */
  lemma TieBreakDecides(op1: Op, op2: Op)
    requires op1.Insert? && op2.Insert? && op1.pos == op2.pos
    requires op1.author != op2.author
    ensures InsertPrecedes(op1, op2) != InsertPrecedes(op2, op1)
  {
    StrLessTotal(op1.author, op2.author);
  }

  // ---------------------------------------------------------------------
  // The four cases of the pairwise transform; in each `op2` came first.

  /** Insert past insert: `op1` moves only when it does not precede `op2`;
      it then moves down a row if `op2` inserted a newline, and right a
      column if `op2` inserted a character on its row. */
  function TransformInsIns(op1: Op, op2: Op): (r: Op)
    requires op1.Insert? && op2.Insert?
    ensures r.Insert? && r.ch == op1.ch && r.author == op1.author
    ensures r.pos == op1.pos || r.pos == Down(op1.pos) || r.pos == Right(op1.pos)
    ensures InsertPrecedes(op1, op2) ==> r == op1
    ensures r.pos == Down(op1.pos) <==> !InsertPrecedes(op1, op2) && op2.ch == '\n'
    ensures r.pos == Right(op1.pos) <==>
              !InsertPrecedes(op1, op2) && op2.ch != '\n' && op2.pos.row == op1.pos.row
  {
    if IsOpBefore(op1, op2) || (IsOpSamePos(op1, op2) && StrLess(op1.author, op2.author)) then
      Insert(op1.pos, op1.ch, op1.author)
    else if op2.ch == '\n' then
      Insert(Position(op1.pos.row + 1, op1.pos.column), op1.ch, op1.author)
    else if op2.pos.row == op1.pos.row then
      Insert(Position(op1.pos.row, op1.pos.column + 1), op1.ch, op1.author)
    else
      Insert(op1.pos, op1.ch, op1.author)
  }

  /** Insert past delete: `op1` stays if it is before or at the deleted
      place; otherwise it moves up a row if `op2` removed a line break, and
      left a column if `op2` removed a character on its row. */
  function TransformInsDel(op1: Op, op2: Op): (r: Op)
    requires op1.Insert? && op2.Delete?
    ensures r.Insert? && r.ch == op1.ch && r.author == op1.author
    ensures r.pos == op1.pos || r.pos == Up(op1.pos) || r.pos == Left(op1.pos)
    ensures IsOpBefore(op1, op2) || op1.pos == op2.pos ==> r == op1
    ensures r.pos == Up(op1.pos) <==>
              !IsOpBefore(op1, op2) && op1.pos != op2.pos && op2.pos.column == -1
    ensures r.pos == Left(op1.pos) <==>
              !IsOpBefore(op1, op2) && op1.pos != op2.pos && op2.pos.column != -1
              && op2.pos.row == op1.pos.row
  {
    if IsOpBefore(op1, op2) || IsOpSamePos(op1, op2) then
      Insert(op1.pos, op1.ch, op1.author)
    else if op2.pos.column == -1 then
      Insert(Position(op1.pos.row - 1, op1.pos.column), op1.ch, op1.author)
    else if op2.pos.row == op1.pos.row then
      Insert(Position(op1.pos.row, op1.pos.column - 1), op1.ch, op1.author)
    else
      Insert(op1.pos, op1.ch, op1.author)
  }

  /** Delete past insert: `op1` stays if it is before the insert;
      otherwise (an insert at the same place included) it moves down a row
      for a newline and right a column for a character on its row. */
  function TransformDelIns(op1: Op, op2: Op): (r: Op)
    requires op1.Delete? && op2.Insert?
    ensures r.Delete? && r.author == op1.author
    ensures r.pos == op1.pos || r.pos == Down(op1.pos) || r.pos == Right(op1.pos)
    ensures IsOpBefore(op1, op2) ==> r == op1
    ensures r.pos == Down(op1.pos) <==> !IsOpBefore(op1, op2) && op2.ch == '\n'
    ensures r.pos == Right(op1.pos) <==>
              !IsOpBefore(op1, op2) && op2.ch != '\n' && op2.pos.row == op1.pos.row
  {
    if IsOpBefore(op1, op2) then
      Delete(op1.pos, op1.author)
    else if op2.ch == '\n' then
      Delete(Position(op1.pos.row + 1, op1.pos.column), op1.author)
    else if op2.pos.row == op1.pos.row then
      Delete(Position(op1.pos.row, op1.pos.column + 1), op1.author)
    else
      Delete(op1.pos, op1.author)
  }

  /** Delete past delete: deleting the place `op2` already deleted becomes
      an Identity carrying `op1`'s author; otherwise `op1` stays if it is
      before `op2`, and moves up or left as past any other delete. */
  function TransformDelDel(op1: Op, op2: Op): (r: Op)
    requires op1.Delete? && op2.Delete?
    ensures r.Delete? || r.Identity?
    ensures r.author == op1.author
    ensures r.Identity? <==> op1.pos == op2.pos
    ensures r.Delete? ==> r.pos == op1.pos || r.pos == Up(op1.pos) || r.pos == Left(op1.pos)
    ensures IsOpBefore(op1, op2) ==> r == op1
    ensures r.Delete? && r.pos == Up(op1.pos) <==>
              !IsOpBefore(op1, op2) && op1.pos != op2.pos && op2.pos.column == -1
    ensures r.Delete? && r.pos == Left(op1.pos) <==>
              !IsOpBefore(op1, op2) && op1.pos != op2.pos && op2.pos.column != -1
              && op2.pos.row == op1.pos.row
  {
    if IsOpBefore(op1, op2) then
      Delete(op1.pos, op1.author)
    else if !IsOpSamePos(op1, op2) then
      if op2.pos.column == -1 then
        Delete(Position(op1.pos.row - 1, op1.pos.column), op1.author)
      else if op2.pos.row == op1.pos.row then
        Delete(Position(op1.pos.row, op1.pos.column - 1), op1.author)
      else
        Delete(op1.pos, op1.author)
    else
      Identity(op1.author)
  }

  /** Rebases `op1` past `op2`, which has already been applied. The result
      keeps `op1`'s kind, character and author and moves at most one row or
      one column; only a second delete of the same place becomes Identity. */
  function Xform(op1: Op, op2: Op): (r: Op)
    ensures r.author == op1.author
    ensures op1.Identity? || op2.Identity? ==> r == op1
    ensures r.Identity? <==> op1.Identity? || (op1.Delete? && op2.Delete? && op1.pos == op2.pos)
    ensures r.Insert? <==> op1.Insert?
    ensures r.Insert? ==> r.ch == op1.ch
    ensures r.Delete? ==> op1.Delete?
    ensures !r.Identity? ==> OneStep(op1.pos, r.pos)
  {
    if op1.Identity? || op2.Identity? then op1
    else if op1.Insert? && op2.Insert? then TransformInsIns(op1, op2)
    else if op1.Insert? && op2.Delete? then TransformInsDel(op1, op2)
    else if op1.Delete? && op2.Insert? then TransformDelIns(op1, op2)
    else TransformDelDel(op1, op2)
  }

  // ---------------------------------------------------------------------
  // Batch transform

  /** One pass of the inner loop of `XformMultiple`: every operation of
      `rights` is rebased past `left`, and `left`, rebased past each of them
      in turn, comes out at the end. */
  function PassThrough(left: Op, rights: seq<Op>): (res: (seq<Op>, Op))
    ensures |res.0| == |rights|
    ensures res.1.author == left.author
    ensures forall j :: 0 <= j < |rights| ==> res.0[j].author == rights[j].author
    decreases rights
  {
    if rights == [] then ([], left)
    else
      var rest := PassThrough(Xform(left, rights[0]), rights[1..]);
      ([Xform(rights[0], left)] + rest.0, rest.1)
  }

  /** The grid of transforms `XformMultiple` computes: `lefts` outer,
      `rights` inner. The first component is what the left side must still
      apply, the second what the right side must still apply. */
  function Grid(lefts: seq<Op>, rights: seq<Op>): (res: (seq<Op>, seq<Op>))
    ensures |res.0| == |rights| && |res.1| == |lefts|
    decreases lefts
  {
    if lefts == [] then (rights, [])
    else
      var pass := PassThrough(lefts[0], rights);
      var rest := Grid(lefts[1..], pass.0);
      (rest.0, [pass.1] + rest.1)
  }

  /** With nothing on the right, the left side has nothing to apply and the
      right side applies the left batch unchanged. */
  lemma {:induction false} GridNoRights(lefts: seq<Op>)
    ensures Grid(lefts, []) == ([], lefts)
    decreases lefts
  {
    if lefts != [] {
      GridNoRights(lefts[1..]);
      assert [lefts[0]] + lefts[1..] == lefts;
    }
  }

  /** With nothing on the left, the left side applies the right batch
      unchanged and the right side has nothing to apply. */
  lemma GridNoLefts(rights: seq<Op>)
    ensures Grid([], rights) == (rights, [])
  {
  }

  /** One step of `PassThrough`: the first right operation is rebased
      past `left`, and `left` moves on past it. */
  lemma PassThroughStep(left: Op, rights: seq<Op>)
    requires rights != []
    ensures PassThrough(left, rights).0
            == [Xform(rights[0], left)] + PassThrough(Xform(left, rights[0]), rights[1..]).0
    ensures PassThrough(left, rights).1 == PassThrough(Xform(left, rights[0]), rights[1..]).1
  {
  }

  /** One step of `Grid`: the first left operation passes through all
      right operations, and the rest of the grid works on what that pass
      leaves of them. */
  lemma GridStep(lefts: seq<Op>, rights: seq<Op>)
    requires lefts != []
    ensures Grid(lefts, rights).0 == Grid(lefts[1..], PassThrough(lefts[0], rights).0).0
    ensures Grid(lefts, rights).1
            == [PassThrough(lefts[0], rights).1] + Grid(lefts[1..], PassThrough(lefts[0], rights).0).1
  {
  }

  /** The inner loop of `xform_multiple`: rebases every operation of
      `currentRights` past `left`, threading `left` through them. */
  method PassLeft(left: Op, currentRights: seq<Op>) returns (nextRights: seq<Op>, currentLeft: Op)
    ensures (nextRights, currentLeft) == PassThrough(left, currentRights)
  {
    nextRights := [];
    currentLeft := left;
    assert currentRights[0..] == currentRights;
    for j := 0 to |currentRights|
      invariant PassThrough(left, currentRights).0
                == nextRights + PassThrough(currentLeft, currentRights[j..]).0
      invariant PassThrough(left, currentRights).1
                == PassThrough(currentLeft, currentRights[j..]).1
    {
      var currentRight := currentRights[j];
      assert currentRights[j..][1..] == currentRights[j + 1..];
      PassThroughStep(currentLeft, currentRights[j..]);
      nextRights := nextRights + [Xform(currentRight, currentLeft)];
      currentLeft := Xform(currentLeft, currentRight);
    }
    assert currentRights[|currentRights|..] == [];
    assert nextRights + [] == nextRights;
  }

  /** Transforms two concurrent batches against each other; the left side
      must then apply `toApplyLeft` and the right side `toApplyRight`. */
  method XformMultiple(opLefts: seq<Op>, opRights: seq<Op>)
    returns (toApplyLeft: seq<Op>, toApplyRight: seq<Op>)
    ensures (toApplyLeft, toApplyRight) == Grid(opLefts, opRights)
    ensures |toApplyLeft| == |opRights| && |toApplyRight| == |opLefts|
  {
    toApplyRight := [];
    var currentRights := opRights;
    assert opLefts[0..] == opLefts;
    for i := 0 to |opLefts|
      invariant Grid(opLefts, opRights).0 == Grid(opLefts[i..], currentRights).0
      invariant Grid(opLefts, opRights).1 == toApplyRight + Grid(opLefts[i..], currentRights).1
    {
      var nextRights, currentLeft := PassLeft(opLefts[i], currentRights);
      assert opLefts[i..][1..] == opLefts[i + 1..];
      GridStep(opLefts[i..], currentRights);
      toApplyRight := toApplyRight + [currentLeft];
      currentRights := nextRights;
    }
    assert opLefts[|opLefts|..] == [];
    assert toApplyRight + [] == toApplyRight;
    toApplyLeft := currentRights;
  }
}
