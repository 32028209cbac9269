/** The server's copy of the shared text and its revision log. The text is
    a list of rows, each a list of characters; an operation changes it in
    place. The document rebases each client's submission against the
    revisions that client has not yet seen. */
module Document {
  import opened Wire
  import opened Transform
  import opened RevisionLog

  type Rows = seq<seq<char>>

  // ---------------------------------------------------------------------
  // Python list indexing

  /** The element a Python index names in a list of length `n`: a negative
      index counts from the end. */
  function PyIndex(i: int, n: nat): (k: nat)
    requires 0 <= i + n && i < n
    ensures k < n
    ensures i >= 0 ==> k == i
    ensures i < 0 ==> k == i + n
  {
    if i < 0 then i + n else i
  }

  /** Where `list.insert(i, x)` inserts, and where a slice bound `i` cuts, in
      a list of length `n`: negative counts from the end, and anything
      outside the list is clamped to its ends. */
  function PyClamp(i: int, n: nat): (k: nat)
    ensures k <= n
    ensures 0 <= i <= n ==> k == i
    ensures i > n ==> k == n
    ensures i < 0 ==> k == if i + n < 0 then 0 else i + n
  {
    if i < 0 then (if i + n < 0 then 0 else i + n) else if i > n then n else i
  }

  function InsertAt<T>(s: seq<T>, i: nat, x: T): (r: seq<T>)
    requires i <= |s|
    ensures |r| == |s| + 1 && r[i] == x
    ensures forall j :: 0 <= j < i ==> r[j] == s[j]
    ensures forall j :: i < j < |r| ==> r[j] == s[j - 1]
  {
    s[..i] + [x] + s[i..]
  }

  function RemoveAt<T>(s: seq<T>, i: nat): (r: seq<T>)
    requires i < |s|
    ensures |r| == |s| - 1
    ensures forall j :: 0 <= j < i ==> r[j] == s[j]
    ensures forall j :: i <= j < |r| ==> r[j] == s[j + 1]
  {
    s[..i] + s[i + 1..]
  }

  // ---------------------------------------------------------------------
  // Reference semantics of one operation

  /** The rows after an application, and whether it completed. When it did
      not, the code raised `IndexError`, and `text` is what it left behind. */
  datatype Applied = Applied(text: Rows, ok: bool)

  /** What applying `op` does to `rows`. A newline insert splits a row; any
      other insert adds one character to a row; a delete at column -1 joins
      a row to the one before it (popping the row, then extending the row
      before, so an `IndexError` there comes after the pop); any other
      delete removes one character. An Identity does nothing. */
  function ApplyOp(rows: Rows, op: Op): (a: Applied)
    ensures op.Identity? ==> a == Applied(rows, true)
    ensures a.ok ==> |a.text| == |rows| + RowDelta(op)
    ensures !a.ok && !IsJoin(op) ==> a.text == rows
    ensures NoBreaks(rows) ==> NoBreaks(a.text)
  {
    match op
    case Identity(_) => Applied(rows, true)
    case Insert(p, ch, _) =>
      if !(-|rows| <= p.row < |rows|) then Applied(rows, false)
      else
        var r := PyIndex(p.row, |rows|);
        var k := PyClamp(p.column, |rows[r]|);
        if ch == '\n' then
          Applied(SplitRow(rows, r, k, PyClamp(p.row + 1, |rows|)), true)
        else
          Applied(rows[r := InsertAt(rows[r], k, ch)], true)
    case Delete(p, _) =>
      if !(-|rows| <= p.row < |rows|) then Applied(rows, false)
      else
        var r := PyIndex(p.row, |rows|);
        if p.column == -1 then
          var rest := RemoveAt(rows, r);
          if !(-|rest| <= p.row - 1 < |rest|) then Applied(rest, false)
          else
            Applied(JoinRow(rows, r, PyIndex(p.row - 1, |rest|)), true)
        else if -|rows[r]| <= p.column < |rows[r]| then
          Applied(rows[r := RemoveAt(rows[r], PyIndex(p.column, |rows[r]|))], true)
        else
          Applied(rows, false)
  }

  /** Row `r` cut at column `k`: the head stays in place and the tail is
      inserted as a row of its own at index `at` of the list. */
  function SplitRow(rows: Rows, r: nat, k: nat, at: nat): (rs: Rows)
    requires r < |rows| && k <= |rows[r]| && at <= |rows|
    ensures |rs| == |rows| + 1
    ensures NoBreaks(rows) ==> NoBreaks(rs)
  {
    var split := rows[r := rows[r][..k]];
    split[..at] + [rows[r][k..]] + split[at..]
  }

  /** Row `r` popped from the list and appended to row `t` of what is
      left. */
  function JoinRow(rows: Rows, r: nat, t: nat): (rs: Rows)
    requires r < |rows| && t < |rows| - 1
    ensures |rs| == |rows| - 1
    ensures NoBreaks(rows) ==> NoBreaks(rs)
  {
    var rest := RemoveAt(rows, r);
    rest[t := rest[t] + rows[r]]
  }

  /** Applies `ops` in order, stopping at the first that raises. */
  function ApplyAll(rows: Rows, ops: seq<Op>): (a: Applied)
    ensures (forall i :: 0 <= i < |ops| ==> ops[i].Identity?) ==> a == Applied(rows, true)
    ensures NoBreaks(rows) ==> NoBreaks(a.text)
    decreases ops
  {
    if ops == [] then Applied(rows, true)
    else
      var a := ApplyOp(rows, ops[0]);
      if a.ok then ApplyAll(a.text, ops[1..]) else a
  }

  /** No row holds a line break: line breaks exist only between rows. */
  predicate NoBreaks(rows: Rows)
  {
    forall i :: 0 <= i < |rows| ==> '\n' !in rows[i]
  }

  /** The change in the number of rows a successful `op` makes: one more
      for a newline insert, one fewer for a line join. */
  function RowDelta(op: Op): int
  {
    if op.Insert? && op.ch == '\n' then 1
    else if op.Delete? && op.pos.column == -1 then -1
    else 0
  }

  /** A delete of the line break before a row. */
  predicate IsJoin(op: Op)
  {
    op.Delete? && op.pos.column == -1
  }

  /** A string cut at its line breaks, as `str.split('\n')` cuts it. */
  function SplitLines(s: string): (lines: Rows)
    ensures |lines| >= 1 && NoBreaks(lines)
    decreases |s|
  {
    if s == [] then [[]]
    else
      var rest := SplitLines(s[1..]);
      if s[0] == '\n' then [[]] + rest else [[s[0]] + rest[0]] + rest[1..]
  }

  /** Text with no line break in front only extends the first line. */
  lemma {:induction false} SplitLinesPrefix(a: string, t: string)
    ensures '\n' !in a ==>
              SplitLines(a + t) == [a + SplitLines(t)[0]] + SplitLines(t)[1..]
    decreases |a|
  {
    var lines := SplitLines(t);
    if '\n' !in a {
      if a == [] {
        assert a + t == t && a + lines[0] == lines[0];
        assert [lines[0]] + lines[1..] == lines;
      } else {
        assert (a + t)[1..] == a[1..] + t;
        assert '\n' !in a[1..];
        SplitLinesPrefix(a[1..], t);
        assert [a[0]] + (a[1..] + lines[0]) == a + lines[0];
      }
    }
  }

  /** The rows joined by line breaks, as `get_text` returns them. Rows
      without line breaks of their own are given back by cutting the
      result at its line breaks. */
  function JoinRows(rows: Rows): (s: string)
    ensures NoBreaks(rows) && |rows| >= 1 ==> SplitLines(s) == rows
    decreases rows
  {
    if |rows| == 0 then ""
    else if |rows| == 1 then
      SplitLinesPrefix(rows[0], []);
      assert rows[0] + [] == rows[0];
      rows[0]
    else
      var tail := JoinRows(rows[1..]);
      SplitLinesPrefix(rows[0], "\n" + tail);
      assert ("\n" + tail)[1..] == tail;
      assert SplitLines("\n" + tail) == [[]] + SplitLines(tail);
      assert rows[0] + "\n" + tail == rows[0] + ("\n" + tail);
      assert rows[0] + [] == rows[0];
      assert NoBreaks(rows) ==> NoBreaks(rows[1..]);
      assert [rows[0]] + rows[1..] == rows;
      rows[0] + "\n" + tail
  }

  // ---------------------------------------------------------------------
  // What one operation does, case by case (rows and columns in range)

  /** An Identity operation leaves the text as it is. */
  lemma ApplyIdentity(rows: Rows, author: string)
    ensures ApplyOp(rows, Identity(author)) == Applied(rows, true)
  {
  }

  /** A character insert at (r, c) adds that character at index c of row r
      and leaves every other row as it was. */
  lemma ApplyInsertChar(rows: Rows, r: int, c: int, ch: char, author: string)
    requires 0 <= r < |rows| && 0 <= c <= |rows[r]| && ch != '\n'
    ensures var a := ApplyOp(rows, Insert(Position(r, c), ch, author));
            && a.ok && |a.text| == |rows|
            && |a.text[r]| == |rows[r]| + 1 && a.text[r][c] == ch
            && a.text[r][..c] == rows[r][..c] && a.text[r][c + 1..] == rows[r][c..]
            && forall i :: 0 <= i < |rows| && i != r ==> a.text[i] == rows[i]
  {
  }

  /** A newline insert at (r, c) adds one row: the new rows r and r + 1 are
      old row r cut at column c, and the other rows keep their order. */
  lemma ApplyInsertNewline(rows: Rows, r: int, c: int, author: string)
    requires 0 <= r < |rows| && 0 <= c <= |rows[r]|
    ensures var a := ApplyOp(rows, Insert(Position(r, c), '\n', author));
            && a.ok && |a.text| == |rows| + 1
            && a.text[r] + a.text[r + 1] == rows[r] && |a.text[r]| == c
            && a.text[..r] == rows[..r] && a.text[r + 2..] == rows[r + 1..]
  {
    var a := ApplyOp(rows, Insert(Position(r, c), '\n', author));
    var split := rows[r := rows[r][..c]];
    assert a.text == split[..r + 1] + [rows[r][c..]] + split[r + 1..];
    assert split[..r + 1] == rows[..r] + [rows[r][..c]];
    assert rows[r][..c] + rows[r][c..] == rows[r];
  }

  /** A delete at (r, -1) with r >= 1 removes row r and appends its
      contents to row r - 1. */
  lemma ApplyJoinRows(rows: Rows, r: int, author: string)
    requires 1 <= r < |rows|
    ensures var a := ApplyOp(rows, Delete(Position(r, -1), author));
            && a.ok && |a.text| == |rows| - 1
            && a.text[r - 1] == rows[r - 1] + rows[r]
            && a.text[..r - 1] == rows[..r - 1] && a.text[r..] == rows[r + 1..]
  {
  }

  /** A delete at (r, c) with c >= 0 removes exactly the character at index
      c of row r and leaves every other row as it was. */
  lemma ApplyDeleteChar(rows: Rows, r: int, c: int, author: string)
    requires 0 <= r < |rows| && 0 <= c < |rows[r]|
    ensures var a := ApplyOp(rows, Delete(Position(r, c), author));
            && a.ok && |a.text| == |rows|
            && |a.text[r]| == |rows[r]| - 1
            && a.text[r][..c] == rows[r][..c] && a.text[r][c..] == rows[r][c + 1..]
            && forall i :: 0 <= i < |rows| && i != r ==> a.text[i] == rows[i]
  {
  }

  /** Inserting a character at (r, c) and then deleting at (r, c) gives
      back the text. */
  lemma InsertThenDeleteRestores(rows: Rows, r: int, c: int, ch: char, author: string)
    requires 0 <= r < |rows| && 0 <= c <= |rows[r]| && ch != '\n'
    ensures var a := ApplyOp(rows, Insert(Position(r, c), ch, author));
            var b := ApplyOp(a.text, Delete(Position(r, c), author));
            a.ok && b == Applied(rows, true)
  {
    var a := ApplyOp(rows, Insert(Position(r, c), ch, author));
    assert a.text[r] == rows[r][..c] + [ch] + rows[r][c..];
    assert RemoveAt(a.text[r], c) == rows[r];
    assert a.text[r := rows[r]] == rows;
  }

  /** Inserting a newline at (r, c) and then deleting the line break before
      row r + 1 gives back the text. */
  lemma NewlineThenJoinRestores(rows: Rows, r: int, c: int, author: string)
    requires 0 <= r < |rows| && 0 <= c <= |rows[r]|
    ensures var a := ApplyOp(rows, Insert(Position(r, c), '\n', author));
            var b := ApplyOp(a.text, Delete(Position(r + 1, -1), author));
            a.ok && b == Applied(rows, true)
  {
    ApplyInsertNewline(rows, r, c, author);
    var a := ApplyOp(rows, Insert(Position(r, c), '\n', author));
    ApplyJoinRows(a.text, r + 1, author);
    var b := ApplyOp(a.text, Delete(Position(r + 1, -1), author));
    assert b.text == rows[..r] + [rows[r]] + rows[r + 1..];
    assert rows == rows[..r] + [rows[r]] + rows[r + 1..];
  }

  /** The list structures of `ops`, one per operation, in order, as
      `add_changes` returns them. */
  function Encode(ops: seq<Op>): (js: seq<Json>)
    ensures |js| == |ops|
  {
    seq(|ops|, i requires 0 <= i < |ops| => ListStructure(ops[i]))
  }

  /** Each encoded list reads back as the operation it came from. */
  lemma EncodeRoundTrip(ops: seq<Op>)
    ensures forall i :: 0 <= i < |ops| ==> ParseListStructure(Encode(ops)[i]) == Some(ops[i])
  {
    forall i | 0 <= i < |ops| {
      ListStructureRoundTrip(ops[i]);
    }
  }

  // ---------------------------------------------------------------------
  // The text object

  class Text {
    var rows: Rows

    /** A fresh text has one empty row, so its text is the empty string. */
    constructor ()
      ensures rows == [[]] && NoBreaks(rows)
      ensures GetText() == ""
    {
      rows := [[]];
    }

    /** The rows joined by line breaks. As long as no row holds a line
        break of its own, the line breaks of the result are exactly the row
        ends: cutting at them gives the rows back. */
    function GetText(): (s: string)
      reads this
      ensures NoBreaks(rows) && |rows| >= 1 ==> SplitLines(s) == rows
      ensures rows == [] ==> s == ""
    {
      JoinRows(rows)
    }

    /** Applies `op` in place. `ok` is false where the code raises
      `IndexError`; the rows are then what it left behind. */
    method Apply(op: Op) returns (ok: bool)
      modifies this
      ensures Applied(rows, ok) == ApplyOp(old(rows), op)
    {
      ok := true;
      match op
      case Identity(_) =>
      case Insert(p, ch, _) =>
        if !(-|rows| <= p.row < |rows|) {
          return false;
        }
        var r := PyIndex(p.row, |rows|);
        if ch == '\n' {
          var k := PyClamp(p.column, |rows[r]|);
          var left := rows[r][..k];
          var right := rows[r][k..];
          rows := rows[r := left];
          var at := PyClamp(p.row + 1, |rows|);
          rows := rows[..at] + [right] + rows[at..];
        } else {
          rows := rows[r := InsertAt(rows[r], PyClamp(p.column, |rows[r]|), ch)];
        }
      case Delete(p, _) =>
        if !(-|rows| <= p.row < |rows|) {
          return false;
        }
        var r := PyIndex(p.row, |rows|);
        if p.column == -1 {
          var row := rows[r];
          rows := RemoveAt(rows, r);
          if !(-|rows| <= p.row - 1 < |rows|) {
            return false;
          }
          var t := PyIndex(p.row - 1, |rows|);
          rows := rows[t := rows[t] + row];
        } else {
          if !(-|rows[r]| <= p.column < |rows[r]|) {
            return false;
          }
          rows := rows[r := RemoveAt(rows[r], PyIndex(p.column, |rows[r]|))];
        }
    }
  }

  // ---------------------------------------------------------------------
  // The document: text plus revision log

  class Document {
    var revisions: seq<Revision<Op>>
    /** Session id to the number of the last revision that client has seen. */
    var clients: map<string, int>
    const text: Text

    /** Every cursor names a revision or is -1, every revision carries its
        own index as its number, and no row of the text holds a line break. */
    ghost predicate Valid()
      reads this, text
    {
      && (forall a :: a in clients ==> -1 <= clients[a] <= |revisions| - 1)
      && (forall i :: 0 <= i < |revisions| ==> revisions[i].revisionNum == i)
      && NoBreaks(text.rows)
    }

    constructor ()
      ensures Valid() && fresh(text)
      ensures revisions == [] && clients == map[] && text.rows == [[]]
    {
      revisions := [];
      clients := map[];
      text := new Text();
    }

    /** The text, rows joined by line breaks: while it has a row, cutting
        it at its line breaks gives the rows back. */
    function GetText(): (s: string)
      reads this, text
      requires Valid()
      ensures |text.rows| >= 1 ==> SplitLines(s) == text.rows
      ensures text.rows == [] ==> s == ""
    {
      text.GetText()
    }

    /** The revision a Python index names: a negative index counts from the
        newest revision back; `IndexError` outside the log. */
    function GetRevision(revisionNum: int): (r: Result<Revision<Op>>)
      reads this, text
      requires Valid()
      ensures r.Ok? <==> -|revisions| <= revisionNum < |revisions|
      ensures r.Err? ==> r.error == IndexError
      ensures r.Ok? && revisionNum >= 0 ==> r.value.revisionNum == revisionNum
      ensures r.Ok? && revisionNum < 0 ==> r.value.revisionNum == |revisions| + revisionNum
      ensures r.Ok? ==> 0 <= r.value.revisionNum < |revisions| && r.value == revisions[r.value.revisionNum]
    {
      if -|revisions| <= revisionNum < |revisions| then
        Ok(revisions[if revisionNum < 0 then |revisions| + revisionNum else revisionNum])
      else Err(IndexError)
    }

    /** The number of the newest revision, -1 for an empty log: the next
        revision gets this number plus one. */
    function GetLastRevisionNum(): (n: int)
      reads this, text
      requires Valid()
      ensures n + 1 == |revisions|
      ensures n >= 0 ==> revisions[n].revisionNum == n
    {
      LastRevisionNum(revisions)
    }

    /** Whether the client's cursor is on the newest revision; `KeyError`
        for a session that never joined. A client on the newest revision
        has nothing left to see. */
    function IsOnLatestRevision(author: string): (r: Result<bool>)
      reads this, text
      requires Valid()
      ensures author !in clients <==> r == Err(KeyError(author))
      ensures r.Ok? ==> (r.value <==> clients[author] == |revisions| - 1)
      ensures r == Ok(true) ==> ChangesSince(revisions, clients[author]) == []
    {
      if author !in clients then Err(KeyError(author))
      else Ok(GetLastRevisionNum() == clients[author])
    }

    method GetChangesSinceRevisionNum(revisionNum: int) returns (cs: seq<Op>)
      requires revisionNum >= -1
      ensures cs == ChangesSince(revisions, revisionNum)
    {
      cs := CollectChangesSince(revisions, revisionNum);
    }

    /** Appends one revision and returns its number, the old last number
        plus one, which is the new last number. */
    method AddRevision(changes: seq<Op>, author: string) returns (revisionNum: int)
      requires Valid()
      modifies this
      ensures Valid()
      ensures revisionNum == old(|revisions|) && revisionNum == |revisions| - 1
      ensures revisions == old(revisions) + [Revision(changes, author, revisionNum)]
      ensures clients == old(clients)
    {
      revisionNum := GetLastRevisionNum() + 1;
      revisions := revisions + [Revision(changes, author, revisionNum)];
    }

    /** Applies `changes` to the text in order; `ok` is false where the code
        raises, and the text then holds the changes applied so far. */
    method ApplyChanges(changes: seq<Op>) returns (ok: bool)
      modifies text
      ensures Applied(text.rows, ok) == ApplyAll(old(text.rows), changes)
    {
      ok := true;
      for i := 0 to |changes|
        invariant ApplyAll(old(text.rows), changes) == ApplyAll(text.rows, changes[i..])
      {
        assert changes[i..][1..] == changes[i + 1..];
        ok := text.Apply(changes[i]);
        if !ok {
          return;
        }
      }
    }

    /** Registers a session at the newest revision, as the server does when
        a client joins. */
    method Join(author: string)
      requires Valid()
      modifies this
      ensures Valid()
      ensures clients == old(clients)[author := |revisions| - 1]
      ensures revisions == old(revisions)
    {
      clients := clients[author := GetLastRevisionNum()];
    }

    /** Takes the client's submission, based on the client's cursor, and
        returns what the client must apply. An empty submission only moves
        the cursor to the newest revision and returns everything the
        client has not seen. A non-empty one is rebased past those changes
        (and they past it), appended as one revision, applied to the text,
        and the cursor moves to the new revision. */
    method AddChanges(changes: seq<Op>, author: string) returns (r: Result<seq<Json>>)
      requires Valid()
      modifies this, text
      ensures Valid()
      ensures author !in old(clients) ==>
                && r == Err(KeyError(author)) && revisions == old(revisions)
                && clients == old(clients) && text.rows == old(text.rows)
      ensures author in old(clients) && changes == [] ==>
                && r == Ok(Encode(ChangesSince(old(revisions), old(clients)[author])))
                && revisions == old(revisions) && text.rows == old(text.rows)
                && clients == old(clients)[author := |revisions| - 1]
      ensures author in old(clients) && changes != [] ==>
                var grid := Grid(changes, ChangesSince(old(revisions), old(clients)[author]));
                var applied := ApplyAll(old(text.rows), grid.1);
                && revisions == old(revisions) + [Revision(grid.1, author, |old(revisions)|)]
                && text.rows == applied.text
                && (applied.ok ==> r == Ok(Encode(grid.0))
                                   && clients == old(clients)[author := |old(revisions)|])
                && (!applied.ok ==> r == Err(IndexError) && clients == old(clients))
      ensures r.Ok? ==>
                && |r.value| == |ChangesSince(old(revisions), old(clients)[author])|
                && author in clients && clients[author] == |revisions| - 1
    {
      if author !in clients {
        return Err(KeyError(author));
      }
      var base := clients[author];
      var changesSince := GetChangesSinceRevisionNum(base);

      if |changes| == 0 {
        clients := clients[author := GetLastRevisionNum()];
        return Ok(Encode(changesSince));
      }

      var changesForClient, changesForServer := XformMultiple(changes, changesSince);
      var newRevisionNum := AddRevision(changesForServer, author);
      var ok := ApplyChanges(changesForServer);
      if !ok {
        return Err(IndexError);
      }
      clients := clients[author := newRevisionNum];
      r := Ok(Encode(changesForClient));
    }
  }
}
