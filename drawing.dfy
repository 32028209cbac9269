/** The whiteboard: the same revision log as the text document, but the
    changes (drawn strokes, kept as the JSON lists the clients send) are
    stored and relayed as they are, with no transformation and no text to
    apply them to. */
module Drawing {
  import opened Wire
  import opened RevisionLog

  class Drawing {
    var revisions: seq<Revision<Json>>
    /** Session id to the number of the last revision that client has seen.
        No code in the repository registers drawing cursors, so this model
        has no `Join` for them: entries come only from outside callers. */
    var clients: map<string, int>

    /** Every cursor names a revision or is -1, and every revision carries
        its own index as its number. */
    ghost predicate Valid()
      reads this
    {
      && (forall a :: a in clients ==> -1 <= clients[a] <= |revisions| - 1)
      && (forall i :: 0 <= i < |revisions| ==> revisions[i].revisionNum == i)
    }

    /** A fresh drawing has no revisions and no clients; its last revision
        number is therefore -1. */
    constructor ()
      ensures Valid()
      ensures revisions == [] && clients == map[]
      ensures GetLastRevisionNum() == -1
    {
      revisions := [];
      clients := map[];
    }

    /** The revision a Python index names: a negative index counts from the
        newest revision back; `IndexError` outside the log. */
    function GetRevision(revisionNum: int): (r: Result<Revision<Json>>)
      reads this
      requires Valid()
      ensures r.Ok? <==> -|revisions| <= revisionNum < |revisions|
      ensures r.Err? ==> r.error == IndexError
      ensures r.Ok? && revisionNum >= 0 ==> r.value.revisionNum == revisionNum
      ensures r.Ok? && revisionNum < 0 ==> r.value.revisionNum == |revisions| + revisionNum
      ensures r.Ok? ==> 0 <= r.value.revisionNum < |revisions| && r.value == revisions[r.value.revisionNum]
    {
      if -|revisions| <= revisionNum < |revisions| then
        Ok(revisions[if revisionNum < 0 then |revisions| + revisionNum else revisionNum])
      else Err(IndexError)
    }

    /** The number of the newest revision, -1 for an empty log: the next
        revision gets this number plus one. */
    function GetLastRevisionNum(): (n: int)
      reads this
      requires Valid()
      ensures n + 1 == |revisions|
      ensures n >= 0 ==> revisions[n].revisionNum == n
    {
      LastRevisionNum(revisions)
    }

    /** Whether the client's cursor is on the newest revision; `KeyError`
        for a session that was never registered. */
    function IsOnLatestRevision(author: string): (r: Result<bool>)
      reads this
      requires Valid()
      ensures author !in clients <==> r == Err(KeyError(author))
      ensures r.Ok? ==> (r.value <==> clients[author] == |revisions| - 1)
      ensures r == Ok(true) ==> ChangesSince(revisions, clients[author]) == []
    {
      if author !in clients then Err(KeyError(author))
      else Ok(GetLastRevisionNum() == clients[author])
    }

    /** The changes of every revision after `revisionNum`, in log order. */
    method GetChangesSinceRevisionNum(revisionNum: int) returns (cs: seq<Json>)
      requires revisionNum >= -1
      ensures cs == ChangesSince(revisions, revisionNum)
    {
      cs := CollectChangesSince(revisions, revisionNum);
    }

    /** Appends one revision holding `changes` as given and returns its
        number, the old last number plus one. */
    method AddRevision(changes: seq<Json>, author: string) returns (revisionNum: int)
      requires Valid()
      modifies this
      ensures Valid()
      ensures revisionNum == old(|revisions|) && revisionNum == |revisions| - 1
      ensures revisions == old(revisions) + [Revision(changes, author, revisionNum)]
      ensures clients == old(clients)
    {
      revisionNum := GetLastRevisionNum() + 1;
      revisions := revisions + [Revision(changes, author, revisionNum)];
    }

    /** Stores the client's strokes as a new revision, untransformed, moves
        the client's cursor to it, and returns every stroke the client had
        not yet seen; `KeyError` for an unregistered session, with nothing
        changed. Earlier revisions are left as they were. */
    method AddChanges(changes: seq<Json>, author: string) returns (r: Result<seq<Json>>)
      requires Valid()
      modifies this
      ensures Valid()
      ensures author !in old(clients) ==>
                r == Err(KeyError(author)) && revisions == old(revisions) && clients == old(clients)
      ensures author in old(clients) ==>
                && r == Ok(ChangesSince(old(revisions), old(clients)[author]))
                && revisions == old(revisions) + [Revision(changes, author, |old(revisions)|)]
                && clients == old(clients)[author := |old(revisions)|]
                && IsOnLatestRevision(author) == Ok(true)
    {
      if author !in clients {
        return Err(KeyError(author));
      }
      var base := clients[author];
      var changesSince := GetChangesSinceRevisionNum(base);
      var newRevisionNum := AddRevision(changes, author);
      clients := clients[author := newRevisionNum];
      r := Ok(changesSince);
    }
  }
}
