/** The append-only revision log that both the text document and the
    drawing keep: each revision is the list of changes one client submitted,
    numbered by its place in the log, and every client has a cursor, the
    number of the last revision it has seen (-1 before the first). */
module RevisionLog {

  datatype Revision<C> = Revision(changes: seq<C>, author: string, revisionNum: int)

  /** The changes of `revs`, revision after revision, each revision's
      changes in their own order. */
  function Flatten<C>(revs: seq<Revision<C>>): seq<C>
    decreases revs
  {
    if revs == [] then [] else revs[0].changes + Flatten(revs[1..])
  }

  lemma {:induction false} FlattenAppend<C>(a: seq<Revision<C>>, b: seq<Revision<C>>)
    ensures Flatten(a + b) == Flatten(a) + Flatten(b)
    decreases a
  {
    if a != [] {
      assert (a + b)[1..] == a[1..] + b;
      FlattenAppend(a[1..], b);
    } else {
      assert a + b == b;
    }
  }

  /** Every change in the flattened log comes from one of its revisions,
      and every change of a revision is in the flattened log. */
  lemma {:induction false} FlattenMembers<C>(revs: seq<Revision<C>>, c: C)
    ensures c in Flatten(revs) <==> exists i :: 0 <= i < |revs| && c in revs[i].changes
    decreases revs
  {
    if revs != [] {
      FlattenMembers(revs[1..], c);
      if c in Flatten(revs[1..]) {
        var i :| 0 <= i < |revs[1..]| && c in revs[1..][i].changes;
        assert c in revs[i + 1].changes;
      }
      if exists i :: 0 <= i < |revs| && c in revs[i].changes {
        var i :| 0 <= i < |revs| && c in revs[i].changes;
        if i > 0 {
          assert c in revs[1..][i - 1].changes;
        }
      }
    }
  }

  /** The number of the newest revision; -1 while the log is empty. */
  function LastRevisionNum<C>(revs: seq<Revision<C>>): (n: int)
    ensures n >= -1 && n + 1 == |revs|
    ensures ChangesSince(revs, n) == []
  {
    |revs| - 1
  }

  /** The changes of revisions `n + 1` to the last one, in log order. */
  function ChangesSince<C>(revs: seq<Revision<C>>, n: int): (cs: seq<C>)
    requires n >= -1
    ensures n + 1 >= |revs| ==> cs == []
    ensures n + 1 < |revs| ==> |revs[n + 1].changes| <= |cs| && cs[..|revs[n + 1].changes|] == revs[n + 1].changes
  {
    if n + 1 < |revs| then
      var next := revs[n + 1].changes;
      assert Flatten(revs[n + 1..]) == next + Flatten(revs[n + 1..][1..]);
      assert (next + Flatten(revs[n + 1..][1..]))[..|next|] == next;
      Flatten(revs[n + 1..])
    else []
  }

  /** The changes still to see from cursor `n` are exactly the changes of
      the revisions after `n`: each of those is among them, and each of
      them comes from one of those. */
  lemma ChangesSinceMembers<C>(revs: seq<Revision<C>>, n: int)
    requires n >= -1
    ensures forall i, k :: n < i < |revs| && 0 <= k < |revs[i].changes| ==> revs[i].changes[k] in ChangesSince(revs, n)
    ensures forall j :: 0 <= j < |ChangesSince(revs, n)| ==>
              exists i :: n < i < |revs| && ChangesSince(revs, n)[j] in revs[i].changes
  {
    if n + 1 < |revs| {
      var tail := revs[n + 1..];
      assert ChangesSince(revs, n) == Flatten(tail);
      FlattenIndexed(tail);
      assert forall i :: n < i < |revs| ==> revs[i] == tail[i - (n + 1)];
      forall j | 0 <= j < |Flatten(tail)|
        ensures exists i :: n < i < |revs| && Flatten(tail)[j] in revs[i].changes
      {
        var i :| 0 <= i < |tail| && Flatten(tail)[j] in tail[i].changes;
        assert revs[i + n + 1] == tail[i];
        assert Flatten(tail)[j] in revs[i + n + 1].changes;
      }
      assert forall j :: 0 <= j < |ChangesSince(revs, n)| ==>
               exists i :: n < i < |revs| && ChangesSince(revs, n)[j] in revs[i].changes;
    }
  }

  /** `FlattenMembers` for every change at once, by position. */
  lemma FlattenIndexed<C>(revs: seq<Revision<C>>)
    ensures forall i, k :: 0 <= i < |revs| && 0 <= k < |revs[i].changes| ==> revs[i].changes[k] in Flatten(revs)
    ensures forall j :: 0 <= j < |Flatten(revs)| ==> exists i :: 0 <= i < |revs| && Flatten(revs)[j] in revs[i].changes
  {
    forall i, k | 0 <= i < |revs| && 0 <= k < |revs[i].changes|
      ensures revs[i].changes[k] in Flatten(revs)
    {
      FlattenMembers(revs, revs[i].changes[k]);
    }
    forall j | 0 <= j < |Flatten(revs)|
      ensures exists i :: 0 <= i < |revs| && Flatten(revs)[j] in revs[i].changes
    {
      var c := Flatten(revs)[j];
      assert c in Flatten(revs);
      FlattenMembers(revs, c);
      var i :| 0 <= i < |revs| && c in revs[i].changes;
      assert Flatten(revs)[j] in revs[i].changes;
      assert exists i' :: 0 <= i' < |revs| && Flatten(revs)[j] in revs[i'].changes;
    }
    assert forall j :: 0 <= j < |Flatten(revs)| ==> exists i :: 0 <= i < |revs| && Flatten(revs)[j] in revs[i].changes;
  }

  /** Appending a revision adds exactly its changes at the end of what any
      cursor up to the old last revision has yet to see. */
  lemma ChangesSinceAppend<C>(revs: seq<Revision<C>>, rev: Revision<C>, n: int)
    requires -1 <= n <= LastRevisionNum(revs)
    ensures ChangesSince(revs + [rev], n) == ChangesSince(revs, n) + rev.changes
  {
    if n + 1 < |revs| {
      assert (revs + [rev])[n + 1..] == revs[n + 1..] + [rev];
      FlattenAppend(revs[n + 1..], [rev]);
    } else {
      assert (revs + [rev])[n + 1..] == [rev];
      assert [rev][1..] == [];
      assert Flatten([rev]) == rev.changes + [];
    }
  }

  /** Walks the revisions after `n` and collects their changes, as the
      generator `get_changes_since_revision_num` yields them. */
  method CollectChangesSince<C>(revs: seq<Revision<C>>, n: int) returns (cs: seq<C>)
    requires n >= -1
    ensures cs == ChangesSince(revs, n)
  {
    cs := [];
    var i := n + 1;
    while i < |revs|
      invariant n + 1 <= i && (i <= |revs| || i == n + 1)
      invariant i <= |revs| ==> cs == Flatten(revs[n + 1..i])
      invariant i > |revs| ==> cs == []
    {
      var rev := revs[i];
      for k := 0 to |rev.changes|
        invariant cs == Flatten(revs[n + 1..i]) + rev.changes[..k]
      {
        cs := cs + [rev.changes[k]];
      }
      assert rev.changes[..|rev.changes|] == rev.changes;
      assert revs[n + 1..i + 1] == revs[n + 1..i] + [rev];
      FlattenAppend(revs[n + 1..i], [rev]);
      i := i + 1;
    }
    assert i <= |revs| ==> revs[n + 1..i] == revs[n + 1..];
  }
}
