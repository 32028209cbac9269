/** One collaborative editing session: a text document, a drawing, and the
    registry of connected clients, each with a nickname and a colour handed
    out round-robin from a fixed palette. */
module Editor {
  import Document
  import Drawing

  /** The colours handed to clients, in the order they are handed out. */
  const Palette: seq<string> := ["#AAFF00", "#FFAA00", "#FF00AA", "#AA00FF", "#00AAFF"]

  /** The palette index used after index `i`: the next one, wrapping
      around after the last. */
  function NextColorIndex(i: nat): (j: nat)
    requires i < |Palette|
    ensures j < |Palette|
    ensures i + 1 < |Palette| ==> j == i + 1
    ensures i + 1 == |Palette| ==> j == 0
  {
    (i + 1) % |Palette|
  }

  /** The colours that `k` consecutive colour requests return, starting
      with the palette index `i`. */
  function ColorsDrawn(i: nat, k: nat): seq<string>
    requires i < |Palette|
    decreases k
  {
    if k == 0 then [] else [Palette[i]] + ColorsDrawn(NextColorIndex(i), k - 1)
  }

  /** The palette index after `k` consecutive colour requests starting
      with the palette index `i`. */
  function IndexAfter(i: nat, k: nat): (j: nat)
    requires i < |Palette|
    ensures j < |Palette|
    decreases k
  {
    if k == 0 then i else IndexAfter(NextColorIndex(i), k - 1)
  }

  /** Consecutive requests walk the palette cyclically. */
  lemma {:induction false} ColorsDrawnWalk(i: nat, k: nat)
    requires i < |Palette|
    ensures |ColorsDrawn(i, k)| == k
    ensures forall j :: 0 <= j < k ==> ColorsDrawn(i, k)[j] == Palette[(i + j) % |Palette|]
    ensures IndexAfter(i, k) == (i + k) % |Palette|
    decreases k
  {
    if k > 0 {
      var i' := NextColorIndex(i);
      ColorsDrawnWalk(i', k - 1);
      forall j | 0 <= j < k
        ensures ColorsDrawn(i, k)[j] == Palette[(i + j) % |Palette|]
      {
        if j > 0 {
          assert ColorsDrawn(i, k)[j] == ColorsDrawn(i', k - 1)[j - 1];
          assert (i' + (j - 1)) % |Palette| == (i + j) % |Palette|;
        }
      }
      assert (i' + (k - 1)) % |Palette| == (i + k) % |Palette|;
    }
  }

  /** The palette holds five different colours. */
  lemma PaletteDistinct()
    ensures forall j, k :: 0 <= j < k < |Palette| ==> Palette[j] != Palette[k]
  {
    var p := Palette;
    assert p[0][1] == 'A' && p[1][1] == 'F' && p[2][1] == 'F' && p[3][1] == 'A' && p[4][1] == '0';
    assert p[0][3] == 'F' && p[3][3] == '0';
    assert p[1][3] == 'A' && p[2][3] == '0';
  }

  /** Five consecutive colour requests, from any starting index, hand out
      every palette colour. */
  lemma ColorsCycleCovers(i: nat)
    requires i < |Palette|
    ensures forall c :: c in Palette ==> c in ColorsDrawn(i, |Palette|)
  {
    var n := |Palette|;
    ColorsDrawnWalk(i, n);
    var d := ColorsDrawn(i, n);
    forall c | c in Palette
      ensures c in d
    {
      var m :| 0 <= m < n && Palette[m] == c;
      var j := if i <= m then m - i else m + n - i;
      assert (i + j) % n == m;
      assert d[j] == c;
    }
  }

  /** Five consecutive colour requests hand out five different colours. */
  lemma ColorsCycleDistinct(i: nat)
    requires i < |Palette|
    ensures |ColorsDrawn(i, |Palette|)| == |Palette|
    ensures forall j, k :: 0 <= j < k < |Palette| ==> ColorsDrawn(i, |Palette|)[j] != ColorsDrawn(i, |Palette|)[k]
  {
    var n := |Palette|;
    ColorsDrawnWalk(i, n);
    PaletteDistinct();
    var d := ColorsDrawn(i, n);
    forall j, k | 0 <= j < k < n
      ensures d[j] != d[k]
    {
      var a := if i + j < n then i + j else i + j - n;
      var b := if i + k < n then i + k else i + k - n;
      assert (i + j) % n == a && (i + k) % n == b;
    }
  }

  /** After five requests the index is back where it started, so the sixth
      request repeats the first colour. */
  lemma ColorsCycleReturns(i: nat)
    requires i < |Palette|
    ensures IndexAfter(i, |Palette|) == i
    ensures ColorsDrawn(IndexAfter(i, |Palette|), 1) == ColorsDrawn(i, 1)
  {
    ColorsDrawnWalk(i, |Palette|);
  }

  /** No session id occurs twice. */
  predicate Distinct(order: seq<string>)
  {
    forall i, j :: 0 <= i < j < |order| ==> order[i] != order[j]
  }

  /** A distinct list has as many elements as its set. */
  lemma {:induction false} DistinctCard(order: seq<string>)
    requires Distinct(order)
    ensures |set s | s in order| == |order|
    decreases order
  {
    if order != [] {
      var rest := order[1..];
      DistinctCard(rest);
      assert (set s | s in order) == (set s | s in rest) + {order[0]};
      assert order[0] !in rest;
    }
  }

  /** The `[alias, color]` pair of every client, in registration order. */
  function ClientsState(order: seq<string>, clients: map<string, (string, string)>): (state: seq<seq<string>>)
    requires forall s :: s in order ==> s in clients
    ensures |state| == |order|
    ensures forall i :: 0 <= i < |order| ==>
              state[i] == [clients[order[i]].0, clients[order[i]].1]
  {
    seq(|order|, i requires 0 <= i < |order| => [clients[order[i]].0, clients[order[i]].1])
  }

  /** With each registered session listed once, the state has exactly one
      entry per client, and that entry is the client's alias and colour. */
  lemma ClientsStateOnePerClient(order: seq<string>, clients: map<string, (string, string)>, session: string)
    requires Distinct(order)
    requires forall s :: s in order <==> s in clients
    requires session in clients
    ensures |ClientsState(order, clients)| == |clients|
    ensures exists i :: 0 <= i < |order| && order[i] == session
                        && ClientsState(order, clients)[i] == [clients[session].0, clients[session].1]
    ensures forall i, j :: 0 <= i < |order| && 0 <= j < |order| && order[i] == session && order[j] == session ==> i == j
  {
    DistinctCard(order);
    assert (set s | s in order) == clients.Keys;
    var i :| 0 <= i < |order| && order[i] == session;
  }

  class Editor {
    const document: Document.Document
    const drawing: Drawing.Drawing
    /** Session id to the client's nickname and colour. */
    var clients: map<string, (string, string)>
    /** The session ids in the order they were first registered: the order
        in which the clients dictionary is iterated. */
    var order: seq<string>
    const colors: seq<string>
    /** The palette index of the colour the next client gets. */
    var colorIndex: nat

    /** The colour index is a palette index, and the registration order
        lists every registered session exactly once. */
    ghost predicate Valid()
      reads this
    {
      && colors == Palette
      && colorIndex < |colors|
      && Distinct(order)
      && (forall s :: s in order <==> s in clients)
    }

    /** A fresh editor: an empty document and drawing, no clients, and the
        first palette colour up next. */
    constructor ()
      ensures Valid()
      ensures fresh(document) && fresh(drawing)
      ensures document.Valid() && document.revisions == [] && document.clients == map[]
      ensures document.text.rows == [[]]
      ensures drawing.Valid() && drawing.revisions == [] && drawing.clients == map[]
      ensures clients == map[] && order == [] && colorIndex == 0
    {
      document := new Document.Document();
      drawing := new Drawing.Drawing();
      clients := map[];
      order := [];
      colors := Palette;
      colorIndex := 0;
    }

    /** The `[alias, color]` pair of every client, in registration order. */
    method GetClientsState() returns (state: seq<seq<string>>)
      requires Valid()
      ensures state == ClientsState(order, clients)
    {
      state := [];
      for k := 0 to |order|
        invariant state == ClientsState(order[..k], clients)
      {
        var sessionId := order[k];
        var alias := clients[sessionId].0;
        var color := clients[sessionId].1;
        state := state + [[alias, color]];
      }
      assert order[..|order|] == order;
    }

    function DoesClientExist(sessionId: string): (b: bool)
      reads this
      requires Valid()
      ensures b <==> sessionId in order
    {
      sessionId in clients
    }

    /** Registers `sessionId` (or re-registers it, keeping its place in the
        order) with the next colour, and returns that colour. */
    method AddClient(sessionId: string, alias: string) returns (color: string)
      requires Valid()
      modifies this
      ensures Valid()
      ensures color == Palette[old(colorIndex)] && colorIndex == NextColorIndex(old(colorIndex))
      ensures clients == old(clients)[sessionId := (alias, color)]
      ensures sessionId in old(clients) ==> order == old(order)
      ensures sessionId !in old(clients) ==> order == old(order) + [sessionId]
      ensures DoesClientExist(sessionId)
    {
      color := GetNextColor();
      if sessionId !in clients {
        order := order + [sessionId];
      }
      clients := clients[sessionId := (alias, color)];
    }

    /** `k` consecutive colour requests, as `k` registrations of new
        clients make them: they return `ColorsDrawn` from the current index
        and leave the index at `IndexAfter`, so the palette lemmas above
        describe what `GetNextColor` hands out. */
    method GetNextColors(k: nat) returns (drawn: seq<string>)
      requires Valid()
      modifies this
      ensures Valid()
      ensures drawn == ColorsDrawn(old(colorIndex), k)
      ensures colorIndex == IndexAfter(old(colorIndex), k)
      ensures clients == old(clients) && order == old(order)
    {
      drawn := [];
      var i := 0;
      while i < k
        invariant 0 <= i <= k && Valid()
        invariant ColorsDrawn(old(colorIndex), k) == drawn + ColorsDrawn(colorIndex, k - i)
        invariant IndexAfter(old(colorIndex), k) == IndexAfter(colorIndex, k - i)
        invariant clients == old(clients) && order == old(order)
      {
        var before := colorIndex;
        var c := GetNextColor();
        assert ColorsDrawn(before, k - i) == [c] + ColorsDrawn(colorIndex, k - i - 1);
        assert drawn + ([c] + ColorsDrawn(colorIndex, k - i - 1))
               == (drawn + [c]) + ColorsDrawn(colorIndex, k - i - 1);
        drawn := drawn + [c];
        i := i + 1;
      }
      assert drawn + [] == drawn;
    }

    /** Hands out the colour at the current index and advances the index
        round-robin. */
    method GetNextColor() returns (newColor: string)
      requires Valid()
      modifies this
      ensures Valid()
      ensures newColor == Palette[old(colorIndex)]
      ensures colorIndex == NextColorIndex(old(colorIndex))
      ensures clients == old(clients) && order == old(order)
    {
      newColor := colors[colorIndex];
      colorIndex := (colorIndex + 1) % |colors|;
    }
  }
}
