/** The command the plugin runs on the current selection
    (`extractTextPropertiesFromFrame`): walk every selected FRAME or GROUP in
    selection order and either report an error to the UI or hand the
    collected records to the sheet uploader, once. The selection is a
    parameter and the two side effects are the returned `Outcome`. */
module Extraction {
  import opened Scene
  import opened Walk

  const NoFrameSelected: string := "No frame selected."
  const NoTextLayers: string := "No text layers found in the selected frame."

  /** What the command does in the end: post an error message to the UI,
      or send the records to the sheet. */
  datatype Outcome = PostError(message: string) | SendToSheet(records: seq<TextRecord>)

  /** What one selection item contributes: a FRAME or GROUP is walked,
      anything else is skipped. */
  function ItemLayers(item: Node): seq<TextRecord> {
    if IsContainer(item) then TextLayers(item) else []
  }

  /** The accumulated records after the loop over `selection`. */
  function SelectionLayers(selection: seq<Node>): (r: seq<TextRecord>)
    ensures forall i :: 0 <= i < |r| ==> '\n' !in r[i].characters
  {
    if selection == [] then []
    else SelectionLayers(selection[..|selection| - 1]) + ItemLayers(selection[|selection| - 1])
  }

  method ExtractTextPropertiesFromFrame(selection: seq<Node>) returns (outcome: Outcome)
    ensures selection == [] ==> outcome == PostError(NoFrameSelected)
    ensures selection != [] && SelectionLayers(selection) == [] ==> outcome == PostError(NoTextLayers)
    ensures selection != [] && SelectionLayers(selection) != [] ==> outcome == SendToSheet(SelectionLayers(selection))
  {
    if |selection| == 0 {
      return PostError(NoFrameSelected);
    }
    var allTextProperties := [];
    for i := 0 to |selection|
      invariant allTextProperties == SelectionLayers(selection[..i])
    {
      assert selection[..i + 1][..i] == selection[..i];
      var node := selection[i];
      if node.nodeType == FrameType || node.nodeType == GroupType {
        var fromNode := GetTextLayersInFrame(node);
        allTextProperties := allTextProperties + fromNode;
      }
    }
    assert selection[..|selection|] == selection;
    if |allTextProperties| == 0 {
      outcome := PostError(NoTextLayers);
    } else {
      outcome := SendToSheet(allTextProperties);
    }
  }

  /** One more selected item adds its own records at the end. */
  lemma SelectionLayersSnoc(init: seq<Node>, x: Node)
    ensures SelectionLayers(init + [x]) == SelectionLayers(init) + ItemLayers(x)
  {
    var s := init + [x];
    assert s[..|s| - 1] == init && s[|s| - 1] == x;
  }

  /** The records of two selections one after the other are the records of
      the first followed by those of the second. */
  lemma {:induction false} SelectionLayersAppend(a: seq<Node>, b: seq<Node>)
    ensures SelectionLayers(a + b) == SelectionLayers(a) + SelectionLayers(b)
    decreases |b|
  {
    if b == [] {
      assert a + b == a;
    } else {
      var init, x := b[..|b| - 1], b[|b| - 1];
      calc {
        SelectionLayers(a + b);
        { assert b == init + [x]; assert a + b == (a + init) + [x]; }
        SelectionLayers((a + init) + [x]);
        { SelectionLayersSnoc(a + init, x); }
        SelectionLayers(a + init) + ItemLayers(x);
        { SelectionLayersAppend(a, init); }
        SelectionLayers(a) + SelectionLayers(init) + ItemLayers(x);
        { SelectionLayersSnoc(init, x); assert init + [x] == b; }
        SelectionLayers(a) + SelectionLayers(b);
      }
    }
  }

  /** What every selection item contributes, in selection order. */
  function ItemResults(selection: seq<Node>): seq<seq<TextRecord>> {
    seq(|selection|, i requires 0 <= i < |selection| => ItemLayers(selection[i]))
  }

  /** The sent records are the items' records concatenated in selection
      order. */
  lemma {:induction false} SelectionInOrder(selection: seq<Node>)
    ensures SelectionLayers(selection) == Concat(ItemResults(selection))
    decreases |selection|
  {
    if selection != [] {
      var init := selection[..|selection| - 1];
      SelectionInOrder(init);
      assert ItemResults(selection) == ItemResults(init) + [ItemLayers(selection[|selection| - 1])];
      ConcatSnoc(ItemResults(init), ItemLayers(selection[|selection| - 1]));
    }
  }

  /** The FRAME and GROUP items of a selection, in order. */
  function Containers(selection: seq<Node>): (r: seq<Node>)
    ensures forall i :: 0 <= i < |r| ==> IsContainer(r[i])
    ensures |r| <= |selection|
  {
    if selection == [] then []
    else
      var last := selection[|selection| - 1];
      assert selection == selection[..|selection| - 1] + [last];
      Containers(selection[..|selection| - 1]) + (if IsContainer(last) then [last] else [])
  }

  /** Every FRAME or GROUP item is kept as often as it is selected, and
      every other item is dropped. */
  lemma {:induction false} ContainersKeepEachContainer(selection: seq<Node>)
    ensures forall n :: multiset(Containers(selection))[n] == if IsContainer(n) then multiset(selection)[n] else 0
    decreases |selection|
  {
    if selection != [] {
      var init, last := selection[..|selection| - 1], selection[|selection| - 1];
      ContainersKeepEachContainer(init);
      assert selection == init + [last];
      assert multiset(selection) == multiset(init) + multiset{last};
      var tail := if IsContainer(last) then [last] else [];
      assert Containers(selection) == Containers(init) + tail;
      assert multiset(Containers(selection)) == multiset(Containers(init)) + multiset(tail);
    }
  }

  /** One more selected item is kept at the end, or dropped. */
  lemma ContainersSnoc(init: seq<Node>, x: Node)
    ensures Containers(init + [x]) == Containers(init) + (if IsContainer(x) then [x] else [])
  {
    var s := init + [x];
    assert s[..|s| - 1] == init && s[|s| - 1] == x;
  }

  /** The filter works piecewise, so it keeps the selection order: the
      items kept from a first part all come before those kept from a
      second part. */
  lemma {:induction false} ContainersAppend(a: seq<Node>, b: seq<Node>)
    ensures Containers(a + b) == Containers(a) + Containers(b)
    decreases |b|
  {
    if b == [] {
      assert a + b == a;
    } else {
      var init, x := b[..|b| - 1], b[|b| - 1];
      var kept := if IsContainer(x) then [x] else [];
      calc {
        Containers(a + b);
        { assert a + b == (a + init) + [x]; }
        Containers((a + init) + [x]);
        { ContainersSnoc(a + init, x); }
        Containers(a + init) + kept;
        { ContainersAppend(a, init); }
        Containers(a) + Containers(init) + kept;
        { ContainersSnoc(init, x); assert init + [x] == b; }
        Containers(a) + Containers(b);
      }
    }
  }

  /** Items that are not a FRAME or GROUP are skipped: dropping them from
      the selection changes nothing. */
  lemma {:induction false} NonContainersSkipped(selection: seq<Node>)
    ensures SelectionLayers(selection) == SelectionLayers(Containers(selection))
    decreases |selection|
  {
    if selection != [] {
      var init := selection[..|selection| - 1];
      var last := selection[|selection| - 1];
      NonContainersSkipped(init);
      var tail := if IsContainer(last) then [last] else [];
      SelectionLayersAppend(Containers(init), tail);
      if IsContainer(last) {
        assert tail[..0] == [];
      }
    }
  }

  /** Every record the command sends is the record of a visible TEXT node
      that the walk reaches from a selected FRAME or GROUP. */
  lemma {:induction false} SentRecordsComeFromSelection(selection: seq<Node>)
    ensures forall r :: r in SelectionLayers(selection) ==>
      exists i, p ::
        0 <= i < |selection| && IsContainer(selection[i]) && Emitted(selection[i], p) && r == ToRecord(NodeAt(selection[i], p))
    decreases |selection|
  {
    if selection != [] {
      var init := selection[..|selection| - 1];
      var last := selection[|selection| - 1];
      SentRecordsComeFromSelection(init);
      RecordsComeFromEmittedNodes(last);
      forall r | r in SelectionLayers(selection)
        ensures exists i, p ::
          0 <= i < |selection| && IsContainer(selection[i]) && Emitted(selection[i], p) && r == ToRecord(NodeAt(selection[i], p))
      {
        if r in SelectionLayers(init) {
          var i, p :| 0 <= i < |init| && IsContainer(init[i])
            && Emitted(init[i], p) && r == ToRecord(NodeAt(init[i], p));
          assert selection[i] == init[i];
        } else {
          assert r in ItemLayers(last);
          var p :| Emitted(last, p) && r == ToRecord(NodeAt(last, p)) && r.id == NodeAt(last, p).id;
          assert selection[|selection| - 1] == last;
        }
      }
    }
  }

  /** Every visible TEXT node that the walk reaches from a selected FRAME
      or GROUP has its record among those the command sends. */
  lemma {:induction false} SelectionRecordsEveryEmittedNode(selection: seq<Node>, i: nat, p: Path)
    requires i < |selection| && IsContainer(selection[i])
    requires Emitted(selection[i], p)
    ensures ToRecord(NodeAt(selection[i], p)) in SelectionLayers(selection)
    decreases |selection|
  {
    var init := selection[..|selection| - 1];
    if i == |selection| - 1 {
      EmittedNodesAreRecorded(selection[i], p);
    } else {
      assert init[i] == selection[i];
      SelectionRecordsEveryEmittedNode(init, i, p);
    }
  }
}
