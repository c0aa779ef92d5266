/** The depth-first walk that collects one record per visible TEXT node
    reached through visible FRAME and GROUP nodes (`getTextLayersInFrame`).

    `TextLayers` is the walk as a function; `GetTextLayersInFrame` is the
    walk as the plugin runs it, with its accumulator and its loop over the
    children. Independently of both, `Reached` and `Emitted` say by child-index
    paths which nodes the walk visits and which it turns into records; the
    lemmas at the end connect the two views. */
module Walk {
  import opened Newlines
  import opened Scene

  /** The records the walk returns for `node`, in pre-order. */
  function TextLayers(node: Node): (r: seq<TextRecord>)
    ensures forall i :: 0 <= i < |r| ==> '\n' !in r[i].characters
    decreases node, |node.children| + 1
  {
    if !node.visible then []
    else if node.nodeType == TextType then [ToRecord(node)]
    else if IsContainer(node) then ChildLayers(node, |node.children|)
    else []
  }

  /** The accumulator once the loop over the children of `node` has
      visited the first `k` of them. */
  function ChildLayers(node: Node, k: nat): (r: seq<TextRecord>)
    requires k <= |node.children|
    ensures forall i :: 0 <= i < |r| ==> '\n' !in r[i].characters
    decreases node, k
  {
    if k == 0 then [] else ChildLayers(node, k - 1) + TextLayers(node.children[k - 1])
  }

  /** The walk as the plugin runs it: an accumulator that receives the TEXT
      node's record, or the concatenation of every child's records. */
  method GetTextLayersInFrame(node: Node) returns (textProperties: seq<TextRecord>)
    ensures textProperties == TextLayers(node)
    decreases node
  {
    textProperties := [];
    if !node.visible {
      return;
    }
    if node.nodeType == TextType {
      textProperties := textProperties + [ToRecord(node)];
    } else if node.nodeType == FrameType || node.nodeType == GroupType {
      for i := 0 to |node.children|
        invariant textProperties == ChildLayers(node, i)
      {
        var fromChild := GetTextLayersInFrame(node.children[i]);
        textProperties := textProperties + fromChild;
      }
    }
  }

  // ---------------------------------------------------------------------
  // Local behaviour of one step of the walk

  /** An invisible node, or a visible node that is neither TEXT nor a
      container, gives no record, whatever lies beneath it. */
  lemma HiddenOrOtherYieldsNothing(node: Node)
    requires !node.visible || (node.nodeType != TextType && !IsContainer(node))
    ensures TextLayers(node) == []
  {
  }

  /** A visible TEXT node gives exactly one record, built from its own
      attributes. */
  lemma TextNodeYieldsOneRecord(node: Node)
    requires node.visible && node.nodeType == TextType
    ensures |TextLayers(node)| == 1
    ensures var r := TextLayers(node)[0];
      && r.id == node.id
      && r.name == node.name
      && r.characters == ReplaceNewlines(node.text.characters)
      && r.fontSize == node.text.fontSize
      && r.fontFamily == (if node.text.fontName.Font? then Some(node.text.fontName.family) else None)
      && r.fontStyle == (if node.text.fontName.Font? then Some(node.text.fontName.style) else None)
      && r.textAlignHorizontal == node.text.textAlignHorizontal
      && r.textAlignVertical == node.text.textAlignVertical
      && r.lineHeight == ValueOrBlank(node.text.lineHeight)
      && r.letterSpacing == ValueOrBlank(node.text.letterSpacing)
      && r.textCase == node.text.textCase
      && r.textDecoration == node.text.textDecoration
  {
  }

  /** Concatenation of a sequence of record lists, first to last. */
  function Concat(parts: seq<seq<TextRecord>>): seq<TextRecord> {
    if parts == [] then [] else parts[0] + Concat(parts[1..])
  }

  /** What the walk returns for each child of `node`, in child order. */
  function ChildResults(node: Node): seq<seq<TextRecord>> {
    seq(|node.children|, i requires 0 <= i < |node.children| => TextLayers(node.children[i]))
  }

  lemma {:induction false} ConcatSnoc(parts: seq<seq<TextRecord>>, last: seq<TextRecord>)
    ensures Concat(parts + [last]) == Concat(parts) + last
  {
    if parts == [] {
      assert parts + [last] == [last];
    } else {
      assert (parts + [last])[1..] == parts[1..] + [last];
      ConcatSnoc(parts[1..], last);
    }
  }

  lemma {:induction false} ChildLayersIsConcat(node: Node, k: nat)
    requires k <= |node.children|
    ensures ChildLayers(node, k) == Concat(ChildResults(node)[..k])
  {
    if k > 0 {
      ChildLayersIsConcat(node, k - 1);
      var results := ChildResults(node);
      assert results[..k] == results[..k - 1] + [results[k - 1]];
      ConcatSnoc(results[..k - 1], results[k - 1]);
    }
  }

  /** A visible FRAME or GROUP contributes no record of its own: it returns
      its children's records concatenated in child order. */
  lemma ContainerConcatenatesChildren(node: Node)
    requires node.visible && IsContainer(node)
    ensures TextLayers(node) == Concat(ChildResults(node))
  {
    ChildLayersIsConcat(node, |node.children|);
    assert ChildResults(node)[..|node.children|] == ChildResults(node);
  }

  // ---------------------------------------------------------------------
  // The walk described by paths

  /** A path is the sequence of child indices leading down from a root. */
  type Path = seq<nat>

  ghost predicate ValidPath(n: Node, p: Path)
    decreases |p|
  {
    p == [] || (p[0] < |n.children| && ValidPath(n.children[p[0]], p[1..]))
  }

  ghost function NodeAt(n: Node, p: Path): Node
    requires ValidPath(n, p)
    decreases |p|
  {
    if p == [] then n else NodeAt(n.children[p[0]], p[1..])
  }

  /** The walk started at `n` visits the node at `p`: every node strictly
      above it on the path is a visible FRAME or GROUP. */
  ghost predicate Reached(n: Node, p: Path)
    decreases |p|
  {
    p == [] || (n.visible && IsContainer(n) && p[0] < |n.children| && Reached(n.children[p[0]], p[1..]))
  }

  /** The node at `p` is a visible TEXT node that the walk visits. */
  ghost predicate Emitted(n: Node, p: Path) {
    ValidPath(n, p) && Reached(n, p) && NodeAt(n, p).visible && NodeAt(n, p).nodeType == TextType
  }

  /** Pre-order on paths: an ancestor comes before its descendants, and
      the subtree of a lower child index before that of a higher one. */
  ghost predicate PathBefore(p: Path, q: Path)
    decreases |p|
  {
    q != [] && (p == [] || p[0] < q[0] || (p[0] == q[0] && PathBefore(p[1..], q[1..])))
  }

  /** The paths of the emitted nodes, in the order the walk meets them. */
  ghost function EmittedPaths(node: Node): seq<Path>
    decreases node, |node.children| + 1
  {
    if !node.visible then []
    else if node.nodeType == TextType then [[]]
    else if IsContainer(node) then ChildPaths(node, |node.children|)
    else []
  }

  ghost function ChildPaths(node: Node, k: nat): seq<Path>
    requires k <= |node.children|
    decreases node, k
  {
    if k == 0 then [] else ChildPaths(node, k - 1) + Under(k - 1, EmittedPaths(node.children[k - 1]))
  }

  /** Each path of `ps`, seen from the parent whose child `i` they start at. */
  ghost function Under(i: nat, ps: seq<Path>): seq<Path> {
    seq(|ps|, j requires 0 <= j < |ps| => [i] + ps[j])
  }

  // ---------------------------------------------------------------------
  // What the walk does not visit

  /** Nothing beneath an invisible node, or beneath a node that is not a
      FRAME or GROUP, is visited. */
  lemma {:induction false} NotVisitedBelow(root: Node, p: Path, q: Path)
    requires ValidPath(root, p)
    requires !(NodeAt(root, p).visible && IsContainer(NodeAt(root, p)))
    requires q != []
    ensures !Reached(root, p + q)
    decreases |p|
  {
    if p == [] {
      assert p + q == q;
    } else {
      assert (p + q)[0] == p[0] && (p + q)[1..] == p[1..] + q;
      NotVisitedBelow(root.children[p[0]], p[1..], q);
    }
  }

  /** No record comes from an invisible node or from anything beneath it. */
  lemma {:induction false} InvisibleSubtreeEmitsNothing(root: Node, p: Path, q: Path)
    requires ValidPath(root, p)
    requires !NodeAt(root, p).visible
    ensures !Emitted(root, p + q)
  {
    if q == [] {
      assert p + q == p;
    } else {
      NotVisitedBelow(root, p, q);
    }
  }

  // ---------------------------------------------------------------------
  // The walk enumerates exactly the emitted nodes, in pre-order

  lemma {:induction false} LayersFollowPaths(node: Node)
    ensures |TextLayers(node)| == |EmittedPaths(node)|
    ensures forall i :: 0 <= i < |EmittedPaths(node)| ==>
      ValidPath(node, EmittedPaths(node)[i]) && TextLayers(node)[i] == ToRecord(NodeAt(node, EmittedPaths(node)[i]))
    decreases node, |node.children| + 1
  {
    if node.visible && node.nodeType != TextType && IsContainer(node) {
      ChildLayersFollowPaths(node, |node.children|);
    }
  }

  lemma {:induction false} ChildLayersFollowPaths(node: Node, k: nat)
    requires k <= |node.children|
    ensures |ChildLayers(node, k)| == |ChildPaths(node, k)|
    ensures forall i :: 0 <= i < |ChildPaths(node, k)| ==>
      ValidPath(node, ChildPaths(node, k)[i]) && ChildLayers(node, k)[i] == ToRecord(NodeAt(node, ChildPaths(node, k)[i]))
    decreases node, k
  {
    if k > 0 {
      var c := node.children[k - 1];
      ChildLayersFollowPaths(node, k - 1);
      LayersFollowPaths(c);
      var before, mine := ChildPaths(node, k - 1), EmittedPaths(c);
      var paths, layers := ChildPaths(node, k), ChildLayers(node, k);
      assert layers == ChildLayers(node, k - 1) + TextLayers(c);
      assert paths == before + Under(k - 1, mine);
      var off := |before|;
      forall i | 0 <= i < |paths|
        ensures ValidPath(node, paths[i])
        ensures layers[i] == ToRecord(NodeAt(node, paths[i]))
      {
        if i < off {
          assert paths[i] == before[i] && layers[i] == ChildLayers(node, k - 1)[i];
        } else {
          var q := mine[i - off];
          var p := [k - 1] + q;
          assert paths[i] == p;
          assert p[0] == k - 1 && p[1..] == q;
          assert ValidPath(c, q) && NodeAt(node, p) == NodeAt(c, q);
          assert layers[i] == TextLayers(c)[i - off];
        }
      }
    }
  }

  lemma {:induction false} EnumeratedAreEmitted(node: Node)
    ensures forall i :: 0 <= i < |EmittedPaths(node)| ==> Emitted(node, EmittedPaths(node)[i])
    decreases node, |node.children| + 1
  {
    if node.visible && node.nodeType != TextType && IsContainer(node) {
      ChildEnumeratedAreEmitted(node, |node.children|);
    }
  }

  lemma {:induction false} ChildEnumeratedAreEmitted(node: Node, k: nat)
    requires node.visible && IsContainer(node)
    requires k <= |node.children|
    ensures forall i :: 0 <= i < |ChildPaths(node, k)| ==> Emitted(node, ChildPaths(node, k)[i])
    decreases node, k
  {
    if k > 0 {
      var c := node.children[k - 1];
      ChildEnumeratedAreEmitted(node, k - 1);
      EnumeratedAreEmitted(c);
      var off := |ChildPaths(node, k - 1)|;
      forall i | off <= i < |ChildPaths(node, k)|
        ensures Emitted(node, ChildPaths(node, k)[i])
      {
        var q := EmittedPaths(c)[i - off];
        var p := [k - 1] + q;
        assert ChildPaths(node, k)[i] == p;
        assert p[0] == k - 1 && p[1..] == q;
        assert Emitted(c, q);
      }
    }
  }

  lemma {:induction false} ChildPathsInclude(node: Node, k: nat, i: nat, q: Path)
    requires k <= |node.children| && i < k
    requires q in EmittedPaths(node.children[i])
    ensures [i] + q in ChildPaths(node, k)
    decreases k
  {
    if i == k - 1 {
      var ps := EmittedPaths(node.children[i]);
      var j :| 0 <= j < |ps| && ps[j] == q;
      assert Under(i, ps)[j] == [i] + q;
    } else {
      ChildPathsInclude(node, k - 1, i, q);
    }
  }

  lemma {:induction false} EmittedAreEnumerated(node: Node, p: Path)
    requires Emitted(node, p)
    ensures p in EmittedPaths(node)
    decreases |p|
  {
    if p != [] {
      var i := p[0];
      var c := node.children[i];
      assert Emitted(c, p[1..]);
      EmittedAreEnumerated(c, p[1..]);
      assert p == [i] + p[1..];
      ChildPathsInclude(node, |node.children|, i, p[1..]);
    }
  }

  lemma {:induction false} EnumerationInPreOrder(node: Node)
    ensures forall i, j :: 0 <= i < j < |EmittedPaths(node)| ==> PathBefore(EmittedPaths(node)[i], EmittedPaths(node)[j])
    decreases node, |node.children| + 1
  {
    if node.visible && node.nodeType != TextType && IsContainer(node) {
      ChildEnumerationInPreOrder(node, |node.children|);
    }
  }

  lemma {:induction false} ChildEnumerationInPreOrder(node: Node, k: nat)
    requires k <= |node.children|
    ensures forall p :: p in ChildPaths(node, k) ==> p != [] && p[0] < k
    ensures forall i, j :: 0 <= i < j < |ChildPaths(node, k)| ==> PathBefore(ChildPaths(node, k)[i], ChildPaths(node, k)[j])
    decreases node, k
  {
    if k > 0 {
      var c := node.children[k - 1];
      ChildEnumerationInPreOrder(node, k - 1);
      EnumerationInPreOrder(c);
      var before := ChildPaths(node, k - 1);
      var ec := EmittedPaths(c);
      var cp := ChildPaths(node, k);
      var off := |before|;
      assert cp == before + Under(k - 1, ec);
      forall p | p in cp
        ensures p != [] && p[0] < k
      {
        if p !in before {
          var j :| 0 <= j < |ec| && Under(k - 1, ec)[j] == p;
        }
      }
      forall i, j | 0 <= i < j < |cp|
        ensures PathBefore(cp[i], cp[j])
      {
        if j < off {
          assert cp[i] == before[i] && cp[j] == before[j];
        } else if i < off {
          assert cp[i] == before[i] && before[i] in before;
          assert cp[j] == [k - 1] + ec[j - off];
        } else {
          var a, b := ec[i - off], ec[j - off];
          assert cp[i] == [k - 1] + a && cp[j] == [k - 1] + b;
          assert ([k - 1] + a)[1..] == a && ([k - 1] + b)[1..] == b;
        }
      }
    }
  }

  lemma {:induction false} PathBeforeIrreflexive(p: Path)
    ensures !PathBefore(p, p)
    decreases |p|
  {
    if p != [] {
      PathBeforeIrreflexive(p[1..]);
    }
  }

  lemma {:induction false} OrderedPathsAreDistinct(s: seq<Path>)
    requires forall i, j :: 0 <= i < j < |s| ==> PathBefore(s[i], s[j])
    ensures |set p | p in s| == |s|
  {
    if s != [] {
      var t := s[1..];
      OrderedPathsAreDistinct(t);
      forall j | 0 <= j < |t|
        ensures t[j] != s[0]
      {
        assert PathBefore(s[0], s[j + 1]);
        PathBeforeIrreflexive(s[0]);
      }
      assert (set p | p in s) == {s[0]} + (set p | p in t);
    }
  }

  /** The walk from `root` returns one record per emitted node, each built
      from that node, in pre-order: the i-th record belongs to the i-th
      emitted path, every emitted node has its path listed, and the listed
      paths strictly increase in pre-order. */
  lemma WalkEnumeratesEmittedNodes(root: Node)
    ensures |TextLayers(root)| == |EmittedPaths(root)|
    ensures forall i :: 0 <= i < |EmittedPaths(root)| ==>
      Emitted(root, EmittedPaths(root)[i]) && TextLayers(root)[i] == ToRecord(NodeAt(root, EmittedPaths(root)[i]))
    ensures forall p :: Emitted(root, p) ==> p in EmittedPaths(root)
    ensures forall i, j :: 0 <= i < j < |EmittedPaths(root)| ==> PathBefore(EmittedPaths(root)[i], EmittedPaths(root)[j])
  {
    LayersFollowPaths(root);
    EnumeratedAreEmitted(root);
    EnumerationInPreOrder(root);
    forall p | Emitted(root, p)
      ensures p in EmittedPaths(root)
    {
      EmittedAreEnumerated(root, p);
    }
  }

  /** The set of emitted paths, drawn from the enumeration. */
  ghost function EmittedPathSet(root: Node): set<Path> {
    set p | p in EmittedPaths(root)
  }

  /** The number of records equals the number of visible TEXT nodes the
      walk reaches through visible FRAME and GROUP nodes. */
  lemma RecordCountIsEmittedNodeCount(root: Node)
    ensures forall p :: p in EmittedPathSet(root) <==> Emitted(root, p)
    ensures |TextLayers(root)| == |EmittedPathSet(root)|
  {
    WalkEnumeratesEmittedNodes(root);
    OrderedPathsAreDistinct(EmittedPaths(root));
  }

  /** Every visible TEXT node the walk reaches has its record returned. */
  lemma EmittedNodesAreRecorded(root: Node, p: Path)
    requires Emitted(root, p)
    ensures ToRecord(NodeAt(root, p)) in TextLayers(root)
  {
    WalkEnumeratesEmittedNodes(root);
    var i :| 0 <= i < |EmittedPaths(root)| && EmittedPaths(root)[i] == p;
    assert TextLayers(root)[i] == ToRecord(NodeAt(root, p));
  }

  /** Every record, and so every emitted id, belongs to an emitted node. */
  lemma RecordsComeFromEmittedNodes(root: Node)
    ensures forall r :: r in TextLayers(root) ==>
      exists p :: Emitted(root, p) && r == ToRecord(NodeAt(root, p)) && r.id == NodeAt(root, p).id
  {
    WalkEnumeratesEmittedNodes(root);
    forall r | r in TextLayers(root)
      ensures exists p :: Emitted(root, p) && r == ToRecord(NodeAt(root, p)) && r.id == NodeAt(root, p).id
    {
      var i :| 0 <= i < |TextLayers(root)| && TextLayers(root)[i] == r;
      var p := EmittedPaths(root)[i];
      assert Emitted(root, p) && r == ToRecord(NodeAt(root, p));
    }
  }
}
