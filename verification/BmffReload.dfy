/** Walking over a written file gives its box tree back. */
module BmffReload {
  import opened Bytes
  import opened BmffBoxes
  import opened BmffImage
  import W = BmffWriter

  /** A file of these boxes: sound, not nested too deeply, the last one perhaps without a length. */
  ghost predicate Sound(ns: W.Nodes, maxDepth: nat) {
    W.GoodAll(ns) && W.FitAll(ns, true) && W.HeightAll(ns) <= maxDepth
  }

  /** It is tiled by the boxes that were written, and by no others. */
  lemma OnlyForest(ns: W.Nodes, maxDepth: nat, cs: Boxes)
    requires Sound(ns, maxDepth)
    ensures var d := W.WrittenAll(ns);
            Row(d, cs, 0, |d|, 0, maxDepth) && RowEnd(cs, 0) == |d| <==> cs == W.PlacedAll(ns, 0)
  {
    var d, bs := W.WrittenAll(ns), W.PlacedAll(ns, 0);
    assert d[0..0 + |d|] == d;
    W.RowDescribed(d, ns, 0, |d|, 0, maxDepth);
    if Row(d, cs, 0, |d|, 0, maxDepth) && RowEnd(cs, 0) == |d| {
      RowsAgree(d, bs, cs, 0, |d|, 0, maxDepth);
      EmptyRow(d, cs, maxDepth);
      EmptyRow(d, bs, maxDepth);
      FullRowsSame(d, bs, cs, 0, |d|, 0, maxDepth);
    }
  }

  lemma EmptyRow(d: seq<byte>, cs: Boxes, maxDepth: nat)
    requires Row(d, cs, 0, |d|, 0, maxDepth) && RowEnd(cs, 0) == |d|
    ensures Fills(cs, 0, |d|)
  {
    if cs.More? {
      RowGrows(d, cs, 0, 0, |d|, 0, maxDepth);
    }
  }

  lemma {:induction false} StartsCounted(n: W.Node, at: nat)
    ensures |Starts(W.Placed(n, at))| == W.Size(n)
    decreases n, 1
  {
    if !n.Leaf? {
      AllStartsCounted(n.inner, at + W.HeadSize(n.form) + |W.Front(n)|);
    }
  }

  lemma {:induction false} AllStartsCounted(ns: W.Nodes, at: nat)
    ensures |AllStarts(W.PlacedAll(ns, at))| == W.SizeAll(ns)
    decreases ns, 0
  {
    if ns.Cons? {
      StartsCounted(ns.head, at);
      AllStartsCounted(ns.tail, at + |W.Written(ns.head)|);
    }
  }

  /** No top-level box has more than `most` boxes, itself included. */
  predicate Few(ns: W.Nodes, most: nat) {
    ns.Cons? ==> W.Size(ns.head) <= most && Few(ns.tail, most)
  }

  lemma {:induction false} FewWithin(ns: W.Nodes, at: nat, visitsMax: nat)
    requires Few(ns, visitsMax + 1)
    ensures WithinVisits(W.PlacedAll(ns, at), visitsMax)
    decreases ns
  {
    if ns.Cons? {
      StartsCounted(ns.head, at);
      FewWithin(ns.tail, at + |W.Written(ns.head)|, visitsMax);
    }
  }

  /** The walk over a written file: it finds the boxes that were written, each at its address and with its inner boxes,
      and it fails only in a payload, unless some top-level box has too many boxes for the length of the file. */
  method WalkWritten(ns: W.Nodes, maxDepth: nat) returns (r: Outcome, ghost forest: Boxes, ghost entries: seq<nat>)
    requires Sound(ns, maxDepth)
    ensures r.Done? ==> forest == W.PlacedAll(ns, 0) && entries == AllStarts(forest) && |entries| == W.SizeAll(ns)
    ensures Few(ns, |W.WrittenAll(ns)| / 16 + 1) ==> !r.Corrupt?
  {
    var image := new BmffImage(W.WrittenAll(ns), maxDepth);
    r, forest := image.ReadMetadata();
    entries := image.entries;
    OnlyForest(ns, maxDepth, forest);
    OnlyForest(ns, maxDepth, W.PlacedAll(ns, 0));
    AllStartsCounted(ns, 0);
    if Few(ns, |W.WrittenAll(ns)| / 16 + 1) {
      FewWithin(ns, 0, |W.WrittenAll(ns)| / 16);
    }
  }
}
