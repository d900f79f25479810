/** Drawing as overlay: a layer gives new words to some places of a frame and leaves the others alone. */
module Overlays {
  import opened Memory

  type Picture = seq<word>
  type Layer = map<int, word>

  function Overlay(frame: Picture, layer: Layer): (after: Picture)
    ensures |after| == |frame|
  {
    seq(|frame|, k requires 0 <= k < |frame| => if k in layer then layer[k] else frame[k])
  }

  /** The layers in drawing order, the last one on top. */
  function OverlayAll(frame: Picture, layers: seq<Layer>): (after: Picture)
    ensures |after| == |frame|
  {
    if layers == [] then frame
    else Overlay(OverlayAll(frame, layers[..|layers| - 1]), layers[|layers| - 1])
  }

  /** One layer that stands for several. */
  function Merged(layers: seq<Layer>): Layer {
    if layers == [] then map[] else Merged(layers[..|layers| - 1]) + layers[|layers| - 1]
  }

  /** Drawing b after a is drawing the two laid over each other. */
  lemma OverlayTwice(frame: Picture, a: Layer, b: Layer)
    ensures Overlay(Overlay(frame, a), b) == Overlay(frame, a + b)
  {
  }

  lemma {:induction false} OverlayAllIsMerged(frame: Picture, layers: seq<Layer>)
    ensures OverlayAll(frame, layers) == Overlay(frame, Merged(layers))
  {
    if layers != [] {
      OverlayAllIsMerged(frame, layers[..|layers| - 1]);
      OverlayTwice(frame, Merged(layers[..|layers| - 1]), layers[|layers| - 1]);
    }
  }

  /** Drawing the same layers again changes nothing. */
  lemma RepaintIsIdle(frame: Picture, layers: seq<Layer>)
    ensures OverlayAll(OverlayAll(frame, layers), layers) == OverlayAll(frame, layers)
  {
    OverlayAllIsMerged(frame, layers);
    OverlayAllIsMerged(OverlayAll(frame, layers), layers);
  }

  /** Layers that give the same word wherever two of them meet; disjoint layers do. */
  ghost predicate Agreeing(layers: seq<Layer>) {
    forall a, b, k :: a in layers && b in layers && k in a && k in b ==> a[k] == b[k]
  }

  lemma {:induction false} MergedAt(layers: seq<Layer>, k: int)
    ensures k in Merged(layers) <==> exists a :: a in layers && k in a
    ensures k in Merged(layers) ==> exists a :: a in layers && k in a && Merged(layers)[k] == a[k]
  {
    if layers != [] {
      var front, last := layers[..|layers| - 1], layers[|layers| - 1];
      MergedAt(front, k);
      assert forall a :: a in layers <==> a in front || a == last;
    }
  }

  /** Each of several agreeing layers can be seen in full. */
  lemma AgreeingShows(frame: Picture, layers: seq<Layer>, a: Layer, k: int)
    requires Agreeing(layers) && a in layers && k in a && 0 <= k < |frame|
    ensures OverlayAll(frame, layers)[k] == a[k]
  {
    MergedAt(layers, k);
    OverlayAllIsMerged(frame, layers);
  }

  /** The order in which agreeing layers are drawn, and how often, cannot be seen. */
  lemma OrderIsInvisible(frame: Picture, layers: seq<Layer>, others: seq<Layer>)
    requires Agreeing(layers)
    requires forall a :: a in layers <==> a in others
    ensures OverlayAll(frame, layers) == OverlayAll(frame, others)
  {
    forall k: int
      ensures k in Merged(layers) <==> k in Merged(others)
      ensures k in Merged(layers) ==> Merged(layers)[k] == Merged(others)[k]
    {
      MergedAt(layers, k);
      MergedAt(others, k);
    }
    assert Merged(layers) == Merged(others);
    OverlayAllIsMerged(frame, layers);
    OverlayAllIsMerged(frame, others);
  }

  /** Two lists of layers, of which the two in one position may meet, and no others. */
  ghost predicate ApartInPairs(a: seq<Layer>, b: seq<Layer>) {
    && |a| == |b|
    && forall i, j, k :: 0 <= i < |a| && 0 <= j < |a| && i != j && (k in a[i] || k in b[i]) ==> k !in a[j] && k !in b[j]
  }

  function Pairs(a: seq<Layer>, b: seq<Layer>): (layers: seq<Layer>)
    requires |a| == |b|
    ensures |layers| == |a|
    ensures forall i :: 0 <= i < |a| ==> layers[i] == a[i] + b[i]
  {
    seq(|a|, i requires 0 <= i < |a| => a[i] + b[i])
  }

  /** Where no other layer lies, one is seen in full. */
  lemma MergedOfApart(layers: seq<Layer>, i: nat, k: int)
    requires i < |layers| && forall j :: 0 <= j < |layers| && j != i ==> k !in layers[j]
    ensures k in Merged(layers) <==> k in layers[i]
    ensures k in layers[i] ==> Merged(layers)[k] == layers[i][k]
  {
    MergedAt(layers, k);
    assert layers[i] in layers;
  }

  lemma PairsAt(a: seq<Layer>, b: seq<Layer>, k: int)
    requires ApartInPairs(a, b)
    ensures k in Merged(a) + Merged(b) <==> k in Merged(Pairs(a, b))
    ensures k in Merged(Pairs(a, b)) ==> (Merged(a) + Merged(b))[k] == Merged(Pairs(a, b))[k]
  {
    hide Merged;
    if i :| 0 <= i < |a| && (k in a[i] || k in b[i]) {
      MergedOfApart(a, i, k);
      MergedOfApart(b, i, k);
      MergedOfApart(Pairs(a, b), i, k);
    } else {
      MergedAt(a, k);
      MergedAt(b, k);
      MergedAt(Pairs(a, b), k);
    }
  }

  /** Drawing one list after the other is drawing each of its pairs once. */
  lemma PairsDrawn(frame: Picture, a: seq<Layer>, b: seq<Layer>)
    requires ApartInPairs(a, b)
    ensures OverlayAll(OverlayAll(frame, a), b) == OverlayAll(frame, Pairs(a, b))
  {
    hide Merged, Overlay, OverlayAll, Pairs;
    forall k: int
      ensures k in Merged(a) + Merged(b) <==> k in Merged(Pairs(a, b))
      ensures k in Merged(Pairs(a, b)) ==> (Merged(a) + Merged(b))[k] == Merged(Pairs(a, b))[k]
    {
      PairsAt(a, b, k);
    }
    assert Merged(a) + Merged(b) == Merged(Pairs(a, b));
    OverlayAllIsMerged(frame, a);
    OverlayAllIsMerged(OverlayAll(frame, a), b);
    OverlayAllIsMerged(frame, Pairs(a, b));
    OverlayTwice(frame, Merged(a), Merged(b));
  }

  /** A drawing hides an earlier one exactly when it covers every place that one had changed. */
  lemma LayersForget(frame: Picture, a: Layer, b: Layer)
    ensures Overlay(Overlay(frame, a), b) == Overlay(frame, b)
            <==> forall k :: k in a && 0 <= k < |frame| && a[k] != frame[k] ==> k in b
  {
    var twice, once := Overlay(Overlay(frame, a), b), Overlay(frame, b);
    if twice == once {
      forall k | k in a && 0 <= k < |frame| && a[k] != frame[k]
        ensures k in b
      {
        assert twice[k] == once[k];
      }
    }
  }

  /** A frame on which the words below `n` have been painted. */
  function PaintedBelow(n: int, before: Picture, layer: Layer): (now: Picture)
    ensures |now| == |before|
  {
    seq(|before|, k requires 0 <= k < |before| => if k < n && k in layer then layer[k] else before[k])
  }
}
