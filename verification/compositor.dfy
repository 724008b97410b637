/**
  Where `saveImageWithFrame` places the photos of the strip: a column of
  fixed-size slots, centred horizontally, one per photo in capture order.
 */
module StripLayout {
  import opened Canvas2D

  const PhotoWidth: int := 577
  const PhotoHeight: int := 408
  const Gap: int := 57
  const StartY: int := 57

  /** The rectangle photo `index` is drawn into on a canvas of the frame's width. */
  function Slot(canvasWidth: int, index: nat): (r: Rect)
    ensures r.width == PhotoWidth as real && r.height == PhotoHeight as real
    ensures 2.0 * r.x + r.width == canvasWidth as real
    ensures r.y >= StartY as real
  {
    Rect((canvasWidth - PhotoWidth) as real / 2.0,
         (StartY + index * (PhotoHeight + Gap)) as real,
         PhotoWidth as real, PhotoHeight as real)
  }

  /** The two rectangles share no interior point. */
  predicate Disjoint(a: Rect, b: Rect) {
    a.x + a.width <= b.x || b.x + b.width <= a.x ||
    a.y + a.height <= b.y || b.y + b.height <= a.y
  }

  /** Consecutive slots are one photo height plus one gap apart. */
  lemma SlotPitch(canvasWidth: int, index: nat)
    ensures Slot(canvasWidth, index + 1).y == Slot(canvasWidth, index).y + (PhotoHeight + Gap) as real
    ensures Slot(canvasWidth, index + 1).x == Slot(canvasWidth, index).x
  {
  }

  /** Later slots lie wholly below earlier ones, with at least one gap between
      them, so no two photos of the strip overlap. */
  lemma SlotsDisjoint(canvasWidth: int, i: nat, j: nat)
    requires i < j
    ensures Slot(canvasWidth, i).y + Slot(canvasWidth, i).height + Gap as real <= Slot(canvasWidth, j).y
    ensures Disjoint(Slot(canvasWidth, i), Slot(canvasWidth, j))
  {
    assert j * (PhotoHeight + Gap) >= (i + 1) * (PhotoHeight + Gap);
  }

  /** The second photo of the strip is drawn at y = 522. */
  lemma SecondSlot(canvasWidth: int)
    ensures Slot(canvasWidth, 1).y == 522.0
  {
  }

}

/**
  The join that finishes the composite: every photo is drawn when its image
  has loaded, and the load that brings the `imagesLoaded` counter to the
  number of photos draws the frame on top, stamps the date and downloads the
  file. Loads complete in any order, so the order is a parameter.
 */
module Compositor {
  import opened Canvas2D
  import opened StripLayout

  const FileName: string := "photobooth.png"
  /** The date is drawn this far above the bottom edge of the canvas. */
  const DateMargin: int := 50

  /** The drawing operations the composite consists of, in the order issued. */
  datatype Action =
    | DrawPhoto(index: nat, slot: Rect)
    | DrawFrame
    | DrawDate(position: Point)
    | Download(fileName: string)

  /** The work done once every photo has loaded: frame on top, date, download. */
  function Finalize(frameWidth: int, frameHeight: int): seq<Action> {
    [DrawFrame,
     DrawDate(Point(frameWidth as real / 2.0, (frameHeight - DateMargin) as real)),
     Download(FileName)]
  }

  /** Each loaded photo drawn into its slot, in load order. */
  function Draws(frameWidth: int, order: seq<nat>): seq<Action> {
    seq(|order|, k requires 0 <= k < |order| => DrawPhoto(order[k], Slot(frameWidth, order[k])))
  }

  /** Reference description of the composite: the photos are drawn as their
      loads arrive, and the finishing work happens right after the load that
      makes the number of loads equal to the number of photos, if any does. */
  function Composite(frameWidth: int, frameHeight: int, count: nat, order: seq<nat>): seq<Action> {
    if count > 0 && |order| >= count then
      Draws(frameWidth, order[..count]) + Finalize(frameWidth, frameHeight)
        + Draws(frameWidth, order[count..])
    else
      Draws(frameWidth, order)
  }

  /** The `onload` handlers with their shared `imagesLoaded` counter, run over
      the order in which the photos' loads complete. The canvas has the frame
      image's size; `count` is the number of raw photos. */
  method ComposeStrip(frameWidth: int, frameHeight: int, count: nat, order: seq<nat>)
    returns (log: seq<Action>)
    requires forall k :: 0 <= k < |order| ==> order[k] < count
    ensures log == Composite(frameWidth, frameHeight, count, order)
  {
    var imagesLoaded := 0;
    log := [];
    var k := 0;
    while k < |order|
      invariant 0 <= k <= |order| && imagesLoaded == k
      invariant count > 0 && k >= count ==>
                  log == Draws(frameWidth, order[..count]) + Finalize(frameWidth, frameHeight)
                           + Draws(frameWidth, order[count..k])
      invariant !(count > 0 && k >= count) ==> log == Draws(frameWidth, order[..k])
    {
      var index := order[k];
      log := log + [DrawPhoto(index, Slot(frameWidth, index))];
      imagesLoaded := imagesLoaded + 1;
      if imagesLoaded == count {
        log := log + Finalize(frameWidth, frameHeight);
      }
      k := k + 1;
    }
    assert order[..|order|] == order;
  }

  /** How many downloads a sequence of actions triggers. */
  function Downloads(log: seq<Action>): nat
    decreases |log|
  {
    if |log| == 0 then 0 else (if log[0].Download? then 1 else 0) + Downloads(log[1..])
  }

  lemma {:induction false} DownloadsAppend(a: seq<Action>, b: seq<Action>)
    ensures Downloads(a + b) == Downloads(a) + Downloads(b)
    decreases |a|
  {
    if |a| == 0 {
      assert a + b == b;
    } else {
      assert (a + b)[1..] == a[1..] + b;
      DownloadsAppend(a[1..], b);
    }
  }

  lemma {:induction false} DrawsDownloadNothing(frameWidth: int, order: seq<nat>)
    ensures Downloads(Draws(frameWidth, order)) == 0
    decreases |order|
  {
    if |order| > 0 {
      assert Draws(frameWidth, order)[1..] == Draws(frameWidth, order[1..]);
      DrawsDownloadNothing(frameWidth, order[1..]);
    }
  }

  /** The file is downloaded exactly once when at least `count` loads arrive
      for a non-empty strip, and never otherwise: in particular never before
      the last photo has loaded, and never for an empty strip. */
  lemma DownloadsOnceAfterLastLoad(frameWidth: int, frameHeight: int, count: nat, order: seq<nat>)
    ensures Downloads(Composite(frameWidth, frameHeight, count, order))
              == (if count > 0 && |order| >= count then 1 else 0)
  {
    var fin := Finalize(frameWidth, frameHeight);
    if count > 0 && |order| >= count {
      var pre := Draws(frameWidth, order[..count]);
      var post := Draws(frameWidth, order[count..]);
      DownloadsAppend(pre + fin, post);
      DownloadsAppend(pre, fin);
      DrawsDownloadNothing(frameWidth, order[..count]);
      DrawsDownloadNothing(frameWidth, order[count..]);
      assert Downloads(fin) == 1 by {
        assert fin[1..][1..][1..] == [];
        assert Downloads(fin[1..][1..]) == 1;
        assert Downloads(fin[1..]) == 1;
      }
    } else {
      DrawsDownloadNothing(frameWidth, order);
    }
  }

  /** No photo loads twice. */
  predicate Distinct(order: seq<nat>) {
    forall i, j :: 0 <= i < j < |order| ==> order[i] != order[j]
  }

  function Elems(order: seq<nat>): set<nat> {
    set k | 0 <= k < |order| :: order[k]
  }

  /** The indices 0 .. n-1 of the photos. */
  function Below(n: nat): (r: set<nat>)
    ensures forall i: nat :: i in r <==> i < n
  {
    if n == 0 then {} else Below(n - 1) + {n - 1}
  }

  lemma {:induction false} BelowSize(n: nat)
    ensures |Below(n)| == n
  {
    if n > 0 {
      var smaller := Below(n - 1);
      BelowSize(n - 1);
      assert n - 1 !in smaller;
      assert |smaller + {n - 1}| == |smaller| + 1;
    }
  }

  lemma {:induction false} DistinctElemsSize(order: seq<nat>)
    requires Distinct(order)
    ensures |Elems(order)| == |order|
    decreases |order|
  {
    if |order| > 0 {
      var init := order[..|order| - 1];
      var last := order[|order| - 1];
      DistinctElemsSize(init);
      assert Elems(order) == Elems(init) + {last};
      assert last !in Elems(init);
    }
  }

  /** A load order in which every photo of the strip loads at most once has at
      most `count` loads, and when it has exactly `count` every photo is in it. */
  lemma LoadsAtMostOnce(count: nat, order: seq<nat>)
    requires Distinct(order)
    requires forall k :: 0 <= k < |order| ==> order[k] < count
    ensures |order| <= count
    ensures |order| == count ==> forall i :: 0 <= i < count ==> i in Elems(order)
  {
    DistinctElemsSize(order);
    BelowSize(count);
    assert Elems(order) <= Below(count);
    assert |Below(count)| == |Elems(order)| + |Below(count) - Elems(order)|;
    if |order| == count {
      assert Below(count) - Elems(order) == {};
      forall i | 0 <= i < count ensures i in Elems(order) {
        assert i in Below(count);
      }
    }
  }

  /** When every photo's load fires once, in any order, the composite is
      finished exactly when all of them have loaded: then every photo has been
      drawn into its own slot, the frame is drawn after all of them, and the
      download is the last action. */
  lemma FinishesExactlyWhenAllLoaded(frameWidth: int, frameHeight: int, count: nat, order: seq<nat>)
    requires Distinct(order)
    requires forall k :: 0 <= k < |order| ==> order[k] < count
    ensures var log := Composite(frameWidth, frameHeight, count, order);
            Downloads(log) == 1 <==> count > 0 && |order| == count
    ensures var log := Composite(frameWidth, frameHeight, count, order);
            count > 0 && |order| == count ==>
              && |log| == count + 3
              && log[count] == DrawFrame
              && log[count + 1] == DrawDate(Point(frameWidth as real / 2.0, (frameHeight - DateMargin) as real))
              && log[count + 2] == Download(FileName)
              && (forall k :: 0 <= k < count ==> log[k].DrawPhoto?)
              && (forall i :: 0 <= i < count ==>
                    exists k :: 0 <= k < count && log[k] == DrawPhoto(i, Slot(frameWidth, i)))
  {
    LoadsAtMostOnce(count, order);
    DownloadsOnceAfterLastLoad(frameWidth, frameHeight, count, order);
    var log := Composite(frameWidth, frameHeight, count, order);
    if count > 0 && |order| == count {
      assert order[..count] == order;
      assert order[count..] == [];
      assert log == Draws(frameWidth, order) + Finalize(frameWidth, frameHeight);
      forall i | 0 <= i < count
        ensures exists k :: 0 <= k < count && log[k] == DrawPhoto(i, Slot(frameWidth, i))
      {
        assert i in Elems(order);
        var k :| 0 <= k < |order| && order[k] == i;
        assert log[k] == DrawPhoto(i, Slot(frameWidth, i));
      }
    }
  }
}
