/** Client runs of the loader, proved from the operations' contracts alone. */
module Scenarios {
  import opened WorkItems
  import opened ItemLists
  import opened Dispatch
  import opened Delivery
  import opened Loader

  /** One worker, one request with an inline callback: the worker takes it, the
      callback gets the decoded result, and the image is gone from both lists. */
  method EndToEnd(img1: ImageId, c1: Callback, decoded: Option<Bitmap>)
  {
    var loader := new ImageLoader(1);
    var r := loader.GetBitmap(img1, 0, Some(c1), false, false);
    assert r == None;
    var w := WorkItem(img1, 0, Some(c1), false);
    assert loader.queue == [w];
    var t := loader.Take();
    assert t == Took(w);
    loader.Complete(w);
    var d := Deliver(w, decoded, loader.done);
    assert d == RunInline(c1, decoded);
    assert img1 !in Images(loader.queue) && img1 !in Images(loader.inProgress);
  }

  /** Three requests for distinct images, each at the back, queue as [A, B, C]. */
  method QueueThree(a: ImageId, b: ImageId, c: ImageId) returns (loader: ImageLoader)
    requires a != b && a != c && b != c
    ensures fresh(loader) && loader.Valid()
    ensures loader.queue == [WorkItem(a, 1, None, false), WorkItem(b, 2, None, false), WorkItem(c, 3, None, false)]
  {
    loader := new ImageLoader(1);
    var wa, wb := WorkItem(a, 1, None, false), WorkItem(b, 2, None, false);
    var _ := loader.GetBitmap(a, 1, None, false, false);
    assert loader.queue == [wa];
    var _ := loader.GetBitmap(b, 2, None, false, false);
    assert loader.queue == [wa, wb];
    var _ := loader.GetBitmap(c, 3, None, false, false);
  }

  /** pushToFront: [A, B, C] becomes [C, A, B]. */
  method PushToFrontOrder(a: ImageId, b: ImageId, c: ImageId)
    requires a != b && a != c && b != c
  {
    var loader := QueueThree(a, b, c);
    var wa, wb, wc := WorkItem(a, 1, None, false), WorkItem(b, 2, None, false), WorkItem(c, 3, None, false);
    assert IndexOf([wa, wb, wc], Probe(c)) == 2;
    assert RemoveAt([wa, wb, wc], 2) == [wa, wb];
    loader.PushToFront(c);
    assert loader.queue == [wc, wa, wb];
  }

  /** Placement of a new and of a pending image: from [A], a new D at the back
      gives [A, D]; D again at the back changes nothing; D at the front puts the
      new request for D at the head without duplicating it. */
  method PlacementOrder(a: ImageId, d: ImageId)
    requires a != d
  {
    var loader := new ImageLoader(1);
    var wa, wd := WorkItem(a, 1, None, false), WorkItem(d, 4, None, false);
    var _ := loader.GetBitmap(a, 1, None, true, false);
    assert loader.queue == [wa];
    var _ := loader.GetBitmap(d, 4, None, false, false);
    assert loader.queue == [wa, wd];
    var _ := loader.GetBitmap(d, 9, None, false, false);
    assert loader.queue == [wa, wd];
    assert IndexOf([wa, wd], WorkItem(d, 5, None, true)) == 1;
    assert RemoveAt([wa, wd], 1) == [wa];
    var _ := loader.GetBitmap(d, 5, None, true, true);
    assert loader.queue == [WorkItem(d, 5, None, true), wa];
  }

  /** A request for an image being decoded is ignored, and cancel cannot reach it. */
  method InProgressIsLeftAlone(a: ImageId)
  {
    var loader := new ImageLoader(2);
    var wa := WorkItem(a, 0, None, false);
    var _ := loader.GetBitmap(a, 0, None, false, false);
    var t := loader.Take();
    assert t == Took(wa) && loader.inProgress == [wa];
    var _ := loader.GetBitmap(a, 7, None, true, false);
    assert loader.queue == [];
    var found := loader.Cancel(a);
    assert !found && loader.inProgress == [wa];
  }

  /** stop with a posted request in flight: the worker finishes it before its join
      returns, so nothing is left in progress and no worker remains; the posted
      delivery is dropped. The next request restarts the pool and is queued. */
  method StopBarrier(a: ImageId, cb: Callback, decoded: Option<Bitmap>)
  {
    var loader := new ImageLoader(1);
    var wa := WorkItem(a, 0, Some(cb), true);
    var _ := loader.GetBitmap(a, 0, Some(cb), false, true);
    var t := loader.Take();
    assert t == Took(wa);
    var joined, drained := loader.Stop();
    assert joined == [0] && drained == [wa];
    assert loader.decodeThreads == [] && loader.inProgress == [];
    assert Deliver(wa, decoded, loader.done) == Dropped;
    var _ := loader.GetBitmap(a, 0, Some(cb), false, true);
    assert loader.decodeThreads == [0] && !loader.done;
    assert loader.queue == [wa];
  }
}
