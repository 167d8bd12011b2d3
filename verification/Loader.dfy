/** The image loader: a queue of decode requests served by a pool of worker
    threads. Every operation runs atomically under the loader's lock. */
module Loader {
  import opened WorkItems
  import opened ItemLists
  import opened Dispatch

  /** The worker threads start() creates, by index: thread i is "image-loader-i". */
  function Workers(n: int): (r: seq<nat>)
    ensures |r| == if n <= 0 then 0 else n
    ensures forall i :: 0 <= i < |r| ==> r[i] == i
  {
    if n <= 0 then [] else Workers(n - 1) + [n - 1]
  }

  /** What one pass of a worker's loop does under the lock. */
  datatype TakeOutcome =
    | Exit                 // the loader is stopped: the loop ends
    | Wait                 // nothing pending: the worker waits to be notified
    | Took(item: WorkItem) // the head of the queue, now being decoded

  class ImageLoader {
    /** Pending requests, in dispatch order (mQueue). */
    var queue: seq<WorkItem>
    /** Requests being decoded (mInProgress). */
    var inProgress: seq<WorkItem>
    /** Set by stop() so that the workers exit (mDone). */
    var done: bool
    /** The running worker threads (mDecodeThreads). */
    var decodeThreads: seq<nat>
    /** How many workers start() creates (mThreadCount). */
    const threadCount: int

    /** The lock invariant, and the pool's lifecycle: each worker holds at most one
        item (it takes, decodes and removes one before taking again), and either
        no worker runs or all threadCount of them run and the stop flag is clear. */
    ghost predicate Valid()
      reads this
    {
      QueueInvariant(queue, inProgress) &&
      |inProgress| <= |decodeThreads| &&
      (decodeThreads == [] || (decodeThreads == Workers(threadCount) && !done))
    }

    /** A new loader starts its workers at once. */
    constructor (threadCount: int)
      ensures Valid()
      ensures queue == [] && inProgress == []
      ensures this.threadCount == threadCount
      ensures decodeThreads == Workers(threadCount) && !done
    {
      this.threadCount := threadCount;
      queue, inProgress := [], [];
      done, decodeThreads := false, [];
      new;
      Start();
    }

    /** start(): nothing if workers exist; otherwise clear the stop flag and create
        threadCount workers. The queue is left alone. */
    method Start()
      requires Valid()
      modifies this
      ensures Valid()
      ensures queue == old(queue) && inProgress == old(inProgress)
      ensures old(decodeThreads) != [] ==> decodeThreads == old(decodeThreads) && done == old(done)
      ensures old(decodeThreads) == [] ==> decodeThreads == Workers(threadCount) && !done
    {
      if |decodeThreads| > 0 {
        return;
      }
      done := false;
      var i := 0;
      while i < threadCount
        invariant 0 <= i && (i <= threadCount || i == 0)
        invariant decodeThreads == Workers(i)
        invariant queue == old(queue) && inProgress == old(inProgress) && !done
      {
        decodeThreads := decodeThreads + [i];
        i := i + 1;
      }
    }

    /** stop(): set the stop flag, then cancel and join every worker in turn.
        A worker notices the flag only at the head of its loop, so before its join
        returns it finishes the item it holds and removes it from the in-progress
        list; `drained` lists those items, to be delivered with the flag set.
        `joined` lists the workers in the order they were cancelled and joined.
        Pending requests stay queued. */
    method Stop() returns (joined: seq<nat>, drained: seq<WorkItem>)
      requires Valid()
      modifies this
      ensures Valid()
      ensures done && decodeThreads == [] && inProgress == []
      ensures joined == old(decodeThreads)
      ensures drained == old(inProgress)
      ensures queue == old(queue)
    {
      done := true;
      drained := FinishInFlight();
      joined := [];
      while |decodeThreads| > 0
        invariant joined + decodeThreads == old(decodeThreads)
        invariant done && queue == old(queue) && inProgress == []
      {
        var t := decodeThreads[0];
        joined := joined + [t];
        decodeThreads := decodeThreads[1..];
      }
    }

    /** While stop waits for them, the workers still holding an item finish it:
        each removes its item from the in-progress list. */
    method FinishInFlight() returns (drained: seq<WorkItem>)
      requires QueueInvariant(queue, inProgress)
      modifies this
      ensures inProgress == [] && drained == old(inProgress)
      ensures queue == old(queue) && done == old(done) && decodeThreads == old(decodeThreads)
    {
      drained := [];
      while |inProgress| > 0
        invariant drained + inProgress == old(inProgress)
        invariant QueueInvariant(queue, inProgress)
        invariant queue == old(queue) && done == old(done) && decodeThreads == old(decodeThreads)
      {
        var held := inProgress;
        FinishFirstPreservesInvariant(queue, held);
        var rest := Remove(held, held[0]);
        assert drained + [held[0]] + rest == drained + held;
        drained := drained + [held[0]];
        inProgress := rest;
      }
    }

    /** getBitmap(image, tag, callback, postAtFront, postBack): start the workers if
        there are none, then admit the request; the answer is always null. */
    method GetBitmap(image: ImageId, tag: int, onLoaded: Option<Callback>, postAtFront: bool, postBack: bool)
      returns (b: Option<Bitmap>)
      requires Valid()
      modifies this
      ensures Valid()
      ensures b == None
      ensures queue == Admit(old(queue), old(inProgress), WorkItem(image, tag, onLoaded, postBack), postAtFront)
      ensures inProgress == old(inProgress)
      ensures old(decodeThreads) != [] ==> decodeThreads == old(decodeThreads) && done == old(done)
      ensures old(decodeThreads) == [] ==> decodeThreads == Workers(threadCount) && !done
    {
      if |decodeThreads| == 0 {
        Start();
      }
      var w := WorkItem(image, tag, onLoaded, postBack);
      AdmitPreservesInvariant(queue, inProgress, w, postAtFront);
      if !Contains(inProgress, w) {
        var contains := Contains(queue, w);
        if contains {
          if postAtFront {
            queue := Remove(queue, w);
            queue := [w] + queue;
          }
        } else {
          if postAtFront {
            queue := [w] + queue;
          } else {
            queue := queue + [w];
          }
        }
      }
      b := None;
    }

    /** The overload without a tag uses tag 0. */
    method GetBitmapUntagged(image: ImageId, onLoaded: Option<Callback>, postAtFront: bool, postBack: bool)
      returns (b: Option<Bitmap>)
      requires Valid()
      modifies this
      ensures Valid()
      ensures b == None
      ensures queue == Admit(old(queue), old(inProgress), WorkItem(image, 0, onLoaded, postBack), postAtFront)
      ensures inProgress == old(inProgress)
      ensures old(decodeThreads) != [] ==> decodeThreads == old(decodeThreads) && done == old(done)
      ensures old(decodeThreads) == [] ==> decodeThreads == Workers(threadCount) && !done
    {
      b := GetBitmap(image, 0, onLoaded, postAtFront, postBack);
    }

    /** pushToFront(image): a pending request for image found at index 1 or later
        moves to index 0. */
    method PushToFront(image: ImageId)
      requires Valid()
      modifies this
      ensures Valid()
      ensures queue == Promote(old(queue), image)
      ensures inProgress == old(inProgress) && done == old(done) && decodeThreads == old(decodeThreads)
    {
      PromotePreservesInvariant(queue, inProgress, image);
      var w := Probe(image);
      var existing := IndexOf(queue, w);
      if existing >= 1 {
        var existingWorkItem := queue[existing];
        queue := RemoveAt(queue, existing);
        queue := [existingWorkItem] + queue;
      }
    }

    /** cancel(image): drop the pending request for image and report whether there
        was one. Work already being decoded cannot be cancelled. */
    method Cancel(image: ImageId) returns (found: bool)
      requires Valid()
      modifies this
      ensures Valid()
      ensures found <==> image in Images(old(queue))
      ensures queue == Without(old(queue), image)
      ensures found ==> |queue| == |old(queue)| - 1
      ensures !found ==> queue == old(queue)
      ensures inProgress == old(inProgress) && done == old(done) && decodeThreads == old(decodeThreads)
    {
      ghost var q0 := queue;
      CancelSpec(q0, inProgress, image);
      var w := Probe(image);
      var existing := IndexOf(queue, w);
      found := existing >= 0;
      if found {
        queue := RemoveAt(queue, existing);
      }
      assert queue == Remove(q0, w);
      assert QueueInvariant(queue, inProgress);
    }

    /** One pass of a worker's loop under the lock, run by an idle worker (one
        holding no item) or by one that wakes after stop: once stopped, take
        nothing; with nothing pending, wait; otherwise move the head into progress. */
    method Take() returns (t: TakeOutcome)
      requires Valid()
      requires done || |inProgress| < |decodeThreads|
      modifies this
      ensures Valid()
      ensures done == old(done) && decodeThreads == old(decodeThreads)
      ensures old(done) ==> t == Exit && queue == old(queue) && inProgress == old(inProgress)
      ensures !old(done) && old(queue) == [] ==> t == Wait && queue == old(queue) && inProgress == old(inProgress)
      ensures !old(done) && old(queue) != [] ==>
        t == Took(old(queue)[0]) && queue == old(queue)[1..] && inProgress == old(inProgress) + [old(queue)[0]]
    {
      if done {
        return Exit;
      }
      if |queue| > 0 {
        TakePreservesInvariant(queue, inProgress);
        var workItem := queue[0];
        queue := queue[1..];
        inProgress := inProgress + [workItem];
        t := Took(workItem);
      } else {
        t := Wait;
      }
    }

    /** After the decode, a worker removes its item from the in-progress list. */
    method Complete(workItem: WorkItem)
      requires Valid()
      modifies this
      ensures Valid()
      ensures inProgress == Without(old(inProgress), workItem.image)
      ensures workItem.image !in Images(inProgress)
      ensures queue == old(queue) && done == old(done) && decodeThreads == old(decodeThreads)
    {
      var p0 := inProgress;
      CompletePreservesInvariant(queue, p0, workItem);
      var rest := if Contains(p0, workItem) then Remove(p0, workItem) else p0;
      assert rest == Without(p0, workItem.image) && |rest| <= |p0|;
      inProgress := rest;
    }
  }
}
