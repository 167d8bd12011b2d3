# Image loader work queue

A Dafny model of the decode queue behind the legacy Android camera's
`ImageLoader`. Callers ask for the thumbnail of an image (`getBitmap`), can
move a pending request to the head (`pushToFront`) or cancel it (`cancel`).
A pool of worker threads takes requests from the head of the queue. Each
worker decodes the image and hands the result to the request's callback, either
inline or by posting it to the owner's handler. `start` and `stop` create and
tear down the pool.

The two lists the loader guards with its lock are the `seq` fields of the
class `Loader.ImageLoader`:

- `queue`: pending requests, in dispatch order.
- `inProgress`: requests being decoded.

Each operation is a method that runs as one atomic step under the lock. The
effect of each operation on the lists is also given as a function on values
(`Dispatch.Admit`, `Dispatch.Promote`, `ItemLists.Remove`). Lemmas prove
the properties that matter about those functions:

- placement at the front or the back;
- the other requests keep their order (`ItemLists.Without`);
- no image is pending twice, none is decoded twice, and none is both pending
  and being decoded (`Dispatch.QueueInvariant`).

A request (`WorkItems.WorkItem`) is identified by its image alone. Every
search of a list (`indexOf`, `contains`, `remove`) compares by image, as
`WorkItem.equals` does.

Files:

- `WorkItems.dfy`: the request datatype and its equality.
- `ItemLists.dfy`: the `ArrayList` operations, which search by image.
- `Dispatch.dfy`: the queue effects and the lock invariant.
- `Delivery.dfy`: the callback delivery choice.
- `Loader.dfy`: the loader class and its lifecycle.
- `Scenarios.dfy`: client runs proved from the contracts alone:
  - one worker, end to end;
  - `[A, B, C]` becomes `[C, A, B]` under `pushToFront(C)`;
  - front and back placement;
  - a request for an image being decoded is ignored;
  - `stop` lets the request in flight finish, drops its posted delivery and
    leaves no worker; the next request restarts the pool.

## Behaviour worth knowing

- **Front promotion keeps the new request.** For a pending image,
  `getBitmap` with `postAtFront` removes the old entry and inserts the new
  request at index 0 (`ImageLoader.java:119-120`). The new tag, callback and
  `postBack` therefore replace the old ones. `Dispatch.AdmitQueued` states
  this.
- **No image is both pending and in progress.** A request for an image
  being decoded is ignored (`:114`), and a worker moves the head from one
  list to the other (`:214-215`). The two lists never share an image, and the
  model keeps them disjoint as part of the invariant.
- **A stopped loader restarts.** `start` clears the stop flag (`:202`), and
  `getBitmap` calls `start` when no worker exists (`:102-106`). The next
  request after `stop` therefore restarts the pool.

## Model

| member | source | states |
|---|---|---|
| `WorkItems.Equals` | src/com/android/camera/ImageLoader.java:175-178 | two requests are equal exactly when they agree once tag, callback and postBack are erased: identity is the image alone |
| `WorkItems.Probe` | src/com/android/camera/ImageLoader.java:66 | the probe built by pushToFront and cancel equals exactly the requests for its image |
| `WorkItems.EqualsIgnoresPayload` | src/com/android/camera/ImageLoader.java:166-178 | changing tag, callback or postBack never makes two requests for one image differ; the probe built by pushToFront/cancel matches every request for its image |
| `ItemLists.EqualsFindSame` | src/com/android/camera/ImageLoader.java:79-83 | any two requests equal by image find the same index and remove the same item, so searching with the probe is the same as searching with the queued request |
| `ItemLists.IndexOf` | src/com/android/camera/ImageLoader.java:66-69 | the result is -1 exactly when no item has the image; otherwise it is the first index whose item has the image |
| `ItemLists.Contains` | src/com/android/camera/ImageLoader.java:114-115 | true exactly when some item of the list has the image |
| `ItemLists.RemoveAt` | src/com/android/camera/ImageLoader.java:81-84 | one item shorter; items before i unchanged, items after i shifted left by one; the multiset loses exactly the item at i |
| `ItemLists.Remove` | src/com/android/camera/ImageLoader.java:119 | one item shorter when the image is present, unchanged when it is absent |
| `ItemLists.WithoutRemoveAt` | src/com/android/camera/ImageLoader.java:70 | removing the item at k leaves every item for another image in place and in order |
| `ItemLists.RemoveAtUnique` | src/com/android/camera/ImageLoader.java:83 | in a list without repeated images, removing the item at k removes exactly the items for its image |
| `ItemLists.RemoveKeepsOthers` | src/com/android/camera/ImageLoader.java:119 | remove(Object) never touches an item for another image, whatever the list |
| `ItemLists.RemoveUnique` | src/com/android/camera/ImageLoader.java:236 | in a list without repeated images, remove(Object) takes out exactly the item for the image, keeps the list duplicate-free, and the image is gone afterwards |
| `Dispatch.QueueInvariant` | src/com/android/camera/ImageLoader.java:109-130 | the invariant the lock keeps: no image is pending twice, none is decoded twice, and none is both pending and being decoded |
| `Dispatch.QueueInvariantByIndex` | src/com/android/camera/ImageLoader.java:109-130 | the lock invariant `QueueInvariant`, position by position: no index of either list repeats an image, and no queue index names an image held at an in-progress index |
| `Dispatch.Admit` | src/com/android/camera/ImageLoader.java:114-129 | the queue grows by one exactly when the image is neither pending nor in progress; unless it is in progress, the image is pending afterwards |
| `Dispatch.AdmitFresh` | src/com/android/camera/ImageLoader.java:122-129 | a request for an image neither pending nor in progress adds exactly one item, at index 0 with postAtFront and at the end otherwise; removing it gives back the old queue |
| `Dispatch.AdmitInProgress` | src/com/android/camera/ImageLoader.java:114 | a request for an image being decoded leaves the queue unchanged |
| `Dispatch.AdmitQueued` | src/com/android/camera/ImageLoader.java:115-121 | a request for a pending image keeps the length; with postAtFront the new request is at index 0, followed by the other items in order, and the old entry is gone; without it, nothing changes |
| `Dispatch.AdmitKeepsOthers` | src/com/android/camera/ImageLoader.java:114-129 | in every case the items for other images keep their order |
| `Dispatch.AdmitPreservesInvariant` | src/com/android/camera/ImageLoader.java:114-129 | getBitmap keeps the lock invariant; afterwards the image is pending unless it was in progress, and no other image is added or lost |
| `Dispatch.AdmitQueuedInvariant` | src/com/android/camera/ImageLoader.java:115-121 | promoting a pending image keeps the invariant and the set of pending images |
| `Dispatch.AdmitFreshInvariant` | src/com/android/camera/ImageLoader.java:122-129 | admitting a new image keeps the invariant and adds exactly that image |
| `Dispatch.PushInvariant` | src/com/android/camera/ImageLoader.java:124 | inserting a new image at index 0 keeps the invariant |
| `Dispatch.AppendInvariant` | src/com/android/camera/ImageLoader.java:126 | appending a new image keeps the invariant |
| `Dispatch.Promote` | src/com/android/camera/ImageLoader.java:68-73 | pushToFront permutes the queue (same length, same multiset of items) and leaves a pending image at index 0 |
| `Dispatch.MoveToFront` | src/com/android/camera/ImageLoader.java:70-71 | same length and same multiset of items; items for other images keep their order |
| `Dispatch.PromoteSpec` | src/com/android/camera/ImageLoader.java:64-75 | pushToFront keeps the other images' order; an absent image, or one already at index 0, leaves the queue unchanged |
| `Dispatch.MoveToFrontImages` | src/com/android/camera/ImageLoader.java:70-71 | moving an item keeps the set of pending images and keeps the queue duplicate-free |
| `Dispatch.PromotePreservesInvariant` | src/com/android/camera/ImageLoader.java:68-73 | pushToFront keeps the lock invariant and the set of pending images |
| `Dispatch.CancelSpec` | src/com/android/camera/ImageLoader.java:81-85 | cancel removes exactly the pending item for the image when there is one (one item shorter) and changes nothing otherwise; the invariant is kept |
| `Dispatch.TakePreservesInvariant` | src/com/android/camera/ImageLoader.java:213-215 | moving the head into progress keeps the invariant and loses no image |
| `Dispatch.CompletePreservesInvariant` | src/com/android/camera/ImageLoader.java:235-237 | removing a finished item from progress keeps the invariant, removes exactly that image and keeps the others in order |
| `Dispatch.FinishFirstPreservesInvariant` | src/com/android/camera/ImageLoader.java:235-237 | when a worker finishes the first in-progress item, remove(Object) takes out exactly that item and the invariant is kept |
| `Delivery.Deliver` | src/com/android/camera/ImageLoader.java:239-254 | no callback: nothing; postBack false: the callback runs inline with the result, null included; postBack true: posted if the loader is not stopped, dropped if it is |
| `Delivery.NotifiesExactly` | src/com/android/camera/ImageLoader.java:239-254 | the callback gets the result exactly when there is one and it is inline or the loader is not stopped |
| `Delivery.InlineIgnoresStop` | src/com/android/camera/ImageLoader.java:240-253 | only posted delivery depends on the stop flag |
| `Loader.Workers` | src/com/android/camera/ImageLoader.java:203-261 | start creates max(0, threadCount) workers, numbered 0, 1, … in order |
| `Loader.ImageLoader.Valid` | src/com/android/camera/ImageLoader.java:192-265 | the loader's state machine: the lock invariant holds; no more items are in progress than there are workers, since each worker takes, decodes and removes one item before taking another (`:213-236`); and either no worker runs, or exactly the threadCount workers `start` creates run with the stop flag clear |
| `Loader.ImageLoader.constructor` | src/com/android/camera/ImageLoader.java:186-190 | a new loader has empty lists, is not stopped and has its workers running |
| `Loader.ImageLoader.Start` | src/com/android/camera/ImageLoader.java:192-265 | no change if workers exist; otherwise the stop flag is cleared and threadCount workers are created; the lists are untouched |
| `Loader.ImageLoader.Stop` | src/com/android/camera/ImageLoader.java:353-372 | the stop flag is set; every item being decoded is finished by its worker and leaves the in-progress list, which ends empty (those items are returned, for delivery with the flag set); every worker is cancelled and joined in order and the pool ends empty; pending requests stay queued |
| `Loader.ImageLoader.FinishInFlight` | src/com/android/camera/ImageLoader.java:235-237 | while stop waits, every worker still holding an item removes it: the in-progress list ends empty, the removed items are returned in order, and nothing else changes |
| `Loader.ImageLoader.GetBitmap` | src/com/android/camera/ImageLoader.java:97-140 | starts the workers when there are none, then changes the queue as `Admit` says; the in-progress list is untouched; the result is always null; the invariant is kept |
| `Loader.ImageLoader.GetBitmapUntagged` | src/com/android/camera/ImageLoader.java:90-95 | the same as GetBitmap with tag 0 |
| `Loader.ImageLoader.PushToFront` | src/com/android/camera/ImageLoader.java:64-75 | the queue becomes `Promote` of the old one; nothing else changes; the invariant is kept |
| `Loader.ImageLoader.Cancel` | src/com/android/camera/ImageLoader.java:77-88 | returns true exactly when the image was pending; the queue loses exactly that item (one shorter) or is unchanged; the in-progress list is never touched |
| `Loader.ImageLoader.Take` | src/com/android/camera/ImageLoader.java:210-223 | run by an idle worker (fewer items in progress than workers), or by one waking after stop; once stopped, nothing is taken; on an empty queue the worker waits and nothing changes; otherwise the head leaves the queue and is appended to the in-progress list |
| `Loader.ImageLoader.Complete` | src/com/android/camera/ImageLoader.java:235-237 | the finished image leaves the in-progress list, the other in-progress items keep their order, and the queue is untouched |

## Left out

- Threads, `wait`/`notifyAll` and `InterruptedException` (`:72`, `:128`, `:212-222`, `:359-371`): each caller operation and each worker step is one atomic method. A worker that would block is reported as `Wait`. The concurrency itself, the unsynchronised read of the stop flag and the wake-ups are not modelled.
- The worker's `while (!mDone)` loop (`:210-256`) need not terminate: it runs until `stop` sets the flag. So it is not a Dafny loop. One pass of it is `Take`, then the decode, then `Complete`, then `Deliver`. Workers are not tracked one by one: `Valid` bounds the in-progress items by the number of workers, and `Take` needs an idle worker. The model does not record which worker holds which item.
- The decode `miniThumbBitmap` (`:228`) is an outside call. Its possibly-null result is a parameter of `Deliver`.
- `Handler.post` (`:244-249`): `Deliver` only reports `Post`; the posted task is not run.
- `BitmapManager.allowThreadDecoding` and `cancelThreadDecoding` (`:260`, `:365`): registering a worker is modelled only as its entry in `decodeThreads`. Cancelling and joining it is modelled only as its place in the list `Stop` returns. A join interrupted by an exception is retried by the source; the model treats every join as succeeding.
- `transform` (`:267-351`): floating-point scaling and Android drawing calls, outside the queue.
- Logging and diagnostics: `dump`, `dumpQueue`, the timing variables, the empty `clear` and `bitmapSize` (`:49-58`, `:107-138`, `:142-157`).
- `WorkItem.hashCode` (`:181-183`): no list operation uses it. The unused `mTargetX`/`mTargetY` fields, the thread names and the `mHandler` field are also left out.
- Loader.ImageLoader.Stop: the in-flight items are finished in in-progress order. In the source each worker finishes its own item, in whatever order the threads run. A worker whose decode (`:228`) throws dies before its `remove` (`:236`), leaving its item in progress; the model does not capture that. A throwing callback (`:246`, `:252`) runs after the `remove`, so it leaves no item behind.
- Loader.ImageLoader.Take: `stop` is one atomic step here. A worker that wakes between the flag being set (`:358`) and its join is therefore modelled as a `Take` after `stop` has returned, and it exits.
- The tag is a Java `int`. It is modelled as an unbounded `int` because the loader does no arithmetic on it.
