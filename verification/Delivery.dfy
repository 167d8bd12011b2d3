/** How a worker hands a decoded result to the request's callback. */
module Delivery {
  import opened WorkItems

  datatype Delivery =
    | NoCallback                                              // the request carried no callback
    | RunInline(callback: Callback, result: Option<Bitmap>)   // called on the worker thread
    | Post(callback: Callback, result: Option<Bitmap>)        // handed to the owner's handler
    | Dropped                                                 // postBack requested after stop

  /** Whether the caller's callback will be given the result. */
  predicate Notifies(d: Delivery)
  {
    d.RunInline? || d.Post?
  }

  /** The delivery choice a worker makes once the decode of w produced `result`
      (null when the decode failed); `done` is the loader's flag at that moment. */
  function Deliver(w: WorkItem, result: Option<Bitmap>, done: bool): (d: Delivery)
    ensures d.NoCallback? <==> w.onLoaded.None?
    ensures d.RunInline? <==> w.onLoaded.Some? && !w.postBack
    ensures d.Post? <==> w.onLoaded.Some? && w.postBack && !done
    ensures d.Dropped? <==> w.onLoaded.Some? && w.postBack && done
    ensures Notifies(d) ==> w.onLoaded == Some(d.callback) && d.result == result
  {
    match w.onLoaded
    case None => NoCallback
    case Some(cb) =>
      if w.postBack then
        if !done then Post(cb, result) else Dropped
      else RunInline(cb, result)
  }

  /** The callback hears of the result exactly when there is one and it is either
      called inline or the loader has not been stopped; a failed decode is
      delivered like any other. */
  lemma NotifiesExactly(w: WorkItem, result: Option<Bitmap>, done: bool)
    ensures Notifies(Deliver(w, result, done)) <==> w.onLoaded.Some? && (!w.postBack || !done)
  {
  }

  /** Only posted delivery looks at the stop flag. */
  lemma InlineIgnoresStop(w: WorkItem, result: Option<Bitmap>)
    requires !w.postBack
    ensures Deliver(w, result, true) == Deliver(w, result, false)
  {
  }
}
