/** The requests the image loader queues: decode the thumbnail of one image
    and hand the result to a caller's callback. */
module WorkItems {

  /** Reference identity of an image object; the loader never looks inside it. */
  datatype ImageId = ImageId(ref: nat)

  /** Reference identity of a caller's LoadedCallback. */
  datatype Callback = Callback(ref: nat)

  /** A decoded bitmap; opaque to the loader. */
  datatype Bitmap = Bitmap(ref: nat)

  /** A possibly-null reference. */
  datatype Option<+T> = None | Some(value: T)

  /** One decode request. `tag`, `onLoaded` and `postBack` travel with the
      request but take no part in its identity. */
  datatype WorkItem = WorkItem(image: ImageId, tag: int, onLoaded: Option<Callback>, postBack: bool)

  /** WorkItem.equals: two requests are the same exactly when they agree once
      tag, callback and delivery mode are erased, that is, when they name the
      same image. */
  predicate Equals(a: WorkItem, b: WorkItem)
    ensures Equals(a, b) <==>
      a.(tag := 0, onLoaded := None, postBack := false) == b.(tag := 0, onLoaded := None, postBack := false)
  {
    b.image == a.image
  }

  /** The probe item that pushToFront and cancel build to search the queue: it
      equals exactly the requests for its image. */
  function Probe(image: ImageId): (w: WorkItem)
    ensures forall x :: Equals(w, x) <==> x.image == image
  {
    WorkItem(image, 0, None, false)
  }

  /** Tag, callback and delivery mode never make two requests for one image differ. */
  lemma EqualsIgnoresPayload(a: WorkItem, tag: int, onLoaded: Option<Callback>, postBack: bool)
    ensures Equals(a, a.(tag := tag, onLoaded := onLoaded, postBack := postBack))
  {
  }
}
