/** What the loader's caller-side operations do to the pending queue, as
    functions of the queue (q, the loader's mQueue) and the in-progress list
    (p, its mInProgress), and the lock invariant they all keep. */
module Dispatch {
  import opened WorkItems
  import opened ItemLists

  /** The invariant the lock protects: no image is pending twice, none is being
      decoded twice, and none is both pending and being decoded. */
  ghost predicate QueueInvariant(q: seq<WorkItem>, p: seq<WorkItem>)
  {
    Unique(q) && Unique(p) && Images(q) !! Images(p)
  }

  /** The invariant position by position: no index of either list repeats an
      image, and no index of the queue names an image at an index of the
      in-progress list. */
  lemma QueueInvariantByIndex(q: seq<WorkItem>, p: seq<WorkItem>)
    ensures QueueInvariant(q, p) <==>
      NoRepeats(q) && NoRepeats(p) &&
      forall i, j :: 0 <= i < |q| && 0 <= j < |p| ==> q[i].image != p[j].image
  {
    UniqueByIndex(q);
    UniqueByIndex(p);
    DisjointByIndex(q, p);
  }

  /** getBitmap's effect on the queue: ignore a request for an image being
      decoded; for a pending image either promote it (the new request replaces
      the old one at the front) or leave it; otherwise add the request at the
      front or at the back. */
  function Admit(q: seq<WorkItem>, p: seq<WorkItem>, w: WorkItem, postAtFront: bool): (r: seq<WorkItem>)
    ensures |r| == if Contains(p, w) || Contains(q, w) then |q| else |q| + 1
    ensures !Contains(p, w) ==> Contains(r, w)
  {
    if Contains(p, w) then q
    else if Contains(q, w) then (if postAtFront then [w] + Remove(q, w) else q)
    else if postAtFront then [w] + q
    else
      assert Images([w]) == {w.image} by {
        assert [w][1..] == [];
      }
      ImagesConcat(q, [w]);
      q + [w]
  }

  /** A request for a new image adds exactly one item, at index 0 or at the end,
      and the other items keep their order. */
  lemma AdmitFresh(q: seq<WorkItem>, p: seq<WorkItem>, w: WorkItem, postAtFront: bool)
    requires w.image !in Images(q) && w.image !in Images(p)
    ensures var r := Admit(q, p, w, postAtFront);
      var at := if postAtFront then 0 else |q|;
      |r| == |q| + 1 && r[at] == w && RemoveAt(r, at) == q
  {
    var r := Admit(q, p, w, postAtFront);
    if postAtFront {
      assert r == [w] + q;
      assert RemoveAt(r, 0) == q;
    } else {
      assert r == q + [w];
      assert RemoveAt(r, |q|) == q;
    }
  }

  /** A request for an image being decoded changes nothing. */
  lemma AdmitInProgress(q: seq<WorkItem>, p: seq<WorkItem>, w: WorkItem, postAtFront: bool)
    requires w.image in Images(p)
    ensures Admit(q, p, w, postAtFront) == q
  {
  }

  /** A request for a pending image keeps the queue's length; at the front it puts
      the new request at index 0 and drops the old entry, at the back it changes
      nothing. */
  lemma AdmitQueued(q: seq<WorkItem>, p: seq<WorkItem>, w: WorkItem, postAtFront: bool)
    requires Unique(q) && w.image in Images(q) && w.image !in Images(p)
    ensures var r := Admit(q, p, w, postAtFront);
      |r| == |q| &&
      (postAtFront ==> r[0] == w && r[1..] == Without(q, w.image) && w.image !in Images(r[1..])) &&
      (!postAtFront ==> r == q)
  {
    RemoveUnique(q, w);
    var r := Admit(q, p, w, postAtFront);
    if postAtFront {
      assert r == [w] + Remove(q, w);
      assert r[1..] == Remove(q, w);
    }
  }

  /** Whatever the case, items for other images keep their order. */
  lemma AdmitKeepsOthers(q: seq<WorkItem>, p: seq<WorkItem>, w: WorkItem, postAtFront: bool)
    ensures Without(Admit(q, p, w, postAtFront), w.image) == Without(q, w.image)
  {
    var id := w.image;
    assert Without([w], id) == [];
    if Contains(p, w) {
    } else if Contains(q, w) {
      if postAtFront {
        RemoveKeepsOthers(q, w);
        WithoutConcat([w], Remove(q, w), id);
      }
    } else if postAtFront {
      WithoutConcat([w], q, id);
    } else {
      WithoutConcat(q, [w], id);
    }
  }

  /** getBitmap keeps the lock invariant, and afterwards the image is pending
      unless it was being decoded. */
  lemma AdmitPreservesInvariant(q: seq<WorkItem>, p: seq<WorkItem>, w: WorkItem, postAtFront: bool)
    requires QueueInvariant(q, p)
    ensures QueueInvariant(Admit(q, p, w, postAtFront), p)
    ensures Images(Admit(q, p, w, postAtFront)) == Images(q) + (if w.image in Images(p) then {} else {w.image})
  {
    if w.image in Images(p) {
      assert Admit(q, p, w, postAtFront) == q;
    } else if w.image in Images(q) {
      AdmitQueuedInvariant(q, p, w, postAtFront);
    } else {
      AdmitFreshInvariant(q, p, w, postAtFront);
    }
  }

  lemma AdmitQueuedInvariant(q: seq<WorkItem>, p: seq<WorkItem>, w: WorkItem, postAtFront: bool)
    requires QueueInvariant(q, p) && w.image !in Images(p) && w.image in Images(q)
    ensures QueueInvariant(Admit(q, p, w, postAtFront), p)
    ensures Images(Admit(q, p, w, postAtFront)) == Images(q)
  {
    if postAtFront {
      var rest := Remove(q, w);
      assert Admit(q, p, w, postAtFront) == [w] + rest;
      RemoveUnique(q, w);
      PushInvariant(w, rest, p);
    }
  }

  lemma AdmitFreshInvariant(q: seq<WorkItem>, p: seq<WorkItem>, w: WorkItem, postAtFront: bool)
    requires QueueInvariant(q, p) && w.image !in Images(p) && w.image !in Images(q)
    ensures QueueInvariant(Admit(q, p, w, postAtFront), p)
    ensures Images(Admit(q, p, w, postAtFront)) == Images(q) + {w.image}
  {
    if postAtFront {
      assert Admit(q, p, w, postAtFront) == [w] + q;
      PushInvariant(w, q, p);
    } else {
      assert Admit(q, p, w, postAtFront) == q + [w];
      AppendInvariant(q, p, w);
    }
  }

  /** Putting an item for a new image at the head keeps the invariant. */
  lemma PushInvariant(w: WorkItem, q: seq<WorkItem>, p: seq<WorkItem>)
    requires QueueInvariant(q, p) && w.image !in Images(q) && w.image !in Images(p)
    ensures QueueInvariant([w] + q, p)
    ensures Images([w] + q) == {w.image} + Images(q)
  {
    assert ([w] + q)[1..] == q;
  }

  /** Putting an item for a new image at the tail keeps the invariant. */
  lemma AppendInvariant(q: seq<WorkItem>, p: seq<WorkItem>, w: WorkItem)
    requires QueueInvariant(q, p) && w.image !in Images(q) && w.image !in Images(p)
    ensures QueueInvariant(q + [w], p)
    ensures Images(q + [w]) == Images(q) + {w.image}
  {
    assert Images([w]) == {w.image} by {
      assert [w][1..] == [];
    }
    ImagesConcat(q, [w]);
    UniqueConcat(q, [w]);
  }

  /** Move the item at index k to index 0, the others keeping their order. */
  function MoveToFront(q: seq<WorkItem>, k: nat): (r: seq<WorkItem>)
    requires k < |q|
    ensures |r| == |q| && multiset(r) == multiset(q)
    ensures Without(r, q[k].image) == Without(q, q[k].image)
  {
    WithoutRemoveAt(q, k);
    assert ([q[k]] + RemoveAt(q, k))[1..] == RemoveAt(q, k);
    [q[k]] + RemoveAt(q, k)
  }

  /** pushToFront's effect on the queue: an item for the image found at index 1
      or later moves to index 0. */
  function Promote(q: seq<WorkItem>, image: ImageId): (r: seq<WorkItem>)
    ensures |r| == |q| && multiset(r) == multiset(q)
    ensures image in Images(q) ==> r[0].image == image
  {
    var k := IndexOf(q, Probe(image));
    if k >= 1 then MoveToFront(q, k) else q
  }

  /** pushToFront keeps the others' order; an absent image, or one already at the
      head, changes nothing. */
  lemma PromoteSpec(q: seq<WorkItem>, image: ImageId)
    ensures var r := Promote(q, image);
      Without(r, image) == Without(q, image) &&
      (image !in Images(q) || q[0].image == image ==> r == q)
  {
  }

  /** The items of the queue, as a set of images, do not change when one moves. */
  lemma {:induction false} MoveToFrontImages(q: seq<WorkItem>, k: nat)
    requires k < |q|
    ensures Images(MoveToFront(q, k)) == Images(q)
    ensures Unique(q) ==> Unique(MoveToFront(q, k))
  {
    var r := MoveToFront(q, k);
    assert r[1..] == RemoveAt(q, k);
    assert RemoveAt(q, k) == q[..k] + q[k + 1..];
    assert q == q[..k] + ([q[k]] + q[k + 1..]);
    assert ([q[k]] + q[k + 1..])[1..] == q[k + 1..];
    ImagesConcat(q[..k], q[k + 1..]);
    ImagesConcat(q[..k], [q[k]] + q[k + 1..]);
    if Unique(q) {
      RemoveAtUnique(q, k);
    }
  }

  /** pushToFront keeps the lock invariant and the set of pending images. */
  lemma PromotePreservesInvariant(q: seq<WorkItem>, p: seq<WorkItem>, image: ImageId)
    requires QueueInvariant(q, p)
    ensures QueueInvariant(Promote(q, image), p)
    ensures Images(Promote(q, image)) == Images(q)
  {
    var k := IndexOf(q, Probe(image));
    if k >= 1 {
      MoveToFrontImages(q, k);
    }
  }

  /** cancel takes out exactly the pending item for the image, if there is one,
      keeps the others in order and keeps the lock invariant. */
  lemma CancelSpec(q: seq<WorkItem>, p: seq<WorkItem>, image: ImageId)
    requires QueueInvariant(q, p)
    ensures var r := Remove(q, Probe(image));
      r == Without(q, image) && QueueInvariant(r, p) &&
      (image in Images(q) ==> |r| == |q| - 1) && (image !in Images(q) ==> r == q)
  {
    RemoveUnique(q, Probe(image));
  }

  /** A worker taking the head keeps the lock invariant and loses no image. */
  lemma TakePreservesInvariant(q: seq<WorkItem>, p: seq<WorkItem>)
    requires QueueInvariant(q, p) && q != []
    ensures QueueInvariant(q[1..], p + [q[0]])
    ensures Images(q[1..]) + Images(p + [q[0]]) == Images(q) + Images(p)
  {
    assert Images([q[0]]) == {q[0].image} by {
      assert [q[0]][1..] == [];
    }
    ImagesConcat(p, [q[0]]);
    UniqueConcat(p, [q[0]]);
  }

  /** While stop waits for the workers, the worker holding the first in-progress
      item finishes it: its remove(Object) takes out exactly that item and keeps
      the lock invariant. */
  lemma FinishFirstPreservesInvariant(q: seq<WorkItem>, p: seq<WorkItem>)
    requires QueueInvariant(q, p) && p != []
    ensures Remove(p, p[0]) == p[1..]
    ensures QueueInvariant(q, p[1..])
  {
    assert RemoveAt(p, 0) == p[1..];
    CompletePreservesInvariant(q, p, p[0]);
  }

  /** A worker finishing an item keeps the lock invariant; the image is no longer
      being decoded and the other in-progress items stay as they were. */
  lemma CompletePreservesInvariant(q: seq<WorkItem>, p: seq<WorkItem>, w: WorkItem)
    requires QueueInvariant(q, p)
    ensures QueueInvariant(q, Remove(p, w))
    ensures Remove(p, w) == Without(p, w.image)
    ensures w.image !in Images(Remove(p, w))
  {
    RemoveUnique(p, w);
  }
}
