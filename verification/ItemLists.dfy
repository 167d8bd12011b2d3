/** The java.util.ArrayList operations the loader applies to its lists of work
    items. Every search goes through WorkItem.equals, that is, by image. */
module ItemLists {
  import opened WorkItems

  /** The images named by the items of q. */
  ghost function Images(q: seq<WorkItem>): set<ImageId>
  {
    if q == [] then {} else {q[0].image} + Images(q[1..])
  }

  /** No two items of q name the same image. */
  ghost predicate Unique(q: seq<WorkItem>)
  {
    q == [] || (q[0].image !in Images(q[1..]) && Unique(q[1..]))
  }

  /** ArrayList.indexOf: the first index whose item equals w, or -1. */
  function IndexOf(q: seq<WorkItem>, w: WorkItem): (r: int)
    ensures -1 <= r < |q|
    ensures 0 <= r <==> w.image in Images(q)
    ensures 0 <= r ==> Equals(w, q[r])
    ensures forall j :: 0 <= j < r ==> !Equals(w, q[j])
  {
    if q == [] then -1
    else if Equals(w, q[0]) then 0
    else
      var k := IndexOf(q[1..], w);
      if k < 0 then -1 else k + 1
  }

  /** ArrayList.contains. */
  function Contains(q: seq<WorkItem>, w: WorkItem): (b: bool)
    ensures b <==> w.image in Images(q)
  {
    IndexOf(q, w) >= 0
  }

  /** ArrayList.remove(int): drop the item at index i; later items shift left. */
  function RemoveAt(q: seq<WorkItem>, i: nat): (r: seq<WorkItem>)
    requires i < |q|
    ensures |r| == |q| - 1
    ensures forall j :: 0 <= j < i ==> r[j] == q[j]
    ensures forall j :: i <= j < |r| ==> r[j] == q[j + 1]
    ensures multiset(r) + multiset{q[i]} == multiset(q)
  {
    assert q == q[..i] + [q[i]] + q[i + 1..];
    q[..i] + q[i + 1..]
  }

  /** ArrayList.remove(Object): drop the first item equal to w, if there is one. */
  function Remove(q: seq<WorkItem>, w: WorkItem): (r: seq<WorkItem>)
    ensures w.image in Images(q) ==> |r| == |q| - 1
    ensures w.image !in Images(q) ==> r == q
  {
    var k := IndexOf(q, w);
    if k >= 0 then RemoveAt(q, k) else q
  }

  /** q with every item for image id taken out, the rest in their order. */
  function Without(q: seq<WorkItem>, id: ImageId): (r: seq<WorkItem>)
    ensures |r| <= |q|
    ensures Images(r) == Images(q) - {id}
    ensures Unique(q) ==> Unique(r)
    ensures id !in Images(q) ==> r == q
  {
    if q == [] then []
    else if q[0].image == id then Without(q[1..], id)
    else
      assert ([q[0]] + Without(q[1..], id))[1..] == Without(q[1..], id);
      assert id !in Images(q) ==> q == [q[0]] + q[1..];
      [q[0]] + Without(q[1..], id)
  }

  /** No two positions of q hold items for the same image. */
  ghost predicate NoRepeats(q: seq<WorkItem>)
  {
    forall i, j :: 0 <= i < j < |q| ==> q[i].image != q[j].image
  }

  /** Images(q) holds exactly the images named at some index of q. */
  lemma {:induction false} ImagesByIndex(q: seq<WorkItem>)
    ensures forall x :: x in Images(q) <==> exists i :: 0 <= i < |q| && q[i].image == x
  {
    if q != [] {
      ImagesByIndex(q[1..]);
      assert Images(q) == {q[0].image} + Images(q[1..]);
      forall x | x in Images(q)
        ensures exists i :: 0 <= i < |q| && q[i].image == x
      {
        if x != q[0].image {
          var i :| 0 <= i < |q[1..]| && q[1..][i].image == x;
          assert q[i + 1].image == x;
        }
      }
      forall x | exists i :: 0 <= i < |q| && q[i].image == x
        ensures x in Images(q)
      {
        var i :| 0 <= i < |q| && q[i].image == x;
        if i > 0 {
          assert q[1..][i - 1].image == x;
        }
      }
    }
  }

  /** Unique is NoRepeats: no image is named twice, position by position. */
  lemma {:induction false} UniqueByIndex(q: seq<WorkItem>)
    ensures Unique(q) <==> NoRepeats(q)
  {
    if q != [] {
      UniqueByIndex(q[1..]);
      ImagesByIndex(q[1..]);
      if Unique(q) {
        forall i, j | 0 <= i < j < |q|
          ensures q[i].image != q[j].image
        {
          assert q[j].image == q[1..][j - 1].image;
          if i > 0 {
            assert q[i].image == q[1..][i - 1].image;
          }
        }
      }
      if NoRepeats(q) {
        forall i, j | 0 <= i < j < |q[1..]|
          ensures q[1..][i].image != q[1..][j].image
        {
          assert q[1..][i] == q[i + 1] && q[1..][j] == q[j + 1];
        }
        forall k | 0 <= k < |q[1..]|
          ensures q[1..][k].image != q[0].image
        {
          assert q[1..][k] == q[k + 1];
        }
      }
    }
  }

  /** Two lists share no image exactly when no position of one names an image
      named at a position of the other. */
  lemma DisjointByIndex(a: seq<WorkItem>, b: seq<WorkItem>)
    ensures Images(a) !! Images(b) <==>
      forall i, j :: 0 <= i < |a| && 0 <= j < |b| ==> a[i].image != b[j].image
  {
    ImagesByIndex(a);
    ImagesByIndex(b);
    if Images(a) !! Images(b) {
      forall i, j | 0 <= i < |a| && 0 <= j < |b|
        ensures a[i].image != b[j].image
      {
        assert a[i].image in Images(a);
        assert b[j].image in Images(b);
      }
    }
  }

  /** Any request equal to w, in particular the probe for w's image, finds the same
      index and removes the same item as w itself: a corollary of IndexOf's
      contract, which fixes the first match by image alone. */
  lemma EqualsFindSame(q: seq<WorkItem>, a: WorkItem, b: WorkItem)
    requires Equals(a, b)
    ensures IndexOf(q, a) == IndexOf(q, b)
    ensures Remove(q, a) == Remove(q, b)
  {
  }

  /** The item at index i contributes its image. */
  lemma {:induction false} ImageAt(q: seq<WorkItem>, i: nat)
    requires i < |q|
    ensures q[i].image in Images(q)
  {
    if i > 0 {
      ImageAt(q[1..], i - 1);
    }
  }

  lemma {:induction false} ImagesConcat(a: seq<WorkItem>, b: seq<WorkItem>)
    ensures Images(a + b) == Images(a) + Images(b)
  {
    if a == [] {
      assert a + b == b;
    } else {
      assert (a + b)[1..] == a[1..] + b;
      ImagesConcat(a[1..], b);
    }
  }

  /** Two lists without repeated images, over disjoint images, concatenate to one. */
  lemma {:induction false} UniqueConcat(a: seq<WorkItem>, b: seq<WorkItem>)
    requires Unique(a) && Unique(b) && Images(a) !! Images(b)
    ensures Unique(a + b)
  {
    if a == [] {
      assert a + b == b;
    } else {
      assert (a + b)[1..] == a[1..] + b;
      ImagesConcat(a[1..], b);
      UniqueConcat(a[1..], b);
    }
  }

  lemma {:induction false} WithoutConcat(a: seq<WorkItem>, b: seq<WorkItem>, id: ImageId)
    ensures Without(a + b, id) == Without(a, id) + Without(b, id)
  {
    if a == [] {
      assert a + b == b;
    } else {
      assert (a + b)[1..] == a[1..] + b;
      WithoutConcat(a[1..], b, id);
    }
  }

  /** Removing one item for image id leaves the items for other images as they were. */
  lemma {:induction false} WithoutRemoveAt(q: seq<WorkItem>, k: nat)
    requires k < |q|
    ensures Without(RemoveAt(q, k), q[k].image) == Without(q, q[k].image)
  {
    var id := q[k].image;
    if k == 0 {
      assert RemoveAt(q, 0) == q[1..];
    } else {
      var r := RemoveAt(q[1..], k - 1);
      assert RemoveAt(q, k) == [q[0]] + r;
      assert ([q[0]] + r)[1..] == r;
      assert q[1..][k - 1] == q[k];
      WithoutRemoveAt(q[1..], k - 1);
      assert Without(r, id) == Without(q[1..], id);
    }
  }

  /** In a list without repeated images, removing the item at k removes exactly
      the items for its image. */
  lemma {:induction false} RemoveAtUnique(q: seq<WorkItem>, k: nat)
    requires k < |q| && Unique(q)
    ensures RemoveAt(q, k) == Without(q, q[k].image)
  {
    if k == 0 {
      assert RemoveAt(q, 0) == q[1..];
    } else {
      ImageAt(q[1..], k - 1);
      assert q[k].image != q[0].image;
      assert RemoveAt(q, k) == [q[0]] + RemoveAt(q[1..], k - 1);
      RemoveAtUnique(q[1..], k - 1);
    }
  }

  /** Whatever the list, remove(Object) touches no item for another image. */
  lemma RemoveKeepsOthers(q: seq<WorkItem>, w: WorkItem)
    ensures Without(Remove(q, w), w.image) == Without(q, w.image)
  {
    var k := IndexOf(q, w);
    if k >= 0 {
      WithoutRemoveAt(q, k);
    }
  }

  /** In a list without repeated images, remove(Object) takes out exactly the item
      for w's image, if any, keeps the others in order and keeps the list duplicate-free. */
  lemma RemoveUnique(q: seq<WorkItem>, w: WorkItem)
    requires Unique(q)
    ensures Remove(q, w) == Without(q, w.image)
    ensures Unique(Remove(q, w))
    ensures Images(Remove(q, w)) == Images(q) - {w.image}
  {
    var k := IndexOf(q, w);
    if k >= 0 {
      RemoveAtUnique(q, k);
    }
  }
}
