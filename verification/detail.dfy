/**
  The lookup behind `get_photo_detail`: whether the photo exists, and which
  photos the detail view links as "previous" and "next".  The two queries
  the handler runs are passed in as values: the set of ids in the table,
  and the list of ids ordered newest upload first.
 */
module Detail {
  import opened Wrappers
  import Reconcile

  /** The integer primary key the store assigns to a photo. */
  type PhotoId = int

  /** The handler's outcome: the 404 response, or the detail view with its
      two navigation links. */
  datatype Navigation = NotFound | Found(prev: Option<PhotoId>, next: Option<PhotoId>)

  /** `list.index`, with the `ValueError` case turned into -1 as the handler
      does: the position of the first occurrence of `id`. */
  function IndexOf(ids: seq<PhotoId>, id: PhotoId): (r: int)
    ensures -1 <= r < |ids|
    ensures r == -1 <==> id !in ids
    ensures r >= 0 ==> ids[r] == id && id !in ids[..r]
  {
    if |ids| == 0 then -1
    else if ids[0] == id then 0
    else
      var k := IndexOf(ids[1..], id);
      assert ids[1..][..k + 1] == ids[1..k + 2] by {
        assert k >= 0 ==> ids[1..][..k] == ids[1..k + 1];
      }
      if k == -1 then -1 else k + 1
  }

  /** `b` directly follows `a` somewhere in `ids`. */
  predicate Adjacent(ids: seq<PhotoId>, a: PhotoId, b: PhotoId)
  {
    exists i :: 0 <= i < |ids| - 1 && ids[i] == a && ids[i + 1] == b
  }

  /** No id is listed twice. */
  predicate Distinct(ids: seq<PhotoId>)
  {
    forall i, j :: 0 <= i < j < |ids| ==> ids[i] != ids[j]
  }

  /** `get_photo_detail` without the rendering: not found when the id is not
      in the table; otherwise the ids before and after it in the
      newest-first list, when there are such. */
  function PhotoDetail(storeIds: set<PhotoId>, newestFirst: seq<PhotoId>, id: PhotoId): (r: Navigation)
    ensures r.NotFound? <==> id !in storeIds
    ensures r.Found? ==> (r.prev.Some? <==> id in newestFirst && newestFirst[0] != id)
    ensures r.Found? ==> (r.next.Some? <==> |newestFirst| > 0 && id in newestFirst[..|newestFirst| - 1])
    ensures r.Found? && r.prev.Some? ==> Adjacent(newestFirst, r.prev.value, id)
    ensures r.Found? && r.next.Some? ==> Adjacent(newestFirst, id, r.next.value)
  {
    if id !in storeIds then NotFound
    else
      var idx := IndexOf(newestFirst, id);
      var prev := if idx > 0 then Some(newestFirst[idx - 1]) else None;
      var next := if idx >= 0 && idx < |newestFirst| - 1 then Some(newestFirst[idx + 1]) else None;
      assert idx > 0 ==> newestFirst[idx - 1 + 1] == id;
      assert idx >= 0 && idx < |newestFirst| - 1 ==> newestFirst[idx] == id && id in newestFirst[..|newestFirst| - 1];
      assert idx >= 0 && id in newestFirst[..|newestFirst| - 1] ==> idx < |newestFirst| - 1 by {
        if idx >= 0 && id in newestFirst[..|newestFirst| - 1] {
          var j :| 0 <= j < |newestFirst| - 1 && newestFirst[j] == id;
          assert forall k :: 0 <= k < idx ==> newestFirst[..idx][k] == newestFirst[k];
        }
      }
      Found(prev, next)
  }

  /** In a list without repeats, the links of the photo at position `i` are
      the photos at `i - 1` and `i + 1`, where those exist. */
  lemma NeighboursAt(storeIds: set<PhotoId>, newestFirst: seq<PhotoId>, i: nat)
    requires Distinct(newestFirst)
    requires i < |newestFirst| && newestFirst[i] in storeIds
    ensures PhotoDetail(storeIds, newestFirst, newestFirst[i]) ==
      Found(if i > 0 then Some(newestFirst[i - 1]) else None,
            if i + 1 < |newestFirst| then Some(newestFirst[i + 1]) else None)
  {
    var idx := IndexOf(newestFirst, newestFirst[i]);
    assert newestFirst[idx] == newestFirst[i];
  }

  /** The photo a "next" link leads to links back with "previous". */
  lemma NextThenPrev(storeIds: set<PhotoId>, newestFirst: seq<PhotoId>, a: PhotoId, b: PhotoId)
    requires Distinct(newestFirst)
    requires b in storeIds
    requires PhotoDetail(storeIds, newestFirst, a).Found?
    requires PhotoDetail(storeIds, newestFirst, a).next == Some(b)
    ensures PhotoDetail(storeIds, newestFirst, b).prev == Some(a)
  {
    var i :| 0 <= i < |newestFirst| - 1 && newestFirst[i] == a && newestFirst[i + 1] == b;
    NeighboursAt(storeIds, newestFirst, i + 1);
  }

  /** The photo a "previous" link leads to links back with "next". */
  lemma PrevThenNext(storeIds: set<PhotoId>, newestFirst: seq<PhotoId>, a: PhotoId, b: PhotoId)
    requires Distinct(newestFirst)
    requires a in storeIds
    requires PhotoDetail(storeIds, newestFirst, b).Found?
    requires PhotoDetail(storeIds, newestFirst, b).prev == Some(a)
    ensures PhotoDetail(storeIds, newestFirst, a).next == Some(b)
  {
    var i :| 0 <= i < |newestFirst| - 1 && newestFirst[i] == a && newestFirst[i + 1] == b;
    NeighboursAt(storeIds, newestFirst, i);
  }

  /** Following "next" and then "previous" comes back: in a list without
      repeats, `b` is the next of `a` exactly when `a` is the previous of
      `b`. */
  lemma NextPrevInverse(storeIds: set<PhotoId>, newestFirst: seq<PhotoId>, a: PhotoId, b: PhotoId)
    requires Distinct(newestFirst)
    requires a in storeIds && b in storeIds
    ensures PhotoDetail(storeIds, newestFirst, a).next == Some(b) <==>
            PhotoDetail(storeIds, newestFirst, b).prev == Some(a)
  {
    if PhotoDetail(storeIds, newestFirst, a).next == Some(b) {
      NextThenPrev(storeIds, newestFirst, a, b);
    }
    if PhotoDetail(storeIds, newestFirst, b).prev == Some(a) {
      PrevThenNext(storeIds, newestFirst, a, b);
    }
  }

  /** The list is ordered by upload time, newest first, as the
      `order_by(uploaded_at.desc())` query returns it. */
  predicate NewestFirst(newestFirst: seq<PhotoId>, uploadedAt: map<PhotoId, Reconcile.Timestamp>)
  {
    && (forall i :: 0 <= i < |newestFirst| ==> newestFirst[i] in uploadedAt)
    && (forall i, j :: 0 <= i < j < |newestFirst| ==> uploadedAt[newestFirst[i]] >= uploadedAt[newestFirst[j]])
  }

  /** "Previous" links to a photo uploaded no earlier, "next" to one
      uploaded no later. */
  lemma PrevIsNewerNextIsOlder(storeIds: set<PhotoId>, newestFirst: seq<PhotoId>,
                               uploadedAt: map<PhotoId, Reconcile.Timestamp>, id: PhotoId)
    requires NewestFirst(newestFirst, uploadedAt)
    ensures var r := PhotoDetail(storeIds, newestFirst, id);
      && (r.Found? && r.prev.Some? ==> id in uploadedAt && uploadedAt[r.prev.value] >= uploadedAt[id])
      && (r.Found? && r.next.Some? ==> id in uploadedAt && uploadedAt[r.next.value] <= uploadedAt[id])
  {
    var r := PhotoDetail(storeIds, newestFirst, id);
    if r.Found? && r.prev.Some? {
      var i :| 0 <= i < |newestFirst| - 1 && newestFirst[i] == r.prev.value && newestFirst[i + 1] == id;
      assert newestFirst[i + 1] in uploadedAt;
    }
    if r.Found? && r.next.Some? {
      var i :| 0 <= i < |newestFirst| - 1 && newestFirst[i] == id && newestFirst[i + 1] == r.next.value;
      assert newestFirst[i + 1] in uploadedAt;
    }
  }

  /** Three photos listed newest first, a lone photo, a photo missing from
      the list, and an id missing from the table. */
  lemma DetailExamples()
    ensures PhotoDetail({1, 2, 3}, [3, 2, 1], 2) == Found(Some(3), Some(1))
    ensures PhotoDetail({1, 2, 3}, [3, 2, 1], 3) == Found(None, Some(2))
    ensures PhotoDetail({1, 2, 3}, [3, 2, 1], 1) == Found(Some(2), None)
    ensures PhotoDetail({5}, [5], 5) == Found(None, None)
    ensures PhotoDetail({5, 6}, [5], 6) == Found(None, None)
    ensures PhotoDetail({5}, [5], 7) == NotFound
  {
    NeighboursAt({1, 2, 3}, [3, 2, 1], 1);
    NeighboursAt({1, 2, 3}, [3, 2, 1], 0);
    NeighboursAt({1, 2, 3}, [3, 2, 1], 2);
  }
}
