/**
 * A document collection as the controllers see it through the
 * object-document mapper: documents by id, plus the order in which they were
 * inserted (the creation-time order that `sort({createdAt: -1})` reverses and
 * that the store's natural order follows).
 */
module Store {
  import opened Wrappers
  import Query

  /** Document ids (ObjectId strings). */
  type Id = string

  /** `ids` with every occurrence of `id` removed. */
  function Without(ids: seq<Id>, id: Id): (r: seq<Id>)
    ensures forall k :: k in r <==> k in ids && k != id
    ensures Query.IsSubsequence(r, ids)
  {
    Query.Filter(ids, k => k != id)
  }

  /** No id occurs twice in `ids`. */
  ghost predicate Distinct(ids: seq<Id>) {
    forall i, j :: 0 <= i < j < |ids| ==> ids[i] != ids[j]
  }

  lemma {:induction false} DistinctSubsequence(r: seq<Id>, ids: seq<Id>)
    requires Distinct(ids) && Query.IsSubsequence(r, ids)
    ensures Distinct(r)
    decreases |ids|
  {
    if |r| > 0 {
      if r[0] == ids[0] {
        DistinctSubsequence(r[1..], ids[1..]);
        forall j | 0 < j < |r| ensures r[0] != r[j] {
          assert r[j] in r[1..];
          SubsequenceMembers(r[1..], ids[1..]);
          assert ids[0] !in ids[1..];
        }
      } else {
        DistinctSubsequence(r, ids[1..]);
      }
    }
  }

  lemma {:induction false} SubsequenceMembers(r: seq<Id>, ids: seq<Id>)
    requires Query.IsSubsequence(r, ids)
    ensures forall x :: x in r ==> x in ids
    decreases |ids|
  {
    if |r| > 0 {
      if r[0] == ids[0] {
        SubsequenceMembers(r[1..], ids[1..]);
        assert forall x :: x in r ==> x == r[0] || x in r[1..];
      } else {
        SubsequenceMembers(r, ids[1..]);
      }
    }
  }

  /** The documents of `m` listed in the order of `ids`. */
  function InOrder<T>(m: map<Id, T>, ids: seq<Id>): (r: seq<T>)
    requires forall i :: 0 <= i < |ids| ==> ids[i] in m
    ensures |r| == |ids| && forall i :: 0 <= i < |ids| ==> r[i] == m[ids[i]]
  {
    seq(|ids|, i requires 0 <= i < |ids| => m[ids[i]])
  }

  class Collection<T> {
    /** The stored documents. */
    var docs: map<Id, T>
    /** The ids of the stored documents, oldest first. */
    var order: seq<Id>

    ghost predicate Valid()
      reads this
    {
      && (forall i :: 0 <= i < |order| ==> order[i] in docs)
      && (forall id :: id in docs ==> id in order)
      && Distinct(order)
    }

    constructor ()
      ensures Valid() && docs == map[] && order == []
    {
      docs := map[];
      order := [];
    }

    /** The documents in creation order, oldest first (the natural order of `find()`). */
    function Oldest(): (r: seq<T>)
      reads this
      requires Valid()
      ensures |r| == |order| && forall i :: 0 <= i < |order| ==> r[i] == docs[order[i]]
    {
      InOrder(docs, order)
    }

    /** The documents newest first (`sort({createdAt: -1})`). */
    function Newest(): (r: seq<T>)
      reads this
      requires Valid()
      ensures |r| == |order| && forall i :: 0 <= i < |order| ==> r[i] == docs[order[|order| - 1 - i]]
    {
      Query.Reverse(Oldest())
    }

    /** Every stored document is in the newest-first listing. */
    lemma StoredNewest(id: Id)
      requires Valid() && id in docs
      ensures docs[id] in Newest()
    {
      var k :| 0 <= k < |order| && order[k] == id;
      assert Newest()[|order| - 1 - k] == docs[id];
    }

    /** `new Model(doc).save()` with a fresh id. */
    method Insert(id: Id, doc: T)
      requires Valid() && id !in docs
      modifies this
      ensures Valid()
      ensures docs == old(docs)[id := doc] && order == old(order) + [id]
    {
      docs := docs[id := doc];
      order := order + [id];
    }

    /** `doc.save()` of a loaded document, or `findByIdAndUpdate` of an existing id. */
    method Put(id: Id, doc: T)
      requires Valid() && id in docs
      modifies this
      ensures Valid()
      ensures docs == old(docs)[id := doc] && order == old(order)
    {
      docs := docs[id := doc];
    }

    /** `findByIdAndDelete` of an existing id. */
    method Remove(id: Id)
      requires Valid() && id in docs
      modifies this
      ensures Valid()
      ensures docs == old(docs) - {id} && order == Without(old(order), id)
    {
      var before := order;
      docs := docs - {id};
      order := Without(order, id);
      DistinctSubsequence(order, before);
    }
  }
}
