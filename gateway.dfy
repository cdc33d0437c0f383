/** An abstract remote document collection (a Firestore collection such as
    `news-events` or `classes`): documents keyed by an opaque id, listed by
    ascending id as a query without `orderBy` lists them. Network failures are
    not modelled; the one failure the pages can meet is an update of an id that
    is no longer there. */
module Gateway {
  import opened Seqs
  import opened Text

  /** A listed document: `{ id: doc.id, ...doc.data() }`. */
  datatype Doc<R> = Doc(id: string, data: R)

  /** The collection: document data by id, and the order `getDocs` lists them in. */
  datatype Store<R> = Store(docs: map<string, R>, order: seq<string>)

  /** What pressing a dialog's "Save Changes" led to. */
  datatype SaveResult = Saved | NoSelection | UpdateFailed

  /** Every earlier id precedes every later one. */
  predicate Ordered(ids: seq<string>) {
    forall i, j :: 0 <= i < j < |ids| ==> Precedes(ids[i], ids[j])
  }

  /** The listing holds every stored id and nothing else, by ascending id. */
  ghost predicate Valid<R>(st: Store<R>) {
    Ordered(st.order) && (forall k :: k in st.order <==> k in st.docs)
  }

  /** An ordered listing names no id twice. */
  lemma OrderedIsDistinct(ids: seq<string>)
    requires Ordered(ids)
    ensures Distinct(ids)
  {
    forall i, j | 0 <= i < j < |ids| ensures ids[i] != ids[j] {
      PrecedesIrreflexive(ids[i]);
    }
  }

  /** The empty collection. */
  function Empty<R>(): (st: Store<R>)
    ensures Valid(st) && st.docs == map[]
  {
    Store(map[], [])
  }

  /** The documents with the given ids, in that order. */
  function Listing<R>(docs: map<string, R>, ids: seq<string>): (r: seq<Doc<R>>)
    requires forall k :: k in ids ==> k in docs
    ensures |r| == |ids|
    ensures forall i :: 0 <= i < |ids| ==> r[i] == Doc(ids[i], docs[ids[i]])
  {
    if ids == [] then []
    else
      var rest := Listing(docs, ids[1..]);
      assert forall i :: 1 <= i < |ids| ==> ids[i] == ids[1..][i - 1];
      [Doc(ids[0], docs[ids[0]])] + rest
  }

  /** `getDocs(collection)`: a full snapshot, one entry per stored document. */
  function Snapshot<R>(st: Store<R>): seq<Doc<R>>
    requires Valid(st)
  {
    Listing(st.docs, st.order)
  }

  /** A snapshot holds every stored document, with its own id, exactly once,
      by ascending id. */
  lemma SnapshotComplete<R>(st: Store<R>)
    requires Valid(st)
    ensures |Snapshot(st)| == |st.docs|
    ensures forall d :: d in Snapshot(st) <==> d.id in st.docs && st.docs[d.id] == d.data
    ensures forall i, j :: 0 <= i < j < |Snapshot(st)| ==> Precedes(Snapshot(st)[i].id, Snapshot(st)[j].id)
    ensures forall i, j :: 0 <= i < j < |Snapshot(st)| ==> Snapshot(st)[i].id != Snapshot(st)[j].id
  {
    var s := Snapshot(st);
    forall d: Doc<R> | d.id in st.docs && st.docs[d.id] == d.data ensures d in s {
      var i :| 0 <= i < |st.order| && st.order[i] == d.id;
      assert s[i] == d;
    }
    OrderedIsDistinct(st.order);
    DistinctCard(st.order);
    assert st.docs.Keys == set k | k in st.order;
  }

  /** A duplicate-free list has as many elements as the set of its elements. */
  lemma {:induction false} DistinctCard(s: seq<string>)
    requires Distinct(s)
    ensures |set k | k in s| == |s|
  {
    if s != [] {
      assert Distinct(s[1..]) by {
        forall i, j | 0 <= i < j < |s[1..]| ensures s[1..][i] != s[1..][j] {
          assert s[1..][i] == s[i + 1] && s[1..][j] == s[j + 1];
        }
      }
      DistinctCard(s[1..]);
      assert s[0] !in s[1..] by {
        forall k | 0 <= k < |s[1..]| ensures s[1..][k] != s[0] {
          assert s[1..][k] == s[k + 1];
        }
      }
      assert (set k | k in s) == {s[0]} + set k | k in s[1..];
    }
  }

  function IsNot(id: string): string -> bool {
    k => k != id
  }

  /** `deleteDoc(doc(db, name, id))`: removes that document; deleting an id that
      is not stored changes nothing. */
  function Delete<R>(st: Store<R>, id: string): (r: Store<R>)
    requires Valid(st)
    ensures Valid(r)
    ensures id !in r.docs
    ensures forall k :: k != id ==> (k in r.docs <==> k in st.docs)
    ensures forall k :: k in r.docs ==> r.docs[k] == st.docs[k]
    ensures id !in st.docs ==> r == st
  {
    FilterPairwise(st.order, IsNot(id), Precedes);
    if id !in st.docs then
      assert forall k :: k in st.order ==> IsNot(id)(k);
      FilterAllPass(st.order, IsNot(id));
      assert st.docs - {id} == st.docs;
      Store(st.docs - {id}, Filter(st.order, IsNot(id)))
    else
      Store(st.docs - {id}, Filter(st.order, IsNot(id)))
  }

  /** `updateDoc` writing `data` over an existing document. */
  function Put<R>(st: Store<R>, id: string, data: R): (r: Store<R>)
    requires Valid(st) && id in st.docs
    ensures Valid(r) && r.order == st.order
    ensures r.docs.Keys == st.docs.Keys && r.docs[id] == data
    ensures forall k :: k in st.docs && k != id ==> r.docs[k] == st.docs[k]
  {
    Store(st.docs[id := data], st.order)
  }

  /** The listing with a new id placed after every id that precedes it. */
  function InsertId(ids: seq<string>, id: string): (r: seq<string>)
    requires Ordered(ids) && id !in ids
    ensures Ordered(r) && |r| == |ids| + 1
    ensures forall k :: k in r <==> k in ids || k == id
  {
    if ids == [] then [id]
    else if Precedes(id, ids[0]) then
      forall j | 0 < j < |ids| ensures Precedes(id, ids[j]) {
        PrecedesTransitive(id, ids[0], ids[j]);
      }
      [id] + ids
    else
      PrecedesTotal(id, ids[0]);
      var tail := ids[1..];
      assert Ordered(tail) by {
        forall i, j | 0 <= i < j < |tail| ensures Precedes(tail[i], tail[j]) {
          assert tail[i] == ids[i + 1] && tail[j] == ids[j + 1];
        }
      }
      var rest := InsertId(tail, id);
      forall k | k in rest ensures Precedes(ids[0], k) {
        if k != id {
          var m :| 0 <= m < |tail| && tail[m] == k;
          assert ids[m + 1] == k;
        }
      }
      var r := [ids[0]] + rest;
      assert forall i, j :: 0 < i < j < |r| ==> r[i] == rest[i - 1] && r[j] == rest[j - 1];
      assert forall j :: 0 < j < |r| ==> r[j] in rest;
      assert forall k :: k in ids <==> k == ids[0] || k in tail;
      r
  }

  /** `addDoc`: a new document under a fresh id, listed at its place by id. */
  function Add<R>(st: Store<R>, id: string, data: R): (r: Store<R>)
    requires Valid(st) && id !in st.docs
    ensures Valid(r) && r.order == InsertId(st.order, id)
    ensures r.docs == st.docs[id := data]
  {
    Store(st.docs[id := data], InsertId(st.order, id))
  }

  /** A valid collection with no documents lists nothing. */
  lemma EmptyListsNothing<R>(st: Store<R>)
    requires Valid(st) && st.docs == map[]
    ensures st.order == [] && Snapshot(st) == []
  {
    OrderedIsDistinct(st.order);
    DistinctCard(st.order);
    assert (set k | k in st.order) == st.docs.Keys;
  }
}
