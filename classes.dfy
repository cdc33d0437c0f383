/** The Classes management page: fetch the `classes` collection, drop
    incomplete documents, sort by a fixed list of class names, and edit one
    class at a time, saving four of its fields. */
module Classes {
  import opened Seqs
  import opened Gateway

  datatype Item = Item(title: string, description: string)

  /** Fields of a class document that this page neither shows nor sends (they
      belong to the per-class detail editor). */
  datatype ClassDetails = ClassDetails(
    classSummary: string,
    dailyLife: seq<Item>,
    funActivities: seq<Item>,
    galleryImages: seq<string>)

  datatype ClassData = ClassData(
    classname: string,
    ageRange: string,
    description: string,
    imageUrl: string,
    details: ClassDetails)

  /** A class as the page holds it: the document id with its data. */
  type Class = Doc<ClassData>

  /** `CLASS_ORDER`: the display order of the known class names. */
  const ClassOrder: seq<string> :=
    ["Bouncy Bunnies", "Jolly Giraffe", "Smart Lions", "Clever Cats", "Wise Mice", "Brainy Elephants"]

  // ---------------------------------------------------------------------------
  // Fetch: completeness filter

  /** `classname && ageRange && description`: all three are non-empty. */
  predicate Complete(d: ClassData) {
    d.classname != "" && d.ageRange != "" && d.description != ""
  }

  function IsComplete(): Class -> bool {
    (c: Class) => Complete(c.data)
  }

  /** The `map`/`filter(Boolean)` step: every complete document, with its id
      attached, in snapshot order; incomplete documents are dropped. */
  function CompleteClasses(snapshot: seq<Doc<ClassData>>): (r: seq<Class>)
    ensures forall c :: c in r <==> c in snapshot && Complete(c.data)
    ensures forall c :: multiset(r)[c] == if Complete(c.data) then multiset(snapshot)[c] else 0
    ensures IsSubsequence(r, snapshot)
    ensures DistinctIds(snapshot) ==> DistinctIds(r)
  {
    FilterIsSubsequence(snapshot, IsComplete());
    FilterCounts(snapshot, IsComplete());
    if DistinctIds(snapshot) then
      FilterPairwise(snapshot, IsComplete(), IdsDiffer);
      Filter(snapshot, IsComplete())
    else
      Filter(snapshot, IsComplete())
  }

  predicate IdsDiffer(a: Class, b: Class) {
    a.id != b.id
  }

  /** No two listed classes share a document id. */
  predicate DistinctIds(classes: seq<Class>) {
    forall i, j :: 0 <= i < j < |classes| ==> classes[i].id != classes[j].id
  }

  // ---------------------------------------------------------------------------
  // Fetch: ordering

  /** `order.indexOf(classname)`: -1 for a name not in the list. */
  function Rank(order: seq<string>, c: Class): int {
    IndexOf(order, c.data.classname)
  }

  /** The comparator's key: `CLASS_ORDER.indexOf(classname)`. */
  function ByRank(order: seq<string>): Class -> int {
    (c: Class) => Rank(order, c)
  }

  predicate SortedBy(key: Class -> int, s: seq<Class>) {
    forall i, j :: 0 <= i < j < |s| ==> key(s[i]) <= key(s[j])
  }

  /** Insert `x` after every element of rank at most its own. */
  function Insert(key: Class -> int, sorted: seq<Class>, x: Class): seq<Class>
    decreases |sorted|
  {
    if sorted == [] || key(sorted[|sorted| - 1]) <= key(x) then sorted + [x]
    else Insert(key, sorted[..|sorted| - 1], x) + [sorted[|sorted| - 1]]
  }

  /** The order `fetchedClasses.sort((a, b) => indexA - indexB)` produces: a
      stable sort by rank (insertion sort, element by element from the left). */
  function SortBy(key: Class -> int, s: seq<Class>): seq<Class>
  {
    if s == [] then [] else Insert(key, SortBy(key, s[..|s| - 1]), s[|s| - 1])
  }

  lemma {:induction false} InsertPermutes(key: Class -> int, sorted: seq<Class>, x: Class)
    ensures multiset(Insert(key, sorted, x)) == multiset(sorted) + multiset{x}
    ensures |Insert(key, sorted, x)| == |sorted| + 1
    decreases |sorted|
  {
    if !(sorted == [] || key(sorted[|sorted| - 1]) <= key(x)) {
      var init, last := sorted[..|sorted| - 1], sorted[|sorted| - 1];
      InsertPermutes(key, init, x);
      assert sorted == init + [last];
    }
  }

  /** Dropping the last element keeps a list sorted. */
  lemma SortedInit(key: Class -> int, s: seq<Class>)
    requires SortedBy(key, s) && s != []
    ensures SortedBy(key, s[..|s| - 1])
  {
    var init := s[..|s| - 1];
    forall i, j | 0 <= i < j < |init| ensures key(init[i]) <= key(init[j]) {
      assert init[i] == s[i] && init[j] == s[j];
    }
  }

  /** `Insert` adds `x` and nothing else. */
  lemma {:induction false} InsertMembers(key: Class -> int, sorted: seq<Class>, x: Class)
    ensures forall y :: y in Insert(key, sorted, x) ==> y == x || y in sorted
    decreases |sorted|
  {
    if !(sorted == [] || key(sorted[|sorted| - 1]) <= key(x)) {
      var init, last := sorted[..|sorted| - 1], sorted[|sorted| - 1];
      InsertMembers(key, init, x);
      assert Insert(key, sorted, x) == Insert(key, init, x) + [last];
      assert sorted == init + [last];
    }
  }

  lemma {:induction false} InsertSorted(key: Class -> int, sorted: seq<Class>, x: Class)
    requires SortedBy(key, sorted)
    ensures SortedBy(key, Insert(key, sorted, x))
    decreases |sorted|
  {
    var r := Insert(key, sorted, x);
    if sorted == [] || key(sorted[|sorted| - 1]) <= key(x) {
      assert r == sorted + [x];
      forall i, j | 0 <= i < j < |r| ensures key(r[i]) <= key(r[j]) {
        if j == |sorted| && i < |sorted| - 1 {
          assert key(sorted[i]) <= key(sorted[|sorted| - 1]);
        }
      }
    } else {
      var init, last := sorted[..|sorted| - 1], sorted[|sorted| - 1];
      SortedInit(key, sorted);
      InsertSorted(key, init, x);
      InsertMembers(key, init, x);
      var ri := Insert(key, init, x);
      assert r == ri + [last];
      forall y | y in ri ensures key(y) <= key(last) {
        if y != x {
          var k :| 0 <= k < |init| && init[k] == y;
          assert sorted[k] == y;
        }
      }
      forall i, j | 0 <= i < j < |r| ensures key(r[i]) <= key(r[j]) {
        assert r[i] == ri[i] && ri[i] in ri;
        if j < |r| - 1 {
          assert r[j] == ri[j];
        }
      }
    }
  }

  /** Sorting yields a list ordered by rank. */
  lemma {:induction false} SortIsSorted(key: Class -> int, s: seq<Class>)
    ensures SortedBy(key, SortBy(key, s))
  {
    if s != [] {
      SortIsSorted(key, s[..|s| - 1]);
      InsertSorted(key, SortBy(key, s[..|s| - 1]), s[|s| - 1]);
    }
  }

  /** Inserting a class whose id is new keeps the ids distinct. */
  lemma {:induction false} InsertKeepsDistinctIds(key: Class -> int, sorted: seq<Class>, x: Class)
    requires DistinctIds(sorted) && forall c :: c in sorted ==> c.id != x.id
    ensures DistinctIds(Insert(key, sorted, x))
    decreases |sorted|
  {
    var r := Insert(key, sorted, x);
    if sorted == [] || key(sorted[|sorted| - 1]) <= key(x) {
      assert r == sorted + [x];
      assert forall i :: 0 <= i < |sorted| ==> sorted[i] in sorted;
    } else {
      var init, last := sorted[..|sorted| - 1], sorted[|sorted| - 1];
      assert DistinctIds(init) by {
        forall i, j | 0 <= i < j < |init| ensures init[i].id != init[j].id {
          assert init[i] == sorted[i] && init[j] == sorted[j];
        }
      }
      assert forall c :: c in init ==> c in sorted;
      InsertKeepsDistinctIds(key, init, x);
      InsertMembers(key, init, x);
      var ri := Insert(key, init, x);
      assert r == ri + [last];
      forall c | c in ri ensures c.id != last.id {
        if c != x {
          var k :| 0 <= k < |init| && init[k] == c;
          assert sorted[k] == c;
        }
      }
      forall i, j | 0 <= i < j < |r| ensures r[i].id != r[j].id {
        assert r[i] == ri[i] && ri[i] in ri;
        if j < |r| - 1 {
          assert r[j] == ri[j];
        }
      }
    }
  }

  /** Sorting a list with distinct ids keeps them distinct. */
  lemma {:induction false} SortKeepsDistinctIds(key: Class -> int, s: seq<Class>)
    requires DistinctIds(s)
    ensures DistinctIds(SortBy(key, s))
  {
    if s != [] {
      var init, last := s[..|s| - 1], s[|s| - 1];
      assert DistinctIds(init) by {
        forall i, j | 0 <= i < j < |init| ensures init[i].id != init[j].id {
          assert init[i] == s[i] && init[j] == s[j];
        }
      }
      SortKeepsDistinctIds(key, init);
      SortIsPermutation(key, init);
      forall c | c in SortBy(key, init) ensures c.id != last.id {
        assert c in multiset(init);
        var k :| 0 <= k < |init| && init[k] == c;
        assert s[k] == c;
      }
      InsertKeepsDistinctIds(key, SortBy(key, init), last);
    }
  }

  /** Sorting only reorders: same length, same multiset of classes. */
  lemma {:induction false} SortIsPermutation(key: Class -> int, s: seq<Class>)
    ensures |SortBy(key, s)| == |s|
    ensures multiset(SortBy(key, s)) == multiset(s)
  {
    if s != [] {
      var init := s[..|s| - 1];
      SortIsPermutation(key, init);
      InsertPermutes(key, SortBy(key, init), s[|s| - 1]);
      assert s == init + [s[|s| - 1]];
    }
  }

  function KeyIs(key: Class -> int, k: int): Class -> bool {
    (c: Class) => key(c) == k
  }

  lemma {:induction false} InsertStable(key: Class -> int, sorted: seq<Class>, x: Class, k: int)
    ensures Filter(Insert(key, sorted, x), KeyIs(key, k))
         == Filter(sorted, KeyIs(key, k)) + Filter([x], KeyIs(key, k))
    decreases |sorted|
  {
    var p := KeyIs(key, k);
    if sorted == [] || key(sorted[|sorted| - 1]) <= key(x) {
      assert Insert(key, sorted, x) == sorted + [x];
      FilterConcat(sorted, [x], p);
    } else {
      var init, last := sorted[..|sorted| - 1], sorted[|sorted| - 1];
      assert sorted == init + [last];
      var ri := Insert(key, init, x);
      var fx, fl := Filter([x], p), Filter([last], p);
      assert fx == [] || fl == [] by {
        FilterSingleton(x, p);
        FilterSingleton(last, p);
      }
      assert Filter(sorted, p) == Filter(init, p) + fl by {
        FilterConcat(init, [last], p);
      }
      SwapEmpty(Filter(init, p), fx, fl);
      calc {
        Filter(Insert(key, sorted, x), p);
        Filter(ri + [last], p);
        { FilterConcat(ri, [last], p); }
        Filter(ri, p) + fl;
        { InsertStable(key, init, x, k); }
        Filter(init, p) + fx + fl;
        Filter(init, p) + fl + fx;
        Filter(sorted, p) + fx;
      }
    }
  }

  /** The sort is stable: classes of equal rank (in particular all unknown
      names, rank -1) keep their relative order. */
  lemma {:induction false} SortIsStable(key: Class -> int, s: seq<Class>, k: int)
    ensures Filter(SortBy(key, s), KeyIs(key, k)) == Filter(s, KeyIs(key, k))
  {
    if s != [] {
      var init, last := s[..|s| - 1], s[|s| - 1];
      SortIsStable(key, init, k);
      InsertStable(key, SortBy(key, init), last, k);
      assert s == init + [last];
      FilterConcat(init, [last], KeyIs(key, k));
    }
  }

  /** Where `Insert` puts `x`: right after the last element whose key is at
      most its own, with every later element keyed above it. */
  lemma {:induction false} InsertAtGap(key: Class -> int, sorted: seq<Class>, x: Class, j: nat)
    requires j <= |sorted|
    requires forall k :: j <= k < |sorted| ==> key(sorted[k]) > key(x)
    requires j == 0 || key(sorted[j - 1]) <= key(x)
    ensures Insert(key, sorted, x) == sorted[..j] + [x] + sorted[j..]
    decreases |sorted|
  {
    if j == |sorted| {
      assert sorted[..j] == sorted;
    } else {
      var init, last := sorted[..|sorted| - 1], sorted[|sorted| - 1];
      InsertAtGap(key, init, x, j);
      assert init[..j] == sorted[..j];
      assert init[j..] + [last] == sorted[j..];
    }
  }

  /** One pass of the in-place sort: moves `a[i]` left past every larger
      element of the sorted prefix `a[..i]`. */
  method InsertAt(key: Class -> int, a: array<Class>, i: nat)
    requires i < a.Length
    modifies a
    ensures a[..i + 1] == Insert(key, old(a[..i]), old(a[i]))
    ensures a[i + 1..] == old(a[i + 1..])
  {
    ghost var sorted := a[..i];
    var x := a[i];
    var j := i;
    while j > 0 && key(a[j - 1]) > key(x)
      invariant 0 <= j <= i
      invariant a[..j] == sorted[..j]
      invariant a[j + 1..i + 1] == sorted[j..]
      invariant a[i + 1..] == old(a[i + 1..])
      invariant forall k :: j <= k < i ==> key(sorted[k]) > key(x)
    {
      assert a[j - 1] == sorted[j - 1];
      a[j] := a[j - 1];
      assert a[j..i + 1] == [sorted[j - 1]] + sorted[j..];
      j := j - 1;
    }
    InsertAtGap(key, sorted, x, j);
    a[j] := x;
    assert a[..i + 1] == sorted[..j] + [x] + sorted[j..];
  }

  /** `fetchedClasses.sort(...)` in place: the array ends up holding
      `SortBy` of its old contents. */
  method SortClasses(key: Class -> int, a: array<Class>)
    modifies a
    ensures a[..] == SortBy(key, old(a[..]))
  {
    ghost var input := a[..];
    var i := 0;
    while i < a.Length
      invariant 0 <= i <= a.Length
      invariant a[..i] == SortBy(key, input[..i])
      invariant a[i..] == input[i..]
    {
      InsertAt(key, a, i);
      assert input[..i + 1][..i] == input[..i];
      i := i + 1;
    }
    assert a[..] == a[..a.Length] && input == input[..a.Length];
  }

  /** `fetchClasses`: keep the complete documents, attach their ids, sort them
      in place by `CLASS_ORDER`. */
  method FetchClasses(snapshot: seq<Doc<ClassData>>) returns (classes: seq<Class>)
    ensures classes == SortBy(ByRank(ClassOrder), CompleteClasses(snapshot))
    ensures forall c :: c in classes <==> c in snapshot && Complete(c.data)
    ensures multiset(classes) == multiset(CompleteClasses(snapshot))
    ensures SortedBy(ByRank(ClassOrder), classes)
    ensures DistinctIds(snapshot) ==> DistinctIds(classes)
  {
    var fetched := CompleteClasses(snapshot);
    var a := new Class[|fetched|](i requires 0 <= i < |fetched| => fetched[i]);
    assert a[..] == fetched;
    SortClasses(ByRank(ClassOrder), a);
    classes := a[..];
    SortIsPermutation(ByRank(ClassOrder), fetched);
    SortIsSorted(ByRank(ClassOrder), fetched);
    assert forall c :: c in classes <==> c in multiset(fetched);
    if DistinctIds(snapshot) {
      SortKeepsDistinctIds(ByRank(ClassOrder), fetched);
    }
  }

  /** In a list sorted by rank, a smaller rank comes first. */
  lemma SmallerRankFirst(order: seq<string>, s: seq<Class>, i: nat, j: nat)
    requires SortedBy(ByRank(order), s) && i < |s| && j < |s|
    requires Rank(order, s[i]) < Rank(order, s[j])
    ensures i < j
  {
  }

  /** A class whose name is not in the order list (rank -1) comes before every
      class whose name is. */
  lemma UnknownNamesFirst(order: seq<string>, s: seq<Class>, i: nat, j: nat)
    requires SortedBy(ByRank(order), s) && i < |s| && j < |s|
    requires s[i].data.classname !in order && s[j].data.classname in order
    ensures i < j
  {
    SmallerRankFirst(order, s, i, j);
  }

  /** Two classes whose names are both in the order list appear in the list's
      order. */
  lemma KnownNamesInListOrder(order: seq<string>, s: seq<Class>, i: nat, j: nat, p: nat, q: nat)
    requires SortedBy(ByRank(order), s) && i < |s| && j < |s|
    requires Distinct(order) && p < q < |order|
    requires s[i].data.classname == order[p] && s[j].data.classname == order[q]
    ensures i < j
  {
    assert IndexOf(order, order[p]) == p && IndexOf(order, order[q]) == q;
    SmallerRankFirst(order, s, i, j);
  }

  /** "Bouncy Bunnies" is listed before "Smart Lions". */
  lemma BunniesBeforeLions(s: seq<Class>, i: nat, j: nat)
    requires SortedBy(ByRank(ClassOrder), s) && i < |s| && j < |s|
    requires s[i].data.classname == "Bouncy Bunnies" && s[j].data.classname == "Smart Lions"
    ensures i < j
  {
    var order := ClassOrder;
    assert order[0] == "Bouncy Bunnies" && order[2] == "Smart Lions";
    assert order[1] != "Smart Lions";
    assert Rank(order, s[i]) == 0 && Rank(order, s[j]) == 2;
    SmallerRankFirst(order, s, i, j);
  }

  // ---------------------------------------------------------------------------
  // The edit dialog

  /** The fields the edit dialog has a control for. */
  datatype ClassField = Image | Classname | AgeRange | Description

  function Field(d: ClassData, f: ClassField): string {
    match f
    case Image => d.imageUrl
    case Classname => d.classname
    case AgeRange => d.ageRange
    case Description => d.description
  }

  /** `setSelectedClass({ ...selectedClass, f: v })`. */
  function WithField(c: Class, f: ClassField, v: string): (r: Class)
    ensures r.id == c.id && r.data.details == c.data.details
    ensures Field(r.data, f) == v
    ensures forall g :: g != f ==> Field(r.data, g) == Field(c.data, g)
  {
    match f
    case Image => c.(data := c.data.(imageUrl := v))
    case Classname => c.(data := c.data.(classname := v))
    case AgeRange => c.(data := c.data.(ageRange := v))
    case Description => c.(data := c.data.(description := v))
  }

  /** The `updateDoc` payload of "Save Changes": exactly four fields. */
  datatype ClassUpdate = ClassUpdate(classname: string, ageRange: string, description: string, imageUrl: string)

  function UpdateOf(c: Class): ClassUpdate {
    ClassUpdate(c.data.classname, c.data.ageRange, c.data.description, c.data.imageUrl)
  }

  /** `updateDoc` merges the payload into the stored document. */
  function ApplyUpdate(stored: ClassData, u: ClassUpdate): ClassData {
    stored.(classname := u.classname, ageRange := u.ageRange,
            description := u.description, imageUrl := u.imageUrl)
  }

  /** Saving writes the four edited fields of the working copy and leaves the
      detail fields as stored. */
  lemma SaveWritesWorkingCopy(stored: ClassData, w: Class)
    ensures ApplyUpdate(stored, UpdateOf(w)).details == stored.details
    ensures forall g :: Field(ApplyUpdate(stored, UpdateOf(w)), g) == Field(w.data, g)
  {
    forall g ensures Field(ApplyUpdate(stored, UpdateOf(w)), g) == Field(w.data, g) {
      match g
      case Image =>
      case Classname =>
      case AgeRange =>
      case Description =>
    }
  }

  /** Round trip: edit one field of the stored class and save; the stored
      document becomes the edited copy. */
  lemma EditRoundTrip(c: Class, f: ClassField, v: string)
    ensures ApplyUpdate(c.data, UpdateOf(WithField(c, f, v))) == WithField(c, f, v).data
  {
    var w := WithField(c, f, v);
    SaveWritesWorkingCopy(c.data, w);
    var d := ApplyUpdate(c.data, UpdateOf(w));
    assert Field(d, Image) == Field(w.data, Image) && Field(d, Classname) == Field(w.data, Classname);
    assert Field(d, AgeRange) == Field(w.data, AgeRange) && Field(d, Description) == Field(w.data, Description);
  }

  /** `classes.map((cls) => cls.id === selectedClass.id ? selectedClass : cls)`. */
  function ReplaceById(classes: seq<Class>, w: Class): (r: seq<Class>)
    ensures |r| == |classes|
    ensures forall i :: 0 <= i < |r| ==> r[i].id == classes[i].id
    ensures DistinctIds(classes) ==> DistinctIds(r)
  {
    seq(|classes|, i requires 0 <= i < |classes| => if classes[i].id == w.id then w else classes[i])
  }

  /** With distinct ids, saving replaces exactly the element carrying the
      working copy's id; length, order and every other element are kept. */
  lemma ReplaceByIdIsPointUpdate(classes: seq<Class>, w: Class, k: nat)
    requires DistinctIds(classes) && k < |classes| && classes[k].id == w.id
    ensures ReplaceById(classes, w) == classes[k := w]
  {
  }

  /** Saving a class whose id is not listed leaves the list as it is. */
  lemma ReplaceAbsentIsIdentity(classes: seq<Class>, w: Class)
    requires forall c :: c in classes ==> c.id != w.id
    ensures ReplaceById(classes, w) == classes
  {
  }

  /** Replacing twice with the same copy is replacing once. */
  lemma ReplaceIdempotent(classes: seq<Class>, w: Class)
    ensures ReplaceById(ReplaceById(classes, w), w) == ReplaceById(classes, w)
  {
  }

  // ---------------------------------------------------------------------------
  // The page

  class ClassesPage {
    /** The remote `classes` collection. */
    var store: Store<ClassData>
    var classes: seq<Class>
    /** The working copy (`selectedClass`). */
    var selected: Option<Class>
    var editOpen: bool

    /** The collection is well formed and no two listed classes share an id. */
    ghost predicate Valid()
      reads this
    {
      Gateway.Valid(store) && DistinctIds(classes)
    }

    /** Mounting the page runs `fetchClasses` once. */
    constructor (remote: Store<ClassData>)
      requires Gateway.Valid(remote)
      ensures Valid() && store == remote
      ensures classes == SortBy(ByRank(ClassOrder), CompleteClasses(Snapshot(remote)))
      ensures selected == None && !editOpen
    {
      SnapshotComplete(remote);
      var fetched := FetchClasses(Snapshot(remote));
      store := remote;
      classes := fetched;
      selected := None;
      editOpen := false;
    }

    /** `handleEditClass`. */
    method EditClass(c: Class)
      modifies this`selected, this`editOpen
      ensures selected == Some(c) && editOpen
    {
      selected := Some(c);
      editOpen := true;
    }

    /** One of the dialog's `onChange`/`onValueChange` setters. */
    method SetField(f: ClassField, v: string)
      requires selected.Some?
      modifies this`selected
      ensures selected == Some(WithField(old(selected).value, f, v))
    {
      selected := Some(WithField(selected.value, f, v));
    }

    /** "Cancel": the dialog closes; nothing is sent. */
    method Cancel()
      modifies this`editOpen
      ensures !editOpen
    {
      editOpen := false;
    }

    /** "Save Changes" (`handleSaveChanges`): send the four-field update, then
        replace the listed class with the working copy and close. When the
        document no longer exists the update is rejected and nothing else runs. */
    method SaveChanges() returns (result: SaveResult)
      requires Valid()
      modifies this`store, this`classes, this`editOpen
      ensures Valid()
      ensures result == NoSelection <==> old(selected).None?
      ensures result == UpdateFailed <==> old(selected).Some? && old(selected).value.id !in old(store.docs)
      ensures result == Saved ==>
        var w := old(selected).value;
        && store == Put(old(store), w.id, ApplyUpdate(old(store.docs)[w.id], UpdateOf(w)))
        && classes == ReplaceById(old(classes), w) && !editOpen
      ensures result == Saved ==>
        var w := old(selected).value;
        forall k :: 0 <= k < |old(classes)| && old(classes)[k].id == w.id ==> classes == old(classes)[k := w]
      ensures result == Saved ==>
        var w := old(selected).value;
        (forall c :: c in old(classes) ==> c.id != w.id) ==> classes == old(classes)
      ensures result != Saved ==>
        store == old(store) && classes == old(classes) && editOpen == old(editOpen)
    {
      if selected.None? {
        return NoSelection;
      }
      var w := selected.value;
      if w.id !in store.docs {
        return UpdateFailed;
      }
      store := Put(store, w.id, ApplyUpdate(store.docs[w.id], UpdateOf(w)));
      forall k | 0 <= k < |classes| && classes[k].id == w.id ensures ReplaceById(classes, w) == classes[k := w] {
        ReplaceByIdIsPointUpdate(classes, w, k);
      }
      if forall c :: c in classes ==> c.id != w.id {
        ReplaceAbsentIsIdentity(classes, w);
      }
      classes := ReplaceById(classes, w);
      editOpen := false;
      result := Saved;
    }
  }
}
