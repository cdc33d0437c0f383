/** The News & Events management page: a searchable, category-filtered view of
    the `news-events` collection, single and bulk delete, seeding, and an edit
    dialog that works on a copy of one article and saves six of its fields. */
module NewsEvents {
  import opened Seqs
  import opened Text
  import opened Gateway

  /** The stored fields of an article (`content` is a serialised rich-text blob). */
  datatype ArticleData = ArticleData(
    title: string,
    description: string,
    content: string,
    imageUrl: string,
    category: string,
    date: string,
    author: string)

  /** An article as the page holds it: the document id with its data. */
  type Article = Doc<ArticleData>

  /** The category sentinel that disables the category test. */
  const AllCategories: string := "All"

  // ---------------------------------------------------------------------------
  // The filtered view

  /** The search test: the lower-cased term occurs in the lower-cased title, or
      the description is non-empty and its lower-cased form holds the term. */
  predicate MatchesSearch(a: Article, searchTerm: string) {
    Contains(Lower(a.data.title), Lower(searchTerm))
    || (a.data.description != "" && Contains(Lower(a.data.description), Lower(searchTerm)))
  }

  /** The category test: the sentinel, or an exact (case-sensitive) match. */
  predicate MatchesCategory(a: Article, selectedCategory: string) {
    selectedCategory == AllCategories || a.data.category == selectedCategory
  }

  function Keep(searchTerm: string, selectedCategory: string): Article -> bool {
    a => MatchesSearch(a, searchTerm) && MatchesCategory(a, selectedCategory)
  }

  function KeepBySearch(searchTerm: string): Article -> bool {
    a => MatchesSearch(a, searchTerm)
  }

  /** `filteredArticles`: the articles passing both tests, in list order. */
  function FilteredArticles(articles: seq<Article>, searchTerm: string, selectedCategory: string): (r: seq<Article>)
    ensures forall a :: a in r <==>
      a in articles && MatchesSearch(a, searchTerm) && MatchesCategory(a, selectedCategory)
    ensures forall a :: multiset(r)[a] ==
                        if MatchesSearch(a, searchTerm) && MatchesCategory(a, selectedCategory)
                        then multiset(articles)[a] else 0
    ensures IsSubsequence(r, articles) && |r| <= |articles|
  {
    FilterIsSubsequence(articles, Keep(searchTerm, selectedCategory));
    FilterCounts(articles, Keep(searchTerm, selectedCategory));
    Filter(articles, Keep(searchTerm, selectedCategory))
  }

  /** The `description &&` guard never changes the outcome: an empty description
      holds only the empty term, and the empty term is in every title. */
  lemma SearchGuardIsRedundant(a: Article, searchTerm: string)
    ensures MatchesSearch(a, searchTerm) <==>
      Contains(Lower(a.data.title), Lower(searchTerm))
      || Contains(Lower(a.data.description), Lower(searchTerm))
  {
    if a.data.description == "" {
      ContainedInEmpty(Lower(searchTerm));
      if Lower(searchTerm) == "" {
        ContainsEmpty(Lower(a.data.title));
      }
    }
  }

  /** The search test ignores case in the term: two terms that lower-case alike
      select the same articles. */
  lemma SearchIsCaseInsensitive(a: Article, t1: string, t2: string)
    requires Lower(t1) == Lower(t2)
    ensures MatchesSearch(a, t1) == MatchesSearch(a, t2)
  {
  }

  /** Category "All" is a no-op: the view is the search-only filter. */
  lemma AllCategoryIsSearchOnly(articles: seq<Article>, searchTerm: string)
    ensures FilteredArticles(articles, searchTerm, AllCategories)
         == Filter(articles, KeepBySearch(searchTerm))
  {
    FilterCongruent(articles, Keep(searchTerm, AllCategories), KeepBySearch(searchTerm));
  }

  /** With an empty search box and category "All" every article is shown, in order. */
  lemma EmptySearchShowsAll(articles: seq<Article>)
    ensures FilteredArticles(articles, "", AllCategories) == articles
  {
    forall a | a in articles ensures Keep("", AllCategories)(a) {
      ContainsEmpty(Lower(a.data.title));
    }
    FilterAllPass(articles, Keep("", AllCategories));
  }

  /** Three articles filed under News, Events and News, filtered to "Events"
      with an empty search box, leave exactly the Events article. */
  lemma EventsScenario(a1: Article, a2: Article, a3: Article)
    requires a1.data.category == "News" && a2.data.category == "Events" && a3.data.category == "News"
    ensures FilteredArticles([a1, a2, a3], "", "Events") == [a2]
  {
    ContainsEmpty(Lower(a2.data.title));
    var p := Keep("", "Events");
    assert !p(a1) && p(a2) && !p(a3);
    assert Filter([a3], p) == [] by {
      assert [a3][1..] == [];
    }
    assert Filter([a2, a3], p) == [a2] by {
      assert [a2, a3][1..] == [a3];
    }
    assert [a1, a2, a3][1..] == [a2, a3];
  }

  // ---------------------------------------------------------------------------
  // The edit dialog's working copy

  /** The fields the edit dialog has a control for. */
  datatype ArticleField = Title | Description | Author | Category | Date | ImageUrl

  /** The value of one editable field. */
  function Field(d: ArticleData, f: ArticleField): string {
    match f
    case Title => d.title
    case Description => d.description
    case Author => d.author
    case Category => d.category
    case Date => d.date
    case ImageUrl => d.imageUrl
  }

  /** `setSelectedArticle({ ...selectedArticle, f: v })`: the copy with one field set. */
  function WithField(a: Article, f: ArticleField, v: string): (r: Article)
    ensures r.id == a.id && r.data.content == a.data.content
    ensures Field(r.data, f) == v
    ensures forall g :: g != f ==> Field(r.data, g) == Field(a.data, g)
  {
    match f
    case Title => a.(data := a.data.(title := v))
    case Description => a.(data := a.data.(description := v))
    case Author => a.(data := a.data.(author := v))
    case Category => a.(data := a.data.(category := v))
    case Date => a.(data := a.data.(date := v))
    case ImageUrl => a.(data := a.data.(imageUrl := v))
  }

  /** Two article data agreeing on every editable field and on the content are equal. */
  lemma FieldsDetermineData(d: ArticleData, e: ArticleData)
    requires forall g :: Field(d, g) == Field(e, g)
    requires d.content == e.content
    ensures d == e
  {
    assert Field(d, Title) == Field(e, Title) && Field(d, Description) == Field(e, Description);
    assert Field(d, Author) == Field(e, Author) && Field(d, Category) == Field(e, Category);
    assert Field(d, Date) == Field(e, Date) && Field(d, ImageUrl) == Field(e, ImageUrl);
  }

  /** The `updateDoc` payload of "Save Changes": six fields, no `content`. */
  datatype ArticleUpdate = ArticleUpdate(
    title: string,
    description: string,
    author: string,
    category: string,
    date: string,
    imageUrl: string)

  function UpdateOf(a: Article): ArticleUpdate {
    ArticleUpdate(a.data.title, a.data.description, a.data.author,
                  a.data.category, a.data.date, a.data.imageUrl)
  }

  /** `updateDoc` merges the payload's fields into the stored document. */
  function ApplyUpdate(stored: ArticleData, u: ArticleUpdate): ArticleData {
    stored.(title := u.title, description := u.description, author := u.author,
            category := u.category, date := u.date, imageUrl := u.imageUrl)
  }

  /** Saving writes every editable field of the working copy and keeps the
      stored content. */
  lemma SaveWritesWorkingCopy(stored: ArticleData, w: Article)
    ensures ApplyUpdate(stored, UpdateOf(w)).content == stored.content
    ensures forall g :: Field(ApplyUpdate(stored, UpdateOf(w)), g) == Field(w.data, g)
  {
    forall g ensures Field(ApplyUpdate(stored, UpdateOf(w)), g) == Field(w.data, g) {
      match g
      case Title =>
      case Description =>
      case Author =>
      case Category =>
      case Date =>
      case ImageUrl =>
    }
  }

  /** Round trip: open the stored article, set one field, save. The stored
      document becomes the edited copy: field `f` is `v`, the rest as before. */
  lemma EditRoundTrip(a: Article, f: ArticleField, v: string)
    ensures ApplyUpdate(a.data, UpdateOf(WithField(a, f, v))) == WithField(a, f, v).data
  {
    var w := WithField(a, f, v);
    SaveWritesWorkingCopy(a.data, w);
    FieldsDetermineData(ApplyUpdate(a.data, UpdateOf(w)), w.data);
  }

  // ---------------------------------------------------------------------------
  // The page

  class NewsEventsPage {
    /** The remote `news-events` collection. */
    var store: Store<ArticleData>
    /** The last fetched list (`articles` state). */
    var articles: seq<Article>
    var searchTerm: string
    var selectedCategory: string
    /** The working copy (`selectedArticle`). */
    var selected: Option<Article>
    var editOpen: bool

    ghost predicate Valid()
      reads this
    {
      Gateway.Valid(store)
    }

    /** The cards on screen. */
    function View(): seq<Article>
      reads this
    {
      FilteredArticles(articles, searchTerm, selectedCategory)
    }

    /** Mounting the page: empty search, category "All", one fetch. */
    constructor (remote: Store<ArticleData>)
      requires Gateway.Valid(remote)
      ensures Valid() && store == remote && articles == Snapshot(remote)
      ensures searchTerm == "" && selectedCategory == AllCategories
      ensures selected == None && !editOpen
      ensures View() == articles
    {
      EmptySearchShowsAll(Snapshot(remote));
      store := remote;
      articles := Snapshot(remote);
      searchTerm := "";
      selectedCategory := AllCategories;
      selected := None;
      editOpen := false;
    }

    /** `fetchArticles`: the list becomes a fresh snapshot of the collection. */
    method FetchArticles()
      requires Valid()
      modifies this`articles
      ensures articles == Snapshot(store)
    {
      articles := Snapshot(store);
    }

    /** Typing in the search box: the view is refiltered by the new term,
        ignoring its case. */
    method SetSearchTerm(t: string)
      modifies this`searchTerm
      ensures searchTerm == t
      ensures forall a :: a in View() <==>
        a in articles && MatchesSearch(a, t) && MatchesCategory(a, selectedCategory)
    {
      searchTerm := t;
    }

    /** Picking a category: "All" leaves only the search test. */
    method SetSelectedCategory(c: string)
      modifies this`selectedCategory
      ensures selectedCategory == c
      ensures c == AllCategories ==> View() == Filter(articles, KeepBySearch(searchTerm))
      ensures c != AllCategories ==> forall a :: a in View() ==> a.data.category == c
    {
      selectedCategory := c;
      if c == AllCategories {
        AllCategoryIsSearchOnly(articles, searchTerm);
      }
    }

    /** `handleDeleteArticle`: delete one document, then re-fetch. */
    method DeleteArticle(id: string)
      requires Valid()
      modifies this`store, this`articles
      ensures Valid() && store == Delete(old(store), id)
      ensures articles == Snapshot(store)
    {
      store := Delete(store, id);
      articles := Snapshot(store);
    }

    /** `handleDeleteAllArticles`: list the collection, put a delete of every
        listed document into one batch, commit it, re-fetch. */
    method DeleteAllArticles()
      requires Valid()
      modifies this`store, this`articles
      ensures Valid() && store.docs == map[] && store.order == []
      ensures articles == []
    {
      var listed := store.order;
      var batch := store;
      var i := 0;
      while i < |listed|
        invariant 0 <= i <= |listed|
        invariant Gateway.Valid(batch)
        invariant batch.docs.Keys <= store.docs.Keys
        invariant forall j :: 0 <= j < i ==> listed[j] !in batch.docs
      {
        batch := Delete(batch, listed[i]);
        i := i + 1;
      }
      assert forall k :: k in listed ==> k !in batch.docs;
      assert batch.docs.Keys == {};
      store := batch;
      EmptyListsNothing(store);
      articles := Snapshot(store);
    }

    /** `handlePopulateDatabase`: `addDoc` each seed article in turn (the
        collection chooses fresh ids, given here as `ids`), then re-fetch. The
        new articles are listed among the old ones by id. */
    method PopulateDatabase(ids: seq<string>, seeds: seq<ArticleData>)
      requires Valid()
      requires |ids| == |seeds| && Distinct(ids)
      requires forall k :: k in ids ==> k !in store.docs
      modifies this`store, this`articles
      ensures Valid()
      ensures forall k :: k in store.docs <==> k in old(store.docs) || k in ids
      ensures forall j :: 0 <= j < |ids| ==> store.docs[ids[j]] == seeds[j]
      ensures forall k :: k in old(store.docs) ==> store.docs[k] == old(store.docs)[k]
      ensures articles == Snapshot(store)
    {
      var i := 0;
      while i < |ids|
        invariant 0 <= i <= |ids|
        invariant Gateway.Valid(store)
        invariant forall k :: k in store.docs <==> k in old(store.docs) || k in ids[..i]
        invariant forall j :: 0 <= j < i ==> store.docs[ids[j]] == seeds[j]
        invariant forall k :: k in old(store.docs) ==> store.docs[k] == old(store.docs)[k]
      {
        assert ids[i] !in ids[..i] by {
          assert forall j :: 0 <= j < i ==> ids[j] != ids[i];
        }
        store := Add(store, ids[i], seeds[i]);
        assert ids[..i + 1] == ids[..i] + [ids[i]];
        i := i + 1;
      }
      assert ids[..i] == ids;
      articles := Snapshot(store);
    }

    /** `handleEditArticle`: the clicked article becomes the working copy. */
    method EditArticle(a: Article)
      modifies this`selected, this`editOpen
      ensures selected == Some(a) && editOpen
    {
      selected := Some(a);
      editOpen := true;
    }

    /** One of the dialog's `onChange`/`onValueChange` setters. */
    method SetField(f: ArticleField, v: string)
      requires selected.Some?
      modifies this`selected
      ensures selected == Some(WithField(old(selected).value, f, v))
    {
      selected := Some(WithField(selected.value, f, v));
    }

    /** "Cancel": the dialog closes; nothing is sent. */
    method Cancel()
      modifies this`editOpen
      ensures !editOpen
    {
      editOpen := false;
    }

    /** "Save Changes": send the six-field update for the working copy's id,
        then re-fetch and close. When the document no longer exists the update
        is rejected and the rest of the handler does not run. */
    method SaveChanges() returns (result: SaveResult)
      requires Valid()
      modifies this`store, this`articles, this`editOpen
      ensures Valid()
      ensures result == NoSelection <==> old(selected).None?
      ensures result == UpdateFailed <==> old(selected).Some? && old(selected).value.id !in old(store.docs)
      ensures result == Saved ==>
        var w := old(selected).value;
        && store == Put(old(store), w.id, ApplyUpdate(old(store.docs)[w.id], UpdateOf(w)))
        && articles == Snapshot(store) && !editOpen
      ensures result != Saved ==>
        store == old(store) && articles == old(articles) && editOpen == old(editOpen)
    {
      if selected.None? {
        return NoSelection;
      }
      var w := selected.value;
      if w.id !in store.docs {
        return UpdateFailed;
      }
      store := Put(store, w.id, ApplyUpdate(store.docs[w.id], UpdateOf(w)));
      articles := Snapshot(store);
      editOpen := false;
      result := Saved;
    }
  }
}
