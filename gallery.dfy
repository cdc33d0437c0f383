/** The Gallery management page: a searchable, category-filtered grid of images
    held in page state, per-category counters, tag badges, delete, and the edit
    dialog's category select. */
module Gallery {
  import opened Seqs
  import opened Text

  datatype GalleryImage = GalleryImage(
    id: int,
    title: string,
    description: string,
    url: string,
    category: string,
    tags: seq<string>,
    uploadDate: string,
    size: string,
    dimensions: string)

  /** The category sentinel that disables the category test. */
  const AllCategories: string := "All"

  /** The entries of the category filter (`categories`). */
  const Categories: seq<string> := ["All", "Activities", "Education", "Daily Life", "Events"]

  /** The values of the edit dialog's category select. */
  const CategoryValues: seq<string> := ["activities", "education", "daily-life", "events"]

  // ---------------------------------------------------------------------------
  // The filtered view

  function TagContains(needle: string): string -> bool {
    tag => Contains(Lower(tag), needle)
  }

  /** The search test: the lower-cased term occurs in the lower-cased title,
      description, or some tag. */
  predicate MatchesSearch(img: GalleryImage, searchTerm: string) {
    Contains(Lower(img.title), Lower(searchTerm))
    || Contains(Lower(img.description), Lower(searchTerm))
    || Any(img.tags, TagContains(Lower(searchTerm)))
  }

  /** The category test: the sentinel, or an exact (case-sensitive) match. */
  predicate MatchesCategory(img: GalleryImage, selectedCategory: string) {
    selectedCategory == AllCategories || img.category == selectedCategory
  }

  function Keep(searchTerm: string, selectedCategory: string): GalleryImage -> bool {
    img => MatchesSearch(img, searchTerm) && MatchesCategory(img, selectedCategory)
  }

  function KeepBySearch(searchTerm: string): GalleryImage -> bool {
    img => MatchesSearch(img, searchTerm)
  }

  /** The search covers the title, the description and every tag. */
  lemma SearchCoversTags(img: GalleryImage, searchTerm: string)
    ensures MatchesSearch(img, searchTerm) <==>
      || Contains(Lower(img.title), Lower(searchTerm))
      || Contains(Lower(img.description), Lower(searchTerm))
      || exists i :: 0 <= i < |img.tags| && Contains(Lower(img.tags[i]), Lower(searchTerm))
  {
    var p := TagContains(Lower(searchTerm));
    assert Any(img.tags, p) <==> exists i :: 0 <= i < |img.tags| && p(img.tags[i]);
  }

  /** `filteredImages`: an image is shown iff it passes the search and the
      category tests; shown images keep their order. */
  function FilteredImages(images: seq<GalleryImage>, searchTerm: string, selectedCategory: string): (r: seq<GalleryImage>)
    ensures forall img :: img in r <==>
      img in images && MatchesSearch(img, searchTerm) && MatchesCategory(img, selectedCategory)
    ensures forall img :: multiset(r)[img] ==
                          if MatchesSearch(img, searchTerm) && MatchesCategory(img, selectedCategory)
                          then multiset(images)[img] else 0
    ensures IsSubsequence(r, images) && |r| <= |images|
  {
    FilterIsSubsequence(images, Keep(searchTerm, selectedCategory));
    FilterCounts(images, Keep(searchTerm, selectedCategory));
    Filter(images, Keep(searchTerm, selectedCategory))
  }

  /** Category "All" is a no-op: the view is the search-only filter. */
  lemma AllCategoryIsSearchOnly(images: seq<GalleryImage>, searchTerm: string)
    ensures FilteredImages(images, searchTerm, AllCategories)
         == Filter(images, KeepBySearch(searchTerm))
  {
    FilterCongruent(images, Keep(searchTerm, AllCategories), KeepBySearch(searchTerm));
  }

  /** With an empty search box and category "All" every image is shown, in order. */
  lemma EmptySearchShowsAll(images: seq<GalleryImage>)
    ensures FilteredImages(images, "", AllCategories) == images
  {
    forall img | img in images ensures Keep("", AllCategories)(img) {
      ContainsEmpty(Lower(img.title));
    }
    FilterAllPass(images, Keep("", AllCategories));
  }

  // ---------------------------------------------------------------------------
  // Delete

  function IdIsNot(id: int): GalleryImage -> bool {
    (img: GalleryImage) => img.id != id
  }

  /** `images.filter((img) => img.id !== id)`. */
  function RemoveById(images: seq<GalleryImage>, id: int): (r: seq<GalleryImage>)
    ensures forall img :: img in r <==> img in images && img.id != id
    ensures forall img :: multiset(r)[img] == if img.id != id then multiset(images)[img] else 0
    ensures IsSubsequence(r, images)
    ensures (forall img :: img in images ==> img.id != id) ==> r == images
  {
    FilterIsSubsequence(images, IdIsNot(id));
    FilterCounts(images, IdIsNot(id));
    if forall img :: img in images ==> img.id != id then
      FilterAllPass(images, IdIsNot(id));
      Filter(images, IdIsNot(id))
    else
      Filter(images, IdIsNot(id))
  }

  // ---------------------------------------------------------------------------
  // Stats cards

  function HasCategory(c: string): GalleryImage -> bool {
    (img: GalleryImage) => img.category == c
  }

  /** `images.filter((img) => img.category === c).length`. */
  function CategoryCount(images: seq<GalleryImage>, c: string): (n: nat)
    ensures n <= |images|
  {
    |Filter(images, HasCategory(c))|
  }

  /** The category column of the grid. */
  function CategoriesOf(images: seq<GalleryImage>): (cs: seq<string>)
    ensures |cs| == |images|
    ensures forall i :: 0 <= i < |images| ==> cs[i] == images[i].category
  {
    seq(|images|, i requires 0 <= i < |images| => images[i].category)
  }

  /** A counter is the number of times its name occurs in the category column. */
  lemma {:induction false} CategoryCountIsMultiplicity(images: seq<GalleryImage>, c: string)
    ensures CategoryCount(images, c) == multiset(CategoriesOf(images))[c]
  {
    if images != [] {
      CategoryCountIsMultiplicity(images[1..], c);
      assert CategoriesOf(images) == [images[0].category] + CategoriesOf(images[1..]);
    }
  }

  /** Counters of two different categories never count the same image, so
      together they stay within the total shown on the first card. */
  lemma {:induction false} CountersDisjoint(images: seq<GalleryImage>, c1: string, c2: string)
    requires c1 != c2
    ensures CategoryCount(images, c1) + CategoryCount(images, c2) <= |images|
  {
    if images != [] {
      CountersDisjoint(images[1..], c1, c2);
    }
  }

  // ---------------------------------------------------------------------------
  // Tag badges

  /** What a card shows of an image's tags: some tag badges, and a `+n` badge. */
  datatype TagBadges = TagBadges(shown: seq<string>, overflow: Option<nat>)

  /** `tags.slice(0, 3)` and, when `tags.length > 3`, `+(tags.length - 3)`. */
  function Badges(tags: seq<string>): (b: TagBadges)
    ensures |b.shown| == if |tags| < 3 then |tags| else 3
    ensures b.shown == tags[..|b.shown|]
    ensures b.overflow.Some? <==> |tags| > 3
    ensures b.overflow.Some? ==> |b.shown| + b.overflow.value == |tags|
  {
    if |tags| > 3 then TagBadges(tags[..3], Some(|tags| - 3)) else TagBadges(tags, None)
  }

  // ---------------------------------------------------------------------------
  // The edit dialog's category select

  /** `category.toLowerCase().replace(" ", "-")`. */
  function CategorySlug(category: string): string {
    ReplaceFirst(Lower(category), ' ', '-')
  }

  /** The slug is the lower-cased category with its first space, if any, made
      a dash; every later space stays a space. */
  lemma SlugShape(category: string)
    ensures |CategorySlug(category)| == |category|
    ensures forall i :: 0 <= i < |category| ==>
      CategorySlug(category)[i] ==
        if i == IndexOf(Lower(category), ' ') then '-' else LowerChar(category[i])
  {
    ReplaceFirstAtIndexOf(Lower(category), ' ', '-');
  }

  /** "Daily Life" selects "daily-life": only its space becomes a dash. */
  lemma DailyLifeSlug(category: string)
    requires category == "Daily Life"
    ensures CategorySlug(category) == "daily-life"
  {
    var lowered := Lower(category);
    assert lowered[5] == ' ';
    assert forall j :: 0 <= j < 5 ==> lowered[j] != ' ';
    var k := IndexOf(lowered, ' ');
    assert k == 5;
    SlugShape(category);
    var slug := CategorySlug(category);
    forall i | 0 <= i < 10 ensures slug[i] == "daily-life"[i] {
    }
  }

  /** A category without a space is only lower-cased. */
  lemma SpacelessSlug(category: string, slug: string)
    requires ' ' !in category
    requires |slug| == |category| && forall i :: 0 <= i < |category| ==> LowerChar(category[i]) == slug[i]
    ensures CategorySlug(category) == slug
  {
    SlugShape(category);
    assert ' ' !in Lower(category);
  }

  lemma ActivitiesSlug(category: string)
    requires category == "Activities"
    ensures CategorySlug(category) == "activities"
  {
    SpacelessSlug(category, "activities");
  }

  lemma EducationSlug(category: string)
    requires category == "Education"
    ensures CategorySlug(category) == "education"
  {
    SpacelessSlug(category, "education");
  }

  lemma EventsSlug(category: string)
    requires category == "Events"
    ensures CategorySlug(category) == "events"
  {
    SpacelessSlug(category, "events");
  }

  /** Every category of the filter list other than "All" pre-selects one of
      the edit dialog's category values. */
  lemma CategoriesHaveSelectValues(category: string)
    requires category in Categories && category != AllCategories
    ensures CategorySlug(category) in CategoryValues
  {
    var values := CategoryValues;
    if category == "Daily Life" {
      DailyLifeSlug(category);
      assert values[2] == "daily-life";
    } else if category == "Activities" {
      ActivitiesSlug(category);
      assert values[0] == "activities";
    } else if category == "Education" {
      EducationSlug(category);
      assert values[1] == "education";
    } else {
      EventsSlug(category);
      assert values[3] == "events";
    }
  }

  // ---------------------------------------------------------------------------
  // The page

  class GalleryPage {
    var images: seq<GalleryImage>
    var searchTerm: string
    var selectedCategory: string
    /** The image in the details or edit dialog (`selectedImage`). */
    var selected: Option<GalleryImage>
    var editOpen: bool

    /** The cards on screen. */
    function View(): seq<GalleryImage>
      reads this
    {
      FilteredImages(images, searchTerm, selectedCategory)
    }

    /** Mounting the page with its initial images. */
    constructor (initial: seq<GalleryImage>)
      ensures images == initial && searchTerm == "" && selectedCategory == AllCategories
      ensures selected == None && !editOpen
      ensures View() == initial
    {
      EmptySearchShowsAll(initial);
      images := initial;
      searchTerm := "";
      selectedCategory := AllCategories;
      selected := None;
      editOpen := false;
    }

    /** Typing in the search box: the grid is refiltered by the new term,
        ignoring its case. */
    method SetSearchTerm(t: string)
      modifies this`searchTerm
      ensures searchTerm == t
      ensures forall img :: img in View() <==>
        img in images && MatchesSearch(img, t) && MatchesCategory(img, selectedCategory)
    {
      searchTerm := t;
    }

    /** Picking a category: "All" leaves only the search test. */
    method SetSelectedCategory(c: string)
      modifies this`selectedCategory
      ensures selectedCategory == c
      ensures c == AllCategories ==> View() == Filter(images, KeepBySearch(searchTerm))
      ensures c != AllCategories ==> forall img :: img in View() ==> img.category == c
    {
      selectedCategory := c;
      if c == AllCategories {
        AllCategoryIsSearchOnly(images, searchTerm);
      }
    }

    /** `handleDeleteImage`: drop every image with this id, keep the rest in order. */
    method DeleteImage(id: int)
      modifies this`images
      ensures images == RemoveById(old(images), id)
      ensures forall img :: img in View() ==> img.id != id
    {
      images := RemoveById(images, id);
    }

    /** "View Details" opens the details dialog on the image. */
    method ViewDetails(img: GalleryImage)
      modifies this`selected
      ensures selected == Some(img)
    {
      selected := Some(img);
    }

    /** Closing the details dialog clears the selection. */
    method CloseDetails()
      modifies this`selected
      ensures selected == None
    {
      selected := None;
    }

    /** `handleEditImage`. */
    method EditImage(img: GalleryImage)
      modifies this`selected, this`editOpen
      ensures selected == Some(img) && editOpen
    {
      selected := Some(img);
      editOpen := true;
    }

    /** Both buttons of the edit dialog only close it: its inputs are
        uncontrolled, so no image changes. */
    method CloseEdit()
      modifies this`editOpen
      ensures !editOpen
    {
      editOpen := false;
    }
  }
}
