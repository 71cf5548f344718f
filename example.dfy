/** The run of main.c:13-15 on a small catalog: the four novels of Mishima's "The Sea of
    Fertility", which `add_collection` names in reading order, end up in that order. The
    catalog is given as `sort_by_author` leaves it: authors in order, each author's titles in
    title-key order. */
module Example {
  import opened Text
  import opened Sequences
  import opened Catalog
  import opened Sorting
  import opened Runs
  import opened Splice
  import opened Sorter

  const Nausea := Book("Nausea", "Jean-Paul Sartre", "", "", "", "", "")
  const Decay := Book("The Decay of the Angel", "Yukio Mishima", "", "", "", "", "")
  const Runaway := Book("Runaway Horses", "Yukio Mishima", "", "", "", "", "")
  const Spring := Book("Spring Snow", "Yukio Mishima", "", "", "", "", "")
  const Temple := Book("The Temple of Dawn", "Yukio Mishima", "", "", "", "", "")
  const Zhuangzi := Book("Zhuangzi", "Zhuang Zhou", "", "", "", "", "")

  /** The catalog after `sort_by_author`. */
  const Shelf := [Nausea, Decay, Runaway, Spring, Temple, Zhuangzi]

  /** The collection of main.c:14, in reading order. */
  const Tetralogy := ["Spring Snow", "Runaway Horses", "The Temple of Dawn", "The Decay of the Angel"]

  /** The catalog after `apply_collections`. */
  const Arranged := [Nausea, Spring, Runaway, Temple, Decay, Zhuangzi]

  /** `books` holds the records of `Shelf`, stated record by record so that the lemmas below
      reason about lookups step by step. */
  predicate OnShelf(books: seq<Book>) {
    |books| == 6 && books[0] == Nausea && books[1] == Decay && books[2] == Runaway
    && books[3] == Spring && books[4] == Temple && books[5] == Zhuangzi
  }

  /** A record whose field differs from the query, ignoring case, at `i` does not match. */
  lemma Misses(b: Book, f: BookField, query: string, i: nat)
    requires i < |query| && i < |FieldOf(b, f)| && LowerChar(query[i]) != LowerChar(FieldOf(b, f)[i])
    ensures !FieldMatches(b, f, query)
  {
    NotPrefixAt(ToLower(query), ToLower(FieldOf(b, f)), i);
  }

  /** A lookup passes over a record that does not match. */
  lemma SkipsOver(books: seq<Book>, f: BookField, query: string, i: nat)
    requires i < |books| && !FieldMatches(books[i], f, query)
    ensures FindFrom(books, f, query, i) == FindFrom(books, f, query, i + 1)
  {
  }

  /** A lookup stops at a record that matches. */
  lemma StopsAt(books: seq<Book>, f: BookField, query: string, i: nat)
    requires i < |books| && FieldMatches(books[i], f, query)
    ensures FindFrom(books, f, query, i) == i
  {
  }

  /** Where each lookup of the run lands. */
  lemma SpringSnowAt(books: seq<Book>)
    requires OnShelf(books)
    ensures FindFirst(books, Title, "Spring Snow") == 3
  {
    var q := "Spring Snow";
    Misses(books[0], Title, q, 0);
    Misses(books[1], Title, q, 0);
    Misses(books[2], Title, q, 0);
    FieldMatchesItself(books[3], Title);
    SkipsOver(books, Title, q, 0);
    SkipsOver(books, Title, q, 1);
    SkipsOver(books, Title, q, 2);
    StopsAt(books, Title, q, 3);
  }

  lemma RunawayHorsesAt(books: seq<Book>)
    requires OnShelf(books)
    ensures FindFirst(books, Title, "Runaway Horses") == 2
  {
    var q := "Runaway Horses";
    Misses(books[0], Title, q, 0);
    Misses(books[1], Title, q, 0);
    FieldMatchesItself(books[2], Title);
    SkipsOver(books, Title, q, 0);
    SkipsOver(books, Title, q, 1);
    StopsAt(books, Title, q, 2);
  }

  lemma TempleOfDawnAt(books: seq<Book>)
    requires OnShelf(books)
    ensures FindFirst(books, Title, "The Temple of Dawn") == 4
  {
    var q := "The Temple of Dawn";
    Misses(books[0], Title, q, 0);
    Misses(books[1], Title, q, 4);
    Misses(books[2], Title, q, 0);
    Misses(books[3], Title, q, 0);
    FieldMatchesItself(books[4], Title);
    SkipsOver(books, Title, q, 0);
    SkipsOver(books, Title, q, 1);
    SkipsOver(books, Title, q, 2);
    SkipsOver(books, Title, q, 3);
    StopsAt(books, Title, q, 4);
  }

  lemma DecayOfTheAngelAt(books: seq<Book>)
    requires OnShelf(books)
    ensures FindFirst(books, Title, "The Decay of the Angel") == 1
  {
    var q := "The Decay of the Angel";
    Misses(books[0], Title, q, 0);
    FieldMatchesItself(books[1], Title);
    SkipsOver(books, Title, q, 0);
    StopsAt(books, Title, q, 1);
  }

  lemma MishimaAt(books: seq<Book>)
    requires OnShelf(books)
    ensures FindFirst(books, Author, "Yukio Mishima") == 1
  {
    var q := "Yukio Mishima";
    Misses(books[0], Author, q, 0);
    FieldMatchesItself(books[1], Author);
    SkipsOver(books, Author, q, 0);
    StopsAt(books, Author, q, 1);
  }

  /** Mishima's records run from 1 to 4; Zhuangzi's author ends the span. */
  lemma MishimaSpanEnds(books: seq<Book>)
    requires OnShelf(books)
    ensures SpanEnd(books, "Yukio Mishima", 2) == Some(5)
  {
    PrefixReflexive("Yukio Mishima");
    NotPrefixAt("Yukio Mishima", Zhuangzi.author, 0);
    assert SpanEnd(books, "Yukio Mishima", 5) == Some(5);
    assert SpanEnd(books, "Yukio Mishima", 4) == Some(5);
    assert SpanEnd(books, "Yukio Mishima", 3) == Some(5);
  }

  /** The span of the collection's author: first title at 3, author from 1, four records. */
  lemma TetralogySpan(books: seq<Book>)
    requires OnShelf(books)
    ensures LocateSpan(books, "Spring Snow") == Ok(Span(3, 1, 4))
  {
    SpringSnowAt(books);
    MishimaAt(books);
    MishimaSpanEnds(books);
    LocateSpanFound(books, "Spring Snow", 3, "Yukio Mishima", 1, 4);
  }

  // ---------------------------------------------------------------------------------------
  // A catalog where the author is written in capitals on one record

  const Mask := Book("Confessions of a Mask", "Yukio Mishima", "", "", "", "", "")
  const Patriotism := Book("Patriotism", "YUKIO MISHIMA", "", "", "", "", "")

  /** A catalog `sort_by_author` may leave: the three authors share a key, so `qsort` may put
      them in any order. */
  predicate OnMixedShelf(books: seq<Book>) {
    |books| == 4 && books[0] == Mask && books[1] == Patriotism && books[2] == Spring
    && books[3] == Zhuangzi
  }

  lemma MixedSpringSnowAt(books: seq<Book>)
    requires OnMixedShelf(books)
    ensures FindFirst(books, Title, "Spring Snow") == 2
  {
    var q := "Spring Snow";
    Misses(books[0], Title, q, 0);
    Misses(books[1], Title, q, 0);
    FieldMatchesItself(books[2], Title);
    SkipsOver(books, Title, q, 0);
    SkipsOver(books, Title, q, 1);
    StopsAt(books, Title, q, 2);
  }

  lemma MixedMishimaAt(books: seq<Book>)
    requires OnMixedShelf(books)
    ensures FindFirst(books, Author, "Yukio Mishima") == 0
  {
    FieldMatchesItself(books[0], Author);
    StopsAt(books, Author, "Yukio Mishima", 0);
  }

  /** The case-sensitive run test stops at the author written in capitals. */
  lemma CapitalsEndRun(books: seq<Book>)
    requires OnMixedShelf(books)
    ensures SpanEnd(books, "Yukio Mishima", 1) == Some(1)
  {
    NotPrefixAt("Yukio Mishima", Patriotism.author, 1);
  }

  /** The lookups ignore case and the run test does not: the run found for "Spring Snow" stops
      at the record whose author is in capitals, so the title's own record lies after the run. */
  lemma FirstTitleOutsideRun(books: seq<Book>)
    requires OnMixedShelf(books)
    ensures LocateSpan(books, "Spring Snow") == Ok(Span(2, 0, 1))
  {
    var q, author := "Spring Snow", "Yukio Mishima";
    assert FindFirst(books, Title, q) == 2 && books[2].author == author && 1 < |books|
      && FindFirst(books, Author, author) == 0 && SpanEnd(books, author, 1) == Some(1) by {
      MixedSpringSnowAt(books);
      MixedMishimaAt(books);
      CapitalsEndRun(books);
    }
    LocateSpanFound(books, q, 2, author, 0, 1);
  }

  /** Of the span's titles only the first title of the collection is non-collected. */
  lemma TetralogyNonCollected(titles: seq<string>)
    requires |titles| == 4 && titles[0] == Decay.title && titles[1] == Runaway.title
    requires titles[2] == Spring.title && titles[3] == Temple.title
    ensures NonCollected(titles, Tetralogy) == ["Spring Snow"]
  {
    var p := NotInCollectionTail(Tetralogy);
    PrefixReflexive(Decay.title);
    PrefixReflexive(Runaway.title);
    PrefixReflexive(Temple.title);
    assert Tetralogy[3] == Decay.title && Tetralogy[1] == Runaway.title && Tetralogy[2] == Temple.title;
    NotPrefixAt("Spring Snow", Tetralogy[1], 0);
    NotPrefixAt("Spring Snow", Tetralogy[2], 0);
    NotPrefixAt("Spring Snow", Tetralogy[3], 0);
    assert !p(Decay.title) && !p(Runaway.title) && p(Spring.title) && !p(Temple.title);
    assert Filter(titles[3..], p) == [];
    assert Filter(titles[2..], p) == ["Spring Snow"];
    assert Filter(titles[1..], p) == ["Spring Snow"];
  }

  /** `Partition` from its two steps. */
  lemma PartitionFound(books: seq<Book>, c: seq<string>, s: Span, nc: seq<string>)
    requires |c| >= 1 && LocateSpan(books, c[0]) == Ok(s)
    requires NonCollected(SpanTitles(books, s), c) == nc && |nc| == s.len - |c| + 1
    ensures Partition(books, c) == Ok(Partitioned(s, nc))
  {
  }

  /** The partition step for the collection. */
  lemma TetralogyPartition(books: seq<Book>)
    requires OnShelf(books)
    ensures Partition(books, Tetralogy) == Ok(Partitioned(Span(3, 1, 4), ["Spring Snow"]))
  {
    TetralogySpan(books);
    var titles := SpanTitles(books, Span(3, 1, 4));
    assert |titles| == 4;
    assert titles[0] == Decay.title && titles[1] == Runaway.title;
    assert titles[2] == Spring.title && titles[3] == Temple.title;
    TetralogyNonCollected(titles);
    PartitionFound(books, Tetralogy, Span(3, 1, 4), ["Spring Snow"]);
  }

  /** A snapshot whose every title is found at the given index takes those records. */
  lemma SnapshotAt(books: seq<Book>, titles: seq<string>, at: seq<nat>, snap: seq<Book>)
    requires |at| == |titles| == |snap|
    requires forall j :: 0 <= j < |titles| ==> FindFirst(books, Title, titles[j]) == at[j]
    requires forall j :: 0 <= j < |at| ==> at[j] < |books| && books[at[j]] == snap[j]
    ensures Snapshot(books, titles) == Some(snap)
  {
    assert AllTitlesFound(books, titles);
    var r := Snapshot(books, titles).value;
    assert forall j :: 0 <= j < |r| ==> r[j] == snap[j];
    assert r == snap;
  }

  /** The records of the collection, in reading order. */
  lemma TetralogySnapshot(books: seq<Book>)
    requires OnShelf(books)
    ensures Snapshot(books, Tetralogy) == Some([Spring, Runaway, Temple, Decay])
  {
    var at := [3, 2, 4, 1];
    var snap := [Spring, Runaway, Temple, Decay];
    forall j | 0 <= j < 4
      ensures FindFirst(books, Title, Tetralogy[j]) == at[j] && at[j] < |books| && books[at[j]] == snap[j]
    {
      if j == 0 {
        SpringSnowAt(books);
      } else if j == 1 {
        RunawayHorsesAt(books);
      } else if j == 2 {
        TempleOfDawnAt(books);
      } else {
        DecayOfTheAngelAt(books);
      }
    }
    SnapshotAt(books, Tetralogy, at, snap);
  }

  /** Two catalogs of six records agreeing record by record are equal. */
  lemma SameSix(r: seq<Book>, a: seq<Book>)
    requires |r| == |a| == 6
    requires r[0] == a[0] && r[1] == a[1] && r[2] == a[2] && r[3] == a[3] && r[4] == a[4] && r[5] == a[5]
    ensures r == a
  {
  }

  /** A single title has one `qsort` outcome: itself. */
  lemma SingleOutcome(t: string, r: seq<string>)
    requires IsQsortOutcome([t], r, ByString)
    ensures r == [t]
  {
    assert |r| == |multiset(r)| == 1;
    assert r[0] in multiset(r);
  }

  /** The catalog with the collection's records written over Mishima's span. */
  lemma ArrangedFrom(books: seq<Book>, snap: seq<Book>)
    requires OnShelf(books) && snap == [Spring, Runaway, Temple, Decay]
    ensures books[..1] + snap + books[5..] == Arranged
  {
    var r := books[..1] + snap + books[5..];
    assert r[0] == Nausea && r[1] == Spring && r[2] == Runaway;
    assert r[3] == Temple && r[4] == Decay && r[5] == Zhuangzi;
    SameSix(r, Arranged);
  }

  /** One pass for the collection: its first title is the only non-collected one, so the
      whole collection takes its slot and the four records are written back in reading order. */
  lemma TetralogyApply(books: seq<Book>)
    requires OnShelf(books)
    ensures Apply(books, Tetralogy, ["Spring Snow"]) == Ok(Arranged)
  {
    TetralogyPartition(books);
    PrefixReflexive("Spring Snow");
    assert LastMatch(["Spring Snow"], "Spring Snow") == 0;
    StitchSingle("Spring Snow", Tetralogy);
    TetralogySnapshot(books);
    var snap := [Spring, Runaway, Temple, Decay];
    ApplyIsFinish(books, Tetralogy, ["Spring Snow"], Partitioned(Span(3, 1, 4), ["Spring Snow"]));
    assert Before(Span(3, 1, 4), ["Spring Snow"], "Spring Snow") == 0;
    FinishUnfold(books, Tetralogy, Span(3, 1, 4), ["Spring Snow"], 0, snap);
    ArrangedFrom(books, snap);
  }

  /** The only order `qsort` can leave for the collection is the one `TetralogyApply` uses. */
  lemma TetralogyOrder(books: seq<Book>, sorted: seq<string>)
    requires OnShelf(books) && QsortChoice(books, Tetralogy, sorted)
    ensures sorted == ["Spring Snow"]
  {
    TetralogyPartition(books);
    SingleOutcome("Spring Snow", sorted);
  }

  /** The run over the one collection, whatever order `qsort` was given. */
  lemma TetralogyRun(books: seq<Book>, orders: seq<seq<string>>)
    requires OnShelf(books) && |orders| == 1 && QsortOrders(books, [Tetralogy], orders)
    ensures ApplyAll(books, [Tetralogy], orders) == Ok(Arranged)
  {
    FoldOne(books, [Tetralogy], orders, Apply, QsortChoice);
    TetralogyOrder(books, orders[0]);
    TetralogyApply(books);
  }

  /** main.c:14-15 on the sorted catalog: the collection is registered and applied, and the
      catalog ends up with the four novels in reading order, the other authors untouched. */
  method MishimaRun() returns (added: Outcome, failure: Option<ApplyError>, after: seq<Book>)
    ensures added == Success && failure == None && after == Arranged
  {
    var library := new Library(Shelf);
    assert OnShelf(library.books);
    TetralogySnapshot(library.books);
    added := library.AddCollection(Tetralogy);
    ghost var orders;
    failure, orders := library.ApplyCollections();
    assert library.collections == [Tetralogy];
    TetralogyRun(Shelf, orders);
    after := library.books;
  }
}
