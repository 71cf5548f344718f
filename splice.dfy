/** What `apply_collections` (sorter.h:255-343) does to the catalog for one collection, as a
    function of the catalog, the collection's titles and the order `qsort` leaves the
    non-collected titles in. Every place where the source reads or writes out of bounds, or
    goes on with an unchecked -1, is an `ApplyError` here. */
module Splice {
  import opened Text
  import opened Sequences
  import opened Catalog
  import opened Sorting
  import opened Runs

  datatype ApplyError =
    | NoTitles              // sorter.h:263: a collection without titles has no `titles[0]`
    | FirstTitleMissing     // sorter.h:265: the lookup of the first title returns -1
    | SpanOverrun           // sorter.h:272-276: the span scan reaches the end of the catalog
    | NoncollectedMismatch  // sorter.h:279-303: the non-collected list is not span - num_titles + 1 long
    | BlockOutOfRange       // sorter.h:281-282: the first title sits past the non-collected list
    | SnapshotTitleMissing  // sorter.h:330-333: a stitched title is not found

  /** Where the collection's author sits: the record of its first title, the first record of
      the author and the number of records in the author's span. */
  datatype Span = Span(first: nat, start: nat, len: nat)

  /** The span scan of sorter.h:270-276 from index `j` on: the first record whose author does
      not start with `author`; `None` when every record to the end does, where the source reads
      past the catalog. */
  function SpanEnd(books: seq<Book>, author: string, j: nat): (r: Option<nat>)
    requires j <= |books|
    ensures r.Some? ==> j <= r.value < |books| && !IsPrefix(author, books[r.value].author)
    ensures r.Some? ==> forall m :: j <= m < r.value ==> IsPrefix(author, books[m].author)
    ensures r.None? ==> forall m :: j <= m < |books| ==> IsPrefix(author, books[m].author)
    decreases |books| - j
  {
    if j == |books| then None
    else if !IsPrefix(author, books[j].author) then Some(j)
    else SpanEnd(books, author, j + 1)
  }

  /** Every record matches a lookup of its own field. */
  lemma FieldMatchesItself(b: Book, f: BookField)
    ensures FieldMatches(b, f, FieldOf(b, f))
  {
    PrefixReflexive(ToLower(FieldOf(b, f)));
  }

  /** sorter.h:265-277: the record of the first title (`get_idx_by_title`), the first record
      whose author matches that record's author (`get_idx_by_author`), and the run of records
      from there whose author starts with it, case-sensitively. The lookups ignore case and the
      run test does not, so the first title's record need not lie inside the run. */
  function LocateSpan(books: seq<Book>, firstTitle: string): (r: Result<Span, ApplyError>)
    ensures r.Err? ==> r.error == FirstTitleMissing || r.error == SpanOverrun
    ensures r.Ok? ==> r.value.start <= r.value.first < |books|
    ensures r.Ok? ==> 1 <= r.value.len && r.value.start + r.value.len < |books|
    ensures r.Ok? ==> r.value.first == FindFirst(books, Title, firstTitle)
  {
    var fti := FindFirst(books, Title, firstTitle);
    if fti == -1 then Err(FirstTitleMissing)
    else
      var author := books[fti].author;
      FieldMatchesItself(books[fti], Author);
      var start := FindFirst(books, Author, author);
      match SpanEnd(books, author, start + 1)
      case None => Err(SpanOverrun)
      case Some(end) => Ok(Span(fti, start, end - start))
  }

  /** `LocateSpan` fails exactly when the first title is not found, or when the run of its
      author reaches the end of the catalog. */
  lemma LocateSpanErrors(books: seq<Book>, firstTitle: string)
    ensures LocateSpan(books, firstTitle) == Err(FirstTitleMissing) <==> FindFirst(books, Title, firstTitle) == -1
    ensures var fti := FindFirst(books, Title, firstTitle);
      fti >= 0 ==>
        (LocateSpan(books, firstTitle) == Err(SpanOverrun) <==>
         SpanEnd(books, books[fti].author, FindFirst(books, Author, books[fti].author) + 1).None?)
  {
    var fti := FindFirst(books, Title, firstTitle);
    if fti >= 0 {
      OwnAuthorFound(books, fti);
    }
  }

  /** A span `LocateSpan` reports starts at the first record matching the first title's
      author, and holds the records from there whose author starts with it, compared
      case-sensitively, up to the first that does not. */
  lemma LocateSpanRun(books: seq<Book>, firstTitle: string, s: Span)
    requires LocateSpan(books, firstTitle) == Ok(s)
    ensures s.first == FindFirst(books, Title, firstTitle)
    ensures s.start == FindFirst(books, Author, books[s.first].author)
    ensures forall k :: s.start < k < s.start + s.len ==> IsPrefix(books[s.first].author, books[k].author)
    ensures !IsPrefix(books[s.first].author, books[s.start + s.len].author)
  {
    var fti := FindFirst(books, Title, firstTitle);
    LocateSpanErrors(books, firstTitle);
    OwnAuthorFound(books, fti);
    var author := books[fti].author;
    var start := FindFirst(books, Author, author);
    var run := SpanEnd(books, author, start + 1);
    var end := run.value;
    LocateSpanFound(books, firstTitle, fti, author, start, end - start);
    assert s == Span(fti, start, end - start);
    assert s.first == fti && s.start + s.len == end;
    assert !IsPrefix(author, books[end].author);
  }

  /** A record's own author finds a record no later than it. */
  lemma OwnAuthorFound(books: seq<Book>, i: nat)
    requires i < |books|
    ensures 0 <= FindFirst(books, Author, books[i].author) <= i
  {
    FieldMatchesItself(books[i], Author);
  }

  /** The span `LocateSpan` reports, from its three steps. */
  lemma LocateSpanFound(books: seq<Book>, first: string, fti: nat, author: string, start: nat, span: nat)
    requires fti == FindFirst(books, Title, first) && fti < |books| && books[fti].author == author
    requires start == FindFirst(books, Author, author) && start + span < |books|
    requires SpanEnd(books, author, start + 1) == Some(start + span)
    ensures LocateSpan(books, first) == Ok(Span(fti, start, span))
  {
    var r := LocateSpan(books, first);
    assert r.Ok?;
    assert r.value.start == start;
    assert r.value.first == fti;
    assert r.value.len == span;
  }

  /** The overrun `LocateSpan` reports when the run reaches the end of the catalog. */
  lemma LocateSpanOverrun(books: seq<Book>, first: string, fti: nat, author: string, start: nat)
    requires fti == FindFirst(books, Title, first) && fti < |books| && books[fti].author == author
    requires start == FindFirst(books, Author, author) && start < |books|
    requires SpanEnd(books, author, start + 1).None?
    ensures LocateSpan(books, first) == Err(SpanOverrun)
  {
  }

  /** The titles of the span, in catalog order. */
  function SpanTitles(books: seq<Book>, s: Span): (r: seq<string>)
    requires s.start + s.len <= |books|
    ensures |r| == s.len && forall j :: 0 <= j < s.len ==> r[j] == books[s.start + j].title
  {
    seq(s.len, j requires 0 <= j < s.len => books[s.start + j].title)
  }

  /** The test of sorter.h:289-292: the span title is a prefix of one of the collection's
      titles after the first. */
  predicate InCollectionTail(title: string, c: seq<string>) {
    exists k :: 1 <= k < |c| && IsPrefix(title, c[k])
  }

  function NotInCollectionTail(c: seq<string>): string -> bool {
    t => !InCollectionTail(t, c)
  }

  function InTail(c: seq<string>): string -> bool {
    t => InCollectionTail(t, c)
  }

  /** `noncollected_titles` (sorter.h:284-300): the span titles not in the collection's tail,
      in span order; the first title of the collection stays among them. */
  function NonCollected(titles: seq<string>, c: seq<string>): (r: seq<string>)
    ensures |r| <= |titles|
    ensures forall t :: t in r <==> t in titles && !InCollectionTail(t, c)
  {
    Filter(titles, NotInCollectionTail(c))
  }

  /** The stage before the sort: the span and its non-collected titles. */
  datatype Partitioned = Partitioned(span: Span, nonCollected: seq<string>)

  /** sorter.h:265-300. The source sizes `noncollected_titles` as `span - num_titles + 1` and
      fills it at `j - collected_titles_found`; any other number of non-collected titles
      overruns the array or leaves entries unset for `qsort`. */
  function Partition(books: seq<Book>, c: seq<string>): (r: Result<Partitioned, ApplyError>)
    requires |c| >= 1
    ensures r.Ok? ==> LocateSpan(books, c[0]) == Ok(r.value.span)
    ensures r.Ok? ==> r.value.span.start <= r.value.span.first && r.value.span.start + r.value.span.len <= |books|
    ensures r.Ok? ==> |r.value.nonCollected| == r.value.span.len - |c| + 1
    ensures r.Ok? ==> r.value.nonCollected == NonCollected(SpanTitles(books, r.value.span), c)
    ensures LocateSpan(books, c[0]).Err? ==> r == Err(LocateSpan(books, c[0]).error)
  {
    match LocateSpan(books, c[0])
    case Err(e) => Err(e)
    case Ok(s) =>
      var nc := NonCollected(SpanTitles(books, s), c);
      if |nc| != s.len - |c| + 1 then Err(NoncollectedMismatch)
      else Ok(Partitioned(s, nc))
  }

  /** sorter.h:305-310: the last sorted title that has the first collection title as a prefix,
      or -1. */
  function LastMatch(sorted: seq<string>, first: string): (r: int)
    ensures -1 <= r < |sorted|
    ensures r >= 0 ==> IsPrefix(first, sorted[r])
    ensures forall j :: r < j < |sorted| ==> !IsPrefix(first, sorted[j])
  {
    if sorted == [] then -1
    else if IsPrefix(first, sorted[|sorted| - 1]) then |sorted| - 1
    else LastMatch(sorted[..|sorted| - 1], first)
  }

  /** `num_titles_before` after sorter.h:281 and 305-310: the first title's slot among the sorted
      non-collected titles, or else its distance from the author's first record. */
  function Before(s: Span, sorted: seq<string>, first: string): (b: nat)
    requires s.start <= s.first
    ensures LastMatch(sorted, first) >= 0 ==> b == LastMatch(sorted, first)
    ensures LastMatch(sorted, first) < 0 ==> b == s.first - s.start
  {
    var m := LastMatch(sorted, first);
    if m >= 0 then m else s.first - s.start
  }

  /** `collected_titles` (sorter.h:313-325): the sorted non-collected titles with the slot
      `before` replaced by the whole collection. */
  function Stitch(sorted: seq<string>, c: seq<string>, before: nat): (r: seq<string>)
    requires before < |sorted|
    ensures |r| == |sorted| - 1 + |c|
  {
    sorted[..before] + c + sorted[before + 1..]
  }

  /** With one sorted title, the stitched order is the collection itself. */
  lemma StitchSingle(t: string, c: seq<string>)
    ensures Stitch([t], c, 0) == c
  {
    assert [t][..0] == [] && [t][1..] == [];
  }

  /** The stitched order is the sorted titles before the slot, the whole collection, and the
      sorted titles after the slot. */
  lemma StitchParts(sorted: seq<string>, c: seq<string>, before: nat)
    requires before < |sorted|
    ensures var r := Stitch(sorted, c, before);
      && r[..before] == sorted[..before]
      && r[before..before + |c|] == c
      && r[before + |c|..] == sorted[before + 1..]
  {
  }

  /** The catalog record `get_by[TITLE]` finds for a title, or an empty record when there is
      none (the caller checks first). */
  function RecordTitled(books: seq<Book>, t: string): Book {
    var i := FindFirst(books, Title, t);
    if i >= 0 then books[i] else Book("", "", "", "", "", "", "")
  }

  function TitleLookup(books: seq<Book>): string -> Book {
    t => RecordTitled(books, t)
  }

  predicate AllTitlesFound(books: seq<Book>, titles: seq<string>) {
    forall j :: 0 <= j < |titles| ==> FindFirst(books, Title, titles[j]) >= 0
  }

  /** `collected_titles_in_book_form` (sorter.h:328-334): a copy of the record of each stitched
      title, all taken before anything is overwritten. */
  function Snapshot(books: seq<Book>, titles: seq<string>): (r: Option<seq<Book>>)
    ensures r.Some? <==> AllTitlesFound(books, titles)
    ensures r.Some? ==> |r.value| == |titles|
    ensures r.Some? ==> forall j :: 0 <= j < |titles| ==>
      r.value[j] == books[FindFirst(books, Title, titles[j])]
  {
    if AllTitlesFound(books, titles) then Some(Map(titles, TitleLookup(books))) else None
  }

  /** One pass of the loop of `apply_collections`, given the order `sorted` that `qsort`
      produced for the non-collected titles. */
  function Apply(books: seq<Book>, c: seq<string>, sorted: seq<string>): (r: Result<seq<Book>, ApplyError>)
    ensures r.Ok? ==> |c| >= 1 && Partition(books, c).Ok?
  {
    if |c| == 0 then Err(NoTitles)
    else match Partition(books, c)
    case Err(e) => Err(e)
    case Ok(p) => Finish(books, c, p.span, sorted)
  }

  /** sorter.h:305-339 once the non-collected titles are sorted: the slot of the first title,
      the stitched order, the snapshot of its records and the write-back over the span. */
  function Finish(books: seq<Book>, c: seq<string>, s: Span, sorted: seq<string>): (r: Result<seq<Book>, ApplyError>)
    requires |c| >= 1 && s.start <= s.first && s.start + s.len <= |books|
  {
    var before := Before(s, sorted, c[0]);
    if before >= |sorted| then Err(BlockOutOfRange)
    else
      match Snapshot(books, Stitch(sorted, c, before))
      case None => Err(SnapshotTitleMissing)
      case Some(snap) => Ok(books[..s.start] + snap + books[s.start + s.len..])
  }

  /** The loop of `apply_collections` (sorter.h:262-341): `Apply` for every collection in
      turn, collection `k` with the order `orders[k]`, up to the first error. */
  function ApplyAll(books: seq<Book>, cs: seq<seq<string>>, orders: seq<seq<string>>): (r: Result<seq<Book>, ApplyError>)
    requires |orders| == |cs|
    ensures cs == [] ==> r == Ok(books)
  {
    Fold(books, cs, orders, Apply)
  }

  /** `sorted` is an order `qsort` may leave the non-collected titles of `c` in. */
  ghost predicate QsortChoice(books: seq<Book>, c: seq<string>, sorted: seq<string>) {
    |c| >= 1 && Partition(books, c).Ok? ==> IsQsortOutcome(Partition(books, c).value.nonCollected, sorted, ByString)
  }

  /** Each order in `orders` is one `qsort` may produce for the non-collected titles of its
      collection, in the catalog the collections before it left behind. */
  ghost predicate QsortOrders(books: seq<Book>, cs: seq<seq<string>>, orders: seq<seq<string>>)
    requires |orders| == |cs|
  {
    ChosenThroughout(books, cs, orders, Apply, QsortChoice)
  }

  // ---------------------------------------------------------------------------------------
  // What a collection does to a catalog whose titles identify its records

  /** No record's lower-cased title is a prefix of another's, so every title lookup finds
      exactly the record carrying that title. */
  predicate TitlesPrefixFree(books: seq<Book>) {
    forall i, j :: 0 <= i < |books| && 0 <= j < |books| && i != j ==> !LowerTitlePrefix(books, i, j)
  }

  /** The lower-cased title of record `i` is a prefix of that of record `j`. */
  predicate LowerTitlePrefix(books: seq<Book>, i: nat, j: nat)
    requires i < |books| && j < |books|
  {
    IsPrefix(ToLower(books[i].title), ToLower(books[j].title))
  }

  lemma TitlePrefixSameRecord(books: seq<Book>, i: nat, j: nat)
    requires TitlesPrefixFree(books) && i < |books| && j < |books|
    requires IsPrefix(books[i].title, books[j].title)
    ensures i == j
  {
    ToLowerKeepsPrefix(books[i].title, books[j].title);
    assert LowerTitlePrefix(books, i, j);
  }

  lemma FindTitleExact(books: seq<Book>, i: nat)
    requires TitlesPrefixFree(books) && i < |books|
    ensures FindFirst(books, Title, books[i].title) == i
    ensures RecordTitled(books, books[i].title) == books[i]
  {
    FieldMatchesItself(books[i], Title);
    var r := FindFirst(books, Title, books[i].title);
    if r < i {
      assert LowerTitlePrefix(books, i, r);
    }
  }

  lemma SpanTitlesDistinct(books: seq<Book>, s: Span)
    requires TitlesPrefixFree(books) && s.start + s.len <= |books|
    ensures Distinct(SpanTitles(books, s))
  {
    var titles := SpanTitles(books, s);
    forall i, j | 0 <= i < |titles| && 0 <= j < |titles| && i != j
      ensures titles[i] != titles[j]
    {
      if titles[i] == titles[j] {
        PrefixReflexive(titles[i]);
        TitlePrefixSameRecord(books, s.start + i, s.start + j);
      }
    }
  }

  /** A span title whose title is the prefix of another span title is that title. */
  lemma SpanTitlePrefixEqual(books: seq<Book>, s: Span, t: string, u: string)
    requires TitlesPrefixFree(books) && s.start + s.len <= |books|
    requires t in SpanTitles(books, s) && u in SpanTitles(books, s)
    requires IsPrefix(t, u)
    ensures t == u
  {
    var titles := SpanTitles(books, s);
    var i :| 0 <= i < |titles| && titles[i] == t;
    var j :| 0 <= j < |titles| && titles[j] == u;
    TitlePrefixSameRecord(books, s.start + i, s.start + j);
  }

  /** The hypotheses under which `apply_collections` does what its comments intend: titles
      identify records, the collection has no repeated title and lies inside its author's span,
      the span does not run to the end of the catalog, and `sorted` is a `qsort` outcome for
      the non-collected titles. */
  ghost predicate SpliceReady(books: seq<Book>, c: seq<string>, sorted: seq<string>) {
    |c| >= 1 && TitlesPrefixFree(books) && Distinct(c) && LocateSpan(books, c[0]).Ok?
    && (forall k :: 0 <= k < |c| ==> c[k] in SpanTitles(books, LocateSpan(books, c[0]).value))
    && IsQsortOutcome(NonCollected(SpanTitles(books, LocateSpan(books, c[0]).value), c), sorted, ByString)
  }

  /** With titles identifying records, the prefix test of sorter.h:291 is membership. */
  lemma TailIsMembership(books: seq<Book>, c: seq<string>, sorted: seq<string>, t: string)
    requires SpliceReady(books, c, sorted)
    requires t in SpanTitles(books, LocateSpan(books, c[0]).value)
    ensures InCollectionTail(t, c) <==> t in c[1..]
  {
    var s := LocateSpan(books, c[0]).value;
    if InCollectionTail(t, c) {
      var k :| 1 <= k < |c| && IsPrefix(t, c[k]);
      SpanTitlePrefixEqual(books, s, t, c[k]);
      assert c[1..][k - 1] == c[k];
    }
    if t in c[1..] {
      var k :| 0 <= k < |c| - 1 && c[1..][k] == t;
      PrefixReflexive(t);
      assert IsPrefix(t, c[k + 1]);
    }
  }

  /** The tail of a collection of distinct titles, all among `titles`, is distinct and among
      `titles` too. */
  lemma TailOfCollection(c: seq<string>, titles: seq<string>)
    requires |c| >= 1 && Distinct(c)
    requires forall k :: 0 <= k < |c| ==> c[k] in titles
    ensures Distinct(c[1..])
    ensures forall x :: x in c[1..] ==> x in titles
  {
    forall i, j | 0 <= i < |c| - 1 && 0 <= j < |c| - 1 && i != j
      ensures c[1..][i] != c[1..][j]
    {
      assert c[1..][i] == c[i + 1] && c[1..][j] == c[j + 1];
    }
    forall x | x in c[1..]
      ensures x in titles
    {
      var k :| 0 <= k < |c| - 1 && c[1..][k] == x;
      assert c[k + 1] == x;
    }
  }

  /** The span titles split into the non-collected ones and the collection's tail, so the
      non-collected list has the size the source allocates for it. */
  lemma PartitionSplits(books: seq<Book>, c: seq<string>, sorted: seq<string>)
    requires SpliceReady(books, c, sorted)
    ensures var titles := SpanTitles(books, LocateSpan(books, c[0]).value);
      multiset(titles) == multiset(NonCollected(titles, c)) + multiset(c[1..])
    ensures Partition(books, c).Ok?
  {
    var s := LocateSpan(books, c[0]).value;
    var titles := SpanTitles(books, s);
    SpanTitlesDistinct(books, s);
    TailOfCollection(c, titles);
    forall x | x in titles
      ensures InTail(c)(x) <==> x in c[1..]
    {
      TailIsMembership(books, c, sorted, x);
    }
    FilterExact(titles, InTail(c), c[1..]);
    FilterComplement(titles, NotInCollectionTail(c), InTail(c));
    assert |multiset(titles)| == |multiset(NonCollected(titles, c))| + |multiset(c[1..])|;
  }

  /** The first collection title is among the sorted non-collected titles exactly once, and
      the last-match scan of sorter.h:305-310 finds it. */
  lemma FirstTitleSlot(books: seq<Book>, c: seq<string>, sorted: seq<string>)
    requires SpliceReady(books, c, sorted)
    ensures 0 <= LastMatch(sorted, c[0]) && sorted[LastMatch(sorted, c[0])] == c[0]
    ensures Distinct(sorted)
    ensures forall t :: t in sorted ==> t in SpanTitles(books, LocateSpan(books, c[0]).value)
  {
    var s := LocateSpan(books, c[0]).value;
    var titles := SpanTitles(books, s);
    var nc := NonCollected(titles, c);
    SpanTitlesDistinct(books, s);
    FilterDistinct(titles, NotInCollectionTail(c));
    DistinctPermutation(nc, sorted);
    forall t | t in sorted
      ensures t in titles
    {
      assert t in multiset(nc);
    }
    assert c[0] in titles;
    TailIsMembership(books, c, sorted, c[0]);
    assert c[0] !in c[1..] by {
      forall k | 0 <= k < |c| - 1
        ensures c[1..][k] != c[0]
      {
        assert c[1..][k] == c[k + 1];
      }
    }
    assert c[0] in multiset(sorted);
    var j :| 0 <= j < |sorted| && sorted[j] == c[0];
    PrefixReflexive(c[0]);
    var m := LastMatch(sorted, c[0]);
    SpanTitlePrefixEqual(books, s, c[0], sorted[m]);
  }

  /** The stitched order holds the span titles, rearranged. */
  lemma StitchPermutes(titles: seq<string>, nc: seq<string>, sorted: seq<string>, c: seq<string>, m: nat)
    requires |c| >= 1 && m < |sorted| && sorted[m] == c[0]
    requires multiset(sorted) == multiset(nc)
    requires multiset(titles) == multiset(nc) + multiset(c[1..])
    ensures multiset(Stitch(sorted, c, m)) == multiset(titles)
  {
    assert sorted == sorted[..m] + [c[0]] + sorted[m + 1..];
    assert c == [c[0]] + c[1..];
    assert Stitch(sorted, c, m) == sorted[..m] + [c[0]] + c[1..] + sorted[m + 1..];
  }

  /** The span holds the collection's titles, in order, from `before` on, and with the
      collection's tail taken out the span is in title order: the records before the block,
      the block's first record and the records after the block. */
  predicate HoldsBlock(span: seq<Book>, c: seq<string>, before: nat) {
    1 <= |c| && before + |c| <= |span|
    && (forall i :: 0 <= i < |c| ==> span[before + i].title == c[i])
    && AdjacentSorted(span[..before + 1] + span[before + |c|..], ByTitle)
  }

  /** Records carrying titles in `qsort` order are in title order. */
  lemma TitlesInOrder(records: seq<Book>, titles: seq<string>)
    requires |records| == |titles| && AdjacentSorted(titles, ByString)
    requires forall j :: 0 <= j < |titles| ==> records[j].title == titles[j]
    ensures AdjacentSorted(records, ByTitle)
  {
  }

  /** Records carrying the stitched titles hold the collection as a block. */
  lemma StitchedBlock(records: seq<Book>, sorted: seq<string>, c: seq<string>, m: nat)
    requires |c| >= 1 && m < |sorted| && sorted[m] == c[0] && AdjacentSorted(sorted, ByString)
    requires |records| == |Stitch(sorted, c, m)|
    requires forall j :: 0 <= j < |records| ==> records[j].title == Stitch(sorted, c, m)[j]
    ensures HoldsBlock(records, c, m)
  {
    var order := Stitch(sorted, c, m);
    StitchParts(sorted, c, m);
    forall i | 0 <= i < |c|
      ensures records[m + i].title == c[i]
    {
      assert order[m + i] == order[m..m + |c|][i];
    }
    var outside := records[..m + 1] + records[m + |c|..];
    forall j | 0 <= j < |outside|
      ensures outside[j].title == sorted[j]
    {
      if j < m {
        assert order[j] == order[..m][j];
      } else if j > m {
        var k := j + |c| - 1;
        assert outside[j] == records[k];
        assert order[k] == order[m + |c|..][k - m - |c|];
      }
    }
    TitlesInOrder(outside, sorted);
  }

  /** Once the partition succeeds, `Apply` is `Finish` on its span. */
  lemma ApplyIsFinish(books: seq<Book>, c: seq<string>, sorted: seq<string>, p: Partitioned)
    requires |c| >= 1 && Partition(books, c) == Ok(p)
    ensures p.span.start <= p.span.first && p.span.start + p.span.len <= |books|
    ensures Apply(books, c, sorted) == Finish(books, c, p.span, sorted)
  {
  }

  /** Unfolds `Finish` once the slot and the snapshot are known. */
  lemma FinishUnfold(books: seq<Book>, c: seq<string>, s: Span, sorted: seq<string>, m: nat, snap: seq<Book>)
    requires |c| >= 1 && s.start <= s.first && s.start + s.len <= |books|
    requires Before(s, sorted, c[0]) == m && m < |sorted|
    requires Snapshot(books, Stitch(sorted, c, m)) == Some(snap)
    ensures Finish(books, c, s, sorted) == Ok(books[..s.start] + snap + books[s.start + s.len..])
  {
    var nb := books[..s.start] + snap + books[s.start + s.len..];
    assert Finish(books, c, s, sorted) == Ok(nb);
  }

  /** The slot, the stitched order and its snapshot, when the hypotheses hold. */
  lemma StitchFacts(books: seq<Book>, c: seq<string>, sorted: seq<string>)
    requires SpliceReady(books, c, sorted)
    ensures Partition(books, c).Ok? && |sorted| == |Partition(books, c).value.nonCollected|
    ensures var m := LastMatch(sorted, c[0]);
      && 0 <= m < |sorted| && sorted[m] == c[0]
      && multiset(Stitch(sorted, c, m)) == multiset(SpanTitles(books, LocateSpan(books, c[0]).value))
  {
    var s := LocateSpan(books, c[0]).value;
    var titles := SpanTitles(books, s);
    PartitionSplits(books, c, sorted);
    FirstTitleSlot(books, c, sorted);
    var m := LastMatch(sorted, c[0]);
    StitchPermutes(titles, NonCollected(titles, c), sorted, c, m);
  }

  /** `nb` is `books` with only the span `s` changed: the span holds the same records,
      rearranged, with the collection `c` as a block from `before` on, and the block's first
      record together with the records around the block in title order. */
  predicate SplicedSpan(books: seq<Book>, s: Span, c: seq<string>, nb: seq<Book>, before: nat) {
    s.start + s.len <= |books| == |nb|
    && nb[..s.start] == books[..s.start]
    && nb[s.start + s.len..] == books[s.start + s.len..]
    && multiset(nb[s.start..s.start + s.len]) == multiset(books[s.start..s.start + s.len])
    && HoldsBlock(nb[s.start..s.start + s.len], c, before)
  }

  /** The theorem of `apply_collections` for one collection: it succeeds, touches only the
      author's span, leaves the span a rearrangement of its old records, and puts the
      collection's titles in a block in their given order at the slot of the first title among
      the sorted non-collected titles, so that the titles before the block, the first title and
      the titles after the block stay in `qsort` order. */
  lemma ApplyRearrangesSpan(books: seq<Book>, c: seq<string>, sorted: seq<string>)
    returns (nb: seq<Book>, before: nat)
    requires SpliceReady(books, c, sorted)
    ensures Partition(books, c).Ok? && |sorted| == |Partition(books, c).value.nonCollected|
    ensures before == LastMatch(sorted, c[0]) && sorted[before] == c[0]
    ensures Apply(books, c, sorted) == Ok(nb)
    ensures SplicedSpan(books, Partition(books, c).value.span, c, nb, before)
  {
    StitchFacts(books, c, sorted);
    var p := Partition(books, c).value;
    before := LastMatch(sorted, c[0]);
    assert AdjacentSorted(sorted, ByString);
    nb := SpliceAtSlot(books, c, sorted, p, before);
  }

  /** A partitioned collection whose first title holds the slot `m` of the sorted
      non-collected titles is spliced in at `m`. */
  lemma SpliceAtSlot(books: seq<Book>, c: seq<string>, sorted: seq<string>, p: Partitioned, m: nat)
    returns (nb: seq<Book>)
    requires |c| >= 1 && Partition(books, c) == Ok(p) && TitlesPrefixFree(books)
    requires m == LastMatch(sorted, c[0]) && m < |sorted| && sorted[m] == c[0]
    requires AdjacentSorted(sorted, ByString)
    requires multiset(Stitch(sorted, c, m)) == multiset(SpanTitles(books, p.span))
    ensures Apply(books, c, sorted) == Ok(nb)
    ensures SplicedSpan(books, p.span, c, nb, m)
  {
    var snap := SnapshotOfStitch(books, p.span, c, sorted, m);
    nb := ApplyAtSlot(books, c, sorted, p, m, snap);
  }

  /** Once the slot and the snapshot are known, `Apply` writes the snapshot over the span. */
  lemma ApplyAtSlot(books: seq<Book>, c: seq<string>, sorted: seq<string>, p: Partitioned, m: nat, snap: seq<Book>)
    returns (nb: seq<Book>)
    requires |c| >= 1 && Partition(books, c) == Ok(p)
    requires m == LastMatch(sorted, c[0]) && m < |sorted|
    requires Snapshot(books, Stitch(sorted, c, m)) == Some(snap)
    ensures p.span.start + p.span.len <= |books|
    ensures nb == books[..p.span.start] + snap + books[p.span.start + p.span.len..]
    ensures Apply(books, c, sorted) == Ok(nb)
  {
    ApplyIsFinish(books, c, sorted, p);
    nb := books[..p.span.start] + snap + books[p.span.start + p.span.len..];
    FinishAtSlot(books, c, p.span, sorted, m, snap, nb);
  }

  /** `Finish` with the slot `m` the last-match scan finds writes the snapshot over the span. */
  lemma FinishAtSlot(books: seq<Book>, c: seq<string>, s: Span, sorted: seq<string>, m: nat, snap: seq<Book>, nb: seq<Book>)
    requires |c| >= 1 && s.start <= s.first && s.start + s.len <= |books|
    requires m == LastMatch(sorted, c[0]) && m < |sorted|
    requires Snapshot(books, Stitch(sorted, c, m)) == Some(snap)
    requires nb == books[..s.start] + snap + books[s.start + s.len..]
    ensures Finish(books, c, s, sorted) == Ok(nb)
  {
    assert Before(s, sorted, c[0]) == m;
    FinishUnfold(books, c, s, sorted, m, snap);
  }

  /** The snapshot of the stitched order, written over the span, splices the collection in. */
  lemma SnapshotOfStitch(books: seq<Book>, s: Span, c: seq<string>, sorted: seq<string>, m: nat)
    returns (snap: seq<Book>)
    requires TitlesPrefixFree(books) && s.start + s.len <= |books|
    requires |c| >= 1 && m < |sorted| && sorted[m] == c[0] && AdjacentSorted(sorted, ByString)
    requires multiset(Stitch(sorted, c, m)) == multiset(SpanTitles(books, s))
    ensures Snapshot(books, Stitch(sorted, c, m)) == Some(snap)
    ensures SplicedSpan(books, s, c, books[..s.start] + snap + books[s.start + s.len..], m)
  {
    var order := Stitch(sorted, c, m);
    assert |order| == |multiset(order)| == s.len;
    SnapshotFound(books, s, order);
    snap := Map(order, TitleLookup(books));
    SnapshotTitles(books, s, order);
    SnapshotPermutes(books, s, order);
    StitchedBlock(snap, sorted, c, m);
    SplicedFrom(books, s, c, snap, m);
  }

  /** Writing a rearrangement of the span that holds the block over the span splices it in. */
  lemma SplicedFrom(books: seq<Book>, s: Span, c: seq<string>, snap: seq<Book>, m: nat)
    requires s.start + s.len <= |books| && |snap| == s.len
    requires multiset(snap) == multiset(books[s.start..s.start + s.len])
    requires HoldsBlock(snap, c, m)
    ensures SplicedSpan(books, s, c, books[..s.start] + snap + books[s.start + s.len..], m)
  {
    var nb := books[..s.start] + snap + books[s.start + s.len..];
    assert nb[s.start..s.start + s.len] == snap;
  }

  /** Every title of a reordering of the span titles is found. */
  lemma SnapshotFound(books: seq<Book>, s: Span, order: seq<string>)
    requires TitlesPrefixFree(books) && s.start + s.len <= |books|
    requires multiset(order) == multiset(SpanTitles(books, s))
    ensures Snapshot(books, order) == Some(Map(order, TitleLookup(books)))
  {
    var titles := SpanTitles(books, s);
    forall j | 0 <= j < |order|
      ensures FindFirst(books, Title, order[j]) >= 0
    {
      assert order[j] in multiset(titles);
      var i :| 0 <= i < |titles| && titles[i] == order[j];
      FindTitleExact(books, s.start + i);
    }
  }

  /** The record found for each span title carries that title. */
  lemma SnapshotTitles(books: seq<Book>, s: Span, order: seq<string>)
    requires TitlesPrefixFree(books) && s.start + s.len <= |books|
    requires multiset(order) == multiset(SpanTitles(books, s))
    ensures forall j :: 0 <= j < |order| ==> Map(order, TitleLookup(books))[j].title == order[j]
  {
    var titles := SpanTitles(books, s);
    forall j | 0 <= j < |order|
      ensures RecordTitled(books, order[j]).title == order[j]
    {
      assert order[j] in multiset(titles);
      var i :| 0 <= i < |titles| && titles[i] == order[j];
      FindTitleExact(books, s.start + i);
    }
  }

  /** The records found for a reordering of the span titles are a reordering of the span. */
  lemma SnapshotPermutes(books: seq<Book>, s: Span, order: seq<string>)
    requires TitlesPrefixFree(books) && s.start + s.len <= |books|
    requires multiset(order) == multiset(SpanTitles(books, s))
    ensures multiset(Map(order, TitleLookup(books))) == multiset(books[s.start..s.start + s.len])
  {
    SpanRecords(books, s);
    MapPermutation(order, SpanTitles(books, s), TitleLookup(books));
  }

  /** Looking up each span title gives back the span. */
  lemma SpanRecords(books: seq<Book>, s: Span)
    requires TitlesPrefixFree(books) && s.start + s.len <= |books|
    ensures Map(SpanTitles(books, s), TitleLookup(books)) == books[s.start..s.start + s.len]
  {
    var titles := SpanTitles(books, s);
    forall j | 0 <= j < s.len
      ensures RecordTitled(books, titles[j]) == books[s.start + j]
    {
      FindTitleExact(books, s.start + j);
    }
  }
}
