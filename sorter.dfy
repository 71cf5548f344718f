/** The `Library` of sorter.h:43-51 and the three steps main.c runs on it: `sort_by_author`
    (sorter.h:172-218), `add_collection` (sorter.h:220-253) and `apply_collections`
    (sorter.h:255-343). The counts `num_books` and `num_collections` are the lengths of the
    sequences; the capacities belong to the memory management, which is not modelled. */
module Sorter {
  import opened Text
  import opened Sequences
  import opened Catalog
  import opened Sorting
  import opened AuthorSort
  import opened Runs
  import opened Splice

  /** How `add_collection` ends: by returning, or by `exit(code)`. */
  datatype Outcome = Success | Exit(code: int)

  /** The status a shell sees for `exit(code)`: the low eight bits of the code. */
  function ExitStatus(code: int): (status: nat)
    ensures status < 256 && (code - status) % 256 == 0
  {
    code % 256
  }

  /** The `(unsigned char)` cast of sorter.h:212 and 216: the index modulo 256, which leaves
      every index below 256 as it is. */
  function UnsignedChar(n: nat): (r: nat)
    ensures r < 256 && (n - r) % 256 == 0
    ensures n < 256 ==> r == n
  {
    n % 256
  }

  /** The two exits of `add_collection` are told apart by the shell: 43 and 67. */
  lemma ExitStatuses()
    ensures ExitStatus(-80085) == 43 && ExitStatus(67) == 67
  {
  }

  /** The lookup loop of sorter.h:243-248: the index of the first title the catalog does not
      hold, or -1 when every title is found. */
  method FirstMissingTitle(books: seq<Book>, titles: seq<string>) returns (r: int)
    ensures -1 <= r < |titles|
    ensures r == -1 <==> forall i :: 0 <= i < |titles| ==> FindFirst(books, Title, titles[i]) >= 0
    ensures r >= 0 ==> FindFirst(books, Title, titles[r]) == -1
    ensures r >= 0 ==> forall i :: 0 <= i < r ==> FindFirst(books, Title, titles[i]) >= 0
  {
    var i := 0;
    while i < |titles|
      invariant 0 <= i <= |titles|
      invariant forall j :: 0 <= j < i ==> FindFirst(books, Title, titles[j]) >= 0
    {
      if FindFirst(books, Title, titles[i]) == -1 {
        return i;
      }
      i := i + 1;
    }
    return -1;
  }

  /** The span scan of sorter.h:265-277: the first title's record, the first record of its
      author, and the records after it whose author starts with that author. Where the source
      goes on with an unchecked -1 or reads past the catalog, the result is an error. */
  method FindAuthorSpan(books: seq<Book>, first: string) returns (r: Result<Span, ApplyError>)
    ensures r == LocateSpan(books, first)
  {
    var fti := FindFirst(books, Title, first);
    if fti == -1 {
      return Err(FirstTitleMissing);
    }
    var author := books[fti].author;
    FieldMatchesItself(books[fti], Author);
    var start := FindFirst(books, Author, author);
    var span := MeasureSpan(books, author, start);
    if start + span == |books| {
      return Err(SpanOverrun);
    }
    LocateSpanFound(books, first, fti, author, start, span);
    return Ok(Span(fti, start, span));
  }

  /** The loop of sorter.h:272-277 with the bound the source leaves out: the number of records
      from `start` on up to the first record after it whose author does not start with
      `author`, or to the end of the catalog. */
  method MeasureSpan(books: seq<Book>, author: string, start: nat) returns (span: nat)
    requires start < |books|
    ensures 1 <= span && start + span <= |books|
    ensures SpanEnd(books, author, start + 1) == if start + span == |books| then None else Some(start + span)
  {
    span := 1;
    while start + span < |books| && IsPrefix(author, books[start + span].author)
      invariant 1 <= span && start + span <= |books|
      invariant SpanEnd(books, author, start + 1) == SpanEnd(books, author, start + span)
    {
      span := span + 1;
    }
  }

  /** The membership test of sorter.h:288-292: the title is a prefix of a collection title
      after the first. */
  method IsInCollection(title: string, c: seq<string>) returns (r: bool)
    ensures r == InCollectionTail(title, c)
  {
    r := false;
    var k := 1;
    while k < |c|
      invariant 1 <= k
      invariant r <==> exists l :: 1 <= l < k && l < |c| && IsPrefix(title, c[l])
    {
      if IsPrefix(title, c[k]) {
        r := true;
      }
      k := k + 1;
    }
  }

  /** The partition of sorter.h:279-300 into the buffer `noncollected_titles` of
      `span - num_titles + 1` entries, written at `j - collected_titles_found`. A write past the
      buffer, or a buffer left partly unset, is `NoncollectedMismatch`. */
  method CollectNoncollected(titles: seq<string>, c: seq<string>) returns (r: Result<seq<string>, ApplyError>)
    ensures r.Ok? ==> r.value == NonCollected(titles, c) && |r.value| == |titles| - |c| + 1
    ensures r.Err? ==> r.error == NoncollectedMismatch
    ensures r.Err? ==> |NonCollected(titles, c)| != |titles| - |c| + 1
  {
    var size := |titles| - |c| + 1;
    if size < 0 {
      return Err(NoncollectedMismatch);
    }
    var noncollected := new string[size];
    var written, overrun := FillNoncollected(titles, c, noncollected);
    if overrun || written != size {
      return Err(NoncollectedMismatch);
    }
    assert noncollected[..] == noncollected[..written];
    return Ok(noncollected[..]);
  }

  /** The loop of sorter.h:286-300: each span title outside the collection's tail goes to the
      next free entry of `buffer`. `overrun` reports a title that finds the buffer full. */
  method FillNoncollected(titles: seq<string>, c: seq<string>, buffer: array<string>)
    returns (written: nat, overrun: bool)
    modifies buffer
    ensures overrun ==> |NonCollected(titles, c)| > buffer.Length
    ensures !overrun ==> written == |NonCollected(titles, c)| <= buffer.Length
    ensures !overrun ==> buffer[..written] == NonCollected(titles, c)
  {
    ghost var kept: seq<string> := [];
    var found := 0;
    var j := 0;
    while j < |titles|
      invariant 0 <= found <= j <= |titles| && |kept| == j - found <= buffer.Length
      invariant kept == Filter(titles[..j], NotInCollectionTail(c))
      invariant forall k :: 0 <= k < |kept| ==> buffer[k] == kept[k]
    {
      var title := titles[j];
      var isIn := IsInCollection(title, c);
      FilterStep(titles, j, NotInCollectionTail(c));
      if !isIn {
        if j - found == buffer.Length {
          NoncollectedExceeds(titles, c, j);
          return 0, true;
        }
        buffer[j - found] := title;
        kept := kept + [title];
      } else {
        found := found + 1;
      }
      j := j + 1;
    }
    assert titles[..j] == titles;
    assert buffer[..|kept|] == kept;
    return j - found, false;
  }

  /** A title outside the collection's tail after `j` of them means more than `j`. */
  lemma NoncollectedExceeds(titles: seq<string>, c: seq<string>, j: nat)
    requires j < |titles| && !InCollectionTail(titles[j], c)
    ensures |NonCollected(titles, c)| > |Filter(titles[..j], NotInCollectionTail(c))|
  {
    FilterStep(titles, j, NotInCollectionTail(c));
    FilterPrefix(titles, j + 1, NotInCollectionTail(c));
  }

  /** The slot search of sorter.h:281 and 305-310: the last sorted title the first collection
      title is a prefix of, or else the first title's distance from the author's first record. */
  method FindSlot(s: Span, sorted: seq<string>, first: string) returns (before: nat)
    requires s.start <= s.first
    ensures before == Before(s, sorted, first)
  {
    before := s.first - s.start;
    var j := 0;
    while j < |sorted|
      invariant 0 <= j <= |sorted|
      invariant before == Before(s, sorted[..j], first)
    {
      assert sorted[..j + 1][..j] == sorted[..j];
      if IsPrefix(first, sorted[j]) {
        before := j;
      }
      j := j + 1;
    }
    assert sorted[..j] == sorted;
  }

  /** The three loops of sorter.h:313-325 filling `collected_titles[span]`. With
      `num_titles_after` as sorter.h:282 and 308 compute it, every index written stays inside
      the buffer. */
  method StitchBlock(sorted: seq<string>, c: seq<string>, before: nat, span: nat) returns (order: seq<string>)
    requires before < |sorted| && |sorted| == span - |c| + 1
    ensures order == Stitch(sorted, c, before)
  {
    var collected := new string[span];
    var after := span - before - |c|;
    for j := 0 to before
      invariant forall i :: 0 <= i < j ==> collected[i] == sorted[i]
    {
      collected[j] := sorted[j];
    }
    for j := 0 to |c|
      invariant forall i :: 0 <= i < before ==> collected[i] == sorted[i]
      invariant forall i :: before <= i < before + j ==> collected[i] == c[i - before]
    {
      collected[j + before] := c[j];
    }
    for j := 0 to after
      invariant forall i :: 0 <= i < before ==> collected[i] == sorted[i]
      invariant forall i :: before <= i < before + |c| ==> collected[i] == c[i - before]
      invariant forall i :: before + |c| <= i < before + |c| + j ==> collected[i] == sorted[i - |c| + 1]
    {
      collected[j + before + |c|] := sorted[j + before + 1];
    }
    order := collected[..];
    StitchParts(sorted, c, before);
    var r := Stitch(sorted, c, before);
    forall i | 0 <= i < span
      ensures order[i] == r[i]
    {
      if i < before {
        assert r[i] == r[..before][i];
      } else if i < before + |c| {
        assert r[i] == r[before..before + |c|][i - before];
      } else {
        assert r[i] == r[before + |c|..][i - before - |c|];
      }
    }
  }

  /** The deep copy of sorter.h:328-334: the record of every stitched title, looked up before
      anything is overwritten. A title the lookup misses, where the source indexes
      `books[-1]`, gives `None`. */
  method TakeSnapshot(books: seq<Book>, order: seq<string>) returns (r: Option<seq<Book>>)
    ensures r == Snapshot(books, order)
  {
    var snap := new Book[|order|];
    for j := 0 to |order|
      invariant forall i :: 0 <= i < j ==>
        0 <= FindFirst(books, Title, order[i]) && snap[i] == books[FindFirst(books, Title, order[i])]
    {
      var idx := FindFirst(books, Title, order[j]);
      if idx == -1 {
        return None;
      }
      snap[j] := books[idx];
    }
    assert AllTitlesFound(books, order);
    assert snap[..] == Snapshot(books, order).value;
    return Some(snap[..]);
  }

  /** sorter.h:263-303 up to the sort: the span of the collection's author and the titles in
      it outside the collection's tail. */
  method PartitionCollection(books: seq<Book>, c: seq<string>) returns (r: Result<Partitioned, ApplyError>)
    requires |c| >= 1
    ensures r == Partition(books, c)
  {
    var located := FindAuthorSpan(books, c[0]);
    if located.Err? {
      return Err(located.error);
    }
    var s := located.value;
    var nc := CollectNoncollected(SpanTitles(books, s), c);
    if nc.Err? {
      return Err(NoncollectedMismatch);
    }
    return Ok(Partitioned(s, nc.value));
  }

  class Library {
    var books: seq<Book>
    var collections: seq<seq<string>>

    /** Every registered collection names at least two titles, as `add_collection` checks. */
    predicate Valid()
      reads this
    {
      forall k :: 0 <= k < |collections| ==> |collections[k]| >= 2
    }

    /** A library as `parse_library` leaves it: the records read, no collections. */
    constructor (records: seq<Book>)
      ensures books == records && collections == [] && Valid()
    {
      books := records;
      collections := [];
    }

    /** `sort_by_author` (sorter.h:172-218). The catalog is sorted by author (`byAuthor`);
        then, for every author found in a neighbouring pair, the window of records starting at
        the author's first record, truncated to `unsigned char`, is sorted by title. The result
        is a reordering of the catalog, and a catalog without repeated authors is left in the
        author order. */
    method SortByAuthor() returns (ghost byAuthor: seq<Book>)
      modifies this
      ensures IsQsortOutcome(old(books), byAuthor, ByAuthor)
      ensures multiset(books) == multiset(old(books))
      ensures (forall i :: !RepeatsAt(byAuthor, i)) ==> books == byAuthor
      ensures collections == old(collections)
    {
      assert Antisymmetric(ByAuthor) by {
        ComparatorsAntisymmetric();
      }
      var sortedBooks := Qsort(books, ByAuthor);
      byAuthor := sortedBooks;
      books := sortedBooks;
      SortRepeatedAuthors();
    }

    /** sorter.h:176-217 on the catalog sorted by author: the title sort of the window of every
        author that heads a neighbouring pair. A catalog without such a pair is left as it is. */
    method SortRepeatedAuthors()
      modifies this
      ensures multiset(books) == multiset(old(books))
      ensures (forall i :: !RepeatsAt(old(books), i)) ==> books == old(books)
      ensures collections == old(collections)
    {
      var byAuthor := books;
      var am := CollectRepeatedAuthors(byAuthor);
      if |am| > 0 {
        assert HeadsPair(byAuthor, am[0]);
      }
      SortAuthorWindows(am, byAuthor);
    }

    /** The loop of sorter.h:197-217 over the collected authors, each of which heads a
        neighbouring pair in `byAuthor`. */
    method SortAuthorWindows(authors: seq<string>, ghost byAuthor: seq<Book>)
      requires forall k :: 0 <= k < |authors| ==> HeadsPair(byAuthor, authors[k])
      requires multiset(books) == multiset(byAuthor)
      modifies this
      ensures multiset(books) == multiset(old(books))
      ensures authors == [] ==> books == old(books)
      ensures collections == old(collections)
    {
      for k := 0 to |authors|
        invariant multiset(books) == multiset(byAuthor)
        invariant k == 0 ==> books == old(books)
        invariant collections == old(collections)
      {
        ghost var i :| RepeatsAt(byAuthor, i) && authors[k] == byAuthor[i - 1].author;
        var start, count, lo := SortAuthorWindow(authors[k], byAuthor, i);
      }
    }

    /** One pass of the loop of sorter.h:197-217 for a collected `author`: its first record
        `start` (found, and not the last record, because the author heads a neighbouring pair in
        `byAuthor`, of which the catalog is a reordering), the span of `count` records that
        follow under the author, and the title sort of the window of `count` records at
        `start` truncated to `unsigned char`. */
    method SortAuthorWindow(author: string, ghost byAuthor: seq<Book>, ghost i: int)
      returns (start: nat, count: nat, lo: nat)
      requires RepeatsAt(byAuthor, i) && author == byAuthor[i - 1].author
      requires multiset(books) == multiset(byAuthor)
      modifies this
      ensures start == FindFirst(old(books), Author, author) && SpanStopsAt(old(books), author, start, start + count)
      ensures lo == UnsignedChar(start) && lo + count <= |books| == |old(books)|
      ensures |old(books)| <= 256 ==> lo == start
      ensures books[..lo] == old(books)[..lo] && books[lo + count..] == old(books)[lo + count..]
      ensures IsQsortOutcome(old(books)[lo..lo + count], books[lo..lo + count], ByTitle)
      ensures multiset(books) == multiset(old(books))
      ensures collections == old(collections)
    {
      RepeatedAuthorMatchesTwice(byAuthor, i);
      CountMatchesPermutation(byAuthor, books, Author, author);
      FindFirstBeforeLast(books, Author, author);
      var first := FindFirst(books, Author, author);
      start := first;
      count := MeasureAuthorSpan(books, author, start);
      lo := UnsignedChar(start);
      SortTitleWindow(lo, count);
    }

    /** sorter.h:210-216: copy `count` records from `lo` out, sort them by title, copy them
        back. Only the window changes, and it is a `qsort` outcome of its old contents. */
    method SortTitleWindow(lo: nat, count: nat)
      requires lo + count <= |books|
      modifies this
      ensures |books| == |old(books)|
      ensures books[..lo] == old(books)[..lo] && books[lo + count..] == old(books)[lo + count..]
      ensures IsQsortOutcome(old(books)[lo..lo + count], books[lo..lo + count], ByTitle)
      ensures multiset(books) == multiset(old(books))
      ensures collections == old(collections)
    {
      assert Antisymmetric(ByTitle) by {
        ComparatorsAntisymmetric();
      }
      var sortedWindow := Qsort(books[lo..lo + count], ByTitle);
      ReplaceSlice(books, lo, lo + count, sortedWindow);
      books := books[..lo] + sortedWindow + books[lo + count..];
    }

    /** `add_collection` (sorter.h:220-253): fewer than two titles exit with -80085, a title
        the catalog does not hold exits with 67; otherwise the titles, in the order given, are
        appended as the last collection. The catalog never changes, and on an exit nothing
        does. */
    method AddCollection(titles: seq<string>) returns (outcome: Outcome)
      requires Valid()
      modifies this
      ensures Valid()
      ensures books == old(books)
      ensures |titles| < 2 ==> outcome == Exit(-80085)
      ensures |titles| >= 2 ==>
        (outcome == Success <==> forall i :: 0 <= i < |titles| ==> FindFirst(books, Title, titles[i]) >= 0)
      ensures |titles| >= 2 && outcome != Success ==> outcome == Exit(67)
      ensures outcome == Success ==> collections == old(collections) + [titles]
      ensures outcome != Success ==> collections == old(collections)
    {
      if |titles| < 2 {
        return Exit(-80085);
      }
      var missing := FirstMissingTitle(books, titles);
      if missing != -1 {
        return Exit(67);
      }
      collections := collections + [titles];
      return Success;
    }

    /** One pass of the loop of `apply_collections` (sorter.h:262-341) for the collection `c`,
        `sorted` being the order `qsort` gives its non-collected titles. The catalog becomes
        what `Apply` computes, or stays as it was when `Apply` reports an error. */
    method ApplyCollection(c: seq<string>) returns (failure: Option<ApplyError>, sorted: seq<string>)
      modifies this
      ensures collections == old(collections)
      ensures QsortChoice(old(books), c, sorted)
      ensures Apply(old(books), c, sorted) == if failure.None? then Ok(books) else Err(failure.value)
      ensures failure.Some? ==> books == old(books)
      ensures failure == Some(NoTitles) <==> |c| == 0
    {
      sorted := [];
      if |c| == 0 {
        return Some(NoTitles), sorted;
      }
      var p := PartitionCollection(books, c);
      if p.Err? {
        return Some(p.error), sorted;
      }
      assert Antisymmetric(ByString) by {
        ComparatorsAntisymmetric();
      }
      sorted := Qsort(p.value.nonCollected, ByString);
      ApplyIsFinish(books, c, sorted, p.value);
      failure := FinishCollection(c, p.value.span, sorted);
    }

    /** sorter.h:305-339 once the non-collected titles are sorted: the slot of the first title,
        the stitched order, the snapshot of its records and the write-back over the span. */
    method FinishCollection(c: seq<string>, s: Span, sorted: seq<string>) returns (failure: Option<ApplyError>)
      requires |c| >= 1 && s.start <= s.first && s.start + s.len <= |books|
      requires |sorted| == s.len - |c| + 1
      modifies this
      ensures collections == old(collections)
      ensures Finish(old(books), c, s, sorted) == if failure.None? then Ok(books) else Err(failure.value)
      ensures failure.Some? ==> books == old(books)
      ensures failure != Some(NoTitles)
    {
      var before := FindSlot(s, sorted, c[0]);
      if before >= |sorted| {
        return Some(BlockOutOfRange);
      }
      var order := StitchBlock(sorted, c, before, s.len);
      var snapshot := TakeSnapshot(books, order);
      if snapshot.None? {
        return Some(SnapshotTitleMissing);
      }
      FinishUnfold(books, c, s, sorted, before, snapshot.value);
      WriteBack(s.start, snapshot.value);
      return None;
    }

    /** The overwrite of sorter.h:337-339: the records from `start` on become `snap`. */
    method WriteBack(start: nat, snap: seq<Book>)
      requires start + |snap| <= |books|
      modifies this
      ensures books == old(books)[..start] + snap + old(books)[start + |snap|..]
      ensures collections == old(collections)
    {
      for j := 0 to |snap|
        invariant collections == old(collections)
        invariant |books| == |old(books)|
        invariant forall i :: 0 <= i < |books| ==>
          books[i] == if start <= i < start + j then snap[i - start] else old(books)[i]
      {
        books := books[start + j := snap[j]];
      }
    }

    /** `apply_collections` (sorter.h:255-343): every registered collection in turn, collection
        `k` meeting the `qsort` order `orders[k]`; the first failure stops the run with the
        catalog as the collections before it left it. */
    method ApplyCollections() returns (failure: Option<ApplyError>, ghost orders: seq<seq<string>>)
      requires Valid()
      modifies this
      ensures collections == old(collections) && Valid()
      ensures failure != Some(NoTitles)
      ensures |orders| == |collections| && QsortOrders(old(books), collections, orders)
      ensures ApplyAll(old(books), collections, orders) == if failure.None? then Ok(books) else Err(failure.value)
    {
      ghost var b0 := books;
      var cs := collections;
      orders := [];
      failure := None;
      var i := 0;
      while i < |cs|
        invariant 0 <= i <= |cs| && |orders| == i
        invariant cs == collections == old(collections)
        invariant failure == None
        invariant Fold(b0, cs[..i], orders, Apply) == Ok(books)
        invariant ChosenThroughout(b0, cs[..i], orders, Apply, QsortChoice)
      {
        ghost var before := books;
        assert |cs[i]| >= 2 by {
          assert old(Valid());
        }
        var f, sorted := ApplyCollection(cs[i]);
        FoldExtend(b0, cs, orders, Apply, QsortChoice, i, sorted, before);
        orders := orders + [sorted];
        if f.Some? {
          failure := f;
          orders := FoldErrorPads(b0, cs, orders, Apply, QsortChoice, i + 1, []);
          return;
        }
        i := i + 1;
      }
      assert cs[..i] == cs;
    }
  }
}
