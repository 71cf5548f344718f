/** The two scans inside `sort_by_author` (sorter.h:172-218): collecting the authors that
    occur in neighbouring records, and measuring the span of records under one author. */
module AuthorSort {
  import opened Text
  import opened Catalog

  /** The neighbours at `i - 1` and `i` share an author in the sense of sorter.h:184: the
      earlier author is a (case-sensitive) prefix of the later one. */
  predicate RepeatsAt(books: seq<Book>, i: int) {
    1 <= i < |books| && IsPrefix(books[i - 1].author, books[i].author)
  }

  /** `author` is the earlier author of a neighbouring pair that `RepeatsAt` accepts. */
  ghost predicate HeadsPair(books: seq<Book>, author: string) {
    exists i :: RepeatsAt(books, i) && author == books[i - 1].author
  }

  /** The loop of sorter.h:182-190: `authors_multiple`. An author is added when it is a prefix
      of its successor's, unless it is already a prefix of an entry (`string_is_member`). */
  method CollectRepeatedAuthors(books: seq<Book>) returns (am: seq<string>)
    ensures |am| <= |books|
    ensures forall k :: 0 <= k < |am| ==> HeadsPair(books, am[k])
    ensures forall i :: RepeatsAt(books, i) ==> StringIsMember(am, books[i - 1].author)
    ensures forall k, l :: 0 <= k < l < |am| ==> !IsPrefix(am[l], am[k])
  {
    am := [];
    if |books| == 0 {
      return;
    }
    var i := 1;
    while i < |books|
      invariant 1 <= i <= |books| && Collected(books, am, i)
    {
      var lastAuthor := books[i - 1].author;
      if IsPrefix(lastAuthor, books[i].author) && !StringIsMember(am, lastAuthor) {
        CollectAdd(books, am, i);
        am := am + [lastAuthor];
      } else {
        CollectKeep(books, am, i);
      }
      i := i + 1;
    }
  }

  /** The loop invariant of sorter.h:182-190 after the pairs ending before `i`: every entry
      heads a pair, every pair seen so far is covered, and no entry is a prefix of an earlier
      one. */
  ghost predicate Collected(books: seq<Book>, am: seq<string>, i: nat) {
    |am| < i
    && (forall k :: 0 <= k < |am| ==> HeadsPair(books, am[k]))
    && (forall r :: 0 < r < i && RepeatsAt(books, r) ==> StringIsMember(am, books[r - 1].author))
    && (forall k, l :: 0 <= k < l < |am| ==> !IsPrefix(am[l], am[k]))
  }

  /** A pair that is not new leaves the entries as they are. */
  lemma CollectKeep(books: seq<Book>, am: seq<string>, i: nat)
    requires 1 <= i < |books| && Collected(books, am, i)
    requires RepeatsAt(books, i) ==> StringIsMember(am, books[i - 1].author)
    ensures Collected(books, am, i + 1)
  {
  }

  /** A new pair appends its author. */
  lemma CollectAdd(books: seq<Book>, am: seq<string>, i: nat)
    requires 1 <= i < |books| && Collected(books, am, i)
    requires RepeatsAt(books, i) && !StringIsMember(am, books[i - 1].author)
    ensures Collected(books, am + [books[i - 1].author], i + 1)
  {
    var a := books[i - 1].author;
    var am' := am + [a];
    StringIsMemberAppend(am, a);
    assert HeadsPair(books, a);
    forall k | 0 <= k < |am'|
      ensures HeadsPair(books, am'[k])
    {
      if k < |am| {
        assert am'[k] == am[k];
      }
    }
    forall k, l | 0 <= k < l < |am'|
      ensures !IsPrefix(am'[l], am'[k])
    {
      if l < |am| {
        assert am'[l] == am[l] && am'[k] == am[k];
      } else {
        assert am'[k] == am[k];
      }
    }
  }

  /** Appending keeps every earlier membership answer. */
  lemma StringIsMemberAppend(values: seq<string>, v: string)
    ensures forall w :: StringIsMember(values, w) ==> StringIsMember(values + [v], w)
    ensures StringIsMember(values + [v], v)
  {
    forall w | StringIsMember(values, w)
      ensures StringIsMember(values + [v], w)
    {
      var i :| 0 <= i < |values| && IsPrefix(w, values[i]);
      assert (values + [v])[i] == values[i];
    }
    PrefixReflexive(v);
    assert (values + [v])[|values|] == v;
  }

  /** A collected author is matched (case-insensitively) by both records of its pair, so the
      lookup of sorter.h:199 finds it at least twice. */
  lemma RepeatedAuthorMatchesTwice(books: seq<Book>, i: int)
    requires RepeatsAt(books, i)
    ensures CountMatches(books, Author, books[i - 1].author) >= 2
  {
    var a := books[i - 1].author;
    PrefixReflexive(a);
    ToLowerKeepsPrefix(a, a);
    ToLowerKeepsPrefix(a, books[i].author);
    TwoMatches(books, Author, a, i - 1, i);
  }

  /** The records after `start` whose author has `author` as a prefix, up to the first that
      does not or the end of the catalog: the span end that the loop of sorter.h:201-207 finds. */
  predicate SpanStopsAt(books: seq<Book>, author: string, start: nat, end: nat) {
    start < end <= |books|
    && (forall j :: start < j < end ==> IsPrefix(author, books[j].author))
    && (end == |books| || !IsPrefix(author, books[end].author))
  }

  /** The span measurement of sorter.h:201-207 with the read of line 206 kept inside the
      bound: the loop stops at the first record past `start` whose author does not start with
      `author`, or at the end of the catalog. */
  method MeasureAuthorSpan(books: seq<Book>, author: string, start: nat) returns (count: nat)
    requires start + 1 < |books|
    ensures SpanStopsAt(books, author, start, start + count)
  {
    count := 1;
    while start + count < |books| && IsPrefix(author, books[start + count].author)
      invariant 1 <= count && start + count <= |books|
      invariant forall j :: start < j < start + count ==> IsPrefix(author, books[j].author)
    {
      count := count + 1;
    }
  }

  /** The loop of sorter.h:201-207 as written: after each increment it reads
      `books[start_idx + author_count]` before the loop condition checks the bound.
      `readsPastEnd` records whether that read happens at index `num_books`, one past the end;
      the value read there only feeds a comparison the bound check then skips. */
  method MeasureAuthorSpanAsWritten(books: seq<Book>, author: string, start: nat)
    returns (count: nat, readsPastEnd: bool)
    requires start + 1 < |books|
    ensures SpanStopsAt(books, author, start, start + count)
    ensures readsPastEnd <==> start + count == |books|
  {
    count := 1;
    readsPastEnd := false;
    var nextAuthor := books[start + count].author;
    while start + count < |books| && IsPrefix(author, nextAuthor)
      invariant 1 <= count && start + count <= |books|
      invariant forall j :: start < j < start + count ==> IsPrefix(author, books[j].author)
      invariant start + count < |books| ==> nextAuthor == books[start + count].author
      invariant readsPastEnd <==> start + count == |books|
    {
      count := count + 1;
      if start + count < |books| {
        nextAuthor := books[start + count].author;
      } else {
        readsPastEnd := true;
      }
    }
  }

  /** Two records by the same author at the end of the catalog: the span runs to the end, so the
      loop as written reads one record past it. */
  lemma SpanAtEndOverReads()
    ensures SpanStopsAt([Book("Spring Snow", "Yukio Mishima", "", "", "", "", ""),
                         Book("Runaway Horses", "Yukio Mishima", "", "", "", "", "")],
                        "Yukio Mishima", 0, 2)
  {
    PrefixReflexive("Yukio Mishima");
  }
}
