/** The catalog record (`Book`, sorter.h:24-32), the seven field lookups `get_idx_by_*`
    (sorter.h:538-662), the tab tokenizer behind `get_book_from_line` (sorter.h:409-436) and the
    three comparators handed to `qsort` (sorter.h:438-448, 664-669). */
module Catalog {
  import opened Text
  import opened Sequences
  import opened TitleKey
  import opened Sorting

  /** One line of the catalog: seven text fields. */
  datatype Book = Book(
    title: string,
    author: string,
    contributor: string,
    subject: string,
    status: string,
    date: string,
    isbn: string)

  /** `BookField` (sorter.h:14-22). */
  datatype BookField = Title | Author | Contributor | Subject | Status | Date | Isbn

  function FieldOf(b: Book, f: BookField): string {
    match f
    case Title => b.title
    case Author => b.author
    case Contributor => b.contributor
    case Subject => b.subject
    case Status => b.status
    case Date => b.date
    case Isbn => b.isbn
  }

  /** The test inside every `get_idx_by_*` loop: the lower-cased query is a prefix of the
      lower-cased field (`strncmp(comp, lower(field), strlen(comp)) == 0`). */
  predicate FieldMatches(b: Book, f: BookField, query: string) {
    IsPrefix(ToLower(query), ToLower(FieldOf(b, f)))
  }

  function FindFrom(books: seq<Book>, f: BookField, query: string, i: nat): (r: int)
    requires i <= |books|
    ensures r == -1 || i <= r < |books|
    ensures r == -1 <==> forall j :: i <= j < |books| ==> !FieldMatches(books[j], f, query)
    ensures r >= 0 ==> FieldMatches(books[r], f, query)
    ensures r >= 0 ==> forall j :: i <= j < r ==> !FieldMatches(books[j], f, query)
    decreases |books| - i
  {
    if i == |books| then -1
    else if FieldMatches(books[i], f, query) then i
    else FindFrom(books, f, query, i + 1)
  }

  /** `get_idx_by_title`, `get_idx_by_author`, ... `get_idx_by_isbn_s`: the first record whose
      field starts with the query, ignoring case, or -1. */
  function FindFirst(books: seq<Book>, f: BookField, query: string): (r: int)
    ensures -1 <= r < |books|
    ensures r == -1 <==> forall j :: 0 <= j < |books| ==> !FieldMatches(books[j], f, query)
    ensures r >= 0 ==> FieldMatches(books[r], f, query)
    ensures r >= 0 ==> forall j :: 0 <= j < r ==> !FieldMatches(books[j], f, query)
  {
    FindFrom(books, f, query, 0)
  }

  /** The empty query matches every record, so it finds the first one. */
  lemma EmptyQueryFindsFirst(books: seq<Book>, f: BookField)
    requires |books| > 0
    ensures FindFirst(books, f, "") == 0
  {
    assert FieldMatches(books[0], f, "");
  }

  /** The lookup ignores case in the query as well as in the field. */
  lemma FindFirstIgnoresQueryCase(books: seq<Book>, f: BookField, query: string)
    ensures FindFirst(books, f, ToLower(query)) == FindFirst(books, f, query)
  {
    ToLowerIdempotent(query);
    assert forall b :: FieldMatches(b, f, ToLower(query)) == FieldMatches(b, f, query);
    FindFirstSameMatches(books, f, ToLower(query), query);
  }

  lemma FindFirstSameMatches(books: seq<Book>, f: BookField, q1: string, q2: string)
    requires forall b :: FieldMatches(b, f, q1) == FieldMatches(b, f, q2)
    ensures FindFirst(books, f, q1) == FindFirst(books, f, q2)
  {
  }

  /** The matching test of one field and query, as a predicate on records. */
  function Matcher(f: BookField, query: string): Book -> bool {
    b => FieldMatches(b, f, query)
  }

  /** Number of records the query matches. */
  function CountMatches(books: seq<Book>, f: BookField, query: string): (n: nat)
    ensures n <= |books|
  {
    Count(books, Matcher(f, query))
  }

  /** A query matching at least two records finds one that is not the last: the lookup that
      starts an author span in `sort_by_author` leaves room for the rest of the span. */
  lemma FindFirstBeforeLast(books: seq<Book>, f: BookField, query: string)
    requires CountMatches(books, f, query) >= 2
    ensures 0 <= FindFirst(books, f, query) < |books| - 1
  {
    CountTwoHasEarlyWitness(books, Matcher(f, query));
    var i :| 0 <= i < |books| - 1 && Matcher(f, query)(books[i]);
  }

  /** Reordering the catalog does not change how many records a query matches. */
  lemma CountMatchesPermutation(books: seq<Book>, books': seq<Book>, f: BookField, query: string)
    requires multiset(books) == multiset(books')
    ensures CountMatches(books, f, query) == CountMatches(books', f, query)
  {
    CountPermutation(books, books', Matcher(f, query));
  }

  /** Two matching records make a count of two. */
  lemma TwoMatches(books: seq<Book>, f: BookField, query: string, i: nat, j: nat)
    requires i < j < |books|
    requires FieldMatches(books[i], f, query) && FieldMatches(books[j], f, query)
    ensures CountMatches(books, f, query) >= 2
  {
    CountTwo(books, Matcher(f, query), i, j);
  }

  // ---------------------------------------------------------------------------------------
  // The comparators given to qsort

  /** `alphabetic_priority_author` (sorter.h:438-442). */
  function ByAuthor(a: Book, b: Book): int {
    AlphabeticPriority(a.author, b.author)
  }

  /** `alphabetic_priority_title` (sorter.h:444-448). */
  function ByTitle(a: Book, b: Book): int {
    AlphabeticPriority(a.title, b.title)
  }

  /** `alphabetic_priority_qsort_s` (sorter.h:664-669). */
  function ByString(a: string, b: string): int {
    AlphabeticPriority(a, b)
  }

  /** All three comparators meet the precondition of the sort model. */
  lemma ComparatorsAntisymmetric()
    ensures Antisymmetric(ByAuthor) && Antisymmetric(ByTitle) && Antisymmetric(ByString)
  {
    forall a: Book, b: Book
      ensures ByAuthor(a, b) == -ByAuthor(b, a) && ByTitle(a, b) == -ByTitle(b, a)
    {
      AlphabeticPriorityAntisymmetric(a.author, b.author);
      AlphabeticPriorityAntisymmetric(a.title, b.title);
    }
    forall a: string, b: string
      ensures ByString(a, b) == -ByString(b, a)
    {
      AlphabeticPriorityAntisymmetric(a, b);
    }
  }

  /** Neighbour order is all `qsort` promises here: with three titles whose keys are `ac`,
      `a` and `ab`, every neighbour pair compares equal, yet the first title sorts after the
      last. */
  lemma AdjacentOrderIsNotGlobal()
    ensures AdjacentSorted(["ac", "a", "ab"], ByString)
    ensures ByString("ac", "ab") == 1
  {
    ComparatorNotTransitive();
    AlphabeticPriorityAntisymmetric("a", "ac");
    AlphabeticPriorityAntisymmetric("ab", "a");
    AlphabeticPriorityAntisymmetric("ab", "ac");
    var s := ["ac", "a", "ab"];
    assert s[0] == "ac" && s[1] == "a" && s[2] == "ab";
  }

  // ---------------------------------------------------------------------------------------
  // Reading a record from a catalog line

  /** Length of the leading run of non-tab characters. */
  function TokenLength(s: string): (n: nat)
    ensures n <= |s|
    ensures forall i :: 0 <= i < n ==> s[i] != '\t'
    ensures n < |s| ==> s[n] == '\t'
  {
    if s == [] || s[0] == '\t' then 0 else 1 + TokenLength(s[1..])
  }

  /** The tokens successive `strtok(..., "\t")` calls return: maximal non-empty runs of
      non-tab characters, so an empty field between two tabs yields no token at all. */
  function Tokens(s: string): (r: seq<string>)
    ensures forall k :: 0 <= k < |r| ==> |r[k]| > 0 && '\t' !in r[k]
    decreases |s|
  {
    if s == [] then []
    else if s[0] == '\t' then Tokens(s[1..])
    else
      var n := TokenLength(s);
      [s[..n]] + Tokens(s[n..])
  }

  lemma {:induction false} TokenLengthAppend(a: string, b: string)
    requires '\t' !in a
    ensures TokenLength(a + ['\t'] + b) == |a|
  {
    if a != [] {
      assert (a + ['\t'] + b)[1..] == a[1..] + ['\t'] + b;
      TokenLengthAppend(a[1..], b);
    }
  }

  /** `TokensAppend` when `a` is one whole token. */
  lemma TokensAppendWhole(a: string, b: string)
    requires a != [] && a[0] != '\t' && TokenLength(a) == |a|
    ensures Tokens(a + ['\t'] + b) == Tokens(a) + Tokens(b)
  {
    TokensOfWhole(a);
    TokensAfterWhole(a, b);
  }

  /** A string without tabs that is not empty is one token. */
  lemma TokensOfWhole(a: string)
    requires a != [] && a[0] != '\t' && TokenLength(a) == |a|
    ensures Tokens(a) == [a]
  {
    assert a[..|a|] == a && a[|a|..] == [];
  }

  /** After a whole token and its tab, tokenizing goes on with the rest. */
  lemma TokensAfterWhole(a: string, b: string)
    requires a != [] && a[0] != '\t' && TokenLength(a) == |a|
    ensures Tokens(a + ['\t'] + b) == [a] + Tokens(b)
  {
    var s := a + ['\t'] + b;
    TokenLengthAppend(a, b);
    assert s[..|a|] == a && s[|a|..] == ['\t'] + b;
    TokensSkipTab(b);
  }

  /** A leading tab is skipped. */
  lemma TokensSkipTab(b: string)
    ensures Tokens(['\t'] + b) == Tokens(b)
  {
    assert (['\t'] + b)[1..] == b;
  }

  /** A tab separates tokens: what lies on either side is tokenized independently. */
  lemma {:induction false} TokensAppend(a: string, b: string)
    ensures Tokens(a + ['\t'] + b) == Tokens(a) + Tokens(b)
    decreases |a|
  {
    var s := a + ['\t'] + b;
    if a == [] {
      assert s[1..] == b;
    } else if a[0] == '\t' {
      assert s[1..] == a[1..] + ['\t'] + b;
      TokensAppend(a[1..], b);
    } else {
      var n := TokenLength(a);
      if n == |a| {
        TokensAppendWhole(a, b);
      } else {
        assert TokenLength(s) == n by {
          assert s == a + (['\t'] + b);
          TokenLengthPrefix(a, ['\t'] + b);
        }
        assert s[..n] == a[..n];
        assert s[n..] == a[n..] + ['\t'] + b;
        TokensAppend(a[n..], b);
      }
    }
  }

  lemma {:induction false} TokenLengthPrefix(a: string, b: string)
    requires TokenLength(a) < |a|
    ensures TokenLength(a + b) == TokenLength(a)
  {
    if a[0] != '\t' {
      assert (a + b)[1..] == a[1..] + b;
      TokenLengthPrefix(a[1..], b);
    }
  }

  /** An empty field collapses: two tabs in a row tokenize like one, so later fields shift
      left by one position. */
  lemma EmptyFieldCollapses(a: string, b: string)
    ensures Tokens(a + ['\t', '\t'] + b) == Tokens(a + ['\t'] + b)
  {
    assert a + ['\t', '\t'] + b == a + ['\t'] + (['\t'] + b);
    TokensAppend(a, ['\t'] + b);
    TokensAppend(a, b);
    assert (['\t'] + b)[1..] == b;
  }

  /** A field that survives the round trip: non-empty, no tab, quote or newline. */
  predicate CleanField(s: string) {
    |s| > 0 && forall i :: 0 <= i < |s| ==> s[i] != '\t' && !IsDataJunk(s[i])
  }

  predicate CleanBook(b: Book) {
    CleanField(b.title) && CleanField(b.author) && CleanField(b.contributor)
    && CleanField(b.subject) && CleanField(b.status) && CleanField(b.date) && CleanField(b.isbn)
  }

  /** The fields joined by single tabs. */
  function JoinTabs(fields: seq<string>): string {
    if |fields| == 0 then []
    else if |fields| == 1 then fields[0]
    else fields[0] + ['\t'] + JoinTabs(fields[1..])
  }

  lemma {:induction false} TokensOfField(s: string)
    requires |s| > 0 && '\t' !in s
    ensures Tokens(s) == [s]
  {
    assert TokenLength(s) == |s|;
    assert s[..|s|] == s && s[|s|..] == [];
  }

  lemma {:induction false} TokensJoinTabs(fields: seq<string>)
    requires forall k :: 0 <= k < |fields| ==> |fields[k]| > 0 && '\t' !in fields[k]
    ensures Tokens(JoinTabs(fields)) == fields
  {
    if |fields| == 1 {
      TokensOfField(fields[0]);
    } else if |fields| > 1 {
      TokensAppend(fields[0], JoinTabs(fields[1..]));
      TokensOfField(fields[0]);
      TokensJoinTabs(fields[1..]);
    }
  }

  function BookFields(b: Book): seq<string> {
    [b.title, b.author, b.contributor, b.subject, b.status, b.date, b.isbn]
  }

  /** The catalog line of a record: its seven fields joined by tabs and ended by a newline. */
  function BookLine(b: Book): string {
    JoinTabs(BookFields(b)[..6] + [b.isbn + "\n"])
  }

  /** `get_book_from_line` (sorter.h:409-436): the first seven tab-separated tokens, each passed
      through `sanitize_data`. With fewer than seven tokens the source goes on with a NULL
      token; the model reports that as `None`. */
  function GetBookFromLine(line: string): (r: Option<Book>)
    ensures r.Some? <==> |Tokens(line)| >= 7
    ensures r.Some? ==> forall k :: 0 <= k < 7 ==> BookFields(r.value)[k] == SanitizeData(Tokens(line)[k])
  {
    var t := Tokens(line);
    if |t| < 7 then None
    else
      Some(Book(SanitizeData(t[0]), SanitizeData(t[1]), SanitizeData(t[2]), SanitizeData(t[3]),
                SanitizeData(t[4]), SanitizeData(t[5]), SanitizeData(t[6])))
  }

  lemma BookLineTokens(b: Book)
    requires CleanBook(b)
    ensures Tokens(BookLine(b)) == BookFields(b)[..6] + [b.isbn + "\n"]
  {
    var fields := BookFields(b)[..6] + [b.isbn + "\n"];
    forall k | 0 <= k < |fields|
      ensures |fields[k]| > 0 && '\t' !in fields[k]
    {
      if k == 6 {
        assert fields[6] == b.isbn + "\n";
        assert forall i :: 0 <= i < |b.isbn| ==> fields[6][i] == b.isbn[i];
      }
    }
    TokensJoinTabs(fields);
  }

  /** Reading back the line of a clean record gives the record. */
  lemma GetBookFromLineRoundTrip(b: Book)
    requires CleanBook(b)
    ensures GetBookFromLine(BookLine(b)) == Some(b)
  {
    BookLineTokens(b);
    var t := Tokens(BookLine(b));
    assert t[0] == b.title && t[1] == b.author && t[2] == b.contributor && t[3] == b.subject;
    assert t[4] == b.status && t[5] == b.date && t[6] == b.isbn + "\n";
    SanitizeDataKeepsClean(b.title);
    SanitizeDataKeepsClean(b.author);
    SanitizeDataKeepsClean(b.contributor);
    SanitizeDataKeepsClean(b.subject);
    SanitizeDataKeepsClean(b.status);
    SanitizeDataKeepsClean(b.date);
    SanitizeLineEnd(b.isbn);
  }

  /** The newline `fgets` leaves on the last field is dropped by `sanitize_data`. */
  lemma SanitizeLineEnd(isbn: string)
    requires CleanField(isbn)
    ensures SanitizeData(isbn + "\n") == isbn
  {
    SanitizeDataAppend(isbn, "\n");
    SanitizeDataKeepsClean(isbn);
    assert "\n"[1..] == [] && IsDataJunk("\n"[0]);
    assert SanitizeData("\n") == [];
  }
}
