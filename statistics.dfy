/**
 * `get_info_from_data`, the three tables of `show_request_statistics` (requests
 * per book, requests per author, books per author) and the language tally of
 * `print_data`. The request log is the sequence of `Text#` values of the
 * "requests" worksheet, in row order.
 */
module Statistics {
  import opened Catalog
  import opened Counting

  /** The `(Authors, Title, Language)` triple `get_info_from_data` returns. */
  datatype BookInfo = BookInfo(author: Value, title: Value, language: Value)

  /** `("-", "-", "-")`: the answer for an id the catalog does not hold. */
  const Unknown: BookInfo := BookInfo(StrV("-"), StrV("-"), StrV("-"))

  predicate InCatalog(catalog: seq<Record>, bookId: int) {
    exists i :: 0 <= i < |catalog| && catalog[i].id == bookId
  }

  /** `get_info_from_data(book_id)`: a scan of the catalog for the first record with that id. */
  function InfoFromData(catalog: seq<Record>, bookId: int): BookInfo
    decreases |catalog|
  {
    if |catalog| == 0 then Unknown
    else if catalog[0].id == bookId then BookInfo(catalog[0].authors, catalog[0].title, catalog[0].language)
    else InfoFromData(catalog[1..], bookId)
  }

  /**
   * The answer is the fields of the first record whose `Text#` is the id, and
   * `("-", "-", "-")` when no record has it.
   */
  lemma {:induction false} InfoFromDataMeaning(catalog: seq<Record>, bookId: int)
    ensures !InCatalog(catalog, bookId) ==> InfoFromData(catalog, bookId) == Unknown
    ensures forall i :: 0 <= i < |catalog| && catalog[i].id == bookId
                        && (forall j :: 0 <= j < i ==> catalog[j].id != bookId)
                        ==> InfoFromData(catalog, bookId) == BookInfo(catalog[i].authors, catalog[i].title, catalog[i].language)
    decreases |catalog|
  {
    if |catalog| > 0 && catalog[0].id != bookId {
      InfoFromDataMeaning(catalog[1..], bookId);
      assert InCatalog(catalog, bookId) ==> InCatalog(catalog[1..], bookId) by {
        if InCatalog(catalog, bookId) {
          var i :| 0 <= i < |catalog| && catalog[i].id == bookId;
          assert catalog[1..][i - 1].id == bookId;
        }
      }
      assert forall i :: 1 <= i < |catalog| ==> catalog[1..][i - 1] == catalog[i];
    }
  }

  function AuthorOf(catalog: seq<Record>, bookId: int): Value {
    InfoFromData(catalog, bookId).author
  }

  /** The author of every `(id, count)` row, with that row's count. */
  function AuthorPairs(catalog: seq<Record>, books: Table<int>): (ps: seq<(Value, nat)>)
    ensures |ps| == |books|
    ensures forall i :: 0 <= i < |books| ==> ps[i] == (AuthorOf(catalog, books[i].0), books[i].1)
  {
    seq(|books|, i requires 0 <= i < |books| => (AuthorOf(catalog, books[i].0), books[i].1))
  }

  lemma AuthorPairsSnoc(catalog: seq<Record>, books: Table<int>, i: nat)
    requires i < |books|
    ensures var x := (AuthorOf(catalog, books[i].0), books[i].1);
      && AuthorPairs(catalog, books[..i + 1]) == AuthorPairs(catalog, books[..i]) + [x]
      && Keys(AuthorPairs(catalog, books[..i + 1])) == Keys(AuthorPairs(catalog, books[..i])) + [x.0]
  {
    var x := (AuthorOf(catalog, books[i].0), books[i].1);
    var before := AuthorPairs(catalog, books[..i]);
    var after := AuthorPairs(catalog, books[..i + 1]);
    forall j | 0 <= j < |after| ensures after[j] == (before + [x])[j] {
      assert books[..i + 1][j] == books[j];
      if j < i {
        assert books[..i][j] == books[j];
      }
    }
  }

  /** The author of every id of `ids`, in order. */
  function AuthorsOf(catalog: seq<Record>, ids: seq<int>): (as_: seq<Value>)
    ensures |as_| == |ids|
    ensures forall i :: 0 <= i < |ids| ==> as_[i] == AuthorOf(catalog, ids[i])
  {
    seq(|ids|, i requires 0 <= i < |ids| => AuthorOf(catalog, ids[i]))
  }

  lemma AuthorPairsCons(catalog: seq<Record>, y: (int, nat), books: Table<int>)
    ensures AuthorPairs(catalog, [y] + books) == [(AuthorOf(catalog, y.0), y.1)] + AuthorPairs(catalog, books)
  {
    var l := AuthorPairs(catalog, [y] + books);
    var r := [(AuthorOf(catalog, y.0), y.1)] + AuthorPairs(catalog, books);
    forall i | 0 <= i < |l| ensures l[i] == r[i] {
      if i > 0 {
        assert ([y] + books)[i] == books[i - 1];
      }
    }
  }

  /** A row in front of the per-book table adds its count to its author's weight. */
  lemma AuthorWeightCons(catalog: seq<Record>, y: (int, nat), t: Table<int>, a: Value)
    ensures WeightOf(AuthorPairs(catalog, [y] + t), a)
         == (if AuthorOf(catalog, y.0) == a then y.1 else 0) + WeightOf(AuthorPairs(catalog, t), a)
  {
    AuthorPairsCons(catalog, y, t);
    ConsWeight((AuthorOf(catalog, y.0), y.1), AuthorPairs(catalog, t), a);
  }

  /** A row in front of the per-book table adds its author to the authors listed. */
  lemma AuthorKeysCons(catalog: seq<Record>, y: (int, nat), t: Table<int>)
    ensures multiset(AuthorsOf(catalog, Keys([y] + t)))
         == multiset{AuthorOf(catalog, y.0)} + multiset(AuthorsOf(catalog, Keys(t)))
  {
    ConsPair(y, t);
    AuthorsOfCons(catalog, y.0, Keys(t));
  }

  lemma AuthorsOfCons(catalog: seq<Record>, id: int, ids: seq<int>)
    ensures AuthorsOf(catalog, [id] + ids) == [AuthorOf(catalog, id)] + AuthorsOf(catalog, ids)
  {
    var l := AuthorsOf(catalog, [id] + ids);
    forall i | 0 <= i < |l| ensures l[i] == ([AuthorOf(catalog, id)] + AuthorsOf(catalog, ids))[i] {
      if i > 0 {
        assert ([id] + ids)[i] == ids[i - 1];
      }
    }
  }

  /** Inserting a row into the per-book table adds its count to its author's weight. */
  lemma {:induction false} AuthorWeightInsert(catalog: seq<Record>, x: (int, nat), s: Table<int>, a: Value)
    ensures WeightOf(AuthorPairs(catalog, InsertDesc(x, s)), a)
         == WeightOf(AuthorPairs(catalog, s), a) + (if AuthorOf(catalog, x.0) == a then x.1 else 0)
    decreases |s|
  {
    if |s| == 0 || s[0].1 <= x.1 {
      AuthorWeightCons(catalog, x, s, a);
    } else {
      var rest := InsertDesc(x, s[1..]);
      assert InsertDesc(x, s) == [s[0]] + rest;
      assert s == [s[0]] + s[1..];
      AuthorWeightInsert(catalog, x, s[1..], a);
      AuthorWeightCons(catalog, s[0], rest, a);
      AuthorWeightCons(catalog, s[0], s[1..], a);
    }
  }

  /** Inserting a row into the per-book table adds its author to the authors listed. */
  lemma {:induction false} AuthorKeysInsert(catalog: seq<Record>, x: (int, nat), s: Table<int>)
    ensures multiset(AuthorsOf(catalog, Keys(InsertDesc(x, s))))
         == multiset(AuthorsOf(catalog, Keys(s))) + multiset{AuthorOf(catalog, x.0)}
    decreases |s|
  {
    if |s| == 0 || s[0].1 <= x.1 {
      AuthorKeysCons(catalog, x, s);
    } else {
      var rest := InsertDesc(x, s[1..]);
      assert InsertDesc(x, s) == [s[0]] + rest;
      assert s == [s[0]] + s[1..];
      AuthorKeysInsert(catalog, x, s[1..]);
      AuthorKeysCons(catalog, s[0], rest);
      AuthorKeysCons(catalog, s[0], s[1..]);
    }
  }

  /** Sorting the per-book table changes no author's weight. */
  lemma {:induction false} AuthorWeightSort(catalog: seq<Record>, t: Table<int>, a: Value)
    ensures WeightOf(AuthorPairs(catalog, SortDesc(t)), a) == WeightOf(AuthorPairs(catalog, t), a)
    decreases |t|
  {
    if |t| > 0 {
      AuthorWeightSort(catalog, t[1..], a);
      AuthorWeightInsert(catalog, t[0], SortDesc(t[1..]), a);
      assert t == [t[0]] + t[1..];
      AuthorWeightCons(catalog, t[0], t[1..], a);
    }
  }

  /** Sorting the per-book table keeps the authors listed, counted with repetition. */
  lemma {:induction false} AuthorKeysSort(catalog: seq<Record>, t: Table<int>)
    ensures multiset(AuthorsOf(catalog, Keys(SortDesc(t)))) == multiset(AuthorsOf(catalog, Keys(t)))
    decreases |t|
  {
    if |t| > 0 {
      AuthorKeysSort(catalog, t[1..]);
      AuthorKeysInsert(catalog, t[0], SortDesc(t[1..]));
      assert t == [t[0]] + t[1..];
      AuthorKeysCons(catalog, t[0], t[1..]);
    }
  }

  /** One dict update adds the weight to the author of its key. */
  lemma {:induction false} AuthorPairsAdd(catalog: seq<Record>, t: Table<int>, k: int, w: nat, a: Value)
    ensures WeightOf(AuthorPairs(catalog, Add(t, k, w)), a)
         == WeightOf(AuthorPairs(catalog, t), a) + (if AuthorOf(catalog, k) == a then w else 0)
    decreases |t|
  {
    if |t| == 0 {
      AuthorWeightCons(catalog, (k, w), [], a);
    } else {
      assert t == [t[0]] + t[1..];
      AuthorWeightCons(catalog, t[0], t[1..], a);
      if t[0].0 == k {
        AuthorWeightCons(catalog, (k, t[0].1 + w), t[1..], a);
      } else {
        AuthorPairsAdd(catalog, t[1..], k, w, a);
        AuthorWeightCons(catalog, t[0], Add(t[1..], k, w), a);
      }
    }
  }

  /** Merging rows of equal id first does not change any author's weight. */
  lemma {:induction false} AuthorPairsWeighted(catalog: seq<Record>, ps: seq<(int, nat)>, a: Value)
    ensures WeightOf(AuthorPairs(catalog, Weighted(ps)), a) == WeightOf(AuthorPairs(catalog, ps), a)
    decreases |ps|
  {
    if |ps| > 0 {
      var init := ps[..|ps| - 1];
      var last := ps[|ps| - 1];
      AuthorPairsWeighted(catalog, init, a);
      AuthorPairsAdd(catalog, Weighted(init), last.0, last.1, a);
      AuthorPairsSnoc(catalog, ps, |ps| - 1);
      assert ps[..|ps|] == ps;
      WeightOfSnoc(AuthorPairs(catalog, init), (AuthorOf(catalog, last.0), last.1), a);
    }
  }

  /** The three sorted tables `show_request_statistics` prints. */
  datatype Stats = Stats(perBook: Table<int>, authorRequests: Table<Value>, authorBooks: Table<Value>)

  function RequestStats(catalog: seq<Record>, log: seq<int>): Stats {
    var perBook := SortDesc(Tally(log));
    var pairs := AuthorPairs(catalog, perBook);
    Stats(perBook, SortDesc(Weighted(pairs)), SortDesc(Tally(Keys(pairs))))
  }

  /**
   * The counting in `show_request_statistics`: requests per id, sorted; then one
   * pass over the sorted rows adding each row's count, and one book, to its
   * author; then both author tables sorted.
   */
  method RequestStatistics(catalog: seq<Record>, log: seq<int>) returns (s: Stats)
    ensures s == RequestStats(catalog, log)
  {
    var cantBooksReq := CountOccurrences(log);
    var perBook := SortDesc(cantBooksReq);
    var countAuthorRequests: Table<Value> := [];
    var countAuthorBooks: Table<Value> := [];
    for i := 0 to |perBook|
      invariant countAuthorRequests == Weighted(AuthorPairs(catalog, perBook[..i]))
      invariant countAuthorBooks == Tally(Keys(AuthorPairs(catalog, perBook[..i])))
    {
      var noBook := perBook[i].0;
      var countBooks := perBook[i].1;
      var info := InfoFromData(catalog, noBook);
      ghost var before := AuthorPairs(catalog, perBook[..i]);
      AuthorPairsSnoc(catalog, perBook, i);
      WeightedSnoc(before, (info.author, countBooks));
      TallySnoc(Keys(before), info.author);
      countAuthorRequests := Add(countAuthorRequests, info.author, countBooks);
      countAuthorBooks := Add(countAuthorBooks, info.author, 1);
    }
    assert perBook[..|perBook|] == perBook;
    s := Stats(perBook, SortDesc(countAuthorRequests), SortDesc(countAuthorBooks));
  }

  /** The counts of a table of `(author, count)` pairs add up as the counts they were copied from. */
  lemma {:induction false} SumAuthorPairs(catalog: seq<Record>, books: Table<int>)
    ensures Sum(AuthorPairs(catalog, books)) == Sum(books)
    decreases |books|
  {
    if |books| > 0 {
      assert AuthorPairs(catalog, books)[1..] == AuthorPairs(catalog, books[1..]);
      SumAuthorPairs(catalog, books[1..]);
    }
  }

  /** Some id of the log belongs to a book by author `a` (`"-"` for an id the catalog lacks). */
  predicate RequestedAuthor(catalog: seq<Record>, log: seq<int>, a: Value) {
    exists id :: id in log && AuthorOf(catalog, id) == a
  }

  lemma PerBookCounts(log: seq<int>)
    ensures Positive(SortDesc(Tally(log)))
    ensures Sum(SortDesc(Tally(log))) == |log|
  {
    TallyMeaning(log);
    SortDescPositive(Tally(log));
  }

  lemma PerBookKeys(log: seq<int>, id: int)
    ensures id in Keys(SortDesc(Tally(log))) <==> id in log
  {
    TallyKeys(log);
    SortDescKeys(Tally(log), id);
  }

  /**
   * Requests per book: every requested id once, with its number of rows in the
   * log, sorted by count with ties in first-requested order; the counts are
   * at least 1 and add up to the number of rows.
   */
  lemma PerBookMeaning(catalog: seq<Record>, log: seq<int>)
    ensures var t := RequestStats(catalog, log).perBook;
      && multiset(t) == multiset(Tally(log))
      && (forall id :: Get(Tally(log), id) == multiset(log)[id])
      && (forall id :: id in Keys(t) <==> id in log)
      && NonIncreasing(t)
      && (forall c :: WithCount(t, c) == WithCount(Tally(log), c))
      && Positive(t)
      && Sum(t) == |log|
  {
    TallyMeaning(log);
    PerBookCounts(log);
    forall c ensures WithCount(SortDesc(Tally(log)), c) == WithCount(Tally(log), c) {
      SortDescStable(Tally(log), c);
    }
    forall id ensures id in Keys(SortDesc(Tally(log))) <==> id in log {
      PerBookKeys(log, id);
    }
  }

  /**
   * Requests per author: one entry per author of a requested book, ids missing
   * from the catalog counted under "-", each holding the number of log rows
   * whose book has that author; counts at least 1, sorted, and adding up to
   * the number of rows of the log.
   */
  lemma AuthorRequestsMeaning(catalog: seq<Record>, log: seq<int>)
    ensures var t := RequestStats(catalog, log).authorRequests;
      && (forall a :: Get(t, a) == multiset(AuthorsOf(catalog, log))[a])
      && (forall a :: a in Keys(t) <==> RequestedAuthor(catalog, log, a))
      && NonIncreasing(t)
      && Positive(t)
      && Sum(t) == |log|
  {
    forall a ensures Get(RequestStats(catalog, log).authorRequests, a) == multiset(AuthorsOf(catalog, log))[a] {
      AuthorRequestCount(catalog, log, a);
    }
    var perBook := SortDesc(Tally(log));
    var pairs := AuthorPairs(catalog, perBook);
    PerBookCounts(log);
    SumAuthorPairs(catalog, perBook);
    assert Positive(pairs);
    SortDescPositive(Weighted(pairs));
    forall a ensures a in Keys(SortDesc(Weighted(pairs))) <==> RequestedAuthor(catalog, log, a) {
      SortDescKeys(Weighted(pairs), a);
      AuthorKeys(catalog, log, a);
    }
  }

  /** An author is among the keys of the author pairs exactly when some book of the table is theirs. */
  lemma PairsKeys(catalog: seq<Record>, books: Table<int>, a: Value)
    ensures a in Keys(AuthorPairs(catalog, books)) <==> exists i :: 0 <= i < |books| && AuthorOf(catalog, books[i].0) == a
  {
    var pairs := AuthorPairs(catalog, books);
    if a in Keys(pairs) {
      var i :| 0 <= i < |pairs| && Keys(pairs)[i] == a;
      assert AuthorOf(catalog, books[i].0) == a;
    }
    if exists i :: 0 <= i < |books| && AuthorOf(catalog, books[i].0) == a {
      var i :| 0 <= i < |books| && AuthorOf(catalog, books[i].0) == a;
      assert Keys(pairs)[i] == a;
    }
  }

  /** An author is among the keys of the author pairs exactly when some logged id has that author. */
  lemma AuthorKeys(catalog: seq<Record>, log: seq<int>, a: Value)
    ensures a in Keys(AuthorPairs(catalog, SortDesc(Tally(log)))) <==> RequestedAuthor(catalog, log, a)
  {
    var perBook := SortDesc(Tally(log));
    PairsKeys(catalog, perBook, a);
    if exists i :: 0 <= i < |perBook| && AuthorOf(catalog, perBook[i].0) == a {
      var i :| 0 <= i < |perBook| && AuthorOf(catalog, perBook[i].0) == a;
      assert Keys(perBook)[i] == perBook[i].0;
      PerBookKeys(log, perBook[i].0);
    }
    if RequestedAuthor(catalog, log, a) {
      var id :| id in log && AuthorOf(catalog, id) == a;
      PerBookKeys(log, id);
      var i :| 0 <= i < |perBook| && Keys(perBook)[i] == id;
      assert AuthorOf(catalog, perBook[i].0) == a;
    }
  }

  /** An author's request total is the number of rows of the log whose book has that author. */
  lemma AuthorRequestCount(catalog: seq<Record>, log: seq<int>, a: Value)
    ensures Get(RequestStats(catalog, log).authorRequests, a) == multiset(AuthorsOf(catalog, log))[a]
  {
    var pairs := AuthorPairs(catalog, SortDesc(Tally(log)));
    SortDescGet(Weighted(pairs), a);
    AuthorWeightSort(catalog, Tally(log), a);
    AuthorPairsWeighted(catalog, Ones(log), a);
    assert AuthorPairs(catalog, Ones(log)) == Ones(AuthorsOf(catalog, log));
    TallyGet(AuthorsOf(catalog, log), a);
  }

  /** An author's book count is the number of distinct logged ids whose book has that author. */
  lemma AuthorBookCount(catalog: seq<Record>, log: seq<int>, a: Value)
    ensures Get(RequestStats(catalog, log).authorBooks, a) == multiset(AuthorsOf(catalog, Dedup(log)))[a]
  {
    var perBook := SortDesc(Tally(log));
    var authors := Keys(AuthorPairs(catalog, perBook));
    assert Get(RequestStats(catalog, log).authorBooks, a) == multiset(authors)[a] by {
      SortDescGet(Tally(authors), a);
      TallyGet(authors, a);
    }
    assert multiset(authors) == multiset(AuthorsOf(catalog, Dedup(log))) by {
      assert authors == AuthorsOf(catalog, Keys(perBook));
      AuthorKeysSort(catalog, Tally(log));
      TallyKeys(log);
    }
  }

  /**
   * Books per author: one entry per author of a requested book, each holding
   * the number of distinct requested ids of that author; counts at least 1,
   * sorted, adding up to the number of distinct ids in the log.
   */
  lemma AuthorBooksMeaning(catalog: seq<Record>, log: seq<int>)
    ensures var t := RequestStats(catalog, log).authorBooks;
      && (forall a :: Get(t, a) == multiset(AuthorsOf(catalog, Dedup(log)))[a])
      && (forall a :: a in Keys(t) <==> RequestedAuthor(catalog, log, a))
      && NonIncreasing(t)
      && Positive(t)
      && Sum(t) == |Dedup(log)|
  {
    forall a ensures Get(RequestStats(catalog, log).authorBooks, a) == multiset(AuthorsOf(catalog, Dedup(log)))[a] {
      AuthorBookCount(catalog, log, a);
    }
    var pairs0 := AuthorPairs(catalog, SortDesc(Tally(log)));
    forall a ensures a in Keys(SortDesc(Tally(Keys(pairs0)))) <==> RequestedAuthor(catalog, log, a) {
      SortDescKeys(Tally(Keys(pairs0)), a);
      TallyKeys(Keys(pairs0));
      AuthorKeys(catalog, log, a);
    }
    AuthorBookTotals(catalog, log);
  }

  lemma AuthorBookTotals(catalog: seq<Record>, log: seq<int>)
    ensures var t := RequestStats(catalog, log).authorBooks;
      && NonIncreasing(t)
      && Positive(t)
      && Sum(t) == |Dedup(log)|
  {
    var perBook := SortDesc(Tally(log));
    var authors := Keys(AuthorPairs(catalog, perBook));
    TallyMeaning(log);
    TallyMeaning(authors);
    SortDescPositive(Tally(authors));
    assert |perBook| == |Tally(log)| by {
      assert |multiset(perBook)| == |multiset(Tally(log))|;
    }
    assert |Keys(Tally(log))| == |Tally(log)|;
  }

  /** A logged id the catalog lacks is counted under author "-" in both author tables. */
  lemma UnknownIdCountedUnderDash(catalog: seq<Record>, log: seq<int>, id: int)
    requires id in log && !InCatalog(catalog, id)
    ensures StrV("-") in Keys(RequestStats(catalog, log).authorRequests)
    ensures StrV("-") in Keys(RequestStats(catalog, log).authorBooks)
  {
    var perBook := SortDesc(Tally(log));
    var pairs := AuthorPairs(catalog, perBook);
    AuthorRequestsMeaning(catalog, log);
    InfoFromDataMeaning(catalog, id);
    assert AuthorOf(catalog, id) == StrV("-");
    AuthorKeys(catalog, log, StrV("-"));
    TallyMeaning(Keys(pairs));
    SortDescKeys(Tally(Keys(pairs)), StrV("-"));
  }

  /** The `Language` of every record, in order. */
  function Languages(data: seq<Record>): (ls: seq<Value>)
    ensures |ls| == |data| && forall i :: 0 <= i < |data| ==> ls[i] == data[i].language
  {
    seq(|data|, i requires 0 <= i < |data| => data[i].language)
  }

  lemma LanguagesSnoc(data: seq<Record>, i: nat)
    requires i < |data|
    ensures Languages(data[..i + 1]) == Languages(data[..i]) + [data[i].language]
  {
    var before := Languages(data[..i]);
    var after := Languages(data[..i + 1]);
    forall j | 0 <= j < |after| ensures after[j] == (before + [data[i].language])[j] {
      assert data[..i + 1][j] == data[j];
      if j < i {
        assert data[..i][j] == data[j];
      }
    }
  }

  /** The `data_lang_stat` dict `print_data` fills, one record at a time. */
  method LanguageTally(data: seq<Record>) returns (stat: Table<Value>)
    ensures stat == Tally(Languages(data))
  {
    stat := [];
    for i := 0 to |data|
      invariant stat == Tally(Languages(data[..i]))
    {
      var vlang := data[i].language;
      LanguagesSnoc(data, i);
      TallySnoc(Languages(data[..i]), vlang);
      stat := Add(stat, vlang, 1);
    }
    assert data[..|data|] == data;
  }

  /**
   * Every language found is listed once with its number of records, in order
   * of first appearance; the "Languages found" line is printed exactly when
   * the data is not empty.
   */
  lemma LanguageTallyMeaning(data: seq<Record>)
    ensures var t := Tally(Languages(data));
      && (forall l :: Get(t, l) == multiset(Languages(data))[l])
      && Keys(t) == Dedup(Languages(data))
      && Sum(t) == |data|
      && (|t| > 0 <==> |data| > 0)
  {
    TallyMeaning(Languages(data));
    if |data| > 0 {
      assert Languages(data)[0] in Dedup(Languages(data));
    }
  }
}
