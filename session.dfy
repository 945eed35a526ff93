/**
 * The session state of the menu: the whole catalog, the books the conditions
 * leave (`filtered_data`), the condition groups entered so far (`cond_total`)
 * and the request log the e-mail option appends to. `query_field` and the
 * menu options are the methods of `Session`.
 */
module Session {
  import opened Wrappers
  import opened Strings
  import opened Numbers
  import opened Catalog
  import opened Filter
  import opened SearchText
  import opened Conditions
  import opened Wrap
  import opened Email
  import opened Counting
  import opened Statistics

  /**
   * The values `query_field` writes into the template, one per search word:
   * the words of the cleaned input, or the single `int(word)` of a number.
   */
  function SearchValues(raw: string, inputAsString: bool): seq<Value> {
    if inputAsString then
      var ws := Split(Clean(raw));
      seq(|ws|, i requires 0 <= i < |ws| => StrV(ws[i]))
    else
      match ParseInt(raw)
      case None => []
      case Some(n) => [IntV(n)]
  }

  /** `word`, or `int(word)` in integer mode, for each word. */
  function WordValues(words: seq<string>, inputAsString: bool): seq<Value>
    requires inputAsString || forall i :: 0 <= i < |words| ==> ParseInt(words[i]).Some?
  {
    seq(|words|, i requires 0 <= i < |words| => if inputAsString then StrV(words[i]) else IntV(ParseInt(words[i]).value))
  }

  /** One group per search value, in the order of the words. */
  function QueryGroups(template: Group, vs: seq<Value>): seq<Group> {
    seq(|vs|, i requires 0 <= i < |vs| => Instantiate(template, vs[i]))
  }

  lemma SliceSnoc<T>(s: seq<T>, i: nat)
    requires i < |s|
    ensures s[..i + 1] == s[..i] + [s[i]]
  {
  }

  lemma FoldFilterSnoc(base: seq<Record>, gs: seq<Group>, g: Group)
    ensures FoldFilter(base, gs + [g]) == FilterData(FoldFilter(base, gs), g, true)
  {
    assert (gs + [g])[..|gs|] == gs;
  }

  /**
   * The word loop of `query_field`: for each word in turn, the template with
   * the word's value in every slot is appended to `cond_total` and filters
   * `filtered_data`.
   */
  method AddWords(words: seq<string>, template: Group, inputAsString: bool, condTotal: seq<Group>, filteredData: seq<Record>)
    returns (conds: seq<Group>, filtered: seq<Record>)
    requires inputAsString || forall i :: 0 <= i < |words| ==> ParseInt(words[i]).Some?
    ensures conds == condTotal + QueryGroups(template, WordValues(words, inputAsString))
    ensures filtered == FoldFilter(filteredData, QueryGroups(template, WordValues(words, inputAsString)))
  {
    ghost var vs := WordValues(words, inputAsString);
    ghost var gs := QueryGroups(template, vs);
    conds := condTotal;
    filtered := filteredData;
    for i := 0 to |words|
      invariant conds == condTotal + gs[..i]
      invariant filtered == FoldFilter(filteredData, gs[..i])
    {
      var v: Value;
      if inputAsString {
        v := StrV(words[i]);
      } else {
        var n := ParseInt(words[i]);
        v := IntV(n.value);
      }
      assert v == vs[i];
      var partialCond := BuildGroup(template, v);
      assert gs[i] == partialCond;
      SliceSnoc(gs, i);
      FoldFilterSnoc(filteredData, gs[..i], gs[i]);
      conds := conds + [partialCond];
      filtered := FilterRecords(filtered, partialCond, true);
    }
    assert gs[..|words|] == gs;
  }

  /**
   * The words `query_field` splits its input into give the search values: in
   * integer mode the input `int()` accepted is a single word.
   */
  lemma SearchWords(raw: string, inputAsString: bool, searchCond: string)
    requires inputAsString ==> searchCond == Clean(raw)
    requires !inputAsString ==> searchCond == raw && ParseInt(raw).Some?
    ensures inputAsString || forall i :: 0 <= i < |Split(searchCond)| ==> ParseInt(Split(searchCond)[i]).Some?
    ensures WordValues(Split(searchCond), inputAsString) == SearchValues(raw, inputAsString)
  {
    if !inputAsString {
      IntSearchWords(raw);
    }
  }

  /** In integer mode the single word gives the single value `int()` read. */
  lemma IntSearchWords(raw: string)
    requires ParseInt(raw).Some?
    ensures forall i :: 0 <= i < |Split(raw)| ==> ParseInt(Split(raw)[i]).Some?
    ensures WordValues(Split(raw), false) == SearchValues(raw, false)
  {
    var w := IntWord(raw);
    OneIntWord(Split(raw), w);
    assert SearchValues(raw, false) == [IntV(ParseInt(raw).value)];
  }

  lemma OneIntWord(ws: seq<string>, w: string)
    requires ws == [w] && ParseInt(w).Some?
    ensures forall i :: 0 <= i < |ws| ==> ParseInt(ws[i]).Some?
    ensures WordValues(ws, false) == [IntV(ParseInt(w).value)]
  {
  }

  /** An input `int()` accepts splits into one word, which `int()` reads the same way. */
  lemma IntWord(raw: string) returns (w: string)
    requires ParseInt(raw).Some?
    ensures Split(raw) == [w] && ParseInt(w) == ParseInt(raw)
  {
    w := Strip(raw);
    SplitOfSingleWord(raw);
    ParseIntOfStrip(raw);
  }

  /** What `query_field` did with the input. */
  datatype QueryOutcome =
    | NotANumber          // integer mode and `int()` refused the input
    | NothingToSearch     // the cleaned input is empty
    | Searched(found: nat)  // the number of books left; `print_data` shows them when there are any

  /** What the e-mail option did. */
  datatype SendOutcome = NotApplicable | InvalidEmail | Sent(bookId: int)

  /** The line naming the one remaining book. */
  function BookText(r: Record): string {
    "(Id: " + ValueText(IntV(r.id)) + ", Author: " + ValueText(r.authors) + ", Title: " + ValueText(r.title)
      + ", lang:" + ValueText(r.language) + ")"
  }

  class Session {
    /** Loaded once at the start of `show_menu` and never reassigned. */
    const catalogData: seq<Record>
    var filteredData: seq<Record>
    var condTotal: seq<Group>
    var requestLog: seq<int>

    /** `filtered_data` is the catalog filtered by every group of `cond_total`, in order. */
    ghost predicate Valid()
      reads this
    {
      filteredData == FoldFilter(catalogData, condTotal)
    }

    /** The books left are always an order-preserving sub-list of the catalog. */
    lemma FilteredIsSublist()
      requires Valid()
      ensures IsSubsequence(filteredData, catalogData)
    {
      FoldFilterSubsequence(catalogData, condTotal);
    }

    /** The start of `show_menu`: every book, no condition. */
    constructor (catalog: seq<Record>, log: seq<int>)
      ensures Valid()
      ensures catalogData == catalog && filteredData == catalog && condTotal == [] && requestLog == log
    {
      catalogData := catalog;
      filteredData := catalog;
      condTotal := [];
      requestLog := log;
    }

    /**
     * `query_field(prompt, conditions, reset_filter, input_as_string)` with the
     * typed line passed in as `raw`. Each search word appends one copy of the
     * template, holding the word in every slot, and filters the remaining
     * books with it. An input that is not a number in integer mode, or that
     * cleans to nothing, changes nothing, not even a requested reset.
     */
    method QueryField(raw: string, template: Group, resetFilter: bool, inputAsString: bool)
      returns (outcome: QueryOutcome)
      requires Valid()
      modifies this`filteredData, this`condTotal
      ensures Valid()
      ensures outcome == NotANumber <==> !inputAsString && ParseInt(raw).None?
      ensures outcome == NothingToSearch <==> inputAsString && |Clean(raw)| == 0
      ensures !outcome.Searched? ==> condTotal == old(condTotal) && filteredData == old(filteredData)
      ensures outcome.Searched? ==>
        condTotal == (if resetFilter then [] else old(condTotal)) + QueryGroups(template, SearchValues(raw, inputAsString))
      ensures outcome.Searched? ==>
        filteredData == FoldFilter(if resetFilter then catalogData else old(filteredData),
                                   QueryGroups(template, SearchValues(raw, inputAsString)))
      ensures outcome.Searched? ==> outcome.found == |filteredData|
    {
      var searchCond := raw;
      if inputAsString {
        searchCond := CleanSearch(raw);
      } else {
        var test := ParseInt(raw);
        if test.None? {
          return NotANumber;
        }
      }
      if |searchCond| == 0 {
        return NothingToSearch;
      }
      outcome := RunSearch(raw, searchCond, template, resetFilter, inputAsString);
    }

    /** The part of `query_field` after the input was accepted: the reset, then the word loop. */
    method RunSearch(raw: string, searchCond: string, template: Group, resetFilter: bool, inputAsString: bool)
      returns (outcome: QueryOutcome)
      requires Valid()
      requires inputAsString ==> searchCond == Clean(raw)
      requires !inputAsString ==> searchCond == raw && ParseInt(raw).Some?
      modifies this`filteredData, this`condTotal
      ensures Valid()
      ensures condTotal == (if resetFilter then [] else old(condTotal)) + QueryGroups(template, SearchValues(raw, inputAsString))
      ensures filteredData == FoldFilter(if resetFilter then catalogData else old(filteredData),
                                         QueryGroups(template, SearchValues(raw, inputAsString)))
      ensures outcome == Searched(|filteredData|)
    {
      var conds := condTotal;
      var filtered := filteredData;
      if resetFilter {
        filtered := catalogData;
        conds := [];
      }
      var words := Split(searchCond);
      SearchWords(raw, inputAsString, searchCond);
      ghost var gs := QueryGroups(template, SearchValues(raw, inputAsString));
      ghost var base := conds;
      conds, filtered := AddWords(words, template, inputAsString, conds, filtered);
      FoldFilterSplit(catalogData, base, gs);
      condTotal := conds;
      filteredData := filtered;
      outcome := Searched(|filtered|);
    }

    /** Option 1: search a word in the author or the title, dropping the earlier conditions. */
    method SearchAnyField(raw: string) returns (outcome: QueryOutcome)
      requires Valid()
      modifies this`filteredData, this`condTotal
      ensures Valid()
      ensures outcome.Searched? <==> |Clean(raw)| > 0
      ensures !outcome.Searched? ==> condTotal == old(condTotal) && filteredData == old(filteredData)
      ensures outcome.Searched? ==> condTotal == QueryGroups(AnyFieldTemplate, SearchValues(raw, true))
      ensures outcome.Searched? ==> filteredData == FoldFilter(catalogData, QueryGroups(AnyFieldTemplate, SearchValues(raw, true)))
    {
      outcome := QueryField(raw, AnyFieldTemplate, true, true);
    }

    /** Option 2: search a book id, dropping the earlier conditions. */
    method SearchById(raw: string) returns (outcome: QueryOutcome)
      requires Valid()
      modifies this`filteredData, this`condTotal
      ensures Valid()
      ensures outcome.Searched? <==> ParseInt(raw).Some?
      ensures !outcome.Searched? ==> condTotal == old(condTotal) && filteredData == old(filteredData)
      ensures outcome.Searched? ==>
        var n := ParseInt(raw).value;
        && condTotal == [[Cond(TextNo, IntV(n)), Operator(IntV(n))]]
        && filteredData == Select(catalogData, r => Matches(r, TextNo, IntV(n)))
    {
      outcome := QueryField(raw, FieldTemplate(TextNo), true, false);
      if outcome.Searched? {
        var n := ParseInt(raw).value;
        InstantiateField(TextNo, IntV(n));
        FieldSearchOneValue(catalogData, TextNo, IntV(n));
      }
    }

    /**
     * Options 3, 4 and 5: add an author, title or language condition to the
     * ones already entered. Refused (`None`) while one book or none remains.
     */
    method AddCondition(f: Field, raw: string) returns (outcome: Option<QueryOutcome>)
      requires Valid()
      requires f != TextNo
      modifies this`filteredData, this`condTotal
      ensures Valid()
      ensures outcome.None? <==> |old(filteredData)| <= 1
      ensures outcome.Some? ==> (outcome.value.Searched? <==> |Clean(raw)| > 0)
      ensures !(outcome.Some? && outcome.value.Searched?) ==> condTotal == old(condTotal) && filteredData == old(filteredData)
      ensures outcome.Some? && outcome.value.Searched? ==>
        condTotal == old(condTotal) + QueryGroups(FieldTemplate(f), SearchValues(raw, true))
        && filteredData == FoldFilter(old(filteredData), QueryGroups(FieldTemplate(f), SearchValues(raw, true)))
      ensures outcome.Some? && outcome.value.Searched? ==>
        forall x :: x in filteredData <==>
          x in old(filteredData) && forall i :: 0 <= i < |SearchValues(raw, true)| ==> Matches(x, f, SearchValues(raw, true)[i])
    {
      if |filteredData| <= 1 {
        return None;
      }
      ghost var before := filteredData;
      var q := QueryField(raw, FieldTemplate(f), false, true);
      outcome := Some(q);
      FieldSearchAllValues(before, f, SearchValues(raw, true));
    }

    /** Option 6: back to the whole catalog and no condition. */
    method ResetConditions()
      modifies this`filteredData, this`condTotal
      ensures Valid()
      ensures filteredData == catalogData && condTotal == []
    {
      filteredData := catalogData;
      condTotal := [];
    }

    /** Option 7: the language tally of the remaining books, once some condition is set. */
    method ShowResults() returns (shown: Option<Table<Value>>)
      ensures shown.Some? <==> |condTotal| > 0
      ensures shown.Some? ==> shown.value == Tally(Languages(filteredData))
    {
      if |condTotal| > 0 {
        var stat := LanguageTally(filteredData);
        return Some(stat);
      }
      return None;
    }

    /**
     * Option 8: with exactly one book left, read an address, strip it and, when
     * it is valid, record a request for that book in the log.
     */
    method SendEbook(rawEmail: string) returns (outcome: SendOutcome)
      modifies this`requestLog
      ensures outcome == NotApplicable <==> |filteredData| != 1
      ensures outcome == InvalidEmail <==> |filteredData| == 1 && !ValidEmail(Strip(rawEmail))
      ensures outcome.Sent? ==> outcome.bookId == filteredData[0].id && requestLog == old(requestLog) + [outcome.bookId]
      ensures !outcome.Sent? ==> requestLog == old(requestLog)
    {
      if |filteredData| != 1 {
        return NotApplicable;
      }
      var emailTo := Strip(rawEmail);
      if ValidEmail(emailTo) {
        var id := filteredData[0].id;
        requestLog := requestLog + [id];
        return Sent(id);
      }
      return InvalidEmail;
    }

    /** Option 9: the three tables of `show_request_statistics`. */
    method Statistics() returns (s: Stats)
      ensures s == RequestStats(catalogData, requestLog)
    {
      s := RequestStatistics(catalogData, requestLog);
    }

    /** The conditions line of the menu, wrapped at column 58. */
    method ConditionsLine() returns (line: string)
      ensures line == Wrapped("Conditions: " + Pretty(condTotal), "| ", 58)
    {
      var pretty := ConditionsPretty(condTotal);
      var s := "Conditions: " + pretty;
      PrettyLastChar(condTotal);
      assert s[|s| - 1] == pretty[|pretty| - 1];
      line := WrapAtPos(s, "| ", 58);
    }

    /** The line naming the one remaining book, wrapped at column 56; empty otherwise. */
    method BookLine() returns (line: string)
      ensures |filteredData| == 1 ==> line == Wrapped(BookText(filteredData[0]), "| ", 56)
      ensures |filteredData| != 1 ==> line == ""
    {
      line := "";
      if |filteredData| == 1 {
        var vtemp := BookText(filteredData[0]);
        line := WrapAtPos(vtemp, "| ", 56);
      }
    }
  }

  /** The rendered conditions never end in a space: they end in `)` or in "condition". */
  lemma PrettyLastChar(conds: seq<Group>)
    ensures |Pretty(conds)| > 0
    ensures Pretty(conds)[|Pretty(conds)| - 1] == if |conds| == 0 then 'n' else ')'
  {
  }

  /** A non-empty string word without whitespace, listed symbols or upper-case letters. */
  predicate IsSearchWord(v: Value) {
    && v.StrV? && |v.s| > 0 && NoSymbol(v.s)
    && forall j :: 0 <= j < |v.s| ==> !IsSpace(v.s[j]) && !IsUpper(v.s[j])
  }

  /**
   * The words of a text search are what `clean_search` leaves, split at
   * whitespace: each is non-empty and holds no whitespace, no listed symbol
   * and no upper-case letter. There are none exactly when the cleaned text is
   * empty.
   */
  lemma TextSearchWords(raw: string)
    ensures |SearchValues(raw, true)| == 0 <==> |Clean(raw)| == 0
    ensures forall i :: 0 <= i < |SearchValues(raw, true)| ==> IsSearchWord(SearchValues(raw, true)[i])
  {
    CleanWords(raw);
  }

  lemma CleanWords(raw: string)
    ensures |Split(Clean(raw))| == 0 <==> |Clean(raw)| == 0
    ensures forall k :: 0 <= k < |Split(Clean(raw))| ==>
      NoSymbol(Split(Clean(raw))[k]) && forall j :: 0 <= j < |Split(Clean(raw))[k]| ==> !IsUpper(Split(Clean(raw))[k][j])
  {
    CleanProperties(raw);
    WordsOfCleanText(Clean(raw));
  }

  lemma WordsOfCleanText(c: string)
    requires NoSymbol(c) && forall i :: 0 <= i < |c| ==> !IsUpper(c[i])
    requires c == [] || !IsSpace(c[0])
    ensures |Split(c)| == 0 <==> |c| == 0
    ensures forall k :: 0 <= k < |Split(c)| ==>
      NoSymbol(Split(c)[k]) && forall j :: 0 <= j < |Split(c)[k]| ==> !IsUpper(Split(c)[k][j])
  {
    SplitChars(c);
    var ws := Split(c);
    forall k | 0 <= k < |ws|
      ensures NoSymbol(ws[k]) && forall j :: 0 <= j < |ws[k]| ==> !IsUpper(ws[k][j])
    {
      forall j | 0 <= j < |ws[k]| ensures ws[k][j] !in Symbols && !IsUpper(ws[k][j]) {
        var x :| 0 <= x < |c| && c[x] == ws[k][j];
      }
    }
  }

  /** The group built from a single-field template for one value. */
  lemma InstantiateField(f: Field, v: Value)
    ensures Instantiate(FieldTemplate(f), v) == [Cond(f, v), Operator(v)]
  {
  }

  /** Searching by the decimal text of an id gives one group, `Text#` and the marker both holding that id. */
  lemma IdSearchGroups(n: int)
    ensures QueryGroups(FieldTemplate(TextNo), SearchValues(IntToString(n), false)) == [[Cond(TextNo, IntV(n)), Operator(IntV(n))]]
  {
    ParseIntOfIntToString(n);
    InstantiateField(TextNo, IntV(n));
    var gs := QueryGroups(FieldTemplate(TextNo), [IntV(n)]);
    assert gs == [] + [gs[0]];
  }

  /** A single-field search for one value keeps exactly the books whose field matches it. */
  lemma FieldSearchOneValue(data: seq<Record>, f: Field, v: Value)
    ensures FoldFilter(data, QueryGroups(FieldTemplate(f), [v])) == Select(data, r => Matches(r, f, v))
  {
    var g := Instantiate(FieldTemplate(f), v);
    InstantiateField(f, v);
    assert QueryGroups(FieldTemplate(f), [v]) == [] + [g];
    SingleFieldGroup(data, f, v, v);
  }

  /**
   * A single-field search with several words keeps the books whose field
   * matches every word: each word narrows what the previous ones left.
   */
  lemma {:induction false} FieldSearchAllValues(data: seq<Record>, f: Field, vs: seq<Value>)
    ensures forall x :: x in FoldFilter(data, QueryGroups(FieldTemplate(f), vs)) <==>
      x in data && forall i :: 0 <= i < |vs| ==> Matches(x, f, vs[i])
    decreases |vs|
  {
    if |vs| > 0 {
      var k := |vs| - 1;
      var gs := QueryGroups(FieldTemplate(f), vs);
      assert gs[..k] == QueryGroups(FieldTemplate(f), vs[..k]);
      FieldSearchAllValues(data, f, vs[..k]);
      var before := FoldFilter(data, gs[..k]);
      InstantiateField(f, vs[k]);
      SingleFieldGroup(before, f, vs[k], vs[k]);
      forall x ensures (forall i :: 0 <= i < |vs| ==> Matches(x, f, vs[i]))
        <==> (forall i :: 0 <= i < k ==> Matches(x, f, vs[..k][i])) && Matches(x, f, vs[k]) {
      }
    }
  }

  /**
   * The "author or title" search for one word: the first book must match in
   * both fields, every later book in either of them unless the word is "and".
   */
  lemma AnyFieldSearchOneWord(data: seq<Record>, w: string)
    requires |data| > 0
    ensures FoldFilter(data, QueryGroups(AnyFieldTemplate, [StrV(w)]))
         == (if MatchesBoth(data[0], w) then [data[0]] else [])
            + Select(data[1..], r => if w == "and" then MatchesBoth(r, w) else MatchesEither(r, w))
  {
    var g := Instantiate(AnyFieldTemplate, StrV(w));
    assert g == AnyFieldGroup(w);
    assert QueryGroups(AnyFieldTemplate, [StrV(w)]) == [] + [g];
    AnyFieldCarryOver(data, w);
  }
}
