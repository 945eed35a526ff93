/**
 * The filter engine (`get_filter_data`): keeps the records that pass one
 * condition group. The and/or mode set by an `OPERATOR` entry is not reset
 * between records, so every record after the first is judged in the mode the
 * previous record left behind.
 */
module Filter {
  import opened Strings
  import opened Catalog

  /**
   * One comparison of a record's field with a condition value: an int value by
   * equality, a string value by case-insensitive substring. A string value
   * against an int cell raises AttributeError on `.lower()` and falls back to
   * `==`, which is false.
   */
  function Matches(r: Record, f: Field, v: Value): bool {
    match v
    case IntV(_) => FieldValue(r, f) == v
    case StrV(p) =>
      match FieldValue(r, f)
      case StrV(t) => Contains(Lower(t), Lower(p))
      case IntV(_) => FieldValue(r, f) == v
  }

  /** The two loop variables of the record loop: `passConds` and `and_cond`. */
  datatype Scan = Scan(pass: bool, andMode: bool)

  /** `passConds` after one comparison: `m and passConds` in "and" mode, `m or passConds` otherwise. */
  function Combine(pass: bool, andMode: bool, m: bool): bool {
    if andMode then m && pass else m || pass
  }

  function StepEntry(r: Record, e: Entry, st: Scan): Scan {
    match e
    case Operator(v) => Scan(st.pass, v == AndMarker)
    case Cond(f, v) => Scan(Combine(st.pass, st.andMode, Matches(r, f, v)), st.andMode)
  }

  /** The scan of one record over the entries of a group, from a given start state. */
  function ScanGroup(r: Record, g: Group, st: Scan): Scan
    decreases |g|
  {
    if |g| == 0 then st else StepEntry(r, g[|g| - 1], ScanGroup(r, g[..|g| - 1], st))
  }

  /** The mode after a group: set by its last `OPERATOR` entry, else the mode it started in. */
  function ModeAfter(g: Group, m: bool): bool
    decreases |g|
  {
    if |g| == 0 then m
    else if g[|g| - 1].Operator? then g[|g| - 1].value == AndMarker
    else ModeAfter(g[..|g| - 1], m)
  }

  /** The mode a record leaves behind does not depend on the record or on `passConds`. */
  lemma {:induction false} ScanGroupMode(r: Record, g: Group, st: Scan)
    ensures ScanGroup(r, g, st).andMode == ModeAfter(g, st.andMode)
    decreases |g|
  {
    if |g| > 0 {
      ScanGroupMode(r, g[..|g| - 1], st);
    }
  }

  lemma {:induction false} ModeAfterIdempotent(g: Group, m: bool)
    ensures ModeAfter(g, ModeAfter(g, m)) == ModeAfter(g, m)
    decreases |g|
  {
    if |g| > 0 && !g[|g| - 1].Operator? {
      ModeAfterIdempotent(g[..|g| - 1], m);
      assert ModeAfter(g, ModeAfter(g, m)) == ModeAfter(g[..|g| - 1], ModeAfter(g, m));
    }
  }

  /** `a` is an order-preserving sub-list of `b`. */
  ghost predicate IsSubsequence<T>(a: seq<T>, b: seq<T>)
    decreases |b|
  {
    if |a| == 0 then true
    else if |b| == 0 then false
    else (a[0] == b[0] && IsSubsequence(a[1..], b[1..])) || IsSubsequence(a, b[1..])
  }

  lemma {:induction false} SubsequenceRefl<T>(a: seq<T>)
    ensures IsSubsequence(a, a)
    decreases |a|
  {
    if |a| > 0 {
      SubsequenceRefl(a[1..]);
    }
  }

  lemma {:induction false} SubsequenceTrans<T>(a: seq<T>, b: seq<T>, c: seq<T>)
    requires IsSubsequence(a, b) && IsSubsequence(b, c)
    ensures IsSubsequence(a, c)
    decreases |c|
  {
    if |a| > 0 {
      assert |b| > 0 && |c| > 0;
      if b[0] == c[0] && IsSubsequence(b[1..], c[1..]) {
        if a[0] == b[0] && IsSubsequence(a[1..], b[1..]) {
          SubsequenceTrans(a[1..], b[1..], c[1..]);
        } else {
          SubsequenceTrans(a, b[1..], c[1..]);
        }
      } else {
        SubsequenceTrans(a, b, c[1..]);
      }
    }
  }

  /** The records of `data` kept by a group when the first of them starts in mode `m`. */
  function FilterFrom(data: seq<Record>, g: Group, m: bool): seq<Record>
    decreases |data|
  {
    if |data| == 0 then []
    else
      var st := ScanGroup(data[0], g, Scan(m, m));
      var rest := FilterFrom(data[1..], g, st.andMode);
      if st.pass then [data[0]] + rest else rest
  }

  lemma {:induction false} FilterFromSubsequence(data: seq<Record>, g: Group, m: bool)
    ensures IsSubsequence(FilterFrom(data, g, m), data)
    decreases |data|
  {
    if |data| > 0 {
      var st := ScanGroup(data[0], g, Scan(m, m));
      FilterFromSubsequence(data[1..], g, st.andMode);
      var rest := FilterFrom(data[1..], g, st.andMode);
      assert ([data[0]] + rest)[1..] == rest;
    }
  }

  /** `get_filter_data(data, filter, and_cond)`: with an empty filter, the input itself. */
  function FilterData(data: seq<Record>, g: Group, andCond: bool): (res: seq<Record>)
    ensures |g| == 0 ==> res == data
  {
    if |g| > 0 then FilterFrom(data, g, andCond) else data
  }

  /** `get_filter_data` returns an order-preserving sub-list of its input. */
  lemma FilterDataSubsequence(data: seq<Record>, g: Group, andCond: bool)
    ensures IsSubsequence(FilterData(data, g, andCond), data)
  {
    if |g| > 0 {
      FilterFromSubsequence(data, g, andCond);
    } else {
      SubsequenceRefl(data);
    }
  }

  /** The records of `data` for which `keep` holds, in order. */
  function Select(data: seq<Record>, keep: Record -> bool): (res: seq<Record>)
    ensures forall x :: x in res <==> x in data && keep(x)
    decreases |data|
  {
    if |data| == 0 then []
    else
      var rest := Select(data[1..], keep);
      assert forall x :: x in data <==> x == data[0] || x in data[1..];
      if keep(data[0]) then [data[0]] + rest else rest
  }

  /** A group whose mode is already its own fixed point judges every record alike. */
  lemma {:induction false} FilterFromSteadyMode(data: seq<Record>, g: Group, m: bool)
    requires ModeAfter(g, m) == m
    ensures FilterFrom(data, g, m) == Select(data, r => ScanGroup(r, g, Scan(m, m)).pass)
    decreases |data|
  {
    if |data| > 0 {
      ScanGroupMode(data[0], g, Scan(m, m));
      FilterFromSteadyMode(data[1..], g, m);
    }
  }

  /**
   * Operator carry-over: the first record is judged in the starting mode, every
   * later record in the mode left by the group's last `OPERATOR` entry.
   */
  lemma CarryOver(data: seq<Record>, g: Group, m: bool)
    requires |data| > 0
    ensures var m' := ModeAfter(g, m);
      FilterFrom(data, g, m)
      == (if ScanGroup(data[0], g, Scan(m, m)).pass then [data[0]] else [])
         + Select(data[1..], r => ScanGroup(r, g, Scan(m', m')).pass)
  {
    var m' := ModeAfter(g, m);
    ScanGroupMode(data[0], g, Scan(m, m));
    ModeAfterIdempotent(g, m);
    FilterFromSteadyMode(data[1..], g, m');
  }

  /** With one field condition followed by the operator, mode has no effect on a record's fate. */
  lemma {:induction false} SingleFieldFrom(data: seq<Record>, f: Field, v: Value, op: Value, m: bool)
    ensures FilterFrom(data, [Cond(f, v), Operator(op)], m) == Select(data, r => Matches(r, f, v))
    decreases |data|
  {
    var g := [Cond(f, v), Operator(op)];
    if |data| > 0 {
      assert g[..1] == [Cond(f, v)] && g[..1][..0] == [];
      var hit := Matches(data[0], f, v);
      assert ScanGroup(data[0], g[..1], Scan(m, m)) == Scan(hit, m);
      assert ScanGroup(data[0], g, Scan(m, m)) == Scan(hit, op == AndMarker);
      SingleFieldFrom(data[1..], f, v, op, op == AndMarker);
    }
  }

  /**
   * A single-field group `[{F: v}, {"OPERATOR": x}]` keeps exactly the records
   * whose field F matches v, in their original order.
   */
  lemma SingleFieldGroup(data: seq<Record>, f: Field, v: Value, op: Value)
    ensures FilterData(data, [Cond(f, v), Operator(op)], true) == Select(data, r => Matches(r, f, v))
  {
    SingleFieldFrom(data, f, v, op, true);
  }

  /** Both fields match the word. */
  predicate MatchesBoth(r: Record, w: string) {
    Matches(r, Authors, StrV(w)) && Matches(r, Title, StrV(w))
  }

  /** At least one of the fields matches the word. */
  predicate MatchesEither(r: Record, w: string) {
    Matches(r, Authors, StrV(w)) || Matches(r, Title, StrV(w))
  }

  /** The group built from the "author or title" template for one word. */
  function AnyFieldGroup(w: string): Group {
    [Cond(Authors, StrV(w)), Cond(Title, StrV(w)), Operator(StrV(w))]
  }

  lemma AnyFieldScan(r: Record, w: string, m: bool)
    ensures ScanGroup(r, AnyFieldGroup(w), Scan(m, m))
         == Scan(if m then MatchesBoth(r, w) else MatchesEither(r, w), w == "and")
  {
    var g := AnyFieldGroup(w);
    assert g[..2][..1] == [Cond(Authors, StrV(w))] && g[..2][..1][..0] == [];
    var a := Matches(r, Authors, StrV(w));
    var t := Matches(r, Title, StrV(w));
    assert ScanGroup(r, g[..2][..1], Scan(m, m)) == Scan(Combine(m, m, a), m);
    assert ScanGroup(r, g[..2], Scan(m, m)) == Scan(Combine(Combine(m, m, a), m, t), m);
    assert StrV(w) == AndMarker <==> w == "and";
  }

  lemma {:induction false} AnyFieldFrom(data: seq<Record>, w: string)
    ensures FilterFrom(data, AnyFieldGroup(w), w == "and")
         == Select(data, r => if w == "and" then MatchesBoth(r, w) else MatchesEither(r, w))
    decreases |data|
  {
    var g := AnyFieldGroup(w);
    var m := w == "and";
    if |data| > 0 {
      AnyFieldScan(data[0], w, m);
      AnyFieldFrom(data[1..], w);
    }
  }

  /**
   * For the "author or title" group of one word, the first record must match in
   * both fields (the default "and" mode); every later record needs only one of
   * them, unless the word itself is "and".
   */
  lemma AnyFieldCarryOver(data: seq<Record>, w: string)
    requires |data| > 0
    ensures FilterData(data, AnyFieldGroup(w), true)
         == (if MatchesBoth(data[0], w) then [data[0]] else [])
            + Select(data[1..], r => if w == "and" then MatchesBoth(r, w) else MatchesEither(r, w))
  {
    AnyFieldScan(data[0], w, true);
    AnyFieldFrom(data[1..], w);
  }

  /**
   * The inner loop of `get_filter_data`: one record against every entry of the
   * group, starting from `passConds = and_cond` and returning both variables.
   */
  method ScanRecord(record: Record, filter: Group, andCond: bool) returns (passConds: bool, mode: bool)
    ensures Scan(passConds, mode) == ScanGroup(record, filter, Scan(andCond, andCond))
  {
    passConds := andCond;
    mode := andCond;
    for j := 0 to |filter|
      invariant Scan(passConds, mode) == ScanGroup(record, filter[..j], Scan(andCond, andCond))
    {
      assert filter[..j + 1][..j] == filter[..j];
      match filter[j]
      case Operator(op) =>
        mode := op == AndMarker;
      case Cond(f, v) =>
        var hit := Matches(record, f, v);
        if mode {
          passConds := hit && passConds;
        } else {
          passConds := hit || passConds;
        }
    }
    assert filter[..|filter|] == filter;
  }

  /** `get_filter_data` as the program runs it: a loop over the records with a nested loop over the group. */
  method FilterRecords(data: seq<Record>, filter: Group, andCond: bool) returns (allData: seq<Record>)
    ensures allData == FilterData(data, filter, andCond)
  {
    if |filter| == 0 {
      return data;
    }
    allData := [];
    var mode := andCond;
    for i := 0 to |data|
      invariant allData + FilterFrom(data[i..], filter, mode) == FilterFrom(data, filter, andCond)
    {
      var record := data[i];
      var passConds;
      passConds, mode := ScanRecord(record, filter, mode);
      assert data[i..][1..] == data[i + 1..];
      if passConds {
        allData := allData + [record];
      }
    }
    assert data[|data|..] == [];
  }

  /** The filtered set after a list of groups, each applied to what the previous ones left. */
  function FoldFilter(base: seq<Record>, groups: seq<Group>): seq<Record>
    decreases |groups|
  {
    if |groups| == 0 then base
    else FilterData(FoldFilter(base, groups[..|groups| - 1]), groups[|groups| - 1], true)
  }

  /** However many groups are applied, the result is an order-preserving sub-list of the start. */
  lemma {:induction false} FoldFilterSubsequence(base: seq<Record>, groups: seq<Group>)
    ensures IsSubsequence(FoldFilter(base, groups), base)
    decreases |groups|
  {
    if |groups| == 0 {
      SubsequenceRefl(base);
    } else {
      var before := FoldFilter(base, groups[..|groups| - 1]);
      FoldFilterSubsequence(base, groups[..|groups| - 1]);
      FilterDataSubsequence(before, groups[|groups| - 1], true);
      SubsequenceTrans(FoldFilter(base, groups), before, base);
    }
  }

  /** Applying a list of groups in two parts is the same as applying it at once. */
  lemma {:induction false} FoldFilterSplit(base: seq<Record>, gs1: seq<Group>, gs2: seq<Group>)
    ensures FoldFilter(base, gs1 + gs2) == FoldFilter(FoldFilter(base, gs1), gs2)
    decreases |gs2|
  {
    if |gs2| == 0 {
      assert gs1 + gs2 == gs1;
    } else {
      assert (gs1 + gs2)[..|gs1 + gs2| - 1] == gs1 + gs2[..|gs2| - 1];
      FoldFilterSplit(base, gs1, gs2[..|gs2| - 1]);
    }
  }
}
