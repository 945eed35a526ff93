/**
 * ASCII models of the Python string primitives the catalog browser relies on:
 * `str.lower`, `str.isspace`, `str.strip`, `str.split()` (no separator) and the
 * substring test `p in t`.
 */
module Strings {
  import opened Wrappers

  /** Python's `str.isspace` restricted to the ASCII range: space, \t \n \v \f \r and \x1c-\x1f. */
  predicate IsSpace(c: char) {
    c == ' ' || (9 <= c as int <= 13) || (28 <= c as int <= 31)
  }

  predicate IsUpper(c: char) {
    'A' <= c <= 'Z'
  }

  function LowerChar(c: char): (r: char)
    ensures !IsUpper(r)
    ensures IsUpper(c) ==> r as int == c as int + 32
    ensures !IsUpper(c) ==> r == c
  {
    if IsUpper(c) then (c as int + 32) as char else c
  }

  /** `s.lower()` on ASCII letters. */
  function Lower(s: string): (r: string)
    ensures |r| == |s|
    ensures forall i :: 0 <= i < |s| ==> r[i] == LowerChar(s[i])
  {
    seq(|s|, i requires 0 <= i < |s| => LowerChar(s[i]))
  }

  /** The number of whitespace characters `s` starts with. */
  function LeadSpace(s: string): (n: nat)
    ensures n <= |s|
    ensures forall i :: 0 <= i < n ==> IsSpace(s[i])
    ensures n < |s| ==> !IsSpace(s[n])
    decreases |s|
  {
    if |s| > 0 && IsSpace(s[0]) then 1 + LeadSpace(s[1..]) else 0
  }

  /** The number of whitespace characters `s` ends with. */
  function TrailSpace(s: string): (n: nat)
    ensures n <= |s|
    ensures forall i :: |s| - n <= i < |s| ==> IsSpace(s[i])
    ensures n < |s| ==> !IsSpace(s[|s| - n - 1])
    decreases |s|
  {
    if |s| > 0 && IsSpace(s[|s| - 1]) then 1 + TrailSpace(s[..|s| - 1]) else 0
  }

  /** The number of leading whitespace characters `s.strip()` drops. */
  function StripOffset(s: string): nat {
    LeadSpace(s)
  }

  /**
   * `s.strip()`: a contiguous slice of `s` that neither starts nor ends with
   * whitespace; everything before and after it is whitespace.
   */
  function Strip(s: string): (r: string)
    ensures StripOffset(s) + |r| <= |s|
    ensures forall i :: 0 <= i < |r| ==> r[i] == s[StripOffset(s) + i]
    ensures r == [] || (!IsSpace(r[0]) && !IsSpace(r[|r| - 1]))
    ensures forall i :: 0 <= i < StripOffset(s) ==> IsSpace(s[i])
    ensures forall i :: StripOffset(s) + |r| <= i < |s| ==> IsSpace(s[i])
  {
    var lo := LeadSpace(s);
    if lo == |s| then []
    else
      var n := TrailSpace(s);
      assert !IsSpace(s[lo]);
      assert lo < |s| - n;
      s[lo..|s| - n]
  }

  lemma StripNoSpaceEnds(s: string)
    requires s == [] || (!IsSpace(s[0]) && !IsSpace(s[|s| - 1]))
    ensures Strip(s) == s
  {
  }

  /** Number of leading non-whitespace characters. */
  function WordLen(s: string): (n: nat)
    ensures n <= |s|
    ensures forall i :: 0 <= i < n ==> !IsSpace(s[i])
    ensures n == |s| || IsSpace(s[n])
    decreases |s|
  {
    if |s| == 0 || IsSpace(s[0]) then 0 else 1 + WordLen(s[1..])
  }

  /**
   * `s.split()`: the maximal runs of non-whitespace characters, in order. There
   * are none exactly when `s` is all whitespace.
   */
  function Split(s: string): (ws: seq<string>)
    ensures forall k :: 0 <= k < |ws| ==> |ws[k]| > 0
    ensures forall k, i :: 0 <= k < |ws| && 0 <= i < |ws[k]| ==> !IsSpace(ws[k][i])
    ensures |ws| == 0 <==> forall i :: 0 <= i < |s| ==> IsSpace(s[i])
    decreases |s|
  {
    if |s| == 0 then []
    else if IsSpace(s[0]) then
      assert forall i :: 1 <= i < |s| ==> s[i] == s[1..][i - 1];
      Split(s[1..])
    else var n := WordLen(s); [s[..n]] + Split(s[n..])
  }

  /** A word followed by nothing or by whitespace: the word is the whole leading run. */
  lemma {:induction false} WordLenOfWord(w: string, rest: string)
    requires forall i :: 0 <= i < |w| ==> !IsSpace(w[i])
    requires rest == [] || IsSpace(rest[0])
    ensures WordLen(w + rest) == |w|
    decreases |w|
  {
    if |w| == 0 {
      assert w + rest == rest;
    } else {
      assert (w + rest)[1..] == w[1..] + rest;
      WordLenOfWord(w[1..], rest);
    }
  }

  /** Words joined by single spaces split back into the same words: `split()` cuts at every run of whitespace. */
  lemma {:induction false} SplitJoin(ws: seq<string>)
    requires forall k :: 0 <= k < |ws| ==> |ws[k]| > 0 && forall i :: 0 <= i < |ws[k]| ==> !IsSpace(ws[k][i])
    ensures Split(Join(" ", ws)) == ws
    decreases |ws|
  {
    if |ws| == 1 {
      var w := ws[0];
      assert w + [] == w;
      SplitWordThen(w, []);
    } else if |ws| > 1 {
      JoinCons(" ", ws);
      SplitWordSpace(ws[0], Join(" ", ws[1..]));
      SplitJoin(ws[1..]);
      assert ws == [ws[0]] + ws[1..];
    }
  }

  /** A word and a space in front of `rest` add that word in front of the words of `rest`. */
  lemma SplitWordSpace(w: string, rest: string)
    requires |w| > 0 && forall i :: 0 <= i < |w| ==> !IsSpace(w[i])
    ensures Split(w + " " + rest) == [w] + Split(rest)
  {
    assert w + " " + rest == w + (" " + rest);
    SplitWordThen(w, " " + rest);
    assert (" " + rest)[1..] == rest;
  }

  /** `s` without its whitespace characters. */
  function NonSpace(s: string): string
    decreases |s|
  {
    if |s| == 0 then [] else (if IsSpace(s[0]) then [] else [s[0]]) + NonSpace(s[1..])
  }

  /** The words one after the other, with nothing between them. */
  function Concat(ws: seq<string>): string
    decreases |ws|
  {
    if |ws| == 0 then [] else ws[0] + Concat(ws[1..])
  }

  lemma {:induction false} NonSpacePrefix(s: string, n: nat)
    requires n <= |s| && forall i :: 0 <= i < n ==> !IsSpace(s[i])
    ensures NonSpace(s) == s[..n] + NonSpace(s[n..])
    decreases n
  {
    if n > 0 {
      NonSpacePrefix(s[1..], n - 1);
      assert s[1..][n - 1..] == s[n..];
      assert s[..n] == [s[0]] + s[1..][..n - 1];
    }
  }

  /** Read in order, the words of `s.split()` hold exactly the non-whitespace characters of `s`. */
  lemma {:induction false} SplitConcat(s: string)
    ensures Concat(Split(s)) == NonSpace(s)
    decreases |s|
  {
    if |s| > 0 {
      if IsSpace(s[0]) {
        SplitConcat(s[1..]);
      } else {
        var n := WordLen(s);
        SplitConcat(s[n..]);
        NonSpacePrefix(s, n);
        assert ([s[..n]] + Split(s[n..]))[1..] == Split(s[n..]);
      }
    }
  }

  /** Leading whitespace does not change the words. */
  lemma {:induction false} SplitLeadingSpace(s: string, k: nat)
    requires k <= |s| && forall i :: 0 <= i < k ==> IsSpace(s[i])
    ensures Split(s) == Split(s[k..])
    decreases k
  {
    if k > 0 {
      SplitLeadingSpace(s[1..], k - 1);
      assert s[1..][k - 1..] == s[k..];
    }
  }

  /** Surrounding whitespace does not change the words. */
  lemma SplitOfSingleWord(s: string)
    requires |Strip(s)| > 0
    requires forall i :: 0 <= i < |Strip(s)| ==> !IsSpace(Strip(s)[i])
    ensures Split(s) == [Strip(s)]
  {
    SplitPadded(s, StripOffset(s), Strip(s));
  }

  /** A single word `w` at `lo` with only whitespace around it. */
  lemma SplitPadded(s: string, lo: nat, w: string)
    requires lo + |w| <= |s| && forall i :: 0 <= i < |w| ==> w[i] == s[lo + i]
    requires forall i :: 0 <= i < lo ==> IsSpace(s[i])
    requires forall i :: lo + |w| <= i < |s| ==> IsSpace(s[i])
    requires |w| > 0 && forall i :: 0 <= i < |w| ==> !IsSpace(w[i])
    ensures Split(s) == [w]
  {
    var tail := s[lo + |w|..];
    SplitLeadingSpace(s, lo);
    SliceStartsWith(s, lo, w);
    SplitWordSpaces(w, tail);
  }

  /** A word followed only by whitespace splits into that word. */
  lemma SplitWordSpaces(w: string, tail: string)
    requires |w| > 0 && forall i :: 0 <= i < |w| ==> !IsSpace(w[i])
    requires forall i :: 0 <= i < |tail| ==> IsSpace(tail[i])
    ensures Split(w + tail) == [w]
  {
    SplitWordThen(w, tail);
    assert Split(tail) == [];
  }

  lemma SliceStartsWith(s: string, lo: nat, w: string)
    requires lo + |w| <= |s| && forall i :: 0 <= i < |w| ==> w[i] == s[lo + i]
    ensures s[lo..] == w + s[lo + |w|..]
  {
    assert s[lo..lo + |w|] == w;
    assert s[lo..] == s[lo..lo + |w|] + s[lo + |w|..];
  }

  /** A word followed by nothing or by whitespace is the first word. */
  lemma SplitWordThen(w: string, tail: string)
    requires |w| > 0 && forall i :: 0 <= i < |w| ==> !IsSpace(w[i])
    requires tail == [] || IsSpace(tail[0])
    ensures Split(w + tail) == [w] + Split(tail)
  {
    var s := w + tail;
    WordLenOfWord(w, tail);
    assert s[..|w|] == w && s[|w|..] == tail;
  }

  /** Every character of a word of `s.split()` is a character of `s`. */
  lemma {:induction false} SplitChars(s: string)
    ensures forall k, i :: 0 <= k < |Split(s)| && 0 <= i < |Split(s)[k]| ==> Split(s)[k][i] in s
    decreases |s|
  {
    if |s| > 0 {
      var n := if IsSpace(s[0]) then 1 else WordLen(s);
      SplitChars(s[n..]);
      assert forall c :: c in s[n..] ==> c in s;
      assert forall c :: c in s[..n] ==> c in s;
    }
  }

  /** The index of the first `c` in `s`. */
  function FirstIndex(s: string, c: char): (r: Option<nat>)
    ensures r.Some? ==> r.value < |s| && s[r.value] == c && forall j :: 0 <= j < r.value ==> s[j] != c
    ensures r.None? ==> forall j :: 0 <= j < |s| ==> s[j] != c
    decreases |s|
  {
    if |s| == 0 then None
    else if s[0] == c then Some(0)
    else match FirstIndex(s[1..], c)
      case None => None
      case Some(k) => Some(k + 1)
  }

  /** The index of the last `c` in `s`. */
  function LastIndex(s: string, c: char): (r: Option<nat>)
    ensures r.Some? ==> r.value < |s| && s[r.value] == c && forall j :: r.value < j < |s| ==> s[j] != c
    ensures r.None? ==> forall j :: 0 <= j < |s| ==> s[j] != c
    decreases |s|
  {
    if |s| == 0 then None
    else if s[|s| - 1] == c then Some(|s| - 1)
    else LastIndex(s[..|s| - 1], c)
  }

  /** The first `c` in `s` is at `k` when `c` is at `k` and not before. */
  lemma {:induction false} FirstIndexAt(s: string, c: char, k: nat)
    requires k < |s| && s[k] == c && forall j :: 0 <= j < k ==> s[j] != c
    ensures FirstIndex(s, c) == Some(k)
    decreases k
  {
    if k > 0 {
      FirstIndexAt(s[1..], c, k - 1);
    }
  }

  /** `p` occurs in `t` starting at index `i`. */
  predicate OccursAt(t: string, p: string, i: int) {
    0 <= i && i + |p| <= |t| && t[i..i + |p|] == p
  }

  /** `p in t` for two strings: `p` occurs in `t` at some position. */
  function Contains(t: string, p: string): (r: bool)
    ensures r <==> exists i :: OccursAt(t, p, i)
    decreases |t|
  {
    if |p| <= |t| && t[..|p|] == p then
      assert OccursAt(t, p, 0);
      true
    else if |t| == 0 then false
    else
      var r := Contains(t[1..], p);
      assert r ==> exists i :: OccursAt(t, p, i) by {
        if r {
          var j :| OccursAt(t[1..], p, j);
          assert OccursAt(t, p, j + 1);
        }
      }
      assert (exists i :: OccursAt(t, p, i)) ==> r by {
        if i :| OccursAt(t, p, i) {
          assert i != 0;
          assert t[1..][i - 1..i - 1 + |p|] == t[i..i + |p|];
          assert OccursAt(t[1..], p, i - 1);
        }
      }
      r
  }

  /** The parts joined with `sep` between consecutive parts (Python's `sep.join(parts)`). */
  function Join(sep: string, parts: seq<string>): string
    decreases |parts|
  {
    if |parts| == 0 then ""
    else if |parts| == 1 then parts[0]
    else Join(sep, parts[..|parts| - 1]) + sep + parts[|parts| - 1]
  }

  /** Joining peels off the first part as well as the last. */
  lemma {:induction false} JoinCons(sep: string, parts: seq<string>)
    requires |parts| >= 2
    ensures Join(sep, parts) == parts[0] + sep + Join(sep, parts[1..])
    decreases |parts|
  {
    var init := parts[..|parts| - 1];
    if |parts| == 2 {
      assert parts[1..] == [parts[1]];
    } else {
      JoinCons(sep, init);
      assert init[1..] == parts[1..][..|parts| - 2];
      assert parts[1..][|parts| - 2] == parts[|parts| - 1];
    }
  }
}
