/**
 * `clean_search`: the normaliser applied to every string the user searches for.
 * Listed symbols become spaces, runs of spaces shrink to one, letters are
 * lower-cased and surrounding whitespace is dropped.
 */
module SearchText {
  import opened Strings

  /** The characters `clean_search` replaces by a space. */
  const Symbols: string := "()\"'#-_[]$!¿?=/&+%.,;"

  /** `s.replace(c, " ")` for one character `c`. */
  function ReplaceChar(s: string, c: char): (r: string)
    ensures |r| == |s|
  {
    seq(|s|, i requires 0 <= i < |s| => if s[i] == c then ' ' else s[i])
  }

  /** `s` with every character that occurs in `syms` replaced by a space. */
  function BlankAll(s: string, syms: string): (r: string)
    ensures |r| == |s|
    ensures forall i :: 0 <= i < |r| ==> r[i] !in syms || r[i] == ' '
    ensures forall i :: 0 <= i < |s| && s[i] in syms ==> r[i] == ' '
    ensures forall i :: 0 <= i < |s| && s[i] !in syms ==> r[i] == s[i]
  {
    seq(|s|, i requires 0 <= i < |s| => if s[i] in syms then ' ' else s[i])
  }

  /** `s` has two consecutive spaces at index `i`. */
  predicate DoubleSpaceAt(s: string, i: int) {
    0 <= i < |s| - 1 && s[i] == ' ' && s[i + 1] == ' '
  }

  predicate NoDoubleSpace(s: string) {
    forall i :: 0 <= i < |s| ==> !DoubleSpaceAt(s, i)
  }

  /** `s.replace("  ", " ")`: non-overlapping double spaces, left to right, each become one space. */
  function ReplaceDoubleSpace(s: string): (r: string)
    ensures |r| <= |s|
    ensures |s| > 0 ==> |r| > 0 && (r[0] == ' ' <==> s[0] == ' ')
    ensures (exists i :: DoubleSpaceAt(s, i)) ==> |r| < |s|
    decreases |s|
  {
    if |s| >= 2 && s[0] == ' ' && s[1] == ' ' then " " + ReplaceDoubleSpace(s[2..])
    else if |s| == 0 then []
    else
      var r := [s[0]] + ReplaceDoubleSpace(s[1..]);
      assert (exists i :: DoubleSpaceAt(s, i)) ==> exists i :: DoubleSpaceAt(s[1..], i) by {
        if i :| DoubleSpaceAt(s, i) {
          assert DoubleSpaceAt(s[1..], i - 1);
        }
      }
      r
  }

  /**
   * Every run of spaces squeezed to a single space: the result has no double
   * space, no character `s` lacks, and starts with the same character as `s`.
   */
  function Squeeze(s: string): (r: string)
    ensures |r| <= |s|
    ensures |s| > 0 ==> |r| > 0 && r[0] == s[0]
    ensures NoDoubleSpace(r)
    ensures forall c :: c in r ==> c in s
    decreases |s|
  {
    if |s| >= 2 && s[0] == ' ' && s[1] == ' ' then Squeeze(s[1..])
    else if |s| == 0 then []
    else
      var rest := Squeeze(s[1..]);
      var r := [s[0]] + rest;
      assert forall i :: DoubleSpaceAt(r, i) ==> i > 0 && DoubleSpaceAt(rest, i - 1);
      r
  }

  lemma {:induction false} SqueezeIdentity(s: string)
    requires NoDoubleSpace(s)
    ensures Squeeze(s) == s
    decreases |s|
  {
    if |s| > 0 {
      assert !DoubleSpaceAt(s, 0);
      assert forall i :: DoubleSpaceAt(s[1..], i) ==> DoubleSpaceAt(s, i + 1);
      SqueezeIdentity(s[1..]);
    }
  }

  /** A space followed by `t` squeezes the same way as a space followed by `Squeeze(t)`. */
  lemma SqueezeSpaceCons(t: string)
    ensures Squeeze(" " + t) == if |t| > 0 && t[0] == ' ' then Squeeze(t) else " " + Squeeze(t)
  {
    assert (" " + t)[1..] == t;
  }

  /** One `replace("  ", " ")` pass does not change what the string squeezes to. */
  lemma {:induction false} SqueezeReplaceDoubleSpace(s: string)
    ensures Squeeze(ReplaceDoubleSpace(s)) == Squeeze(s)
    decreases |s|
  {
    if |s| >= 2 && s[0] == ' ' && s[1] == ' ' {
      var t := s[2..];
      SqueezeReplaceDoubleSpace(t);
      SqueezeSpaceCons(ReplaceDoubleSpace(t));
      SqueezeSpaceCons(t);
      assert s[1..] == " " + t;
    } else if |s| > 0 {
      var t := s[1..];
      SqueezeReplaceDoubleSpace(t);
      assert ReplaceDoubleSpace(s) == [s[0]] + ReplaceDoubleSpace(t);
      if s[0] == ' ' {
        assert s == " " + t;
        SqueezeSpaceCons(ReplaceDoubleSpace(t));
        SqueezeSpaceCons(t);
      } else {
        assert ([s[0]] + ReplaceDoubleSpace(t))[1..] == ReplaceDoubleSpace(t);
      }
    }
  }

  /** `"  " in s` holds exactly when `s` has a double space somewhere. */
  lemma ContainsDoubleSpace(s: string)
    ensures Contains(s, "  ") <==> !NoDoubleSpace(s)
  {
    if Contains(s, "  ") {
      var i :| OccursAt(s, "  ", i);
      assert s[i..i + 2] == "  ";
      assert DoubleSpaceAt(s, i);
    }
    if !NoDoubleSpace(s) {
      var i :| 0 <= i < |s| && DoubleSpaceAt(s, i);
      assert s[i..i + 2] == "  ";
      assert OccursAt(s, "  ", i);
    }
  }

  /** The value `clean_search` returns. */
  function Clean(s: string): string {
    Strip(Lower(Squeeze(BlankAll(s, Symbols))))
  }

  /** The replace loop over the symbols, then `while "  " in s`, then `.lower().strip()`. */
  method CleanSearch(searchString: string) returns (r: string)
    ensures r == Clean(searchString)
  {
    var s := searchString;
    for k := 0 to |Symbols|
      invariant s == BlankAll(searchString, Symbols[..k])
    {
      assert Symbols[..k + 1] == Symbols[..k] + [Symbols[k]];
      s := ReplaceChar(s, Symbols[k]);
    }
    assert Symbols[..|Symbols|] == Symbols;
    ghost var blanked := s;
    while Contains(s, "  ")
      invariant Squeeze(s) == Squeeze(blanked)
      decreases |s|
    {
      ContainsDoubleSpace(s);
      SqueezeReplaceDoubleSpace(s);
      s := ReplaceDoubleSpace(s);
    }
    ContainsDoubleSpace(s);
    SqueezeIdentity(s);
    r := Strip(Lower(s));
  }

  predicate NoSymbol(s: string) {
    forall i :: 0 <= i < |s| ==> s[i] !in Symbols
  }

  lemma SpaceIsNoSymbol()
    ensures ' ' !in Symbols
  {
  }

  lemma LowerCharSymbol(c: char)
    ensures LowerChar(c) in Symbols <==> c in Symbols
  {
  }

  lemma SqueezeNoSymbol(s: string)
    ensures NoSymbol(Squeeze(BlankAll(s, Symbols)))
  {
    var b := BlankAll(s, Symbols);
    var q := Squeeze(b);
    SpaceIsNoSymbol();
    forall i | 0 <= i < |q| ensures q[i] !in Symbols {
      assert q[i] in q;
      assert q[i] in b;
    }
  }

  lemma LowerKeeps(q: string)
    requires NoSymbol(q) && NoDoubleSpace(q)
    ensures NoSymbol(Lower(q)) && NoDoubleSpace(Lower(q))
    ensures forall i :: 0 <= i < |q| ==> !IsUpper(Lower(q)[i])
  {
    var l := Lower(q);
    forall i | 0 <= i < |l| ensures l[i] !in Symbols {
      LowerCharSymbol(q[i]);
    }
    forall i | 0 <= i < |l| ensures !DoubleSpaceAt(l, i) {
      assert !DoubleSpaceAt(q, i);
    }
  }

  /**
   * The cleaned string contains no listed symbol, no two consecutive spaces, no
   * upper-case letter, and neither starts nor ends with whitespace.
   */
  lemma CleanProperties(s: string)
    ensures var r := Clean(s);
      && NoSymbol(r)
      && (forall i :: 0 <= i < |r| ==> !IsUpper(r[i]))
      && NoDoubleSpace(r)
      && (r == [] || (!IsSpace(r[0]) && !IsSpace(r[|r| - 1])))
  {
    var q := Squeeze(BlankAll(s, Symbols));
    SqueezeNoSymbol(s);
    LowerKeeps(q);
    StripKeeps(Lower(q));
  }

  /** A contiguous piece of a string keeps the properties that hold character by character. */
  lemma SliceKeeps(l: string, k: nat, r: string)
    requires k + |r| <= |l| && forall i :: 0 <= i < |r| ==> r[i] == l[k + i]
    requires NoSymbol(l) && NoDoubleSpace(l) && forall i :: 0 <= i < |l| ==> !IsUpper(l[i])
    ensures NoSymbol(r) && NoDoubleSpace(r) && forall i :: 0 <= i < |r| ==> !IsUpper(r[i])
  {
    forall i | 0 <= i < |r| ensures !DoubleSpaceAt(r, i) {
      assert !DoubleSpaceAt(l, k + i);
    }
  }

  lemma StripKeeps(l: string)
    requires NoSymbol(l) && NoDoubleSpace(l) && forall i :: 0 <= i < |l| ==> !IsUpper(l[i])
    ensures var r := Strip(l);
      NoSymbol(r) && NoDoubleSpace(r) && forall i :: 0 <= i < |r| ==> !IsUpper(r[i])
  {
    SliceKeeps(l, StripOffset(l), Strip(l));
  }

  /** `clean_search(clean_search(s)) == clean_search(s)`. */
  lemma CleanIdempotent(s: string)
    ensures Clean(Clean(s)) == Clean(s)
  {
    var r := Clean(s);
    CleanProperties(s);
    assert BlankAll(r, Symbols) == r;
    SqueezeIdentity(r);
    assert Lower(r) == r;
    StripNoSpaceEnds(r);
  }
}
