/**
 * `wrap_string_atpos`: breaks a long status line at the last space at or
 * before column `atpos`, indenting the continuation with `initstring`. The
 * inner `for` loop always returns once it reaches 1, so at most one break is
 * ever inserted and the tail is never wrapped again.
 */
module Wrap {
  import opened Wrappers
  import opened Strings

  /** The largest index `a` with `lo <= a <= hi` and `st[a] == ' '`. */
  function LastSpace(st: string, lo: int, hi: int): (r: Option<nat>)
    requires 0 <= lo && hi < |st|
    ensures r.Some? ==> lo <= r.value <= hi && st[r.value] == ' '
    ensures r.None? ==> forall a :: lo <= a <= hi ==> st[a] != ' '
    ensures r.Some? ==> forall a :: r.value < a <= hi ==> st[a] != ' '
    decreases hi - lo
  {
    if hi < lo then None else if st[hi] == ' ' then Some(hi) else LastSpace(st, lo, hi - 1)
  }

  /** The largest space in a range is also the largest in any wider range ending at the same place. */
  lemma LastSpaceWiden(st: string, lo: int, lo': int, hi: int)
    requires 0 <= lo' <= lo && hi < |st|
    requires LastSpace(st, lo, hi).Some?
    ensures LastSpace(st, lo', hi) == LastSpace(st, lo, hi)
  {
    var a := LastSpace(st, lo, hi).value;
    var b := LastSpace(st, lo', hi);
    assert b.Some?;
  }

  lemma LastSpaceStep(st: string, a: int, hi: int)
    requires 0 <= a <= hi < |st|
    requires LastSpace(st, a + 1, hi).None?
    ensures LastSpace(st, a, hi) == if st[a] == ' ' then Some(a) else None
  {
    var r := LastSpace(st, a, hi);
    if st[a] == ' ' {
      assert r.Some?;
    }
  }

  /** The value `wrap_string_atpos` returns. */
  function Wrapped(st: string, initString: string, atPos: int): string
    requires atPos >= 1
  {
    if |st| <= atPos then st
    else match LastSpace(st, 2, atPos)
      case None => st
      case Some(a) => st[..a] + "\n" + initString + st[a..]
  }

  /**
   * `wrap_string_atpos(st, initstring, atpos)`. The `while` loop of the source
   * never runs its body twice, so only its one pass is kept: the `for` loop
   * counting `a` down from `atpos` to 2, then the return at `a == 1`.
   */
  method WrapAtPos(st: string, initString: string, atPos: int) returns (r: string)
    requires atPos >= 1
    requires |st| == atPos + 1 ==> st[atPos] != ' '
    ensures r == Wrapped(st, initString, atPos)
  {
    if |st| <= atPos {
      return st;
    }
    var endString := "";
    var cur := st;
    var right := " ";
    var a := atPos;
    while a > 1
      invariant 1 <= a <= atPos
      invariant LastSpace(st, a + 1, atPos).None? ==> right == " " && endString == "" && cur == st
      invariant LastSpace(st, a + 1, atPos).Some? ==>
        var b := LastSpace(st, a + 1, atPos).value;
        right == st[b..] && right != " " && endString == st[..b] && cur == initString + st[b..]
      decreases a
    {
      if LastSpace(st, a + 1, atPos).None? {
        LastSpaceStep(st, a, atPos);
      } else {
        LastSpaceWiden(st, a + 1, a, atPos);
      }
      if right == " " {
        if cur[a] == ' ' {
          var left := cur[..a];
          right := cur[a..];
          endString := endString + (if |endString| == 0 then left else "\n" + left);
          cur := initString + right;
          assert |right| >= 2;
        }
      }
      a := a - 1;
    }
    r := endString + (if |endString| == 0 then cur else "\n" + cur);
  }

  /** Undo a wrap: drop the first newline and the indentation that follows it. */
  function Unwrap(s: string, initString: string): string {
    match FirstIndex(s, '\n')
    case None => s
    case Some(k) => if k + 1 + |initString| <= |s| then s[..k] + s[k + 1 + |initString|..] else s
  }

  /**
   * A short line is returned as it is; a long one gets at most one break, placed
   * at a space no later than column `atpos`, so that the first line fits in
   * `atpos` characters; removing the break gives back the original line.
   */
  lemma {:induction false} WrapMeaning(st: string, initString: string, atPos: int)
    requires atPos >= 1
    requires '\n' !in st
    ensures |st| <= atPos ==> Wrapped(st, initString, atPos) == st
    ensures Unwrap(Wrapped(st, initString, atPos), initString) == st
    ensures var r := Wrapped(st, initString, atPos);
      match FirstIndex(r, '\n')
      case None => r == st
      case Some(k) => 2 <= k <= atPos && st[k] == ' ' && r[..k] == st[..k] && r[k + 1..] == initString + st[k..]
  {
    var r := Wrapped(st, initString, atPos);
    if |st| > atPos && LastSpace(st, 2, atPos).Some? {
      var a := LastSpace(st, 2, atPos).value;
      assert r == st[..a] + "\n" + initString + st[a..];
      BreakAt(st, initString, a);
    } else {
      assert r == st;
    }
  }

  /** A line with one break inserted at `a`: the break is the first newline, and removing it restores the line. */
  lemma BreakAt(st: string, initString: string, a: nat)
    requires a <= |st| && '\n' !in st
    ensures var r := st[..a] + "\n" + initString + st[a..];
      && FirstIndex(r, '\n') == Some(a)
      && r[..a] == st[..a]
      && r[a + 1..] == initString + st[a..]
      && Unwrap(r, initString) == st
  {
    var r := st[..a] + "\n" + initString + st[a..];
    assert r[a] == '\n';
    assert forall j :: 0 <= j < a ==> r[j] == st[j] && r[j] != '\n';
    FirstIndexAt(r, '\n', a);
    assert r[a + 1 + |initString|..] == st[a..];
    assert st[..a] + st[a..] == st;
  }

  /** Example: the tail after the only break stays longer than `atpos`. */
  lemma TailNotRewrapped()
    ensures Wrapped("aaaa bbbb cccc dddd", "| ", 6) == "aaaa\n|  bbbb cccc dddd"
  {
    assert LastSpace("aaaa bbbb cccc dddd", 2, 6) == Some(4);
  }
}
