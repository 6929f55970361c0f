/**
 * The two operations on Python `str` that the proxy relies on: counting a
 * two-character pattern (the `%s` placeholders the database driver binds) and
 * `str.replace('\\n', '\n')`, which turns every backslash-n escape in a
 * plugin's long output into a real newline.
 */
module Text {

  const Backslash: char := '\\'
  const Newline: char := '\n'

  /** `s[i]` and `s[i+1]` spell the pattern `[x, y]`. */
  predicate PairAt(s: string, i: int, x: char, y: char)
  {
    0 <= i < |s| - 1 && s[i] == x && s[i + 1] == y
  }

  /** No occurrence of the pattern `[x, y]` anywhere in `s`. */
  predicate NoPair(s: string, x: char, y: char)
  {
    forall i :: 0 <= i < |s| - 1 ==> !PairAt(s, i, x, y)
  }

  /**
   * Number of non-overlapping occurrences of `[x, y]` in `s`, found scanning
   * left to right, as Python's `s.count(x + y)` finds them.
   */
  function CountPairs(s: string, x: char, y: char): (n: nat)
    ensures 2 * n <= |s|
  {
    if |s| < 2 then 0
    else if s[0] == x && s[1] == y then 1 + CountPairs(s[2..], x, y)
    else CountPairs(s[1..], x, y)
  }

  /**
   * Python's `s.replace('\\n', '\n')`: scanning left to right, each
   * backslash immediately followed by `n` becomes one newline, and every
   * other character is kept in order. Each replacement shortens the text by
   * exactly one character.
   */
  function UnescapeNewlines(s: string): (r: string)
    ensures |r| == |s| - CountPairs(s, Backslash, 'n')
  {
    if |s| < 2 then s
    else if s[0] == Backslash && s[1] == 'n' then [Newline] + UnescapeNewlines(s[2..])
    else [s[0]] + UnescapeNewlines(s[1..])
  }

  /**
   * The escaping that `UnescapeNewlines` undoes: every newline written as a
   * backslash followed by `n`.
   */
  function EscapeNewlines(t: string): (s: string)
    ensures |s| == |t| + CountNewlines(t)
  {
    if t == [] then []
    else (if t[0] == Newline then [Backslash, 'n'] else [t[0]]) + EscapeNewlines(t[1..])
  }

  /** Number of newline characters in `t`. */
  function CountNewlines(t: string): nat
  {
    if t == [] then 0 else (if t[0] == Newline then 1 else 0) + CountNewlines(t[1..])
  }

  /** A pattern whose first character does not occur in `s` does not occur in `s`. */
  lemma {:induction false} CountPairsAbsent(s: string, x: char, y: char)
    requires x !in s
    ensures CountPairs(s, x, y) == 0
  {
    if |s| >= 2 {
      assert s[0] != x;
      assert x !in s[1..];
      CountPairsAbsent(s[1..], x, y);
    }
  }

  /** The count is zero exactly when the pattern occurs nowhere. */
  lemma {:induction false} CountPairsZeroIffNoPair(s: string, x: char, y: char)
    ensures CountPairs(s, x, y) == 0 <==> NoPair(s, x, y)
  {
    if |s| >= 2 {
      CountPairsZeroIffNoPair(s[1..], x, y);
      if !PairAt(s, 0, x, y) {
        if NoPair(s[1..], x, y) {
          forall i | 0 <= i < |s| - 1 ensures !PairAt(s, i, x, y) {
            if i > 0 { assert !PairAt(s[1..], i - 1, x, y); }
          }
        } else {
          var j :| 0 <= j < |s| - 2 && PairAt(s[1..], j, x, y);
          assert PairAt(s, j + 1, x, y);
        }
      }
    }
  }

  /**
   * Counting distributes over concatenation unless an occurrence straddles
   * the seam.
   */
  lemma {:induction false} CountPairsConcat(a: string, b: string, x: char, y: char)
    requires !(|a| > 0 && |b| > 0 && a[|a| - 1] == x && b[0] == y)
    ensures CountPairs(a + b, x, y) == CountPairs(a, x, y) + CountPairs(b, x, y)
  {
    if a == [] {
      assert a + b == b;
    } else if |a| == 1 {
      if |b| > 0 {
        assert (a + b)[1..] == b;
      }
    } else if a[0] == x && a[1] == y {
      assert (a + b)[2..] == a[2..] + b;
      CountPairsConcat(a[2..], b, x, y);
    } else {
      assert (a + b)[1..] == a[1..] + b;
      CountPairsConcat(a[1..], b, x, y);
    }
  }

  /** The first character of the rewritten text. */
  lemma UnescapeNewlinesHead(s: string)
    requires |s| > 0
    ensures |UnescapeNewlines(s)| > 0
    ensures UnescapeNewlines(s)[0] == if PairAt(s, 0, Backslash, 'n') then Newline else s[0]
  {
  }

  /** The rewrite leaves no backslash-n pair behind. */
  lemma {:induction false} UnescapeNewlinesLeavesNoPair(s: string)
    ensures NoPair(UnescapeNewlines(s), Backslash, 'n')
  {
    if |s| >= 2 {
      var r := UnescapeNewlines(s);
      var skip := if s[0] == Backslash && s[1] == 'n' then 2 else 1;
      var rest := s[skip..];
      UnescapeNewlinesLeavesNoPair(rest);
      assert r == [r[0]] + UnescapeNewlines(rest);
      forall i | 0 <= i < |r| - 1 ensures !PairAt(r, i, Backslash, 'n') {
        if i == 0 {
          if r[0] == Backslash {
            // the backslash was kept, so the next source character is not `n`
            assert skip == 1 && s[1] != 'n';
            UnescapeNewlinesHead(rest);
          }
        } else {
          assert !PairAt(UnescapeNewlines(rest), i - 1, Backslash, 'n');
        }
      }
    }
  }

  /** Text with no backslash-n pair is left unchanged. */
  lemma {:induction false} UnescapeNewlinesIdentity(s: string)
    requires NoPair(s, Backslash, 'n')
    ensures UnescapeNewlines(s) == s
  {
    if |s| >= 2 {
      assert !PairAt(s, 0, Backslash, 'n');
      assert NoPair(s[1..], Backslash, 'n') by {
        forall i | 0 <= i < |s| - 2 ensures !PairAt(s[1..], i, Backslash, 'n') {
          assert !PairAt(s, i + 1, Backslash, 'n');
        }
      }
      UnescapeNewlinesIdentity(s[1..]);
    }
  }

  /** Applying the rewrite a second time changes nothing. */
  lemma {:induction false} UnescapeNewlinesIdempotent(s: string)
    ensures UnescapeNewlines(UnescapeNewlines(s)) == UnescapeNewlines(s)
  {
    UnescapeNewlinesLeavesNoPair(s);
    UnescapeNewlinesIdentity(UnescapeNewlines(s));
  }

  /** Exactly the counted pairs are replaced: afterwards none is left. */
  lemma {:induction false} UnescapeNewlinesCount(s: string)
    ensures CountPairs(UnescapeNewlines(s), Backslash, 'n') == 0
    ensures |UnescapeNewlines(s)| == |s| - CountPairs(s, Backslash, 'n')
  {
    UnescapeNewlinesLeavesNoPair(s);
    CountPairsZeroIffNoPair(UnescapeNewlines(s), Backslash, 'n');
  }

  /**
   * The rewrite works piecewise: text split anywhere but inside a
   * backslash-n pair is rewritten as its two parts are.
   */
  lemma {:induction false} UnescapeNewlinesConcat(a: string, b: string)
    requires !(|a| > 0 && |b| > 0 && a[|a| - 1] == Backslash && b[0] == 'n')
    ensures UnescapeNewlines(a + b) == UnescapeNewlines(a) + UnescapeNewlines(b)
  {
    var ab := a + b;
    if a == [] {
      assert ab == b;
    } else if |b| == 0 {
      assert ab == a;
    } else if |a| == 1 {
      assert ab[0] == a[0] && ab[1..] == b;
      assert !(ab[0] == Backslash && ab[1] == 'n');
      assert UnescapeNewlines(ab) == [a[0]] + UnescapeNewlines(b);
    } else if a[0] == Backslash && a[1] == 'n' {
      var a' := a[2..];
      assert ab[0] == Backslash && ab[1] == 'n' && ab[2..] == a' + b;
      UnescapeNewlinesConcat(a', b);
      calc {
        UnescapeNewlines(ab);
        [Newline] + UnescapeNewlines(a' + b);
        [Newline] + (UnescapeNewlines(a') + UnescapeNewlines(b));
        ([Newline] + UnescapeNewlines(a')) + UnescapeNewlines(b);
      }
    } else {
      var a' := a[1..];
      assert ab[0] == a[0] && ab[1] == a[1] && ab[1..] == a' + b;
      UnescapeNewlinesConcat(a', b);
      calc {
        UnescapeNewlines(ab);
        [a[0]] + UnescapeNewlines(a' + b);
        [a[0]] + (UnescapeNewlines(a') + UnescapeNewlines(b));
        ([a[0]] + UnescapeNewlines(a')) + UnescapeNewlines(b);
      }
    }
  }

  /**
   * Round trip: text escaped by a writer that encodes each newline as
   * backslash-n is recovered exactly, provided the text did not already
   * contain a literal backslash-n.
   */
  lemma {:induction false} UnescapeEscapeRoundTrip(t: string)
    requires NoPair(t, Backslash, 'n')
    ensures UnescapeNewlines(EscapeNewlines(t)) == t
  {
    if t != [] {
      var rest := t[1..];
      assert NoPair(rest, Backslash, 'n') by {
        forall i | 0 <= i < |rest| - 1 ensures !PairAt(rest, i, Backslash, 'n') {
          assert !PairAt(t, i + 1, Backslash, 'n');
        }
      }
      UnescapeEscapeRoundTrip(rest);
      var e := EscapeNewlines(rest);
      if t[0] == Newline {
        assert EscapeNewlines(t) == [Backslash, 'n'] + e;
        assert ([Backslash, 'n'] + e)[2..] == e;
      } else {
        assert EscapeNewlines(t) == [t[0]] + e;
        if e != [] {
          assert ([t[0]] + e)[1..] == e;
          EscapeNewlinesHead(rest);
          assert t[0] == Backslash ==> !PairAt(t, 0, Backslash, 'n');
        }
      }
    }
  }

  /** The first character of an escaped text. */
  lemma EscapeNewlinesHead(t: string)
    requires |EscapeNewlines(t)| > 0
    ensures t != []
    ensures EscapeNewlines(t)[0] == if t[0] == Newline then Backslash else t[0]
  {
  }
}
