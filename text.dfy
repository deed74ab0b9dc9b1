/**
 * The few .NET string operations the trampoline builder uses, on
 * `seq<char>`: `String.Replace` (ordinal, every occurrence, left to right,
 * never overlapping), joining with a separator, and the decimal spelling of
 * a non-negative `int`.
 */
module Text {

  /** `pat` occurs in `s` starting at index `i`. */
  ghost predicate MatchAt(s: string, pat: string, i: nat)
  {
    i + |pat| <= |s| && forall k :: 0 <= k < |pat| ==> s[i + k] == pat[k]
  }

  /** `pat` occurs nowhere in `s`. */
  ghost predicate Absent(s: string, pat: string)
  {
    forall i: nat :: !MatchAt(s, pat, i)
  }

  /**
   * `s.Replace(pat, rep)`: scanning from the left, each occurrence of `pat`
   * is replaced by `rep` and scanning resumes after it.
   */
  function Replace(s: string, pat: string, rep: string): string
    requires |pat| > 0
    decreases |s|
  {
    if |s| < |pat| then s
    else if s[..|pat|] == pat then rep + Replace(s[|pat|..], pat, rep)
    else [s[0]] + Replace(s[1..], pat, rep)
  }

  /** Replacing a pattern that does not occur changes nothing. */
  lemma {:induction false} ReplaceAbsent(s: string, pat: string, rep: string)
    requires |pat| > 0 && Absent(s, pat)
    ensures Replace(s, pat, rep) == s
    decreases |s|
  {
    if |s| >= |pat| {
      if s[..|pat|] == pat {
        assert MatchAt(s, pat, 0);
      }
      var t := s[1..];
      forall i: nat ensures !MatchAt(t, pat, i) {
        if MatchAt(t, pat, i) {
          assert MatchAt(s, pat, i + 1);
        }
      }
      ReplaceAbsent(t, pat, rep);
    }
  }

  /** An occurrence at the very start is replaced, and scanning goes on after it. */
  lemma ReplaceLead(pat: string, rest: string, rep: string)
    requires |pat| > 0
    ensures Replace(pat + rest, pat, rep) == rep + Replace(rest, pat, rep)
  {
    assert (pat + rest)[..|pat|] == pat && (pat + rest)[|pat|..] == rest;
  }

  /** An occurrence at the start of an otherwise pattern-free text is the only thing replaced. */
  lemma ReplaceLeadOnly(pat: string, rest: string, rep: string)
    requires |pat| > 0 && Absent(rest, pat)
    ensures Replace(pat + rest, pat, rep) == rep + rest
  {
    ReplaceLead(pat, rest, rep);
    ReplaceAbsent(rest, pat, rep);
  }

  /**
   * A character that the pattern does not contain splits the work: no
   * occurrence can cover it, so each side is replaced on its own.
   */
  lemma {:induction false} ReplaceSplit(a: string, c: char, b: string, pat: string, rep: string)
    requires |pat| > 0 && c !in pat
    ensures Replace(a + [c] + b, pat, rep) == Replace(a, pat, rep) + [c] + Replace(b, pat, rep)
    decreases |a|
  {
    var s := a + [c] + b;
    if |s| < |pat| {
      ReplaceShort(a, pat, rep);
      ReplaceShort(b, pat, rep);
    } else if s[..|pat|] == pat {
      SplitMatch(a, c, b, pat);
      ReplaceSplit(a[|pat|..], c, b, pat, rep);
      SplitMatchStep(a, c, b, pat, rep);
    } else if a == [] {
      assert s[1..] == b;
    } else {
      ReplaceSplit(a[1..], c, b, pat, rep);
      SplitMissStep(a, c, b, pat, rep);
    }
  }

  /** An occurrence at the start of `a + [c] + b` lies within `a`. */
  lemma SplitMatch(a: string, c: char, b: string, pat: string)
    requires c !in pat && |a + [c] + b| >= |pat| && (a + [c] + b)[..|pat|] == pat
    ensures |a| >= |pat| && a[..|pat|] == pat && (a + [c] + b)[|pat|..] == a[|pat|..] + [c] + b
  {
    var s := a + [c] + b;
    assert s[|a|] == c;                    // and `c` is not in the pattern, so the match ends within `a`
    assert forall i :: 0 <= i < |pat| ==> pat[i] == s[i];
    assert a[..|pat|] == s[..|pat|];
  }

  /** The split survives replacing an occurrence at the start of `a`. */
  lemma SplitMatchStep(a: string, c: char, b: string, pat: string, rep: string)
    requires |pat| > 0 && |a| >= |pat| && a[..|pat|] == pat
    requires Replace(a[|pat|..] + [c] + b, pat, rep) == Replace(a[|pat|..], pat, rep) + [c] + Replace(b, pat, rep)
    ensures Replace(a + [c] + b, pat, rep) == Replace(a, pat, rep) + [c] + Replace(b, pat, rep)
  {
    var s := a + [c] + b;
    assert s[..|pat|] == pat && s[|pat|..] == a[|pat|..] + [c] + b;
  }

  /** The split survives keeping the first character of a non-empty `a`. */
  lemma SplitMissStep(a: string, c: char, b: string, pat: string, rep: string)
    requires |pat| > 0 && c !in pat && a != [] && |a + [c] + b| >= |pat| && (a + [c] + b)[..|pat|] != pat
    requires Replace(a[1..] + [c] + b, pat, rep) == Replace(a[1..], pat, rep) + [c] + Replace(b, pat, rep)
    ensures Replace(a + [c] + b, pat, rep) == Replace(a, pat, rep) + [c] + Replace(b, pat, rep)
  {
    var s := a + [c] + b;
    var x, y := Replace(a[1..], pat, rep), Replace(b, pat, rep);
    SplitMiss(a, c, b, pat);
    calc {
      Replace(s, pat, rep);
      == { KeepFirst(s, pat, rep, s[..|pat|]); }
      [s[0]] + Replace(s[1..], pat, rep);
      == { assert s[0] == a[0] && s[1..] == a[1..] + [c] + b; }
      [a[0]] + Replace(a[1..] + [c] + b, pat, rep);
      [a[0]] + (x + [c] + y);
      ([a[0]] + x) + [c] + y;
      == { KeepFirst(a, pat, rep, s[..|pat|]); }
      Replace(a, pat, rep) + [c] + y;
    }
  }

  /** Dropping the first character of `a + [c] + b`, for a non-empty `a`. */
  lemma SplitMiss(a: string, c: char, b: string, pat: string)
    requires a != []
    ensures (a + [c] + b)[1..] == a[1..] + [c] + b && (a + [c] + b)[0] == a[0]
    ensures |a| >= |pat| ==> a[..|pat|] == (a + [c] + b)[..|pat|]
  {
  }

  /** When `a` does not start with the pattern, its first character is kept. */
  lemma KeepFirst(a: string, pat: string, rep: string, front: string)
    requires |pat| > 0 && a != [] && front != pat
    requires |a| >= |pat| ==> a[..|pat|] == front
    ensures Replace(a, pat, rep) == [a[0]] + Replace(a[1..], pat, rep)
  {
    if |a| < |pat| {
      ReplaceShort(a[1..], pat, rep);
      assert a == [a[0]] + a[1..];
    }
  }

  lemma ReplaceShort(s: string, pat: string, rep: string)
    requires 0 < |pat| && |s| < |pat|
    ensures Replace(s, pat, rep) == s
  {
  }

  /**
   * The one occurrence of `pat`, fenced by two characters that cannot be
   * part of it, is the only thing replaced.
   */
  lemma ReplaceBetween(x: string, c: char, d: char, y: string, pat: string, rep: string)
    requires |pat| > 0 && c !in pat && d !in pat && Absent(x, pat) && Absent(y, pat)
    ensures Replace(x + [c] + pat + [d] + y, pat, rep) == x + [c] + rep + [d] + y
  {
    var tail := [d] + y;
    assert x + [c] + pat + [d] + y == x + [c] + (pat + tail);
    assert Replace(tail, pat, rep) == tail by {
      AbsentSplit([], d, y, pat);
      assert [] + [d] + y == tail;
      ReplaceAbsent(tail, pat, rep);
    }
    calc {
      Replace(x + [c] + (pat + tail), pat, rep);
      == { ReplaceSplit(x, c, pat + tail, pat, rep); }
      Replace(x, pat, rep) + [c] + Replace(pat + tail, pat, rep);
      == { ReplaceAbsent(x, pat, rep); ReplaceLead(pat, tail, rep); }
      x + [c] + (rep + tail);
    }
    assert x + [c] + (rep + tail) == x + [c] + rep + [d] + y;
  }

  /** A string shorter than the pattern cannot contain it. */
  lemma AbsentShort(s: string, pat: string)
    requires |s| < |pat|
    ensures Absent(s, pat)
  {
  }

  /** The pattern on its own is replaced by the replacement. */
  lemma ReplaceWhole(pat: string, rep: string)
    requires |pat| > 0
    ensures Replace(pat, pat, rep) == rep
  {
    ReplaceLead(pat, [], rep);
    assert pat + [] == pat;
  }

  /**
   * A pattern ending in `end` cannot occur in a text whose only `end` is
   * preceded by a character other than the pattern's second to last.
   */
  lemma StatementAbsent(a: string, end: char, b: string, pat: string)
    requires |pat| >= 2 && pat[|pat| - 1] == end && end !in a && end !in b
    requires |a| > 0 && a[|a| - 1] != pat[|pat| - 2]
    ensures Absent(a + [end] + b, pat)
  {
    var s := a + [end] + b;
    forall i: nat ensures !MatchAt(s, pat, i) {
      var j := i + |pat| - 1;
      if j < |a| {
        assert s[j] == a[j];
      } else if j == |a| {
        assert s[j - 1] == a[|a| - 1];
      } else if j < |s| {
        assert s[j] == b[j - |a| - 1];
      }
    }
  }

  /** A string lacking one of the pattern's characters cannot contain it. */
  lemma AbsentMissing(s: string, pat: string, ch: char)
    requires ch in pat && ch !in s
    ensures Absent(s, pat)
  {
    var k :| 0 <= k < |pat| && pat[k] == ch;
    forall i: nat ensures !MatchAt(s, pat, i) {
      if i + |pat| <= |s| {
        assert s[i + k] != ch;
      }
    }
  }

  /** Two pieces free of the pattern, joined by a character it lacks, stay free of it. */
  lemma AbsentSplit(x: string, c: char, y: string, pat: string)
    requires c !in pat && Absent(x, pat) && Absent(y, pat)
    ensures Absent(x + [c] + y, pat)
  {
    var s := x + [c] + y;
    forall i: nat ensures !MatchAt(s, pat, i) {
      if i + |pat| <= |x| {
        assert !MatchAt(x, pat, i);
        var k :| 0 <= k < |pat| && x[i + k] != pat[k];
        assert s[i + k] == x[i + k];
      } else if i > |x| && i + |pat| <= |s| {
        assert !MatchAt(y, pat, i - |x| - 1);
        var k :| 0 <= k < |pat| && y[i - |x| - 1 + k] != pat[k];
        assert s[i + k] == y[i - |x| - 1 + k];
      } else if i + |pat| <= |s| {
        var k := |x| - i;
        assert s[i + k] == c && pat[k] in pat;
      }
    }
  }

  /** A string free of part of a pattern is free of the whole pattern. */
  lemma AbsentWithin(s: string, part: string, pat: string, k: nat)
    requires k + |part| <= |pat| && pat[k..k + |part|] == part && Absent(s, part)
    ensures Absent(s, pat)
  {
    forall i: nat ensures !MatchAt(s, pat, i) {
      if MatchAt(s, pat, i) {
        forall j | 0 <= j < |part| ensures s[i + k + j] == part[j] {
          assert part[j] == pat[k + j];
        }
        assert MatchAt(s, part, i + k);
      }
    }
  }

  /** `String.Join(sep, items)`. */
  function JoinWith(items: seq<string>, sep: string): string
    decreases |items|
  {
    if |items| == 0 then ""
    else if |items| == 1 then items[0]
    else JoinWith(items[..|items| - 1], sep) + sep + items[|items| - 1]
  }

  /** The lines of a text, one after another, each but the last ended by a line feed. */
  function Lines(ls: seq<string>): string
    decreases |ls|
  {
    if |ls| == 0 then ""
    else if |ls| == 1 then ls[0]
    else ls[0] + "\n" + Lines(ls[1..])
  }

  /** Each line with `pat` replaced. */
  function ReplaceEach(ls: seq<string>, pat: string, rep: string): (r: seq<string>)
    requires |pat| > 0
    ensures |r| == |ls| && forall i :: 0 <= i < |ls| ==> r[i] == Replace(ls[i], pat, rep)
  {
    seq(|ls|, i requires 0 <= i < |ls| => Replace(ls[i], pat, rep))
  }

  lemma ReplaceEachAppend(a: seq<string>, b: seq<string>, pat: string, rep: string)
    requires |pat| > 0
    ensures ReplaceEach(a + b, pat, rep) == ReplaceEach(a, pat, rep) + ReplaceEach(b, pat, rep)
  {
  }

  /** Lines free of the pattern are left as they are. */
  lemma ReplaceEachAbsent(ls: seq<string>, pat: string, rep: string)
    requires |pat| > 0 && forall i :: 0 <= i < |ls| ==> Absent(ls[i], pat)
    ensures ReplaceEach(ls, pat, rep) == ls
  {
    forall i | 0 <= i < |ls| ensures Replace(ls[i], pat, rep) == ls[i] {
      ReplaceAbsent(ls[i], pat, rep);
    }
  }

  /** Replacing a pattern without a line feed in a text is replacing it in each line. */
  lemma {:induction false} ReplaceLines(ls: seq<string>, pat: string, rep: string)
    requires |pat| > 0 && '\n' !in pat
    ensures Replace(Lines(ls), pat, rep) == Lines(ReplaceEach(ls, pat, rep))
    decreases |ls|
  {
    var rs := ReplaceEach(ls, pat, rep);
    if |ls| > 1 {
      ReplaceSplit(ls[0], '\n', Lines(ls[1..]), pat, rep);
      ReplaceLines(ls[1..], pat, rep);
      assert rs[1..] == ReplaceEach(ls[1..], pat, rep);
    }
  }

  /** A text whose lines are all free of a pattern without a line feed is free of it. */
  lemma {:induction false} AbsentLines(ls: seq<string>, pat: string)
    requires |pat| > 0 && '\n' !in pat && forall i :: 0 <= i < |ls| ==> Absent(ls[i], pat)
    ensures Absent(Lines(ls), pat)
    decreases |ls|
  {
    if |ls| == 1 {
      assert Absent(ls[0], pat);
    } else if |ls| > 1 {
      assert forall i :: 0 <= i < |ls| - 1 ==> ls[1..][i] == ls[i + 1];
      AbsentLines(ls[1..], pat);
      AbsentSplit(ls[0], '\n', Lines(ls[1..]), pat);
      assert Lines(ls) == ls[0] + ['\n'] + Lines(ls[1..]);
    }
  }

  /** Lower-case letters and underscores only, as in an identifier like `replace_me`. */
  ghost predicate Word(s: string)
  {
    forall i :: 0 <= i < |s| ==> s[i] == '_' || 'a' <= s[i] <= 'z'
  }

  lemma WordJoin(a: string, b: string)
    requires Word(a) && Word(b)
    ensures Word(a + b)
  {
  }

  /** Punctuation, spaces and line feeds never occur in a word. */
  lemma WordLacks(s: string, c: char)
    requires Word(s) && c != '_' && !('a' <= c <= 'z')
    ensures c !in s
  {
  }

  /** A decimal digit character. */
  predicate IsDigit(ch: char)
  {
    48 <= ch as int <= 57
  }

  /** The decimal spelling of `n`, as `int.ToString()` produces it for a non-negative value. */
  function Decimal(n: nat): (r: string)
    ensures |r| > 0
    ensures forall i :: 0 <= i < |r| ==> IsDigit(r[i])
    decreases n
  {
    var d := [(48 + n % 10) as char];
    if n < 10 then d else Decimal(n / 10) + d
  }

  /** The value a string of decimal digits denotes. */
  function DigitsValue(s: string): nat
    requires forall i :: 0 <= i < |s| ==> IsDigit(s[i])
    decreases |s|
  {
    if s == [] then 0
    else
      var last := s[|s| - 1];
      assert IsDigit(last);
      10 * DigitsValue(s[..|s| - 1]) + (last as int - 48)
  }

  /** The spelling reads back as the number: distinct parameters get distinct names. */
  lemma {:induction false} DecimalValue(n: nat)
    ensures DigitsValue(Decimal(n)) == n
    decreases n
  {
    var d := [(48 + n % 10) as char];
    if n >= 10 {
      DecimalValue(n / 10);
      var s := Decimal(n);
      assert s == Decimal(n / 10) + d;
      assert s[..|s| - 1] == Decimal(n / 10);
    }
  }

  /** A character in neither the items nor the separator is not in the joined text. */
  lemma {:induction false} JoinLacks(items: seq<string>, sep: string, ch: char)
    requires ch !in sep && forall i :: 0 <= i < |items| ==> ch !in items[i]
    ensures ch !in JoinWith(items, sep)
    decreases |items|
  {
    if |items| > 1 {
      var front := items[..|items| - 1];
      assert forall i :: 0 <= i < |front| ==> front[i] == items[i];
      JoinLacks(front, sep, ch);
    }
  }

  /**
   * Items free of a pattern, joined by `", "` (whose characters the pattern
   * lacks), give a text free of it.
   */
  lemma {:induction false} JoinAbsent(items: seq<string>, pat: string)
    requires |pat| > 0 && ',' !in pat && ' ' !in pat
    requires forall i :: 0 <= i < |items| ==> Absent(items[i], pat)
    ensures Absent(JoinWith(items, ", "), pat)
    decreases |items|
  {
    if |items| == 1 {
      assert Absent(items[0], pat);
    } else if |items| > 1 {
      var front := items[..|items| - 1];
      assert forall i :: 0 <= i < |front| ==> front[i] == items[i];
      JoinAbsent(front, pat);
      var head := JoinWith(front, ", ");
      AbsentSplit(head, ',', [], pat);
      AbsentSplit(head + [','] + [], ' ', items[|items| - 1], pat);
      assert JoinWith(items, ", ") == head + [','] + [] + [' '] + items[|items| - 1];
    }
  }

  // String identities, used as steps in the proofs about generated source.

  /** Four middle pieces of a concatenation, taken together. */
  lemma Regroup(x: string, a: string, b: string, c: string, d: string, e: string)
    ensures x + a + b + c + d + e == x + (a + b + c + d) + e
  {
  }

  /** Two middle pieces of a concatenation, taken together. */
  lemma RegroupPair(x: string, a: string, b: string, e: string)
    ensures x + a + b + e == x + (a + b) + e
  {
  }
}
