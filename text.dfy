/**
 * The .NET string operations the converter relies on, as functions on
 * `seq<char>`: splitting on one character (`string.Split(char)`), joining
 * with a separator (`string.Join`), ordinal replacement of every
 * non-overlapping occurrence (`string.Replace(string, string)`), the
 * case fold behind `StringComparer.OrdinalIgnoreCase` (ASCII letters only)
 * and the decimal rendering of a count (`int.ToString()`).
 */
module Text {

  // ---------------------------------------------------------------------
  // Counting characters
  // ---------------------------------------------------------------------

  /** Number of occurrences of `c` in `s`. */
  function CountChar(s: string, c: char): (k: nat)
    ensures k == 0 <==> c !in s
    ensures k <= |s|
  {
    if s == [] then 0 else (if s[0] == c then 1 else 0) + CountChar(s[1..], c)
  }

  lemma {:induction false} CountCharAppend(a: string, b: string, c: char)
    ensures CountChar(a + b, c) == CountChar(a, c) + CountChar(b, c)
  {
    if a != [] {
      assert (a + b)[1..] == a[1..] + b;
      CountCharAppend(a[1..], b, c);
    } else {
      assert a + b == b;
    }
  }

  // ---------------------------------------------------------------------
  // Split and Join
  // ---------------------------------------------------------------------

  /**
   * `s.Split(sep)`: the pieces between the occurrences of `sep`, empty
   * pieces included; an input without `sep` (the empty one too) is one piece.
   */
  function Split(s: string, sep: char): (parts: seq<string>)
    ensures |parts| == CountChar(s, sep) + 1
    ensures forall i :: 0 <= i < |parts| ==> sep !in parts[i]
  {
    if s == [] then [""]
    else
      var rest := Split(s[1..], sep);
      if s[0] == sep then [""] + rest
      else [[s[0]] + rest[0]] + rest[1..]
  }

  /** `string.Join(d, parts)`: the parts with `d` between neighbours. */
  function Join(parts: seq<string>, d: string): (s: string)
    decreases |parts|
  {
    if parts == [] then ""
    else if |parts| == 1 then parts[0]
    else parts[0] + d + Join(parts[1..], d)
  }

  /** Joining one more part adds the separator and that part at the end. */
  lemma {:induction false} JoinSnoc(parts: seq<string>, x: string, d: string)
    requires |parts| >= 1
    ensures Join(parts + [x], d) == Join(parts, d) + d + x
    decreases |parts|
  {
    if |parts| == 1 {
      assert (parts + [x])[1..] == [x];
    } else {
      JoinSnoc(parts[1..], x, d);
      assert (parts + [x])[1..] == parts[1..] + [x];
    }
  }

  /** Prefixing the first part with a character prefixes the join with it. */
  lemma JoinExtendHead(c: char, parts: seq<string>, d: string)
    requires |parts| >= 1
    ensures Join([[c] + parts[0]] + parts[1..], d) == [c] + Join(parts, d)
  {
    var ext := [[c] + parts[0]] + parts[1..];
    if |parts| > 1 {
      assert ext[1..] == parts[1..];
    }
  }

  /** Joining the pieces of a split with the same character gives back the input. */
  lemma {:induction false} JoinSplit(s: string, sep: char)
    ensures Join(Split(s, sep), [sep]) == s
  {
    if s != [] {
      var rest := Split(s[1..], sep);
      JoinSplit(s[1..], sep);
      assert s == [s[0]] + s[1..];
      if s[0] == sep {
        assert ([""] + rest)[1..] == rest;
        assert Join([""] + rest, [sep]) == [sep] + Join(rest, [sep]);
      } else {
        JoinExtendHead(s[0], rest, [sep]);
      }
    }
  }

  /** Splitting a join whose parts do not contain the separator gives back the parts. */
  lemma {:induction false} SplitJoin(parts: seq<string>, sep: char)
    requires |parts| >= 1
    requires forall i :: 0 <= i < |parts| ==> sep !in parts[i]
    ensures Split(Join(parts, [sep]), sep) == parts
    decreases |parts|
  {
    if |parts| == 1 {
      SplitFree(parts[0], sep);
    } else {
      var tail := Join(parts[1..], [sep]);
      SplitJoin(parts[1..], sep);
      SplitPrefix(parts[0], tail, sep);
      assert [parts[0]] + parts[1..] == parts;
    }
  }

  /** A string without the separator splits into itself. */
  lemma {:induction false} SplitFree(s: string, sep: char)
    requires sep !in s
    ensures Split(s, sep) == [s]
  {
    if s != [] {
      SplitFree(s[1..], sep);
      assert [s[0]] + s[1..] == s;
    }
  }

  /** `a + sep + b` splits into `a` followed by the pieces of `b`, when `a` has no separator. */
  lemma {:induction false} SplitPrefix(a: string, b: string, sep: char)
    requires sep !in a
    ensures Split(a + [sep] + b, sep) == [a] + Split(b, sep)
  {
    if a == [] {
      assert a + [sep] + b == [sep] + b;
      assert ([sep] + b)[1..] == b;
    } else {
      var s := a + [sep] + b;
      assert s[0] == a[0];
      assert s[1..] == a[1..] + [sep] + b;
      SplitPrefix(a[1..], b, sep);
      var rest := Split(s[1..], sep);
      assert rest[0] == a[1..] && rest[1..] == Split(b, sep);
      assert Split(s, sep) == [[s[0]] + rest[0]] + rest[1..];
      assert [a[0]] + a[1..] == a;
    }
  }

  /** The separator occurs once fewer than there are parts, when no part contains it. */
  lemma {:induction false} JoinCount(parts: seq<string>, sep: char)
    requires |parts| >= 1
    requires forall i :: 0 <= i < |parts| ==> sep !in parts[i]
    ensures CountChar(Join(parts, [sep]), sep) == |parts| - 1
    decreases |parts|
  {
    if |parts| > 1 {
      JoinCount(parts[1..], sep);
      CountCharAppend(parts[0] + [sep], Join(parts[1..], [sep]), sep);
      CountCharAppend(parts[0], [sep], sep);
    }
  }

  // ---------------------------------------------------------------------
  // Replace
  // ---------------------------------------------------------------------

  /** `pat` occurs in `s` starting at position `i`. */
  predicate OccursAt(s: string, pat: string, i: nat)
  {
    i + |pat| <= |s| && s[i..i + |pat|] == pat
  }

  /**
   * `s.Replace(pat, rep)`: scanning left to right, every occurrence of `pat`
   * that does not overlap an earlier replaced one becomes `rep`.
   */
  function Replace(s: string, pat: string, rep: string): (r: string)
    requires |pat| > 0
    decreases |s|
  {
    if |s| < |pat| then s
    else if s[..|pat|] == pat then rep + Replace(s[|pat|..], pat, rep)
    else [s[0]] + Replace(s[1..], pat, rep)
  }

  /** Without an occurrence of the pattern, replacing changes nothing. */
  lemma {:induction false} ReplaceAbsent(s: string, pat: string, rep: string)
    requires |pat| > 0
    requires forall i: nat :: !OccursAt(s, pat, i)
    ensures Replace(s, pat, rep) == s
    decreases |s|
  {
    if |s| >= |pat| {
      assert !OccursAt(s, pat, 0);
      assert s[..|pat|] != pat;
      forall i: nat ensures !OccursAt(s[1..], pat, i) {
        assert !OccursAt(s, pat, i + 1);
        if i + |pat| <= |s[1..]| {
          assert s[1..][i..i + |pat|] == s[i + 1..i + 1 + |pat|];
        }
      }
      ReplaceAbsent(s[1..], pat, rep);
      assert [s[0]] + s[1..] == s;
    }
  }

  /** Replacing a pattern by itself changes nothing. */
  lemma {:induction false} ReplaceSelf(s: string, pat: string)
    requires |pat| > 0
    ensures Replace(s, pat, pat) == s
    decreases |s|
  {
    if |s| >= |pat| {
      if s[..|pat|] == pat {
        ReplaceSelf(s[|pat|..], pat);
        assert s[..|pat|] + s[|pat|..] == s;
      } else {
        ReplaceSelf(s[1..], pat);
        assert [s[0]] + s[1..] == s;
      }
    }
  }

  /**
   * Replacing a one-character pattern by a text that does not contain it
   * leaves no occurrence of that character.
   */
  lemma {:induction false} ReplaceRemovesChar(s: string, c: char, rep: string)
    requires c !in rep
    ensures c !in Replace(s, [c], rep)
    decreases |s|
  {
    if |s| >= 1 {
      if s[..1] == [c] {
        ReplaceRemovesChar(s[1..], c, rep);
      } else {
        assert s[0] != c;
        ReplaceRemovesChar(s[1..], c, rep);
      }
    }
  }

  /**
   * Swapping one character `a` for another `b` that the input does not
   * contain, and then `b` back for `a`, returns the input.
   */
  lemma {:induction false} ReplaceRoundTrip(s: string, a: char, b: char)
    requires a != b && b !in s
    ensures Replace(Replace(s, [a], [b]), [b], [a]) == s
    decreases |s|
  {
    if |s| >= 1 {
      var t := Replace(s[1..], [a], [b]);
      ReplaceRoundTrip(s[1..], a, b);
      if s[0] == a {
        assert s[..1] == [a];
        assert Replace(s, [a], [b]) == [b] + t;
        assert ([b] + t)[..1] == [b];
        assert ([b] + t)[1..] == t;
      } else {
        assert s[..1] != [a];
        assert Replace(s, [a], [b]) == [s[0]] + t;
        assert ([s[0]] + t)[..1] != [b];
        assert ([s[0]] + t)[1..] == t;
      }
      assert [s[0]] + s[1..] == s;
    }
  }

  /**
   * On a one-character pattern, replacing is splitting on that character
   * and joining the pieces with the replacement.
   */
  lemma {:induction false} ReplaceCharIsSplitJoin(s: string, c: char, rep: string)
    ensures Replace(s, [c], rep) == Join(Split(s, c), rep)
    decreases |s|
  {
    if s != [] {
      ReplaceCharIsSplitJoin(s[1..], c, rep);
      var rest := Split(s[1..], c);
      if s[0] == c {
        assert s[..1] == [c];
        assert ([""] + rest)[1..] == rest;
      } else {
        assert s[..1] != [c];
        JoinExtendHead(s[0], rest, rep);
      }
    }
  }

  // ---------------------------------------------------------------------
  // Case folding (StringComparer.OrdinalIgnoreCase, ASCII letters)
  // ---------------------------------------------------------------------

  function FoldChar(c: char): (f: char)
    ensures !('a' <= f <= 'z')
    ensures 'A' <= c <= 'Z' || 'a' <= c <= 'z' ==> 'A' <= f <= 'Z'
    ensures !('A' <= c <= 'Z' || 'a' <= c <= 'z') ==> f == c
  {
    if 'a' <= c <= 'z' then (c as int - 32) as char else c
  }

  /** The canonical spelling under which two names compare equal ignoring case. */
  function Fold(s: string): (f: string)
    ensures |f| == |s|
    ensures forall i :: 0 <= i < |s| ==> !('a' <= f[i] <= 'z')
  {
    seq(|s|, i requires 0 <= i < |s| => FoldChar(s[i]))
  }

  /** Folding is idempotent: a folded name is its own canonical spelling. */
  lemma FoldIdempotent(s: string)
    ensures Fold(Fold(s)) == Fold(s)
  {
    assert forall i :: 0 <= i < |s| ==> FoldChar(Fold(s)[i]) == Fold(s)[i];
  }

  /** Two characters are equal ignoring ASCII case: the same, or the two cases of one letter. */
  predicate EqIgnoringAsciiCase(a: char, b: char)
  {
    a == b
    || ('a' <= a <= 'z' && b as int == a as int - 32)
    || ('A' <= a <= 'Z' && b as int == a as int + 32)
  }

  lemma FoldCharEquates(a: char, b: char)
    ensures FoldChar(a) == FoldChar(b) <==> EqIgnoringAsciiCase(a, b)
  {
  }

  /** Two names fold to the same spelling exactly when they agree character by character ignoring case. */
  lemma FoldEquates(s: string, t: string)
    ensures Fold(s) == Fold(t) <==>
              |s| == |t| && forall i :: 0 <= i < |s| ==> EqIgnoringAsciiCase(s[i], t[i])
  {
    if |s| == |t| {
      forall i | 0 <= i < |s|
        ensures Fold(s)[i] == Fold(t)[i] <==> EqIgnoringAsciiCase(s[i], t[i])
      {
        FoldCharEquates(s[i], t[i]);
      }
      if Fold(s) != Fold(t) {
        var i :| 0 <= i < |s| && Fold(s)[i] != Fold(t)[i];
      }
    } else {
      assert |Fold(s)| != |Fold(t)|;
    }
  }

  // ---------------------------------------------------------------------
  // Decimal rendering of a count
  // ---------------------------------------------------------------------

  predicate IsDigit(c: char) { '0' <= c <= '9' }

  function DigitValue(c: char): nat
    requires IsDigit(c)
  {
    c as int - '0' as int
  }

  /** The value of a string of decimal digits. */
  function DecimalValue(s: string): nat
    requires forall i :: 0 <= i < |s| ==> IsDigit(s[i])
  {
    if s == [] then 0 else 10 * DecimalValue(s[..|s| - 1]) + DigitValue(s[|s| - 1])
  }

  /** `n.ToString()` for a non-negative `n`: shortest decimal digits, no sign. */
  function NatToString(n: nat): (s: string)
    ensures |s| >= 1
    ensures forall i :: 0 <= i < |s| ==> IsDigit(s[i])
    ensures s[0] == '0' ==> n == 0
  {
    if n < 10 then [('0' as int + n) as char]
    else NatToString(n / 10) + [('0' as int + n % 10) as char]
  }

  /** Reading the digits back gives the number. */
  lemma {:induction false} NatToStringValue(n: nat)
    ensures DecimalValue(NatToString(n)) == n
  {
    var s := NatToString(n);
    if n >= 10 {
      NatToStringValue(n / 10);
      assert s[..|s| - 1] == NatToString(n / 10);
    }
  }
}
