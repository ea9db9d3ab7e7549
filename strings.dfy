/** String operations of JavaScript that the extension relies on, over `seq<char>`:
    `split` with a one-character separator, `indexOf` of a substring and
    `toLowerCase` on ASCII letters. */
module Strings {

  /** The parts joined back together with `sep` between each two of them. */
  function Join(parts: seq<string>, sep: char): string
    requires |parts| >= 1
    decreases |parts|
  {
    if |parts| == 1 then parts[0] else parts[0] + [sep] + Join(parts[1..], sep)
  }

  /** The number of occurrences of `c` in `s`. */
  function Count(s: string, c: char): nat
    decreases |s|
  {
    if s == [] then 0 else (if s[0] == c then 1 else 0) + Count(s[1..], c)
  }

  /** Counting distributes over concatenation. */
  lemma {:induction false} CountConcat(a: string, b: string, c: char)
    ensures Count(a + b, c) == Count(a, c) + Count(b, c)
    decreases |a|
  {
    if a != [] {
      assert (a + b)[1..] == a[1..] + b;
      CountConcat(a[1..], b, c);
    } else {
      assert a + b == b;
    }
  }

  /** A character that does not occur is counted zero times. */
  lemma {:induction false} CountAbsent(s: string, c: char)
    requires c !in s
    ensures Count(s, c) == 0
    decreases |s|
  {
    if s != [] { CountAbsent(s[1..], c); }
  }

  /** `s.split(sep)`: the maximal runs of characters between occurrences of `sep`.
      The parts are free of `sep`, there is one more of them than there are
      occurrences of `sep`, and joining them with `sep` gives `s` back. */
  function Split(s: string, sep: char): (r: seq<string>)
    ensures |r| == Count(s, sep) + 1
    ensures forall k :: 0 <= k < |r| ==> sep !in r[k]
    ensures Join(r, sep) == s
    decreases |s|
  {
    if s == [] then [[]]
    else
      var rest := Split(s[1..], sep);
      assert s == [s[0]] + s[1..];
      if s[0] == sep then
        assert Join([[]] + rest, sep) == [sep] + Join(rest, sep);
        [[]] + rest
      else
        var r := [[s[0]] + rest[0]] + rest[1..];
        JoinHead(rest, sep);
        JoinHead(r, sep);
        assert |r| > 1 ==> r[1..] == rest[1..];
        r
  }

  /** Joining splits off the first part. */
  lemma JoinHead(parts: seq<string>, sep: char)
    requires |parts| >= 1
    ensures Join(parts, sep) == parts[0] + (if |parts| == 1 then [] else [sep] + Join(parts[1..], sep))
  {
  }

  /** Every character of every part of `s.split(sep)` is a character of `s`. */
  lemma {:induction false} SplitPartsWithin(s: string, sep: char, k: nat, c: char)
    requires k < |Split(s, sep)| && c in Split(s, sep)[k]
    ensures c in s
    decreases |s|
  {
    if s != [] {
      var rest := Split(s[1..], sep);
      if s[0] != sep {
        if k == 0 {
          if c != s[0] { SplitPartsWithin(s[1..], sep, 0, c); }
        } else {
          SplitPartsWithin(s[1..], sep, k, c);
        }
      } else if k > 0 {
        SplitPartsWithin(s[1..], sep, k - 1, c);
      }
    }
  }

  /** The first part of `s.split(sep)` is the longest prefix of `s` free of `sep`. */
  lemma {:induction false} SplitFirstIsPrefix(s: string, sep: char)
    ensures Split(s, sep)[0] <= s
    ensures |Split(s, sep)[0]| < |s| ==> s[|Split(s, sep)[0]|] == sep
    decreases |s|
  {
    if s != [] && s[0] != sep {
      SplitFirstIsPrefix(s[1..], sep);
    }
  }

  /** A string free of the separator is split into itself alone. */
  lemma SplitWithoutSeparator(s: string, sep: char)
    requires sep !in s
    ensures Split(s, sep) == [s]
  {
    var r := Split(s, sep);
    CountAbsent(s, sep);
    assert |r| == 1;
  }

  /** `pat` occurs in `s` starting at index `i`. */
  predicate OccursAt(s: string, pat: string, i: nat)
  {
    i + |pat| <= |s| && s[i..i + |pat|] == pat
  }

  /** `s.indexOf(pat, from)`: the first index at or after `from` where `pat` occurs, or -1. */
  function IndexOfFrom(s: string, pat: string, from: nat): (r: int)
    ensures r == -1 || (from <= r && OccursAt(s, pat, r as nat))
    ensures r == -1 ==> forall i: nat :: from <= i ==> !OccursAt(s, pat, i)
    ensures r != -1 ==> forall i: nat :: from <= i < r ==> !OccursAt(s, pat, i)
    decreases |s| - from
  {
    if from + |pat| > |s| then -1
    else if s[from..from + |pat|] == pat then from
    else IndexOfFrom(s, pat, from + 1)
  }

  /** `s.indexOf(pat)`: the first index where `pat` occurs in `s`, or -1 when it does not occur. */
  function IndexOf(s: string, pat: string): (r: int)
    ensures r == -1 <==> forall i: nat :: !OccursAt(s, pat, i)
    ensures r != -1 ==> 0 <= r && OccursAt(s, pat, r as nat) && forall i: nat :: i < r ==> !OccursAt(s, pat, i)
  {
    IndexOfFrom(s, pat, 0)
  }

  /** Lower-cases one ASCII letter; every other character is kept. */
  function LowerChar(c: char): char
  {
    if 'A' <= c <= 'Z' then (c as int - 'A' as int + 'a' as int) as char else c
  }

  /** `s.toLowerCase()` restricted to ASCII letters. */
  function ToLower(s: string): (r: string)
    ensures |r| == |s|
    ensures forall i :: 0 <= i < |s| ==> r[i] == LowerChar(s[i])
  {
    seq(|s|, i requires 0 <= i < |s| => LowerChar(s[i]))
  }
}
