/** The two .NET string operations the anonymiser relies on, `Split(char)`
    without options (which keeps empty segments) and its inverse, joining
    segments with the separator, together with the facts that make them
    inverse to each other. */
module Strings {

  /** Number of occurrences of `c` in `s`. */
  function Occurrences(s: string, c: char): nat {
    multiset(s)[c]
  }

  lemma OccurrencesCons(s: string, c: char)
    requires |s| > 0
    ensures Occurrences(s, c) == Occurrences(s[1..], c) + (if s[0] == c then 1 else 0)
  {
    assert s == [s[0]] + s[1..];
  }

  /** `String.Join(sep, parts)`: the parts with one `sep` between neighbours. */
  function Join(parts: seq<string>, sep: char): string
    decreases |parts|
  {
    if |parts| == 0 then ""
    else if |parts| == 1 then parts[0]
    else parts[0] + [sep] + Join(parts[1..], sep)
  }

  /** No segment contains the separator. */
  predicate SeparatorFree(parts: seq<string>, sep: char) {
    forall k :: 0 <= k < |parts| ==> sep !in parts[k]
  }

  lemma JoinCons(p: string, ps: seq<string>, sep: char)
    requires |ps| >= 1
    ensures Join([p] + ps, sep) == p + [sep] + Join(ps, sep)
  {
    assert ([p] + ps)[1..] == ps;
  }

  lemma JoinPrependChar(c: char, p: string, ps: seq<string>, sep: char)
    ensures Join([[c] + p] + ps, sep) == [c] + Join([p] + ps, sep)
  {
    if |ps| >= 1 {
      JoinCons([c] + p, ps, sep);
      JoinCons(p, ps, sep);
    }
  }

  /** A separator starts a new, empty first segment. */
  lemma SplitStepSeparator(rest: seq<string>, sep: char)
    requires |rest| >= 1 && SeparatorFree(rest, sep)
    ensures SeparatorFree([""] + rest, sep)
    ensures Join([""] + rest, sep) == [sep] + Join(rest, sep)
  {
    JoinCons("", rest, sep);
  }

  /** Any other character extends the first segment. */
  lemma SplitStepChar(c: char, rest: seq<string>, sep: char)
    requires c != sep && |rest| >= 1 && SeparatorFree(rest, sep)
    ensures SeparatorFree([[c] + rest[0]] + rest[1..], sep)
    ensures Join([[c] + rest[0]] + rest[1..], sep) == [c] + Join(rest, sep)
  {
    JoinPrependChar(c, rest[0], rest[1..], sep);
    assert [rest[0]] + rest[1..] == rest;
  }

  /** `s.Split(sep)`: the maximal separator-free segments of `s`, in order,
      empty ones included, so a string with n separators has n + 1 segments
      and splitting never yields an empty list. Joining them again gives `s`. */
  function Split(s: string, sep: char): (parts: seq<string>)
    ensures |parts| == Occurrences(s, sep) + 1
    ensures SeparatorFree(parts, sep)
    ensures Join(parts, sep) == s
    decreases |s|
  {
    if |s| == 0 then [""]
    else
      var rest := Split(s[1..], sep);
      OccurrencesCons(s, sep);
      assert s == [s[0]] + s[1..];
      if s[0] == sep then
        SplitStepSeparator(rest, sep);
        [""] + rest
      else
        SplitStepChar(s[0], rest, sep);
        [[s[0]] + rest[0]] + rest[1..]
  }

  /** Splitting a string that starts with the separator adds an empty
      first segment to the split of the rest. */
  lemma SplitAfterSeparator(s: string, sep: char, parts: seq<string>)
    requires |s| > 0 && s[0] == sep && |parts| >= 2 && parts[0] == ""
    requires Split(s[1..], sep) == parts[1..]
    ensures Split(s, sep) == parts
  {
    assert [parts[0]] + parts[1..] == parts;
  }

  /** Splitting a string that starts with another character puts that
      character in front of the first segment of the split of the rest. */
  lemma SplitAfterChar(s: string, sep: char, parts: seq<string>)
    requires |s| > 0 && s[0] != sep && |parts| >= 1 && |parts[0]| > 0
    requires parts[0] == [s[0]] + parts[0][1..]
    requires Split(s[1..], sep) == [parts[0][1..]] + parts[1..]
    ensures Split(s, sep) == parts
  {
    var tail := [parts[0][1..]] + parts[1..];
    assert tail[1..] == parts[1..];
    assert [parts[0]] + parts[1..] == parts;
  }

  /** The empty string decomposes only into one empty segment. */
  lemma DecomposeEmpty(sep: char, parts: seq<string>)
    requires |parts| >= 1 && SeparatorFree(parts, sep) && Join(parts, sep) == ""
    ensures parts == [""]
  {
    if |parts| >= 2 {
      assert false;
    }
  }

  /** A decomposition of a string that starts with the separator starts
      with an empty segment, and the rest decomposes the rest. */
  lemma DecomposeSeparator(s: string, sep: char, parts: seq<string>)
    requires |parts| >= 1 && SeparatorFree(parts, sep) && Join(parts, sep) == s
    requires |s| > 0 && s[0] == sep
    ensures |parts| >= 2 && parts[0] == ""
    ensures SeparatorFree(parts[1..], sep) && Join(parts[1..], sep) == s[1..]
  {
    if |parts| >= 2 {
      JoinCons(parts[0], parts[1..], sep);
      assert [parts[0]] + parts[1..] == parts;
    }
    if |parts| == 1 || |parts[0]| > 0 {
      assert false;
    }
  }

  /** A decomposition of a string that starts with another character has
      that character at the front of its first segment. */
  lemma DecomposeChar(s: string, sep: char, parts: seq<string>)
    requires |parts| >= 1 && SeparatorFree(parts, sep) && Join(parts, sep) == s
    requires |s| > 0 && s[0] != sep
    ensures |parts[0]| > 0 && parts[0] == [s[0]] + parts[0][1..]
    ensures SeparatorFree([parts[0][1..]] + parts[1..], sep)
    ensures Join([parts[0][1..]] + parts[1..], sep) == s[1..]
  {
    if |parts| >= 2 {
      JoinCons(parts[0], parts[1..], sep);
      assert [parts[0]] + parts[1..] == parts;
    }
    var t := parts[0][1..];
    assert parts[0] == [s[0]] + t;
    JoinPrependChar(s[0], t, parts[1..], sep);
  }

  /** A string has exactly one decomposition into separator-free segments:
      any such list that joins to `s` is `Split(s, sep)`. */
  lemma {:induction false} SplitUnique(s: string, sep: char, parts: seq<string>)
    requires |parts| >= 1 && SeparatorFree(parts, sep) && Join(parts, sep) == s
    ensures Split(s, sep) == parts
    decreases |s|
  {
    if |s| == 0 {
      DecomposeEmpty(sep, parts);
    } else if s[0] == sep {
      DecomposeSeparator(s, sep, parts);
      SplitUnique(s[1..], sep, parts[1..]);
      SplitAfterSeparator(s, sep, parts);
    } else {
      DecomposeChar(s, sep, parts);
      SplitUnique(s[1..], sep, [parts[0][1..]] + parts[1..]);
      SplitAfterChar(s, sep, parts);
    }
  }

  /** Round trip: splitting a join of separator-free segments gives them back. */
  lemma SplitJoin(parts: seq<string>, sep: char)
    requires |parts| >= 1 && SeparatorFree(parts, sep)
    ensures Split(Join(parts, sep), sep) == parts
  {
    SplitUnique(Join(parts, sep), sep, parts);
  }
}
