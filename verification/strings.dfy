/** String helpers over `seq<char>`: ASCII lower-casing, substring search,
    single-character search, splitting on a separator and right-stripping. */
module Strings {
  import opened Wrappers
  import Seqs

  /** ASCII lower-casing of one character; every other character is kept. */
  function LowerChar(c: char): char
  {
    if 'A' <= c <= 'Z' then (c as int + 32) as char else c
  }

  predicate IsUpper(c: char)
  {
    'A' <= c <= 'Z'
  }

  /** Lower-cases every character of `s`, position by position. */
  function Lower(s: string): (r: string)
    ensures |r| == |s|
    ensures forall i :: 0 <= i < |s| ==> r[i] == LowerChar(s[i])
  {
    if s == [] then [] else [LowerChar(s[0])] + Lower(s[1..])
  }

  /** A lower-cased string has no upper-case letter left, and lower-casing
      it again changes nothing. */
  lemma LowerIsLower(s: string)
    ensures forall i :: 0 <= i < |Lower(s)| ==> !IsUpper(Lower(s)[i])
    ensures Lower(Lower(s)) == Lower(s)
  {
  }

  /** Lower-casing works character by character, so it distributes over
      concatenation. */
  lemma LowerAppend(a: string, b: string)
    ensures Lower(a + b) == Lower(a) + Lower(b)
  {
    var l, m := Lower(a + b), Lower(a) + Lower(b);
    forall i | 0 <= i < |l| ensures l[i] == m[i] {
      if i < |a| {
        assert (a + b)[i] == a[i];
      } else {
        assert (a + b)[i] == b[i - |a|];
      }
    }
    assert l == m;
  }

  /** A string without upper-case letters is its own lower-casing. */
  lemma LowerOfLower(s: string)
    requires forall i :: 0 <= i < |s| ==> !IsUpper(s[i])
    ensures Lower(s) == s
  {
  }

  /** Lower-cases every string of a sequence. */
  function LowerAll(ss: seq<string>): (r: seq<string>)
    ensures |r| == |ss|
    ensures forall k :: 0 <= k < |ss| ==> r[k] == Lower(ss[k])
  {
    if ss == [] then [] else [Lower(ss[0])] + LowerAll(ss[1..])
  }

  predicate StartsWith(s: string, prefix: string)
  {
    |prefix| <= |s| && s[..|prefix|] == prefix
  }

  /** `needle` occurs in `hay` starting at index `i`. */
  predicate OccursAt(hay: string, needle: string, i: int)
  {
    0 <= i && i + |needle| <= |hay| && hay[i..i + |needle|] == needle
  }

  /** Substring test, scanning `hay` from the left; the empty string occurs
      in every string, the empty one included. */
  predicate Contains(hay: string, needle: string)
    decreases |hay|
  {
    StartsWith(hay, needle) || (|hay| > 0 && Contains(hay[1..], needle))
  }

  /** The scan finds `needle` exactly when it occurs at some index. */
  lemma {:induction false} ContainsIff(hay: string, needle: string)
    ensures Contains(hay, needle) <==> exists i :: OccursAt(hay, needle, i)
  {
    assert OccursAt(hay, needle, 0) <==> StartsWith(hay, needle);
    if |hay| > 0 {
      ContainsIff(hay[1..], needle);
      if Contains(hay[1..], needle) {
        var i :| OccursAt(hay[1..], needle, i);
        assert hay[1..][i..i + |needle|] == hay[i + 1..i + 1 + |needle|];
        assert OccursAt(hay, needle, i + 1);
      }
      if i :| OccursAt(hay, needle, i) && i > 0 {
        assert hay[1..][i - 1..i - 1 + |needle|] == hay[i..i + |needle|];
        assert OccursAt(hay[1..], needle, i - 1);
      }
    } else {
      if i :| OccursAt(hay, needle, i) {
        assert i == 0;
      }
    }
  }

  /** The first index of `c` in `s`, if any. */
  function IndexOf(s: string, c: char): (r: Option<nat>)
    ensures r.None? ==> c !in s
    ensures r.Some? ==> r.value < |s| && s[r.value] == c && c !in s[..r.value]
  {
    if s == [] then None
    else if s[0] == c then Some(0)
    else
      var rest := IndexOf(s[1..], c);
      if rest.None? then None else Some(rest.value + 1)
  }

  /** The last index of `c` in `s`, if any. */
  function LastIndexOf(s: string, c: char): (r: Option<nat>)
    ensures r.None? ==> c !in s
    ensures r.Some? ==> r.value < |s| && s[r.value] == c && c !in s[r.value + 1..]
  {
    if s == [] then None
    else if s[|s| - 1] == c then Some(|s| - 1)
    else LastIndexOf(s[..|s| - 1], c)
  }

  /** `LastIndexOf` returns the index of the last occurrence. */
  lemma {:induction false} LastIndexIs(s: string, c: char, i: nat)
    requires i < |s| && s[i] == c && c !in s[i + 1..]
    ensures LastIndexOf(s, c) == Some(i)
    decreases |s|
  {
    if i < |s| - 1 {
      assert s[|s| - 1] != c by { assert s[|s| - 1] == s[i + 1..][|s| - i - 2]; }
      assert s[..|s| - 1][i + 1..] == s[i + 1..|s| - 1];
      LastIndexIs(s[..|s| - 1], c, i);
    }
  }

  /** Splits `s` at the first `c` into the part before and the part after;
      `None` when `c` does not occur (a split with at most one cut that must
      yield exactly two pieces). */
  function SplitOnce(s: string, c: char): (r: Option<(string, string)>)
    ensures r.None? <==> c !in s
    ensures r.Some? ==> s == r.value.0 + [c] + r.value.1 && c !in r.value.0
  {
    match IndexOf(s, c)
    case None => None
    case Some(i) =>
      assert s == s[..i] + [c] + s[i + 1..];
      Some((s[..i], s[i + 1..]))
  }

  /** The cut is unique: any split at a first occurrence is the one found. */
  lemma SplitOnceUnique(a: string, b: string, c: char)
    requires c !in a
    ensures SplitOnce(a + [c] + b, c) == Some((a, b))
  {
    var s := a + [c] + b;
    assert s[..|a|] == a;
    FirstIndexIs(s, c, |a|);
    assert s[|a| + 1..] == b;
  }

  /** Joins a non-empty sequence of pieces with `sep` between neighbours. */
  function Join(parts: seq<string>, sep: char): string
    requires |parts| >= 1
  {
    if |parts| == 1 then parts[0] else parts[0] + [sep] + Join(parts[1..], sep)
  }

  /** Splits `s` at every occurrence of `sep`; `n` separators give `n + 1`
      pieces, so neighbouring separators give empty pieces. */
  function Split(s: string, sep: char): (parts: seq<string>)
    ensures |parts| >= 1
    ensures forall k :: 0 <= k < |parts| ==> sep !in parts[k]
    decreases |s|
  {
    match IndexOf(s, sep)
    case None => [s]
    case Some(i) => [s[..i]] + Split(s[i + 1..], sep)
  }

  /** Joining the pieces back with `sep` gives the original string. */
  lemma {:induction false} JoinSplit(s: string, sep: char)
    ensures Join(Split(s, sep), sep) == s
    decreases |s|
  {
    match IndexOf(s, sep)
    case None =>
    case Some(i) =>
      var rest := Split(s[i + 1..], sep);
      assert Split(s, sep) == [s[..i]] + rest;
      assert ([s[..i]] + rest)[1..] == rest;
      JoinSplit(s[i + 1..], sep);
      assert s == s[..i] + [sep] + s[i + 1..];
  }

  /** Splitting undoes joining pieces that hold no separator. */
  lemma {:induction false} SplitJoin(parts: seq<string>, sep: char)
    requires |parts| >= 1
    requires forall k :: 0 <= k < |parts| ==> sep !in parts[k]
    ensures Split(Join(parts, sep), sep) == parts
  {
    if |parts| == 1 {
      assert IndexOf(parts[0], sep).None?;
    } else {
      var tail := Join(parts[1..], sep);
      SplitConcat(parts[0], tail, sep);
      SplitJoin(parts[1..], sep);
      assert Split(parts[0], sep) == [parts[0]] by {
        assert IndexOf(parts[0], sep).None?;
      }
    }
  }

  /** A separator between `a` and `b` splits the pieces of `a` from those of `b`. */
  lemma {:induction false} SplitConcat(a: string, b: string, sep: char)
    ensures Split(a + [sep] + b, sep) == Split(a, sep) + Split(b, sep)
    decreases |a|
  {
    var s := a + [sep] + b;
    match IndexOf(a, sep)
    case None =>
      assert s[|a|] == sep;
      assert s[..|a|] == a;
      assert IndexOf(s, sep) == Some(|a|) by { FirstIndexIs(s, sep, |a|); }
      assert s[|a| + 1..] == b;
    case Some(i) =>
      assert IndexOf(s, sep) == Some(i) by { FirstIndexIs(s, sep, i); }
      assert s[..i] == a[..i];
      assert s[i + 1..] == a[i + 1..] + [sep] + b;
      SplitConcat(a[i + 1..], b, sep);
  }

  /** `IndexOf` returns the index of the first occurrence. */
  lemma {:induction false} FirstIndexIs(s: string, c: char, i: nat)
    requires i < |s| && s[i] == c && c !in s[..i]
    ensures IndexOf(s, c) == Some(i)
  {
    if i > 0 {
      assert s[0] != c by { assert s[0] == s[..i][0]; }
      assert s[1..][..i - 1] == s[..i][1..];
      FirstIndexIs(s[1..], c, i - 1);
    }
  }

  /** A trailing separator adds exactly one empty piece. */
  lemma SplitTrailingSep(s: string, sep: char)
    ensures Split(s + [sep], sep) == Split(s, sep) + [[]]
  {
    SplitConcat(s, [], sep);
    assert s + [sep] + [] == s + [sep];
  }

  /** Removes every trailing occurrence of `c`. */
  function RStrip(s: string, c: char): (r: string)
    ensures |r| <= |s| && r == s[..|r|]
    ensures r == [] || r[|r| - 1] != c
    ensures forall i :: |r| <= i < |s| ==> s[i] == c
  {
    if |s| > 0 && s[|s| - 1] == c then RStrip(s[..|s| - 1], c) else s
  }

  predicate IsNonEmpty(s: string)
  {
    |s| > 0
  }

  /** The pieces of `s` with the empty ones removed. */
  function Segments(s: string, sep: char): seq<string>
  {
    Seqs.Select(Split(s, sep), IsNonEmpty)
  }

  /** Every segment is non-empty and free of the separator. */
  lemma SegmentsShape(s: string, sep: char)
    ensures forall k :: 0 <= k < |Segments(s, sep)| ==>
      |Segments(s, sep)[k]| > 0 && sep !in Segments(s, sep)[k]
  {
    var parts := Split(s, sep);
    forall k | 0 <= k < |Segments(s, sep)|
      ensures |Segments(s, sep)[k]| > 0 && sep !in Segments(s, sep)[k]
    {
      var x := Segments(s, sep)[k];
      Seqs.SelectMembers(parts, IsNonEmpty, x);
    }
  }

  /** One trailing separator only adds an empty piece, which is dropped. */
  lemma SegmentsTrailingSep(s: string, sep: char)
    ensures Segments(s + [sep], sep) == Segments(s, sep)
  {
    SplitTrailingSep(s, sep);
    Seqs.SelectAppend(Split(s, sep), [[]], IsNonEmpty);
    Seqs.SelectSingleton([], IsNonEmpty);
  }

  /** Trailing separators never change the non-empty pieces. */
  lemma {:induction false} SegmentsIgnoreRStrip(s: string, sep: char)
    ensures Segments(RStrip(s, sep), sep) == Segments(s, sep)
    decreases |s|
  {
    if |s| > 0 && s[|s| - 1] == sep {
      var t := s[..|s| - 1];
      assert s == t + [sep];
      SegmentsIgnoreRStrip(t, sep);
      SegmentsTrailingSep(t, sep);
    }
  }
}
