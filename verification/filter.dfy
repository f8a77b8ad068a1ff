/** `SubjectFilter.filter`: one pass over the records that keeps, in input
    order, those satisfying a specification and counts them. */
module SubjectFilter {
  import Seqs
  import opened Records
  import opened Specs
  import opened Strings

  /** The specification as a predicate on records. */
  function Satisfies(spec: Spec): FileRecord -> bool
  {
    r => Eval(spec, r)
  }

  /** The records of `items` that satisfy `spec`, in input order. */
  function Matching(items: seq<FileRecord>, spec: Spec): seq<FileRecord>
  {
    Seqs.Select(items, Satisfies(spec))
  }

  /** The filter pass: every record is tested once, in order; a satisfying
      one is counted and emitted. The emitted records and the final count
      are returned together instead of being yielded and printed. */
  method Filter(items: seq<FileRecord>, spec: Spec) returns (matches: seq<FileRecord>, count: nat)
    ensures matches == Matching(items, spec)
    ensures count == |matches|
    ensures forall k :: 0 <= k < |matches| ==> Eval(spec, matches[k])
  {
    matches := [];
    count := 0;
    for i := 0 to |items|
      invariant matches == Matching(items[..i], spec)
      invariant count == |matches|
    {
      assert items[..i + 1] == items[..i] + [items[i]];
      Seqs.SelectAppend(items[..i], [items[i]], Satisfies(spec));
      Seqs.SelectSingleton(items[i], Satisfies(spec));
      if Eval(spec, items[i]) {
        count := count + 1;
        matches := matches + [items[i]];
      }
    }
    assert items[..|items|] == items;
  }

  /** A record is emitted exactly when it is one of the inputs and satisfies
      the specification. */
  lemma MatchingMembers(items: seq<FileRecord>, spec: Spec, x: FileRecord)
    ensures x in Matching(items, spec) <==> x in items && Eval(spec, x)
  {
    Seqs.SelectMembers(items, Satisfies(spec), x);
  }

  /** The emitted records are the inputs at the satisfying indices, in
      increasing index order, with no satisfying index skipped. */
  lemma MatchingIsSubsequence(items: seq<FileRecord>, spec: Spec)
    ensures |Matching(items, spec)| == |Seqs.IndicesBelow(items, Satisfies(spec), |items|)|
    ensures forall k :: 0 <= k < |Matching(items, spec)| ==>
      Matching(items, spec)[k] == items[Seqs.IndicesBelow(items, Satisfies(spec), |items|)[k]]
    ensures forall j :: 0 <= j < |items| ==>
      (j in Seqs.IndicesBelow(items, Satisfies(spec), |items|) <==> Eval(spec, items[j]))
  {
    Seqs.SelectIsSubsequence(items, Satisfies(spec), |items|);
    assert items[..|items|] == items;
  }

  /** Filtering nothing emits nothing. */
  lemma MatchingEmpty(spec: Spec)
    ensures Matching([], spec) == []
  {
  }

  /** The first record is tested first and emitted first. */
  lemma MatchingCons(x: FileRecord, rest: seq<FileRecord>, spec: Spec)
    ensures Matching([x] + rest, spec) ==
      (if Eval(spec, x) then [x] else []) + Matching(rest, spec)
  {
    assert ([x] + rest)[0] == x;
    assert ([x] + rest)[1..] == rest;
  }

  /** Filtering by `a & b` is filtering by `a` and then by `b`. */
  lemma {:induction false} MatchingAndWith(items: seq<FileRecord>, a: Spec, b: Spec)
    ensures Matching(items, AndWith(a, b)) == Matching(Matching(items, a), b)
  {
    if items != [] {
      var x, rest := items[0], items[1..];
      assert items == [x] + rest;
      MatchingAndWith(rest, a, b);
      MatchingCons(x, rest, AndWith(a, b));
      MatchingCons(x, rest, a);
      assert Eval(AndWith(a, b), x) == (Eval(a, x) && Eval(b, x));
      if Eval(a, x) {
        assert Matching(items, a) == [x] + Matching(rest, a);
        MatchingCons(x, Matching(rest, a), b);
      } else {
        assert Matching(items, a) == Matching(rest, a);
      }
    }
  }

  /** Every record satisfies either `s` or `~s`, never both, so the two
      filter passes together emit every input exactly once. */
  lemma {:induction false} MatchingPartition(items: seq<FileRecord>, s: Spec)
    ensures |Matching(items, s)| + |Matching(items, Invert(s))| == |items|
  {
    if items != [] {
      var x, rest := items[0], items[1..];
      assert items == [x] + rest;
      MatchingPartition(rest, s);
      MatchingCons(x, rest, s);
      MatchingCons(x, rest, Invert(s));
    }
  }

  /** Example: of a ".img", a ".txt" and a ".JPG" file,
      `Extension("img", "jpg")` keeps the first and the third. */
  lemma ExtensionExample(a: FileRecord, b: FileRecord, c: FileRecord)
    requires a.extension == "img" && b.extension == "txt" && c.extension == "JPG"
    ensures Matching([a, b, c], Extension(["img", "jpg"])) == [a, c]
  {
    var spec := Extension(["img", "jpg"]);
    ExampleImg(a);
    ExampleTxt(b);
    ExampleJpg(c);
    MatchingCons(a, [b, c], spec);
    MatchingCons(b, [c], spec);
    MatchingCons(c, [], spec);
    assert [a] + [b, c] == [a, b, c] && [b] + [c] == [b, c] && [c] + [] == [c];
  }

  lemma ExampleImg(r: FileRecord)
    requires r.extension == "img"
    ensures Eval(Extension(["img", "jpg"]), r)
  {
    assert Lower("img") == "img";
    assert Contains("img", "img");
    ExtensionIff(["img", "jpg"], r);
  }

  lemma ExampleTxt(r: FileRecord)
    requires r.extension == "txt"
    ensures !Eval(Extension(["img", "jpg"]), r)
  {
    assert Lower("txt") == "txt";
    ContainsIff("txt", "img");
    ContainsIff("txt", "jpg");
    assert !OccursAt("txt", "img", 0) && !OccursAt("txt", "jpg", 0);
    ExtensionIff(["img", "jpg"], r);
  }

  /** Matching is case-insensitive on the record side. */
  lemma ExampleJpg(r: FileRecord)
    requires r.extension == "JPG"
    ensures Eval(Extension(["img", "jpg"]), r)
  {
    assert Lower("JPG") == "jpg";
    assert Contains("jpg", "jpg");
    ExtensionIff(["img", "jpg"], r);
  }
}
