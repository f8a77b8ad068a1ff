/** Specifications: a closed tree of boolean predicates over file records,
    with three kinds of leaf and the combinators And, Or and Not, evaluated
    by a pure recursive function. */
module Specs {
  import opened Strings
  import opened Records

  /** A node of a specification tree. The leaves carry the comparison terms
      they were built with; And and Or carry their children in construction
      order; Not carries its one child. */
  datatype Spec =
    | FileName(terms: seq<string>)
    | FolderNames(terms: seq<string>)
    | Extension(terms: seq<string>)
    | And(children: seq<Spec>)
    | Or(children: seq<Spec>)
    | Not(child: Spec)

  /** Some term is a substring of `hay`, trying the terms in order. */
  predicate SomeTermIn(terms: seq<string>, hay: string)
  {
    |terms| > 0 && (Contains(hay, terms[0]) || SomeTermIn(terms[1..], hay))
  }

  /** Some string of `hays` contains `term`. */
  predicate TermInSome(term: string, hays: seq<string>)
  {
    |hays| > 0 && (Contains(hays[0], term) || TermInSome(term, hays[1..]))
  }

  /** Some term is a substring of some string of `hays`: every term is tried
      against every string, terms in the outer loop. */
  predicate SomeTermInSome(terms: seq<string>, hays: seq<string>)
  {
    |terms| > 0 && (TermInSome(terms[0], hays) || SomeTermInSome(terms[1..], hays))
  }

  /** Whether record `r` satisfies specification `s`. Leaves lower-case the
      record's field but not their own terms; And and Or evaluate their
      children left to right, stopping at the first false or true child. */
  function Eval(s: Spec, r: FileRecord): bool
    decreases s
  {
    match s
    case FileName(terms) => SomeTermIn(terms, Lower(r.fileName))
    case FolderNames(terms) => SomeTermInSome(terms, LowerAll(r.folderNames))
    case Extension(terms) => SomeTermIn(terms, Lower(r.extension))
    case And(cs) => EvalAll(cs, r)
    case Or(cs) => EvalAny(cs, r)
    case Not(c) => !Eval(c, r)
  }

  /** Python's `all` over the children: true for no children. */
  function EvalAll(cs: seq<Spec>, r: FileRecord): bool
    decreases cs
  {
    |cs| == 0 || (Eval(cs[0], r) && EvalAll(cs[1..], r))
  }

  /** Python's `any` over the children: false for no children. */
  function EvalAny(cs: seq<Spec>, r: FileRecord): bool
    decreases cs
  {
    |cs| > 0 && (Eval(cs[0], r) || EvalAny(cs[1..], r))
  }

  // ---------------------------------------------------------------------
  // The operators `&`, `|` and `~`

  /** `a & b`: a binary conjunction. */
  function AndWith(a: Spec, b: Spec): (s: Spec)
    ensures forall r :: Eval(s, r) == (Eval(a, r) && Eval(b, r))
  {
    assert forall r :: Eval(And([a, b]), r) == (Eval(a, r) && Eval(b, r)) by {
      forall r ensures Eval(And([a, b]), r) == (Eval(a, r) && Eval(b, r)) {
        PairCombinators(a, b, r);
      }
    }
    And([a, b])
  }

  /** `a | b`: a binary disjunction. */
  function OrWith(a: Spec, b: Spec): (s: Spec)
    ensures forall r :: Eval(s, r) == (Eval(a, r) || Eval(b, r))
  {
    assert forall r :: Eval(Or([a, b]), r) == (Eval(a, r) || Eval(b, r)) by {
      forall r ensures Eval(Or([a, b]), r) == (Eval(a, r) || Eval(b, r)) {
        PairCombinators(a, b, r);
      }
    }
    Or([a, b])
  }

  /** `~a`: a negation. */
  function Invert(a: Spec): (s: Spec)
    ensures forall r :: Eval(s, r) == !Eval(a, r)
  {
    Not(a)
  }

  /** Both binary combinators, evaluated. */
  lemma PairCombinators(a: Spec, b: Spec, r: FileRecord)
    ensures Eval(And([a, b]), r) == (Eval(a, r) && Eval(b, r))
    ensures Eval(Or([a, b]), r) == (Eval(a, r) || Eval(b, r))
  {
    assert [a, b][1..] == [b] && [b][1..] == [];
    assert EvalAll([b], r) == (Eval(b, r) && EvalAll([], r));
    assert EvalAny([b], r) == (Eval(b, r) || EvalAny([], r));
  }

  // ---------------------------------------------------------------------
  // Leaves

  /** The term loop succeeds exactly when some term is a substring. */
  lemma {:induction false} SomeTermInIff(terms: seq<string>, hay: string)
    ensures SomeTermIn(terms, hay) <==> exists k :: 0 <= k < |terms| && Contains(hay, terms[k])
  {
    if |terms| > 0 {
      SomeTermInIff(terms[1..], hay);
      if exists k :: 0 <= k < |terms[1..]| && Contains(hay, terms[1..][k]) {
        var k :| 0 <= k < |terms[1..]| && Contains(hay, terms[1..][k]);
        assert Contains(hay, terms[k + 1]);
      }
      if exists k :: 0 < k < |terms| && Contains(hay, terms[k]) {
        var k :| 0 < k < |terms| && Contains(hay, terms[k]);
        assert Contains(hay, terms[1..][k - 1]);
      }
    }
  }

  /** The inner loop succeeds exactly when some string contains the term. */
  lemma {:induction false} TermInSomeIff(term: string, hays: seq<string>)
    ensures TermInSome(term, hays) <==> exists j :: 0 <= j < |hays| && Contains(hays[j], term)
  {
    if |hays| > 0 {
      TermInSomeIff(term, hays[1..]);
      if exists j :: 0 <= j < |hays[1..]| && Contains(hays[1..][j], term) {
        var j :| 0 <= j < |hays[1..]| && Contains(hays[1..][j], term);
        assert Contains(hays[j + 1], term);
      }
      if exists j :: 0 < j < |hays| && Contains(hays[j], term) {
        var j :| 0 < j < |hays| && Contains(hays[j], term);
        assert Contains(hays[1..][j - 1], term);
      }
    }
  }

  /** The nested loops succeed exactly when some term is a substring of some
      string, in any position: the match is not positional. */
  lemma {:induction false} SomeTermInSomeIff(terms: seq<string>, hays: seq<string>)
    ensures SomeTermInSome(terms, hays) <==>
      exists k, j :: 0 <= k < |terms| && 0 <= j < |hays| && Contains(hays[j], terms[k])
  {
    if |terms| > 0 {
      SomeTermInSomeIff(terms[1..], hays);
      TermInSomeIff(terms[0], hays);
      if exists k, j :: 0 <= k < |terms[1..]| && 0 <= j < |hays| && Contains(hays[j], terms[1..][k]) {
        var k, j :| 0 <= k < |terms[1..]| && 0 <= j < |hays| && Contains(hays[j], terms[1..][k]);
        assert Contains(hays[j], terms[k + 1]);
      }
      if exists k, j :: 0 < k < |terms| && 0 <= j < |hays| && Contains(hays[j], terms[k]) {
        var k, j :| 0 < k < |terms| && 0 <= j < |hays| && Contains(hays[j], terms[k]);
        assert Contains(hays[j], terms[1..][k - 1]);
      }
    }
  }

  /** `FileName(terms)` holds exactly when some term, as given, occurs in the
      lower-cased file name. */
  lemma FileNameIff(terms: seq<string>, r: FileRecord)
    ensures Eval(FileName(terms), r) <==>
      exists k :: 0 <= k < |terms| && Contains(Lower(r.fileName), terms[k])
  {
    SomeTermInIff(terms, Lower(r.fileName));
  }

  /** `Extension(terms)` holds exactly when some term, as given, occurs in
      the lower-cased extension. */
  lemma ExtensionIff(terms: seq<string>, r: FileRecord)
    ensures Eval(Extension(terms), r) <==>
      exists k :: 0 <= k < |terms| && Contains(Lower(r.extension), terms[k])
  {
    SomeTermInIff(terms, Lower(r.extension));
  }

  /** `FolderNames(terms)` holds exactly when some term occurs in some
      lower-cased folder segment. */
  lemma FolderNamesIff(terms: seq<string>, r: FileRecord)
    ensures Eval(FolderNames(terms), r) <==>
      exists k, j :: 0 <= k < |terms| && 0 <= j < |r.folderNames| &&
                     Contains(Lower(r.folderNames[j]), terms[k])
  {
    var hays := LowerAll(r.folderNames);
    SomeTermInSomeIff(terms, hays);
  }

  /** A string without upper-case letters contains no term that has one. */
  lemma UpperCaseNotContained(hay: string, term: string, i: nat)
    requires forall j :: 0 <= j < |hay| ==> !IsUpper(hay[j])
    requires i < |term| && IsUpper(term[i])
    ensures !Contains(hay, term)
  {
    ContainsIff(hay, term);
    forall j | 0 <= j && j + |term| <= |hay| ensures !OccursAt(hay, term, j) {
      assert hay[j..j + |term|][i] == hay[j + i];
    }
  }

  /** Terms are not lower-cased: a term holding an upper-case letter never
      matches a name, a folder or an extension, whatever the record. */
  lemma UpperCaseTermNeverMatches(term: string, i: nat, r: FileRecord)
    requires i < |term| && IsUpper(term[i])
    ensures !Eval(FileName([term]), r)
    ensures !Eval(FolderNames([term]), r)
    ensures !Eval(Extension([term]), r)
  {
    FolderNamesIff([term], r);
    forall j | 0 <= j < |r.folderNames| ensures !Contains(Lower(r.folderNames[j]), term) {
      LowerIsLower(r.folderNames[j]);
      UpperCaseNotContained(Lower(r.folderNames[j]), term, i);
    }
    FileNameIff([term], r);
    ExtensionIff([term], r);
    LowerIsLower(r.fileName);
    LowerIsLower(r.extension);
    UpperCaseNotContained(Lower(r.fileName), term, i);
    UpperCaseNotContained(Lower(r.extension), term, i);
  }

  /** With a single term, each leaf is one substring test. */
  lemma SingleTermLeaves(t: string, r: FileRecord)
    ensures Eval(FileName([t]), r) == Contains(Lower(r.fileName), t)
    ensures Eval(Extension([t]), r) == Contains(Lower(r.extension), t)
    ensures Eval(FolderNames([t]), r) <==>
      exists j :: 0 <= j < |r.folderNames| && Contains(Lower(r.folderNames[j]), t)
  {
    FileNameIff([t], r);
    ExtensionIff([t], r);
    FolderNamesIff([t], r);
  }

  /** A term without upper-case letters occurs in the lower-cased form of
      any string that contains it literally, whatever the case of the rest. */
  lemma LowerCaseTermFound(pre: string, t: string, post: string)
    requires forall i :: 0 <= i < |t| ==> !IsUpper(t[i])
    ensures Contains(Lower(pre + t + post), t)
  {
    LowerAppend(pre + t, post);
    LowerAppend(pre, t);
    LowerOfLower(t);
    var hay := Lower(pre + t + post);
    assert hay == Lower(pre) + t + Lower(post);
    assert OccursAt(hay, t, |pre|) by {
      assert hay[|pre|..|pre| + |t|] == t;
    }
    ContainsIff(hay, t);
  }

  /** So a lower-case name term matches every file name that contains it in
      any case ("x" matches "x", "axb" and "X"). */
  lemma FileNameFindsTerm(t: string, pre: string, post: string, r: FileRecord)
    requires forall i :: 0 <= i < |t| ==> !IsUpper(t[i])
    requires Lower(r.fileName) == Lower(pre + t + post)
    ensures Eval(FileName([t]), r)
  {
    SingleTermLeaves(t, r);
    LowerCaseTermFound(pre, t, post);
  }

  /** A lower-case folder term matches when any one folder segment contains
      it (["a", "foobar", "c"] matches "foo"). */
  lemma FolderNamesFindsTerm(t: string, pre: string, post: string, j: nat, r: FileRecord)
    requires forall i :: 0 <= i < |t| ==> !IsUpper(t[i])
    requires j < |r.folderNames| && r.folderNames[j] == pre + t + post
    ensures Eval(FolderNames([t]), r)
  {
    SingleTermLeaves(t, r);
    LowerCaseTermFound(pre, t, post);
  }

  // ---------------------------------------------------------------------
  // Combinators

  /** An And holds exactly when every child holds; in particular an empty
      And holds. */
  lemma {:induction false} AndIff(cs: seq<Spec>, r: FileRecord)
    ensures Eval(And(cs), r) <==> forall k :: 0 <= k < |cs| ==> Eval(cs[k], r)
  {
    AllIff(cs, r);
  }

  lemma {:induction false} AllIff(cs: seq<Spec>, r: FileRecord)
    ensures EvalAll(cs, r) <==> forall k :: 0 <= k < |cs| ==> Eval(cs[k], r)
  {
    if |cs| > 0 {
      AllIff(cs[1..], r);
      assert forall k :: 0 < k < |cs| ==> cs[k] == cs[1..][k - 1];
    }
  }

  /** An Or holds exactly when some child holds; in particular an empty Or
      does not hold. */
  lemma {:induction false} OrIff(cs: seq<Spec>, r: FileRecord)
    ensures Eval(Or(cs), r) <==> exists k :: 0 <= k < |cs| && Eval(cs[k], r)
  {
    AnyIff(cs, r);
  }

  lemma {:induction false} AnyIff(cs: seq<Spec>, r: FileRecord)
    ensures EvalAny(cs, r) <==> exists k :: 0 <= k < |cs| && Eval(cs[k], r)
  {
    if |cs| > 0 {
      AnyIff(cs[1..], r);
      assert forall k :: 0 < k < |cs| ==> cs[k] == cs[1..][k - 1];
    }
  }

  /** The empty combinators are constants: `all` of nothing is true and
      `any` of nothing is false. */
  lemma EmptyCombinators(r: FileRecord)
    ensures Eval(And([]), r)
    ensures !Eval(Or([]), r)
  {
  }

  /** A combinator with one child agrees with that child. */
  lemma SingletonCombinators(s: Spec, r: FileRecord)
    ensures Eval(And([s]), r) == Eval(s, r)
    ensures Eval(Or([s]), r) == Eval(s, r)
  {
    assert [s][1..] == [];
    assert EvalAll([s], r) == (Eval(s, r) && EvalAll([], r));
    assert EvalAny([s], r) == (Eval(s, r) || EvalAny([], r));
  }

  /** Not holds exactly when its child does not, so two of them cancel. */
  lemma DoubleNegation(s: Spec, r: FileRecord)
    ensures Eval(Not(Not(s)), r) == Eval(s, r)
  {
  }

  /** Every child of `cs`, negated, in the same order. */
  function NegateAll(cs: seq<Spec>): (ns: seq<Spec>)
    ensures |ns| == |cs|
    ensures forall k :: 0 <= k < |cs| ==> ns[k] == Not(cs[k])
  {
    if cs == [] then [] else [Not(cs[0])] + NegateAll(cs[1..])
  }

  /** De Morgan: the negation of an And is the Or of the negated children. */
  lemma DeMorganAnd(cs: seq<Spec>, r: FileRecord)
    ensures Eval(Not(And(cs)), r) == Eval(Or(NegateAll(cs)), r)
  {
    AndIff(cs, r);
    OrIff(NegateAll(cs), r);
  }

  /** De Morgan: the negation of an Or is the And of the negated children. */
  lemma DeMorganOr(cs: seq<Spec>, r: FileRecord)
    ensures Eval(Not(Or(cs)), r) == Eval(And(NegateAll(cs)), r)
  {
    OrIff(cs, r);
    AndIff(NegateAll(cs), r);
  }

  /** De Morgan for the binary operators: `~(a & b)` agrees with `~a | ~b`,
      and `~(a | b)` with `~a & ~b`. */
  lemma DeMorganOperators(a: Spec, b: Spec, r: FileRecord)
    ensures Eval(Invert(AndWith(a, b)), r) == Eval(OrWith(Invert(a), Invert(b)), r)
    ensures Eval(Invert(OrWith(a, b)), r) == Eval(AndWith(Invert(a), Invert(b)), r)
  {
  }

  /** A chain `a & b & c` nests to the left, and agrees with the flat And of
      the three in order. */
  lemma ChainedAndIsFlat(a: Spec, b: Spec, c: Spec, r: FileRecord)
    ensures Eval(AndWith(AndWith(a, b), c), r) == Eval(And([a, b, c]), r)
  {
    AndIff([a, b, c], r);
    assert [a, b, c][0] == a && [a, b, c][1] == b && [a, b, c][2] == c;
    assert Eval(AndWith(AndWith(a, b), c), r) == (Eval(AndWith(a, b), r) && Eval(c, r));
  }

  // ---------------------------------------------------------------------
  // The example tree of the entry point

  /** The filter expression of the entry point, built by the operators in the
      order Python parses it: `~` binds tightest, then `&` (left to right),
      then `|`. */
  function ExampleSpec(): Spec
  {
    OrWith(
      FileName(["my_special_name"]),
      AndWith(
        AndWith(
          AndWith(FileName(["second_special_name"]), Invert(FileName(["this_is_bad_data"]))),
          FolderNames(["my_folder_name", "sometimes_this_name"])),
        Extension(["img", "jpg"])))
  }

  /** The tree the operators build: an Or of the first file name and a
      left-nested chain of binary Ands. */
  lemma ExampleShape()
    ensures ExampleSpec() ==
      Or([FileName(["my_special_name"]),
          And([And([And([FileName(["second_special_name"]), Not(FileName(["this_is_bad_data"]))]),
                    FolderNames(["my_folder_name", "sometimes_this_name"])]),
               Extension(["img", "jpg"])])])
  {
  }

  /** The example is an Or whose right side is the whole conjunction: the
      first file name alone is enough, and the other four conditions only
      matter together. */
  lemma ExampleMeaning(r: FileRecord)
    ensures Eval(ExampleSpec(), r) ==
      (Eval(FileName(["my_special_name"]), r) ||
       (Eval(FileName(["second_special_name"]), r) &&
        !Eval(FileName(["this_is_bad_data"]), r) &&
        Eval(FolderNames(["my_folder_name", "sometimes_this_name"]), r) &&
        Eval(Extension(["img", "jpg"]), r)))
  {
    var a := FileName(["my_special_name"]);
    var b := FileName(["second_special_name"]);
    var c := FileName(["this_is_bad_data"]);
    var d := FolderNames(["my_folder_name", "sometimes_this_name"]);
    var e := Extension(["img", "jpg"]);
    var bc := And([b, Not(c)]);
    var bcd := And([bc, d]);
    var bcde := And([bcd, e]);
    assert ExampleSpec() == Or([a, bcde]);
    PairCombinators(b, Not(c), r);
    PairCombinators(bc, d, r);
    PairCombinators(bcd, e, r);
    PairCombinators(a, bcde, r);
  }

  /** The grouping the line layout of the entry point suggests: the Or
      around the two file names only, the other conditions applying to
      both. */
  function LayoutReading(): Spec
  {
    AndWith(
      AndWith(
        AndWith(
          OrWith(FileName(["my_special_name"]), FileName(["second_special_name"])),
          Invert(FileName(["this_is_bad_data"]))),
        FolderNames(["my_folder_name", "sometimes_this_name"])),
      Extension(["img", "jpg"]))
  }

  /** The parsed tree and the layout reading differ: a file that matches
      the first name, outside any folder, passes the one and fails the
      other. */
  lemma PrecedenceDiffersFromLayout(r: FileRecord)
    requires Eval(FileName(["my_special_name"]), r) && r.folderNames == []
    ensures Eval(ExampleSpec(), r)
    ensures !Eval(LayoutReading(), r)
  {
    ExampleMeaning(r);
    var d := FolderNames(["my_folder_name", "sometimes_this_name"]);
    FolderNamesIff(["my_folder_name", "sometimes_this_name"], r);
    var abc := AndWith(
      OrWith(FileName(["my_special_name"]), FileName(["second_special_name"])),
      Invert(FileName(["this_is_bad_data"])));
    assert LayoutReading() == AndWith(AndWith(abc, d), Extension(["img", "jpg"]));
    assert !Eval(AndWith(abc, d), r);
  }
}
