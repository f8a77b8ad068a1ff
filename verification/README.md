# Boring generic file filter — a Dafny model

The program classifies files by composable *specifications*. It has three leaf
predicates: a file-name substring, a folder-name substring and an extension
substring. They combine with And, Or and Not, written in Python as `&`, `|`
and `~`. `SubjectFilter.filter` walks a list of file records and keeps, in
order, those that satisfy a specification, counting them.
`RecursiveFileLister.extract_file_info` turns a path into such a record.

The model has seven modules:

- `Wrappers` (wrappers.dfy): `Option` and `Result`.
- `Seqs` (seqs.dfy): order-preserving selection, with the index witness that
  shows it is exactly a subsequence. It also holds the map-with-first-failure
  used by the lister's extraction loop.
- `Strings` (strings.dfy): ASCII lower-casing and the substring test (Python's
  `in` on strings). Also a first/last character search, `str.split(sep)` with
  its inverse `Join`, `str.split(c, 1)`, and `rstrip`.
- `Records` (records.dfy): the file record, POSIX `basename`/`dirname` with
  the separator fixed to `/`, `extract_file_info`, and the extraction loop of
  the lister.
- `RecordExamples` (record_examples.dfy): extraction on the literal example
  path "/a/b/report.tar.gz".
- `Specs` (specs.dfy): the specification tree as a closed datatype. It holds
  the evaluator `Eval` (mutually recursive with `EvalAll`/`EvalAny`, which
  stand for Python's `all`/`any`), the three operators, the example tree of
  the entry point, and the boolean laws.
- `SubjectFilter` (filter.dfy): the filter pass as a method with a loop. The
  method is proved equal to the reference selection, and lemmas cover
  membership, order, count, composition and partition.

Some behaviours of main.py are easy to misread; the model follows the code:

- Terms are NOT lower-cased; only the record's fields are. A term with an
  upper-case letter therefore never matches a file name, a folder segment or
  an extension (`Specs.UpperCaseTermNeverMatches`).
- An empty And holds and an empty Or does not, as Python's `all([])` and
  `any([])` give. The code puts no restriction on constructing them.
- A file name without `.` makes extraction fail, because the two-way
  unpacking raises. This is modelled as `Failure(NoExtensionSeparator(name))`.
- `file_name == file_base_name + "." + extension` holds whenever extraction
  succeeds, including when the extension is empty (`"a."`).
- The leaves fall off the end of their loop and return `None` when nothing
  matches. Every caller only tests truthiness, so this is modelled as `false`.

## Model

| member | source | states |
|---|---|---|
| Specs.Eval | main.py:25-99 | the definition of every `is_satisfied` (no contract of its own); its meaning is stated by AndIff, OrIff, FileNameIff, FolderNamesIff, ExtensionIff and DoubleNegation |
| Specs.EvalAll | main.py:32 | Python's `all` over the children (no contract of its own); stated by AndIff and AllIff |
| Specs.EvalAny | main.py:42 | Python's `any` over the children (no contract of its own); stated by OrIff and AnyIff |
| Specs.AndWith | main.py:12-14 | `a & b` is a node that holds on a record exactly when both `a` and `b` hold on it |
| Specs.OrWith | main.py:16-18 | the Python or-operator on `a` and `b` is a node that holds exactly when `a` or `b` holds |
| Specs.Invert | main.py:20-22 | `~a` is a node that holds exactly when `a` does not |
| Specs.PairCombinators | main.py:25-42 | an And of two children is their conjunction, an Or of two their disjunction |
| Specs.AndIff | main.py:28-32 | an And holds iff every child holds (so the empty And holds) |
| Specs.OrIff | main.py:38-42 | an Or holds iff some child holds (so the empty Or does not) |
| Specs.EmptyCombinators | main.py:31-42 | `all` of no children is true, `any` of no children is false |
| Specs.SingletonCombinators | main.py:31-42 | an And or Or of one child agrees with that child on every record |
| Specs.DoubleNegation | main.py:51-52 | Not(Not(s)) agrees with s on every record |
| Specs.DeMorganAnd | main.py:31-52 | Not(And(cs)) agrees with the Or of the negated children |
| Specs.DeMorganOr | main.py:31-52 | Not(Or(cs)) agrees with the And of the negated children |
| Specs.DeMorganOperators | main.py:12-22 | `~(a & b)` agrees with the or-operator applied to `~a` and `~b`; the negated or-operator agrees with `~a & ~b` |
| Specs.ChainedAndIsFlat | main.py:12-14 | the left-nested chain `a & b & c` agrees with the flat And of a, b, c |
| Specs.SomeTermInIff | main.py:72-74 | the term loop returns true exactly when some term is a substring of the field |
| Specs.TermInSomeIff | main.py:85 | the inner generator finds a segment exactly when some segment contains the term |
| Specs.SomeTermInSomeIff | main.py:85 | the nested generator succeeds exactly when some term is in some segment, in any positions |
| Specs.FileNameIff | main.py:70-74 | FileName(terms) holds iff some term, as given, is a substring of the lower-cased file name |
| Specs.ExtensionIff | main.py:95-99 | Extension(terms) holds iff some term, as given, is a substring of the lower-cased extension |
| Specs.FolderNamesIff | main.py:83-86 | FolderNames(terms) holds iff some term is a substring of some lower-cased folder segment |
| Specs.SingleTermLeaves | main.py:70-99 | with one term, each leaf reduces to one substring test against the lower-cased field(s) |
| Specs.UpperCaseTermNeverMatches | main.py:70-99 | since terms are not lower-cased, a term with an upper-case letter matches no file name, no folder segment and no extension |
| Specs.LowerCaseTermFound | main.py:71-73 | a lower-case term is found in the lower-cased form of any string containing it literally, whatever the case of the rest |
| Specs.FileNameFindsTerm | main.py:70-74 | a lower-case term matches every file name containing it in any case ("x" matches "x", "axb", "X") |
| Specs.FolderNamesFindsTerm | main.py:83-86 | a lower-case term matches when any single folder segment contains it |
| Specs.ExampleSpec | main.py:164-169 | the entry point's filter expression built with the three operators (no contract of its own); stated by ExampleShape and ExampleMeaning |
| Specs.ExampleShape | main.py:164-169 | under Python precedence the example is Or(FileName, And(And(And(FileName, Not(FileName)), FolderNames), Extension)) |
| Specs.ExampleMeaning | main.py:164-169 | the example holds iff the first name matches, or all four other conditions hold together |
| Specs.PrecedenceDiffersFromLayout | main.py:165-169 | a file matching the first name outside any folder passes the parsed tree but fails the grouping the layout suggests |
| SubjectFilter.Filter | main.py:105-111 | the pass emits exactly the satisfying records in input order, each satisfies the spec, and the count equals the number emitted |
| SubjectFilter.MatchingMembers | main.py:107-110 | a record is emitted iff it is an input and satisfies the spec |
| SubjectFilter.MatchingIsSubsequence | main.py:107-110 | the output is the input at the satisfying indices, increasing, with no satisfying index skipped |
| SubjectFilter.MatchingEmpty | main.py:105-111 | empty input gives empty output (and so count 0) |
| SubjectFilter.MatchingCons | main.py:107-110 | the first record is tested first and, if it satisfies, emitted first |
| SubjectFilter.MatchingAndWith | main.py:105-110 | filtering by `a & b` equals filtering by `a` and then by `b` |
| SubjectFilter.MatchingPartition | main.py:105-110 | the passes for `s` and `~s` together emit as many records as there are inputs |
| SubjectFilter.ExtensionExample | main.py:95-99 | of ".img", ".txt" and ".JPG" records, Extension("img", "jpg") keeps the first and third |
| Records.BaseName | main.py:137 | the final component is the longest separator-free suffix of the path |
| Records.DirName | main.py:139 | dirname's stripping of trailing separators leaves the non-empty segments unchanged |
| Records.PathSegments | main.py:139-140 | the path's non-empty segments are the folder segments followed by the final component |
| Records.ExtractFileInfo | main.py:135-148 | fails iff the final component has no '.'; otherwise keeps the path, splits the name on its first '.', and lists the non-empty, separator-free directory segments in order |
| Records.ExtractAll | main.py:129-132 | one record per path in order, each describing its path; or the error of the first path that has no '.' |
| Records.BaseNameAfterSep | main.py:137 | the final component is what follows the last separator, whatever precedes it |
| Records.ExtractWithDot | main.py:135-148 | extraction gives back the directory segments, base name and extension a path was built from |
| Records.ExtractWithoutDot | main.py:138 | a final component without '.' fails extraction, whatever the directory |
| Records.ExampleFolders | main.py:139-140 | "/a/b" has the folder segments ["a", "b"] |
| Records.ExtractExample | main.py:135-148 | "report.tar.gz" under a directory with segments ["a","b"] gives base "report", extension "tar.gz", folders ["a","b"] |
| RecordExamples.ExampleOnDirectory | main.py:135-148 | the path "/a/b" + "/report.tar.gz" gives base "report", extension "tar.gz", folders ["a","b"] |
| RecordExamples.ExtractLiteralExample | main.py:135-148 | extraction of the literal "/a/b/report.tar.gz" gives file name "report.tar.gz", base "report", extension "tar.gz", folders ["a","b"] |
| Strings.Lower | main.py:71 | lower-casing keeps the length and lower-cases each ASCII letter in place |
| Strings.LowerAll | main.py:84 | every folder segment is lower-cased, in order |
| Strings.LowerIsLower | main.py:71 | a lower-cased string has no upper-case letter and is unchanged by lower-casing again |
| Strings.LowerAppend | main.py:71 | lower-casing distributes over concatenation |
| Strings.Contains | main.py:73 | Python's `in` on strings (no contract of its own); stated by ContainsIff |
| Strings.ContainsIff | main.py:73 | the substring test holds iff the term occurs at some index (the empty term occurs everywhere) |
| Strings.SplitOnce | main.py:138 | no piece iff the name has no '.'; otherwise before + "." + after rebuilds the name and before has no '.' |
| Strings.SplitOnceUnique | main.py:138 | the cut is always at the first '.' |
| Strings.Split | main.py:139 | splitting gives at least one piece and no piece holds the separator |
| Strings.JoinSplit | main.py:139 | joining the pieces with the separator rebuilds the string |
| Strings.SplitJoin | main.py:139 | splitting a join of separator-free pieces gives the pieces back |
| Strings.SplitConcat | main.py:139 | a separator between two strings splits their pieces apart |
| Strings.RStrip | main.py:139 | rstrip removes exactly the trailing run of the character |
| Strings.Segments | main.py:139-140 | split on the separator, then drop empty pieces (no contract of its own); stated by SegmentsShape, SegmentsIgnoreRStrip and Records.PathSegments |
| Strings.SegmentsShape | main.py:140 | after dropping empty pieces, every segment is non-empty and separator-free |
| Strings.SegmentsIgnoreRStrip | main.py:139-140 | stripping trailing separators never changes the non-empty segments |
| Seqs.Select | main.py:107-110 | selection keeps only accepted elements and never grows the sequence |
| Seqs.SelectMembers | main.py:107-110 | an element is selected iff it is in the input and accepted |
| Seqs.SelectIsSubsequence | main.py:107-110 | selection is the input restricted to the accepted indices, in order |
| Seqs.MapAll | main.py:129-132 | all results in order, or the first failure with every earlier element succeeding |

## Left out

- The directory walk and path joining of `RecursiveFileLister.__call__` (main.py:122-125) are file-system I/O. `Records.ExtractAll` takes the list of paths as a parameter.
- The sort of the collected paths (main.py:127) is not modelled. `Records.ExtractAll` takes the paths in the order the lister hands them over, already sorted.
- The `found N files` print (main.py:111), the `process ->` lines and `os.makedirs` of the entry point (main.py:153-171) are console and file-system side effects. The count is returned instead.
- Generator laziness, and abandoning the generator early, are not modelled. The filter is eager; its output order and contents are those of the full pass.
- The `ABC` base classes `Specification` and `Filter` (main.py:5-10, 55-61) and operator dispatch are not modelled. The variants form a closed datatype, and the operators are plain functions.
- `str.lower()` is modelled on ASCII letters only. Other Unicode case mappings are not modelled.
- The path separator is fixed to `/`. Windows path rules of `os.path` are not modelled.
- Short-circuiting inside `all`/`any` is not observable here. `EvalAll`/`EvalAny` follow the same left-to-right order, but evaluation is pure.
