# NYC street trees: records, catalogue and line tokenizer

A Dafny model of the domain logic of a small Java program that loads the New
York City street-tree census and answers species queries. Three pieces are modelled:

- **The tree record** (`tree.dfy`, module `TreeRecord`). The Java constructor
  stores nine fields through private setters. The setters run in a fixed
  order and throw on the first invalid value:
  - id and diameter must not be negative;
  - status must be alive/dead/stump ignoring case, or empty, which is stored as null;
  - health must be good/fair/poor ignoring case, or empty, which is stored as null;
  - the species is always accepted;
  - the zip code must lie in 0..99999;
  - the borough must be one of the five, ignoring case.

  The fields are written only during construction, so a record is a value:
  - `TreeFields` is the datatype, and `Tree` is its subset of valid records.
  - `NewTree` returns either a `Tree` or the `FieldError` of the first failing setter.
  - The getters `getID`, `getSpc` and `getBoro` are the datatype's fields `id`, `spc` and `boro`.

  `Equals` and `CompareTo` model `equals` and `compareTo`, including the
  integrity fault that `equals` raises for the same id with a different species.
- **The catalogue** (`tree_list.dfy`, module `TreeCatalog`). `TreeList` is a
  class over a sequence of trees that only grows by appending.
  - Its three counting loops and its nested-loop species search are methods.
  - Each method is proved equal to a recursive specification function:
    `SpeciesCount`, `BoroughCount`, `SpeciesBoroughCount` or `MatchingSpeciesNames`.
  - The lemmas about these functions state what the counts and the search mean.
- **The line tokenizer** (`csv_line.dfy`, module `CsvLine`). `SplitCSVLine` is
  the character loop of `splitCSVLine`, with its `insideQuotes`/`insideEntry`
  flags, growing word and entry list. It is proved equal to `Split`, which
  runs the loop body `Step` over the line with `Run` and then trims and adds
  the last word. The tokenizer follows the code rather than RFC 4180 quoting:
  a doubled quote is two toggles, and curly quotes toggle as well.

`ignore_case.dfy` (module `IgnoreCase`) models the parts of `java.lang.String`
that these files use:
- `compareToIgnoreCase` is `CompareIgnoreCase`;
- `toUpperCase` is `Upper`;
- `contains` is `Contains`.

`wrappers.dfy` holds `Option` (Java null) and `Result` (a value or a thrown exception).

## Model

| member | source | states |
|---|---|---|
| TreeRecord.SetStatus | Tree.java:82-95 | accepted iff empty or equal to alive/dead/stump ignoring case; stored as given, or as absent when empty; otherwise a status error naming the input |
| TreeRecord.SetHealth | Tree.java:103-115 | accepted iff empty or equal to good/fair/poor ignoring case; stored as given, or as absent when empty; otherwise a health error naming the input |
| TreeRecord.SetBoro | Tree.java:154-163 | accepted iff one of the five boroughs ignoring case, stored with its own casing; otherwise a borough error |
| TreeRecord.NewTree | Tree.java:28-163 | construction succeeds iff every check passes (the species is never checked); the record then holds exactly the inputs; otherwise the error is that of the first failing check in the order id, diameter, status, health, zip, borough |
| TreeRecord.Equals | Tree.java:217-230 | false iff the ids differ; true iff the ids agree and the species are equal ignoring case; an integrity fault iff the ids agree and the species differ |
| TreeRecord.EqualsSymmetric | Tree.java:217-230 | swapping the records gives the same answer, or a fault in both directions |
| TreeRecord.CompareTo | Tree.java:239-258 | the result is -1, 0 or 1; 0 iff same species ignoring case and same id; -1 iff the species is later alphabetically (ignoring case), or the species are equal and the id is higher; 1 in the mirror case |
| TreeRecord.CompareToAntisymmetric | Tree.java:239-258 | swapping the records negates the result |
| TreeRecord.CompareToTransitive | Tree.java:239-258 | strict sorting-before (-1) is transitive |
| TreeRecord.CompareToZeroSubstitutes | Tree.java:239-258 | records comparing as 0 compare the same way with every third record |
| TreeRecord.CompareToConsistentWithEquals | Tree.java:217-258 | compareTo is 0 exactly when equals answers true |
| TreeRecord.OakBeforeMaple | Tree.java:232-258 | an "Oak" record sorts before a "maple" record whatever their ids |
| IgnoreCase.CompareIgnoreCaseZero | Tree.java:83-84 | compareToIgnoreCase is 0 iff the strings agree after lower-case folding |
| IgnoreCase.CompareIgnoreCaseAntisymmetric | Tree.java:241-246 | compareToIgnoreCase(a, b) = -compareToIgnoreCase(b, a) |
| IgnoreCase.CompareIgnoreCaseNegative | Tree.java:241-246 | compareToIgnoreCase is negative iff the folded strings are in strict lexicographic order |
| IgnoreCase.LexLessTrichotomy | Tree.java:241-246 | of the folded species, exactly one of less, equal and greater holds |
| IgnoreCase.LexLessTransitive | Tree.java:241-246 | lexicographic order on the folded species is transitive |
| IgnoreCase.ContainsIff | TreeList.java:99 | contains holds iff the query occurs in the string at some position |
| IgnoreCase.EqualsIgnoreCaseSameUpper | TreeList.java:99-105 | names equal ignoring case have the same upper-case form, so the deduplication and the query match agree |
| TreeCatalog.TreeList.constructor | TreeList.java:18-20 | a new list is empty |
| TreeCatalog.TreeList.Add | NYCStreetTrees.java:230 | append puts the record at the end and leaves the earlier records unchanged; the size grows by one |
| TreeCatalog.TreeList.GetTotalNumberOfTrees | TreeList.java:27-29 | the size of the list |
| TreeCatalog.TreeList.GetCountByTreeSpecies | TreeList.java:37-47 | the loop's count is SpeciesCount of the list |
| TreeCatalog.TreeList.GetCountByBorough | TreeList.java:55-65 | the loop's count is BoroughCount of the list |
| TreeCatalog.TreeList.GetCountByTreeSpeciesBorough | TreeList.java:74-86 | the loop's count is SpeciesBoroughCount of the list |
| TreeCatalog.TreeList.GetMatchingSpecies | TreeList.java:94-115 | the nested loop returns MatchingSpeciesNames of the list; the list is not modified |
| TreeCatalog.SpeciesCount | TreeList.java:37-47 | the species count never exceeds the size |
| TreeCatalog.BoroughCount | TreeList.java:55-65 | the borough count never exceeds the size |
| TreeCatalog.SpeciesBoroughCount | TreeList.java:74-86 | the combined count is at most the species count and at most the borough count |
| TreeCatalog.SpeciesCountIsCardinality | TreeList.java:37-47 | the species count is the number of positions whose species equals the name ignoring case |
| TreeCatalog.BoroughCountIsCardinality | TreeList.java:55-65 | the borough count is the number of positions whose borough equals the name ignoring case |
| TreeCatalog.SpeciesBoroughCountIsCardinality | TreeList.java:74-86 | the combined count is the number of positions matching both names ignoring case |
| TreeCatalog.CountsAfterAppend | TreeList.java:37-86 | appending a record raises each count by one exactly when the record matches |
| TreeCatalog.ExactlyOneBorough | Tree.java:154-163 | a valid record's borough equals exactly one of the five borough names ignoring case |
| TreeCatalog.BoroughCountsPartition | TreeList.java:55-65 | the five borough counts add up to the size of the list |
| TreeCatalog.SpeciesBoroughCountsPartition | TreeList.java:74-86 | for any species, the five per-borough counts add up to the species count |
| TreeCatalog.MatchingSpeciesSound | TreeList.java:98-101 | every returned name is the species of some record and contains the query, both upper-cased |
| TreeCatalog.MatchingSpeciesDistinct | TreeList.java:104-111 | no two returned names are equal ignoring case |
| TreeCatalog.MatchingSpeciesComplete | TreeList.java:98-111 | every matching record's species is among the returned names, ignoring case |
| TreeCatalog.MatchingSpeciesEmptyIff | TreeList.java:94-115 | the result is empty iff no record's species contains the query |
| TreeCatalog.MatchingSpeciesFirstSeen | TreeList.java:94-115 | the result lists, in list order and with their own casing, the species of exactly the matching records whose species no earlier record had |
| TreeCatalog.SeenBeforeIff | TreeList.java:104-110 | a matching record's species is already in the result iff an earlier record had it, ignoring case |
| TreeCatalog.OakQueryExample | TreeList.java:94-115 | the query "oak" over Red Oak, White Oak, red oak, Maple returns Red Oak, White Oak |
| CsvLine.SplitCSVLine | NYCStreetTrees.java:131-187 | the loop returns Split of the line: the scan of the whole line, plus the trimmed last word when it is not empty |
| CsvLine.TrimLeading | NYCStreetTrees.java:183 | trimming the front never lengthens the word, and what is left starts above ' ' |
| CsvLine.TrimLeadingDropsBlankPrefix | NYCStreetTrees.java:183 | trimming the front removes exactly a prefix, and every removed character is up to ' ' |
| CsvLine.TrimTrailing | NYCStreetTrees.java:183 | trimming the back never lengthens the word, and what is left ends above ' ' |
| CsvLine.TrimTrailingDropsBlankSuffix | NYCStreetTrees.java:183 | trimming the back removes exactly a suffix, and every removed character is up to ' ' |
| CsvLine.TrimmedEnds | NYCStreetTrees.java:183 | a trimmed word neither starts nor ends with a character up to ' ' |
| CsvLine.RunConcat | NYCStreetTrees.java:140-180 | scanning a + b is scanning b from the state a leaves |
| CsvLine.InsideQuotesParity | NYCStreetTrees.java:144-154 | the quote flag is set iff an odd number of quote characters was read, and it implies the entry flag |
| CsvLine.EntryCount | NYCStreetTrees.java:164-171 | the closed entries are as many as the commas read outside quotes |
| CsvLine.TokenCount | NYCStreetTrees.java:164-184 | the tokens are as many as the commas read outside quotes, plus one when the last word is not empty |
| CsvLine.CommasPartition | NYCStreetTrees.java:164-171 | each comma of the line is read either outside or inside quotes |
| CsvLine.WhitespaceSkipped | NYCStreetTrees.java:155-162 | whitespace read outside quotes and outside an entry leaves the scan unchanged |
| CsvLine.BlankLine | NYCStreetTrees.java:140-186 | an empty or all-whitespace line gives no tokens |
| CsvLine.LeadingWhitespaceDropped | NYCStreetTrees.java:155-162 | whitespace before the first entry does not change the tokens |
| CsvLine.WhitespaceAfterCommaDropped | NYCStreetTrees.java:155-170 | whitespace after an unquoted comma does not change the tokens |
| CsvLine.EntriesGrow | NYCStreetTrees.java:140-180 | the scan only appends to the entries: those held before are a prefix of those held after |
| CsvLine.SplitKeepsEntries | NYCStreetTrees.java:140-184 | the entries closed while scanning a prefix of the line are the first tokens of the line, whatever follows |
| CsvLine.CommaClosesEntry | NYCStreetTrees.java:167-184 | an unquoted comma stores the word untrimmed as the next token, whatever follows the comma; a trailing comma adds no empty token |
| CsvLine.ConsecutiveCommas | NYCStreetTrees.java:167-184 | two unquoted commas in a row give an empty token between them, whatever follows |
| CsvLine.EmptyMiddleToken | NYCStreetTrees.java:140-184 | a,,b gives the tokens a, the empty string and b |
| CsvLine.QuotedTextCollected | NYCStreetTrees.java:155-166 | inside quotes every non-quote character, comma and whitespace included, is appended to the word |
| CsvLine.QuotedSectionVerbatim | NYCStreetTrees.java:144-166 | a quoted section is appended verbatim without its quotes, and both flags end cleared |
| CsvLine.QuotedLine | NYCStreetTrees.java:140-184 | a line holding one quoted field gives that field trimmed, or nothing when it is empty |
| CsvLine.LastTokenTrimmed | NYCStreetTrees.java:182-184 | only the last word is trimmed, and it then neither starts nor ends with a character up to ' ' |
| CsvLine.NoQuotesInTokens | NYCStreetTrees.java:144-154 | no token contains a straight or curly double quote |
| CsvLine.CommasInTokens | NYCStreetTrees.java:164-166 | the tokens together hold exactly as many commas as were read inside quotes |
| CsvLine.TokensAreSubsequence | NYCStreetTrees.java:140-184 | the tokens, written one after the other, are the line with characters deleted; so they are no longer than the line |

## Left out

- The interactive `main` loop, the percentage arithmetic, `validateFile` and `populateTreeList` (NYCStreetTrees.java:21-121, 194-241): console and file I/O, `System.exit`, floating-point printing and library number parsing.
- `toString` of both classes, `setX`/`setY` as separate members, and the unused `treelist` field of `TreeList` (TreeList.java:13, 19). The coordinates are carried unchanged as `real` fields, never inspected.
- The static `listoftrees` of the main class: the model works on one `TreeList` object.
- The `ArrayList` surface other than append, size and indexing.
- Null: list elements are never null in the model. The null guard in the count loops is therefore always true, and `getMatchingSpecies` never faults on a null element. Null strings passed to the setters are not modelled, so the exceptions they would raise are not modelled either.
- TreeRecord.SetSpc: modelled as storing any string, as the code's `!(in.equals(null))` does. The documented rule that a species must be non-empty is not enforced by the code, so the model does not enforce it either.
- TreeRecord.Equals: the `ClassCastException` for an argument that is not a tree is not modelled; both arguments are trees.
- Integer width: the Java `int` parameters are `Int32` values. The setters' comparisons cannot overflow, so no wrap-around is needed. The loop counters of the catalogue are unbounded naturals; the Java counters are bounded by the list size.
- Unicode: case folding (`UpperChar`, `LowerChar`) covers the ASCII letters only. `IsWhitespace` is the ASCII part of `Character.isWhitespace`: space, tab through carriage return, and U+001C..U+001F. Unicode space separators beyond ASCII are treated as ordinary characters. Dafny characters are Unicode scalar values, not UTF-16 code units.
- `String.trim` is modelled exactly: it strips characters up to U+0020. This differs from `IsWhitespace`, as it does in Java.
