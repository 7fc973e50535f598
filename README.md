# idep core in Dafny

`idep` recovers the compile-time dependencies of C and C++ sources. It scans
each file for `#include` directives. It resolves each named header on a
search path, records who-includes-whom in a square bit matrix and closes it
with Warshall's algorithm. It then lists, for every root file, the headers
that root depends on. A small alias subsystem pairs every `.cc` file with
its header, and checks that pairing in three ways: `unpaired`, `verify` and
`extract`.

This project models that core layer by layer. Each C++ class whose methods
update fields is a Dafny `class`, with `modifies` clauses on its methods.
Each loop of the source is a `while` loop with its invariants. Every
imperative operation is proved against a pure specification function, and
the properties the code and its documentation promise are lemmas about
those functions.

| file | module | models |
|---|---|---|
| common.dfy | `Common` | `Option`, `IndexOf`, distinct sequences, the file system as a map from path to contents |
| text.dfy | `Text` | `stripDotSlash`, `IsAbsolutePath`, `stripDir`, `removeSuffix`, `th`, whitespace tests |
| hashing.dfy | `Hashing` | the multiplicative string hash with 32-bit unsigned wrap-around, and the bucket of a name |
| name_array.dfy | `NameArrays` | `NameArray`: an append-only array of names with doubling growth |
| name_index_map.dfy | `Registry` | `NameIndexMap`: hashed interning of names, with chained buckets |
| token_iterator.dfy | `TokenScan` | `TokenIterator`: maximal words and single newline tokens, with a doubling buffer |
| file_dep_iterator.dfy | `FileDeps` | `extractDependency`, `loadBuf` and `FileDepIterator` |
| binary_relation.dfy | `Relations` | `BinaryRelation`: a growable square bit matrix, Warshall's algorithm, closure and reduction |
| resolver.dfy | `Resolution` | include resolution on a search path, the include graph, the entry lists read from a stream, the output views |
| expansion.dfy | `Expansion` | `getDep` as a function on values, and what it records |
| calculation.dfy | `Calculation` | `calculate` as a function on values, and its outcome |
| compile_dep.dfy | `CompileDeps` | `search`, `getDep` and the loops of `calculate`, over a `NameIndexMap` and a `BinaryRelation` |
| compile_dep_classes.dfy | `CompileDepClasses` | the `CompileDep` environment: `AddIncludeDirectory`, `AddRootFile`, `loadFromStream`, `calculate` |
| compile_dep_iterators.dfy | `CompileDepIterators` | `RootFileIterator`, `HeaderFileIterator` and `operator<<` of `CompileDep` |
| alias_table.dfy | `AliasTables` | `AliasTable` and `AliasTableIterator` |
| alias_util.dfy | `AliasUtil` | `TryToAlias` and the table-driven `ReadAliases` machine |
| alias_order.dfy | `NameOrder` | the name orders of `unpaired` and its exchange sort of an index map |
| alias_reports.dfy | `AliasReports` | what `unpaired`, `verify` and `extract` compute, as functions on values |
| alias_dep.dfy | `AliasDeps` | the `AliasDep` environment and its `unpaired`, `verify` and `extract` loops |

Files are represented as a `map<string, string>` from path to contents, and a
path is openable exactly when it is a key. An operation that opens one
file takes that file as an `Option<string>`, where `None` means it cannot
be opened. Error and warning output is returned as lists of datatype values
(`Diagnostic`, `Notice`, `Complaint`, `ComponentWarning`, `Crowd`), not as
text.

## Model

Some sub-steps carry contracts but have no row, because each serves the member of one row:
- `AliasTables.AliasTable.Link` puts the new link of `AliasTable.Add` in place.
- `CompileDeps.Extend`, `CompileDeps.Record` and `CompileDeps.Link` are the steps of `getDep`'s loop in `CompileDeps.GetDep`.
- `FileDeps.FindAfterHash` and `FileDeps.FindAfterKeyword` are the later steps of `extractDependency` in `FileDeps.FindName`.
- `AliasDeps.AliasDep.Bump` is one step of the first loop of `AliasDeps.AliasDep.Unpaired`.

| member | source | states |
|---|---|---|
| Common.IndexOf | idep_name_index_map.cc:131-135 | the result is -1 exactly when `x` is absent; otherwise it is the position of the first occurrence of `x` |
| Text.StripDotSlash | idep_compile_dep.cc:22-29 | the loop drops every leading "./" pair and stops at the first position that does not start one |
| Text.DotSlashStrippedParts | idep_alias_dep.cc:30-38 | the stripped name is a suffix of the input that does not start with "./", and the part removed is made of "./" pairs only |
| Text.StripDir | idep_alias_dep.cc:40-47 | the result is a suffix of the input with no '/' in it; it is everything after the last '/', or the whole name when there is none |
| Text.RemoveSuffixSpec | idep_alias_dep.cc:99-106 | the result is a prefix of the input; it differs from the input exactly when the last '.' has no '/' after it, and then it ends just before that '.' |
| Text.RemoveSuffixExamples | idep_alias_dep.cc:102-103 | "a/.b" becomes "a/", and "a.b/c" is unchanged |
| Text.Th | idep_alias_dep.cc:290-293 | the suffix is "st", "nd" or "rd" exactly for 1, 2 and 3, and "th" for every other number |
| Hashing.Hash | idep_name_index_map.cc:14-20 | the loop yields the seed 1000003 times the code of every character, reduced mod 2^32 |
| Hashing.SlotOf | idep_name_index_map.cc:88-93 | the bucket lies in `[0, size)` |
| Hashing.HashExamples | idep_alias_table.cc:11-18 | the hash of "" is the seed, and the hash of "a" is the seed times 97 mod 2^32 |
| NameArrays.NameArray.constructor | idep_name_array.cc:21-25 | a new array is empty; the hint only sizes its first allocation (`hint > 0 ? hint : 1`) |
| NameArrays.NameArray.Append | idep_name_array.cc:34-47 | the name goes after all earlier names, which stay unchanged; the result is the old length; a full array doubles its size first |
| NameArrays.NameArray.At | idep_name_array.cc:49-51 | `operator[]` gives the stored name for an index in `[0, Length)`, and nothing (NULL) otherwise |
| NameArrays.NameArray.Length | idep_name_array.cc:53-55 | the number of names stored |
| Registry.Find | idep_name_index_map.cc:42-47 | the chain walk returns the position of the first link holding `name`, or -1 when no link does |
| Registry.NameIndexMap.constructor | idep_name_index_map.cc:66-73 | a new map has no names and `hint > 0 ? hint : 521` buckets |
| Registry.NameIndexMap.FindSlot | idep_name_index_map.cc:88-93 | the bucket of `name` is its hash mod the table size |
| Registry.NameIndexMap.FindsPresent | idep_name_index_map.cc:42-47 | the walk of a name's own chain finds it exactly when the name is registered |
| Registry.NameIndexMap.Insert | idep_name_index_map.cc:95-100 | an absent name goes after all the others and its link, to its new index, is put at the head of its bucket, with every other bucket unchanged; the result is that index |
| Registry.NameIndexMap.Add | idep_name_index_map.cc:112-115 | for a name already present the result is -1 and nothing changes; otherwise the name is appended and the result is the old `Length` |
| Registry.NameIndexMap.Entry | idep_name_index_map.cc:117-121 | the result is the name's index, in `[0, Length)`; the names gain `name` only when it was absent, so `Length` grows by at most one |
| Registry.NameIndexMap.Lookup | idep_name_index_map.cc:131-135 | the result is the index of `name` and nothing changes; it is -1 exactly when the name is absent |
| Registry.NameIndexMap.At | idep_name_index_map.cc:123-125 | the name at an index in `[0, Length)`, and nothing otherwise |
| Registry.NameIndexMap.Length | idep_name_index_map.cc:127-129 | the number of distinct names registered |
| Registry.LookupInverse | idep_name_index_map.cc:95-100 | the names are distinct, and `Lookup(names[i]) == i` for every index: the map is a bijection onto `[0, Length)` |
| TokenScan.TokensWellFormed | idep_token_iterator.cc:83-101 | every token is exactly "\n", or a non-empty word with no whitespace in it |
| TokenScan.LexTokens | idep_token_iterator.cc:72-110 | reading one character at a time, with a held-back newline, yields exactly the maximal runs of non-whitespace and the single newlines, in stream order |
| TokenScan.SingleWord | idep_token_iterator.cc:84-92 | a non-empty string without whitespace is exactly one token |
| TokenScan.TokensSplit | idep_token_iterator.cc:85-99 | one whitespace character splits the stream: the tokens before it, a newline token when it is '\n', then the tokens after it |
| TokenScan.TokensKeepEverything | idep_token_iterator.cc:93-99 | the tokens, joined, are the stream with all whitespace other than newline removed: nothing else is lost or added |
| TokenScan.TokenIterator.constructor | idep_token_iterator.cc:63-66 | the constructor loads the first token at once, so the tokens still to come are all the tokens of the stream |
| TokenScan.TokenIterator.Grow | idep_token_iterator.cc:45-53 | the buffer doubles and keeps its contents |
| TokenScan.TokenIterator.AddChar | idep_token_iterator.cc:55-61 | the character is stored at the end of the buffer, which grows first when it is full; afterwards `length <= size` |
| TokenScan.TokenIterator.Scan | idep_token_iterator.cc:77-104 | the reading loop gathers the next token: a held-back newline, or a word whose own ending newline is held back, or a single newline; other whitespace is skipped |
| TokenScan.TokenIterator.Load | idep_token_iterator.cc:75-109 | the body of `operator++` ends with a NUL-terminated token, or with `length == -1` exactly when no character was gathered |
| TokenScan.TokenIterator.Advance | idep_token_iterator.cc:72-73 | `operator++` needs a valid iterator; afterwards the current token has been seen and the tokens still to come lost their first one |
| TokenScan.TokenIterator.Current | idep_token_iterator.cc:116-118 | the current token is the buffer up to its terminating NUL |
| TokenScan.TokenIterator.Rest | idep_token_iterator.cc:112-114 | the iterator is valid exactly when tokens remain, and then the first of them is the current one |
| FileDeps.ReadLine | idep_file_dep_iterator.cc:16-42 | the documented `loadBuf`: end of input exactly on an empty rest; a line is cut to 2047 characters; the result is `OVERFLOW` exactly for a longer line |
| FileDeps.Cut | idep_file_dep_iterator.cc:25-27 | a line keeps its first 2047 characters, and a line that fits is kept whole |
| FileDeps.LinesUnlines | idep_file_dep_iterator.cc:29-39 | round trip: text made of newline-free lines, each ended by a newline, reads back as those lines, each cut to the buffer |
| FileDeps.LinesUnlinesShort | idep_file_dep_iterator.cc:29-39 | lines that fit the buffer read back unchanged |
| FileDeps.LinesFit | idep_file_dep_iterator.cc:11-14 | every line the reader presents has no newline and at most 2047 characters |
| FileDeps.ReadLineAsWritten | idep_file_dep_iterator.cc:29-39 | `loadBuf` with the standard `getline` failbit rule: a read that is not the end of input consumes at least one character |
| FileDeps.ExactFullLineHidesNext | idep_file_dep_iterator.cc:33-38 | a line of exactly 2047 characters makes the reader as written drop the next line, though the documented reader keeps it |
| FileDeps.LongLineEndsInput | idep_file_dep_iterator.cc:29-31 | a line longer than 2047 characters ends the input for the reader as written, though the documented reader goes on after it |
| FileDeps.LongLineExamples | idep_file_dep_iterator.cc:29-39 | two concrete inputs show both differences |
| FileDeps.SkipSpacesSpec | idep_file_dep_iterator.cc:68-69 | the whitespace skip (`isspace`, which also skips `\r`, `\v` and `\f`) passes over whitespace only, and over all of it |
| FileDeps.NameEndSpec | idep_file_dep_iterator.cc:97-98 | the name runs up to the first blank, tab, quote or '>', or to the end of the line |
| FileDeps.IncludeNameSound | idep_file_dep_iterator.cc:63-100 | every name found comes from a line of the shape `#[ws]*include[ws]*[<"][ws]*name`, with the name ended by a stop character or the end of the line |
| FileDeps.IncludeNameComplete | idep_file_dep_iterator.cc:63-100 | every line of that shape yields exactly its name |
| FileDeps.AngleExample | idep_file_dep_iterator.cc:85-100 | `#include <a.h>` yields "a.h" |
| FileDeps.QuoteExample | idep_file_dep_iterator.cc:68-100 | blanks may follow '#', and the name ends at the closing quote |
| FileDeps.EmptyNameExample | idep_file_dep_iterator.cc:97-100 | nothing between the brackets gives the empty name |
| FileDeps.NotDirectiveExamples | idep_file_dep_iterator.cc:63-88 | a line that does not start with '#', and a `#define` line that merely contains "include", are both rejected |
| FileDeps.NamesOfCuts | idep_file_dep_iterator.cc:25-38 | cutting lines a second time changes none of the names found |
| FileDeps.DepsOfLines | idep_file_dep_iterator.cc:152-160 | over a file given as lines, the scan finds the names of the directive lines, in file order |
| FileDeps.SkipSpace | idep_file_dep_iterator.cc:81-83 | the skip loop over the buffer stops where `SkipSpaces` does on the C string |
| FileDeps.MatchKeyword | idep_file_dep_iterator.cc:75-78 | the `strncmp` test holds exactly when "include" starts at that point of the C string |
| FileDeps.NameLength | idep_file_dep_iterator.cc:97 | `strcspn` gives the length of the name, up to where `NameEnd` puts its end |
| FileDeps.FindName | idep_file_dep_iterator.cc:63-97 | the scan over the buffer finds exactly the name `IncludeName` gives for the C string in it, or -1 when there is none |
| FileDeps.ExtractDependency | idep_file_dep_iterator.cc:44-101 | the result is -1 exactly when the line holds no directive; otherwise the buffer from the result up to the written NUL holds the name |
| FileDeps.FileDepIterator.constructor | idep_file_dep_iterator.cc:114-130 | the file is valid exactly when it opens; the iterator stands on the first dependency, and an unopenable file yields none |
| FileDeps.FileDepIterator.LoadBuf | idep_file_dep_iterator.cc:16-42 | one more line is read into the buffer, cut to fit and NUL-terminated, with the status `loadBuf` returns |
| FileDeps.FileDepIterator.ScanLine | idep_file_dep_iterator.cc:155-158 | one turn of the loop of `operator++`: it loads a line and scans it for a directive; it fails exactly at the end of input |
| FileDeps.FileDepIterator.ScanToDirective | idep_file_dep_iterator.cc:154-159 | the loop reads lines until one is a directive or the input ends |
| FileDeps.FileDepIterator.Load | idep_file_dep_iterator.cc:152-160 | there is a current name afterwards exactly when dependencies remained, and it is the next of them |
| FileDeps.FileDepIterator.Advance | idep_file_dep_iterator.cc:152-160 | `operator++` moves the current dependency to those seen and stands on the next one, in file order |
| FileDeps.FileDepIterator.Reset | idep_file_dep_iterator.cc:137-145 | `reset` as written: after a failed read, rewinding does nothing and the iterator stays invalid |
| FileDeps.FileDepIterator.Rewind | idep_file_dep_iterator.cc:137-145 | `reset` as documented: the iterator is back on the first dependency and nothing has been seen |
| FileDeps.FileDepIterator.Name | idep_file_dep_iterator.cc:167-170 | `operator()` gives the current dependency exactly when the iteration state is valid, and nothing (NULL) otherwise |
| FileDeps.FileDepIterator.IsValidFile | idep_file_dep_iterator.cc:147-150 | whether the file could be opened |
| FileDeps.FileDepIterator.CurrentIffRemaining | idep_file_dep_iterator.cc:162-165 | the iterator is valid exactly when dependencies remain, and the current name is the first of them |
| FileDeps.ResetAfterEnd | idep_file_dep_iterator.cc:137-145 | after a run to the end of a one-directive file, `Reset` finds nothing, while `Rewind` finds the directive again |
| Relations.Empty | idep_binary_relation.cc:93-102 | the relation on `n` elements with no pair related |
| Relations.Extended | idep_binary_relation.h:94-100 | one more element, related to nothing, with nothing related to it; every other cell is unchanged |
| Relations.StepsReach | idep_binary_relation.cc:182-200 | after `k` passes of Warshall's loop a cell is set exactly when a path runs between the two elements through inner nodes below `k` |
| Relations.ReachPivot | idep_binary_relation.cc:184-198 | allowing pivot `k` as an inner node adds exactly the paths through `k` |
| Relations.ClosureConnected | idep_binary_relation.cc:156-206 | after `makeTransitive`, `get(i, j)` holds exactly when the original relation has a path of one or more steps from `i` to `j` |
| Relations.ClosureExtends | idep_binary_relation.cc:203-206 | the closure keeps every pair of the relation: it only ever sets bits |
| Relations.ClosureTransitive | idep_binary_relation.cc:203-206 | the closure is transitive |
| Relations.ClosureNotReflexive | idep_binary_relation.h:36-38 | an element related to nothing keeps no self bit, contrary to the "reflexive" in the documentation |
| Relations.AcyclicIrreflexive | idep_binary_relation.cc:182-199 | on a relation without cycles, the closure relates no element to itself |
| Relations.StepsClear | idep_binary_relation.cc:208-215 | the passes of `makeNonTransitive` only ever clear bits |
| Relations.ReductionSubset | idep_binary_relation.cc:208-215 | `makeNonTransitive` keeps a subset of the relation and leaves every diagonal entry 0 |
| Relations.StepsConnected | idep_binary_relation.cc:182-200 | each bit the clearing passes keep or drop leaves every pair of the relation still joined by a path of kept bits |
| Relations.StepsKeepClosure | idep_binary_relation.cc:208-210 | on a transitive relation, cycles included, Warshall's clearing leaves the transitive closure unaffected |
| Relations.ReductionKeepsClosure | idep_binary_relation.h:40-45 | on a fully transitive relation that relates no element to itself, `makeNonTransitive` removes only redundant pairs: the closure of the result is the relation |
| Relations.StepsHasse | idep_binary_relation.cc:182-200 | on such a relation, after the passes for the first `k` pivots a pair is kept exactly when it is related and none of those pivots lies between its ends |
| Relations.ReductionHasse | idep_binary_relation.cc:208-215 | on such a relation, `makeNonTransitive` keeps a pair exactly when it is related and no element lies between its ends: the relation's Hasse diagram, which is unique |
| Relations.SelfLoopLost | idep_binary_relation.cc:211-214 | a file that depends on itself is transitive, but the diagonal clearing drops its bit, so that closure is not restored |
| Relations.ClearDiagonal | idep_binary_relation.cc:212-214 | subtracting the identity clears the diagonal and keeps every other cell |
| Relations.BinaryRelation.constructor | idep_binary_relation.cc:93-102 | the length is `max(initialEntries, 0)` and no pair is related; the size is the hint (or 1), raised to the length |
| Relations.BinaryRelation.Grow | idep_binary_relation.cc:62-75 | the physical size doubles and the logical relation is unchanged; cells outside it stay 0 |
| Relations.BinaryRelation.Compress | idep_binary_relation.cc:77-91 | the size shrinks to the length exactly when `size > length > 0`, and the relation is unchanged |
| Relations.BinaryRelation.AppendEntry | idep_binary_relation.h:94-100 | the result is the old length; the length grows by one, and the new row and column are 0 |
| Relations.BinaryRelation.Set | idep_binary_relation.h:102-106 | `set(row, col, bit)` stores `bit != 0` in that one cell and changes no other |
| Relations.BinaryRelation.SetOn | idep_binary_relation.h:107-110 | `set(row, col)` sets that one cell |
| Relations.BinaryRelation.Clr | idep_binary_relation.h:112-115 | `clr(row, col)` clears that one cell |
| Relations.BinaryRelation.Get | idep_binary_relation.h:117-120 | the stored cell, for a row and a column below the length |
| Relations.BinaryRelation.Length | idep_binary_relation.h:122-124 | the logical length |
| Relations.BinaryRelation.PivotRow | idep_binary_relation.cc:184-199 | one row of the pass for pivot `k`: it writes `VALUE` where `row[k]` and `row_k[c]` hold, skips the pivot row and column `k`, and keeps the rest |
| Relations.BinaryRelation.Pivot | idep_binary_relation.cc:182-199 | the pass over every row for pivot `k` computes `PivotStep` |
| Relations.BinaryRelation.Passes | idep_binary_relation.cc:178-200 | the triple loop computes `Steps` over all pivots, in place |
| Relations.BinaryRelation.Warshall | idep_binary_relation.cc:156-201 | `warshall` compresses the matrix, then runs the triple loop; the length does not change |
| Relations.BinaryRelation.MakeTransitive | idep_binary_relation.cc:203-206 | the new relation is the closure of the old one (see `ClosureConnected`) |
| Relations.BinaryRelation.ClearDiagonalCells | idep_binary_relation.cc:212-214 | the loop clears exactly the diagonal |
| Relations.BinaryRelation.MakeNonTransitive | idep_binary_relation.cc:208-215 | the new relation is the reduction of the old one: Warshall's loop clearing bits, then the diagonal cleared; when the old relation is transitive and relates no element to itself, the closure of the new one is the old one |
| Relations.BinaryRelation.Cmp | idep_binary_relation.cc:134-154 | the result is 0 exactly when both lengths are equal and the logical blocks agree |
| Relations.BinaryRelation.Equal | idep_binary_relation.h:126-128 | `==` holds exactly when the lengths and the blocks agree |
| Relations.BinaryRelation.NotEqual | idep_binary_relation.h:130-133 | `!=` is the negation of `==` |
| Resolution.FirstFoundSpec | idep_compile_dep.cc:87-104 | the first directory whose candidate `stripDotSlash(dir + file)` exists wins; there is none exactly when no directory gives one |
| Resolution.ResolveAbsolute | idep_compile_dep.cc:78-85 | an absolute name bypasses the search path: it resolves exactly when it exists, and to itself |
| Resolution.ResolvedMembers | idep_compile_dep.cc:125-147 | a path is among the resolved directives exactly when one of the directives resolves to it |
| Resolution.EdgeMeaning | idep_compile_dep.cc:119-156 | `a` includes `b` exactly when `a` exists and one of its directives resolves to `b` |
| Resolution.IncludesMeaning | idep_compile_dep.cc:119-156 | the include map agrees with `Edge` on every existing file |
| Resolution.Graph | idep_compile_dep.cc:134-146 | the direct include matrix over the registered names: cell `(i, j)` is set exactly when `names[i]` includes `names[j]` |
| Resolution.ExactGraph | idep_compile_dep.cc:134-146 | a sound matrix whose every row is covered is exactly the include graph, and its names are closed under inclusion |
| Resolution.ExactRootGraph | idep_compile_dep.cc:134-146 | a sound matrix with only the root rows covered is the include graph of the roots alone, and every file a root includes is registered |
| Resolution.AcceptedDistinct | idep_compile_dep.cc:269-288 | the roots that take a slot are distinct existing files |
| Resolution.AcceptedMembers | idep_compile_dep.cc:269-288 | a path takes a root slot exactly when some root resolves to it |
| Resolution.AcceptedAll | idep_compile_dep.cc:269-288 | every root takes a slot exactly when all of them resolve, to different files |
| Resolution.AsDirectory | idep_compile_dep.cc:214-228 | the kept directory name ends in '/' and extends the given name by at most that one character |
| Resolution.AsDirectoryIdempotent | idep_compile_dep.cc:219-226 | a name that already ends in '/' gains no second one |
| Resolution.DirectoryEntry | idep_compile_dep.cc:214-228 | `AddIncludeDirectory` adds nothing for the empty name, and otherwise the name with a trailing '/' |
| Resolution.AfterLineEnd | idep_compile_dep.cc:54-58 | the tokens after the first line end, or nothing exactly when there is no line end |
| Resolution.EntriesClean | idep_compile_dep.cc:50-64 | no entry handed on is a comment or a line end |
| Resolution.EntriesFromTokens | idep_compile_dep.cc:50-64 | every entry is one of the tokens, taken at most as often as it occurs |
| Resolution.EntriesOfLines | idep_compile_dep.cc:53-63 | splitting the tokens at a line end splits the entries there |
| Resolution.EntriesAsWrittenAgrees | idep_compile_dep.cc:53-63 | where the loop as written is defined, it hands on exactly `Entries` |
| Resolution.EntriesAsWrittenUndefined | idep_compile_dep.cc:54-58 | the loop as written is undefined exactly when some comment has no line end after it |
| Resolution.TrailingCommentExample | idep_token_iterator.cc:73 | a list whose last line is a comment without a final newline makes the loop as written advance an invalid iterator; the corrected loop hands on "a.h" |
| Resolution.SetBelowSpec | idep_compile_dep.cc:406-419 | a column is listed exactly when it is set, and the list ascends |
| Resolution.PartitionCounts | idep_compile_dep.cc:325-334 | the relative and absolute groups together hold each path as often as it occurs |
| Resolution.PartitionKinds | idep_compile_dep.cc:326-330 | the first group holds only relative paths, the second only absolute ones |
| Resolution.HeadersSpec | idep_compile_dep.cc:325-331 | a name is listed under row `i` exactly when it is the name of a column set in that row |
| Expansion.VisitSpec | idep_compile_dep.cc:125-146 | one directive: the file it names, if any, is registered and related to the file scanned, and an unresolved name is reported |
| Expansion.KnownSpec | idep_compile_dep.cc:134-146 | a directive naming a file already registered only sets its bit |
| Expansion.GrownSpec | idep_compile_dep.cc:134-144 | a new file is registered at the end, gets an empty matrix entry, and with `recurse` is expanded itself; the matrix stays sound |
| Expansion.WalkSpec | idep_compile_dep.cc:125-147 | each directive of the file that resolves is recorded in its row, and each that does not is reported |
| Expansion.ExpandSpec | idep_compile_dep.cc:119-156 | `getDep(index)` makes row `index` hold every direct include of the file; an unreadable file is reported; no error is added exactly when every directive resolves |
| Calculation.Seeded | idep_compile_dep.cc:269-288 | after the first loop the registry is the accepted roots and the matrix has no bit set; each root is either accepted or reported |
| Calculation.SeededStep | idep_compile_dep.cc:269-288 | placing one more root places it after the others |
| Calculation.RootsKeep | idep_compile_dep.cc:304-311 | the loop over the roots keeps its invariant: after `i` turns the first `i` roots are expanded |
| Calculation.RootsErrs | idep_compile_dep.cc:304-311 | after `i` turns nothing has been reported exactly when every file whose directives were read resolves all of them |
| Calculation.RootsOutcome | idep_compile_dep.cc:304-311 | the loop ends with every root done and the accepted roots still first |
| Calculation.CalculatedNames | idep_compile_dep.cc:254-317 | the registry starts with the accepted roots, in order, and holds distinct existing files |
| Calculation.CalculatedClosure | idep_compile_dep.cc:254-317 | with recursion the names are closed under inclusion and the matrix is the transitive closure of their include graph |
| Calculation.CalculatedDirect | idep_compile_dep.cc:254-317 | without recursion the matrix holds the direct includes of the roots alone, and every file a root includes is registered |
| Calculation.CalculatedErrs | idep_compile_dep.cc:254-317 | nothing is reported exactly when every root is accepted and every file whose directives were read names only files found on the search path |
| Calculation.ReportedClosure | idep_compile_dep.cc:319-338 | with recursion a root lists exactly the files it reaches through one or more includes |
| Calculation.ReportedDirect | idep_compile_dep.cc:319-338 | without recursion a root lists exactly the files it includes directly |
| CompileDeps.IsAsciiFile | idep_compile_dep.cc:35-47 | true exactly when the file opens and every character is ASCII |
| CompileDeps.SkipComment | idep_compile_dep.cc:55-57 | the skip stops on a line end, or at the end of the input |
| CompileDeps.SearchDir | idep_compile_dep.cc:96-101 | one directory gives its candidate exactly when that candidate exists |
| CompileDeps.Search | idep_compile_dep.cc:78-85 | `search` finds exactly what `Resolve` gives: an absolute name as it is, any other on the search path |
| CompileDeps.SearchPath | idep_compile_dep.cc:87-104 | the loop over the directories finds the first existing candidate |
| CompileDeps.ReadDeps | idep_compile_dep.cc:122-129 | the directives of the file in file order, and whether it opened |
| CompileDeps.Register | idep_compile_dep.cc:134-139 | the file is interned, and a new file gets a matrix entry, so the matrix stays as long as the registry |
| CompileDeps.Admit | idep_compile_dep.cc:134-144 | interning, then expanding a new file when `recurse` is set, computes `Grown` |
| CompileDeps.Step | idep_compile_dep.cc:125-147 | one turn of `getDep`'s loop computes `Visit` |
| CompileDeps.Drain | idep_compile_dep.cc:125-147 | the loop over the directives computes `Walk` |
| CompileDeps.GetDep | idep_compile_dep.cc:119-156 | `getDep` computes `Expand`: it records every direct include and reports an unopenable file |
| CompileDeps.PlaceRoot | idep_compile_dep.cc:270-287 | one root: it is searched for, then added or reported as missing or repeated |
| CompileDeps.SeedRoots | idep_compile_dep.cc:269-288 | the first loop computes `Seeded` |
| CompileDeps.ExpandRoot | idep_compile_dep.cc:305-310 | one turn of the second loop computes `Turn` |
| CompileDeps.ExpandRoots | idep_compile_dep.cc:304-311 | the second loop computes `RootsDone` |
| CompileDeps.Gather | idep_compile_dep.cc:264-311 | both loops of `calculate` on a new registry and a new relation |
| CompileDeps.CalculateFresh | idep_compile_dep.cc:254-317 | all of `calculate` computes `Calculated`, with `makeTransitive` exactly when the recursion flag is set, and its result is true exactly when nothing was reported |
| CompileDepClasses.CompileDep.constructor | idep_compile_dep.cc:186-189 | a new environment has no directories, no roots and no result yet |
| CompileDepClasses.CompileDep.AddIncludeDirectory | idep_compile_dep.cc:214-228 | the search path gains `DirectoryEntry(dir)` and nothing else changes |
| CompileDepClasses.CompileDep.AddRootFile | idep_compile_dep.cc:234-236 | the roots gain `file` as it is, and nothing else changes |
| CompileDepClasses.CompileDep.LoadFromStream | idep_compile_dep.cc:50-64 | the entries of the stream are added in order to the search path or to the roots |
| CompileDepClasses.CompileDep.Load | idep_compile_dep.cc:53-63 | the loop over the iterator hands on the entries of the tokens still to come |
| CompileDepClasses.CompileDep.ReadIncludeDirectories | idep_compile_dep.cc:230-232 | false, with nothing changed, exactly when the file cannot be opened or holds a non-ASCII character; otherwise its entries join the search path |
| CompileDepClasses.CompileDep.ReadRootFiles | idep_compile_dep.cc:238-241 | as `ReadIncludeDirectories`, for the root files |
| CompileDepClasses.SuccessRejected | cdep.cc:82-83 | with the `bool` the readers return, the caller's nonzero test rejects exactly the files that were read |
| CompileDepClasses.ReadableListRejected | cdep.cc:92-93 | a readable one-line ASCII list file is reported as unreadable |
| CompileDepClasses.CompileDep.ReadIncludeDirectoriesStatus | idep_compile_dep.h:28-33 | the documented status: 0, with the entries added to the search path, unless the file cannot be opened or is not all ASCII, and then nonzero with nothing changed; the caller's test rejects exactly those files |
| CompileDepClasses.CompileDep.ReadRootFilesStatus | idep_compile_dep.h:39-47 | as `ReadIncludeDirectoriesStatus`, for the root files |
| CompileDepClasses.CompileDep.Calculate | idep_compile_dep.cc:254-317 | the last result is replaced by a new registry and matrix computed by `Calculated`; the result is true exactly when nothing was reported |
| CompileDepIterators.RootFileIterator.constructor | idep_compile_dep.cc:349-358 | the iterator starts at root 0 |
| CompileDepIterators.RootFileIterator.Advance | idep_compile_dep.cc:365-369 | `operator++` needs a valid iterator and moves to the next root |
| CompileDepIterators.RootFileIterator.Current | idep_compile_dep.cc:376-379 | the name of the root at hand, or nothing past the registry |
| CompileDepIterators.HeaderFileIterator.constructor | idep_compile_dep.cc:390-400 | the iterator starts on the first column set in the root's row, and no column before it is set |
| CompileDepIterators.HeaderFileIterator.Advance | idep_compile_dep.cc:406-415 | `operator++` moves to the next column that is set, or past the end; every column skipped is clear |
| CompileDepIterators.HeaderFileIterator.Current | idep_compile_dep.cc:422-424 | the name of the file at hand, or nothing outside the registry |
| CompileDepIterators.Report | idep_compile_dep.cc:319-338 | for each root: its name, its relative headers in ascending order, its absolute ones in ascending order, then a blank line |
| CompileDepIterators.ReportHeaders | idep_compile_dep.cc:325-331 | the loop over the headers prints the relative names and keeps the absolute ones in `a`, each group in order |
| CompileDepIterators.ReportAbsolutes | idep_compile_dep.cc:332-334 | the kept absolute names are printed, each indented |
| AliasTables.FindAlias | idep_alias_table.cc:86-88 | the walk returns the position of the first link for `alias`, or -1 |
| AliasTables.Added | idep_alias_table.cc:79-99 | after `add` the alias is present; an alias already present keeps its name, and every other entry is unchanged |
| AliasTables.FirstAddWins | idep_alias_table.cc:79-99 | after a run of additions the aliases are the old ones plus those added, and an alias is never overwritten |
| AliasTables.FlattenMembers | idep_alias_table.cc:144-155 | a link is listed in slot order exactly when it is in one of the chains |
| AliasTables.AliasTable.constructor | idep_alias_table.cc:58-64 | a new table is empty and has `hint > 0 ? hint : 521` slots |
| AliasTables.AliasTable.SlotFor | idep_alias_table.cc:83 | the slot of `alias` is its hash mod the size |
| AliasTables.AliasTable.Add | idep_alias_table.cc:79-99 | an absent alias gets a link put at the head of its chain, with every other chain unchanged, and the result is 0; a present one gives 1 for the same name and -1 for a different one, and the table is unchanged |
| AliasTables.AliasTable.Lookup | idep_alias_table.cc:101-108 | the name `alias` stands for, or nothing; the table does not change |
| AliasTables.AliasTable.PairsExact | idep_alias_table.cc:137-160 | iteration lists every pair of the table exactly once, and no alias twice |
| AliasTables.AliasTableIterator.constructor | idep_alias_table.cc:127-131 | a new iterator has all the pairs of the table still to visit |
| AliasTables.AliasTableIterator.Reset | idep_alias_table.cc:137-142 | `reset` puts all the pairs back still to visit |
| AliasTables.AliasTableIterator.Advance | idep_alias_table.cc:144-155 | `operator++` drops the pair at hand; on an invalid iterator nothing changes |
| AliasTables.AliasTableIterator.NextSlot | idep_alias_table.cc:149-154 | one turn of the loop moves to the next slot and drops nothing |
| AliasTables.AliasTableIterator.Alias | idep_alias_table.cc:162-165 | the alias of the pair at hand |
| AliasTables.AliasTableIterator.OriginalName | idep_alias_table.cc:167-170 | the original name of the pair at hand |
| AliasTables.AliasTableIterator.AtHand | idep_alias_table.cc:157-160 | the iterator is valid exactly when pairs remain |
| AliasUtil.Classify | idep_alias_util.cc:125-135 | a token is CONTINUE exactly when it is a lone backslash, NEWLINE exactly when it is a line end, and IDENT otherwise |
| AliasUtil.StepLine | idep_alias_util.cc:185-187 | a token moves the line number on exactly when it is a line end |
| AliasUtil.ReadLines | idep_alias_util.cc:116-192 | after reading, `lineno` is one plus the number of line ends read |
| AliasUtil.ReadCounted | idep_alias_util.cc:109-192 | the result counts exactly the "two names for one alias" conflicts that were reported |
| AliasUtil.ReadAliasesGrow | idep_alias_util.cc:139-182 | no alias is ever overwritten, and every alias added is a token of the input, or the last token before it |
| AliasUtil.ReadAsWrittenAgrees | idep_alias_util.cc:116-192 | where the loop as written is defined, it agrees with `Read` |
| AliasUtil.ReadAsWrittenUndefined | idep_alias_util.cc:117-121 | the loop as written is undefined exactly when some comment has no line end after it |
| AliasUtil.OneLineGroup | idep_alias_util.cc:139-182 | `x a b` on one line makes `a` and `b` aliases of `x` |
| AliasUtil.BlankLineGroup | idep_alias_util.cc:139-182 | a component alone on its line takes the aliases of the lines after it, up to a blank line |
| AliasUtil.TwoNamesExample | idep_alias_util.cc:29-43 | an alias given a second, different component is counted and reported once, and keeps its first component |
| AliasUtil.CommentExample | idep_alias_util.cc:117-121 | a comment runs to the end of its line, and its line end is read as input |
| AliasUtil.UnendedCommentExample | idep_alias_util.cc:117-121 | a comment with no line end after it ends the reading; the loop as written is undefined there |
| AliasUtil.TryToAlias | idep_alias_util.cc:29-43 | the result is 1 exactly when the alias already stands for a different component, and then the table is unchanged; the same pair again is not an error |
| AliasUtil.CountTry | idep_alias_util.cc:160-170 | `numBadAliases += TryToAlias(...)` is one step of `Try` |
| AliasUtil.Perform | idep_alias_util.cc:139-182 | the action switch performs one step of the machine's `Act` on the table |
| AliasUtil.Consume | idep_alias_util.cc:125-191 | one pass of the loop after the comment skip is one step of `Read` |
| AliasUtil.Turn | idep_alias_util.cc:116-192 | one pass of the loop, with its comment skip, keeps the reading in step with `Read` |
| AliasUtil.Skip | idep_alias_util.cc:117-121 | the skip leaves the reading unchanged and stops on the line end after the comment |
| AliasUtil.Run | idep_alias_util.cc:116-192 | the loop runs the machine over all the tokens still to come |
| AliasUtil.ReadAliases | idep_alias_util.cc:45-195 | over a stream the table ends as `Read` of its tokens says, from the START state with line number 1, and the result is the number of conflicts |
| AliasUtil.ReadAliasesFile | idep_alias_util.cc:198-207 | -1, with nothing changed, exactly when the file cannot be opened; otherwise the stream overload |
| NameOrder.IntendedIsLex | idep_alias_dep.cc:266-271 | the intended comparison is the lexicographic order in which the end of a name comes after every character |
| NameOrder.PrecedesIrreflexive | idep_alias_dep.cc:262-272 | no name is printed before itself |
| NameOrder.PrecedesTransitive | idep_alias_dep.cc:262-272 | the print order is transitive |
| NameOrder.PrecedesTotal | idep_alias_dep.cc:262-272 | of two different names one is printed first |
| NameOrder.AsWrittenWithinIntended | idep_alias_dep.cc:266-271 | the test as written swaps only where the intended test does |
| NameOrder.EqualLengthNeverSwapped | idep_alias_dep.cc:271 | the test as written never exchanges two names of the same length with each other |
| NameOrder.AsWrittenExample | idep_alias_dep.cc:266-271 | "b" and "a" are never swapped as written, though the intended order puts "a" first |
| NameOrder.SortAsWritten | idep_alias_dep.cc:259-279 | the exchange sort without the suffix flag, with the test as written, only permutes the index map |
| NameOrder.AsWrittenKeepsUnsorted | idep_alias_dep.cc:259-279 | as written, the unpaired names "b" and "a" are printed as found, unsorted |
| NameOrder.AsWrittenMovesEqualLength | idep_alias_dep.cc:259-279 | as written, "b", "a", "bb" are printed as "bb", "a", "b": exchanging "bb" with "b" puts "a" before "b", against the order found |
| NameOrder.Sort | idep_alias_dep.cc:259-279 | the exchange sort only permutes `smap`, which stays an index map of the names, and leaves them in the corrected order of the Findings row for idep_alias_dep.cc:266-271 (`NameOrder.Precedes`) |
| NameOrder.Row | idep_alias_dep.cc:260-278 | after row `i` the names of rows `0..i` are in the corrected order of the Findings row for idep_alias_dep.cc:266-271 (`NameOrder.Precedes`), and `smap` is a permutation of what it was |
| NameOrder.Exchange | idep_alias_dep.cc:273-277 | the entries at `i` and `j` are exchanged exactly when the name at `i` is to be printed before the one at `j` |
| NameOrder.Iota | idep_alias_dep.cc:255-257 | the identity mapping `0, 1, ..., n - 1` |
| NameOrder.Rearranged | idep_alias_dep.cc:283-285 | listing the names through a permutation of their indices lists each name once |
| AliasReports.InsertAllMeaning | idep_alias_dep.cc:160-186 | loading a list adds exactly its names, keeps the ones already there first, and adds no name twice |
| AliasReports.Filed | idep_alias_dep.cc:208-232 | each file is filed under the component its suffix-stripped name stands for, or under nothing when it is ignored |
| AliasReports.TallyMeaning | idep_alias_dep.cc:208-232 | the tally lists each component once, with the number of its files and its last file |
| AliasReports.UnpairedComponents | idep_alias_dep.cc:234-244 | without the suffix flag, `unpaired` prints exactly the components with a single file, each once |
| AliasReports.UnpairedFiles | idep_alias_dep.cc:234-244 | with the suffix flag, `unpaired` prints exactly the files that are not ignored and are alone in their component |
| AliasReports.CrowdedMeaning | idep_alias_dep.cc:234-244 | a warning names a component and its number of files exactly when more than two files are filed under it |
| AliasReports.Canonicals | idep_alias_dep.cc:309-318 | each include name, mapped to its canonical component name |
| AliasReports.JudgedMeaning | idep_alias_dep.cc:324-357 | a verdict is "paired" exactly when the first directive names the file's own component, and "missing" exactly when none does |
| AliasReports.FirstMatchIs | idep_alias_dep.cc:324-338 | the index of the first match is the only index that matches with no match before it |
| AliasReports.Verdicts | idep_alias_dep.cc:301-360 | one verdict per file, each as `VerdictOf` gives it |
| AliasReports.VerifyStatusUnreadable | idep_alias_dep.cc:340-362 | `verify` returns -1 exactly when some file that is not ignored cannot be read |
| AliasReports.VerifyStatusClean | idep_alias_dep.cc:340-362 | `verify` returns 0 exactly when every file is ignored or has its own header first |
| AliasReports.VerifyAgreesWithExtract | idep_alias_dep.cc:412-438 | `verify` pairs a file exactly when `extract` finds its first header verified |
| AliasReports.ProposalPairs | idep_alias_dep.cc:389-437 | with the file's name, stripped of its suffix and its directory, made an alias of the proposed header, the guess for the file matches |
| AliasReports.ProposedPairs | idep_alias_dep.cc:389-437 | with that stripped name made an alias of the proposed header, `verify` pairs the file |
| AliasReports.ProposalLinePairs | idep_alias_dep.cc:473-480 | for a file name with no directory, the alias line `extract` prints makes the guess for that file match |
| AliasReports.DirectoryProposalUnpaired | idep_alias_dep.cc:473-478 | for "d/f.cc" with first include "h.h", `extract` proposes "h" under the alias "d/f", and with that alias added the file is proposed again |
| AliasReports.HeadersMeaning | idep_alias_dep.cc:443-445 | the headers form a list without repeats of the headers recorded, no longer than the list of files |
| AliasReports.ClaimsCount | idep_alias_dep.cc:454-468 | the files named under a header are as many as the guesses that record it |
| AliasReports.CrowdsMeaning | idep_alias_dep.cc:454-468 | there is a warning for exactly the headers that more than one file names first |
| AliasReports.ProposalsMeaning | idep_alias_dep.cc:473-480 | `extract` prints an alias line exactly for the files whose first header it recorded but did not verify |
| AliasReports.IntendedProposalsMeaning | idep_alias_dep.cc:473-478 | the corrected output has a line for exactly the files with a proposed header, keyed by the file name without suffix and directory |
| AliasReports.IntendedProposalsPair | idep_alias_dep.cc:473-478 | every line of the corrected output, added to the aliases, has `verify` pair the file it was made for |
| AliasReports.ExtractStatusUnreadable | idep_alias_dep.cc:398-410 | `extract` returns -1 exactly when a file that is not ignored cannot be read |
| AliasReports.ExtractStatusClean | idep_alias_dep.cc:398-482 | `extract` returns 0 exactly when every file that is not ignored can be read and has a directive |
| AliasReports.GuessFailures | idep_alias_dep.cc:398-410 | a guess fails to read exactly for a file that is not ignored and cannot be opened, and finds no directive exactly for one that opens but has none |
| AliasDeps.Zero | idep_alias_dep.cc:123-128 | every entry of the array is 0 |
| AliasDeps.Identity | idep_alias_dep.cc:254-257 | `smap` starts as the identity mapping |
| AliasDeps.FirstCanonicalMatch | idep_alias_dep.cc:324-338 | the directive loop of `verify` stops at the first directive whose canonical name is the file's own |
| AliasDeps.AliasDep.constructor | idep_alias_dep.cc:150-153 | a new environment ignores nothing and has no aliases and no files |
| AliasDeps.AliasDep.AddIgnoreName | idep_alias_dep.cc:160-163 | the ignored names gain the name unless it is there already |
| AliasDeps.AliasDep.AddFileName | idep_alias_dep.cc:179-182 | the files to check gain the name unless it is there already |
| AliasDeps.AliasDep.AddAlias | idep_alias_dep.cc:169-172 | the table gains the alias unless it is present; the result is the stored component on a conflict, and nothing otherwise |
| AliasDeps.AliasDep.ReadAliases | idep_alias_dep.cc:174-177 | the alias file read by `ReadAliases` into this environment's table |
| AliasDeps.AliasDep.ReadIgnoreNames | idep_alias_dep.cc:165-167 | 0 exactly when the file opens and is all ASCII, and then its entries are ignored; otherwise -1 with nothing changed |
| AliasDeps.AliasDep.ReadFileNames | idep_alias_dep.cc:184-186 | as `ReadIgnoreNames`, for the files to check |
| AliasDeps.AliasDep.LoadFromFile | idep_alias_dep.cc:80-90 | -1 unless the file is readable and all ASCII, and otherwise 0 with its entries added |
| AliasDeps.AliasDep.LoadFromStream | idep_alias_dep.cc:64-78 | the entries of the stream, in order, are added to the ignored names or to the files |
| AliasDeps.AliasDep.Canonicalize | idep_alias_dep.cc:309-318 | the name compared for a path: its last segment without suffix, mapped through the alias table when it is an alias |
| AliasDeps.AliasDep.Unpaired | idep_alias_dep.cc:196-288 | the names of the single-file components, or with the suffix flag of the lone files, as a permutation of `Singles`, in the corrected order of the Findings row for idep_alias_dep.cc:266-271 (`NameOrder.Precedes`), with a warning for every crowded component; the result is their number |
| AliasDeps.AliasDep.SortNames | idep_alias_dep.cc:253-285 | the printed names are a permutation of the collected ones, in the corrected order of the Findings row for idep_alias_dep.cc:266-271 (`NameOrder.Precedes`) |
| AliasDeps.AliasDep.FileAll | idep_alias_dep.cc:208-222 | the component each file is filed under, as `Filed` gives it |
| AliasDeps.AliasDep.CountFiled | idep_alias_dep.cc:208-232 | the component registry and the `hits` and `cmap` arrays hold the tally of the filed files |
| AliasDeps.AliasDep.PickUnpaired | idep_alias_dep.cc:234-244 | the names collected for printing are those of the single-file components, and the warnings name the crowded ones |
| AliasDeps.AliasDep.Emit | idep_alias_dep.cc:283-285 | the names are printed in the order `smap` gives |
| AliasDeps.AliasDep.Verify | idep_alias_dep.cc:295-363 | one verdict per file, as `Verdicts` gives it; the error lines that go with them; status -1 when a file was unreadable, otherwise the number of faulty files |
| AliasDeps.AliasDep.Check | idep_alias_dep.cc:302-357 | the verdict on one file is `VerdictOf` |
| AliasDeps.AliasDep.Locate | idep_alias_dep.cc:320-338 | the directive loop finds the first directive whose canonical name is the file's own, and its position |
| AliasDeps.AliasDep.Extract | idep_alias_dep.cc:366-483 | the guesses of `Guesses`; an alias line for each file whose header was recorded but not verified; a warning for each header that several files name first; status -1 when a file was unreadable, otherwise the number of files without directives |
| AliasDeps.AliasDep.Sift | idep_alias_dep.cc:380-446 | the first loop of `extract` makes the guess for each file and records its header |
| AliasDeps.AliasDep.ExamineAll | idep_alias_dep.cc:380-438 | the guess for each file is as `GuessOf` gives it |
| AliasDeps.AliasDep.EnterAll | idep_alias_dep.cc:443-445 | the unique headers and the `hits`, `hmap` and `verified` arrays are filled in from the guesses |
| AliasDeps.AliasDep.Examine | idep_alias_dep.cc:386-438 | the guess for one file is `GuessOf` |
| AliasDeps.AliasDep.Warn | idep_alias_dep.cc:454-468 | a warning for each header that more than one file names first, with those files |
| AliasDeps.AliasDep.Claimants | idep_alias_dep.cc:458-465 | the files whose header is number `i` |
| AliasDeps.AliasDep.Propose | idep_alias_dep.cc:473-480 | the alias lines are exactly `Proposals` |

## Left out

- `FileDeps.FileDepIterator.LoadBuf`, and the `Lines` reader behind it, follow the documented line contract: a line is cut to 2047 characters and the rest of that line is skipped. The `getline` failbit behaviour is modelled apart, in `ReadLineAsWritten` and `LinesAsWritten` (see Findings). `FileDeps.FileDepIterator.Reset`, by contrast, follows the code as written, and `Rewind` is the intended version.
- `CompileDeps.ReadDeps` reads all of a file's directives before `getDep` recurses. The source keeps its `FileDepIterator` open while it recurses (idep_compile_dep.cc:125-148). The result is the same because the file system does not change during a calculation.
- `Hashing.HashOf` multiplies by `c as int`, the unsigned code of each character. The source multiplies plain `char` values, which may be signed. The difference changes only which bucket a non-ASCII name lands in, and so the order of `AliasTableIterator`. No membership or lookup result changes.
- `Expansion.Diagnostic`: the error messages of `getDep` and `calculate` are datatype values, not their text. The same holds for `AliasUtil.Notice`, the `Complaint`, `ComponentWarning` and `Crowd` values of `AliasDeps`, and the `warn`/`err` helpers.
- `CompileDepClasses.CompileDep.LoadFromStream` and `AliasDeps.AliasDep.LoadFromStream` end the list at a trailing comment with no final newline. At that point the source fails the assertion of idep_token_iterator.cc:73 when assertions are enabled, and ends the list the same way under `NDEBUG` (see Findings).
- `AliasUtil.ReadAliases` likewise ends the reading at a comment with no line end after it, where the source advances an invalid iterator (see Findings).
- Files are a `map<string, string>` or an `Option<string>`. Opening, `seekg`, `clear` and the character-by-character stream read of `IsAsciiFile` are not modelled; `CompileDeps.IsAsciiFile` states only its outcome.
- `InputRootFiles` (idep_compile_dep.cc:243-252) and `inputFileNames` (idep_alias_dep.cc:188-194) read `std::cin`. They are not modelled; the second has an empty body in the source anyway.
- The `operator<<` printers of `BinaryRelation`, `NameArray`, `NameIndexMap` and `AliasTable` only format output with field widths, and are not modelled. The `operator<<` of `CompileDep` is modelled, as `CompileDepIterators.Report`.
- `AliasDeps.AliasDep.Warn` returns each warning as a `Crowd` value, holding each claiming file with its verified flag. The source prints the flag as the `ARROW` text padded to width `FW` (idep_alias_dep.cc:448-461); that layout is not modelled.
- The copy constructor and `operator=` of `BinaryRelation` (idep_binary_relation.cc:104-127) copy from their own storage and are marked TODO in the source. They are not modelled.
- Memory management is not modelled: `new`/`delete`, the `AliasDepIntArray` and `AliasDepString` helpers (idep_alias_dep.cc:110-140), `NewStrCpy`, the `delete`/`delete[]` mismatch at idep_token_iterator.cc:42, and the crash note at idep_binary_relation.cc:24-35. Arrays are Dafny arrays and strings are sequences.
- `AliasDeps.AliasDep.Canonicalize` works on unbounded strings. The source copies the name into `char temp[355]` with `strcpy` (idep_alias_dep.cc:313-315), which overflows for a longer name.
- `AliasDeps.AliasDep.Unpaired` runs the first loop of the source as two loops: `FileAll` looks up the components, and `CountFiled` counts them. `AliasDeps.AliasDep.Sift` likewise splits the first loop of `extract` into `ExamineAll` and `EnterAll`. Each pair computes what the single loop computes, because the lookups change no state the counting reads.
- `AliasDeps.AliasDep.Bump` counts the hit for a component before `numComponents` is brought up to date; the source updates `numComponents` between `Entry` and the hit (idep_alias_dep.cc:221-229). The order does not matter, because neither step reads what the other writes.
- The `stripDotSlash` of idep_alias_dep.cc:30-38 is never called in that file. It is the same function as the one in idep_compile_dep.cc:22-29, and both are modelled by `Text.StripDotSlash`.
- `Relations.ReductionKeepsClosure` and `Relations.ReductionHasse` assume a relation that relates no element to itself. On a cyclic relation the model proves only `Relations.StepsKeepClosure`: Warshall's clearing keeps the closure. `Relations.SelfLoopLost` shows that the diagonal clearing that follows drops each self-dependency, as the source intends. Which of the non-unique reductions of a cycle the source picks is not characterised.
- `CompileDepClasses.CompileDep.ReadIncludeDirectoriesStatus` and `ReadRootFilesStatus` return -1 on failure. The declarations promise only a nonzero value, and -1 is the value the alias loader uses.
- `AliasDeps.AliasDep.SortNames`, and so `Unpaired`, sort with the intended comparator `NameOrder.Precedes`, not the as-written `SwapAsWritten`. Names of equal length come out in lexicographic order. The source never exchanges two of them with each other, but exchanges with longer names still move them, so there their relative order is neither sorted nor, in general, the order collected (see Findings).
- `AliasDeps.AliasDep.Extract` prints the alias lines as the code writes them (`AliasReports.Proposals`), keeping the directory of each file name. The corrected output, `AliasReports.IntendedProposals`, is modelled beside it (see Findings).
- The command-line programs (adep.cc, cdep.cc, ldep.cc), basictypes.h, the legacy idep_tokeniter.h, and link-time dependency analysis are outside the core and are not modelled, except the status test of cdep.cc:82 and :92 (`CompileDepClasses.Rejected`).

## Findings

| source | as written | input that shows it | evidently intended | confidence | as-written member | corrected member |
|---|---|---|---|---|---|---|
| idep_file_dep_iterator.cc:29-39 | `loadBuf` relies on `getline` leaving the newline unread when the buffer is full; `getline` sets failbit instead (`LinesAsWritten`) | a line of exactly 2047 characters followed by `x`: the next line is swallowed; a line of 2048 or more characters: the input ends there | the comment: cut the line to the buffer, skip the rest of it, and go on with the next line | not executed | FileDeps.ExactFullLineHidesNext | FileDeps.LinesUnlines |
| idep_file_dep_iterator.cc:137-145 | `reset` calls `seekg` while the stream's failbit is still set, so the rewind does nothing after a run to the end | a one-line file `#include <x>`: iterate to the end, then `reset`: no dependency is found | rewind to the first dependency whatever the state, as the header documents | not executed | FileDeps.ResetAfterEnd | FileDeps.FileDepIterator.Rewind |
| idep_compile_dep.cc:53-58 | after the comment skip, the `continue` runs `++it` on an iterator that the skip left invalid, which, with assertions enabled, fails `assert(*this)` at idep_token_iterator.cc:73 (`EntriesAsWritten`); built with `NDEBUG`, that advance of an already invalid iterator reads nothing and the loop ends as intended; the same loop is at idep_alias_dep.cc:67-72 | a list file whose last line is `# done` with no final newline | end the list at the end of the input | not executed | Resolution.TrailingCommentExample | Resolution.Entries |
| idep_alias_util.cc:117-121 | the comment skip has no validity test, so a comment on the last line, with no newline after it, reads and advances an invalid iterator (`ReadAsWritten`) | an alias file ending in `# c` with no final newline | stop at the end of the input, as the loader loop tries to | not executed | AliasUtil.UnendedCommentExample | AliasUtil.ReadAsWrittenAgrees |
| idep_alias_dep.cc:266-271 | `swap = (cmp < 0 \|\| 0 == cmp) && li > lj` swaps only when the first name is longer, so names of the same length are never swapped with each other (`SwapAsWritten`, `SortAsWritten`) | the unpaired names "b" and "a" print as "b", "a"; "b", "a", "bb" print as "bb", "a", "b" (`AsWrittenMovesEqualLength`) | lexicographic order, with the longer name first when one starts the other: `cmp < 0 \|\| (0 == cmp && li > lj)` | not executed | NameOrder.AsWrittenKeepsUnsorted | NameOrder.Sort |
| idep_binary_relation.h:36-38 | the documentation calls the result of `makeTransitive` the "reflexive transitive closure", but the code never sets the diagonal bit of an element that is not on a cycle | the one-element relation with no pair related: it is unchanged | the transitive closure, a path of one or more steps, which is what the code computes | not executed | Relations.ClosureNotReflexive | Relations.ClosureConnected |
| idep_compile_dep.cc:230-241 | `ReadIncludeDirectories` and `ReadRootFiles` return `bool`, `true` on success, while their declarations at idep_compile_dep.h:28-47 promise an `int` that is 0 on success, and `cdep` at cdep.cc:82 and :92 rejects a nonzero result (`SuccessRejected`) | an include list file holding `src` and a newline, given with `-i`: it is read, then reported as unreadable | 0 on success and nonzero when the file cannot be opened or is not all ASCII, as documented | not executed | CompileDepClasses.ReadableListRejected | CompileDepClasses.CompileDep.ReadIncludeDirectoriesStatus |
| idep_alias_dep.cc:473-478 | the comment says the suffix and the path are stripped from the file name, but only `removeSuffix` is called, so the alias printed for a file in a directory keeps the directory; `verify` and `extract` look up the name with the directory stripped (idep_alias_dep.cc:310-316, :391-393) and never find it, though `unpaired` looks up the full name (:214-216) and does | "d/f.cc" whose first include is "h.h": `extract` prints `h d/f`, and with that line added to the aliases `extract` proposes it again and `verify` still reports the file | print the name without its suffix and its directory, as the comment says | not executed | AliasReports.DirectoryProposalUnpaired | AliasReports.IntendedProposalsPair |
