# Anagram jobs on Hadoop MapReduce, modelled in Dafny

The repository holds two MapReduce jobs. Each reads text and writes the groups
of words that are anagrams of each other.

- `AnagramFinder` is the simple job.
  - Its mapper splits each line into tokens and drops stop words.
  - It strips punctuation and non-letters and lower-cases what is left.
  - It writes `(key, word)` for every word of more than one letter. The key
    is the word's letters sorted ascending.
  - Its reducer collects the distinct words of one key in a `HashSet`. When
    there is more than one word, it writes a count and the sorted words
    joined by `,`.
- `AnagramsAdvanced` does the same with more machinery:
  - a composite key (`CompositeKeyWritable`: sorted key plus word);
  - a hash partitioner over 8 reduce tasks;
  - a sort comparator on the whole composite key;
  - a grouping comparator on the sorted key only;
  - a de-duplicating combiner;
  - a reducer that orders the distinct words with a `TreeSet`. It writes
    their number and the words, each followed by `", "`.

The model has these parts:

- **The Java library pieces the jobs depend on** (`java_int.dfy`,
  `java_string.dfy`):
  - 32-bit wrap-around;
  - Java's truncating `%`;
  - `& Integer.MAX_VALUE`;
  - `String.compareTo`, with a proof that it is a total order;
  - `String.hashCode` as the JDK's wrapping loop, proved equal to the
    documented polynomial modulo 2^32;
  - `String.contains`, proved equivalent to "occurs as a substring";
  - `String.valueOf(int)`, with a round trip through digit parsing.
- **Sorting** (`sorting.dfy`):
  - One in-place insertion sort on an `array` stands for `Arrays.sort` and
    `Collections.sort`. It is proved against a functional sort.
  - The functional sort is proved sorted and a permutation of its input. It
    is the only sorted permutation when the order is total.
  - The combiner's first-occurrence de-duplication.
- **`TreeSet` order** (`tree_set.dfy`): a set's elements in ascending order,
  proved strictly ascending, equal to the set, and unique.
- **Text formats** (`text_format.dfy`):
  - joining with a separator;
  - separator-terminated lists;
  - `split`, with the round trip `Split(Join(ws, c), c) == ws` when no word
    contains `c`.
- **The normalisation and the grouping key** (`normalise.dfy`):
  - The three rewrites keep exactly the token's letters, lower-cased.
  - Two words share a key exactly when one is a letter-permutation of the
    other.
- **The two jobs** (`anagram_finder.dfy`, `anagrams_advanced.dfy`):
  - the mappers, reducers, comparators, partitioner and combiner, with their
    loops as methods proved against specification functions;
  - the composite key and the reducer object as classes.
- **The advanced job's shuffle** (`pipeline.dfy`):
  - the partition into lanes;
  - the sort by the composite key;
  - grouping of adjacent records by the grouping comparator;
  - one reducer call per group.
  - The proofs show that the job writes exactly one line per anagram class
    with more than one distinct word. The combiner changes nothing, and the
    number of reduce tasks changes only which file holds a line. Words of
    fewer than two letters never reach the output.

The source does not compile as published. The model follows its evident
intent at each place where it does not compile (listed under "Left out").

## Model

| member | source | states |
|---|---|---|
| JavaInt.Wrap32 | AnagramsAdvanced.java:142 | the result is an `int`, congruent to the input modulo 2^32, and equal to the input when that is already an `int` |
| JavaInt.Rem | AnagramsAdvanced.java:142 | Java's `%`: the remainder is smaller in magnitude than the divisor, has the sign of the dividend, and has magnitude \|a\| mod \|b\| |
| JavaInt.ClearSignBit | AnagramsAdvanced.java:142 | `x & Integer.MAX_VALUE` is in [0, 2^31) and congruent to x modulo 2^31 |
| JavaString.CompareTo | AnagramsAdvanced.java:111-113 | `compareTo` is zero exactly when the strings are equal |
| JavaString.CompareToAntisymmetric | AnagramsAdvanced.java:111-113 | swapping the arguments negates the result |
| JavaString.LeTransitive | AnagramsAdvanced.java:111-113 | `compareTo(a,b) <= 0` and `compareTo(b,c) <= 0` give `compareTo(a,c) <= 0` |
| JavaString.LessTransitive | AnagramsAdvanced.java:111-113 | the strict order is transitive |
| JavaString.LeTotal | AnagramsAdvanced.java:111-113 | any two strings are comparable |
| JavaString.LeIsTotalOrder | AnagramsAdvanced.java:111-113 | string order is total, antisymmetric and transitive |
| JavaString.HashCode | AnagramsAdvanced.java:142 | the JDK's hash is always a 32-bit `int` |
| JavaString.HashPolynomialAppend | AnagramsAdvanced.java:142 | Horner's rule for the hash polynomial |
| JavaString.HashCodeIsWrappedPolynomial | AnagramsAdvanced.java:142 | the wrapping loop computes s[0]·31^(n-1) + … + s[n-1] reduced into an `int` |
| JavaString.ContainsIffOccurs | AnagramsAdvanced.java:46 | `contains` holds exactly when the token occurs somewhere in the string as a contiguous substring |
| JavaString.ValueOf | AnagramFinder.java:81 | the decimal text is non-empty, all digits, and has no leading zero |
| JavaString.ValueOfRoundTrip | AnagramFinder.java:81 | the decimal text parses back to the counter |
| Sorting.InsertionSort | AnagramFinder.java:33-37 | after the in-place sort the array holds the functional sort of its old contents |
| Sorting.InsertLast | AnagramFinder.java:36 | one pass of the shifting loop inserts `a[i]` into the prefix and leaves the rest of the array unchanged |
| Sorting.SortByPermutes | AnagramFinder.java:36 | sorting keeps the multiset of elements |
| Sorting.InsertSorted | AnagramFinder.java:36 | inserting into a sorted sequence keeps it sorted |
| Sorting.SortBySorted | AnagramFinder.java:36 | the sort's result is sorted and a permutation of its input |
| Sorting.SortedUnique | AnagramFinder.java:68 | under a total order two sorted permutations of the same multiset are equal |
| Sorting.SortedPermutationIsSortBy | AnagramFinder.java:68 | any sorted permutation of the input is the sort's result |
| Sorting.Dedup | AnagramsAdvanced.java:199-205 | the de-duplicated sequence has no repeats and exactly the input's elements |
| Sorting.DedupFirstOccurrenceOrder | AnagramsAdvanced.java:200-205 | distinct words come out in the order of their first occurrence |
| Sorting.DedupOfDistinct | AnagramsAdvanced.java:199-205 | de-duplicating a repeat-free sequence changes nothing |
| TreeSetOrder.LeastExists | AnagramsAdvanced.java:233 | a non-empty set of strings has a least element |
| TreeSetOrder.Ascending | AnagramsAdvanced.java:248 | the `TreeSet` enumeration has one entry per element |
| TreeSetOrder.AscendingSpec | AnagramsAdvanced.java:233-248 | the `TreeSet` enumeration is strictly ascending and holds exactly the set's elements |
| TreeSetOrder.AscendingUnique | AnagramsAdvanced.java:248 | any strictly ascending enumeration of the set is the `TreeSet` one |
| TreeSetOrder.AscendingFirst | AnagramsAdvanced.java:248 | the enumeration starts with the least element and continues with the rest of the set |
| TreeSetOrder.SortedDistinctIsAscending | AnagramFinder.java:64-68 | a sorted, repeat-free list of the set's elements is its ascending enumeration |
| TextFormat.TerminatedIsJoinPlusSeparator | AnagramsAdvanced.java:248-251 | the reducer's `", "`-terminated list is the `", "`-joined list with one more separator |
| TextFormat.SplitJoinRoundTrip | AnagramFinder.java:69-80 | splitting the `,`-joined words at `,` gives the words back when none contains `,` |
| TextFormat.SplitSingle | AnagramFinder.java:22 | a string without the separator splits into itself |
| Normalise.IsPunct | AnagramsAdvanced.java:48 | `\p{Punct}` is one of the 32 ASCII punctuation chars, and a punctuation char is never a letter |
| Normalise.RemovePunct | AnagramFinder.java:28 | `replaceAll("\\p{Punct}", "")` leaves no punctuation and keeps every other char of the token |
| Normalise.ToLowerCase | AnagramFinder.java:28 | `toLowerCase()` keeps the length, maps each char by the ASCII lower-casing, and leaves no uppercase letter |
| Normalise.Clean | AnagramFinder.java:28-29 | the composition of the three rewrites in the mappers' order; `CleanIsLetters` proves it keeps exactly the token's lower-cased letters |
| Normalise.KeepLower | AnagramFinder.java:29 | `replaceAll("[^a-z]", "")` leaves only lowercase letters |
| Normalise.CleanIsLetters | AnagramFinder.java:28-29 | the three rewrites keep exactly the token's ASCII letters, lower-cased, in order |
| Normalise.RemovePunctRedundant | AnagramsAdvanced.java:47-50 | stripping punctuation before the letter filter changes nothing |
| Normalise.Key | AnagramFinder.java:33-37 | `toCharArray`, `Arrays.sort`, `new String`: the word's chars sorted; `KeyIsSortedPermutation` and `KeyIffAnagram` state what that key is |
| Normalise.KeyIsSortedPermutation | AnagramFinder.java:33-37 | the key is the word's chars in ascending order, a permutation of the word |
| Normalise.KeyIffAnagram | AnagramsAdvanced.java:52-56 | two words share a key exactly when they are letter-permutations of each other |
| Normalise.KeyOfLowerWord | AnagramsAdvanced.java:52-56 | a lowercase word's key is lowercase and as long as the word |
| AnagramFinder.Qualifies | AnagramFinder.java:31 | a token passes exactly when it is no entry of the stop list and has more than one ASCII letter |
| AnagramFinder.Map | AnagramFinder.java:23-41 | the mapper's loop writes, in token order, the pair of every qualifying token |
| AnagramFinder.MapToken | AnagramFinder.java:26-39 | one token yields its (sorted key, cleaned word) pair when it is not a stop-list entry and its cleaned word has more than one letter, otherwise nothing |
| AnagramFinder.MapOutputSound | AnagramFinder.java:21-39 | every written pair has a lowercase word of at least two letters keyed by its sorted letters and comes from a qualifying token; every qualifying token's pair is written |
| AnagramFinder.MapKeysGroupAnagrams | AnagramFinder.java:33-39 | two written pairs share a key exactly when their words are anagrams |
| AnagramFinder.ReduceAsWritten | AnagramFinder.java:49-84 | the reducer as written: output only for more than one distinct word, and then the counter is always 0 |
| AnagramFinder.Reduce | AnagramFinder.java:49-84 | the corrected reducer writes the number of distinct words and their ascending `,`-joined list, and only for more than one distinct word |
| AnagramFinder.SortAndJoin | AnagramFinder.java:64-80 | copying the set to a list, sorting it and joining it gives the ascending `,`-joined words, whatever order the set enumerates in |
| AnagramFinder.ToList | AnagramFinder.java:64 | `new ArrayList<>(set)` holds each of the set's elements exactly once |
| AnagramFinder.JoinArray | AnagramFinder.java:69-80 | the join loop yields nothing for an empty list and otherwise the words joined by `,` |
| AnagramFinder.SortedEnumerationIsAscending | AnagramFinder.java:64-68 | sorting any repeat-free enumeration of the set gives its ascending enumeration |
| AnagramFinder.EmitProperties | AnagramFinder.java:66-82 | a line is written exactly for more than one distinct word; its count parses back to the counter and its list splits back into the ascending words |
| AnagramFinder.ReduceCountsDistinct | AnagramFinder.java:81 | the corrected count is the decimal number of distinct words |
| AnagramFinder.AsWrittenCountIsZero | AnagramFinder.java:58-82 | on `race, care` the code as written outputs `0 care,race`, the corrected one `2 care,race` |
| AnagramsAdvanced.SubstringStopTest | AnagramsAdvanced.java:46 | the test as written: a token is a stop word exactly when it occurs somewhere in the literal as a contiguous substring |
| AnagramsAdvanced.EntryStopTest | AnagramsAdvanced.java:46 | the corrected test, membership among the literal's comma-separated entries; every token it drops occurs in the literal |
| AnagramsAdvanced.Qualifies | AnagramsAdvanced.java:46 | a token passes only if it is no stop word, and passes whenever it is no stop word and has at least two letters (the length guard tests the raw token) |
| AnagramsAdvanced.EntryImpliesSubstring | AnagramsAdvanced.java:46 | a stop-list entry is always also a substring of the literal, so the substring test drops at least what the entry test drops |
| AnagramsAdvanced.SplitPiecesOccur | AnagramsAdvanced.java:30 | every comma-separated entry occurs in the literal |
| AnagramsAdvanced.SubstringTestDropsTen | AnagramsAdvanced.java:30-46 | any literal containing `,often,` makes the substring test drop `ten` |
| AnagramsAdvanced.SubstringTestCounterexample | AnagramsAdvanced.java:30-58 | on a literal holding `of,often`, `ten` is dropped by the substring test though it is no entry; the entry test writes `(ent, ten)` |
| AnagramsAdvanced.Map | AnagramsAdvanced.java:39-62 | the mapper's loop writes, in token order, the record of every qualifying token |
| AnagramsAdvanced.MapToken | AnagramsAdvanced.java:44-58 | a token that is not a stop word and has more than one char yields the record (sorted key, cleaned word), otherwise nothing |
| AnagramsAdvanced.MapOutputSound | AnagramsAdvanced.java:46-58 | every record written is lowercase and keyed by its sorted letters and comes from a qualifying token; every qualifying token's record is written |
| AnagramsAdvanced.ShortWordWritten | AnagramsAdvanced.java:46-50 | the length guard tests the raw token, so `a1` writes the one-letter word `a` |
| AnagramsAdvanced.CompositeKeyWritable.constructor | AnagramsAdvanced.java:91-94 | the new key holds the given sorted key and word |
| AnagramsAdvanced.CompositeKeyWritable.SetWordKey | AnagramsAdvanced.java:122-124 | replaces the sorted key and keeps the word |
| AnagramsAdvanced.CompositeKeyWritable.SetWord | AnagramsAdvanced.java:130-132 | replaces the word and keeps the sorted key |
| AnagramsAdvanced.CompositeKeyWritable.ToString | AnagramsAdvanced.java:96-98 | the text form splits at the tab back into key and word when neither holds a tab |
| AnagramsAdvanced.CompositeKeyWritable.CompareTo | AnagramsAdvanced.java:110-116 | the natural order of the composite key is the sort comparator's order |
| AnagramsAdvanced.TabSeparatedSplits | AnagramsAdvanced.java:97 | key, tab and word split back at the tab into key and word |
| AnagramsAdvanced.SortCompare | AnagramsAdvanced.java:156-164 | zero exactly for equal records; otherwise the order of the keys, or of the words when the keys are equal |
| AnagramsAdvanced.GroupCompare | AnagramsAdvanced.java:177-181 | zero exactly when the two records have the same sorted key |
| AnagramsAdvanced.SortCompareAntisymmetric | AnagramsAdvanced.java:156-164 | swapping the records negates the comparison |
| AnagramsAdvanced.RecLeKeys | AnagramsAdvanced.java:156-164 | records in sort order have their keys in string order |
| AnagramsAdvanced.SortCompareTransitive | AnagramsAdvanced.java:156-164 | the sort comparator is transitive |
| AnagramsAdvanced.RecLeTotalOrder | AnagramsAdvanced.java:156-164 | the sort comparator is a total order on records |
| AnagramsAdvanced.GroupCoarsensSort | AnagramsAdvanced.java:156-181 | records equal under the sort comparator are in one group, and records of different groups are ordered alike by both comparators |
| AnagramsAdvanced.GroupContiguous | AnagramsAdvanced.java:177-181 | in a stream sorted by the composite key, the records of one key are contiguous |
| AnagramsAdvanced.GetPartition | AnagramsAdvanced.java:141-143 | the partition as written is smaller than the task count in magnitude, and negative only for a negative hash |
| AnagramsAdvanced.PartitionIgnoresWord | AnagramsAdvanced.java:141-143 | records with the same sorted key go to the same partition |
| AnagramsAdvanced.LaneOf | AnagramsAdvanced.java:141-143 | the corrected partition is a valid task number, equal to the source's for a non-negative hash |
| AnagramsAdvanced.ListenPartitionIsNegative | AnagramsAdvanced.java:142 | key `eilnst` hashes to -1303126521; as written its partition over 8 tasks is -1, the corrected one is 7 |
| AnagramsAdvanced.ListenHash | AnagramsAdvanced.java:142 | the hash of `eilnst` is -1303126521 |
| AnagramsAdvanced.Combine | AnagramsAdvanced.java:196-207 | the combiner writes the key with each distinct value, in first-occurrence order |
| AnagramsAdvanced.CombineSound | AnagramsAdvanced.java:196-207 | the combiner's records all carry the key, have no repeats, cover exactly the input's words, and follow first occurrence |
| AnagramsAdvanced.CombineIsRecordDedup | AnagramsAdvanced.java:196-207 | combining a group is de-duplicating its records |
| AnagramsAdvanced.AnReducer.constructor | AnagramsAdvanced.java:226-228 | the output holders start as count 0 and empty text |
| AnagramsAdvanced.AnReducer.Reduce | AnagramsAdvanced.java:230-258 | writes the number of distinct words and their ascending `", "`-terminated list exactly when there is more than one; the holders keep what was written, or are unchanged when nothing is |
| AnagramsAdvanced.CollectDistinct | AnagramsAdvanced.java:233-246 | the first loop collects exactly the distinct words and counts them |
| AnagramsAdvanced.RenderAscending | AnagramsAdvanced.java:247-251 | the second loop builds the ascending words, each followed by `", "` |
| AnagramsAdvanced.RenderStep | AnagramsAdvanced.java:248-250 | taking the least remaining word extends the ascending enumeration by that word |
| AnagramsAdvanced.ReduceSetProperties | AnagramsAdvanced.java:252-257 | a line is written exactly for more than one distinct word, with their number and the ascending words joined by `", "` plus a trailing `", "` |
| AnagramsAdvanced.CombinerTransparent | AnagramsAdvanced.java:196-246 | the reducer's output is the same with or without the combiner's de-duplication |
| Pipeline.Lane | AnagramsAdvanced.java:141-143 | a lane holds exactly the records whose key the partitioner sends to it |
| Pipeline.LaneWords | AnagramsAdvanced.java:141-143 | a lane carries all the words of each key it owns and none of any other key |
| Pipeline.RunLength | AnagramsAdvanced.java:177-181 | a group is the longest run of adjacent records the grouping comparator calls equal |
| Pipeline.Group | AnagramsAdvanced.java:177-181 | one `reduce` call per maximal run of adjacent records with equal sorted keys, empty exactly for an empty stream; `GroupsOfSorted` states what it yields on a sorted stream |
| Pipeline.GroupsOfSorted | AnagramsAdvanced.java:274-275 | grouping the sorted stream yields one group per key, in strictly ascending key order, each holding exactly that key's words |
| Pipeline.RunIsWholeKey | AnagramsAdvanced.java:177-181 | in a sorted stream, every record after the first run has a greater key |
| Pipeline.LaneOutput | AnagramsAdvanced.java:274-275 | one reduce task: its records sorted by the composite key, grouped by the sorted key, each group reduced; `LaneOutputByKey` states what it writes |
| Pipeline.LaneOutputByKey | AnagramsAdvanced.java:273-275 | a reduce task writes, in ascending key order, the reducer's line for each of its keys |
| Pipeline.LaneOutputSetOnly | AnagramsAdvanced.java:271-275 | a reduce task's output depends only on the set of records it receives, not on their order or repeats |
| Pipeline.CombineGroups | AnagramsAdvanced.java:196-207 | the combiner run once per group of a task's sorted records; `CombineGroupsKeepsRecords` states what it keeps |
| Pipeline.CombineGroupsKeepsRecords | AnagramsAdvanced.java:196-207 | combining every group of a stream keeps exactly the stream's set of records |
| Pipeline.JobOutput | AnagramsAdvanced.java:273-278 | the job without a combiner: one output per reduce task, each the lane the partitioner routes to it, sorted, grouped and reduced |
| Pipeline.JobOutputCombined | AnagramsAdvanced.java:271-278 | the same job with the combiner run on each task's groups before the reducer's sort and grouping; one output per task |
| Pipeline.CombinerChangesNothing | AnagramsAdvanced.java:271 | the job writes the same files with the combiner as without it |
| Pipeline.LaneOutputIsItsKeys | AnagramsAdvanced.java:273-278 | reduce task i writes the lines of exactly the keys partitioned to it, in ascending key order |
| Pipeline.JobLinesByKey | AnagramsAdvanced.java:230-278 | a line is in the job's output exactly when it is the reducer's line for some key of the map output |
| Pipeline.LineComesFromKey | AnagramsAdvanced.java:230-278 | every line a task writes belongs to some key of the map output |
| Pipeline.KeyLineIsWritten | AnagramsAdvanced.java:141-143 | a key's line is written by the task its key is partitioned to |
| Pipeline.LaneCountChangesNothing | AnagramsAdvanced.java:278 | the set of lines written does not depend on the number of reduce tasks |
| Pipeline.MappedWords | AnagramsAdvanced.java:39-62 | the words the map output carries for a key are exactly the cleaned words of the qualifying tokens with that key |
| Pipeline.EndToEnd | AnagramsAdvanced.java:39-278 | a line is written exactly when it is the reducer's line for the anagram class of some qualifying token |
| Pipeline.AnagramClassIsAnagrams | AnagramsAdvanced.java:52-56 | a token's anagram class is exactly the cleaned qualifying words with the same letters |
| Pipeline.WordsAsLongAsKey | AnagramsAdvanced.java:52-56 | every word of a key is as long as the key |
| Pipeline.ShortKeyNotWritten | AnagramsAdvanced.java:252 | a key of fewer than two letters has at most one word, so it writes no line |
| Pipeline.WrittenWordsAreLong | AnagramsAdvanced.java:46-56 | every line the job writes comes from a key of at least two letters whose words all have at least two letters |
| Pipeline.WrittenKeyIsLong | AnagramsAdvanced.java:252 | the same for any well-formed map output |

## Left out

- Tokenising: `StringTokenizer` is not modelled. Each mapper takes its line's tokens as a sequence.
- Unicode: `\p{Punct}`, `toLowerCase` and `[^a-z]` are modelled on ASCII. A non-ASCII char is never a lowercase letter here, so the model removes it. Java's `toLowerCase` maps a few non-ASCII chars into `a`-`z`: U+212A KELVIN SIGN becomes `k`, and U+0130 becomes `i` plus a combining dot. Java keeps the letter there, and the model drops the char. Locale-specific lower-casing is not modelled either.
- Text encoding: `Text` compares UTF-8 bytes and `String` compares UTF-16 units. The words that reach the sort are ASCII lowercase letters, where the two agree, so both are modelled by `String.compareTo` on `char`s.
- Hadoop runtime: job configuration, input and output files, the shuffle's networking, concurrency and `Text` object reuse are not modelled. The shuffle is modelled as a pure function (partition, sort, group, reduce per task).
- `NullWritable` values are not modelled; records carry only the composite key.
- CompositeKeyWritable: `write` and `readField` are not modelled (binary serialisation). Neither is the no-argument constructor, which leaves both fields null until they are read.
- AnagramsAdvanced.CompositeKeyWritable.GetWordKey and GetWord (`AnagramsAdvanced.java:118-120`, `:126-128`) are modelled as plain field reads. They carry no contract of their own, since a field read promises nothing more.
- AnagramFinder.Map: the stop list is a parameter, the sequence of entries of the literal at `AnagramFinder.java:21`. The literal itself is not written out.
- AnagramsAdvanced.Map: the stop test is a parameter. `SubstringStopTest(stopWords)` is the code as written and `EntryStopTest(stopWords)` the corrected test. The literal is written out only in its `of,often` excerpt.
- Java's `split` drops trailing empty strings. `TextFormat.Split` keeps them. The stop literal has no trailing comma, so the two agree on it.
- AnagramsAdvanced.AnReducer.Reduce: `count` is an unbounded integer. `IntWritable` overflow would need more than 2^31 distinct words for one key.
- ReduceAsWritten and Reduce: `size` is an unbounded integer, for the same reason.
- ToList: `HashSet` iteration order is unspecified. The model lets it be any order and proves that the sorted output does not depend on it.
- Pipeline.JobOutputCombined: Hadoop may run the combiner zero or more times on parts of a task's input, on the map side. The model runs `Combine` once per key group of each task's sorted records (`CombineGroups`). Hadoop groups a combiner's input by the sort comparator unless told otherwise; the model groups it by the sorted key, as the combiner's `Text` key type implies. `CombineGroupsKeepsRecords` and `LaneOutputSetOnly` show that any such run, or any other rewrite that keeps a task's set of records, gives the same output.
- Pipeline.Group: Hadoop's grouping compares each key with the one right before it. The model does the same with adjacent records, on the sorted stream.
- Compile errors: the source does not compile as published. The model follows the evident intent:
  - `compositeKeyWritable` for `CompositeKeyWritable` at `AnagramsAdvanced.java:58` and `:110`;
  - `wordkey` for `wordKey` at `:119`;
  - `hashcode` for `hashCode` at `:142`;
  - `cmpResult` for `compResult` at `:163`;
  - `SSortGroupComparatorr` at `:275`;
  - the `String` added to a `TreeSet<Text>` at `:242`;
  - the three-argument constructor call at `:58`, modelled as `(key, word)`;
  - `CompositeKeyWritable` (`:76`), `SSortPartitioner` (`:135`), `SSortCompKeyComparator` (`:146`) and `SSortGroupComparator` (`:167`) are non-static inner classes. So `new CompositeKeyWritable(...)` in the static mapper at `:58` has no enclosing instance, and Hadoop cannot instantiate the other three by reflection. All four are modelled as static nested classes;
  - `readField` at `:100` does not implement `Writable.readFields`, so the class is not a concrete `WritableComparable`. It is treated as the intended `readFields`, which the model leaves out with `write`;
  - the loop at `:248` iterates a `Set<Text>` as `String`. It is modelled as iterating the words held in the set, in the set's ascending order;
  - the combiner and reducer typed `Text, Text` while the map output is `(CompositeKeyWritable, NullWritable)`, modelled as key = the sorted key and values = the group's words.

## Findings

| source | as written | input that shows it | evidently intended | confidence | as-written member | corrected member |
|---|---|---|---|---|---|---|
| AnagramFinder.java:58-60 | `anagramList.add(val) && !anagramList.contains(val)` is never true, because `val` is in the set right after `add`; `size` stays 0 | values `race`, `care` give `0 care,race`, taking a fresh `Text` per value (Hadoop reuses one value object, which the model leaves out; the count is 0 either way) | count the distinct words, as the comment at :82 shows (`2 race,care`) | not executed | AnagramFinder.ReduceAsWritten, AnagramFinder.AsWrittenCountIsZero | AnagramFinder.Reduce |
| AnagramsAdvanced.java:142 | `hashCode() % numReduceTasks` is negative for a negative hash, and Hadoop rejects a negative partition | key `eilnst` (from `listen`, `silent`) hashes to -1303126521, and -1303126521 % 8 == -1 | a partition in [0, 8): clear the sign bit first, as Hadoop's `HashPartitioner` does (`eilnst` then goes to 7) | not executed | AnagramsAdvanced.GetPartition, AnagramsAdvanced.ListenPartitionIsNegative | AnagramsAdvanced.LaneOf |
| AnagramsAdvanced.java:46 | `stopWords.contains(word)` tests whether the token is a substring of the whole literal, not whether it is one of its entries | `ten` occurs inside `,often,` in the literal at :30, so it is dropped | test membership among the comma-separated entries, as `AnagramFinder.java:22-31` does | not executed | AnagramsAdvanced.SubstringTestCounterexample, AnagramsAdvanced.SubstringTestDropsTen | AnagramsAdvanced.EntryStopTest, AnagramsAdvanced.EntryImpliesSubstring |
