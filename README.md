# SpamDetector hash table and scoring, modelled in Dafny

The system is a small C++ spam detector with two parts.

The first part is `HashMap<KeyT, ValueT>` in `HashMap.hpp`, a hash table that keeps a separate chain per bucket. It holds:
- an array of `_capacity` buckets, each a vector of (key, value) pairs;
- `_size`;
- a cached `_load_factor`.

An insert that takes the load factor above 0.75 doubles the capacity. An insert that lands exactly on 0.75 halves it, because `insert` resizes at 0.75 or more but `_reSize` doubles only above 0.75. An erase that takes the load factor to 0.25 or below halves the capacity. Its `const_iterator` walks the buckets in index order, and the entries of each bucket in stored order.

The second part is `SpamDetector` in `SpamDetector.cpp`. It loads phrase/score rows into such a table. It then counts how often each lower-cased phrase occurs in the lower-cased message, sums score × count, and prints SPAM when the sum reaches a threshold given on the command line.

The model has five modules:
- `Bits` (`Bits.dfy`): powers of two, and the proof that `hash & (capacity - 1)` is `hash % capacity` when the capacity is a power of two.
- `Tables` (`Tables.dfy`): the table's state as a value, `Table(buckets, size, capacity, lf)`. It has one pure transition function per operation, the invariant `Valid` and the lemmas about both. They cover:
  - unique keys;
  - every entry in the bucket of its key;
  - size equal to the number of entries;
  - capacity a power of two, and 1 only while the table is empty.
  The cached load factor is kept as the exact pair (size, capacity) it was computed from.
- `Cursors` (`Cursors.dfy`): iterator positions as `(bucket, index)` values. It defines `++` on them, and proves that n steps from `begin` reach the n-th entry of the buckets' concatenation.
- `HashMaps` (`HashMaps.dfy`): `class HashMap` over an `array<seq<Entry>>` and `class ConstIterator`. Each method is proved against the transition function in `Tables`: its new `State()` is that function of the old one.
- `SpamScoring` (`Spam.dfy`):
  - digit strings, `std::stoi` and lower-casing;
  - the non-overlapping phrase search;
  - row validation and the blank-line rule;
  - the score and the verdict;
  - `class SpamDetector`, whose methods mutate the table, the message and the running score.

`std::hash<KeyT>` is a field `hash: K -> nat` of every map, fixed at construction. `ValueT()` is a field `dflt`. The tokenizer that splits a CSV line is a parameter `tokenize: string -> seq<string>`.

## Model

| member | source | states |
|---|---|---|
| Bits.MaskIsMod | HashMap.hpp:597-600 | for a power-of-two capacity c, the bitwise AND of x with c - 1 is x mod c |
| HashMaps.HashMap.HashIndex | HashMap.hpp:597-600 | `_hash(k)` is the bucket `hash(k) mod capacity`, below the capacity |
| Tables.EmptyValid | HashMap.hpp:49-51 | the default table of 16 empty buckets satisfies the invariant and binds no key |
| HashMaps.HashMap.constructor | HashMap.hpp:49-51 | the default constructor yields the valid empty table with load factor 0/16 |
| Tables.InsertSpec | HashMap.hpp:133-151 | insert of a present key answers false and leaves the table unchanged; otherwise it answers true, adds exactly (k, v) to the entries, binds k to v, keeps every other binding, grows size by one and keeps the invariant |
| Tables.InsertValid | HashMap.hpp:133-151 | insert keeps the table invariant |
| Tables.InsertLookup | HashMap.hpp:133-151 | after insert only a previously absent key changes its binding |
| Tables.InsertResize | HashMap.hpp:140-145 | a new key sets the cached load factor to (size + 1)/capacity; the capacity doubles iff 4(size + 1) > 3·capacity, halves iff 4(size + 1) = 3·capacity, and otherwise stays |
| Tables.InsertAtThreeQuarters | HashMap.hpp:605-616 | reaching exactly 0.75 on insert halves the capacity, and the cached load factor then differs from size/capacity |
| HashMaps.HashMap.Insert | HashMap.hpp:133-151 | the answer and the new state are those of the insert transition, and the invariant is kept |
| HashMaps.HashMap.AddNew | HashMap.hpp:140-150 | for an absent key: size and load factor updated, the resize when due, and the entry appended to its bucket, which gives exactly the insert transition's state |
| Tables.ResizeSpec | HashMap.hpp:605-631 | `_reSize` doubles iff the cached load factor is above 0.75 and otherwise halves; it keeps the multiset of entries, puts each in the bucket of its key, keeps the old iteration order within each new bucket, and leaves size and the cached load factor alone |
| Tables.ResizeFacts | HashMap.hpp:617-630 | rehashing keeps the bucket invariant, the entries and every binding |
| Tables.RehashSnoc | HashMap.hpp:622-626 | one more entry re-appended goes to the end of the bucket of its key |
| HashMaps.HashMap.ReSize | HashMap.hpp:605-631 | builds a fresh array whose contents are the resize transition of the old state |
| HashMaps.HashMap.RehashInto | HashMap.hpp:620-627 | appending one old bucket's entries to the new array gives the rehash of the entries so far plus that bucket |
| HashMaps.HashMap.SearchBucket | HashMap.hpp:161-167 | the scan finds a position iff the bucket holds k, and the entry there has key k |
| HashMaps.HashMap.ContainsKey | HashMap.hpp:158-169 | true iff the table binds k |
| HashMaps.HashMap.At | HashMap.hpp:176-187 | Ok iff k is bound, and then its bound value; otherwise the "key not found" error |
| HashMaps.HashMap.BucketIndex | HashMap.hpp:261-268 | Ok iff k is bound, and then hash(k) mod capacity, the bucket that holds k; otherwise an error |
| HashMaps.HashMap.BucketSize | HashMap.hpp:250-254 | Ok iff k is bound, and then the length of bucket hash(k) mod capacity |
| HashMaps.HashMap.IsEmpty | HashMap.hpp:122-125 | true iff no key is bound |
| Tables.LookupNoneIffEmpty | HashMap.hpp:122-125 | no key is bound exactly when the table holds no entry |
| Tables.EraseSpec | HashMap.hpp:211-234 | erase of an absent key answers false and changes nothing; otherwise it answers true, removes exactly the entry of k, unbinds k, keeps every other binding, decrements size and keeps the invariant |
| Tables.EraseSteps | HashMap.hpp:217-232 | for a key found at index i of its bucket, erase cuts out exactly that entry, sets size and load factor, and resizes when the load factor is at most 0.25 |
| Tables.EraseResize | HashMap.hpp:228-232 | erase resizes iff 4(size - 1) <= capacity, and then it halves |
| Tables.EraseBucket | HashMap.hpp:219-226 | within the bucket, erase removes only the entry of k and keeps the order of the rest |
| HashMaps.HashMap.Erase | HashMap.hpp:211-234 | the answer and the new state are those of the erase transition, and the invariant is kept |
| Tables.ClearSpec | HashMap.hpp:273-284 | clear keeps the capacity, leaves size 0 and no binding, keeps the invariant, and changes nothing on an empty table |
| HashMaps.HashMap.Clear | HashMap.hpp:273-284 | the new state is the clear transition of the old one |
| Tables.SubscriptSpec | HashMap.hpp:508-519 | non-const `operator[]` on a bound key changes nothing and yields its value; on a missing key it inserts the default value and yields it |
| Tables.SubscriptValid | HashMap.hpp:508-519 | `operator[]` keeps the invariant and leaves k bound |
| Tables.SetValueValid | HashMap.hpp:72 | assigning through the returned reference rebinds only k and keeps the invariant |
| HashMaps.HashMap.Subscript | HashMap.hpp:508-519 | the new state and the value are those of the `operator[]` transition |
| HashMaps.HashMap.SubscriptAssign | HashMap.hpp:72 | `operator[](k) = v` leaves the state of the subscript-then-assign transition |
| Tables.BulkLastWins | HashMap.hpp:58-75 | after the bulk constructor's loop each key is bound to the value at its last occurrence among the keys, and any other key keeps its old binding |
| Tables.BulkValid | HashMap.hpp:67-74 | the bulk constructor's loop keeps the invariant |
| Tables.BulkStepValid | HashMap.hpp:70-73 | one step of the loop keeps the invariant, binds k to v and keeps every other binding |
| HashMaps.HashMap.FromVectors | HashMap.hpp:58-75 | fails with the arity error iff the vectors differ in length; otherwise a fresh valid map whose state is the loop's result |
| Tables.InsertAllValid | HashMap.hpp:85-88 | inserting a sequence of entries keeps the invariant |
| Tables.InsertAllLookup | HashMap.hpp:85-88 | re-inserting entries keeps the old bindings and adds, for each new key, the first value the entries give it |
| Tables.CopyLookup | HashMap.hpp:81-89 | the copy binds every key exactly as the original does |
| HashMaps.HashMap.Copy | HashMap.hpp:81-89 | the copy constructor's state is the default table with the original's entries inserted in iteration order, and it is valid |
| HashMaps.HashMap.InsertRange | HashMap.hpp:85-88 | the loop from begin to end inserts every entry of the other map in iteration order |
| HashMaps.HashMap.CopyEntry | HashMap.hpp:85-88 | one loop turn inserts the n-th entry and moves the iterator to the (n + 1)-th position |
| HashMaps.HashMap.Assign | HashMap.hpp:577-584 | `operator=` on an already-built by-value parameter, empty or not: this map takes the parameter's state and the parameter takes this map's old state |
| HashMaps.HashMap.AssignCopy | HashMap.hpp:577-584 | `a = b` for a named map b: the parameter is copy-constructed from b and swapped in, so this map holds the default table with b's entries inserted in iteration order |
| HashMaps.HashMap.Swap | HashMap.hpp:579-582 | the four fields are exchanged between the two maps |
| Tables.EqualLookup | HashMap.hpp:544-560 | equal tables bind the same keys to the same values |
| HashMaps.HashMap.Equals | HashMap.hpp:544-560 | true iff size, capacity and cached load factor agree and the entries agree in iteration order |
| HashMaps.HashMap.SameIteration | HashMap.hpp:550-559 | walking both maps from begin in step finds no difference iff their entry sequences are equal |
| HashMaps.HashMap.CompareFrom | HashMap.hpp:552-558 | the loop returns true iff the two entry sequences are equal |
| HashMaps.HashMap.CompareAndAdvance | HashMap.hpp:552-557 | one turn compares the n-th entries, and when they agree moves both iterators one step |
| HashMaps.HashMap.NotEquals | HashMap.hpp:567-570 | true iff the maps are not equal |
| Cursors.BeginAt | HashMap.hpp:455-468 | `begin` is the position of entry 0 |
| HashMaps.HashMap.Begin | HashMap.hpp:455-468 | returns a fresh iterator of this map at entry 0 |
| HashMaps.HashMap.End | HashMap.hpp:474-484 | returns a fresh iterator of this map at the position reached after size steps |
| HashMaps.ConstIterator.constructor | HashMap.hpp:303-309 | skips the empty buckets at the front, which gives the `begin` position |
| HashMaps.ConstIterator.Next | HashMap.hpp:333-357 | prefix `++` moves to the next position of the iteration order |
| HashMaps.ConstIterator.Deref | HashMap.hpp:315-318 | `*` yields the entry at the cursor |
| HashMaps.ConstIterator.Equals | HashMap.hpp:392-396 | `==` holds iff the two cursors (bucket index, index in bucket) agree; the maps are not compared |
| HashMaps.ConstIterator.NotEquals | HashMap.hpp:403-407 | `!=` is the negation of `==` |
| Cursors.NextNonEmptySpec | HashMap.hpp:345-354 | the search finds the first non-empty bucket from a given index, or none |
| Cursors.LastNonEmptySpec | HashMap.hpp:474-484 | the last non-empty bucket below a bound, or none |
| Cursors.Step | HashMap.hpp:333-357 | from the n-th position one `++` reaches the (n + 1)-th; the n-th position shows the n-th entry and is not the end |
| Cursors.AdvanceLast | HashMap.hpp:342-355 | `++` on the last entry moves past the last non-empty bucket and keeps the index in bucket |
| Cursors.AtEnd | HashMap.hpp:392-396 | the iterator after n steps equals the end iterator iff n is the size |
| Cursors.IterationOrder | HashMap.hpp:303-357 | the i-th position shows the i-th entry of the buckets in index order, and positions i and n are equal iff i = n, so iteration visits each entry once |
| Cursors.Iterate | HashMap.hpp:474-484 | the position reached after n steps from begin |
| SpamScoring.IsNum | SpamDetector.cpp:221-229 | true iff the string is non-empty and every character is a decimal digit |
| SpamScoring.Stoi | SpamDetector.cpp:123 | a digit string converts iff its value fits a 32-bit int, and then to its decimal value; otherwise the out-of-range failure |
| SpamScoring.ValueZeroIff | SpamDetector.cpp:253-254 | a digit string has value 0 iff all its digits are '0' |
| SpamScoring.CheckThreshold | SpamDetector.cpp:247-258 | the threshold is accepted iff it is a digit string with value in (0, INT_MAX], and then it is that value; a too-large value is out of range, anything else invalid |
| SpamScoring.ThresholdNonZeroDigit | SpamDetector.cpp:253-254 | an in-range digit string is positive iff one of its digits is not '0' |
| SpamScoring.Lower | SpamDetector.cpp:110 | keeps the length and lower-cases each character |
| SpamScoring.LowerIdempotent | SpamDetector.cpp:110-114 | lower-casing twice is lower-casing once |
| SpamScoring.FindFrom | SpamDetector.cpp:116 | `find` returns a position at or after `from` where the phrase occurs |
| SpamScoring.FindFromSpec | SpamDetector.cpp:121 | `find` returns the leftmost occurrence at or after `from`, and none iff there is none |
| SpamScoring.MatchesSound | SpamDetector.cpp:118-122 | every counted position is an occurrence at or after the start, and successive ones are at least the phrase length apart |
| SpamScoring.MatchesCover | SpamDetector.cpp:118-122 | every occurrence at or after the start overlaps a counted one |
| SpamScoring.NoMatchesIff | SpamDetector.cpp:116-118 | the count is zero iff the phrase occurs nowhere in the message |
| SpamScoring.MatchesBound | SpamDetector.cpp:118-122 | count × phrase length is at most the length of the message scanned |
| SpamScoring.MatchesStep | SpamDetector.cpp:118-121 | each found occurrence adds one to the count and resumes at its start plus the phrase length |
| SpamScoring.CountOccurrences | SpamDetector.cpp:115-122 | the `times` loop ends with the number of non-overlapping leftmost occurrences of the phrase |
| SpamScoring.AddRowSpec | SpamDetector.cpp:49-54 | a field list is accepted iff it has two non-empty fields and the second is a number, else the invalid-row failure; an accepted row keeps the invariant and leaves only valid rows; a repeated phrase keeps its first score; other phrases are untouched |
| SpamScoring.LoadOkIff | SpamDetector.cpp:72-81 | loading succeeds iff the first line is not empty while the first-line flag is set, and every non-empty line is an accepted row |
| SpamScoring.LoadNonEmpty | SpamDetector.cpp:61-84 | a successful load of at least one line, starting from an empty table with the flag set, leaves at least one phrase in the table |
| SpamScoring.LoadSkipsBlank | SpamDetector.cpp:76-79 | after the first line, empty lines have no effect: loading them gives the same result as loading the non-empty lines only |
| SpamScoring.SpamDetector.constructor | SpamDetector.cpp:30-34 | keeps threshold, points and message; the table, default-constructed and then assigned a default-constructed temporary, is empty and valid; the first-line flag is set |
| SpamScoring.SpamDetector.FromFileToHash | SpamDetector.cpp:40-55 | the result and the new table are those of adding the tokenized row |
| SpamScoring.SpamDetector.LoadDataBase | SpamDetector.cpp:61-84 | the result, the new table and the first-line flag are those of loading the lines; the message, threshold and score are unchanged |
| SpamScoring.SpamDetector.LoadMessage | SpamDetector.cpp:90-100 | the message becomes the old message followed by each line and a newline, in order |
| SpamScoring.JoinedAppend | SpamDetector.cpp:92-99 | the text appended for two runs of lines is the text for the first run followed by the text for the second |
| SpamScoring.TotalAppend | SpamDetector.cpp:202-205 | accumulating a concatenation adds the two partial sums |
| SpamScoring.TotalPermutation | SpamDetector.cpp:111-125 | the total does not depend on the order in which the table is iterated |
| SpamScoring.TotalNext | SpamDetector.cpp:123-124 | one more row adds its score times its occurrence count |
| SpamScoring.SpamDetector.CalculateSpam | SpamDetector.cpp:107-127 | the message is lower-cased; the run succeeds iff every score fits an int; then the score is the sum over all rows of score × occurrences of the lower-cased phrase, starting from 0; the table, threshold and first-line flag are unchanged and the detector stays valid |
| SpamScoring.SpamDetector.ScoreAll | SpamDetector.cpp:111-125 | the loop over the table adds every row's contribution, or fails at the first score out of range |
| SpamScoring.SpamDetector.ScoreEntry | SpamDetector.cpp:113-124 | one loop turn adds the n-th row's score times its count and moves the iterator, failing iff that score is out of range |
| SpamScoring.Classify | SpamDetector.cpp:134-141 | SPAM iff the score is at least the threshold |
| SpamScoring.ClassifyMonotone | SpamDetector.cpp:134 | a higher score or a lower threshold never turns SPAM into NOT_SPAM |
| SpamScoring.SpamDetector.Dedection | SpamDetector.cpp:132-142 | the verdict is SPAM iff the current score is at least the threshold |
| SpamScoring.Detect | SpamDetector.cpp:279-293 | construct with main's message `" "`, load the database, load the message, score and decide: a rejected database fails with its load failure; otherwise the run fails iff some score exceeds IntMax, and else the verdict is SPAM iff the sum over the loaded rows, scored in the lower-cased `" "` followed by each message line and a newline, reaches the command-line threshold |

## Left out

- File and console I/O are not modelled in `main`: nothing of the argument count, the file open/peek/eof shortcuts, stdout or stderr. `LoadDataBase` takes the lines `getline` would return before end of file, and the message is a field. `LoadMessage` and `Detect` take the message file as the lines `getline` returns before end of file, including the final empty line read when the file ends in a newline. `Detect` starts from main's message `" "`, and main's early return on an empty database file is its requirement of at least one line.
- `boost::tokenizer` with `escaped_list_separator` is the parameter `tokenize`; only the validation of the fields it yields is modelled. The `escaped_list_error` it throws on a trailing backslash or an unknown escape is not modelled. In the source, main's `catch (...)` then exits with failure and prints nothing. A `tokenize` whose fields `RowOk` rejects can stand in for that line, but it yields `InvalidRow` instead of the silent failure.
- `std::hash` is an arbitrary function fixed per map.
- `::tolower` is ASCII lower-casing; other characters are unchanged.
- `SpamScoring.Stoi` models `std::stoi` on digit strings only, with the 32-bit range check. Leading whitespace and signs cannot reach it, since `isNum` comes first.
- `SpamScoring.SpamDetector.ScoreEntry` and `SpamScoring.SpamDetector.CalculateSpam` use unbounded integers for `points * times` and for the sum. The source's `int` product can overflow, and the model does not round its `double` sum.
- `CountOccurrences` uses an unbounded position. The source keeps `indexInMsg` in an `unsigned int`, which truncates for messages of 4 GiB or more.
- `HashMaps.HashMap` keeps `capacity` and `size` as unbounded `nat`, where the source has 32-bit `int`. The model does not capture the overflow of `_capacity *= 2` once the capacity reaches 2^30, nor the truncation of `int new_size = keys.size()` in the bulk constructor for vectors of 2^31 or more elements.
- `_threshold` and `_badPoints` are `int`, not `double`, because they only ever hold integers.
- `HashMaps.ConstIterator.constructor`, `HashMaps.HashMap.Begin`, `HashMaps.HashMap.End`, `HashMaps.HashMap.Copy` and `HashMaps.HashMap.AssignCopy` require a non-empty map. On an empty map the source's iterator constructor reads past the array.
- `HashMaps.HashMap.Equals` requires that at least one map is non-empty or that the capacities differ, because otherwise the source calls `begin()` on an empty table.
- `SpamScoring.SpamDetector.CalculateSpam` requires a non-empty table for the same reason.
- Postfix `operator++(int)` is not modelled: it is unused and reads the vector capacity of bucket 0.
- Const `operator[]` is not modelled: it returns a reference to a temporary.
- The const and non-const `at` are one method, `At`.
- The iterator getters and setters are not modelled. `size()`, `capacity()` and `getLoadFactor()` are the fields themselves. The getters and setters of `SpamDetector` are inlined where they are used.
- The destructor, `new[]`/`delete[]`, `const_cast` and `hashExceptions::what()` are not modelled. Exceptions are failure results (`Result`, `Outcome`).
- Iterators invalidated by a mutation of their map are not modelled. Every loop here iterates a map it does not change.
- `SpamScoring.SpamDetector.CalculateSpam` relies on the invariant that every stored row is valid. That holds because rows enter the table only through `fromFileToHash`. `Earned` scores any other row as 0, but no such row can occur.
- `end()` is computed once before each loop, not on every comparison. The table is not changed inside these loops, so the result is the same.
