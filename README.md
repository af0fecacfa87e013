# Chat-log merge, modelled in Dafny

This project models `mergeLogs` in `merge.py`. The function merges two chat-log
transcripts into a third one. Each transcript is an HTML-like document
(`HTML` > `HEAD`, `BODY` > `div` messages), and each message `div` carries a
`timestamp` attribute written as `%Y-%m-%d %H:%M:%S`. `mergeLogs` works as follows:

1. It parses both files into element trees.
2. It takes the messages of each: the `div` children of a `BODY` child of the root.
3. It concatenates the from-file's messages and then the to-file's.
4. It sorts that list with Python's stable `list.sort`, keyed by `time.strptime` of the timestamp.
5. It writes a new document. The root is `html`. It holds a copy of the from-file's `HEAD`, then a `BODY`. That `BODY` has the from-file's `BODY` attributes and the sorted messages.

The model follows the code. It uses a tree-based merge of the whole message list, and on equal
timestamps the from-file's messages come first. A streaming, line-by-line design in which the
destination file's messages win ties is not what `merge.py` does, so it is not modelled.

Files:

- `wrappers.dfy`: `Option` and `Result`.
- `timestamps.dfy`: the sort key.
  - `Stamp` is the six compared fields of a `struct_time`, ordered lexicographically by `Less`.
  - `ParseTimestamp` is `strptime` with the fixed layout. It accepts a text only if it is in the
    layout and names a real calendar instant.
  - `FormatTimestamp` writes the canonical text, and the round trip is proved in both directions.
- `elements.dfy`: an ElementTree element as a value. `Find` is `find(tag)`, which returns the first
  child with that tag. `Messages` is `findall('./BODY/div')`.
- `stable_sort.dfy`: a stable sort of keyed items.
  - `SortSpec` is the reference definition: insertion, where a new item goes after every item
    whose key is not greater.
  - It is proved sorted, a permutation and stable. Stability is stated per key: the items with key
    `k` keep their order. It is also proved to be the only sequence with those properties, so any
    stable sort yields it, `list.sort` included.
  - `InsertionSort` sorts an array in place and is proved equal to `SortSpec`.
- `log_merge.dfy`: the merge.
  - `KeyOf` is the key lambda, failing like `KeyError` and `ValueError`.
  - `KeyAll` computes every key before anything is compared, as `list.sort` does.
  - `Merge` is the whole outcome: the new document, or the first exception raised.
  - `MergeLogs` is the imperative procedure proved equal to `Merge`.
  - The lemmas state what the written document holds.

Errors are values of `MergeError`. They are checked in the order the code would raise them:

1. a missing `HEAD` (line 26);
2. the first message in from ++ to order with no `timestamp` attribute or with one `strptime` rejects (line 32);
3. a missing `BODY` (line 34).

On any error the merge yields no document, so nothing is written.

## Model

| member | source | states |
|---|---|---|
| Timestamps.LessIrreflexive | merge.py:32 | no key sorts before itself |
| Timestamps.LessTransitive | merge.py:32 | the key order is transitive |
| Timestamps.LessTrichotomy | merge.py:32 | any two keys are equal or one sorts before the other, so the sort order is total |
| Timestamps.DaysInMonth | merge.py:32 | a month has 28 to 31 days, and 29 exactly for February of a Gregorian leap year |
| Timestamps.DecimalValue | merge.py:32 | the value of an n-digit field is below 10^n |
| Timestamps.Decimal | merge.py:32 | a zero-padded field has exactly the requested width and only digits |
| Timestamps.DecimalValueOfDecimal | merge.py:32 | reading a zero-padded number gives the number back |
| Timestamps.DecimalOfDecimalValue | merge.py:32 | padding the value of a digit field gives the field back |
| Timestamps.ParseTimestamp | merge.py:32 | a text is accepted only if it is in the `%Y-%m-%d %H:%M:%S` layout and the stamp is a valid date and time |
| Timestamps.FormatTimestamp | merge.py:32 | the canonical text of a valid stamp is in the layout |
| Timestamps.ParseFormat | merge.py:32 | every valid stamp is read back from its canonical text |
| Timestamps.FormatParse | merge.py:32 | an accepted text is the canonical text of the stamp read from it, so different texts never give the same key |
| Timestamps.ParseAccepts | merge.py:32 | a text is accepted if and only if it is the canonical text of some valid stamp |
| Elements.FirstWithTag | merge.py:26 | there is no result exactly when no child has the tag; otherwise the result is the index of the first such child |
| Elements.Find | merge.py:26 | `find(tag)` is None exactly when no child has the tag; otherwise it is the earliest such child |
| Elements.WithTagCount | merge.py:28-29 | the children with a tag are exactly those children, each as often as it occurs |
| Elements.WithTagAppend | merge.py:28-29 | filtering by tag keeps document order, because it distributes over concatenation |
| Elements.DivsOfBodiesMembers | merge.py:28-29 | an element is collected if and only if it is a `div` that is a direct child of some `BODY` in the list |
| Elements.DivsOfBodiesAppend | merge.py:28-29 | the messages of a list of children are those of its first part followed by those of the rest, so document order is kept |
| Elements.MessagesMembers | merge.py:28-29 | `findall('./BODY/div')` holds exactly the `div` children of the `BODY` children of the root, and no deeper `div` |
| StableSort.InsertPermutes | merge.py:32 | inserting adds exactly the new item to the multiset of items |
| StableSort.SortSpecPermutes | merge.py:32 | the sort is a permutation of its input |
| StableSort.SortSpecSorted | merge.py:32 | the sort's keys never decrease |
| StableSort.SortSpecStable | merge.py:32 | for every key, the items with that key appear in the same order as in the input |
| StableSort.SortedUnique | merge.py:32 | two sorted sequences with the same items per key, in the same order, are equal |
| StableSort.SortSpecCharacterized | merge.py:32 | a sequence is the sort of the input if and only if it is sorted and keeps every key's items in input order |
| StableSort.SortSpecFixesSorted | merge.py:32 | sorting leaves a sequence unchanged if and only if it is already sorted |
| StableSort.SortSpecItems | merge.py:32 | the sorted items are a permutation of the input items |
| StableSort.SortSpecKeyedBy | merge.py:32 | every item keeps the key the key function gives it |
| StableSort.SortSpecInKeyOrder | merge.py:32 | the sorted items all have keys, and the keys never decrease |
| StableSort.SortSpecItemsWithKey | merge.py:32 | for every key, the sorted items with that key are the input items with that key, in input order |
| StableSort.SortSpecSwapsPair | merge.py:32 | two items out of key order come out swapped, whichever file they came from |
| StableSort.SortSpecKeepsKeyOrder | merge.py:32 | items already in key order are left as they are |
| StableSort.KeyAllBy | merge.py:32 | keys are computed for every item in order. The result is a failure exactly when some key fails, and it then gives the first failing position and its failure; on success each item carries the key computed for it |
| StableSort.InsertStep | merge.py:32 | one pass of the in-place insertion puts the next element into the sorted prefix and leaves the rest of the array alone |
| StableSort.InsertionSort | merge.py:32 | the in-place sort leaves the array equal to the reference stable sort of its old contents: sorted and a permutation |
| LogMerge.KeyOfMeaning | merge.py:32 | the key fails with `KeyError` exactly when `timestamp` is missing. It succeeds exactly when the attribute parses, and the key is then a valid stamp whose canonical text is the attribute |
| LogMerge.KeyAll | merge.py:32 | keys are computed for the whole list in order. The result is a failure exactly when some message has no key, and it then names the first one and why; on success the list and keys correspond one to one |
| LogMerge.Merge | merge.py:10-37 | the merge fails with a missing HEAD exactly when the from-file has none. It succeeds exactly when HEAD and BODY exist and every message has a key; a bad timestamp names the first offender. On success the document is `html` holding the from-file's HEAD and a BODY with the from-file's BODY attributes |
| LogMerge.MergeLogs | merge.py:10-37 | the procedure, which collects, concatenates, keys, sorts an array in place and assembles, gives exactly the outcome `Merge` describes |
| LogMerge.MergedMessagesAre | merge.py:31-35 | on success, the output BODY holds the stable sort of the from-file's messages followed by the to-file's |
| LogMerge.MergeKeepsEveryMessage | merge.py:31-35 | every message of both files is in the output as often as in the inputs, and nothing else is |
| LogMerge.MergeSorted | merge.py:32-35 | the output messages all have timestamps, and their timestamps never decrease |
| LogMerge.MergeTies | merge.py:31-35 | for every timestamp, the output messages with it are the from-file's messages with it, in document order, then the to-file's, in document order |
| LogMerge.MergeOfOrderedLogs | merge.py:31-35 | when from ++ to is already in timestamp order, the output holds exactly that sequence |
| LogMerge.MergeUsesOnlyToMessages | merge.py:23-35 | nothing of the to-file but its messages reaches the output: not its HEAD and not its BODY attributes |

## Left out

- The command-line driver, `main` and `test` (`merge.py:39-82`) are not part of this model: directory walking, copying unpaired files, creating directories and argument handling.
- File input and output are not modelled: opening the two files (line 15) and writing the output with `ElementTree.write` (line 37). The documents are parameters, and the written document is the result. The third argument to `open` at line 11 is passed as a buffering size. The model takes the evident intent, which is to read both files as UTF-8 text.
- XML parsing is not modelled: `fromstring` and the `'</BODY></HTML>'` appended before it (lines 22-23). The model starts from the parsed root element of each file. A text that fails to parse is therefore not among the modelled errors.
- Element identity is not modelled. `copy()` of the HEAD and of each message (lines 26 and 35) becomes a value copy. The output tree is built as a value instead of by `append`, `SubElement` and `extend` on a mutable root.
- Element `text` and `tail` of the new `html` and `BODY` are unset in the source. They are the empty string in the model.
- Timestamps.ParseTimestamp: does not accept everything `time.strptime` accepts. The model accepts only the zero-padded ASCII form of the layout. It rejects the one-digit fields, whitespace runs and non-ASCII digits that the `re`-based parser of `strptime` would take. On such texts the model reports a malformed timestamp where the source would sort the message.
- The weekday, day-of-year and DST fields of `struct_time` are left out. They follow from the six calendar fields and never decide a comparison.
- The Python exceptions (`AttributeError`, `KeyError`, `ValueError`) are modelled as the values of `MergeError`. `BadTimestamp` carries the position of the first offending message, which the source only implies through its traceback.
- Python's `list.sort` (Timsort) is modelled by an insertion sort. `StableSort.SortSpecCharacterized` proves that every stable sort gives the same order, so the result is the one `list.sort` gives.
