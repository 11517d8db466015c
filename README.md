# Inverted index: a Dafny model

This project models the core of a small Python inverted-index library:

- reading a tab-separated document collection into a dictionary from id to content (`load_documents`, without the file handling);
- building the index from it (`build_inverted_index`);
- comparing indexes (`InvertedIndex.__eq__`);
- answering conjunctive queries (`InvertedIndex.query`);
- the binary dump and reload of the command-line copy, up to the point where the code stops working (`struct_dump`, `load_from_binary`).

Modules, one per file:

| file | module | models |
|---|---|---|
| `results.dfy` | `Results` | `Option` and `Result`, standing for a value or the exception Python raises |
| `ordered_maps.dfy` | `OrderedMaps` | Python's `dict`: a map plus its keys in first-insertion order |
| `text.dfy` | `Text` | `str.lower()`, `str.strip()` and `re.split(r"\W+", s)` over ASCII |
| `records.dfy` | `Records` | one line's parse, and the loop that fills the document dictionary |
| `inverted_index.dfy` | `InvertedIndexes` | the index, its equality, and the nested building loops |
| `query.dfy` | `Queries` | the query loop exactly as written, and a corrected conjunctive query |
| `binary.dfy` | `Framing` | the 4-byte length prefix, the header slice, and the count/flatten loops |

The library file and the command-line file hold identical `query` and `build_inverted_index` code, so each is modelled once.
The two `load_documents` copies differ only in the command-line copy's `strip()`, which is the `stripContent` flag of `Records.LoadDocuments`.

The building, loading, query and flattening functions work by updating a dictionary or list in a loop, and are modelled as methods with `while` loops.

- `InvertedIndexes.Build` and `IndexDocument` are proved equal to the recursive functions `BuildPrefix` and `AddWords`.
- `Records.LoadDocuments` is proved equal to `Collect`.
- `Framing.Flatten` is proved equal to `Counts` and `Postings`.
- `Queries.Query` is proved to realise `QuerySpec`: it returns the exact list while the running result is still a copied list, and a duplicate-free listing of the set after an intersection.
- `Queries.QueryConjunctive` and `Queries.ListOfSet` are proved against sets: the intersection `Conjunction`, and the set being listed.

The properties are proved about those functions as lemmas.

Some behaviours of the code that a reader may not expect, all modelled as the code has them:

- Splitting keeps empty pieces, so a text that begins or ends with a separator, a line terminator included, is filed under the word `""`.
- Posting lists follow the order in which documents are visited, not ascending id order. `InvertedIndexes.BuildAscending` shows that ascending visiting order gives ascending lists.
- Query words are not lower-cased, although document texts are.
- After an intersection, the query result is in Python set order, not sorted.
- An empty running intersection is replaced by the next word's list (see "## Findings").
- The binary writer never writes a payload. Line 78 of the command-line file raises before any id is written, and the reader returns nothing.

## Model

| member | source | states |
|---|---|---|
| `OrderedMaps.Put` | task_Polumestny_Andrey_inverted_index_lib.py:82 | assigning to a key sets its value and leaves every other key's value alone; a new key is appended to the iteration order, and an existing key keeps its position |
| `OrderedMaps.PutValid` | task_Polumestny_Andrey_inverted_index_lib.py:82 | assignment keeps every key listed exactly once |
| `Text.Lower` | task_Polumestny_Andrey_inverted_index_lib.py:70 | the result has the same length; each upper-case ASCII letter becomes its lower-case letter and every other character is unchanged |
| `Text.Strip` | task_Polumestny_Andrey_inverted_index_cli.py:131 | the result is the slice of the input after its leading whitespace; all dropped trailing characters are whitespace; a non-empty result neither starts nor ends with whitespace; the result is empty exactly when the input is all whitespace |
| `Text.Split` | task_Polumestny_Andrey_inverted_index_lib.py:80 | splitting always yields at least one piece (the empty string splits into `[""]`) |
| `Text.SplitPieces` | task_Polumestny_Andrey_inverted_index_lib.py:80 | every piece is all word characters; no inner piece is empty; the first piece is empty exactly when the text is empty or starts with a separator |
| `Text.SplitSingle` | task_Polumestny_Andrey_inverted_index_lib.py:80 | there is exactly one piece exactly when the text contains no separator |
| `Text.SplitLast` | task_Polumestny_Andrey_inverted_index_lib.py:80 | the last piece is empty exactly when the text is empty or ends with a separator |
| `Text.SplitConcat` | task_Polumestny_Andrey_inverted_index_lib.py:80 | the pieces joined together are exactly the text's word characters in order, so splitting only removes separators |
| `Text.SplitJoin` | task_Polumestny_Andrey_inverted_index_lib.py:80 | the text is the pieces joined by its maximal separator runs (`Separators`); every run is non-empty and has no word character, and there is one more piece than there are runs |
| `Text.SplitUnique` | task_Polumestny_Andrey_inverted_index_lib.py:80 | any way to write the text as word-character pieces, with no empty piece except the first and last, joined by non-empty separator runs, is exactly `Split`'s |
| `Records.ParseDecimal` | task_Polumestny_Andrey_inverted_index_lib.py:71 | `int()` succeeds exactly on non-empty strings of decimal digits, and then gives a non-negative value |
| `Records.ValueLeadingZero` | task_Polumestny_Andrey_inverted_index_lib.py:71 | a leading zero does not change the value, so `int("012") == 12`; with `ParseShowDecimal` this gives the value of every digit string |
| `Records.ParseShowDecimal` | task_Polumestny_Andrey_inverted_index_lib.py:71 | `int(str(n)) == n` for every natural number |
| `Records.ParseRecord` | task_Polumestny_Andrey_inverted_index_lib.py:70-71 | a line with no tab fails with the unpacking error; a line with a tab whose lower-cased text before the first tab (`IdPart`) is not a decimal number fails with the `int()` error; every other line succeeds, with the id `int(IdPart)` and the content everything after the first tab |
| `Records.ParseRecordOfFormatted` | task_Polumestny_Andrey_inverted_index_lib.py:70-72 | the line `str(id) + "\t" + content` parses to that id and the lower-cased content, including any further tabs in the content |
| `Records.ParseStrippedRecord` | task_Polumestny_Andrey_inverted_index_cli.py:129-131 | fails exactly when the library parse fails, with the same error; on success it has the same id, and its content is the library content stripped, with no whitespace at either end |
| `Records.NewlineContent` | task_Polumestny_Andrey_inverted_index_lib.py:70-72 | for a line ending in a newline, the content the library keeps is non-empty and its last piece after splitting is the empty word, so the newline files the document under `''` |
| `Records.StrippedContentLast` | task_Polumestny_Andrey_inverted_index_cli.py:129-131 | the stripped content never ends in a newline, and its last piece is empty exactly when it is empty or ends in a non-word character that is not whitespace, so whitespace no longer yields an empty trailing word |
| `Records.LoadDocuments` | task_Polumestny_Andrey_inverted_index_lib.py:67-73 | the loop equals `Collect` of the per-line parses: the first failing line's error, or the dictionary built by storing each parsed line in order with `Put` |
| `Records.LoadSucceeds` | task_Polumestny_Andrey_inverted_index_lib.py:69-72 | in either copy of the loader, loading succeeds exactly when every line has a tab with a decimal id before it |
| `Records.CollectValid` | task_Polumestny_Andrey_inverted_index_lib.py:67-72 | a successful load gives a well-formed dictionary |
| `Records.CollectStopsAtError` | task_Polumestny_Andrey_inverted_index_lib.py:69-71 | the load fails with the error of the first line that does not parse, whatever follows it |
| `Records.CollectSucceeds` | task_Polumestny_Andrey_inverted_index_lib.py:69-72 | the load succeeds exactly when every line parses |
| `Records.CollectHasId` | task_Polumestny_Andrey_inverted_index_lib.py:72 | after a successful load, every line's id is a key |
| `Records.CollectOnlyIds` | task_Polumestny_Andrey_inverted_index_lib.py:72 | after a successful load, every key is the id of some line |
| `Records.CollectLastWins` | task_Polumestny_Andrey_inverted_index_lib.py:72 | a repeated id holds the content of the last line carrying it, so later lines overwrite earlier ones |
| `InvertedIndexes.Equal` | task_Polumestny_Andrey_inverted_index_lib.py:19-20 | two indexes are equal exactly when they have the same words and each word has the same list in the same order; key order does not matter |
| `InvertedIndexes.Build` | task_Polumestny_Andrey_inverted_index_lib.py:76-86 | the outer loop over the documents in dictionary order ends with `BuildPrefix` of all the documents, where `BuildPrefix(n)` runs `AddWords` (lines 80-84, one `AddPosting` per piece) over each of the first `n` documents' split texts in turn |
| `InvertedIndexes.IndexDocument` | task_Polumestny_Andrey_inverted_index_lib.py:80-84 | the inner loop over one text's pieces ends with `AddWords` of its split text: for each piece in turn, a new word starts the list `[key]`, and a known word gets `key` appended unless it already holds it (`AddPosting`) |
| `InvertedIndexes.AddPostingInv` | task_Polumestny_Andrey_inverted_index_lib.py:81-84 | one inner step keeps the building invariant: a well-formed dictionary; non-empty lists; membership exactly for documents seen with the word; lists ordered by visiting position |
| `InvertedIndexes.AddWordsInv` | task_Polumestny_Andrey_inverted_index_lib.py:80-84 | the inner loop keeps the building invariant |
| `InvertedIndexes.BuildPrefixInv` | task_Polumestny_Andrey_inverted_index_lib.py:79-84 | after the first `n` documents the index satisfies the building invariant for exactly those documents |
| `InvertedIndexes.BuildMembership` | task_Polumestny_Andrey_inverted_index_lib.py:79-84 | document `k` is in `index[w]` exactly when `k` is a document and `w` is a piece of its split text |
| `InvertedIndexes.BuildEmptyWord` | task_Polumestny_Andrey_inverted_index_lib.py:80-82 | a document whose text is empty or ends with a separator is listed under the empty word |
| `InvertedIndexes.BuildWellFormed` | task_Polumestny_Andrey_inverted_index_lib.py:78-84 | the built index is a well-formed dictionary and no word has an empty list |
| `InvertedIndexes.BuildVisitOrder` | task_Polumestny_Andrey_inverted_index_lib.py:79-84 | each list is strictly ordered by the visiting position of its documents, so no id appears twice in one list |
| `InvertedIndexes.BuildAscending` | task_Polumestny_Andrey_inverted_index_lib.py:79-84 | when documents are visited in ascending id order, every list is strictly increasing |
| `InvertedIndexes.BuildTwice` | test_Polumestny_Andrey_inverted_index_lib.py:60-67 | building twice from the same documents gives indexes that `__eq__` finds equal |
| `Queries.ListOfSet` | task_Polumestny_Andrey_inverted_index_lib.py:36 | `list(s)` holds each element of the set exactly once |
| `Queries.Query` | task_Polumestny_Andrey_inverted_index_lib.py:25-37 | the loop realises `QuerySpec`, the recursive `QueryFrom` started from `[]`. At each word, `Lookup` gives `[]` for an absent word and the whole result is `[]`. An empty running result takes the word's list, and otherwise it is intersected with the list as a set. The loop returns the exact list while it is still a copied list, or a duplicate-free listing of the set after an intersection; an empty query gives `[]` |
| `Queries.QueryMissing` | task_Polumestny_Andrey_inverted_index_lib.py:29-31 | if any query word is absent or maps to an empty list, the result is `[]`, whatever came before |
| `Queries.QuerySingle` | task_Polumestny_Andrey_inverted_index_lib.py:32-34 | a one-word query returns that word's list unchanged, in order |
| `Queries.QueryPair` | task_Polumestny_Andrey_inverted_index_lib.py:33-36 | a two-word query with both words present returns the intersection of their lists as a set |
| `Queries.QueryWithinLast` | task_Polumestny_Andrey_inverted_index_lib.py:33-36 | the result is always contained in the last word's list |
| `Queries.QueryFromConjunction` | task_Polumestny_Andrey_inverted_index_lib.py:33-36 | if the running result holds the conjunction of the words seen so far, and no intersection the loop carries on from is empty, the loop ends with the conjunction of all the words; a missing word's empty list ends it with the empty conjunction |
| `Queries.QueryIsConjunction` | task_Polumestny_Andrey_inverted_index_lib.py:33-36 | when no proper prefix of the query has an empty intersection (`NoEmptyIntermediate`), the result is the intersection of all the words' lists, which may itself be empty |
| `Queries.QueryQuirk` | task_Polumestny_Andrey_inverted_index_lib.py:33-36 | with lists `a: [1]`, `b: [1]`, `c: [2]`, the query `a c b` returns `[1]` although no document contains all three words |
| `Queries.QueryConjunctive` | task_Polumestny_Andrey_inverted_index_lib.py:25-37 | corrected query: `[]` for an empty query, a single word's own list, and otherwise exactly `Conjunction`, the set of ids in every word's list |
| `Framing.UnpackPackLE` | task_Polumestny_Andrey_inverted_index_cli.py:76 | decoding the `k` little-endian bytes of a number below 256^k gives the number back |
| `Framing.PackUnpackLE` | task_Polumestny_Andrey_inverted_index_cli.py:108 | encoding what the bytes decode to gives the bytes back, so the 4-byte encoding is one-to-one |
| `Framing.PackU32` | task_Polumestny_Andrey_inverted_index_cli.py:76 | `pack('I', n)` is 4 bytes that decode to `n` |
| `Framing.UnpackU32` | task_Polumestny_Andrey_inverted_index_cli.py:108 | `unpack('I', b)` gives a value below 2^32 whose packing is `b` |
| `Framing.PackBytes` | task_Polumestny_Andrey_inverted_index_cli.py:77 | `pack(f'{n}s', s)` is exactly `n` bytes: `s` cut short, or padded with zero bytes |
| `Framing.Slice` | task_Polumestny_Andrey_inverted_index_cli.py:108-111 | Python slicing clamps both bounds to the data's length, and a non-empty result is the data's run starting at `lo` |
| `Framing.Frame` | task_Polumestny_Andrey_inverted_index_cli.py:72-77 | fails exactly when the header cannot be counted in 4 bytes; otherwise the output is `4 + len(header)` bytes, the first 4 decode to `len(header)`, and the rest is the header |
| `Framing.ReadHeader` | task_Polumestny_Andrey_inverted_index_cli.py:108-111 | fails exactly when the data is under 4 bytes, or when fewer than `meta` bytes follow the prefix; otherwise returns `data[4:4+meta]` |
| `Framing.FrameRoundTrip` | task_Polumestny_Andrey_inverted_index_cli.py:108-111 | reading back the bytes written for any header under 2^32 bytes, followed by anything, gives the header |
| `Framing.CountsShape` | task_Polumestny_Andrey_inverted_index_cli.py:65-66 | `pairs` lists the index's words in iteration order, and `pairs[w]` is the length of `w`'s list |
| `Framing.PostingsTotal` | task_Polumestny_Andrey_inverted_index_cli.py:62-68 | the flattened id list is as long as the sum of the counts in `pairs` |
| `Framing.Flatten` | task_Polumestny_Andrey_inverted_index_cli.py:62-68 | the loops end with `pairs == Counts` (the index's words in order, each with its list's length) and `documents_id == Postings` (the lists concatenated in that order), and `len(documents_id)` is `Total`, the sum of the counts |
| `Framing.StructDump` | task_Polumestny_Andrey_inverted_index_cli.py:62-77 | the bytes written are the frame of the encoded `pairs` |
| `Framing.DumpReadsBack` | task_Polumestny_Andrey_inverted_index_cli.py:69-77 | reading back a dumped index returns exactly the encoded `pairs` header |

## Findings

| source | as written | input that shows it | evidently intended | confidence | as-written member | corrected member |
|---|---|---|---|---|---|---|
| task_Polumestny_Andrey_inverted_index_lib.py:33-36 | `if not relevant_documents` is also true when an intersection has come out empty, and then the next word's list replaces the result | index `{"a": [1], "b": [1], "c": [2]}`, query `["a", "c", "b"]` returns `[1]` | the intersection of all the lists, here `[]` | high that the result is wrong for this input; not executed | `Queries.QueryQuirk` | `Queries.QueryConjunctive` |

`Queries.Query` models the loop as written, with the quirk. `Queries.QueryConjunctive` is the corrected loop: after the first word it always intersects.

## Left out

- File I/O is not modelled: opening and iterating files, `Path` resolution against `BASE_DIR`, and the `FileNotFoundError` when the documents file is missing. The loader receives the file's lines as a sequence, each with its terminator if it had one; the binary reader receives the file's bytes.
- JSON encoding and decoding (`json.dump`, `json.load`, `json.dumps`, `dump`/`load` with the JSON strategy) are left out. The binary header's bytes are the `encode` parameter of `Framing.StructDump`, applied to `pairs`.
- Line 78 of the command-line file, `pack('H', )`, raises `struct.error`, so no posting ids reach the file. `Framing.StructDump` returns the bytes written before that line. The commented-out payload layouts are not modelled.
- `load_from_binary` and `load` return `None`. `Framing.ReadHeader` returns the header the reader unpacks, and its printing and `sys.getsizeof` are left out.
- The argparse command line, its callbacks, `print` calls and stderr debug output are not modelled, and neither are `__str__` and the method dispatch of `dump`/`load`.
- `Text.Lower`, `Text.Strip` and `Text.Split`: only ASCII is modelled. Letters outside ASCII are not treated as word characters, and Unicode case mapping and Unicode whitespace are not modelled.
- `Records.ParseDecimal`: only strings of decimal digits are accepted. Python's `int()` also accepts a sign, surrounding whitespace and `_` separators, and those inputs count as errors here.
- `Queries.Query`: after an intersection, the order of the returned list is left open. It is CPython's set iteration order, which depends on hashing, so the contract gives only the set and the absence of duplicates.
- `Queries.Query`: `int(document)` is the identity, because posting lists hold integers here. The string ids of an index reloaded from JSON are not modelled.
- `Framing.PackU32` and `Framing.UnpackU32`: native `struct` format `'I'` is taken as 4 bytes, little-endian. The platform's native byte order and the unused `calcsize('I')` are left out.
- Python integers are unbounded, like Dafny's `int`, so no width is modelled for ids or counts. The only bound is the 4-byte length field.
