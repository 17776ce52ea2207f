# Hebrew reader converter, modelled in Dafny

`build_reader.py` turns word-tagged Hebrew Bible XML into static HTML reader pages:
one page per book, plus an index page. The model covers the logic between reading the
XML and writing the files:

- **`remove_hebrew_marks`** (module `Marks`). It deletes every code point from
  U+0591 to U+05C2: cantillation accents, vowel points, dagesh, meteg, maqaf, rafe,
  paseq, and the shin and sin dots. Unicode NFD decomposition comes before the deletion and NFC
  recomposition after it; both are given functions (`Normalizer`).
- **The grouping loop of `parse_xml_folder`** (module `Extract`). The folder listing
  is a sequence of `SourceFile`s. Each is either parsed into its `w` elements in
  document order or is unreadable. Only `.xml` files count, and an unreadable file
  is skipped. Each record with a non-empty `ref` is appended to that reference's
  list. The lists live in an insertion-ordered dict (`OrderedMap.OMap`), which
  models Python's `dict` and `defaultdict`.
- **`build_books`** (module `Books`). Each reference splits at its first space into
  the book and the rest, and the rest at its first colon into chapter and verse. The
  verse bucket is the verse cut at its first `!`. The parts of one reference merge
  into one entry:
  - the text is the parts' texts concatenated;
  - the vowelless form is `remove_hebrew_marks` of that text;
  - lemma, gloss and morph are each space-accumulated, stripped, and have every
    space replaced by `+`.

  The entry is appended to `books[book][chapter][bucket]`. A reference without a
  space, or whose rest has no colon, makes the unpacking raise. That is the error
  result `MissingSpace` or `MissingColon`.
- **`sortem`** (module `Sorting`). It is `sorted` with key `int(k)`: a stable sort by
  the integer value of decimal keys. A key `int()` rejects is the error
  `NotAnInteger`.
- **`build_word` and `build_output`** (module `Output`). These build the page bodies
  as strings.
  - A book page is the template with its `$body$` replaced by the book heading and
    its chapter blocks. Chapters and verses come in `sortem` order, and each
    verse's words in bucket order.
  - Its file name is `Hebrew-reader-<book>.html`.
  - The index lists one link per book, in book order.

  Writing the files is left to the caller.

Python's string operations are written out in module `Text`: `strip` (over every
character for which `str.isspace()` holds), `replace(' ', '+')`, `split(c, 1)`,
`split(c)[0]` and `join`. The loops of the source are methods (`ParseFolder`,
`AddRecords`, `MergeParts`, `BuildBooks`, `RenderVerse`, `RenderChapter`,
`RenderBook` and `BuildOutput`). Each is proved equal to a recursive specification
function, and the properties are proved as lemmas about those functions.

Behaviours of the code worth noting:

- A `w` element whose text is whitespace only keeps that text (`w_tag.text or ''`,
  build_reader.py:184). Only absent text becomes `""`.
- Lemma, gloss and morph accumulate every part's field, empty ones included
  (build_reader.py:221-223). An empty field in the middle therefore leaves `++` in
  the annotation.
- `strip()` removes all Unicode whitespace at both ends, but `replace` changes only
  the space character (build_reader.py:224).
- Filtering an NFD string need not leave it in NFD. Maqaf U+05BE and paseq U+05C0
  are in the deleted range and have combining class 0, so deleting one can leave two
  marks from outside the range in non-canonical order. So the idempotence proof,
  `RemoveHebrewMarksIdempotent`, does not use "filtering keeps NFD". It assumes three
  properties that hold of Unicode normalisation:
  - NFD after NFC is NFD;
  - NFC after NFD is NFC;
  - decomposing a filtered decomposition brings in no mark.

## Model

| member | source | states |
|---|---|---|
| Marks.FilterMarks | build_reader.py:141-144 | the substitution leaves no code point in U+0591–U+05C2 |
| Marks.FilterMarksKeeps | build_reader.py:141-144 | the filtered string is a subsequence of the input (order kept), and every code point outside the mark range keeps its number of occurrences |
| Marks.FilterMarksAppend | build_reader.py:141-144 | filtering a concatenation is the concatenation of the filtered pieces |
| Marks.FilterMarksNoMarks | build_reader.py:141-144 | a string without marks is returned unchanged |
| Marks.FilterMarksIdempotent | build_reader.py:141-144 | filtering an already filtered string changes nothing |
| Marks.RemoveHebrewMarks | build_reader.py:133-149 | definition: NFC of the mark-filtered NFD of the text |
| Marks.RemoveHebrewMarksIdempotent | build_reader.py:133-149 | given that NFD after NFC is NFD, NFC after NFD is NFC, and decomposing a filtered decomposition brings in no mark, remove_hebrew_marks applied twice equals applying it once |
| Text.StripStart | build_reader.py:224 | the result is the suffix of s after a run of whitespace, and does not start with whitespace |
| Text.StripEnd | build_reader.py:224 | the result is the prefix of s before a run of whitespace, and does not end with whitespace |
| Text.Strip | build_reader.py:224 | the result neither starts nor ends with whitespace |
| Text.StripIsSlice | build_reader.py:224 | strip returns a slice of s with only whitespace before and after it |
| Text.StripUnchanged | build_reader.py:224 | a string with no whitespace at either end is left as it is |
| Text.Join | build_reader.py:246-247 | definition: sep.join(xs), the items with sep between consecutive ones |
| Text.SplitFirst | build_reader.py:213-214 | definition: s.split(c, maxsplit=1) as the pair before and after the first c, or None when c is absent |
| Text.BeforeFirst | build_reader.py:224 | definition: s.split(c)[0], the text before the first c, or all of s |
| Text.SpacesToPlus | build_reader.py:224 | replace(' ', '+') keeps the length, leaves no space, maps each space to '+' and keeps every other character |
| Text.IndexOf | build_reader.py:213-214 | None exactly when c does not occur; otherwise the position of a c with no c before it |
| Text.IndexOfAt | build_reader.py:213-214 | a c with no c before it is the position IndexOf finds |
| Text.SplitFirstSpec | build_reader.py:213-214 | split(c, 1) gives one piece exactly when c is absent; the two pieces joined around c give back s, and the first holds no c |
| Text.SplitFirstJoin | build_reader.py:213-214 | splitting a + c + b, with no c in a, gives (a, b) |
| Text.BeforeFirstSpec | build_reader.py:224 | split(c)[0] is the longest prefix without c; what follows it, if anything, is c |
| Text.BeforeFirstJoin | build_reader.py:224 | split(c)[0] of a + c + b, with no c in a, is a |
| OrderedMap.Put | build_reader.py:191 | definition: d[k] = v; a new key goes to the end of the key order, an existing key keeps its place |
| OrderedMap.Items | build_reader.py:212 | definition: d.items(), the keys in insertion order, each with its value |
| OrderedMap.PutValid | build_reader.py:191 | assigning to a key keeps the dict well formed: each key listed once, exactly the keys present |
| Extract.PartOf | build_reader.py:191 | definition: the stored tuple (english, stronglemma, morph, text) of a record |
| Extract.Records | build_reader.py:166-194 | definition: the records of every .xml file that parses, in listing order; a file that fails to parse contributes none |
| Extract.IsXml | build_reader.py:167 | definition: filename.endswith('.xml') |
| Extract.RefOrderSpec | build_reader.py:186-191 | the result's keys are every non-empty reference of the records, each once, and nothing else |
| Extract.PartsForSnoc | build_reader.py:191 | a record is appended to the end of its own reference's list, and every other list is unchanged |
| Extract.PartsForAppend | build_reader.py:166-191 | the list of a reference over two runs of records (two files) is the first run's list, then the second's |
| Extract.PartsForFrom | build_reader.py:186-191 | every part under a reference comes from a record carrying that reference, so a record with an empty ref is in no list |
| Extract.PartsForEmpty | build_reader.py:186-191 | a reference's list is empty exactly when no record carries it |
| Extract.AppendKeepsGroups | build_reader.py:181-191 | one step of the loop body, skipping an empty ref or appending to results[ref], keeps results equal to the grouping of the records seen |
| Extract.AddRecords | build_reader.py:176-191 | after a file's w elements, results is the grouping of all records seen so far |
| Extract.ParseFolder | build_reader.py:163-196 | the result has no empty key, lists the references in first-occurrence order across the .xml files that parse, and holds for each the parts of its records in encounter order |
| Books.ParseRef | build_reader.py:213-214 | definition: split at the first space, then the rest at the first colon; MissingSpace or MissingColon when the unpacking would raise |
| Books.ParseRefErrors | build_reader.py:213-214 | no space gives MissingSpace; otherwise parsing succeeds exactly when the rest after the first space has a colon, and fails with MissingColon |
| Books.ParseRefParts | build_reader.py:213-214 | a parsed reference is book + ' ' + chapter + ':' + verse, where the book has no space and the chapter no colon |
| Books.ParseRefJoin | build_reader.py:213-214 | book + " " + chapter + ":" + verse parses back to exactly those parts when the book has no space and the chapter no colon |
| Books.VerseBucket | build_reader.py:224 | definition: v.split('!')[0] |
| Books.VerseBucketSpec | build_reader.py:224 | the bucket is the verse up to its first '!', or the whole verse |
| Books.SubVersesShareBucket | build_reader.py:213-224 | references differing only in the sub-verse marker after '!' parse to the same book, chapter and bucket |
| Books.GenesisSubVerses | build_reader.py:213-224 | "Gen 1:1!1" and "Gen 1:1!2" both go to book "Gen", chapter "1", bucket "1" |
| Books.Texts | build_reader.py:219-220 | definition: the accumulator word += text over the parts, in order |
| Books.Spaced | build_reader.py:216-223 | definition: the accumulator acc += ' ' + f over the fields, in order |
| Books.TextsAppend | build_reader.py:219-220 | the merged text of two runs of parts is the first run's text, then the second's |
| Books.MergedInOrder | build_reader.py:219-224 | parts p1 then p2 merge to full text p1.text + p2.text and vowelless form remove_hebrew_marks(p1.text + p2.text) |
| Books.Annotation | build_reader.py:216-224 | definition: the accumulator " " + f1 + " " + f2 + ..., stripped, with spaces replaced by '+' |
| Books.Merged | build_reader.py:215-224 | definition: the entry (remove_hebrew_marks(text), text, lemma, gloss, morph annotations) of one reference's parts |
| Books.AnnotationShape | build_reader.py:216-224 | an annotation has no space, is as long as the stripped accumulator, and both ends are non-whitespace characters of the fields, never a '+' made from a space |
| Books.SpacedIsJoin | build_reader.py:216-223 | the accumulator " " + f1 + " " + f2 + ... is " " + " ".join(fields) |
| Books.AnnotationOfJoin | build_reader.py:216-224 | when " ".join(fields) has no whitespace at either end, the annotation is that join with every space made '+' |
| Books.SpacesToPlusJoin | build_reader.py:224 | fields without spaces, space-joined, with spaces replaced, are the '+'-join of the fields |
| Books.AnnotationOfTokens | build_reader.py:216-224 | non-empty fields without whitespace give the annotation "+".join(fields) |
| Books.MergeParts | build_reader.py:215-224 | the inner loop's accumulators yield the merged entry of the parts |
| Books.Insert | build_reader.py:224 | definition: books[b][c][v].append(e), creating each missing level at the end of its order |
| Books.InsertValid | build_reader.py:224 | appending to books[b][c][v] keeps all three dict levels well formed |
| Books.InsertLookup | build_reader.py:224 | appending adds the entry at the end of bucket (b, c, v) and leaves every other bucket unchanged |
| Books.InsertKeys | build_reader.py:224 | a book, chapter or verse key is added only when absent at its level, at the end of that level's order |
| Books.Build | build_reader.py:209-226 | definition: the (ref, parts) pairs processed in order, each inserted under its parsed book, chapter and bucket; the first unparsable ref stops the run |
| Books.BuildValid | build_reader.py:209-226 | a successful build_books yields well-formed dicts at every level |
| Books.BuildAllParse | build_reader.py:212-214 | build_books succeeds exactly when every reference parses, stated recursively |
| Books.BuildSucceeds | build_reader.py:212-214 | build_books succeeds exactly when every reference in the input parses |
| Books.FirstBad | build_reader.py:212-214 | the first reference that does not parse: every reference before it parses |
| Books.BuildFirstError | build_reader.py:212-214 | a failing build_books reports the error of the first reference that does not parse |
| Books.BuildErrorPersists | build_reader.py:212-214 | once a prefix of the references fails, the whole run fails with the same error |
| Books.BuildLookup | build_reader.py:212-224 | each bucket of the result holds exactly the merged entries of the references that parse to it, in dict order |
| Books.BuildBookOrder | build_reader.py:212-224 | the books of the result are ordered by first occurrence of a reference to them |
| Books.ChapterOrder | build_reader.py:212-224 | definition: the chapters of one book among the parsing references, in order of first occurrence |
| Books.VerseOrder | build_reader.py:212-224 | definition: the verse buckets of one chapter among the parsing references, in order of first occurrence |
| Books.InsertChapterKeys | build_reader.py:224 | the append lists a chapter under its book only when it is not listed yet, at the end |
| Books.InsertVerseKeys | build_reader.py:224 | the append lists a verse bucket under its chapter only when it is not listed yet, at the end |
| Books.BuildChapterOrder | build_reader.py:212-224 | the chapters of each book of the result are ordered by first occurrence of a reference to them |
| Books.BuildVerseOrder | build_reader.py:212-224 | the verse buckets of each chapter of the result are ordered by first occurrence of a reference to them |
| Books.VerseOrderEntries | build_reader.py:212-224 | a verse bucket is listed exactly when some reference files an entry in it |
| Books.ChapterOrderVerses | build_reader.py:212-224 | a chapter is listed exactly when it has a verse bucket |
| Books.BuildKeysNonEmpty | build_reader.py:212-224 | in the result no verse bucket is empty and no chapter is without verses: a verse key exists exactly when some reference files an entry under it, and a chapter key exactly when it has a verse key |
| Books.BuildBooks | build_reader.py:209-226 | the loop over data.items() computes exactly the specified build, error included |
| Sorting.ParseInt | build_reader.py:231 | definition: int(k) on a non-empty ASCII digit string is Value(k), else NotAnInteger(k) |
| Sorting.ValueLeadingZero | build_reader.py:231 | a leading zero does not change a key's value |
| Sorting.ValueBound | build_reader.py:231 | an n-digit key is below 10^n, and at least 10^(n-1) when it does not start with '0', so "10" sorts after "9" |
| Sorting.FirstNonInteger | build_reader.py:231 | None exactly when every key is an integer; otherwise the first key, in list order, that int() rejects |
| Sorting.Sortem | build_reader.py:230-231 | succeeds exactly when every key is an integer; otherwise fails on the first non-integer key |
| Sorting.InsertionSort | build_reader.py:231 | keeps the length and the integer keys; sorted order and stability are InsertionSortCorrect |
| Sorting.InsertionSortCorrect | build_reader.py:230-231 | the sort orders by ascending key value and keeps, for each value, the input order of its elements |
| Sorting.SortemSortsStably | build_reader.py:230-231 | sortem's result has the input's length, is ascending by integer key, and is stable for equal keys |
| Sorting.SortemPermutes | build_reader.py:230-231 | sortem's result is a permutation of its input |
| Sorting.SortemStable | build_reader.py:230-231 | on integer keys sortem succeeds with its input ascending, permuted, and in input order within each key value |
| Sorting.SortemNumericOrder | build_reader.py:230-231 | keys "2", "10", "1" come out as 1, 2, 10 |
| Output.WordHtml | build_reader.py:198-206 | definition: build_word's markup, the vowelless form shown and full, gloss, lemma, morph as hidden data |
| Output.ReadWordHtml | build_reader.py:198-206 | build_word is lossless: with no '<' in any field, the entry is read back from its markup, with full, gloss, lemma and morph in that order |
| Output.WordHtmls | build_reader.py:244-245 | vdata holds the markup of each word, in bucket order |
| Output.VerseHtml | build_reader.py:246 | definition: the verse number span, the word markups joined by newlines, and the closing div |
| Output.VerseHtmls | build_reader.py:241-246 | cdata holds the block of each verse, in the given order |
| Output.ChapterHtml | build_reader.py:247 | definition: the heading "<h1>book chapter</h1>", a newline, and the verse blocks joined by newlines |
| Output.ChapterBlock | build_reader.py:239-247 | definition: the chapter heading and the blocks of its verses in sortem order, or sortem's error |
| Output.ChapterBlockSpec | build_reader.py:239-247 | a chapter block is made exactly when its verse keys are integers; its verses are then ascending, stable for each key value, and a permutation of the chapter's verses |
| Output.SortedChaptersSame | build_reader.py:238 | the sorted chapters are exactly the book's (chapter, verses) pairs |
| Output.Fill | build_reader.py:250-251 | definition: TEMPLATE.replace('$body$', body), the template's text before and after its one placeholder around the body |
| Output.PageName | build_reader.py:248 | definition: "Hebrew-reader-" + book + ".html" |
| Output.BookPage | build_reader.py:237-250 | definition: the template filled with the book heading and its chapter blocks in sortem order; the first failing chapter stops it |
| Output.BookPageSucceeds | build_reader.py:236-250 | a book page is made exactly when all its chapter and verse keys are integers |
| Output.BookPageShape | build_reader.py:237-250 | a book page is named "Hebrew-reader-" + book + ".html", and holds the book heading, then its chapter blocks in ascending, stable chapter order, a permutation of its chapters |
| Output.IndexMap | build_reader.py:248-249 | definition: index[book] = name for each book in turn |
| Output.IndexMapValid | build_reader.py:248-249 | the index dict is well formed |
| Output.IndexMapSpec | build_reader.py:248-249 | for distinct books, the index lists them in order, each mapped to its page name |
| Output.IndexLink | build_reader.py:253 | definition: "<li><a href='" + name + "'>" + book + "</a></li>" |
| Output.IndexLinks | build_reader.py:252-253 | one link per index entry, in insertion order |
| Output.IndexPage | build_reader.py:251-254 | definition: the template filled with the index heading and one link per index entry |
| Output.Render | build_reader.py:234-254 | definition: every book's page in book order, the first failing book stopping the run, then the index page |
| Output.RenderSucceeds | build_reader.py:234-254 | build_output succeeds exactly when every chapter and verse key of every book is an integer |
| Output.RenderFirstError | build_reader.py:236-250 | a failing build_output reports the error of the first book, in book order, whose page fails; every earlier book's page is made |
| Output.RenderPages | build_reader.py:236-250 | a successful run makes one page per book, in book order, each that book's page and named after it |
| Output.RenderIndex | build_reader.py:248-254 | the index page holds one link per book, in book order, each linking the book to its page |
| Output.RenderVerse | build_reader.py:242-246 | the vdata loop builds the verse block |
| Output.RenderChapter | build_reader.py:239-247 | the cdata loop over sortem(verses) builds the chapter block, error included |
| Output.RenderBook | build_reader.py:237-250 | the bdata loop over sortem(chapters) builds the book page, the first failing chapter stopping it |
| Output.BuildOutput | build_reader.py:234-254 | the loop over books builds every page and the index, the first failing book stopping it |

## Left out

- XML parsing (`ET.parse`, `findall('.//w')`) and `os.listdir` are library and
  filesystem calls. The model takes the listing as a sequence of files, each with
  its parsed `w` elements or marked unreadable. The listing order is whatever the
  caller gives.
- The message printed for a file that fails to parse (build_reader.py:193-194) is
  not modelled. The file is just skipped.
- NFD and NFC normalisation (build_reader.py:135, 147) are Unicode library code.
  They are parameters with no properties assumed, except where a lemma names them
  as hypotheses.
- The contents of `TEMPLATE` (CSS and JavaScript) are a static asset. The model
  keeps only its split at the single `$body$` placeholder (build_reader.py:71).
- `Path(...).write_text` and the debug `print(verses)` (build_reader.py:240, 250-251)
  are output I/O. `build_output` returns the pages and the index instead.
- Output.BuildOutput: does not model that the source writes each book's page before
  rendering the next. A run that fails on a later book has already written the
  earlier pages; the model returns only the error.
- Sorting.ParseInt: accepts only non-empty ASCII digit strings. Python's `int()`
  also accepts signs, surrounding whitespace, underscores and non-ASCII digits.
  Chapter and verse keys are plain digit strings.
- `main` holds a hard-coded path and code after `exit()`. It is not part of this
  model.
