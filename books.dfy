/** build_books: parsing each reference, merging its parts into one word entry and
    filing that entry under book, chapter and verse. */
module Books {
  import opened Wrappers
  import opened Text
  import opened OrderedMap
  import opened Marks
  import opened Extract

  /** The tuple appended to a verse: (vowelless, full text, lemma, gloss, morph). */
  datatype Entry = Entry(vowelless: string, full: string, strongLemma: string, gloss: string, morph: string)

  /** A reference split into its book, its chapter and its raw verse (sub-verse marker included). */
  datatype Ref = Ref(book: string, chapter: string, verse: string)

  /** book, rest = ref.split(' ', maxsplit=1); c, v = rest.split(':', maxsplit=1).
      An unpacking that finds only one piece raises; that is an Err here. */
  function ParseRef(ref: string): Result<Ref>
  {
    match SplitFirst(ref, ' ')
    case None => Err(MissingSpace(ref))
    case Some(bookRest) =>
      match SplitFirst(bookRest.1, ':')
      case None => Err(MissingColon(ref))
      case Some(cv) => Ok(Ref(bookRest.0, cv.0, cv.1))
  }

  /** A reference without a space is a MissingSpace error; one whose text after the
      first space has no colon is a MissingColon error; every other reference parses. */
  lemma {:induction false} ParseRefErrors(ref: string)
    ensures ' ' !in ref ==> ParseRef(ref) == Err(MissingSpace(ref))
    ensures ' ' in ref ==>
      && SplitFirst(ref, ' ').Some?
      && (ParseRef(ref).Ok? <==> ':' in SplitFirst(ref, ' ').value.1)
      && (ParseRef(ref).Err? ==> ParseRef(ref).error == MissingColon(ref))
  {
    SplitFirstSpec(ref, ' ');
    if ' ' in ref {
      SplitFirstSpec(SplitFirst(ref, ' ').value.1, ':');
    }
  }

  /** A parsed reference is its book, a space, its chapter, a colon and its verse, where
      the book is the text before the first space and the chapter the text from there
      to the next colon. */
  lemma {:induction false} ParseRefParts(ref: string)
    requires ParseRef(ref).Ok?
    ensures var p := ParseRef(ref).value;
      ref == p.book + [' '] + p.chapter + [':'] + p.verse && ' ' !in p.book && ':' !in p.chapter
  {
    var sp := SplitFirst(ref, ' ').value;
    SplitFirstSpec(ref, ' ');
    var cv := SplitFirst(sp.1, ':').value;
    SplitFirstSpec(sp.1, ':');
    assert ParseRef(ref).value == Ref(sp.0, cv.0, cv.1);
    JoinAround(sp.0, ' ', cv.0, ':', cv.1);
  }

  lemma JoinAround(a: string, x: char, b: string, y: char, c: string)
    ensures a + [x] + (b + [y] + c) == a + [x] + b + [y] + c
  {
  }


  /** The converse: a reference written as book, space, chapter, colon, verse parses back
      into exactly those parts when the book has no space and the chapter no colon. */
  lemma ParseRefJoin(book: string, chapter: string, verse: string)
    requires ' ' !in book && ':' !in chapter
    ensures ParseRef(book + " " + chapter + ":" + verse) == Ok(Ref(book, chapter, verse))
  {
    assert book + " " + chapter + ":" + verse == book + [' '] + (chapter + [':'] + verse);
    SplitFirstJoin(book, ' ', chapter + [':'] + verse);
    SplitFirstJoin(chapter, ':', verse);
  }

  /** v.split('!')[0]: the verse bucket drops any sub-verse marker. */
  function VerseBucket(verse: string): string
  {
    BeforeFirst(verse, '!')
  }

  /** The bucket is the verse up to its first '!', or the whole verse when it has none. */
  lemma VerseBucketSpec(verse: string)
    ensures var r := VerseBucket(verse);
      |r| <= |verse| && '!' !in r && r == verse[..|r|] && (|r| == |verse| || verse[|r|] == '!')
  {
    BeforeFirstSpec(verse, '!');
  }

  /** References differing only in their sub-verse markers share book, chapter and bucket. */
  lemma SubVersesShareBucket(book: string, chapter: string, verse: string, m1: string, m2: string)
    requires ' ' !in book && ':' !in chapter && '!' !in verse
    ensures var r1 := ParseRef(book + " " + chapter + ":" + verse + "!" + m1);
            var r2 := ParseRef(book + " " + chapter + ":" + verse + "!" + m2);
            && r1.Ok? && r2.Ok?
            && r1.value.book == r2.value.book == book
            && r1.value.chapter == r2.value.chapter == chapter
            && VerseBucket(r1.value.verse) == VerseBucket(r2.value.verse) == verse
  {
    assert ParseRef(book + " " + chapter + ":" + verse + "!" + m1) == Ok(Ref(book, chapter, verse + "!" + m1)) by {
      assert book + " " + chapter + ":" + verse + "!" + m1 == book + " " + chapter + ":" + (verse + "!" + m1);
      ParseRefJoin(book, chapter, verse + "!" + m1);
    }
    assert ParseRef(book + " " + chapter + ":" + verse + "!" + m2) == Ok(Ref(book, chapter, verse + "!" + m2)) by {
      assert book + " " + chapter + ":" + verse + "!" + m2 == book + " " + chapter + ":" + (verse + "!" + m2);
      ParseRefJoin(book, chapter, verse + "!" + m2);
    }
    BeforeFirstJoin(verse, '!', m1);
    BeforeFirstJoin(verse, '!', m2);
  }

  /** "Gen 1:1!1" and "Gen 1:1!2" both go to book "Gen", chapter "1", verse bucket "1". */
  lemma GenesisSubVerses(r1: string, r2: string)
    requires r1 == "Gen 1:1!1" && r2 == "Gen 1:1!2"
    ensures ParseRef(r1).Ok? && ParseRef(r2).Ok?
    ensures ParseRef(r1).value.book == ParseRef(r2).value.book == "Gen"
    ensures ParseRef(r1).value.chapter == ParseRef(r2).value.chapter == "1"
    ensures VerseBucket(ParseRef(r1).value.verse) == VerseBucket(ParseRef(r2).value.verse) == "1"
  {
    assert r1 == "Gen" + " " + "1" + ":" + "1" + "!" + "1";
    assert r2 == "Gen" + " " + "1" + ":" + "1" + "!" + "2";
    SubVersesShareBucket("Gen", "1", "1", "1", "2");
  }

  // ---------------------------------------------------------------------------
  // Merging the parts of one reference

  /** The concatenation of the parts' text, in order. */
  function Texts(parts: seq<Part>): string
  {
    if parts == [] then "" else Texts(parts[..|parts| - 1]) + parts[|parts| - 1].text
  }

  /** Texts splits over a split of the parts: the text of the earlier parts comes first. */
  lemma {:induction false} TextsAppend(a: seq<Part>, b: seq<Part>)
    ensures Texts(a + b) == Texts(a) + Texts(b)
  {
    if b != [] {
      assert (a + b)[..|a + b| - 1] == a + b[..|b| - 1];
      TextsAppend(a, b[..|b| - 1]);
    } else {
      assert a + b == a;
    }
  }

  /** Parts sharing one reference merge in encounter order: a part with text "\u05D0"
      followed by one with text "\u05D1" make the word "\u05D0\u05D1", never the reverse. */
  lemma MergedInOrder(u: Normalizer, p1: Part, p2: Part)
    ensures Merged(u, [p1, p2]).full == p1.text + p2.text
    ensures Merged(u, [p1, p2]).vowelless == RemoveHebrewMarks(u, p1.text + p2.text)
  {
    TextsAppend([p1], [p2]);
    assert [p1] + [p2] == [p1, p2];
    assert [p1][..0] == [];
    assert Texts([p1]) == p1.text;
  }

  function Lemmas(parts: seq<Part>): seq<string>
  {
    seq(|parts|, i requires 0 <= i < |parts| => parts[i].strongLemma)
  }

  function Glosses(parts: seq<Part>): seq<string>
  {
    seq(|parts|, i requires 0 <= i < |parts| => parts[i].english)
  }

  function Morphs(parts: seq<Part>): seq<string>
  {
    seq(|parts|, i requires 0 <= i < |parts| => parts[i].morph)
  }

  /** The accumulator after `acc += ' ' + f` for each field f: " " + f1 + " " + f2 + ... */
  function Spaced(fields: seq<string>): string
  {
    if fields == [] then "" else Spaced(fields[..|fields| - 1]) + " " + fields[|fields| - 1]
  }

  /** acc.strip().replace(' ', '+') */
  function Annotation(fields: seq<string>): string
  {
    SpacesToPlus(Strip(Spaced(fields)))
  }

  /** An annotation holds no space, and neither of its ends is whitespace or a '+' made
      from a space: both ends are characters of the fields themselves. */
  lemma AnnotationShape(fields: seq<string>)
    ensures var r := Annotation(fields); var t := Strip(Spaced(fields));
      && ' ' !in r && |r| == |t|
      && (r == [] || (!IsSpace(r[0]) && !IsSpace(r[|r| - 1]) && r[0] == t[0] && r[|r| - 1] == t[|t| - 1]))
  {
  }

  /** The merged entry of one reference: mark-filtered text, full text, and the three
      annotations. */
  function Merged(u: Normalizer, parts: seq<Part>): Entry
  {
    var word := Texts(parts);
    Entry(RemoveHebrewMarks(u, word), word, Annotation(Lemmas(parts)), Annotation(Glosses(parts)), Annotation(Morphs(parts)))
  }

  lemma {:induction false} SpacedIsJoin(fields: seq<string>)
    requires fields != []
    ensures Spaced(fields) == " " + Join(fields, " ")
  {
    var init := fields[..|fields| - 1];
    var last := fields[|fields| - 1];
    assert Spaced(fields) == Spaced(init) + " " + last;
    if |fields| == 1 {
      assert Spaced(init) == "";
      assert Join(fields, " ") == last;
    } else {
      SpacedIsJoin(init);
      var j := Join(init, " ");
      assert Join(fields, " ") == j + " " + last;
      assert (" " + j) + " " + last == " " + (j + " " + last);
    }
  }

  lemma {:induction false} JoinEnds(fields: seq<string>, sep: string)
    requires fields != [] && forall i :: 0 <= i < |fields| ==> fields[i] != []
    ensures var j := Join(fields, sep);
      j != [] && j[0] == fields[0][0] && j[|j| - 1] == fields[|fields| - 1][|fields[|fields| - 1]| - 1]
  {
    if |fields| > 2 {
      JoinEnds(fields[..|fields| - 1], sep);
    }
  }

  /** When the space-joined fields have no whitespace at either end, the annotation is
      the space-joined fields with every space written as '+'; so a gloss such as
      "in the beginning" becomes "in+the+beginning". */
  lemma AnnotationOfJoin(fields: seq<string>)
    requires fields != []
    requires var j := Join(fields, " "); j == [] || (!IsSpace(j[0]) && !IsSpace(j[|j| - 1]))
    ensures Annotation(fields) == SpacesToPlus(Join(fields, " "))
  {
    var j := Join(fields, " ");
    SpacedIsJoin(fields);
    var s := " " + j;
    assert s[0] == ' ' && s[1..] == j;
    assert StripStart(s) == StripStart(j) == j;
    StripUnchanged(j);
  }

  lemma {:induction false} SpacesToPlusAppend(a: string, b: string)
    ensures SpacesToPlus(a + b) == SpacesToPlus(a) + SpacesToPlus(b)
  {
    if a == [] {
      assert a + b == b;
    } else {
      assert (a + b)[1..] == a[1..] + b;
      SpacesToPlusAppend(a[1..], b);
    }
  }

  lemma {:induction false} SpacesToPlusJoin(fields: seq<string>)
    requires forall i :: 0 <= i < |fields| ==> ' ' !in fields[i]
    ensures SpacesToPlus(Join(fields, " ")) == Join(fields, "+")
  {
    if |fields| == 1 {
      assert SpacesToPlus(fields[0]) == fields[0];
    } else if |fields| > 1 {
      var init := fields[..|fields| - 1];
      var last := fields[|fields| - 1];
      SpacesToPlusJoin(init);
      var j := Join(init, " ");
      assert Join(fields, " ") == (j + " ") + last;
      SpacesToPlusAppend(j + " ", last);
      SpacesToPlusAppend(j, " ");
      assert SpacesToPlus(" ") == "+";
      assert SpacesToPlus(last) == last;
      assert Join(fields, "+") == Join(init, "+") + "+" + last;
    }
  }

  /** Fields that are single non-empty tokens without whitespace are joined with '+'. */
  lemma AnnotationOfTokens(fields: seq<string>)
    requires fields != []
    requires forall i :: 0 <= i < |fields| ==> fields[i] != [] && NoSpace(fields[i])
    ensures Annotation(fields) == Join(fields, "+")
  {
    JoinEnds(fields, " ");
    var last := fields[|fields| - 1];
    assert !IsSpace(fields[0][0]) && !IsSpace(last[|last| - 1]);
    AnnotationOfJoin(fields);
    SpacesToPlusJoin(fields);
  }

  /** The inner loop of build_books: accumulate the text and the three annotation
      strings part by part, then build the entry. */
  method MergeParts(u: Normalizer, parts: seq<Part>) returns (e: Entry)
    ensures e == Merged(u, parts)
  {
    var word, lemmas, gloss, morph := "", "", "", "";
    var i := 0;
    while i < |parts|
      invariant 0 <= i <= |parts|
      invariant word == Texts(parts[..i])
      invariant lemmas == Spaced(Lemmas(parts[..i]))
      invariant gloss == Spaced(Glosses(parts[..i]))
      invariant morph == Spaced(Morphs(parts[..i]))
    {
      var p := parts[i];
      assert parts[..i + 1][..i] == parts[..i];
      assert Lemmas(parts[..i + 1])[..i] == Lemmas(parts[..i]);
      assert Glosses(parts[..i + 1])[..i] == Glosses(parts[..i]);
      assert Morphs(parts[..i + 1])[..i] == Morphs(parts[..i]);
      word := word + p.text;
      lemmas := lemmas + " " + p.strongLemma;
      morph := morph + " " + p.morph;
      gloss := gloss + " " + p.english;
      i := i + 1;
    }
    assert parts[..i] == parts;
    e := Entry(RemoveHebrewMarks(u, word), word, SpacesToPlus(Strip(lemmas)),
               SpacesToPlus(Strip(gloss)), SpacesToPlus(Strip(morph)));
  }

  // ---------------------------------------------------------------------------
  // The book -> chapter -> verse structure

  type Verses = OMap<seq<Entry>>
  type Chapters = OMap<Verses>
  type Library = OMap<Chapters>

  /** A book's chapter dict and each of its verse dicts are well formed. */
  ghost predicate ValidBook(chapters: Chapters)
  {
    chapters.Valid() && forall c :: c in chapters.vals ==> chapters.vals[c].Valid()
  }

  /** Every level is a well-formed ordered dict. */
  ghost predicate ValidLibrary(lib: Library)
  {
    lib.Valid() && forall b :: b in lib.vals ==> ValidBook(lib.vals[b])
  }

  /** The entries filed under book b, chapter c, verse v ([] when there are none). */
  function Lookup(lib: Library, b: string, c: string, v: string): seq<Entry>
  {
    Get(Get(Get(lib, b, Empty()), c, Empty()), v, [])
  }

  /** The chapter keys of book b, in insertion order. */
  function ChapterKeys(lib: Library, b: string): seq<string>
  {
    Get(lib, b, Empty()).keys
  }

  /** The verse keys of chapter c of book b, in insertion order. */
  function VerseKeys(lib: Library, b: string, c: string): seq<string>
  {
    Get(Get(lib, b, Empty()), c, Empty()).keys
  }

  /** books[b][c][v].append(e), creating each level that is absent. */
  function Insert(lib: Library, b: string, c: string, v: string, e: Entry): Library
  {
    var chapters := Get(lib, b, Empty());
    var verses := Get(chapters, c, Empty());
    var words := Get(verses, v, []);
    Put(lib, b, Put(chapters, c, Put(verses, v, words + [e])))
  }

  /** Insert keeps every level well formed. */
  lemma InsertValid(lib: Library, b: string, c: string, v: string, e: Entry)
    requires ValidLibrary(lib)
    ensures ValidLibrary(Insert(lib, b, c, v, e))
  {
    var chapters := Get(lib, b, Empty());
    var verses := Get(chapters, c, Empty());
    var verses' := Put(verses, v, Get(verses, v, []) + [e]);
    PutValid(verses, v, Get(verses, v, []) + [e]);
    PutChapterValid(chapters, c, verses');
    PutBookValid(lib, b, Put(chapters, c, verses'));
  }

  lemma PutChapterValid(chapters: Chapters, c: string, verses: Verses)
    requires ValidBook(chapters) && verses.Valid()
    ensures ValidBook(Put(chapters, c, verses))
  {
    PutValid(chapters, c, verses);
    var r := Put(chapters, c, verses);
    forall c' | c' in r.vals ensures r.vals[c'].Valid() {
      if c' != c { assert r.vals[c'] == chapters.vals[c']; }
    }
  }

  lemma PutBookValid(lib: Library, b: string, chapters: Chapters)
    requires ValidLibrary(lib) && ValidBook(chapters)
    ensures ValidLibrary(Put(lib, b, chapters))
  {
    PutValid(lib, b, chapters);
    var r := Put(lib, b, chapters);
    forall b' | b' in r.vals ensures ValidBook(r.vals[b']) {
      if b' != b { assert r.vals[b'] == lib.vals[b']; }
    }
  }

  /** Insert appends e to the one bucket (b, c, v), after what was there, and leaves
      every other bucket as it was. */
  lemma InsertLookup(lib: Library, b: string, c: string, v: string, e: Entry, b': string, c': string, v': string)
    ensures Lookup(Insert(lib, b, c, v, e), b', c', v')
         == Lookup(lib, b', c', v') + (if b' == b && c' == c && v' == v then [e] else [])
  {
  }

  /** Insert adds a key at a level only when it is absent there, at the end of that level's order. */
  lemma InsertKeys(lib: Library, b: string, c: string, v: string, e: Entry, b': string, c': string)
    ensures var r := Insert(lib, b, c, v, e);
      && r.keys == (if b in lib.vals then lib.keys else lib.keys + [b])
      && ChapterKeys(r, b') == (if b' == b && c !in Get(lib, b, Empty()).vals then ChapterKeys(lib, b') + [c] else ChapterKeys(lib, b'))
      && VerseKeys(r, b', c') == (if b' == b && c' == c && v !in Get(Get(lib, b, Empty()), c, Empty()).vals
                                  then VerseKeys(lib, b', c') + [v] else VerseKeys(lib, b', c'))
  {
  }

  // ---------------------------------------------------------------------------
  // The whole of build_books

  /** The books built from the (ref, parts) pairs, processed in order; the first
      reference that does not parse stops the run. */
  function Build(u: Normalizer, items: seq<(string, seq<Part>)>): Result<Library>
  {
    if items == [] then Ok(Empty())
    else
      match Build(u, items[..|items| - 1])
      case Err(e) => Err(e)
      case Ok(lib) =>
        var item := items[|items| - 1];
        match ParseRef(item.0)
        case Err(e) => Err(e)
        case Ok(p) => Ok(Insert(lib, p.book, p.chapter, VerseBucket(p.verse), Merged(u, item.1)))
  }

  /** Every level of a successfully built library is a well-formed ordered dict. */
  lemma {:induction false} BuildValid(u: Normalizer, items: seq<(string, seq<Part>)>)
    requires Build(u, items).Ok?
    ensures ValidLibrary(Build(u, items).value)
  {
    if items != [] {
      var init := items[..|items| - 1];
      BuildValid(u, init);
      var p := ParseRef(items[|items| - 1].0).value;
      InsertValid(Build(u, init).value, p.book, p.chapter, VerseBucket(p.verse), Merged(u, items[|items| - 1].1));
    }
  }

  /** One more item: the run so far, then that item's reference and entry. */
  lemma BuildSnoc(u: Normalizer, items: seq<(string, seq<Part>)>, k: nat)
    requires k < |items|
    ensures Build(u, items[..k + 1]) ==
      match Build(u, items[..k])
      case Err(e) => Err(e)
      case Ok(lib) =>
        match ParseRef(items[k].0)
        case Err(e) => Err(e)
        case Ok(p) => Ok(Insert(lib, p.book, p.chapter, VerseBucket(p.verse), Merged(u, items[k].1)))
  {
    assert items[..k + 1][..k] == items[..k];
  }

  /** Every reference of items parses. */
  predicate AllParse(items: seq<(string, seq<Part>)>)
  {
    items == [] || (AllParse(items[..|items| - 1]) && ParseRef(items[|items| - 1].0).Ok?)
  }

  lemma {:induction false} AllParseEach(items: seq<(string, seq<Part>)>)
    ensures AllParse(items) <==> forall i :: 0 <= i < |items| ==> ParseRef(items[i].0).Ok?
  {
    if items != [] {
      var init := items[..|items| - 1];
      AllParseEach(init);
      assert forall i :: 0 <= i < |init| ==> init[i] == items[i];
    }
  }

  lemma {:induction false} BuildAllParse(u: Normalizer, items: seq<(string, seq<Part>)>)
    ensures Build(u, items).Ok? <==> AllParse(items)
  {
    if items != [] {
      BuildAllParse(u, items[..|items| - 1]);
    }
  }

  /** Build succeeds exactly when every reference parses. */
  lemma BuildSucceeds(u: Normalizer, items: seq<(string, seq<Part>)>)
    ensures Build(u, items).Ok? <==> forall i :: 0 <= i < |items| ==> ParseRef(items[i].0).Ok?
  {
    BuildAllParse(u, items);
    AllParseEach(items);
  }

  /** The position of the first reference of items that does not parse. */
  function FirstBad(items: seq<(string, seq<Part>)>): (k: nat)
    requires !AllParse(items)
    ensures k < |items| && ParseRef(items[k].0).Err? && AllParse(items[..k])
  {
    var init := items[..|items| - 1];
    if AllParse(init) then
      assert init == items[..|items| - 1];
      |items| - 1
    else
      var k := FirstBad(init);
      assert init[..k] == items[..k];
      k
  }

  /** A failing run reports the error of the first reference that does not parse. */
  lemma {:induction false} BuildFirstError(u: Normalizer, items: seq<(string, seq<Part>)>)
    requires Build(u, items).Err?
    ensures !AllParse(items) && Build(u, items) == Err(ParseRef(items[FirstBad(items)].0).error)
  {
    BuildAllParse(u, items);
    var k := FirstBad(items);
    BuildAllParse(u, items[..k]);
    BuildSnoc(u, items, k);
    BuildErrorPersists(u, items, k + 1);
  }

  /** Once a prefix fails, the whole run fails with the same error. */
  lemma {:induction false} BuildErrorPersists(u: Normalizer, items: seq<(string, seq<Part>)>, k: nat)
    requires k <= |items| && Build(u, items[..k]).Err?
    ensures Build(u, items) == Build(u, items[..k])
    decreases |items| - k
  {
    if k < |items| {
      BuildSnoc(u, items, k);
      BuildErrorPersists(u, items, k + 1);
    } else {
      assert items[..k] == items;
    }
  }

  /** The entries that belong in bucket (b, c, v): one merged entry per item whose
      reference parses to that book, chapter and verse bucket, in item order. */
  function EntriesAt(u: Normalizer, items: seq<(string, seq<Part>)>, b: string, c: string, v: string): seq<Entry>
  {
    if items == [] then []
    else
      var item := items[|items| - 1];
      EntriesAt(u, items[..|items| - 1], b, c, v)
      + match ParseRef(item.0)
        case Ok(p) => if p.book == b && p.chapter == c && VerseBucket(p.verse) == v then [Merged(u, item.1)] else []
        case Err(_) => []
  }

  /** Each bucket of a successful run holds exactly the entries of its own references,
      in the order those references were processed. */
  lemma {:induction false} BuildLookup(u: Normalizer, items: seq<(string, seq<Part>)>, b: string, c: string, v: string)
    requires Build(u, items).Ok?
    ensures Lookup(Build(u, items).value, b, c, v) == EntriesAt(u, items, b, c, v)
  {
    if items != [] {
      var init := items[..|items| - 1];
      var item := items[|items| - 1];
      BuildLookup(u, init, b, c, v);
      var lib := Build(u, init).value;
      var p := ParseRef(item.0).value;
      var e := Merged(u, item.1);
      assert Build(u, items) == Ok(Insert(lib, p.book, p.chapter, VerseBucket(p.verse), e));
      InsertLookup(lib, p.book, p.chapter, VerseBucket(p.verse), e, b, c, v);
      assert EntriesAt(u, items, b, c, v) == EntriesAt(u, init, b, c, v)
        + (if p.book == b && p.chapter == c && VerseBucket(p.verse) == v then [e] else []);
    }
  }

  /** The books of the items whose references parse, in order of first occurrence. */
  function BookOrder(items: seq<(string, seq<Part>)>): seq<string>
  {
    if items == [] then []
    else
      var seen := BookOrder(items[..|items| - 1]);
      match ParseRef(items[|items| - 1].0)
      case Ok(p) => if p.book in seen then seen else seen + [p.book]
      case Err(_) => seen
  }

  /** The books of a successful run are ordered by first occurrence: this is the order
      of the pages and of the index. */
  lemma {:induction false} BuildBookOrder(u: Normalizer, items: seq<(string, seq<Part>)>)
    requires Build(u, items).Ok?
    ensures Build(u, items).value.keys == BookOrder(items)
  {
    if items != [] {
      var init := items[..|items| - 1];
      BuildBookOrder(u, init);
      BuildValid(u, init);
      var lib := Build(u, init).value;
      var item := items[|items| - 1];
      var p := ParseRef(item.0).value;
      var e := Merged(u, item.1);
      assert Build(u, items) == Ok(Insert(lib, p.book, p.chapter, VerseBucket(p.verse), e));
      InsertKeys(lib, p.book, p.chapter, VerseBucket(p.verse), e, p.book, p.chapter);
      assert p.book in lib.vals <==> p.book in lib.keys;
    }
  }

  /** The chapters of book b among the items whose references parse, in order of
      first occurrence. */
  function ChapterOrder(items: seq<(string, seq<Part>)>, b: string): seq<string>
  {
    if items == [] then []
    else
      var seen := ChapterOrder(items[..|items| - 1], b);
      match ParseRef(items[|items| - 1].0)
      case Ok(p) => if p.book == b && p.chapter !in seen then seen + [p.chapter] else seen
      case Err(_) => seen
  }

  /** The verse buckets of chapter c of book b among the items whose references parse,
      in order of first occurrence. */
  function VerseOrder(items: seq<(string, seq<Part>)>, b: string, c: string): seq<string>
  {
    if items == [] then []
    else
      var seen := VerseOrder(items[..|items| - 1], b, c);
      match ParseRef(items[|items| - 1].0)
      case Ok(p) =>
        var v := VerseBucket(p.verse);
        if p.book == b && p.chapter == c && v !in seen then seen + [v] else seen
      case Err(_) => seen
  }

  /** On a well-formed library, Insert lists a chapter under its book only when it is not
      listed yet, at the end. */
  lemma InsertChapterKeys(lib: Library, b: string, c: string, v: string, e: Entry, b': string)
    requires ValidLibrary(lib)
    ensures ChapterKeys(Insert(lib, b, c, v, e), b')
         == if b' == b && c !in ChapterKeys(lib, b') then ChapterKeys(lib, b') + [c] else ChapterKeys(lib, b')
  {
    InsertKeys(lib, b, c, v, e, b', c);
    if b in lib.vals {
      assert ValidBook(lib.vals[b]);
    }
  }

  /** On a well-formed library, Insert lists a verse under its chapter only when it is not
      listed yet, at the end. */
  lemma InsertVerseKeys(lib: Library, b: string, c: string, v: string, e: Entry, b': string, c': string)
    requires ValidLibrary(lib)
    ensures VerseKeys(Insert(lib, b, c, v, e), b', c')
         == if b' == b && c' == c && v !in VerseKeys(lib, b', c') then VerseKeys(lib, b', c') + [v] else VerseKeys(lib, b', c')
  {
    InsertKeys(lib, b, c, v, e, b', c');
    if b in lib.vals {
      assert ValidBook(lib.vals[b]);
      if c in lib.vals[b].vals {
        assert lib.vals[b].vals[c].Valid();
      }
    }
  }

  /** One more item on a successful run: the chapters of book b gain that item's chapter
      at the end when its book is b and the chapter is not listed yet. */
  lemma BuildChapterStep(u: Normalizer, items: seq<(string, seq<Part>)>, b: string)
    requires items != [] && Build(u, items).Ok?
    ensures Build(u, items[..|items| - 1]).Ok? && ParseRef(items[|items| - 1].0).Ok?
    ensures var p := ParseRef(items[|items| - 1].0).value;
      var before := ChapterKeys(Build(u, items[..|items| - 1]).value, b);
      ChapterKeys(Build(u, items).value, b)
        == if p.book == b && p.chapter !in before then before + [p.chapter] else before
  {
    var init := items[..|items| - 1];
    BuildValid(u, init);
    var lib := Build(u, init).value;
    var item := items[|items| - 1];
    var p := ParseRef(item.0).value;
    var e := Merged(u, item.1);
    assert Build(u, items) == Ok(Insert(lib, p.book, p.chapter, VerseBucket(p.verse), e));
    InsertChapterKeys(lib, p.book, p.chapter, VerseBucket(p.verse), e, b);
  }

  /** One more item on a successful run: the verses of chapter c of book b gain that
      item's verse bucket at the end when it files there and the bucket is not listed yet. */
  lemma BuildVerseStep(u: Normalizer, items: seq<(string, seq<Part>)>, b: string, c: string)
    requires items != [] && Build(u, items).Ok?
    ensures Build(u, items[..|items| - 1]).Ok? && ParseRef(items[|items| - 1].0).Ok?
    ensures var p := ParseRef(items[|items| - 1].0).value;
      var v := VerseBucket(p.verse);
      var before := VerseKeys(Build(u, items[..|items| - 1]).value, b, c);
      VerseKeys(Build(u, items).value, b, c)
        == if p.book == b && p.chapter == c && v !in before then before + [v] else before
  {
    var init := items[..|items| - 1];
    BuildValid(u, init);
    var lib := Build(u, init).value;
    var item := items[|items| - 1];
    var p := ParseRef(item.0).value;
    var e := Merged(u, item.1);
    assert Build(u, items) == Ok(Insert(lib, p.book, p.chapter, VerseBucket(p.verse), e));
    InsertVerseKeys(lib, p.book, p.chapter, VerseBucket(p.verse), e, b, c);
  }

  /** The chapters of each book of a successful run are ordered by first occurrence:
      this is the order in which build_output meets them before sorting. */
  lemma {:induction false} BuildChapterOrder(u: Normalizer, items: seq<(string, seq<Part>)>, b: string)
    requires Build(u, items).Ok?
    ensures ChapterKeys(Build(u, items).value, b) == ChapterOrder(items, b)
  {
    if items != [] {
      BuildChapterStep(u, items, b);
      BuildChapterOrder(u, items[..|items| - 1], b);
    }
  }

  /** The verses of each chapter of a successful run are ordered by first occurrence. */
  lemma {:induction false} BuildVerseOrder(u: Normalizer, items: seq<(string, seq<Part>)>, b: string, c: string)
    requires Build(u, items).Ok?
    ensures VerseKeys(Build(u, items).value, b, c) == VerseOrder(items, b, c)
  {
    if items != [] {
      BuildVerseStep(u, items, b, c);
      BuildVerseOrder(u, items[..|items| - 1], b, c);
    }
  }

  /** A verse bucket is listed exactly when some item's reference files an entry there. */
  lemma {:induction false} VerseOrderEntries(u: Normalizer, items: seq<(string, seq<Part>)>, b: string, c: string, v: string)
    ensures v in VerseOrder(items, b, c) <==> EntriesAt(u, items, b, c, v) != []
  {
    if items != [] {
      VerseOrderEntries(u, items[..|items| - 1], b, c, v);
    }
  }

  /** A chapter is listed exactly when it has at least one verse bucket. */
  lemma {:induction false} ChapterOrderVerses(items: seq<(string, seq<Part>)>, b: string, c: string)
    ensures c in ChapterOrder(items, b) <==> VerseOrder(items, b, c) != []
  {
    if items != [] {
      ChapterOrderVerses(items[..|items| - 1], b, c);
    }
  }

  /** In a successful run no verse bucket is empty and no chapter is without verses:
      a verse key is present exactly when some reference files an entry under it, and
      a chapter key exactly when it has a verse key. */
  lemma BuildKeysNonEmpty(u: Normalizer, items: seq<(string, seq<Part>)>, b: string, c: string, v: string)
    requires Build(u, items).Ok?
    ensures var lib := Build(u, items).value;
      && (v in VerseKeys(lib, b, c) <==> EntriesAt(u, items, b, c, v) != [])
      && (v in VerseKeys(lib, b, c) <==> Lookup(lib, b, c, v) != [])
      && (c in ChapterKeys(lib, b) <==> VerseKeys(lib, b, c) != [])
  {
    BuildVerseOrder(u, items, b, c);
    BuildChapterOrder(u, items, b);
    BuildLookup(u, items, b, c, v);
    VerseOrderEntries(u, items, b, c, v);
    ChapterOrderVerses(items, b, c);
  }

  /** build_books: for each (ref, parts) in dict order, parse the reference, merge its
      parts and append the entry to its verse bucket. */
  method BuildBooks(u: Normalizer, data: OMap<seq<Part>>) returns (r: Result<Library>)
    requires data.Valid()
    ensures r == Build(u, Items(data))
  {
    ghost var items := Items(data);
    ItemsSpec(data);
    var books: Library := Empty();
    var i := 0;
    while i < |data.keys|
      invariant 0 <= i <= |data.keys|
      invariant Build(u, items[..i]) == Ok(books)
    {
      var ref := data.keys[i];
      var parts := data.vals[ref];
      assert items[i] == (ref, parts);
      BuildSnoc(u, items, i);
      var parsed := ParseRef(ref);
      if parsed.Err? {
        BuildErrorPersists(u, items, i + 1);
        return Err(parsed.error);
      }
      var entry := MergeParts(u, parts);
      books := Insert(books, parsed.value.book, parsed.value.chapter, VerseBucket(parsed.value.verse), entry);
      i := i + 1;
    }
    assert items[..i] == items;
    r := Ok(books);
  }
}
