/** build_word and build_output: the HTML body of every book page and of the index,
    computed in memory; writing the files is left to the caller. */
module Output {
  import opened Wrappers
  import opened Text
  import opened OrderedMap
  import opened Sorting
  import opened Books

  /** The page template, split at its one "$body$" placeholder: filling it is
      TEMPLATE.replace('$body$', body). */
  datatype Template = Template(head: string, tail: string)

  function Fill(t: Template, body: string): string
  {
    t.head + body + t.tail
  }

  datatype Page = Page(name: string, content: string)

  /** The pages, one per book in book order, and the index page. */
  datatype Site = Site(pages: seq<Page>, index: string)

  // ---------------------------------------------------------------------------
  // build_word

  const WordOpen := "\n    <div class=\"word-container\">\n        <span class=\"word\">"
  const WordData := "</span>\n        <div class=\"data\"><p>"
  const WordSep := "</p><p>"
  const WordClose := "</p></div>\n    </div>\n        \n    "

  /** The markup of one word: the vowelless form is shown; the full form, gloss, lemma
      and morphology code, in that order, are the hidden data. */
  function WordHtml(e: Entry): string
  {
    WordOpen + (e.vowelless + (WordData + (e.full + (WordSep + (e.gloss + (WordSep + (e.strongLemma
      + (WordSep + (e.morph + WordClose)))))))))
  }

  /** Read one field: s must start with lit; the field runs to the next '<'. */
  function ReadField(s: string, lit: string): Option<(string, string)>
  {
    if |lit| <= |s| && s[..|lit|] == lit then
      var rest := s[|lit|..];
      var field := BeforeFirst(rest, '<');
      BeforeFirstSpec(rest, '<');
      Some((field, rest[|field|..]))
    else None
  }

  /** Recover an entry from the markup of a word. */
  function ReadWord(html: string): Option<Entry>
  {
    match ReadField(html, WordOpen)
    case None => None
    case Some((v, r1)) =>
      match ReadField(r1, WordData)
      case None => None
      case Some((f, r2)) =>
        match ReadField(r2, WordSep)
        case None => None
        case Some((g, r3)) =>
          match ReadField(r3, WordSep)
          case None => None
          case Some((l, r4)) =>
            match ReadField(r4, WordSep)
            case None => None
            case Some((m, r5)) => if r5 == WordClose then Some(Entry(v, f, l, g, m)) else None
  }

  lemma ReadFieldJoin(lit: string, field: string, rest: string)
    requires '<' !in field && rest != [] && rest[0] == '<'
    ensures ReadField(lit + (field + rest), lit) == Some((field, rest))
  {
    var s := lit + (field + rest);
    assert s[..|lit|] == lit;
    assert s[|lit|..] == field + ['<'] + rest[1..];
    BeforeFirstJoin(field, '<', rest[1..]);
    assert (field + ['<'] + rest[1..])[|field|..] == rest;
  }

  /** build_word loses nothing: when no field contains '<', the entry can be read back
      from its markup, each field in its place. */
  lemma ReadWordHtml(e: Entry)
    requires '<' !in e.vowelless && '<' !in e.full && '<' !in e.gloss && '<' !in e.strongLemma && '<' !in e.morph
    ensures ReadWord(WordHtml(e)) == Some(e)
  {
    var r5 := WordClose;
    var r4 := WordSep + (e.morph + r5);
    var r3 := WordSep + (e.strongLemma + r4);
    var r2 := WordSep + (e.gloss + r3);
    var r1 := WordData + (e.full + r2);
    assert WordData[0] == WordSep[0] == WordClose[0] == '<';
    ReadFieldJoin(WordOpen, e.vowelless, r1);
    ReadFieldJoin(WordData, e.full, r2);
    ReadFieldJoin(WordSep, e.gloss, r3);
    ReadFieldJoin(WordSep, e.strongLemma, r4);
    ReadFieldJoin(WordSep, e.morph, r5);
  }

  // ---------------------------------------------------------------------------
  // build_output, as functions

  /** vdata: the markup of each word of a verse, in bucket order. */
  function WordHtmls(words: seq<Entry>): (r: seq<string>)
    ensures |r| == |words| && forall i :: 0 <= i < |words| ==> r[i] == WordHtml(words[i])
  {
    if words == [] then [] else WordHtmls(words[..|words| - 1]) + [WordHtml(words[|words| - 1])]
  }

  /** The block of one verse: its number, then its words one per line. */
  function VerseHtml(verse: string, words: seq<Entry>): string
  {
    "<div><span class=\"vnum\">" + verse + "</span>" + Join(WordHtmls(words), "\n") + "</div>"
  }

  /** cdata: the block of each verse, in the given (sorted) order. */
  function VerseHtmls(verses: seq<(string, seq<Entry>)>): (r: seq<string>)
    ensures |r| == |verses| && forall i :: 0 <= i < |verses| ==> r[i] == VerseHtml(verses[i].0, verses[i].1)
  {
    if verses == [] then [] else VerseHtmls(verses[..|verses| - 1]) + [VerseHtml(verses[|verses| - 1].0, verses[|verses| - 1].1)]
  }

  /** The block of one chapter: a heading with book and chapter, then its verse blocks. */
  function ChapterHtml(book: string, chapter: string, verses: seq<(string, seq<Entry>)>): string
  {
    "<h1>" + book + " " + chapter + "</h1>" + "\n" + Join(VerseHtmls(verses), "\n")
  }

  /** One chapter of build_output: its verses in sortem order, then its block; a verse
      key int() rejects is an error. */
  function ChapterBlock(book: string, chapter: string, verses: Verses): Result<string>
    requires verses.Valid()
  {
    match Sortem(Items(verses))
    case Err(e) => Err(e)
    case Ok(sorted) => Ok(ChapterHtml(book, chapter, sorted))
  }


  ghost predicate AllValid(chapters: seq<(string, Verses)>)
  {
    forall i :: 0 <= i < |chapters| ==> chapters[i].1.Valid()
  }

  /** The block, or the failure, of each chapter, in the given order. */
  function ChapterBlocks(book: string, chapters: seq<(string, Verses)>): (r: seq<Result<string>>)
    requires AllValid(chapters)
    ensures |r| == |chapters|
  {
    seq(|chapters|, j requires 0 <= j < |chapters| => ChapterBlock(book, chapters[j].0, chapters[j].1))
  }

  /** Sorting the chapters of a well-formed book keeps every verse dict well formed. */
  lemma SortedChaptersValid(chapters: Chapters, sorted: seq<(string, Verses)>)
    requires ValidBook(chapters)
    requires Sortem(Items(chapters)) == Ok(sorted)
    ensures AllValid(sorted)
  {
    var items := Items(chapters);
    SortemPermutes(items);
    forall i | 0 <= i < |sorted| ensures sorted[i].1.Valid() {
      assert sorted[i] in multiset(items);
      var j :| 0 <= j < |items| && items[j] == sorted[i];
    }
  }

  /** "Hebrew-reader-" + book + ".html" */
  function PageName(book: string): string
  {
    "Hebrew-reader-" + book + ".html"
  }

  /** The page of one book: bdata is the block of each chapter, in sortem order, and the
      first chapter that fails stops the page. */
  function BookPage(t: Template, book: string, chapters: Chapters): Result<Page>
    requires ValidBook(chapters)
  {
    match Sortem(Items(chapters))
    case Err(e) => Err(e)
    case Ok(sorted) =>
      SortedChaptersValid(chapters, sorted);
      match Collect(ChapterBlocks(book, sorted))
      case Err(e) => Err(e)
      case Ok(bdata) => Ok(Page(PageName(book), Fill(t, "<h1>" + book + "</h1>" + "\n" + Join(bdata, "\n"))))
  }

  /** Every chapter key and every verse key of the book is one int() accepts. */
  ghost predicate KeysNumeric(chapters: Chapters)
    requires ValidBook(chapters)
  {
    AllDecimal(Items(chapters)) && forall c :: c in chapters.vals ==> AllDecimal(Items(chapters.vals[c]))
  }

  /** A chapter's block is made exactly when its verse keys are integers; it then lists
      the verses in ascending, stable verse order, each verse's words in bucket order. */
  lemma ChapterBlockSpec(book: string, chapter: string, verses: Verses)
    requires verses.Valid()
    ensures ChapterBlock(book, chapter, verses).Ok? <==> AllDecimal(Items(verses))
    ensures ChapterBlock(book, chapter, verses).Ok? ==>
      var sorted := Sortem(Items(verses)).value;
      && SortedByKey(sorted) && multiset(sorted) == multiset(Items(verses))
      && AllDecimal(sorted) && (forall n: nat :: WithKey(sorted, n) == WithKey(Items(verses), n))
      && ChapterBlock(book, chapter, verses).value == ChapterHtml(book, chapter, sorted)
  {
    if AllDecimal(Items(verses)) {
      SortemStable(Items(verses));
    }
  }

  /** A book's page is made exactly when all its chapter and verse keys are integers. */
  lemma BookPageSucceeds(t: Template, book: string, chapters: Chapters)
    requires ValidBook(chapters)
    ensures BookPage(t, book, chapters).Ok? <==> KeysNumeric(chapters)
  {
    var items := Items(chapters);
    if AllDecimal(items) {
      var sorted := Sortem(items).value;
      SortedChaptersValid(chapters, sorted);
      assert BookPage(t, book, chapters).Ok? <==> Collect(ChapterBlocks(book, sorted)).Ok?;
      if Collect(ChapterBlocks(book, sorted)).Ok? {
        BlocksOkVersesNumeric(book, chapters, sorted);
      } else {
        BlocksErrVerseNotNumeric(book, chapters, sorted);
      }
    }
  }

  /** When every chapter block is made, every chapter's verse keys are integers. */
  lemma BlocksOkVersesNumeric(book: string, chapters: Chapters, sorted: seq<(string, Verses)>)
    requires ValidBook(chapters) && Sortem(Items(chapters)) == Ok(sorted)
    requires AllValid(sorted)
    requires Collect(ChapterBlocks(book, sorted)).Ok?
    ensures forall c :: c in chapters.vals ==> AllDecimal(Items(chapters.vals[c]))
  {
    SortedChaptersSame(chapters, sorted);
    var blocks := ChapterBlocks(book, sorted);
    CollectEach(blocks);
    forall c | c in chapters.vals ensures AllDecimal(Items(chapters.vals[c])) {
      var j :| 0 <= j < |sorted| && sorted[j] == (c, chapters.vals[c]);
      assert blocks[j] == ChapterBlock(book, c, chapters.vals[c]) && blocks[j].Ok?;
      ChapterBlockSpec(book, c, chapters.vals[c]);
    }
  }

  /** When some chapter block fails, some chapter has a verse key that is not an integer. */
  lemma BlocksErrVerseNotNumeric(book: string, chapters: Chapters, sorted: seq<(string, Verses)>)
    requires ValidBook(chapters) && Sortem(Items(chapters)) == Ok(sorted)
    requires AllValid(sorted)
    requires Collect(ChapterBlocks(book, sorted)).Err?
    ensures exists c :: c in chapters.vals && !AllDecimal(Items(chapters.vals[c]))
  {
    SortedChaptersSame(chapters, sorted);
    var blocks := ChapterBlocks(book, sorted);
    CollectEach(blocks);
    var j :| 0 <= j < |sorted| && !blocks[j].Ok?;
    ChapterBlockSpec(book, sorted[j].0, sorted[j].1);
    assert !AllDecimal(Items(chapters.vals[sorted[j].0]));
  }

  /** The sorted chapters are the (chapter, verses) pairs of the book, each once. */
  lemma SortedChaptersSame(chapters: Chapters, sorted: seq<(string, Verses)>)
    requires ValidBook(chapters) && Sortem(Items(chapters)) == Ok(sorted)
    ensures forall j :: 0 <= j < |sorted| ==> sorted[j].0 in chapters.vals && sorted[j].1 == chapters.vals[sorted[j].0]
    ensures forall c :: c in chapters.vals ==> exists j :: 0 <= j < |sorted| && sorted[j] == (c, chapters.vals[c])
  {
    var items := Items(chapters);
    SortemPermutes(items);
    forall j | 0 <= j < |sorted|
      ensures sorted[j].0 in chapters.vals && sorted[j].1 == chapters.vals[sorted[j].0]
    {
      assert sorted[j] in multiset(items);
    }
    forall c | c in chapters.vals
      ensures exists j :: 0 <= j < |sorted| && sorted[j] == (c, chapters.vals[c])
    {
      var i :| 0 <= i < |chapters.keys| && chapters.keys[i] == c;
      assert items[i] == (c, chapters.vals[c]);
      assert items[i] in multiset(sorted);
    }
  }

  /** A book's page is named after the book, and its blocks are those of its chapters in
      ascending, stable chapter order. */
  lemma BookPageShape(t: Template, book: string, chapters: Chapters)
    requires ValidBook(chapters) && BookPage(t, book, chapters).Ok?
    ensures BookPage(t, book, chapters).value.name == "Hebrew-reader-" + book + ".html"
    ensures var sorted := Sortem(Items(chapters)).value;
      && SortedByKey(sorted) && multiset(sorted) == multiset(Items(chapters))
      && AllDecimal(sorted) && (forall n: nat :: WithKey(sorted, n) == WithKey(Items(chapters), n))
      && AllValid(sorted) && Collect(ChapterBlocks(book, sorted)).Ok?
      && BookPage(t, book, chapters).value.content
         == Fill(t, "<h1>" + book + "</h1>" + "\n" + Join(Collect(ChapterBlocks(book, sorted)).value, "\n"))
  {
    var items := Items(chapters);
    SortemStable(items);
    SortedChaptersValid(chapters, Sortem(items).value);
  }

  /** The book dicts of the library, each well formed. */
  ghost predicate AllBooksValid(books: seq<(string, Chapters)>)
  {
    forall i :: 0 <= i < |books| ==> ValidBook(books[i].1)
  }

  /** The page, or the failure, of each book, in the given order. */
  function BookPages(t: Template, books: seq<(string, Chapters)>): (r: seq<Result<Page>>)
    requires AllBooksValid(books)
    ensures |r| == |books|
  {
    seq(|books|, i requires 0 <= i < |books| => BookPage(t, books[i].0, books[i].1))
  }

  /** index[book] = name for each book in turn. */
  function IndexMap(books: seq<string>): OMap<string>
  {
    if books == [] then Empty() else Put(IndexMap(books[..|books| - 1]), books[|books| - 1], PageName(books[|books| - 1]))
  }

  lemma IndexMapSnoc(books: seq<string>, i: nat)
    requires i < |books|
    ensures IndexMap(books[..i + 1]) == Put(IndexMap(books[..i]), books[i], PageName(books[i]))
  {
    assert books[..i + 1][..i] == books[..i];
  }

  lemma {:induction false} IndexMapValid(books: seq<string>)
    ensures IndexMap(books).Valid()
  {
    if books != [] {
      IndexMapValid(books[..|books| - 1]);
      PutValid(IndexMap(books[..|books| - 1]), books[|books| - 1], PageName(books[|books| - 1]));
    }
  }

  /** Distinct books are listed in the index in the order they were added, each
      with the name of its page. */
  lemma {:induction false} IndexMapSpec(books: seq<string>)
    requires forall i, j :: 0 <= i < j < |books| ==> books[i] != books[j]
    ensures IndexMap(books).keys == books
    ensures forall b :: b in IndexMap(books).vals ==> IndexMap(books).vals[b] == PageName(b)
  {
    if books != [] {
      var init := books[..|books| - 1];
      IndexMapSpec(init);
      IndexMapValid(init);
      assert books[|books| - 1] !in init;
    }
  }

  function IndexLink(book: string, name: string): string
  {
    "<li><a href='" + name + "'>" + book + "</a></li>"
  }

  /** The links of the index, one per entry, in insertion order. */
  function IndexLinks(index: seq<(string, string)>): (r: seq<string>)
    ensures |r| == |index| && forall i :: 0 <= i < |index| ==> r[i] == IndexLink(index[i].0, index[i].1)
  {
    if index == [] then [] else IndexLinks(index[..|index| - 1]) + [IndexLink(index[|index| - 1].0, index[|index| - 1].1)]
  }

  function IndexPage(t: Template, index: OMap<string>): string
    requires index.Valid()
  {
    Fill(t, "<h1>Hebrew Bible reader without vowels</h1>" + "\n<div><ul>" + Join(IndexLinks(Items(index)), "\n") + "</ul></div>")
  }

  lemma LibraryBooksValid(lib: Library)
    requires ValidLibrary(lib)
    ensures AllBooksValid(Items(lib))
  {
  }

  /** The whole of build_output: every book's page in book order, the first failing
      book stopping the run, then the index. */
  function Render(t: Template, lib: Library): Result<Site>
    requires ValidLibrary(lib)
  {
    LibraryBooksValid(lib);
    IndexMapValid(lib.keys);
    match Collect(BookPages(t, Items(lib)))
    case Err(e) => Err(e)
    case Ok(pages) => Ok(Site(pages, IndexPage(t, IndexMap(lib.keys))))
  }

  /** Each book's page, or failure, as Render sees it, in book insertion order. */
  lemma BookPagesOfLibrary(t: Template, lib: Library, i: nat)
    requires ValidLibrary(lib) && i < |lib.keys|
    ensures AllBooksValid(Items(lib))
    ensures BookPages(t, Items(lib))[i] == BookPage(t, lib.keys[i], lib.vals[lib.keys[i]])
  {
    LibraryBooksValid(lib);
  }

  /** build_output succeeds exactly when every chapter and verse key of every book is an
      integer. */
  lemma RenderSucceeds(t: Template, lib: Library)
    requires ValidLibrary(lib)
    ensures Render(t, lib).Ok? <==> forall b :: b in lib.vals ==> KeysNumeric(lib.vals[b])
  {
    LibraryBooksValid(lib);
    var results := BookPages(t, Items(lib));
    CollectEach(results);
    forall i | 0 <= i < |lib.keys|
      ensures results[i].Ok? <==> KeysNumeric(lib.vals[lib.keys[i]])
    {
      BookPagesOfLibrary(t, lib, i);
      BookPageSucceeds(t, lib.keys[i], lib.vals[lib.keys[i]]);
    }
    forall b | b in lib.vals ensures exists i :: 0 <= i < |lib.keys| && lib.keys[i] == b {
    }
  }

  /** A failing build_output reports the error of the first book, in book order, whose
      page cannot be made; the page of every book before it is made. */
  lemma RenderFirstError(t: Template, lib: Library)
    requires ValidLibrary(lib) && Render(t, lib).Err?
    ensures exists k ::
      && 0 <= k < |lib.keys|
      && BookPage(t, lib.keys[k], lib.vals[lib.keys[k]]) == Err(Render(t, lib).error)
      && forall i :: 0 <= i < k ==> BookPage(t, lib.keys[i], lib.vals[lib.keys[i]]).Ok?
  {
    LibraryBooksValid(lib);
    var results := BookPages(t, Items(lib));
    CollectFirstError(results);
    var k :|
      && 0 <= k < |results| && results[k] == Err(Collect(results).error)
      && forall i :: 0 <= i < k ==> results[i].Ok?;
    BookPagesOfLibrary(t, lib, k);
    forall i | 0 <= i < k ensures BookPage(t, lib.keys[i], lib.vals[lib.keys[i]]).Ok? {
      BookPagesOfLibrary(t, lib, i);
    }
  }

  /** A successful build_output makes one page per book, in book insertion order, each
      the page of that book and named "Hebrew-reader-<book>.html". */
  lemma RenderPages(t: Template, lib: Library)
    requires ValidLibrary(lib) && Render(t, lib).Ok?
    ensures var pages := Render(t, lib).value.pages;
      && |pages| == |lib.keys|
      && forall i :: 0 <= i < |lib.keys| ==>
           BookPage(t, lib.keys[i], lib.vals[lib.keys[i]]) == Ok(pages[i])
           && pages[i].name == "Hebrew-reader-" + lib.keys[i] + ".html"
  {
    LibraryBooksValid(lib);
    var results := BookPages(t, Items(lib));
    CollectEach(results);
    forall i | 0 <= i < |lib.keys|
      ensures results[i] == BookPage(t, lib.keys[i], lib.vals[lib.keys[i]])
      ensures results[i].Ok? ==> results[i].value.name == "Hebrew-reader-" + lib.keys[i] + ".html"
    {
      BookPagesOfLibrary(t, lib, i);
      if results[i].Ok? {
        BookPageShape(t, lib.keys[i], lib.vals[lib.keys[i]]);
      }
    }
  }

  /** The index of a successful build_output holds one link per book, in book insertion
      order, each pointing at that book's page. */
  lemma RenderIndex(t: Template, lib: Library)
    requires ValidLibrary(lib) && Render(t, lib).Ok?
    ensures IndexMap(lib.keys).Valid()
    ensures var links := IndexLinks(Items(IndexMap(lib.keys)));
      && |links| == |lib.keys|
      && (forall i :: 0 <= i < |lib.keys| ==>
            links[i] == "<li><a href='" + PageName(lib.keys[i]) + "'>" + lib.keys[i] + "</a></li>")
      && Render(t, lib).value.index
         == Fill(t, "<h1>Hebrew Bible reader without vowels</h1>" + "\n<div><ul>" + Join(links, "\n") + "</ul></div>")
  {
    IndexMapValid(lib.keys);
    IndexMapSpec(lib.keys);
  }

  // ---------------------------------------------------------------------------
  // build_output, as the nested loops of the source

  /** The innermost loop: vdata for one verse, then the verse block. */
  method RenderVerse(verse: string, words: seq<Entry>) returns (block: string)
    ensures block == VerseHtml(verse, words)
  {
    var vdata: seq<string> := [];
    var m := 0;
    while m < |words|
      invariant 0 <= m <= |words| && |vdata| == m
      invariant forall j :: 0 <= j < m ==> vdata[j] == WordHtml(words[j])
    {
      vdata := vdata + [WordHtml(words[m])];
      m := m + 1;
    }
    assert vdata == WordHtmls(words);
    block := "<div><span class=\"vnum\">" + verse + "</span>" + Join(vdata, "\n") + "</div>";
  }

  /** The middle loop: cdata for one chapter, its verses in sortem order. */
  method RenderChapter(book: string, chapter: string, verses: Verses) returns (r: Result<string>)
    requires verses.Valid()
    ensures r == ChapterBlock(book, chapter, verses)
  {
    var sorted := Sortem(Items(verses));
    if sorted.Err? {
      return Err(sorted.error);
    }
    var vs := sorted.value;
    var cdata: seq<string> := [];
    var k := 0;
    while k < |vs|
      invariant 0 <= k <= |vs| && |cdata| == k
      invariant forall j :: 0 <= j < k ==> cdata[j] == VerseHtml(vs[j].0, vs[j].1)
    {
      var block := RenderVerse(vs[k].0, vs[k].1);
      cdata := cdata + [block];
      k := k + 1;
    }
    assert cdata == VerseHtmls(vs);
    r := Ok("<h1>" + book + " " + chapter + "</h1>" + "\n" + Join(cdata, "\n"));
  }

  /** The outer loop's body: bdata for one book, its chapters in sortem order. */
  method RenderBook(t: Template, book: string, chapters: Chapters) returns (r: Result<Page>)
    requires ValidBook(chapters)
    ensures r == BookPage(t, book, chapters)
  {
    var sorted := Sortem(Items(chapters));
    if sorted.Err? {
      return Err(sorted.error);
    }
    var cs := sorted.value;
    SortedChaptersValid(chapters, cs);
    ghost var blocks := ChapterBlocks(book, cs);
    var bdata: seq<string> := [];
    var j := 0;
    while j < |cs|
      invariant 0 <= j <= |cs|
      invariant Collect(blocks[..j]) == Ok(bdata)
    {
      CollectSnoc(blocks, j);
      var block := RenderChapter(book, cs[j].0, cs[j].1);
      assert block == blocks[j];
      if block.Err? {
        CollectErrorPersists(blocks, j + 1);
        return Err(block.error);
      }
      bdata := bdata + [block.value];
      j := j + 1;
    }
    assert blocks[..j] == blocks;
    r := Ok(Page(PageName(book), Fill(t, "<h1>" + book + "</h1>" + "\n" + Join(bdata, "\n"))));
  }

  /** build_output: every book's page in book order, recording index[book] = name as
      each page is made, then the index page. */
  method BuildOutput(t: Template, lib: Library) returns (r: Result<Site>)
    requires ValidLibrary(lib)
    ensures r == Render(t, lib)
  {
    LibraryBooksValid(lib);
    IndexMapValid(lib.keys);
    ghost var results := BookPages(t, Items(lib));
    var pages: seq<Page> := [];
    var index: OMap<string> := Empty();
    var i := 0;
    while i < |lib.keys|
      invariant 0 <= i <= |lib.keys|
      invariant Collect(results[..i]) == Ok(pages)
      invariant index == IndexMap(lib.keys[..i])
    {
      var book := lib.keys[i];
      var chapters := lib.vals[book];
      CollectSnoc(results, i);
      BookPagesOfLibrary(t, lib, i);
      var page := RenderBook(t, book, chapters);
      if page.Err? {
        CollectErrorPersists(results, i + 1);
        return Err(page.error);
      }
      var name := PageName(book);
      pages := pages + [page.value];
      IndexMapSnoc(lib.keys, i);
      index := Put(index, book, name);
      i := i + 1;
    }
    assert results[..i] == results;
    assert lib.keys[..i] == lib.keys;
    r := Ok(Site(pages, IndexPage(t, index)));
  }
}
