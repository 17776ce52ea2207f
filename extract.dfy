/** parse_xml_folder: collecting the tagged words of every XML file, grouped by reference. */
module Extract {
  import opened OrderedMap

  /** One w element: its english, stronglemma, morph and ref attributes ("" when absent)
      and its text ("" when absent). */
  datatype TaggedWord = TaggedWord(english: string, strongLemma: string, morph: string, ref: string, text: string)

  /** What is stored under a reference: the record without its ref. */
  datatype Part = Part(english: string, strongLemma: string, morph: string, text: string)

  /** The outcome of parsing one file: its w elements in document order, or a parse failure. */
  datatype FileContent = Parsed(words: seq<TaggedWord>) | Unreadable

  /** One directory entry, in listing order. */
  datatype SourceFile = SourceFile(name: string, content: FileContent)

  function PartOf(w: TaggedWord): Part
  {
    Part(w.english, w.strongLemma, w.morph, w.text)
  }

  /** filename.endswith('.xml') */
  predicate IsXml(name: string)
  {
    |name| >= 4 && name[|name| - 4..] == ".xml"
  }

  /** The records the folder contributes: those of every parsed .xml file, in listing
      order; a file that fails to parse contributes none. */
  function Records(files: seq<SourceFile>): seq<TaggedWord>
  {
    if files == [] then []
    else
      var f := files[|files| - 1];
      Records(files[..|files| - 1]) + (if IsXml(f.name) && f.content.Parsed? then f.content.words else [])
  }

  lemma RecordsSnoc(files: seq<SourceFile>, i: nat)
    requires i < |files|
    ensures Records(files[..i + 1]) == Records(files[..i])
      + (if IsXml(files[i].name) && files[i].content.Parsed? then files[i].content.words else [])
    ensures !(IsXml(files[i].name) && files[i].content.Parsed?) ==> Records(files[..i + 1]) == Records(files[..i])
  {
    assert files[..i + 1][..i] == files[..i];
    assert Records(files[..i]) + [] == Records(files[..i]);
  }

  /** The distinct non-empty references of ws, in order of first occurrence. */
  function RefOrder(ws: seq<TaggedWord>): seq<string>
  {
    if ws == [] then []
    else
      var seen := RefOrder(ws[..|ws| - 1]);
      var r := ws[|ws| - 1].ref;
      if r == "" || r in seen then seen else seen + [r]
  }

  /** The parts of the records of ws whose reference is ref, in encounter order. */
  function PartsFor(ws: seq<TaggedWord>, ref: string): seq<Part>
  {
    if ws == [] then []
    else PartsFor(ws[..|ws| - 1], ref) + (if ws[|ws| - 1].ref == ref then [PartOf(ws[|ws| - 1])] else [])
  }

  /** RefOrder lists every non-empty reference of ws exactly once, and nothing else. */
  lemma {:induction false} RefOrderSpec(ws: seq<TaggedWord>)
    ensures forall i, j :: 0 <= i < j < |RefOrder(ws)| ==> RefOrder(ws)[i] != RefOrder(ws)[j]
    ensures forall r :: r in RefOrder(ws) <==> r != "" && exists i :: 0 <= i < |ws| && ws[i].ref == r
  {
    if ws != [] {
      var init := ws[..|ws| - 1];
      RefOrderSpec(init);
      forall r | r != "" && (exists i :: 0 <= i < |ws| && ws[i].ref == r)
        ensures r in RefOrder(ws)
      {
        var i :| 0 <= i < |ws| && ws[i].ref == r;
        if i < |ws| - 1 {
          assert init[i].ref == r;
        }
      }
      forall r | r in RefOrder(ws)
        ensures r != "" && exists i :: 0 <= i < |ws| && ws[i].ref == r
      {
        if r in RefOrder(init) {
          var i :| 0 <= i < |init| && init[i].ref == r;
          assert ws[i].ref == r;
        } else {
          assert ws[|ws| - 1].ref == r;
        }
      }
    }
  }

  /** Adding one record: it goes to the end of its own reference's list, and every
      other reference's list is unchanged. */
  lemma PartsForSnoc(ws: seq<TaggedWord>, w: TaggedWord, ref: string)
    ensures PartsFor(ws + [w], ref) == PartsFor(ws, ref) + (if w.ref == ref then [PartOf(w)] else [])
  {
    assert (ws + [w])[..|ws|] == ws;
  }

  /** Grouping keeps encounter order across the concatenation of two runs of records,
      such as the records of two files. */
  lemma {:induction false} PartsForAppend(a: seq<TaggedWord>, b: seq<TaggedWord>, ref: string)
    ensures PartsFor(a + b, ref) == PartsFor(a, ref) + PartsFor(b, ref)
  {
    if b == [] {
      assert a + b == a;
    } else {
      var b' := b[..|b| - 1];
      assert (a + b)[..|a + b| - 1] == a + b';
      PartsForAppend(a, b', ref);
    }
  }

  /** Every part under ref comes from a record whose reference is ref; in particular,
      a record with an empty reference is in no list of a non-empty reference. */
  lemma {:induction false} PartsForFrom(ws: seq<TaggedWord>, ref: string, p: Part)
    requires p in PartsFor(ws, ref)
    ensures exists i :: 0 <= i < |ws| && ws[i].ref == ref && PartOf(ws[i]) == p
  {
    var init := ws[..|ws| - 1];
    if p in PartsFor(init, ref) {
      PartsForFrom(init, ref, p);
      var i :| 0 <= i < |init| && init[i].ref == ref && PartOf(init[i]) == p;
      assert ws[i] == init[i];
    } else {
      assert ws[|ws| - 1].ref == ref && PartOf(ws[|ws| - 1]) == p;
    }
  }

  /** A reference has parts exactly when some record carries it. */
  lemma {:induction false} PartsForEmpty(ws: seq<TaggedWord>, ref: string)
    ensures PartsFor(ws, ref) == [] <==> forall i :: 0 <= i < |ws| ==> ws[i].ref != ref
  {
    if ws != [] {
      var init := ws[..|ws| - 1];
      PartsForEmpty(init, ref);
      if PartsFor(ws, ref) == [] {
        assert PartsFor(init, ref) == [];
        forall i | 0 <= i < |ws| ensures ws[i].ref != ref {
          if i < |ws| - 1 { assert ws[i] == init[i]; }
        }
      } else if ws[|ws| - 1].ref != ref {
        var i :| 0 <= i < |init| && init[i].ref == ref;
        assert ws[i] == init[i];
      }
    }
  }

  /** results is the grouping of the records ws: the loop invariant of parse_xml_folder. */
  ghost predicate Groups(results: OMap<seq<Part>>, ws: seq<TaggedWord>)
  {
    && results.Valid() && "" !in results.vals
    && results.keys == RefOrder(ws)
    && (forall r :: r in results.vals ==> results.vals[r] == PartsFor(ws, r))
    && (forall r :: r != "" && r !in results.vals ==> PartsFor(ws, r) == [])
  }

  /** One step of the loop body keeps the grouping up to date. */
  lemma AppendKeepsGroups(results: OMap<seq<Part>>, ws: seq<TaggedWord>, w: TaggedWord)
    requires Groups(results, ws)
    ensures w.ref == "" ==> Groups(results, ws + [w])
    ensures w.ref != "" ==> Groups(Put(results, w.ref, Get(results, w.ref, []) + [PartOf(w)]), ws + [w])
  {
    var ws' := ws + [w];
    assert ws'[..|ws'| - 1] == ws;
    forall r ensures PartsFor(ws', r) == PartsFor(ws, r) + (if w.ref == r then [PartOf(w)] else []) {
      PartsForSnoc(ws, w, r);
    }
    assert RefOrder(ws') == if w.ref == "" || w.ref in RefOrder(ws) then RefOrder(ws) else RefOrder(ws) + [w.ref];
    if w.ref != "" {
      PutValid(results, w.ref, Get(results, w.ref, []) + [PartOf(w)]);
      assert w.ref in RefOrder(ws) <==> w.ref in results.vals;
    }
  }

  /** The inner loop of parse_xml_folder over the w elements of one parsed file:
      each record with a non-empty reference is appended to that reference's list. */
  method AddRecords(results: OMap<seq<Part>>, ghost done: seq<TaggedWord>, words: seq<TaggedWord>)
    returns (results': OMap<seq<Part>>)
    requires Groups(results, done)
    ensures Groups(results', done + words)
  {
    results' := results;
    var j := 0;
    assert done + words[..0] == done;
    while j < |words|
      invariant 0 <= j <= |words|
      invariant Groups(results', done + words[..j])
    {
      var w := words[j];
      AppendKeepsGroups(results', done + words[..j], w);
      assert done + words[..j + 1] == (done + words[..j]) + [w];
      if w.ref != "" {
        results' := Put(results', w.ref, Get(results', w.ref, []) + [PartOf(w)]);
      }
      j := j + 1;
    }
    assert words[..j] == words;
  }

  /** The outer loop of parse_xml_folder: the .xml files of the listing, in order; a
      file that fails to parse is skipped. */
  method ParseFolder(files: seq<SourceFile>) returns (results: OMap<seq<Part>>)
    ensures results.Valid() && "" !in results.vals
    ensures results.keys == RefOrder(Records(files))
    ensures forall r :: r in results.vals ==> results.vals[r] == PartsFor(Records(files), r)
  {
    results := Empty();
    var i := 0;
    while i < |files|
      invariant 0 <= i <= |files|
      invariant Groups(results, Records(files[..i]))
    {
      var file := files[i];
      RecordsSnoc(files, i);
      if IsXml(file.name) && file.content.Parsed? {
        results := AddRecords(results, Records(files[..i]), file.content.words);
      }
      i := i + 1;
    }
    assert files[..i] == files;
  }
}
