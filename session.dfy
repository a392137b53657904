/**
 * The state of the split/merge page and its handlers: the loaded file,
 * its page count, the range list, the list of split results and the
 * index of the result being dragged. Each handler replaces the state
 * fields the page's setters would replace.
 */
module Session {
  import opened Wrappers
  import opened JsText
  import opened RangeList
  import opened SplitPlan
  import opened AssemblyOrder

  /** The loaded bytes as the document engine reads them: a page sequence, or bytes it cannot parse. */
  datatype Source = Readable(pages: seq<Page>) | Unreadable

  /** The merged document and the name it is saved under. */
  datatype Merged = Merged(pages: seq<Page>, fileName: string)

  class SplitSession {
    var file: Option<string>
    var bytes: Option<Source>
    var totalPages: nat
    var ranges: seq<PageRange>
    var divided: seq<Divided>
    var dragged: Option<nat>

    /**
     * There is always a range to edit, every result's id is its position,
     * and bytes or results are only there once a file has been chosen.
     */
    ghost predicate Valid()
      reads this
    {
      && ranges != []
      && IdsArePositions(divided)
      && (bytes.Some? ==> file.Some?)
      && (divided != [] ==> file.Some?)
    }

    /** The page before any file: no file, no pages, one range {1, 1}, no results. */
    constructor ()
      ensures Valid()
      ensures file == None && bytes == None && totalPages == 0
      ensures ranges == INITIAL_RANGES && divided == [] && dragged == None
    {
      file, bytes, totalPages := None, None, 0;
      ranges, divided, dragged := INITIAL_RANGES, [], None;
    }

    /**
     * `processFile` for a file that passed the type check. The file and its
     * bytes are recorded first; when the engine reads the bytes, the page
     * count is taken, the range list is seeded and the results are cleared,
     * and when it cannot, the rest of the state stays as it was.
     */
    method ProcessFile(name: string, source: Source)
      requires Valid()
      modifies this
      ensures Valid()
      ensures file == Some(name) && bytes == Some(source) && dragged == old(dragged)
      ensures source.Readable? ==>
        totalPages == |source.pages| && ranges == Seed(|source.pages|) && divided == []
      ensures source.Unreadable? ==>
        totalPages == old(totalPages) && ranges == old(ranges) && divided == old(divided)
    {
      file := Some(name);
      bytes := Some(source);
      if source.Readable? {
        var pages := |source.pages|;
        totalPages := pages;
        ranges := Seed(pages);
        divided := [];
      }
    }

    /** `reset`: back to the page before any file (object URLs are not modelled). */
    method Reset()
      modifies this
      ensures Valid()
      ensures file == None && bytes == None && totalPages == 0
      ensures ranges == INITIAL_RANGES && divided == [] && dragged == None
    {
      file, bytes, totalPages := None, None, 0;
      ranges, divided, dragged := INITIAL_RANGES, [], None;
    }

    /** `handleRangeChange`: one keystroke into an input of range `index`; no other range changes. */
    method HandleRangeChange(index: nat, field: Field, value: string)
      requires Valid() && index < |ranges|
      modifies this`ranges
      ensures Valid()
      ensures |ranges| == |old(ranges)|
      ensures ranges[index] == Change(old(ranges)[index], field, value)
      ensures forall i :: 0 <= i < |ranges| && i != index ==> ranges[i] == old(ranges)[i]
    {
      ranges := ranges[index := Change(ranges[index], field, value)];
    }

    /** `handleRangeBlur`: focus leaves an input of range `index`; no other range changes. */
    method HandleRangeBlur(index: nat, field: Field)
      requires Valid() && index < |ranges|
      modifies this`ranges
      ensures Valid()
      ensures |ranges| == |old(ranges)|
      ensures ranges[index] == Blur(old(ranges)[index], field, totalPages)
      ensures forall i :: 0 <= i < |ranges| && i != index ==> ranges[i] == old(ranges)[i]
    {
      ranges := ranges[index := Blur(ranges[index], field, totalPages)];
    }

    /** `addRange`. */
    method AddRange()
      requires Valid()
      modifies this`ranges
      ensures Valid()
      ensures ranges == Add(old(ranges), totalPages)
    {
      ranges := Add(ranges, totalPages);
    }

    /** `removeRange`. */
    method RemoveRange(index: int)
      requires Valid()
      modifies this`ranges
      ensures Valid()
      ensures ranges == Remove(old(ranges), index)
    {
      ranges := Remove(ranges, index);
    }

    /**
     * `dividePdf`. Without bytes nothing happens; bytes the engine cannot
     * read end the run before any result. Otherwise the results replace
     * the list once the first range is extracted, one per range until a
     * range fails; when the very first range fails the old list stays.
     */
    method DividePdf() returns (failed: bool)
      requires Valid()
      modifies this`divided
      ensures Valid()
      ensures bytes.None? ==> !failed && divided == old(divided)
      ensures bytes == Some(Unreadable) ==> failed && divided == old(divided)
      ensures bytes.Some? && bytes.value.Readable? ==>
        var source := bytes.value.pages;
        var done := FirstFailure(ranges, source);
        && (failed <==> done < |ranges|)
        && (done == 0 ==> divided == old(divided))
        && (done > 0 ==> |divided| == done && forall i :: 0 <= i < done ==> divided[i] == Entry(ranges, source, i))
    {
      failed := false;
      if bytes.None? {
        return;
      }
      if bytes.value.Unreadable? {
        failed := true;
        return;
      }
      var results;
      results, failed := Divide(ranges, bytes.value.pages);
      if results != [] {
        divided := results;
      }
    }

    /** `handleDragStart`: the result at `index` is picked up. */
    method HandleDragStart(index: nat)
      modifies this`dragged
      ensures dragged == Some(index)
    {
      dragged := Some(index);
    }

    /** `handleDragEnd`: the drag is over. */
    method HandleDragEnd()
      modifies this`dragged
      ensures dragged == None
    {
      dragged := None;
    }

    /**
     * `handleDrop`: the dragged result is moved to `dropIndex` and every id
     * is renumbered; dropping onto the same place, or with nothing dragged,
     * only ends the drag.
     */
    method HandleDrop(dropIndex: nat)
      requires Valid() && dropIndex < |divided|
      requires dragged.Some? ==> dragged.value < |divided|
      modifies this`divided, this`dragged
      ensures Valid() && dragged == None
      ensures old(dragged).None? || old(dragged).value == dropIndex ==> divided == old(divided)
      ensures old(dragged).Some? && old(dragged).value != dropIndex ==>
        |divided| == |old(divided)|
        && forall i :: 0 <= i < |divided| ==> divided[i] == Move(old(divided), old(dragged).value, dropIndex)[i].(id := i)
      ensures old(dragged).Some? ==> Concat(divided) == Concat(Move(old(divided), old(dragged).value, dropIndex))
    {
      if dragged.None? || dragged.value == dropIndex {
        if dragged.Some? {
          MoveIsPermutation(divided, dragged.value, dropIndex);
        }
        dragged := None;
        return;
      }
      var moved := Move(divided, dragged.value, dropIndex);
      divided := Reorder(divided, dragged.value, dropIndex);
      ConcatSamePages(divided, moved);
      dragged := None;
    }

    /**
     * `mergeAllPdfs`: nothing without results; otherwise every result's
     * pages in the current order, as the engine saves them, under the
     * merged file name.
     */
    method MergeAllPdfs() returns (merged: Option<Merged>)
      ensures merged.None? <==> divided == []
      ensures merged.Some? ==> merged.value == Merged(Saved(Concat(divided)), MergedFileName(file))
    {
      if divided == [] {
        return None;
      }
      var pages := MergePages(divided);
      var mergedFileName := MergedFileName(file);
      merged := Some(Merged(Saved(pages), mergedFileName));
    }
  }

  /**
   * A session walked through by hand, in three steps: a file of n pages is
   * loaded, the first range is set to pages 1..cut and named part_a, a
   * second range is added at cut + 1 and extended to n; the split then
   * gives part_a.pdf and rango_{cut+1}-{n}.pdf, and merging gives the
   * document back under the name doc_unido.pdf.
   *
   * First step: typing `cut` into the first range's end, leaving the input
   * and naming it "part_a".
   */
  lemma EditFirstRange(cut: int, pages: int)
    requires 1 <= cut <= pages
    ensures Change(PageRange(Num(1), Num(1), ""), End, IntToString(cut)) == PageRange(Num(1), Num(cut), "")
    ensures Blur(PageRange(Num(1), Num(cut), ""), End, pages) == PageRange(Num(1), Num(cut), "")
    ensures Change(PageRange(Num(1), Num(cut), ""), Name, "part_a") == PageRange(Num(1), Num(cut), "part_a")
  {
    var r := PageRange(Num(1), Num(1), "");
    ChangeStoresNumberUnclamped(r, End, cut);
    BlurEndKeepsInRange(PageRange(Num(1), Num(cut), ""), pages);
  }

  /** Adding after the first part gives a one-page range just past `cut`. */
  lemma AddAfterFirstRange(first: PageRange, cut: int, pages: int)
    requires 1 <= cut < pages && first == PageRange(Num(1), Num(cut), "part_a")
    ensures Add([first], pages) == [first, PageRange(Num(cut + 1), Num(cut + 1), "")]
  {
    assert AsNumber(first.end) + 1 == cut + 1 <= pages;
  }

  /** Typing the last page into the new range's end and leaving the input. */
  lemma EditSecondRange(cut: int, pages: int)
    requires 1 <= cut < pages
    ensures Change(PageRange(Num(cut + 1), Num(cut + 1), ""), End, IntToString(pages))
         == PageRange(Num(cut + 1), Num(pages), "")
    ensures Blur(PageRange(Num(cut + 1), Num(pages), ""), End, pages) == PageRange(Num(cut + 1), Num(pages), "")
  {
    var r := PageRange(Num(cut + 1), Num(cut + 1), "");
    ChangeStoresNumberUnclamped(r, End, pages);
    BlurEndKeepsInRange(PageRange(Num(cut + 1), Num(pages), ""), pages);
  }

  /** Load a file, then edit its single range into the named first part up to `cut`. */
  method ScenarioEditFirst(name: string, doc: seq<Page>, cut: int) returns (s: SplitSession)
    requires 1 <= cut < |doc|
    ensures fresh(s) && s.Valid()
    ensures s.bytes == Some(Readable(doc)) && s.file == Some(name) && s.totalPages == |doc|
    ensures s.ranges == [PageRange(Num(1), Num(cut), "part_a")]
  {
    s := new SplitSession();
    s.ProcessFile(name, Readable(doc));
    NameFirstPart(s, cut);
  }

  /** Typing `cut` into the seeded range's end, leaving the input, then typing its name. */
  method NameFirstPart(s: SplitSession, cut: int)
    requires s.Valid() && s.ranges == [PageRange(Num(1), Num(1), "")] && 1 <= cut <= s.totalPages
    modifies s
    ensures s.Valid() && s.bytes == old(s.bytes) && s.file == old(s.file) && s.totalPages == old(s.totalPages)
    ensures s.ranges == [PageRange(Num(1), Num(cut), "part_a")]
  {
    EditFirstRange(cut, s.totalPages);
    s.HandleRangeChange(0, End, IntToString(cut));
    assert s.ranges == [PageRange(Num(1), Num(cut), "")];
    s.HandleRangeBlur(0, End);
    assert s.ranges == [PageRange(Num(1), Num(cut), "")];
    s.HandleRangeChange(0, Name, "part_a");
  }

  /** Load a file, then edit the list into a named first part up to `cut` and an unnamed rest. */
  method ScenarioEdit(name: string, doc: seq<Page>, cut: int) returns (s: SplitSession)
    requires 1 <= cut < |doc|
    ensures fresh(s) && s.Valid()
    ensures s.bytes == Some(Readable(doc)) && s.file == Some(name)
    ensures s.ranges == CutRanges(doc, cut)
  {
    var n := |doc|;
    s := ScenarioEditFirst(name, doc, cut);
    AddAfterFirstRange(s.ranges[0], cut, n);
    EditSecondRange(cut, n);
    var first := s.ranges[0];
    s.AddRange();
    assert s.ranges == [first, PageRange(Num(cut + 1), Num(cut + 1), "")];
    s.HandleRangeChange(1, End, IntToString(n));
    assert s.ranges == [first, PageRange(Num(cut + 1), Num(n), "")];
    s.HandleRangeBlur(1, End);
  }

  method ScenarioSplit(s: SplitSession, doc: seq<Page>, cut: int)
    requires 1 <= cut < |doc| && s.Valid()
    requires s.bytes == Some(Readable(doc))
    requires s.ranges == CutRanges(doc, cut)
    modifies s
    ensures s.Valid() && s.bytes == old(s.bytes) && s.file == old(s.file) && s.ranges == old(s.ranges)
    ensures |s.divided| == 2
    ensures s.divided[0] == Entry(s.ranges, doc, 0) && s.divided[1] == Entry(s.ranges, doc, 1)
  {
    SettledRangesNeverFail(s.ranges, doc);
    var failed := s.DividePdf();
  }

  /** The two ranges the edit scenario leaves behind: a named first part and an unnamed rest. */
  function CutRanges(doc: seq<Page>, cut: int): seq<PageRange>
  {
    [PageRange(Num(1), Num(cut), "part_a"), PageRange(Num(cut + 1), Num(|doc|), "")]
  }

  /** Both cut ranges extract, so dividing produces two files. */
  lemma CutRangesExtract(doc: seq<Page>, cut: int)
    requires 1 <= cut < |doc|
    ensures FirstFailure(CutRanges(doc, cut), doc) == 2
  {
    SettledRangesNeverFail(CutRanges(doc, cut), doc);
  }

  /** The named part is saved under its name, the unnamed one under its bounds. */
  lemma CutFileNames(r: seq<PageRange>, doc: seq<Page>, cut: int)
    requires 1 <= cut < |doc| && r == CutRanges(doc, cut) && FirstFailure(r, doc) == 2
    ensures Entry(r, doc, 0).fileName == "part_a" + ".pdf"
    ensures Entry(r, doc, 1).fileName
         == "rango_" + IntToString(cut + 1) + "-" + IntToString(|doc|) + ".pdf"
  {
  }

  /** The two parts hold the document's pages, in order, with nothing lost. */
  lemma CutPagesCover(r: seq<PageRange>, doc: seq<Page>, cut: int)
    requires 1 <= cut < |doc| && r == CutRanges(doc, cut) && FirstFailure(r, doc) == 2
    ensures Entry(r, doc, 0).pages + Entry(r, doc, 1).pages == doc
  {
    assert RangePages(r[0], doc).value == doc[0..cut] != [];
    assert RangePages(r[1], doc).value == doc[cut..|doc|] != [];
    assert Entry(r, doc, 0).pages == doc[0..cut];
    assert Entry(r, doc, 1).pages == doc[cut..|doc|];
    assert doc[0..cut] + doc[cut..|doc|] == doc;
  }

  /** Two parts merge back into the pages they hold, first part first. */
  lemma ConcatPair(d: seq<Divided>, doc: seq<Page>)
    requires |d| == 2 && d[0].pages + d[1].pages == doc
    ensures Concat(d) == doc
  {
    var first := d[..1];
    assert first[..0] == [];
    assert Concat(first) == first[0].pages;
  }

  /** Load, edit two ranges, divide and merge: the merged file is the original document. */
  method ScenarioMerge(base: string, doc: seq<Page>, cut: int) returns (merged: Option<Merged>)
    requires 1 <= cut < |doc|
    requires forall j: nat :: !OccursAt(base, ".pdf", j)
    ensures merged == Some(Merged(doc, base + "_unido.pdf"))
  {
    var s := ScenarioEdit(base + ".pdf", doc, cut);
    ScenarioSplit(s, doc, cut);
    CutRangesExtract(doc, cut);
    CutPagesCover(s.ranges, doc, cut);
    ConcatPair(s.divided, doc);
    MergedNameDropsExtension(base);
    merged := s.MergeAllPdfs();
  }
}
