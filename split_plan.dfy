/**
 * Splitting (`dividePdf`): each range, in list order, becomes the
 * zero-based page indices start-1 .. end-1, those pages are copied out of
 * the source document, and the copy is recorded with its position, its
 * download file name and its "start-end" label. The document engine is
 * seen only as the sequence of a document's pages.
 */
module SplitPlan {
  import opened Wrappers
  import opened JsText
  import opened RangeList

  /**
   * A page of a document: one identified by the page it came from, or the
   * blank page the engine adds when it saves a document without pages.
   */
  datatype Page = Page(ref: nat) | BlankPage

  /** An entry of the list of split results: id, file name, "start-end" label and the document's pages. */
  datatype Divided = Divided(id: int, fileName: string, range: string, pages: seq<Page>)

  /** A bound as a template literal prints it: '' stays empty, a number is printed in decimal. */
  function BoundText(b: Bound): string {
    match b
    case Empty => ""
    case Num(n) => IntToString(n)
  }

  /** The label `${start}-${end}` shown beside each result. */
  function Label(r: PageRange): string {
    BoundText(r.start) + "-" + BoundText(r.end)
  }

  /** `name.pdf` for a named range, otherwise `rango_{start}-{end}.pdf`; equal names are not made unique. */
  function FileName(r: PageRange): string {
    if r.name != "" then r.name + ".pdf" else "rango_" + Label(r) + ".pdf"
  }

  /** Every file name ends in ".pdf", and a named range's file name is its name before that. */
  lemma FileNameShape(r: PageRange)
    ensures var f := FileName(r); |f| > 4 && f[|f| - 4..] == ".pdf"
    ensures r.name != "" ==> FileName(r)[..|FileName(r)| - 4] == r.name
  {
  }

  /** The zero-based indices from start - 1 up to, but excluding, end. */
  function PageIndices(r: PageRange): (indices: seq<int>)
    ensures |indices| == if AsNumber(r.start) <= AsNumber(r.end) then AsNumber(r.end) - AsNumber(r.start) + 1 else 0
    ensures forall k :: 0 <= k < |indices| ==> indices[k] == AsNumber(r.start) - 1 + k
  {
    var first := AsNumber(r.start) - 1;
    var count := if AsNumber(r.end) > first then AsNumber(r.end) - first else 0;
    seq(count, k => first + k)
  }

  /** The loop that fills `pagesToCopy` for one range. */
  method PagesToCopy(r: PageRange) returns (pagesToCopy: seq<int>)
    ensures |pagesToCopy| == if AsNumber(r.start) <= AsNumber(r.end) then AsNumber(r.end) - AsNumber(r.start) + 1 else 0
    ensures forall k :: 0 <= k < |pagesToCopy| ==> pagesToCopy[k] == AsNumber(r.start) - 1 + k
    ensures pagesToCopy == PageIndices(r)
  {
    pagesToCopy := [];
    var pageNum := AsNumber(r.start) - 1;
    while pageNum < AsNumber(r.end)
      invariant pageNum == AsNumber(r.start) - 1 + |pagesToCopy|
      invariant pagesToCopy != [] ==> pageNum <= AsNumber(r.end)
      invariant forall k :: 0 <= k < |pagesToCopy| ==> pagesToCopy[k] == AsNumber(r.start) - 1 + k
      decreases AsNumber(r.end) - pageNum
    {
      pagesToCopy := pagesToCopy + [pageNum];
      pageNum := pageNum + 1;
    }
  }

  /**
   * `copyPages(source, indices)`: the pages at those indices, in the order
   * given; an index outside the document makes the call throw (None).
   */
  function CopyPages(source: seq<Page>, indices: seq<int>): (r: Option<seq<Page>>)
    ensures r.Some? <==> forall k :: 0 <= k < |indices| ==> 0 <= indices[k] < |source|
    ensures r.Some? ==> |r.value| == |indices| && forall k :: 0 <= k < |indices| ==> r.value[k] == source[indices[k]]
  {
    if indices == [] then Some([])
    else if !(0 <= indices[0] < |source|) then None
    else
      match CopyPages(source, indices[1..])
      case None => None
      case Some(rest) => Some([source[indices[0]]] + rest)
  }

  /**
   * The pages one range extracts: the source's pages start through end
   * (one-based, inclusive), nothing for a range whose end lies below its
   * start, and a failure exactly when a non-empty range reaches outside.
   */
  function RangePages(r: PageRange, source: seq<Page>): (p: Option<seq<Page>>)
    ensures p.Some? <==> AsNumber(r.end) < AsNumber(r.start) || (1 <= AsNumber(r.start) && AsNumber(r.end) <= |source|)
    ensures p.Some? && AsNumber(r.end) < AsNumber(r.start) ==> p.value == []
    ensures p.Some? && AsNumber(r.start) <= AsNumber(r.end) ==> p.value == source[AsNumber(r.start) - 1..AsNumber(r.end)]
  {
    var indices := PageIndices(r);
    var p := CopyPages(source, indices);
    assert AsNumber(r.start) <= AsNumber(r.end) ==>
      indices[0] == AsNumber(r.start) - 1 && indices[|indices| - 1] == AsNumber(r.end) - 1;
    p
  }

  /** A settled range always extracts from a document with enough pages. */
  lemma SettledRangeExtracts(r: PageRange, source: seq<Page>)
    requires Settled(r, |source|)
    ensures RangePages(r, source) == Some(source[r.start.n - 1..r.end.n])
  {
  }

  /** The position of the first range whose extraction fails, or the number of ranges when none does. */
  function FirstFailure(rs: seq<PageRange>, source: seq<Page>): (k: nat)
    ensures k <= |rs|
    ensures forall i :: 0 <= i < k ==> RangePages(rs[i], source).Some?
    ensures k < |rs| ==> RangePages(rs[k], source).None?
  {
    if rs == [] || RangePages(rs[0], source).None? then 0
    else 1 + FirstFailure(rs[1..], source)
  }

  /** A list of settled ranges never fails to split. */
  lemma SettledRangesNeverFail(rs: seq<PageRange>, source: seq<Page>)
    requires AllSettled(rs, |source|)
    ensures FirstFailure(rs, source) == |rs|
  {
  }

  /** The result entry for range `i` once its pages are extracted. */
  function Entry(rs: seq<PageRange>, source: seq<Page>, i: nat): Divided
    requires i < FirstFailure(rs, source)
  {
    Divided(i, FileName(rs[i]), Label(rs[i]), Saved(RangePages(rs[i], source).value))
  }

  /**
   * The pages of a document once `save()` has written it: with its default
   * options the engine adds one blank page to a document that has none.
   */
  function Saved(pages: seq<Page>): (r: seq<Page>)
    ensures pages != [] ==> r == pages
    ensures pages == [] ==> r == [BlankPage]
  {
    if pages == [] then [BlankPage] else pages
  }

  /** A range whose end lies below its start copies nothing and is saved as one blank page. */
  lemma ReversedRangeGivesBlankPage(rs: seq<PageRange>, source: seq<Page>, i: nat)
    requires i < FirstFailure(rs, source) && AsNumber(rs[i].end) < AsNumber(rs[i].start)
    ensures Entry(rs, source, i).pages == [BlankPage]
  {
  }

  /** Range `i` extracted, so it lies before the first failure and its result is its Entry. */
  lemma EntryAt(rs: seq<PageRange>, source: seq<Page>, i: nat, entry: Divided)
    requires i < |rs| && i <= FirstFailure(rs, source) && RangePages(rs[i], source).Some?
    requires entry == Divided(i, FileName(rs[i]), Label(rs[i]), Saved(RangePages(rs[i], source).value))
    ensures i < FirstFailure(rs, source) && entry == Entry(rs, source, i)
  {
  }

  /** Appending range `i`'s entry to the entries of the ranges before it. */
  lemma AppendEntry(rs: seq<PageRange>, source: seq<Page>, divided: seq<Divided>, entry: Divided)
    requires |divided| < FirstFailure(rs, source) && entry == Entry(rs, source, |divided|)
    requires forall j :: 0 <= j < |divided| ==> divided[j] == Entry(rs, source, j)
    ensures forall j :: 0 <= j < |divided + [entry]| ==> (divided + [entry])[j] == Entry(rs, source, j)
  {
    var extended := divided + [entry];
    forall j | 0 <= j < |extended| ensures extended[j] == Entry(rs, source, j) {
      if j < |divided| {
        assert extended[j] == divided[j];
      }
    }
  }

  /** The first range that does not extract, at or before the first failure, is the first failure. */
  lemma FailureAt(rs: seq<PageRange>, source: seq<Page>, i: nat)
    requires i < |rs| && i <= FirstFailure(rs, source) && RangePages(rs[i], source).None?
    ensures FirstFailure(rs, source) == i
  {
  }

  /** One iteration's copy: the range's page indices, then `copyPages` on them. */
  method ExtractRange(range: PageRange, source: seq<Page>) returns (copied: Option<seq<Page>>)
    ensures copied == RangePages(range, source)
  {
    var pagesToCopy := PagesToCopy(range);
    copied := CopyPages(source, pagesToCopy);
  }

  /**
   * The loop of `dividePdf`: one result per range, in range order, until a
   * range fails to extract, which ends the run with the results so far.
   */
  method Divide(ranges: seq<PageRange>, source: seq<Page>) returns (divided: seq<Divided>, failed: bool)
    ensures |divided| == FirstFailure(ranges, source)
    ensures failed <==> |divided| < |ranges|
    ensures forall i :: 0 <= i < |divided| ==> divided[i] == Entry(ranges, source, i)
  {
    divided := [];
    failed := false;
    var i := 0;
    while i < |ranges|
      invariant i <= |ranges| && i <= FirstFailure(ranges, source)
      invariant |divided| == i
      invariant forall j :: 0 <= j < i ==> divided[j] == Entry(ranges, source, j)
    {
      var range := ranges[i];
      var copied := ExtractRange(range, source);
      if copied.None? {
        FailureAt(ranges, source, i);
        failed := true;
        return;
      }
      var fileName := FileName(range);
      var entry := Divided(i, fileName, Label(range), Saved(copied.value));
      EntryAt(ranges, source, i, entry);
      AppendEntry(ranges, source, divided, entry);
      divided := divided + [entry];
      i := i + 1;
    }
  }

  /** The split of 5 pages into [{1,3,''}, {4,4,'cover'}]: indices [0,1,2] and [3], files rango_1-3.pdf and cover.pdf. */
  lemma TwoRangeExample(source: seq<Page>)
    requires |source| == 5
    ensures var a, b := PageRange(Num(1), Num(3), ""), PageRange(Num(4), Num(4), "cover");
      && PageIndices(a) == [0, 1, 2] && PageIndices(b) == [3]
      && FileName(a) == "rango_1-3.pdf" && FileName(b) == "cover.pdf"
      && Label(a) == "1-3" && Label(b) == "4-4"
      && FirstFailure([a, b], source) == 2
      && RangePages(a, source) == Some(source[..3]) && RangePages(b, source) == Some([source[3]])
  {
    var a, b := PageRange(Num(1), Num(3), ""), PageRange(Num(4), Num(4), "cover");
    assert IntToString(1) == "1" && IntToString(3) == "3";
    assert PageIndices(a) == [0, 1, 2];
    assert PageIndices(b) == [3];
    assert [a, b][1..] == [b];
    assert source[3..4] == [source[3]];
  }

  /** Two ranges with the same name give the same file name, whatever pages they hold. */
  lemma NamesNotDeduplicated(a: PageRange, b: PageRange)
    requires a.name == b.name != ""
    ensures FileName(a) == FileName(b)
  {
  }

  /** For unnamed ranges with non-negative numeric bounds, the file name identifies the range. */
  lemma UnnamedFileNameIdentifiesRange(a: PageRange, b: PageRange)
    requires a.name == "" && b.name == ""
    requires a.start.Num? && a.end.Num? && b.start.Num? && b.end.Num?
    requires a.start.n >= 0 && a.end.n >= 0 && b.start.n >= 0 && b.end.n >= 0
    requires FileName(a) == FileName(b)
    ensures a == b
  {
    var x, y := IntToString(a.start.n), IntToString(a.end.n);
    var u, v := IntToString(b.start.n), IntToString(b.end.n);
    var p, q := x + "-" + y, u + "-" + v;
    assert "rango_" + p + ".pdf" == "rango_" + q + ".pdf";
    assert p == q by {
      assert |p| == |q|;
      forall k | 0 <= k < |p| ensures p[k] == q[k] {
        assert ("rango_" + p + ".pdf")[6 + k] == p[k];
        assert ("rango_" + q + ".pdf")[6 + k] == q[k];
      }
    }
    var m := if |x| <= |u| then |x| else |u|;
    assert p[m] == q[m];
    assert p[m] == '-' <==> m == |x|;
    assert q[m] == '-' <==> m == |u|;
    assert x == p[..|x|] == q[..|u|] == u;
    assert y == p[|x| + 1..] == q[|u| + 1..] == v;
    IntToStringInjective(a.start.n, b.start.n);
    IntToStringInjective(a.end.n, b.end.n);
  }
}
