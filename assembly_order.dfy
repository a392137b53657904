/**
 * The list of split results as the user arranges it: the drag-and-drop
 * move with its renumbering (`handleDrop`), the concatenation of every
 * result's pages in the current order (`mergeAllPdfs`) and the merged
 * file's name.
 */
module AssemblyOrder {
  import opened Wrappers
  import opened JsText
  import opened RangeList
  import opened SplitPlan

  /**
   * `splice(from, 1)` followed by `splice(to, 0, item)`: the list without
   * the item at `from`, with that item inserted again at `to`.
   */
  function Move<T>(s: seq<T>, from: nat, to: nat): (r: seq<T>)
    requires from < |s| && to < |s|
    ensures |r| == |s| && r[to] == s[from]
  {
    var rest := s[..from] + s[from + 1..];
    rest[..to] + [s[from]] + rest[to..]
  }

  /** The move is a permutation of the list, and the identity when from == to. */
  lemma MoveIsPermutation<T>(s: seq<T>, from: nat, to: nat)
    requires from < |s| && to < |s|
    ensures multiset(Move(s, from, to)) == multiset(s)
    ensures from == to ==> Move(s, from, to) == s
  {
    var rest := s[..from] + s[from + 1..];
    assert s == s[..from] + [s[from]] + s[from + 1..];
    assert multiset(s) == multiset(rest) + multiset{s[from]};
    assert rest == rest[..to] + rest[to..];
    assert multiset(rest) == multiset(rest[..to]) + multiset(rest[to..]);
    if from == to {
      assert rest[..to] == s[..from];
    }
  }

  /**
   * Apart from the moved item, entries before both indices and after both
   * keep their places, and those in between shift one place towards `from`.
   */
  lemma MoveShifts<T>(s: seq<T>, from: nat, to: nat, i: nat)
    requires from < |s| && to < |s| && i < |s|
    ensures i < from && i < to ==> Move(s, from, to)[i] == s[i]
    ensures i > from && i > to ==> Move(s, from, to)[i] == s[i]
    ensures from < i <= to ==> Move(s, from, to)[i - 1] == s[i]
    ensures to <= i < from ==> Move(s, from, to)[i + 1] == s[i]
  {
  }

  /** The entries' ids equal their positions, as after a split or a reorder. */
  predicate IdsArePositions(list: seq<Divided>) {
    forall i :: 0 <= i < |list| ==> list[i].id == i
  }

  /**
   * The body of `handleDrop` once the dragged index differs from the drop
   * index: the move of the dragged entry, then the `forEach` that rewrites
   * every id to the entry's new position.
   */
  method Reorder(list: seq<Divided>, draggedIndex: nat, dropIndex: nat) returns (reordered: seq<Divided>)
    requires draggedIndex < |list| && dropIndex < |list|
    ensures |reordered| == |list| && IdsArePositions(reordered)
    ensures forall i :: 0 <= i < |list| ==> reordered[i] == Move(list, draggedIndex, dropIndex)[i].(id := i)
  {
    var items := list;
    var draggedItem := items[draggedIndex];
    items := items[..draggedIndex] + items[draggedIndex + 1..];
    items := items[..dropIndex] + [draggedItem] + items[dropIndex..];
    ghost var moved := items;
    assert moved == Move(list, draggedIndex, dropIndex);
    var index := 0;
    while index < |items|
      invariant 0 <= index <= |items| == |list|
      invariant forall i :: 0 <= i < index ==> items[i] == moved[i].(id := i)
      invariant forall i :: index <= i < |items| ==> items[i] == moved[i]
    {
      items := items[index := items[index].(id := index)];
      index := index + 1;
    }
    reordered := items;
  }

  /** Dragging the first of [a, b, c] onto the last gives [b, c, a]. */
  lemma MoveFirstToLastExample<T>(a: T, b: T, c: T)
    ensures Move([a, b, c], 0, 2) == [b, c, a]
  {
  }

  /** Every result's pages, result by result, in the list's current order. */
  function Concat(list: seq<Divided>): seq<Page> {
    if list == [] then [] else Concat(list[..|list| - 1]) + list[|list| - 1].pages
  }

  lemma {:induction false} ConcatAppend(a: seq<Divided>, b: seq<Divided>)
    ensures Concat(a + b) == Concat(a) + Concat(b)
    decreases |b|
  {
    if b == [] {
      assert a + b == a;
    } else {
      var init, last := b[..|b| - 1], b[|b| - 1];
      var ab := a + b;
      assert ab[..|ab| - 1] == a + init;
      assert ab[|ab| - 1] == last;
      ConcatAppend(a, init);
      var x, y, z := Concat(a), Concat(init), last.pages;
      assert Concat(ab) == (x + y) + z;
      assert Concat(b) == y + z;
      assert (x + y) + z == x + (y + z);
    }
  }

  /** The merged pages of [x] followed by a list: x's pages, then the list's. */
  lemma {:induction false} ConcatCons(x: Divided, rest: seq<Divided>)
    ensures Concat([x] + rest) == x.pages + Concat(rest)
  {
    ConcatAppend([x], rest);
    assert [x][..0] == [];
  }

  /** The loop of `mergeAllPdfs`: every page of every entry appended, entry by entry. */
  method MergePages(list: seq<Divided>) returns (merged: seq<Page>)
    ensures merged == Concat(list)
  {
    merged := [];
    var i := 0;
    while i < |list|
      invariant 0 <= i <= |list|
      invariant merged == Concat(list[..i])
    {
      assert list[..i + 1][..i] == list[..i];
      merged := merged + list[i].pages;
      i := i + 1;
    }
    assert list[..|list|] == list;
  }

  /** Merging after dragging the first of three entries onto the last: b's pages, then c's, then a's. */
  lemma MergeAfterMoveExample(a: Divided, b: Divided, c: Divided)
    ensures Concat(Move([a, b, c], 0, 2)) == b.pages + c.pages + a.pages
  {
    MoveFirstToLastExample(a, b, c);
    assert Move([a, b, c], 0, 2) == [b, c, a];
    ConcatCons(b, [c, a]);
    ConcatCons(c, [a]);
    ConcatCons(a, []);
    assert [b] + [c, a] == [b, c, a];
    assert [c] + [a] == [c, a];
    assert [a] + [] == [a];
  }

  lemma ConcatSingle(x: Divided)
    ensures Concat([x]) == x.pages
  {
    assert [x][..0] == [];
  }

  lemma ConcatOfFour(a: seq<Divided>, b: seq<Divided>, c: seq<Divided>, d: seq<Divided>)
    ensures Concat(a + b + c + d) == Concat(a) + Concat(b) + Concat(c) + Concat(d)
  {
    ConcatAppend(a + b + c, d);
    ConcatAppend(a + b, c);
    ConcatAppend(a, b);
  }

  /**
   * The merge follows the order left by a drag, whatever the indices: the
   * entries the dragged one passed over come before its pages when it moved
   * forward and after them when it moved back, and everything else keeps its
   * place.
   */
  lemma MergeFollowsCurrentOrder(s: seq<Divided>, from: nat, to: nat)
    requires from < |s| && to < |s|
    ensures from <= to ==>
      Concat(Move(s, from, to)) == Concat(s[..from]) + Concat(s[from + 1..to + 1]) + s[from].pages + Concat(s[to + 1..])
    ensures to < from ==>
      Concat(Move(s, from, to)) == Concat(s[..to]) + s[from].pages + Concat(s[to..from]) + Concat(s[from + 1..])
  {
    var rest := s[..from] + s[from + 1..];
    var x := s[from];
    assert Move(s, from, to) == rest[..to] + [x] + rest[to..];
    ConcatSingle(x);
    if from <= to {
      assert rest[..to] == s[..from] + s[from + 1..to + 1];
      assert rest[to..] == s[to + 1..];
      ConcatOfFour(s[..from], s[from + 1..to + 1], [x], s[to + 1..]);
      assert Move(s, from, to) == s[..from] + s[from + 1..to + 1] + [x] + s[to + 1..];
    } else {
      assert rest[..to] == s[..to];
      assert rest[to..] == s[to..from] + s[from + 1..];
      ConcatOfFour(s[..to], [x], s[to..from], s[from + 1..]);
      assert Move(s, from, to) == s[..to] + [x] + s[to..from] + s[from + 1..];
    }
  }

  /** Renumbering the ids does not change the merge: only each entry's pages matter. */
  lemma {:induction false} ConcatSamePages(a: seq<Divided>, b: seq<Divided>)
    requires |a| == |b| && forall i :: 0 <= i < |a| ==> a[i].pages == b[i].pages
    ensures Concat(a) == Concat(b)
    decreases |a|
  {
    if a != [] {
      var n := |a| - 1;
      assert forall i :: 0 <= i < n ==> a[..n][i].pages == b[..n][i].pages by {
        forall i | 0 <= i < n ensures a[..n][i].pages == b[..n][i].pages {
          assert a[..n][i] == a[i] && b[..n][i] == b[i];
        }
      }
      ConcatSamePages(a[..n], b[..n]);
    }
  }

  /** Ranges that cut pages lo..hi into consecutive, non-empty, in-order pieces. */
  predicate Tiles(rs: seq<PageRange>, lo: int, hi: int)
    decreases |rs|
  {
    && rs != []
    && rs[0].start == Num(lo) && rs[0].end.Num? && lo <= rs[0].end.n
    && (if |rs| == 1 then rs[0].end.n == hi else Tiles(rs[1..], rs[0].end.n + 1, hi))
  }

  lemma {:induction false} TilesBounds(rs: seq<PageRange>, lo: int, hi: int)
    requires Tiles(rs, lo, hi)
    ensures rs[0].end.Num? && lo <= rs[0].end.n <= hi
    decreases |rs|
  {
    if |rs| > 1 {
      TilesBounds(rs[1..], rs[0].end.n + 1, hi);
    }
  }

  /** Each range of a tiling of lo..hi lies within lo..hi and extracts its own pages. */
  lemma {:induction false} TilesAreExtractable(rs: seq<PageRange>, source: seq<Page>, lo: int, hi: int, i: nat)
    requires Tiles(rs, lo, hi) && 1 <= lo && hi <= |source| && i < |rs|
    ensures rs[i].start.Num? && rs[i].end.Num? && lo <= rs[i].start.n <= rs[i].end.n <= hi
    ensures RangePages(rs[i], source) == Some(source[rs[i].start.n - 1..rs[i].end.n])
    decreases |rs|
  {
    TilesBounds(rs, lo, hi);
    if i > 0 {
      TilesAreExtractable(rs[1..], source, rs[0].end.n + 1, hi, i - 1);
    }
  }

  /**
   * Splitting by ranges that tile pages lo..hi and merging the results in
   * split order gives back exactly those pages of the source.
   */
  lemma {:induction false} TiledSplitMerges(rs: seq<PageRange>, source: seq<Page>, lo: int, hi: int, list: seq<Divided>)
    requires Tiles(rs, lo, hi) && 1 <= lo && hi <= |source|
    requires |list| == |rs|
    requires forall i :: 0 <= i < |rs| ==> Some(list[i].pages) == RangePages(rs[i], source)
    ensures lo <= hi && Concat(list) == source[lo - 1..hi]
    decreases |rs|
  {
    TilesBounds(rs, lo, hi);
    TilesAreExtractable(rs, source, lo, hi, 0);
    var e := rs[0].end.n;
    assert Some(list[0].pages) == RangePages(rs[0], source);
    if |rs| == 1 {
      JoinPages(list, source, lo, e, hi);
    } else {
      TailMatches(rs, source, list);
      TiledSplitMerges(rs[1..], source, e + 1, hi, list[1..]);
      JoinPages(list, source, lo, e, hi);
    }
  }

  /** The head's pages lo..e followed by the rest's pages e+1..hi are the pages lo..hi. */
  lemma JoinPages(list: seq<Divided>, source: seq<Page>, lo: int, e: int, hi: int)
    requires list != [] && 1 <= lo <= e + 1 && e <= hi <= |source|
    requires list[0].pages == source[lo - 1..e]
    requires |list| == 1 ==> e == hi
    requires |list| > 1 ==> Concat(list[1..]) == source[e..hi]
    ensures Concat(list) == source[lo - 1..hi]
  {
    ConcatCons(list[0], list[1..]);
    assert list == [list[0]] + list[1..];
    if |list| == 1 {
      assert list[1..] == [];
    } else {
      SliceJoin(source, lo - 1, e, hi);
    }
  }

  lemma SliceJoin<T>(s: seq<T>, a: int, b: int, c: int)
    requires 0 <= a <= b <= c <= |s|
    ensures s[a..c] == s[a..b] + s[b..c]
  {
  }

  lemma TailMatches(rs: seq<PageRange>, source: seq<Page>, list: seq<Divided>)
    requires |list| == |rs| > 1
    requires forall i :: 0 <= i < |rs| ==> Some(list[i].pages) == RangePages(rs[i], source)
    ensures forall i :: 0 <= i < |rs| - 1 ==> Some(list[1..][i].pages) == RangePages(rs[1..][i], source)
  {
    forall i | 0 <= i < |rs| - 1 ensures Some(list[1..][i].pages) == RangePages(rs[1..][i], source) {
      assert list[1..][i] == list[i + 1] && rs[1..][i] == rs[i + 1];
    }
  }

  /** Ranges that tile the whole document all extract. */
  lemma TilingNeverFails(rs: seq<PageRange>, source: seq<Page>)
    requires Tiles(rs, 1, |source|)
    ensures FirstFailure(rs, source) == |rs|
  {
    forall i | 0 <= i < |rs| ensures RangePages(rs[i], source).Some? {
      TilesAreExtractable(rs, source, 1, |source|, i);
    }
  }

  /** A piece of a tiling is never empty, so saving it adds no blank page. */
  lemma TiledEntryPages(rs: seq<PageRange>, source: seq<Page>, i: nat)
    requires Tiles(rs, 1, |source|) && i < FirstFailure(rs, source)
    ensures Some(Entry(rs, source, i).pages) == RangePages(rs[i], source)
  {
    TilesAreExtractable(rs, source, 1, |source|, i);
    var p := source[rs[i].start.n - 1..rs[i].end.n];
    assert |p| >= 1;
    assert Entry(rs, source, i).pages == Saved(p);
  }

  lemma TiledEntriesMatch(rs: seq<PageRange>, source: seq<Page>, list: seq<Divided>)
    requires Tiles(rs, 1, |source|) && FirstFailure(rs, source) == |rs| == |list|
    requires forall i :: 0 <= i < |list| ==> list[i] == Entry(rs, source, i)
    ensures forall i :: 0 <= i < |rs| ==> Some(list[i].pages) == RangePages(rs[i], source)
  {
    forall i | 0 <= i < |rs| ensures Some(list[i].pages) == RangePages(rs[i], source) {
      TiledEntryPages(rs, source, i);
    }
  }

  lemma TiledWholeMerges(rs: seq<PageRange>, source: seq<Page>, list: seq<Divided>)
    requires Tiles(rs, 1, |source|) && |list| == |rs|
    requires forall i :: 0 <= i < |rs| ==> Some(list[i].pages) == RangePages(rs[i], source)
    ensures Concat(list) == source
  {
    TiledSplitMerges(rs, source, 1, |source|, list);
    assert source[0..|source|] == source;
  }

  /** Split ranges that cover the whole document in order, and merging the results restores it. */
  lemma SplitThenMergeRestores(rs: seq<PageRange>, source: seq<Page>, list: seq<Divided>)
    requires Tiles(rs, 1, |source|)
    requires |list| == FirstFailure(rs, source)
    requires forall i :: 0 <= i < |list| ==> list[i] == Entry(rs, source, i)
    ensures |list| == |rs| && Concat(list) == source
  {
    TilingNeverFails(rs, source);
    TiledEntriesMatch(rs, source, list);
    TiledWholeMerges(rs, source, list);
  }

  /**
   * The merged file's name: the loaded file's name with its first ".pdf"
   * removed, then "_unido.pdf"; "pdf_unido.pdf" when no file is loaded.
   */
  function MergedFileName(file: Option<string>): (name: string)
    ensures |name| >= 10 && name[|name| - 10..] == "_unido.pdf"
    ensures file.None? ==> name == "pdf_unido.pdf"
  {
    match file
    case None => "pdf_unido.pdf"
    case Some(fileName) => ReplaceFirst(fileName, ".pdf", "") + "_unido.pdf"
  }

  /** A name whose only ".pdf" is its extension loses exactly that extension. */
  lemma MergedNameDropsExtension(base: string)
    requires forall j: nat :: !OccursAt(base, ".pdf", j)
    ensures MergedFileName(Some(base + ".pdf")) == base + "_unido.pdf"
  {
    var s := base + ".pdf" + "";
    assert s == base + ".pdf";
    forall j: nat | j < |base| ensures !OccursAt(s, ".pdf", j) {
      if j + 4 <= |base| {
        assert s[j..j + 4] == base[j..j + 4];
        assert !OccursAt(base, ".pdf", j);
      } else {
        assert s[|base|] == '.';
        assert ".pdf"[|base| - j] != '.';
        assert j + 4 <= |s| ==> s[j..j + 4][|base| - j] == '.';
      }
    }
    ReplaceFirstOccurrence(base, ".pdf", "", "");
  }

  /**
   * Only the first ".pdf" is removed, wherever it stands and whatever
   * follows it: "a.pdf.b.pdf" merges into "a.b.pdf_unido.pdf".
   */
  lemma MergedNameRemovesFirstPdf(before: string, after: string)
    requires forall j: nat :: j < |before| ==> !OccursAt(before + ".pdf" + after, ".pdf", j)
    ensures MergedFileName(Some(before + ".pdf" + after)) == before + after + "_unido.pdf"
  {
    var fileName := before + ".pdf" + after;
    ReplaceFirstOccurrence(before, ".pdf", after, "");
    assert before + "" + after == before + after;
    assert MergedFileName(Some(fileName)) == ReplaceFirst(fileName, ".pdf", "") + "_unido.pdf";
  }

  /** A name without ".pdf" keeps its whole text. */
  lemma MergedNameWithoutPdf(fileName: string)
    requires forall j: nat :: !OccursAt(fileName, ".pdf", j)
    ensures MergedFileName(Some(fileName)) == fileName + "_unido.pdf"
  {
    ReplaceWithoutOccurrence(fileName, ".pdf", "");
  }
}
