/**
 * The list of requested page ranges behind the split form: what one
 * keystroke stores in an entry, how an entry is normalised when a bound
 * loses focus, and how whole ranges are added, removed and seeded.
 */
module RangeList {
  import opened Wrappers
  import opened JsText

  /** A page bound as the form holds it: '' while the box is cleared, or an integral number. */
  datatype Bound = Empty | Num(n: int)

  /** One requested range; `name` is the optional base name of its output file. */
  datatype PageRange = PageRange(start: Bound, end: Bound, name: string)

  /** The three inputs of an entry. */
  datatype Field = Start | End | Name

  /** JavaScript's conversion of a bound to a number, applied by `<`, `>`, `-` and `+ 1`: '' is 0. */
  function AsNumber(b: Bound): int {
    match b
    case Empty => 0
    case Num(n) => n
  }

  /** `start || 1`: the empty string and 0 are falsy and give 1. */
  function StartOrOne(b: Bound): (r: int)
    ensures AsNumber(b) == 0 ==> r == 1
    ensures AsNumber(b) != 0 ==> r == AsNumber(b)
  {
    if b == Empty || b == Num(0) then 1 else b.n
  }

  function Min(a: int, b: int): int { if a <= b then a else b }
  function Max(a: int, b: int): int { if a >= b then a else b }

  /** The bound held in a start or end input. */
  function BoundOf(r: PageRange, field: Field): Bound
    requires field != Name
  {
    if field == Start then r.start else r.end
  }

  /** A range that is ready to split a document of `totalPages` pages: 1 <= start <= end <= totalPages. */
  predicate Settled(r: PageRange, totalPages: int) {
    r.start.Num? && r.end.Num? && 1 <= r.start.n <= r.end.n <= totalPages
  }

  predicate AllSettled(rs: seq<PageRange>, totalPages: int) {
    forall i :: 0 <= i < |rs| ==> Settled(rs[i], totalPages)
  }

  /**
   * One keystroke in an input of the entry (`handleRangeChange`). A cleared
   * start or end box stores ''; text `parseInt` reads stores that number with
   * no clamping; text it cannot read leaves the entry as it was; the name
   * input stores its text verbatim. The other inputs are untouched.
   */
  function Change(r: PageRange, field: Field, raw: string): (e: PageRange)
    ensures e.name == if field == Name then raw else r.name
    ensures field != Start ==> e.start == r.start
    ensures field != End ==> e.end == r.end
    ensures field != Name && raw == "" ==> BoundOf(e, field) == Empty
    ensures field != Name && raw != "" && ParseInt(raw).Some? ==> BoundOf(e, field) == Num(ParseInt(raw).value)
    ensures field != Name && raw != "" && ParseInt(raw).None? ==> e == r
  {
    match field
    case Name => r.(name := raw)
    case _ =>
      var b := if raw == "" then Empty else match ParseInt(raw) { case None => BoundOf(r, field) case Some(v) => Num(v) };
      if field == Start then r.(start := b) else r.(end := b)
  }

  /**
   * Focus leaving an input of the entry (`handleRangeBlur`). A start becomes
   * max(1, min(start, totalPages)), or 1 when empty, and pulls the end up to
   * it when the end lies below; an end becomes max(start || 1, min(end,
   * totalPages)), or max(start || 1, 1) when empty. The name input has no
   * such handler wired, and the code would leave the entry unchanged for it.
   */
  function Blur(r: PageRange, field: Field, totalPages: int): (e: PageRange)
    ensures e.name == r.name
    ensures field == Name ==> e == r
    ensures field == Start ==>
      && e.start.Num? && 1 <= e.start.n && (totalPages >= 1 ==> e.start.n <= totalPages)
      && (r.start.Empty? ==> e.start == Num(1))
      && (r.start.Num? && 1 <= r.start.n <= totalPages ==> e.start == r.start)
      && (r.start.Num? && r.start.n < 1 ==> e.start == Num(1))
      && (r.start.Num? && totalPages < 1 ==> e.start == Num(1))
      && (r.start.Num? && r.start.n > totalPages >= 1 ==> e.start == Num(totalPages))
      && e.end.Num? && e.end.n >= e.start.n
      && (AsNumber(r.end) >= e.start.n ==> e.end == r.end)
      && (AsNumber(r.end) < e.start.n ==> e.end == e.start)
    ensures field == End ==>
      && e.start == r.start
      && e.end.Num? && e.end.n >= StartOrOne(r.start) && e.end.n >= AsNumber(e.start)
      && (StartOrOne(r.start) <= totalPages && (r.end.Num? || totalPages >= 1) ==> e.end.n <= totalPages)
      && (r.end.Empty? ==> e.end == Num(Max(StartOrOne(r.start), 1)))
      && (r.end.Num? && StartOrOne(r.start) <= r.end.n <= totalPages ==> e.end == r.end)
      && (r.end.Num? && r.end.n < StartOrOne(r.start) ==> e.end == Num(StartOrOne(r.start)))
      && (r.end.Num? && r.end.n > totalPages ==> e.end == Num(Max(StartOrOne(r.start), totalPages)))
  {
    match field
    case Name => r
    case Start =>
      var s := if r.start.Empty? then 1 else Max(1, Min(r.start.n, totalPages));
      r.(start := Num(s), end := if s > AsNumber(r.end) then Num(s) else r.end)
    case End =>
      var e := if r.end.Empty? then Max(StartOrOne(r.start), 1)
               else Max(StartOrOne(r.start), Min(r.end.n, totalPages));
      r.(end := Num(e))
  }

  /** Normalising the same input twice gives what normalising it once gave, for any document with pages. */
  lemma BlurIdempotent(r: PageRange, field: Field, totalPages: int)
    requires totalPages >= 1
    ensures Blur(Blur(r, field, totalPages), field, totalPages) == Blur(r, field, totalPages)
  {
  }

  /** Leaving an end input that already lies between the start and the last page changes nothing. */
  lemma BlurEndKeepsInRange(r: PageRange, totalPages: int)
    requires r.start.Num? && r.start.n >= 1 && r.end.Num? && r.start.n <= r.end.n <= totalPages
    ensures Blur(r, End, totalPages) == r
  {
  }

  /**
   * Normalising an input twice gives what normalising it once gave in every
   * case but one: the end of an entry with a negative start, left cleared, on
   * a document without pages.
   */
  lemma BlurIdempotentUnlessClearedEndWithoutPages(r: PageRange, field: Field, totalPages: int)
    ensures Blur(Blur(r, field, totalPages), field, totalPages) == Blur(r, field, totalPages)
       <==> !(field == End && totalPages < 1 && r.end.Empty? && r.start.Num? && r.start.n < 0)
  {
    if field == End && totalPages < 1 && r.end.Empty? && r.start.Num? && r.start.n < 0 {
      assert Blur(r, field, totalPages).end == Num(1);
      assert Blur(Blur(r, field, totalPages), field, totalPages).end != Num(1);
    }
  }

  /** Without pages the end's normalisation is not idempotent: a start of -1 lifts a cleared end to 1, then min(1, 0) brings it to 0. */
  lemma BlurNotIdempotentWithoutPages()
    ensures var r := PageRange(Num(-1), Empty, "");
            Blur(Blur(r, End, 0), End, 0) != Blur(r, End, 0)
  {
  }

  /** Normalising the start and then the end settles any entry, however it was typed. */
  lemma BlurBothSettles(r: PageRange, totalPages: int)
    requires totalPages >= 1
    ensures Settled(Blur(Blur(r, Start, totalPages), End, totalPages), totalPages)
  {
  }

  /** A settled entry stays settled after any edit of one input followed by leaving that input. */
  lemma EditKeepsSettled(r: PageRange, field: Field, raw: string, totalPages: int)
    requires Settled(r, totalPages)
    ensures Settled(Blur(Change(r, field, raw), field, totalPages), totalPages)
  {
  }

  /** Typing the decimal text of any integer stores exactly that integer, out of range or not. */
  lemma ChangeStoresNumberUnclamped(r: PageRange, field: Field, v: int)
    requires field != Name
    ensures BoundOf(Change(r, field, IntToString(v)), field) == Num(v)
  {
    ParseIntOfDecimal(v);
  }

  /** `addRange` is refused (its button disabled) when the last range already ends at or past the last page. */
  predicate AddDisabled(rs: seq<PageRange>, totalPages: int)
    requires rs != []
  {
    AsNumber(rs[|rs| - 1].end) >= totalPages
  }

  /**
   * `addRange`: a new unnamed range starting on the page after the last
   * range's end, ending on the same page, appended when that page exists.
   */
  function Add(rs: seq<PageRange>, totalPages: int): (r: seq<PageRange>)
    requires rs != []
    ensures |r| == |rs| || |r| == |rs| + 1
    ensures r[..|rs|] == rs
    ensures |r| == |rs| + 1 <==> AsNumber(rs[|rs| - 1].end) + 1 <= totalPages
    ensures |r| == |rs| + 1 ==>
      var next := AsNumber(rs[|rs| - 1].end) + 1;
      r[|rs|] == PageRange(Num(next), Num(next), "") && next <= totalPages
  {
    var nextStart := AsNumber(rs[|rs| - 1].end) + 1;
    if nextStart <= totalPages then rs + [PageRange(Num(nextStart), Num(Min(nextStart, totalPages)), "")]
    else rs
  }

  /** The add button is disabled exactly when adding would change nothing. */
  lemma AddDisabledIffNoOp(rs: seq<PageRange>, totalPages: int)
    requires rs != []
    ensures AddDisabled(rs, totalPages) <==> Add(rs, totalPages) == rs
  {
    if !AddDisabled(rs, totalPages) {
      assert |Add(rs, totalPages)| == |rs| + 1;
    }
  }

  /** Adding after a settled list keeps every range settled. */
  lemma AddKeepsSettled(rs: seq<PageRange>, totalPages: int)
    requires rs != [] && AllSettled(rs, totalPages)
    ensures AllSettled(Add(rs, totalPages), totalPages)
  {
    var r := Add(rs, totalPages);
    forall i | 0 <= i < |r| ensures Settled(r[i], totalPages) {
      if i < |rs| { assert r[i] == r[..|rs|][i]; }
    }
  }

  /** `filter((_, i) => i !== index)`, walking the list as the filter does. */
  function Without<T>(s: seq<T>, index: int): (r: seq<T>)
    ensures 0 <= index < |s| ==> r == s[..index] + s[index + 1..]
    ensures !(0 <= index < |s|) ==> r == s
  {
    if s == [] then []
    else (if index == 0 then [] else [s[0]]) + Without(s[1..], index - 1)
  }

  /**
   * `removeRange`: removes the range at `index` and keeps the others in order;
   * refused when only one range is left, so the list never becomes empty.
   */
  function Remove(rs: seq<PageRange>, index: int): (r: seq<PageRange>)
    ensures |rs| <= 1 ==> r == rs
    ensures |rs| > 1 && 0 <= index < |rs| ==> r == rs[..index] + rs[index + 1..]
    ensures !(0 <= index < |rs|) ==> r == rs
    ensures rs != [] ==> r != []
  {
    if |rs| > 1 then Without(rs, index) else rs
  }

  /** Removing keeps every remaining range settled. */
  lemma RemoveKeepsSettled(rs: seq<PageRange>, index: int, totalPages: int)
    requires AllSettled(rs, totalPages)
    ensures AllSettled(Remove(rs, index), totalPages)
  {
    var r := Remove(rs, index);
    if |rs| > 1 && 0 <= index < |rs| {
      forall i | 0 <= i < |r| ensures Settled(r[i], totalPages) {
        if i < index { assert r[i] == rs[i]; } else { assert r[i] == rs[i + 1]; }
      }
    }
  }

  /** The list a freshly loaded document of `pages` pages starts with: one range {1, min(1, pages)}. */
  function Seed(pages: int): (r: seq<PageRange>)
    ensures |r| == 1 && r[0].start == Num(1) && r[0].name == ""
    ensures pages >= 1 ==> r == [PageRange(Num(1), Num(1), "")] && AllSettled(r, pages)
    ensures pages < 1 ==> r[0].end == Num(pages)
  {
    [PageRange(Num(1), Num(Min(1, pages)), "")]
  }

  /** The list before any document and after a reset: one range {1, 1}. */
  const INITIAL_RANGES: seq<PageRange> := [PageRange(Num(1), Num(1), "")]
}
