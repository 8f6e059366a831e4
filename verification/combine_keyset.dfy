/** The sheet compositor of `combine_keyset.py`: directory entries sorted by
    name (string order, not numeric), then laid out by the cursor machine on
    an A4 page with no column limit, so a row is closed only by the right
    margin. */
module CombineKeyset {
  import opened Results
  import opened Layout

  /** Python's `<=` on `str`: lexicographic by code point, a proper prefix
      coming first. */
  predicate LexLe(a: string, b: string)
    decreases |a|
  {
    a == [] || (b != [] && (a[0] < b[0] || (a[0] == b[0] && LexLe(a[1..], b[1..]))))
  }

  lemma {:induction false} LexLeTotal(a: string, b: string)
    ensures LexLe(a, b) || LexLe(b, a)
    decreases |a|
  {
    if a != [] && b != [] && a[0] == b[0] {
      LexLeTotal(a[1..], b[1..]);
    }
  }

  lemma {:induction false} LexLeTransitive(a: string, b: string, c: string)
    requires LexLe(a, b) && LexLe(b, c)
    ensures LexLe(a, c)
    decreases |a|
  {
    if a != [] && a[0] == b[0] && b[0] == c[0] {
      LexLeTransitive(a[1..], b[1..], c[1..]);
    }
  }

  lemma {:induction false} LexLeAntisymmetric(a: string, b: string)
    requires LexLe(a, b) && LexLe(b, a)
    ensures a == b
    decreases |a|
  {
    if a != [] {
      LexLeAntisymmetric(a[1..], b[1..]);
      assert a == [a[0]] + a[1..] && b == [b[0]] + b[1..];
    }
  }

  /** String order is not numeric order: "10-…" sorts before "2-…". */
  lemma TenSortsBeforeTwo()
    ensures LexLe("10-a.svg", "2-b.svg") && !LexLe("2-b.svg", "10-a.svg")
  {
  }

  predicate SortedByName(s: seq<Item>) {
    forall i, j :: 0 <= i < j < |s| ==> LexLe(s[i].name, s[j].name)
  }

  /** Inserts `x` before the first entry whose name is not smaller. */
  function InsertByName(x: Item, s: seq<Item>): (r: seq<Item>)
    ensures multiset(r) == multiset(s) + multiset{x}
  {
    if s == [] || LexLe(x.name, s[0].name) then [x] + s
    else
      assert s == [s[0]] + s[1..];
      [s[0]] + InsertByName(x, s[1..])
  }

  lemma {:induction false} InsertByNameSorted(x: Item, s: seq<Item>)
    requires SortedByName(s)
    ensures SortedByName(InsertByName(x, s))
  {
    var r := InsertByName(x, s);
    if s == [] {
    } else if LexLe(x.name, s[0].name) {
      forall j | 0 < j < |r| ensures LexLe(x.name, r[j].name) {
        assert r[j] == s[j - 1];
        if j > 1 {
          LexLeTransitive(x.name, s[0].name, s[j - 1].name);
        }
      }
    } else {
      LexLeTotal(x.name, s[0].name);
      var t := InsertByName(x, s[1..]);
      InsertByNameSorted(x, s[1..]);
      assert r == [s[0]] + t;
      forall j | 0 < j < |r| ensures LexLe(s[0].name, r[j].name) {
        assert r[j] == t[j - 1];
        assert t[j - 1] in multiset(t);
        if t[j - 1] != x {
          assert t[j - 1] in s[1..];
        }
      }
    }
  }

  /** `sorted(os.listdir(...))`: the entries in ascending name order (an
      insertion sort; equal names keep their listing order). */
  function SortByName(s: seq<Item>): (r: seq<Item>)
    ensures multiset(r) == multiset(s)
    ensures SortedByName(r)
  {
    if s == [] then []
    else
      assert s == [s[0]] + s[1..];
      InsertByNameSorted(s[0], SortByName(s[1..]));
      InsertByName(s[0], SortByName(s[1..]))
  }

  /** A sorted list begins with its least element. */
  lemma SortedHeadIsLeast(s: seq<Item>, it: Item)
    requires SortedByName(s) && it in s
    ensures LexLe(s[0].name, it.name)
  {
    var k :| 0 <= k < |s| && s[k] == it;
    if k == 0 {
      LexLeTotal(it.name, it.name);
    }
  }

  /** Two sorted rearrangements of one listing with distinct names begin
      with the same entry. */
  lemma SortedHeadsAgree(a: seq<Item>, b: seq<Item>)
    requires SortedByName(a) && SortedByName(b)
    requires multiset(a) == multiset(b) && DistinctNames(a)
    requires a != [] && b != []
    ensures a[0] == b[0]
  {
    assert a[0] in multiset(b) && b[0] in multiset(a);
    SortedHeadIsLeast(a, b[0]);
    SortedHeadIsLeast(b, a[0]);
    LexLeAntisymmetric(a[0].name, b[0].name);
    NameDeterminesEntry(a, a[0], b[0]);
  }

  /** Names sort uniquely: two sorted rearrangements of a listing with
      distinct names are the same list. */
  lemma {:induction false} SortedPermutationIsUnique(a: seq<Item>, b: seq<Item>)
    requires SortedByName(a) && SortedByName(b)
    requires multiset(a) == multiset(b) && DistinctNames(a)
    ensures a == b
    decreases |a|
  {
    assert |b| == |multiset(b)| == |multiset(a)| == |a|;
    if a != [] {
      SortedHeadsAgree(a, b);
      TailMultiset(a);
      TailMultiset(b);
      SortedPermutationIsUnique(a[1..], b[1..]);
      assert a == [a[0]] + a[1..] && b == [b[0]] + b[1..];
    }
  }

  /** The tail of a listing counts every entry but its head. */
  lemma TailMultiset(s: seq<Item>)
    requires s != []
    ensures multiset(s[1..]) == multiset(s) - multiset{s[0]}
  {
    assert s == [s[0]] + s[1..];
  }

  /** `SortByName` is the sort by name: every rearrangement of the listing
      that has its names in ascending order (and no name twice, as in a
      directory) is exactly what `SortByName` returns. */
  lemma SortByNameIsTheSortedPermutation(s: seq<Item>, t: seq<Item>)
    requires DistinctNames(s)
    requires multiset(t) == multiset(s) && SortedByName(t)
    ensures SortByName(s) == t
  {
    PermutationKeepsNamesDistinct(s, t);
    SortedPermutationIsUnique(t, SortByName(s));
  }

  /** Keeping the drawings commutes with inserting into a sorted list. */
  lemma {:induction false} SvgItemsOfInsert(x: Item, t: seq<Item>)
    requires SortedByName(t)
    ensures SvgItems(InsertByName(x, t)) == if IsSvg(x) then InsertByName(x, SvgItems(t)) else SvgItems(t)
  {
    if t == [] || LexLe(x.name, t[0].name) {
      assert InsertByName(x, t) == [x] + t;
      assert ([x] + t)[1..] == t;
      var f := SvgItems(t);
      if IsSvg(x) && f != [] {
        assert f[0] in t;
        SortedHeadIsLeast(t, f[0]);
        LexLeTransitive(x.name, t[0].name, f[0].name);
      }
    } else {
      assert InsertByName(x, t) == [t[0]] + InsertByName(x, t[1..]);
      assert ([t[0]] + InsertByName(x, t[1..]))[1..] == InsertByName(x, t[1..]);
      SvgItemsOfInsert(x, t[1..]);
    }
  }

  /** Sorting then keeping the drawings is keeping the drawings then sorting. */
  lemma {:induction false} SortCommutesWithSvgFilter(s: seq<Item>)
    ensures SvgItems(SortByName(s)) == SortByName(SvgItems(s))
  {
    if s != [] {
      SortCommutesWithSvgFilter(s[1..]);
      SvgItemsOfInsert(s[0], SortByName(s[1..]));
    }
  }

  /** reportlab's millimetre: 72 points per inch, 25.4 mm per inch. */
  const Mm: real := 72.0 / 25.4

  /** The A4 page, 210 mm by 297 mm, with no column limit. This script keeps
      no column counter; the `column` field of its placements is the shared
      machine's bookkeeping and no property of this sheet depends on it. */
  function A4(keySize: real): Config {
    Config(210.0 * Mm, 297.0 * Mm, Mm, keySize, None)
  }

  /** The drawings in the order they are placed: the `.svg` entries sorted
      by name. */
  function DrawingOrder(entries: seq<Item>): (order: seq<Item>)
    ensures multiset(order) == multiset(SvgItems(entries))
    ensures SortedByName(order)
    ensures forall i :: 0 <= i < |order| ==> IsSvg(order[i])
  {
    var order := SortByName(SvgItems(entries));
    assert forall i :: 0 <= i < |order| ==> IsSvg(order[i]) by {
      forall i | 0 <= i < |order| ensures IsSvg(order[i]) {
        assert order[i] in multiset(SvgItems(entries));
      }
    }
    order
  }

  /** `combine_svgs_to_pdf`: the placements drawn on the A4 sheet. Without a
      column limit the column wrap never fires, so no run fails. */
  function Compose(keySize: real, entries: seq<Item>): (ps: seq<Placement>)
    ensures Run(A4(keySize), Start(A4(keySize)), SortByName(entries)) == Ok(ps)
  {
    var cfg := A4(keySize);
    NeverFailsWithPositiveLimit(cfg, Start(cfg), SortByName(entries));
    Run(cfg, Start(cfg), SortByName(entries)).value
  }

  /** Entries that are not drawings are skipped without moving the cursor:
      the sheet is the drawing order laid out. */
  lemma ComposeRunsDrawingOrder(keySize: real, entries: seq<Item>)
    ensures
      var cfg := A4(keySize);
      Run(cfg, Start(cfg), DrawingOrder(entries)) == Ok(Compose(keySize, entries))
  {
    var cfg := A4(keySize);
    SkipsNonSvg(cfg, Start(cfg), SortByName(entries));
    SortCommutesWithSvgFilter(entries);
    SkipsNonSvg(cfg, Start(cfg), DrawingOrder(entries));
    SvgItemsOfDrawings(DrawingOrder(entries));
  }

  /** Composing the whole listing is composing its `.svg` entries alone. */
  lemma ComposeIgnoresNonSvg(keySize: real, entries: seq<Item>)
    ensures Compose(keySize, entries) == Compose(keySize, SvgItems(entries))
  {
    ComposeRunsDrawingOrder(keySize, entries);
    ComposeRunsDrawingOrder(keySize, SvgItems(entries));
    SvgItemsOfDrawings(SvgItems(entries));
  }

  /** Every `.svg` entry is drawn once, in ascending name order, scaled to
      the key width with its own aspect ratio. */
  lemma ComposeDrawsInOrder(keySize: real, entries: seq<Item>)
    ensures
      var ps := Compose(keySize, entries);
      var order := DrawingOrder(entries);
      && |ps| == |order|
      && (forall i :: 0 <= i < |ps| ==>
            && ps[i].name == order[i].name
            && ps[i].width == A4(keySize).Width()
            && ps[i].height == A4(keySize).HeightOf(order[i].aspect))
      && (forall i, j :: 0 <= i < j < |ps| ==> LexLe(ps[i].name, ps[j].name))
  {
    var cfg := A4(keySize);
    var order := DrawingOrder(entries);
    ComposeRunsDrawingOrder(keySize, entries);
    PlacesSvgItemsInOrder(cfg, Start(cfg), order);
    SvgItemsOfDrawings(order);
  }

  /** The first drawing goes at the top-left content corner, 10 mm in from
      the left edge and hanging from 10 mm below the top edge, unless it is
      wider than the content area, in which case it hangs one row lower. */
  lemma ComposeStartsTopLeft(keySize: real, entries: seq<Item>)
    requires Compose(keySize, entries) != []
    ensures
      var cfg := A4(keySize);
      var p := Compose(keySize, entries)[0];
      && p.x == 10.0 * Mm
      && p.Top() == 297.0 * Mm - 10.0 * Mm - (if cfg.Margin() + cfg.Width() > cfg.Right() then p.height else 0.0)
  {
    ComposeRunsDrawingOrder(keySize, entries);
    FirstPlacement(A4(keySize), DrawingOrder(entries));
  }

  /** Rows are closed by the right margin alone: each drawing goes right
      next to the previous one when it still fits inside the right content
      boundary, and otherwise starts a new row at the left margin, one
      drawing-height lower; no count of columns is ever consulted. */
  lemma ComposeWrapsOnlyAtMargin(keySize: real, entries: seq<Item>)
    ensures
      var cfg := A4(keySize);
      var ps := Compose(keySize, entries);
      forall i :: 0 <= i < |ps| - 1 ==>
        && (ps[i].x + 2.0 * cfg.Width() <= cfg.Right() ==>
              ps[i + 1].x == ps[i].x + cfg.Width() && ps[i + 1].Top() == ps[i].Top())
        && (ps[i].x + 2.0 * cfg.Width() > cfg.Right() ==>
              ps[i + 1].x == cfg.Margin() && ps[i + 1].Top() == ps[i].Top() - ps[i + 1].height)
  {
    var cfg := A4(keySize);
    var order := DrawingOrder(entries);
    var ps := Compose(keySize, entries);
    ComposeRunsDrawingOrder(keySize, entries);
    SvgItemsOfDrawings(order);
    EachFollowsItsPredecessor(cfg, Start(cfg), order);
    forall i | 0 <= i < |ps| - 1
      ensures ps[i].x + 2.0 * cfg.Width() <= cfg.Right() ==>
                ps[i + 1].x == ps[i].x + cfg.Width() && ps[i + 1].Top() == ps[i].Top()
      ensures ps[i].x + 2.0 * cfg.Width() > cfg.Right() ==>
                ps[i + 1].x == cfg.Margin() && ps[i + 1].Top() == ps[i].Top() - ps[i + 1].height
    {
      PlaceRules(cfg, Resume(cfg, ps[i]), order[i + 1]);
    }
  }

  /** Every drawn item fits inside the right content boundary or starts at
      the left margin, and, for non-negative sizes, hangs no higher than the
      top content edge and no higher than the item before it. */
  lemma ComposeGeometry(keySize: real, entries: seq<Item>)
    ensures
      var cfg := A4(keySize);
      var ps := Compose(keySize, entries);
      forall i :: 0 <= i < |ps| ==> ps[i].x + ps[i].width <= cfg.Right() || ps[i].x == cfg.Margin()
    ensures
      var ps := Compose(keySize, entries);
      keySize >= 0.0 && (forall it :: it in entries && IsSvg(it) ==> it.aspect >= 0.0) ==>
        && (forall i :: 0 <= i < |ps| ==> ps[i].Top() <= 297.0 * Mm - 10.0 * Mm)
        && (forall i, j :: 0 <= i < j < |ps| ==> ps[j].Top() <= ps[i].Top())
  {
    var cfg := A4(keySize);
    var order := DrawingOrder(entries);
    ComposeRunsDrawingOrder(keySize, entries);
    if keySize >= 0.0 && (forall it :: it in entries && IsSvg(it) ==> it.aspect >= 0.0) {
      forall it | it in order ensures it.aspect >= 0.0 {
        assert it in multiset(SvgItems(entries));
      }
    }
    GeometryFromStart(cfg, order);
  }
}
