/** The cursor machine shared by both sheet compositors: drawings are laid
    left to right from the top-left content corner; a row is closed when the
    column counter reaches the limit (if there is one) or when the next drawing
    would cross the right content boundary. Coordinates are exact reals with
    the origin at the bottom-left of the page, y growing upwards; `mm` is the
    size of one millimetre in page units. */
module Layout {
  import opened Results
  import opened Strings

  /** One directory entry: its file name and, when it is a drawing, its
      native aspect ratio (height / width). */
  datatype Item = Item(name: string, aspect: real)

  /** The fixed geometry of one run. `limit` is the maximum column count;
      `None` means rows are closed by the right margin only. */
  datatype Config = Config(pageWidth: real, pageHeight: real, mm: real, keySize: real, limit: Option<int>)
  {
    /** The 10 mm margin kept on every side of the page. */
    function Margin(): real {
      10.0 * mm
    }

    /** The right content boundary. */
    function Right(): real {
      pageWidth - Margin()
    }

    /** Every drawing is scaled to the key size. */
    function Width(): real {
      keySize * mm
    }

    /** The height of a drawing scaled to the key width. */
    function HeightOf(aspect: real): real {
      Width() * aspect
    }

    /** A full row of `n` drawings fits between the margins. */
    predicate RowFits(n: int) {
      Margin() + (n as real) * Width() <= Right()
    }
  }

  /** The layout state: the top-left corner where the next drawing goes, the
      number of drawings in the current row, and the height of the last
      drawing placed (`None` until one has been placed: the variable the
      column wrap reads is unbound before that). */
  datatype Cursor = Cursor(x: real, y: real, column: int, lastHeight: Option<real>)

  /** One drawn item: lower-left corner, size, and the column counter after
      placing it (its 1-based slot in its row). */
  datatype Placement = Placement(name: string, x: real, y: real, width: real, height: real, column: int)
  {
    /** The cursor height the item hangs from. */
    function Top(): real {
      y + height
    }
  }

  datatype LayoutError = HeightUnbound

  /** Only `.svg` entries are drawn. */
  predicate IsSvg(it: Item) {
    EndsWith(it.name, ".svg")
  }

  /** The initial cursor: top-left content corner, empty row. */
  function Start(cfg: Config): Cursor {
    Cursor(cfg.Margin(), cfg.pageHeight - cfg.Margin(), 0, None)
  }

  /** The column counter has reached the limit. */
  predicate ColumnFull(cfg: Config, c: Cursor) {
    cfg.limit.Some? && c.column >= cfg.limit.value
  }

  /** Places one drawing: the column wrap, then the right-margin wrap, then
      the draw at `(x, y - height)` and the advance of the cursor. It fails
      only when the column wrap needs the height of a previous drawing and
      there is none. */
  function Place(cfg: Config, c: Cursor, it: Item): (r: Result<(Cursor, Placement), LayoutError>)
    ensures r.Err? <==> ColumnFull(cfg, c) && c.lastHeight.None?
    ensures r.Ok? ==>
      && r.value.1.name == it.name
      && r.value.1.width == cfg.Width()
      && r.value.1.height == cfg.HeightOf(it.aspect)
      && r.value.0 == Resume(cfg, r.value.1)
  {
    var c1 :- if !ColumnFull(cfg, c) then Ok(c)
              else if c.lastHeight.None? then Err(HeightUnbound)
              else Ok(Cursor(cfg.Margin(), c.y - c.lastHeight.value, 0, c.lastHeight));
    var w := cfg.Width();
    var h := cfg.HeightOf(it.aspect);
    var c2 := if c1.x + w > cfg.Right() then Cursor(cfg.Margin(), c1.y - h, 0, c1.lastHeight) else c1;
    var p := Placement(it.name, c2.x, c2.y - h, w, h, c2.column + 1);
    Ok((Cursor(c2.x + w, c2.y, c2.column + 1, Some(h)), p))
  }

  /** The placement loop over the entries in the order given. Every drawing
      is placed once; the loop fails only when its very first drawing meets
      a full row with no height computed yet, since every placement leaves a
      height behind. */
  function Run(cfg: Config, c: Cursor, items: seq<Item>): (r: Result<seq<Placement>, LayoutError>)
    ensures r.Err? <==> ColumnFull(cfg, c) && c.lastHeight.None? && SvgItems(items) != []
    ensures r.Ok? ==> |r.value| == |SvgItems(items)|
    decreases |items|
  {
    if items == [] then Ok([])
    else if !IsSvg(items[0]) then
      assert SvgItems(items) == SvgItems(items[1..]);
      Run(cfg, c, items[1..])
    else
      assert SvgItems(items) == [items[0]] + SvgItems(items[1..]);
      match Place(cfg, c, items[0])
      case Err(e) => Err(e)
      case Ok(step) =>
        assert step.0.lastHeight.Some?;
        match Run(cfg, step.0, items[1..])
        case Err(e) => Err(e)
        case Ok(rest) => Ok([step.1] + rest)
  }

  /** The entries that are drawn, in order. */
  function SvgItems(items: seq<Item>): (svg: seq<Item>)
    ensures forall k :: 0 <= k < |svg| ==> IsSvg(svg[k])
    ensures forall it :: it in svg <==> it in items && IsSvg(it)
    ensures |svg| <= |items|
    ensures |items| == 1 ==> (svg == items <==> IsSvg(items[0])) && (svg == [] <==> !IsSvg(items[0]))
  {
    if items == [] then []
    else if IsSvg(items[0]) then [items[0]] + SvgItems(items[1..])
    else SvgItems(items[1..])
  }

  /** The filter distributes over concatenation. With the one-entry case of
      `SvgItems` this pins it down completely: the `.svg` entries are kept in
      listing order, repeats included, and nothing else is. */
  lemma {:induction false} SvgItemsAppend(a: seq<Item>, b: seq<Item>)
    ensures SvgItems(a + b) == SvgItems(a) + SvgItems(b)
    decreases |a|
  {
    if a == [] {
      assert a + b == b && SvgItems(a) == [];
      assert SvgItems(a) + SvgItems(b) == SvgItems(b);
    } else {
      var x, t := a[0], a[1..];
      assert a == [x] + t;
      assert a + b == [x] + (t + b);
      SvgItemsAppend(t, b);
      SvgItemsCons(x, t);
      SvgItemsCons(x, t + b);
      var head := if IsSvg(x) then [x] else [];
      assert SvgItems(a + b) == head + (SvgItems(t) + SvgItems(b));
      assert SvgItems(a) == head + SvgItems(t);
      ConcatAssoc(head, SvgItems(t), SvgItems(b));
    }
  }

  lemma ConcatAssoc(a: seq<Item>, b: seq<Item>, c: seq<Item>)
    ensures a + (b + c) == (a + b) + c
  {
  }

  /** Unfolding `SvgItems` over a leading entry. */
  lemma SvgItemsCons(x: Item, t: seq<Item>)
    ensures SvgItems([x] + t) == if IsSvg(x) then [x] + SvgItems(t) else SvgItems(t)
  {
    assert ([x] + t)[0] == x && ([x] + t)[1..] == t;
  }

  lemma {:induction false} SvgItemsOfDrawings(items: seq<Item>)
    requires forall i :: 0 <= i < |items| ==> IsSvg(items[i])
    ensures SvgItems(items) == items
    decreases |items|
  {
    if items != [] {
      var tail := items[1..];
      assert forall i :: 0 <= i < |tail| ==> tail[i] == items[i + 1];
      SvgItemsOfDrawings(tail);
      assert IsSvg(items[0]);
      assert items == [items[0]] + tail;
    }
  }

  /** No name occurs twice, as in a directory listing. */
  predicate DistinctNames(s: seq<Item>) {
    forall i, j :: 0 <= i < j < |s| ==> s[i].name != s[j].name
  }

  /** An entry that occurs at two positions is counted at least twice. */
  lemma CountedTwice(s: seq<Item>, i: int, j: int)
    requires 0 <= i < j < |s|
    ensures s[i] == s[j] ==> multiset(s)[s[i]] >= 2
  {
    assert s == s[..j] + s[j..];
    assert s[i] in s[..j] && s[j] == s[j..][0];
  }

  /** In a listing with distinct names every entry is counted once. */
  lemma {:induction false} CountedOnce(s: seq<Item>, x: Item)
    requires DistinctNames(s) && x in s
    ensures multiset(s)[x] == 1
  {
    if s[0] == x {
      assert x !in s[1..];
    } else {
      CountedOnce(s[1..], x);
    }
    assert s == [s[0]] + s[1..];
  }

  /** In a listing with distinct names an entry is determined by its name. */
  lemma NameDeterminesEntry(s: seq<Item>, x: Item, y: Item)
    requires DistinctNames(s) && x in s && y in s
    ensures x.name == y.name ==> x == y
  {
    var p :| 0 <= p < |s| && s[p] == x;
    var q :| 0 <= q < |s| && s[q] == y;
    assert p != q ==> s[p].name != s[q].name;
  }

  /** Rearranging a listing keeps its names distinct. */
  lemma PermutationKeepsNamesDistinct(a: seq<Item>, b: seq<Item>)
    requires multiset(a) == multiset(b) && DistinctNames(a)
    ensures DistinctNames(b)
  {
    forall i, j | 0 <= i < j < |b| ensures b[i].name != b[j].name {
      assert b[i] in multiset(a) && b[j] in multiset(a);
      NameDeterminesEntry(a, b[i], b[j]);
      CountedTwice(b, i, j);
      CountedOnce(a, b[i]);
    }
  }

  /** The cursor a placement leaves behind: everything the machine remembers
      is recoverable from the last drawn item. */
  function Resume(cfg: Config, p: Placement): Cursor {
    Cursor(p.x + cfg.Width(), p.Top(), p.column, Some(p.height))
  }

  /** The exact effect of one placement. A column wrap moves the cursor
      back to the left margin and down by the height of the PREVIOUS drawing;
      a margin wrap (checked after it, against the new x) moves it back to the
      left margin and down by the height of the CURRENT drawing; either wrap
      starts a new row. The item is then drawn hanging from the cursor. */
  lemma PlaceRules(cfg: Config, c: Cursor, it: Item)
    requires Place(cfg, c, it).Ok?
    ensures
      var p := Place(cfg, c, it).value.1;
      var w := cfg.Width();
      var dropped := if ColumnFull(cfg, c) then c.lastHeight.value else 0.0;
      var x0 := if ColumnFull(cfg, c) then cfg.Margin() else c.x;
      && (x0 + w > cfg.Right() ==>
            p.x == cfg.Margin() && p.Top() == c.y - dropped - p.height && p.column == 1)
      && (x0 + w <= cfg.Right() ==>
            p.x == x0 && p.Top() == c.y - dropped
            && p.column == (if ColumnFull(cfg, c) then 0 else c.column) + 1)
  {
  }

  /** Unfolding `Run` over a leading entry that is not a drawing. */
  lemma RunSkip(cfg: Config, c: Cursor, items: seq<Item>)
    requires items != [] && !IsSvg(items[0])
    ensures Run(cfg, c, items) == Run(cfg, c, items[1..])
  {
  }

  /** Unfolding `Run` over a leading drawing. */
  lemma RunStep(cfg: Config, c: Cursor, items: seq<Item>)
    requires items != [] && IsSvg(items[0])
    ensures Place(cfg, c, items[0]).Err? ==> Run(cfg, c, items) == Err(HeightUnbound)
    ensures Place(cfg, c, items[0]).Ok? ==>
      var step := Place(cfg, c, items[0]).value;
      var rest := Run(cfg, step.0, items[1..]);
      Run(cfg, c, items) == if rest.Ok? then Ok([step.1] + rest.value) else rest
  {
  }

  /** Entries that are not drawings change neither the cursor nor the column
      counter: running over all entries is running over the drawings alone. */
  lemma {:induction false} SkipsNonSvg(cfg: Config, c: Cursor, items: seq<Item>)
    ensures Run(cfg, c, items) == Run(cfg, c, SvgItems(items))
    decreases |items|
  {
    if items == [] {
    } else if !IsSvg(items[0]) {
      RunSkip(cfg, c, items);
      SkipsNonSvg(cfg, c, items[1..]);
    } else {
      var svg := SvgItems(items);
      assert svg[0] == items[0] && svg[1..] == SvgItems(items[1..]);
      RunStep(cfg, c, items);
      RunStep(cfg, c, svg);
      if Place(cfg, c, items[0]).Ok? {
        SkipsNonSvg(cfg, Place(cfg, c, items[0]).value.0, items[1..]);
      }
    }
  }

  /** A successful run draws every `.svg` entry exactly once, in the order
      given, each scaled to the key width with its own aspect ratio. */
  lemma {:induction false} PlacesSvgItemsInOrder(cfg: Config, c: Cursor, items: seq<Item>)
    requires Run(cfg, c, items).Ok?
    ensures
      var ps := Run(cfg, c, items).value;
      var svg := SvgItems(items);
      && |ps| == |svg|
      && forall i :: 0 <= i < |ps| ==>
           && ps[i].name == svg[i].name
           && ps[i].width == cfg.Width()
           && ps[i].height == cfg.HeightOf(svg[i].aspect)
    decreases |items|
  {
    if items == [] {
    } else if !IsSvg(items[0]) {
      RunSkip(cfg, c, items);
      PlacesSvgItemsInOrder(cfg, c, items[1..]);
    } else {
      RunStep(cfg, c, items);
      var step := Place(cfg, c, items[0]).value;
      var rest := Run(cfg, step.0, items[1..]).value;
      PlacesSvgItemsInOrder(cfg, step.0, items[1..]);
      var svg := SvgItems(items);
      var svgRest := SvgItems(items[1..]);
      assert svg == [items[0]] + svgRest;
      var ps := Run(cfg, c, items).value;
      assert ps == [step.1] + rest;
      forall i | 0 <= i < |ps|
        ensures ps[i].name == svg[i].name && ps[i].width == cfg.Width()
        ensures ps[i].height == cfg.HeightOf(svg[i].aspect)
      {
        if i > 0 {
          assert ps[i] == rest[i - 1] && svg[i] == svgRest[i - 1];
        }
      }
    }
  }

  /** Every drawn item either ends inside the right content boundary or
      starts at the left margin (a drawing wider than the content area is
      still drawn, alone on its row). */
  lemma {:induction false} FitsOrStartsAtMargin(cfg: Config, c: Cursor, items: seq<Item>)
    requires Run(cfg, c, items).Ok?
    ensures
      var ps := Run(cfg, c, items).value;
      forall i :: 0 <= i < |ps| ==>
        ps[i].x + ps[i].width <= cfg.Right() || ps[i].x == cfg.Margin()
    decreases |items|
  {
    if items == [] {
    } else if !IsSvg(items[0]) {
      RunSkip(cfg, c, items);
      FitsOrStartsAtMargin(cfg, c, items[1..]);
    } else {
      RunStep(cfg, c, items);
      PlaceRules(cfg, c, items[0]);
      var step := Place(cfg, c, items[0]).value;
      FitsOrStartsAtMargin(cfg, step.0, items[1..]);
      var ps := Run(cfg, c, items).value;
      assert ps == [step.1] + Run(cfg, step.0, items[1..]).value;
    }
  }

  /** With non-negative sizes the cursor never moves up: every item hangs at
      or below the starting height, and each one no higher than the one
      drawn before it. */
  lemma {:induction false} TopNeverRises(cfg: Config, c: Cursor, items: seq<Item>)
    requires Run(cfg, c, items).Ok?
    requires cfg.Width() >= 0.0
    requires forall it :: it in items && IsSvg(it) ==> it.aspect >= 0.0
    requires c.lastHeight.Some? ==> c.lastHeight.value >= 0.0
    ensures
      var ps := Run(cfg, c, items).value;
      && (forall i :: 0 <= i < |ps| ==> ps[i].Top() <= c.y)
      && (forall i, j :: 0 <= i < j < |ps| ==> ps[j].Top() <= ps[i].Top())
    decreases |items|
  {
    if items == [] {
    } else if !IsSvg(items[0]) {
      RunSkip(cfg, c, items);
      TopNeverRises(cfg, c, items[1..]);
    } else {
      RunStep(cfg, c, items);
      PlaceRules(cfg, c, items[0]);
      var step := Place(cfg, c, items[0]).value;
      var p := step.1;
      assert p.height >= 0.0 by {
        assert p.height == cfg.HeightOf(items[0].aspect);
        assert items[0].aspect >= 0.0;
      }
      TopNeverRises(cfg, step.0, items[1..]);
      var rest := Run(cfg, step.0, items[1..]).value;
      assert p.Top() <= c.y;
      TopsDescend(p, rest, c.y);
      assert Run(cfg, c, items).value == [p] + rest;
    }
  }

  /** A drawing no higher than `y` followed by drawings that descend from
      it: the whole row of tops descends from `y`. */
  lemma TopsDescend(p: Placement, rest: seq<Placement>, y: real)
    requires p.Top() <= y
    requires forall i :: 0 <= i < |rest| ==> rest[i].Top() <= p.Top()
    requires forall i, j :: 0 <= i < j < |rest| ==> rest[j].Top() <= rest[i].Top()
    ensures
      var ps := [p] + rest;
      && (forall i :: 0 <= i < |ps| ==> ps[i].Top() <= y)
      && (forall i, j :: 0 <= i < j < |ps| ==> ps[j].Top() <= ps[i].Top())
  {
    var ps := [p] + rest;
    forall i, j | 0 <= i < j < |ps| ensures ps[j].Top() <= ps[i].Top() {
      assert ps[j] == rest[j - 1];
      if i > 0 {
        assert ps[i] == rest[i - 1];
      }
    }
  }

  /** The machine's state is a function of the last drawn item: the first
      item is placed from the given cursor and every later one from the
      cursor its predecessor left behind. Together with `PlaceRules` this
      fixes the exact offsets of every item. */
  lemma {:induction false} EachFollowsItsPredecessor(cfg: Config, c: Cursor, items: seq<Item>)
    requires Run(cfg, c, items).Ok?
    ensures
      var ps := Run(cfg, c, items).value;
      var svg := SvgItems(items);
      && |ps| == |svg|
      && (|ps| > 0 ==> Place(cfg, c, svg[0]) == Ok((Resume(cfg, ps[0]), ps[0])))
      && forall i :: 0 <= i < |ps| - 1 ==>
           Place(cfg, Resume(cfg, ps[i]), svg[i + 1]) == Ok((Resume(cfg, ps[i + 1]), ps[i + 1]))
    decreases |items|
  {
    PlacesSvgItemsInOrder(cfg, c, items);
    if items == [] {
    } else if !IsSvg(items[0]) {
      RunSkip(cfg, c, items);
      EachFollowsItsPredecessor(cfg, c, items[1..]);
    } else {
      RunStep(cfg, c, items);
      var step := Place(cfg, c, items[0]).value;
      var rest := Run(cfg, step.0, items[1..]).value;
      EachFollowsItsPredecessor(cfg, step.0, items[1..]);
      var svg := SvgItems(items);
      assert svg[0] == items[0] && svg[1..] == SvgItems(items[1..]);
      var ps := Run(cfg, c, items).value;
      assert ps == [step.1] + rest;
      forall i | 0 <= i < |ps| - 1
        ensures Place(cfg, Resume(cfg, ps[i]), svg[i + 1]) == Ok((Resume(cfg, ps[i + 1]), ps[i + 1]))
      {
        if i == 0 {
          assert ps[1] == rest[0] && svg[1] == SvgItems(items[1..])[0];
        } else {
          assert ps[i] == rest[i - 1] && ps[i + 1] == rest[i] && svg[i + 1] == SvgItems(items[1..])[i];
        }
      }
    }
  }

  /** The first drawing of a run from the initial cursor goes in column 1 at
      the left margin, hanging from the top content edge, or one drawing
      lower when it is wider than the content area. */
  lemma FirstPlacement(cfg: Config, items: seq<Item>)
    requires Run(cfg, Start(cfg), items).Ok? && Run(cfg, Start(cfg), items).value != []
    ensures
      var p := Run(cfg, Start(cfg), items).value[0];
      && p.column == 1
      && p.x == cfg.Margin()
      && p.Top() == cfg.pageHeight - cfg.Margin()
                    - (if cfg.Margin() + cfg.Width() > cfg.Right() then p.height else 0.0)
  {
    var c := Start(cfg);
    var ps := Run(cfg, c, items).value;
    EachFollowsItsPredecessor(cfg, c, items);
    var first := SvgItems(items)[0];
    assert Place(cfg, c, first) == Ok((Resume(cfg, ps[0]), ps[0]));
    PlaceRules(cfg, c, first);
  }

  /** Without a column limit, or with a limit of at least one, the run never
      reads an unbound height: a full row always has a drawn item in it. */
  lemma {:induction false} NeverFailsWithPositiveLimit(cfg: Config, c: Cursor, items: seq<Item>)
    requires cfg.limit.Some? ==> cfg.limit.value >= 1
    requires c.column >= 1 ==> c.lastHeight.Some?
    ensures Run(cfg, c, items).Ok?
    decreases |items|
  {
    if items == [] {
    } else if !IsSvg(items[0]) {
      RunSkip(cfg, c, items);
      NeverFailsWithPositiveLimit(cfg, c, items[1..]);
    } else {
      RunStep(cfg, c, items);
      var step := Place(cfg, c, items[0]).value;
      NeverFailsWithPositiveLimit(cfg, step.0, items[1..]);
    }
  }

  /** With a limit of at least one, every item lands in column 1 to limit. */
  lemma {:induction false} ColumnsWithinLimit(cfg: Config, c: Cursor, items: seq<Item>, n: int)
    requires Run(cfg, c, items).Ok?
    requires cfg.limit == Some(n) && n >= 1
    requires 0 <= c.column <= n
    ensures
      var ps := Run(cfg, c, items).value;
      forall i :: 0 <= i < |ps| ==> 1 <= ps[i].column <= n
    decreases |items|
  {
    if items == [] {
    } else if !IsSvg(items[0]) {
      RunSkip(cfg, c, items);
      ColumnsWithinLimit(cfg, c, items[1..], n);
    } else {
      RunStep(cfg, c, items);
      PlaceRules(cfg, c, items[0]);
      var step := Place(cfg, c, items[0]).value;
      ColumnsWithinLimit(cfg, step.0, items[1..], n);
      var ps := Run(cfg, c, items).value;
      assert ps == [step.1] + Run(cfg, step.0, items[1..]).value;
    }
  }

  /** With a limit of zero or less and no height bound yet, the first drawing
      already enters the column wrap: the run fails exactly when there is a
      drawing to place. */
  lemma {:induction false} NonPositiveLimitFails(cfg: Config, c: Cursor, items: seq<Item>)
    requires cfg.limit.Some? && cfg.limit.value <= 0
    requires c.column >= 0 && c.lastHeight.None?
    ensures Run(cfg, c, items).Err? <==> SvgItems(items) != []
    decreases |items|
  {
    if items == [] {
    } else if !IsSvg(items[0]) {
      RunSkip(cfg, c, items);
      NonPositiveLimitFails(cfg, c, items[1..]);
    } else {
      RunStep(cfg, c, items);
      assert SvgItems(items)[0] == items[0];
    }
  }

  /** The geometry of a whole run from the initial cursor: every drawing
      fits or starts at the left margin, lies within the column limit when
      there is one, and, for non-negative sizes, hangs no higher than the
      top content edge and no higher than its predecessor. */
  lemma GeometryFromStart(cfg: Config, items: seq<Item>)
    requires Run(cfg, Start(cfg), items).Ok?
    ensures
      var ps := Run(cfg, Start(cfg), items).value;
      forall i :: 0 <= i < |ps| ==>
        && (ps[i].x + ps[i].width <= cfg.Right() || ps[i].x == cfg.Margin())
        && (cfg.limit.Some? ==> 1 <= ps[i].column <= cfg.limit.value)
    ensures
      var ps := Run(cfg, Start(cfg), items).value;
      cfg.Width() >= 0.0 && (forall it :: it in items && IsSvg(it) ==> it.aspect >= 0.0) ==>
        && (forall i :: 0 <= i < |ps| ==> ps[i].Top() <= cfg.pageHeight - cfg.Margin())
        && (forall i, j :: 0 <= i < j < |ps| ==> ps[j].Top() <= ps[i].Top())
  {
    var c := Start(cfg);
    FitsOrStartsAtMargin(cfg, c, items);
    if cfg.limit.Some? && Run(cfg, c, items).value != [] {
      ColumnsWithinLimit(cfg, c, items, cfg.limit.value);
    }
    if cfg.Width() >= 0.0 && (forall it :: it in items && IsSvg(it) ==> it.aspect >= 0.0) {
      TopNeverRises(cfg, c, items);
    }
  }

  /** Moving one full row further along shifts the quotient by one and
      leaves the remainder alone. */
  lemma ShiftByRow(m: nat, n: int)
    requires n >= 1
    ensures (m + n) % n == m % n
    ensures (m + n) / n == m / n + 1
  {
    DivModUnique(m + n, n, m / n + 1, m % n);
  }

  /** Euclidean division is determined by quotient and remainder. */
  lemma DivModUnique(x: int, n: int, q: int, r: int)
    requires n >= 1 && 0 <= r < n && x == q * n + r
    ensures x / n == q && x % n == r
  {
    var d := q - x / n;
    assert d * n == x % n - r;
    MultipleOfAtLeastOne(d, n);
  }

  lemma MultipleOfAtLeastOne(d: int, n: int)
    requires n >= 1
    ensures d >= 1 ==> d * n >= n
    ensures d <= -1 ==> d * n <= -n
  {
  }

  lemma ScaleMonotone(a: int, b: int, w: real)
    requires a <= b && w >= 0.0
    ensures (a as real) * w <= (b as real) * w
  {
  }

  /** Item i sits in slot `(column + i) mod n` of row `(column + i) div n`
      below `top`. */
  predicate GridFrom(cfg: Config, ps: seq<Placement>, column: int, top: real, n: int, a: real)
    requires n >= 1
  {
    forall i :: 0 <= i < |ps| ==>
      && ps[i].column == (column + i) % n + 1
      && ps[i].x == cfg.Margin() + (((column + i) % n) as real) * cfg.Width()
      && ps[i].Top() == top - (((column + i) / n) as real) * cfg.HeightOf(a)
  }

  lemma GridAt(cfg: Config, ps: seq<Placement>, column: int, top: real, n: int, a: real, i: int)
    requires n >= 1 && GridFrom(cfg, ps, column, top, n, a) && 0 <= i < |ps|
    ensures ps[i].column == (column + i) % n + 1
    ensures ps[i].x == cfg.Margin() + (((column + i) % n) as real) * cfg.Width()
    ensures ps[i].Top() == top - (((column + i) / n) as real) * cfg.HeightOf(a)
  {
  }

  /** Row-major order on the page: the i-th item (from 0) is in slot
      `i mod n` of row `i div n`, rows counted down from the top content
      edge, each one item height tall. */
  predicate RowMajor(cfg: Config, ps: seq<Placement>, n: int, a: real)
    requires n >= 1
  {
    forall i :: 0 <= i < |ps| ==>
      && ps[i].column == i % n + 1
      && ps[i].x == cfg.Margin() + ((i % n) as real) * cfg.Width()
      && ps[i].Top() == cfg.pageHeight - cfg.Margin() - ((i / n) as real) * cfg.HeightOf(a)
  }

  /** `GridFrom` counted from the initial cursor. */
  lemma GridFromRowStart(cfg: Config, ps: seq<Placement>, n: int, a: real)
    requires n >= 1 && GridFrom(cfg, ps, 0, Start(cfg).y, n, a)
    ensures RowMajor(cfg, ps, n, a)
  {
    forall i | 0 <= i < |ps|
      ensures ps[i].column == i % n + 1
      ensures ps[i].x == cfg.Margin() + ((i % n) as real) * cfg.Width()
      ensures ps[i].Top() == cfg.pageHeight - cfg.Margin() - ((i / n) as real) * cfg.HeightOf(a)
    {
      GridAt(cfg, ps, 0, Start(cfg).y, n, a, i);
      assert 0 + i == i;
    }
  }

  lemma StartOnGrid(cfg: Config, n: int, a: real)
    requires n >= 0
    ensures OnGrid(cfg, Start(cfg), n, a)
  {
    assert (0 as real) * cfg.Width() == 0.0;
  }

  /** `UniformGrid` for a whole run from the initial cursor: the i-th drawn
      item (from 0) lands in slot `i mod n` of row `i div n`. */
  lemma UniformGridFromStart(cfg: Config, items: seq<Item>, n: int, a: real)
    requires cfg.limit == Some(n) && n >= 1
    requires cfg.Width() >= 0.0
    requires cfg.RowFits(n)
    requires forall it :: it in items && IsSvg(it) ==> it.aspect == a
    ensures Run(cfg, Start(cfg), items).Ok?
    ensures RowMajor(cfg, Run(cfg, Start(cfg), items).value, n, a)
  {
    StartOnGrid(cfg, n, a);
    UniformGrid(cfg, Start(cfg), items, n, a);
    GridFromRowStart(cfg, Run(cfg, Start(cfg), items).value, n, a);
  }

  /** The grid invariant: the cursor is `column` key widths right of the
      margin, and once a row has begun the last height is the common one. */
  predicate OnGrid(cfg: Config, c: Cursor, n: int, a: real) {
    && 0 <= c.column <= n
    && c.x == cfg.Margin() + (c.column as real) * cfg.Width()
    && (c.column >= 1 ==> c.lastHeight == Some(cfg.HeightOf(a)))
  }

  /** One drawing of the common size placed from a cursor on the grid. */
  lemma GridStep(cfg: Config, c: Cursor, it: Item, n: int, a: real)
    requires cfg.limit == Some(n) && n >= 1
    requires cfg.Width() >= 0.0
    requires cfg.RowFits(n)
    requires it.aspect == a
    requires OnGrid(cfg, c, n, a)
    ensures Place(cfg, c, it).Ok?
    ensures FirstSlot(cfg, c, Place(cfg, c, it).value.1, n, a)
    ensures OnGrid(cfg, Place(cfg, c, it).value.0, n, a)
  {
    PlaceRules(cfg, c, it);
    var w := cfg.Width();
    var col := if c.column == n then 0 else c.column;
    ScaleMonotone(col + 1, n, w);
    assert ((col + 1) as real) * w == (col as real) * w + w;
  }

  /** Equal-sized drawings on a page wide enough for a full row of `n`: the
      column limit alone closes the rows, so the row wraps exactly every `n`
      items. Counting from a cursor already `column` items into a row (the
      start of a run is column 0), the i-th drawn item lands in slot
      `(column + i) mod n`, `(column + i) div n` rows further down. */
  lemma {:induction false} UniformGrid(cfg: Config, c: Cursor, items: seq<Item>, n: int, a: real)
    requires cfg.limit == Some(n) && n >= 1
    requires cfg.Width() >= 0.0
    requires cfg.RowFits(n)
    requires forall it :: it in items && IsSvg(it) ==> it.aspect == a
    requires OnGrid(cfg, c, n, a)
    ensures Run(cfg, c, items).Ok?
    ensures GridFrom(cfg, Run(cfg, c, items).value, c.column, c.y, n, a)
    decreases |items|
  {
    if items == [] {
    } else if !IsSvg(items[0]) {
      RunSkip(cfg, c, items);
      UniformGrid(cfg, c, items[1..], n, a);
    } else {
      RunStep(cfg, c, items);
      GridStep(cfg, c, items[0], n, a);
      var step := Place(cfg, c, items[0]).value;
      var p := step.1;
      UniformGrid(cfg, step.0, items[1..], n, a);
      var rest := Run(cfg, step.0, items[1..]).value;
      var ps := Run(cfg, c, items).value;
      assert ps == [p] + rest;
      GridIndex(cfg, c, step.0, ps, rest, n, a);
    }
  }

  /** The index bookkeeping of `UniformGrid`'s inductive step. */
  lemma GridIndex(cfg: Config, c: Cursor, next: Cursor, ps: seq<Placement>, rest: seq<Placement>, n: int, a: real)
    requires n >= 1 && 0 <= c.column <= n && |ps| >= 1
    requires ps == [ps[0]] + rest
    requires FirstSlot(cfg, c, ps[0], n, a)
    requires next.column == ps[0].column && next.y == ps[0].Top()
    requires GridFrom(cfg, rest, next.column, next.y, n, a)
    ensures GridFrom(cfg, ps, c.column, c.y, n, a)
  {
    forall i | 0 <= i < |ps|
      ensures ps[i].column == (c.column + i) % n + 1
      ensures ps[i].x == cfg.Margin() + (((c.column + i) % n) as real) * cfg.Width()
      ensures ps[i].Top() == c.y - (((c.column + i) / n) as real) * cfg.HeightOf(a)
    {
      SlotAt(cfg, c, next, ps, rest, n, a, i);
    }
  }

  /** One index of `GridIndex`. */
  lemma SlotAt(cfg: Config, c: Cursor, next: Cursor, ps: seq<Placement>, rest: seq<Placement>, n: int, a: real, i: nat)
    requires n >= 1 && 0 <= c.column <= n && i < |ps|
    requires ps == [ps[0]] + rest
    requires FirstSlot(cfg, c, ps[0], n, a)
    requires next.column == ps[0].column && next.y == ps[0].Top()
    requires GridFrom(cfg, rest, next.column, next.y, n, a)
    ensures ps[i].column == (c.column + i) % n + 1
    ensures ps[i].x == cfg.Margin() + (((c.column + i) % n) as real) * cfg.Width()
    ensures ps[i].Top() == c.y - (((c.column + i) / n) as real) * cfg.HeightOf(a)
  {
    if i == 0 {
      FirstSlotOnGrid(cfg, c, ps[0], n, a);
    } else {
      assert ps[i] == rest[i - 1];
      LaterSlotOf(cfg, c, next, rest, i, i - 1, n, a);
    }
  }

  /** `LaterSlot` for the k-th item placed from `next`. */
  lemma LaterSlotOf(cfg: Config, c: Cursor, next: Cursor, rest: seq<Placement>, i: nat, k: nat, n: int, a: real)
    requires n >= 1 && 0 <= c.column <= n && i == k + 1 && k < |rest|
    requires next.column == (if c.column == n then 0 else c.column) + 1
    requires next.y == c.y - (if c.column == n then cfg.HeightOf(a) else 0.0)
    requires GridFrom(cfg, rest, next.column, next.y, n, a)
    ensures rest[k].column == (c.column + i) % n + 1
    ensures rest[k].x == cfg.Margin() + (((c.column + i) % n) as real) * cfg.Width()
    ensures rest[k].Top() == c.y - (((c.column + i) / n) as real) * cfg.HeightOf(a)
  {
    GridAt(cfg, rest, next.column, next.y, n, a, k);
    LaterSlot(cfg, c, next, rest[k], i, k, n, a);
  }

  /** Where the first item from cursor `c` goes (see `GridStep`). */
  predicate FirstSlot(cfg: Config, c: Cursor, p: Placement, n: int, a: real) {
    var col := if c.column == n then 0 else c.column;
    && p.column == col + 1
    && p.x == cfg.Margin() + (col as real) * cfg.Width()
    && p.Top() == c.y - (if c.column == n then cfg.HeightOf(a) else 0.0)
  }

  lemma FirstSlotOnGrid(cfg: Config, c: Cursor, p: Placement, n: int, a: real)
    requires n >= 1 && 0 <= c.column <= n
    requires FirstSlot(cfg, c, p, n, a)
    ensures p.column == (c.column + 0) % n + 1
    ensures p.x == cfg.Margin() + (((c.column + 0) % n) as real) * cfg.Width()
    ensures p.Top() == c.y - (((c.column + 0) / n) as real) * cfg.HeightOf(a)
  {
    if c.column == n {
      DivModUnique(n, n, 1, 0);
    } else {
      DivModUnique(c.column, n, 0, c.column);
    }
  }

  /** One item further along from the cursor after the first placement is
      `i` items along from the cursor before it. */
  lemma LaterSlot(cfg: Config, c: Cursor, next: Cursor, r: Placement, i: nat, k: nat, n: int, a: real)
    requires n >= 1 && i == k + 1 && 0 <= c.column <= n
    requires next.column == (if c.column == n then 0 else c.column) + 1
    requires next.y == c.y - (if c.column == n then cfg.HeightOf(a) else 0.0)
    requires r.column == (next.column + k) % n + 1
    requires r.x == cfg.Margin() + (((next.column + k) % n) as real) * cfg.Width()
    requires r.Top() == next.y - (((next.column + k) / n) as real) * cfg.HeightOf(a)
    ensures r.column == (c.column + i) % n + 1
    ensures r.x == cfg.Margin() + (((c.column + i) % n) as real) * cfg.Width()
    ensures r.Top() == c.y - (((c.column + i) / n) as real) * cfg.HeightOf(a)
  {
    if c.column == n {
      assert next.column + k == i;
      RowShift(i, n, c.y, cfg.HeightOf(a));
    } else {
      assert next.column + k == c.column + i;
    }
  }

  /** Starting one full row later: same slot, one more row down. */
  lemma RowShift(i: nat, n: int, y: real, h: real)
    requires n >= 1
    ensures (n + i) % n == i % n
    ensures y - h - ((i / n) as real) * h == y - (((n + i) / n) as real) * h
  {
    ShiftByRow(i, n);
    assert (n + i) / n == i / n + 1;
    assert (((i / n) + 1) as real) * h == ((i / n) as real) * h + h;
  }
}
