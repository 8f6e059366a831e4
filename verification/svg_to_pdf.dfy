/** The sheet compositor of `svg_to_pdf.py`: directory entries ordered by the
    integer before the first '-' of their name, then laid out by the cursor
    machine with a column limit, on a page whose size is given. */
module SvgToPdf {
  import opened Results
  import opened Strings
  import opened Layout

  datatype ComposeError =
    | InvalidPrefix(name: string)      // `int()` of the prefix raised ValueError
    | LayoutFailed(cause: LayoutError) // the column wrap read `new_height` before any was computed

  /** The parameters of one run: page size in page units (already turned to
      landscape when asked), the size of a millimetre, the key size in
      millimetres and the maximum column count. */
  datatype Sheet = Sheet(pageWidth: real, pageHeight: real, mm: real, keySize: real, maxColumns: int)
  {
    function Config(): Config {
      Layout.Config(pageWidth, pageHeight, mm, keySize, Some(maxColumns))
    }
  }

  /** `extract_numerical_prefix`: `int()` of the text before the first '-'.
      That text holds no '-', so the integer, when there is one, is never
      negative; a leading '+' is accepted as `int()` accepts it. */
  function ExtractPrefix(name: string): (r: Option<nat>)
    ensures r.Some? <==> ParseInt(FirstField(name, '-')).Some?
    ensures r.Some? ==> ParseInt(FirstField(name, '-')) == Some(r.value as int)
  {
    var num := FirstField(name, '-');
    match ParseInt(num)
    case None => None
    case Some(v) =>
      assert |num| > 0 ==> num[0] != '-';
      Some(v as nat)
  }

  /** A name made of `str(k)`, a '-' and anything at all parses back to `k`:
      decimal digits contain no '-'. */
  lemma PrefixRoundTrip(k: nat, rest: string)
    ensures ExtractPrefix(NatToDecimal(k) + "-" + rest) == Some(k)
  {
    var digits := NatToDecimal(k);
    var name := digits + "-" + rest;
    assert name[|digits|] == '-';
    assert forall i :: 0 <= i < |digits| ==> name[i] == digits[i] && name[i] != '-';
    assert IndexOf(name, '-') == |digits|;
    assert FirstField(name, '-') == digits;
  }

  /** An entry together with its sort key. */
  datatype Keyed = Keyed(key: nat, item: Item)

  predicate WellKeyed(k: Keyed) {
    ExtractPrefix(k.item.name) == Some(k.key)
  }

  /** The keys `sorted(..., key=extract_numerical_prefix)` computes, all of
      them before any sorting, in listing order: the first entry without a
      prefix aborts the run, whether or not it is a drawing. */
  function KeyAll(items: seq<Item>): (r: Result<seq<Keyed>, ComposeError>)
    ensures r.Ok? <==> forall i :: 0 <= i < |items| ==> ExtractPrefix(items[i].name).Some?
    ensures r.Ok? ==> |r.value| == |items|
    ensures r.Ok? ==> forall i :: 0 <= i < |items| ==> r.value[i].item == items[i] && WellKeyed(r.value[i])
    ensures r.Err? ==> exists i :: 0 <= i < |items| && r.error == InvalidPrefix(items[i].name)
                          && ExtractPrefix(items[i].name).None?
                          && forall j :: 0 <= j < i ==> ExtractPrefix(items[j].name).Some?
  {
    if items == [] then Ok([])
    else match ExtractPrefix(items[0].name)
      case None => Err(InvalidPrefix(items[0].name))
      case Some(k) =>
        match KeyAll(items[1..])
        case Err(e) =>
          KeyAllErrStep(items, e);
          Err(e)
        case Ok(rest) =>
          KeyAllOkStep(items, k, rest);
          Ok([Keyed(k, items[0])] + rest)
  }

  /** `KeyAll`'s error case: the first entry without a prefix of the tail
      is the first of the whole listing. */
  lemma KeyAllErrStep(items: seq<Item>, e: ComposeError)
    requires items != [] && ExtractPrefix(items[0].name).Some?
    requires exists i :: 0 <= i < |items[1..]| && e == InvalidPrefix(items[1..][i].name)
               && ExtractPrefix(items[1..][i].name).None?
               && forall j :: 0 <= j < i ==> ExtractPrefix(items[1..][j].name).Some?
    ensures exists i :: 0 <= i < |items| && e == InvalidPrefix(items[i].name)
              && ExtractPrefix(items[i].name).None?
              && forall j :: 0 <= j < i ==> ExtractPrefix(items[j].name).Some?
  {
    var tail := items[1..];
    var i :| 0 <= i < |tail| && e == InvalidPrefix(tail[i].name)
               && ExtractPrefix(tail[i].name).None?
               && forall j :: 0 <= j < i ==> ExtractPrefix(tail[j].name).Some?;
    assert items[i + 1] == tail[i];
    forall j | 0 <= j < i + 1 ensures ExtractPrefix(items[j].name).Some? {
      if j > 0 {
        assert items[j] == tail[j - 1];
      }
    }
  }

  /** `KeyAll`'s success case: the tail's keys follow the first entry's. */
  lemma KeyAllOkStep(items: seq<Item>, k: nat, rest: seq<Keyed>)
    requires items != [] && ExtractPrefix(items[0].name) == Some(k)
    requires |rest| == |items| - 1
    requires forall i :: 0 <= i < |items[1..]| ==> rest[i].item == items[1..][i] && WellKeyed(rest[i])
    ensures
      var r := [Keyed(k, items[0])] + rest;
      forall i :: 0 <= i < |items| ==> r[i].item == items[i] && WellKeyed(r[i])
  {
    var r := [Keyed(k, items[0])] + rest;
    forall i | 0 <= i < |items| ensures r[i].item == items[i] && WellKeyed(r[i]) {
      if i > 0 {
        assert r[i] == rest[i - 1] && items[i] == items[1..][i - 1];
      }
    }
  }

  predicate SortedByKey(s: seq<Keyed>) {
    forall i, j :: 0 <= i < j < |s| ==> s[i].key <= s[j].key
  }

  /** The entries of `s` with key `k`, in order. */
  function WithKey(s: seq<Keyed>, k: nat): seq<Keyed> {
    if s == [] then []
    else if s[0].key == k then [s[0]] + WithKey(s[1..], k)
    else WithKey(s[1..], k)
  }

  /** Inserts `x` before the first entry whose key is not smaller. */
  function Insert(x: Keyed, s: seq<Keyed>): (r: seq<Keyed>)
    ensures multiset(r) == multiset(s) + multiset{x}
  {
    if s == [] || x.key <= s[0].key then [x] + s
    else
      assert s == [s[0]] + s[1..];
      [s[0]] + Insert(x, s[1..])
  }

  lemma {:induction false} InsertSorted(x: Keyed, s: seq<Keyed>)
    requires SortedByKey(s)
    ensures SortedByKey(Insert(x, s))
  {
    if s != [] && x.key > s[0].key {
      var t := Insert(x, s[1..]);
      InsertSorted(x, s[1..]);
      assert Insert(x, s) == [s[0]] + t;
      forall i | 0 <= i < |t| ensures s[0].key <= t[i].key {
        assert t[i] in multiset(t);
        if t[i] != x {
          assert t[i] in s[1..];
        }
      }
    }
  }

  /** Python's `sorted` with an integer key: a stable sort (insertion sort,
      each entry going in front of the later ones with an equal key). */
  function SortByPrefix(s: seq<Keyed>): (r: seq<Keyed>)
    ensures multiset(r) == multiset(s)
    ensures SortedByKey(r)
  {
    if s == [] then []
    else
      assert s == [s[0]] + s[1..];
      InsertSorted(s[0], SortByPrefix(s[1..]));
      Insert(s[0], SortByPrefix(s[1..]))
  }

  lemma {:induction false} InsertWithKey(x: Keyed, s: seq<Keyed>, k: nat)
    ensures WithKey(Insert(x, s), k) == if x.key == k then [x] + WithKey(s, k) else WithKey(s, k)
  {
    if s == [] || x.key <= s[0].key {
    } else {
      InsertWithKey(x, s[1..], k);
    }
  }

  /** Stability: entries with equal keys keep their listing order. */
  lemma {:induction false} SortIsStable(s: seq<Keyed>, k: nat)
    ensures WithKey(SortByPrefix(s), k) == WithKey(s, k)
  {
    if s != [] {
      SortIsStable(s[1..], k);
      InsertWithKey(s[0], SortByPrefix(s[1..]), k);
    }
  }

  /** The entries of keyed entries, in order. */
  function Items(s: seq<Keyed>): (items: seq<Item>)
    ensures |items| == |s|
    ensures forall i :: 0 <= i < |s| ==> items[i] == s[i].item
  {
    if s == [] then [] else [s[0].item] + Items(s[1..])
  }

  /** The drawing order: the keyed entries stably sorted by prefix. */
  function Ordered(keyed: seq<Keyed>): seq<Item> {
    Items(SortByPrefix(keyed))
  }

  /** `combine_svgs_to_pdf`: the placements drawn on the sheet. It fails on
      a prefix exactly when some entry has none, and otherwise fails only
      with a column limit below one, when there is a drawing to place. */
  function Compose(sheet: Sheet, entries: seq<Item>): (r: Result<seq<Placement>, ComposeError>)
    ensures (r.Err? && r.error.InvalidPrefix?) <==>
              exists i :: 0 <= i < |entries| && ExtractPrefix(entries[i].name).None?
    ensures r.Err? && r.error.LayoutFailed? ==> sheet.maxColumns <= 0
    ensures r.Ok? ==> |r.value| <= |entries|
  {
    var keyed :- KeyAll(entries);
    var cfg := sheet.Config();
    var order := Ordered(keyed);
    assert |order| == |entries| by {
      assert |SortByPrefix(keyed)| == |keyed| by {
        assert |multiset(SortByPrefix(keyed))| == |multiset(keyed)|;
      }
    }
    match Run(cfg, Start(cfg), order)
    case Ok(ps) => Ok(ps)
    case Err(e) => Err(LayoutFailed(e))
  }

  /** `Layout.SvgItems` lifted to keyed entries: the keyed entries that are
      drawings, in order. */
  function SvgKeyed(s: seq<Keyed>): seq<Keyed> {
    if s == [] then []
    else if IsSvg(s[0].item) then [s[0]] + SvgKeyed(s[1..])
    else SvgKeyed(s[1..])
  }

  lemma {:induction false} ItemsOfSvgKeyed(s: seq<Keyed>)
    ensures Items(SvgKeyed(s)) == SvgItems(Items(s))
  {
    if s != [] {
      ItemsOfSvgKeyed(s[1..]);
      assert Items(s)[1..] == Items(s[1..]);
      if IsSvg(s[0].item) {
        assert Items(SvgKeyed(s)) == [s[0].item] + Items(SvgKeyed(s[1..]));
      }
    }
  }

  lemma {:induction false} KeyAllOfSvgItems(items: seq<Item>)
    requires KeyAll(items).Ok?
    ensures KeyAll(SvgItems(items)) == Ok(SvgKeyed(KeyAll(items).value))
  {
    if items != [] {
      var k := KeyAll(items).value;
      assert KeyAll(items[1..]).Ok?;
      assert k == [k[0]] + KeyAll(items[1..]).value;
      KeyAllOfSvgItems(items[1..]);
    }
  }

  /** Filtering the drawings commutes with inserting into a sorted list. */
  lemma {:induction false} SvgKeyedOfInsert(x: Keyed, t: seq<Keyed>)
    requires SortedByKey(t)
    ensures SvgKeyed(Insert(x, t)) == if IsSvg(x.item) then Insert(x, SvgKeyed(t)) else SvgKeyed(t)
  {
    if t == [] || x.key <= t[0].key {
      assert Insert(x, t) == [x] + t;
      assert ([x] + t)[1..] == t;
      if IsSvg(x.item) {
        var f := SvgKeyed(t);
        if f != [] {
          SvgKeyedFirst(t);
        }
      }
    } else {
      assert Insert(x, t) == [t[0]] + Insert(x, t[1..]);
      assert ([t[0]] + Insert(x, t[1..]))[1..] == Insert(x, t[1..]);
      SvgKeyedOfInsert(x, t[1..]);
    }
  }

  /** The first drawing of a sorted list has a key no smaller than the list's head. */
  lemma {:induction false} SvgKeyedFirst(t: seq<Keyed>)
    requires SortedByKey(t) && SvgKeyed(t) != []
    ensures t[0].key <= SvgKeyed(t)[0].key
  {
    if !IsSvg(t[0].item) {
      SvgKeyedFirst(t[1..]);
    }
  }

  /** Sorting then keeping the drawings is keeping the drawings then
      sorting: the stable sort does not see the other entries. */
  lemma {:induction false} SortCommutesWithSvgFilter(s: seq<Keyed>)
    ensures SvgKeyed(SortByPrefix(s)) == SortByPrefix(SvgKeyed(s))
  {
    if s != [] {
      SortCommutesWithSvgFilter(s[1..]);
      SvgKeyedOfInsert(s[0], SortByPrefix(s[1..]));
    }
  }

  /** Entries that are not drawings change neither the cursor nor the column
      count: once every entry has a prefix, composing the whole listing is
      composing its `.svg` entries alone. */
  lemma ComposeIgnoresNonSvg(sheet: Sheet, entries: seq<Item>)
    requires forall i :: 0 <= i < |entries| ==> ExtractPrefix(entries[i].name).Some?
    ensures Compose(sheet, entries) == Compose(sheet, SvgItems(entries))
  {
    var keyed := KeyAll(entries).value;
    KeyAllOfSvgItems(entries);
    var cfg := sheet.Config();
    SkipsNonSvg(cfg, Start(cfg), Ordered(keyed));
    ItemsOfSvgKeyed(SortByPrefix(keyed));
    SortCommutesWithSvgFilter(keyed);
  }

  /** Every entry has a prefix and the prefixes never decrease. */
  predicate AscendingPrefixes(items: seq<Item>) {
    && (forall i :: 0 <= i < |items| ==> ExtractPrefix(items[i].name).Some?)
    && (forall i, j :: 0 <= i < j < |items| ==>
          ExtractPrefix(items[i].name).value <= ExtractPrefix(items[j].name).value)
  }

  lemma {:induction false} ItemsOfInsert(x: Keyed, t: seq<Keyed>)
    ensures multiset(Items(Insert(x, t))) == multiset(Items(t)) + multiset{x.item}
  {
    if t == [] || x.key <= t[0].key {
      var u := [x] + t;
      assert u[1..] == t;
    } else {
      var u := [t[0]] + Insert(x, t[1..]);
      assert u[1..] == Insert(x, t[1..]);
      ItemsOfInsert(x, t[1..]);
    }
  }

  /** Sorting permutes the entries themselves, not only their keys. */
  lemma {:induction false} ItemsOfSort(s: seq<Keyed>)
    ensures multiset(Items(SortByPrefix(s))) == multiset(Items(s))
  {
    if s != [] {
      var rest := SortByPrefix(s[1..]);
      assert SortByPrefix(s) == Insert(s[0], rest);
      ItemsOfSort(s[1..]);
      ItemsOfInsert(s[0], rest);
      assert Items(s) == [s[0].item] + Items(s[1..]);
    }
  }

  lemma OrderedAscends(keyed: seq<Keyed>)
    requires forall i :: 0 <= i < |keyed| ==> WellKeyed(keyed[i])
    ensures AscendingPrefixes(Ordered(keyed))
  {
    var sorted := SortByPrefix(keyed);
    forall i | 0 <= i < |sorted| ensures WellKeyed(sorted[i]) {
      assert sorted[i] in multiset(keyed);
    }
  }

  lemma ItemsOfKeyAll(items: seq<Item>)
    requires KeyAll(items).Ok?
    ensures Items(KeyAll(items).value) == items
  {
  }

  /** The drawings in the order they are placed: the `.svg` entries stably
      sorted by prefix. */
  function DrawingOrder(entries: seq<Item>): (order: seq<Item>)
    requires forall i :: 0 <= i < |entries| ==> ExtractPrefix(entries[i].name).Some?
    ensures multiset(order) == multiset(SvgItems(entries))
    ensures forall i :: 0 <= i < |order| ==> IsSvg(order[i])
    ensures AscendingPrefixes(order)
  {
    var svg := SvgItems(entries);
    assert forall i :: 0 <= i < |svg| ==> ExtractPrefix(svg[i].name).Some? by {
      forall i | 0 <= i < |svg| ensures ExtractPrefix(svg[i].name).Some? {
        assert svg[i] in entries;
      }
    }
    var keyed := KeyAll(svg).value;
    ItemsOfKeyAll(svg);
    ItemsOfSort(keyed);
    OrderedAscends(keyed);
    var order := Ordered(keyed);
    assert forall i :: 0 <= i < |order| ==> IsSvg(order[i]) by {
      forall i | 0 <= i < |order| ensures IsSvg(order[i]) {
        assert order[i] in multiset(svg);
      }
    }
    order
  }

  /** The entries of `items` whose prefix is `k`, in order. */
  function WithPrefix(items: seq<Item>, k: nat): seq<Item> {
    if items == [] then []
    else if ExtractPrefix(items[0].name) == Some(k) then [items[0]] + WithPrefix(items[1..], k)
    else WithPrefix(items[1..], k)
  }

  /** Over well-keyed entries, selecting by key and selecting by prefix agree. */
  lemma {:induction false} ItemsOfWithKey(s: seq<Keyed>, k: nat)
    requires forall i :: 0 <= i < |s| ==> WellKeyed(s[i])
    ensures WithPrefix(Items(s), k) == Items(WithKey(s, k))
    decreases |s|
  {
    if s != [] {
      assert WellKeyed(s[0]);
      assert Items(s)[1..] == Items(s[1..]);
      ItemsOfWithKey(s[1..], k);
      if s[0].key == k {
        assert Items(WithKey(s, k)) == [s[0].item] + Items(WithKey(s[1..], k));
      }
    }
  }

  /** Sorting keeps every entry's key its own. */
  lemma SortKeepsWellKeyed(keyed: seq<Keyed>)
    requires forall i :: 0 <= i < |keyed| ==> WellKeyed(keyed[i])
    ensures forall i :: 0 <= i < |SortByPrefix(keyed)| ==> WellKeyed(SortByPrefix(keyed)[i])
  {
    var sorted := SortByPrefix(keyed);
    forall i | 0 <= i < |sorted| ensures WellKeyed(sorted[i]) {
      assert sorted[i] in multiset(keyed);
    }
  }

  /** `sorted` is stable: drawings with the same prefix are drawn in the
      order the listing gives them. With `DrawingOrder`'s permutation and
      ascending prefixes this fixes the drawing order completely. */
  lemma DrawingOrderStable(entries: seq<Item>, k: nat)
    requires forall i :: 0 <= i < |entries| ==> ExtractPrefix(entries[i].name).Some?
    ensures WithPrefix(DrawingOrder(entries), k) == WithPrefix(SvgItems(entries), k)
  {
    var svg := SvgItems(entries);
    assert forall i :: 0 <= i < |svg| ==> ExtractPrefix(svg[i].name).Some? by {
      forall i | 0 <= i < |svg| ensures ExtractPrefix(svg[i].name).Some? {
        assert svg[i] in entries;
      }
    }
    var keyed := KeyAll(svg).value;
    assert DrawingOrder(entries) == Items(SortByPrefix(keyed));
    SortKeepsWellKeyed(keyed);
    ItemsOfWithKey(SortByPrefix(keyed), k);
    SortIsStable(keyed, k);
    ItemsOfWithKey(keyed, k);
    ItemsOfKeyAll(svg);
  }

  lemma DrawingOrderMembers(entries: seq<Item>)
    requires forall i :: 0 <= i < |entries| ==> ExtractPrefix(entries[i].name).Some?
    ensures forall it :: it in DrawingOrder(entries) <==> it in entries && IsSvg(it)
  {
    var order := DrawingOrder(entries);
    forall it ensures it in order <==> it in entries && IsSvg(it) {
      calc {
        it in order;
        it in multiset(order);
        it in multiset(SvgItems(entries));
        it in SvgItems(entries);
      }
    }
  }

  /** A common aspect ratio of the drawings carries over to the drawing order. */
  lemma DrawingOrderAspects(entries: seq<Item>, a: real)
    requires forall i :: 0 <= i < |entries| ==> ExtractPrefix(entries[i].name).Some?
    requires forall it :: it in entries && IsSvg(it) ==> it.aspect == a
    ensures forall it :: it in DrawingOrder(entries) && IsSvg(it) ==> it.aspect == a
  {
    DrawingOrderMembers(entries);
  }

  /** A successful run draws the drawings in `DrawingOrder`: every `.svg`
      entry once, ascending by prefix, each at the key width with its own
      aspect ratio. */
  lemma ComposeDrawsInOrder(sheet: Sheet, entries: seq<Item>)
    requires Compose(sheet, entries).Ok?
    ensures forall i :: 0 <= i < |entries| ==> ExtractPrefix(entries[i].name).Some?
    ensures
      var ps := Compose(sheet, entries).value;
      var order := DrawingOrder(entries);
      && |ps| == |order|
      && (forall i :: 0 <= i < |ps| ==>
            && ps[i].name == order[i].name
            && ps[i].width == sheet.Config().Width()
            && ps[i].height == sheet.Config().HeightOf(order[i].aspect))
      && (forall i, j :: 0 <= i < j < |ps| ==>
            ExtractPrefix(ps[i].name).value <= ExtractPrefix(ps[j].name).value)
  {
    ComposeIgnoresNonSvg(sheet, entries);
    var svg := SvgItems(entries);
    var order := DrawingOrder(entries);
    var cfg := sheet.Config();
    assert order == Ordered(KeyAll(svg).value);
    assert Run(cfg, Start(cfg), order).Ok?;
    var ps := Compose(sheet, entries).value;
    assert ps == Run(cfg, Start(cfg), order).value;
    SvgItemsOfDrawings(order);
    PlacesSvgItemsInOrder(cfg, Start(cfg), order);
    assert forall i :: 0 <= i < |ps| ==> ps[i].name == order[i].name;
    forall i, j | 0 <= i < j < |ps|
      ensures ExtractPrefix(ps[i].name).value <= ExtractPrefix(ps[j].name).value
    {
      assert ps[i].name == order[i].name && ps[j].name == order[j].name;
    }
  }

  /** Any entry anywhere in the listing without an integer prefix aborts the
      whole run, drawing or not, and the error names the first such entry. */
  lemma ComposeRejectsMissingPrefix(sheet: Sheet, entries: seq<Item>)
    ensures (exists i :: 0 <= i < |entries| && ExtractPrefix(entries[i].name).None?)
            <==> Compose(sheet, entries).Err? && Compose(sheet, entries).error.InvalidPrefix?
    ensures Compose(sheet, entries).Err? && Compose(sheet, entries).error.InvalidPrefix? ==>
      exists i :: 0 <= i < |entries|
        && Compose(sheet, entries).error == InvalidPrefix(entries[i].name)
        && ExtractPrefix(entries[i].name).None?
        && forall j :: 0 <= j < i ==> ExtractPrefix(entries[j].name).Some?
  {
  }

  /** Once every entry has a prefix, the run is the cursor machine over the
      drawing order. */
  lemma ComposeRunsDrawingOrder(sheet: Sheet, entries: seq<Item>)
    requires forall i :: 0 <= i < |entries| ==> ExtractPrefix(entries[i].name).Some?
    ensures
      var cfg := sheet.Config();
      var run := Run(cfg, Start(cfg), DrawingOrder(entries));
      && (Compose(sheet, entries).Ok? <==> run.Ok?)
      && (run.Ok? ==> Compose(sheet, entries).value == run.value)
  {
    ComposeIgnoresNonSvg(sheet, entries);
    assert DrawingOrder(entries) == Ordered(KeyAll(SvgItems(entries)).value);
  }

  /** With well-formed names the only failure left is the unbound height: it
      never happens for a column limit of at least one, and for a limit of
      zero or less it happens exactly when there is a drawing to place. */
  lemma ComposeFailsOnlyWithoutColumns(sheet: Sheet, entries: seq<Item>)
    requires forall i :: 0 <= i < |entries| ==> ExtractPrefix(entries[i].name).Some?
    ensures sheet.maxColumns >= 1 ==> Compose(sheet, entries).Ok?
    ensures sheet.maxColumns <= 0 ==>
      (Compose(sheet, entries) == Err(LayoutFailed(HeightUnbound)) <==> SvgItems(entries) != [])
  {
    ComposeRunsDrawingOrder(sheet, entries);
    var cfg := sheet.Config();
    var order := DrawingOrder(entries);
    if sheet.maxColumns >= 1 {
      NeverFailsWithPositiveLimit(cfg, Start(cfg), order);
    } else {
      NonPositiveLimitFails(cfg, Start(cfg), order);
      SvgItemsOfDrawings(order);
      assert |order| == |multiset(order)| == |multiset(SvgItems(entries))| == |SvgItems(entries)|;
    }
  }

  /** The cursor starts at the top-left content corner with an empty row: the
      first drawing goes at the left margin, hanging from 10 mm below the top
      edge, one row lower only if it is wider than the content area. */
  lemma ComposeStartsTopLeft(sheet: Sheet, entries: seq<Item>)
    requires Compose(sheet, entries).Ok? && Compose(sheet, entries).value != []
    ensures
      var cfg := sheet.Config();
      var p := Compose(sheet, entries).value[0];
      && p.column == 1
      && p.x == cfg.Margin()
      && p.Top() == sheet.pageHeight - cfg.Margin()
                    - (if cfg.Margin() + cfg.Width() > cfg.Right() then p.height else 0.0)
  {
    var cfg := sheet.Config();
    assert KeyAll(entries).Ok?;
    ComposeRunsDrawingOrder(sheet, entries);
    FirstPlacement(cfg, DrawingOrder(entries));
  }

  /** Every drawn item fits inside the right content boundary or starts at
      the left margin, sits in column 1 to `maxColumns`, and, for
      non-negative sizes, hangs no higher than the top content edge and no
      higher than the item before it. */
  lemma ComposeGeometry(sheet: Sheet, entries: seq<Item>)
    requires Compose(sheet, entries).Ok?
    ensures
      var cfg := sheet.Config();
      var ps := Compose(sheet, entries).value;
      forall i :: 0 <= i < |ps| ==>
        && (ps[i].x + ps[i].width <= cfg.Right() || ps[i].x == cfg.Margin())
        && 1 <= ps[i].column <= sheet.maxColumns
    ensures
      var cfg := sheet.Config();
      var ps := Compose(sheet, entries).value;
      cfg.Width() >= 0.0 && (forall it :: it in entries && IsSvg(it) ==> it.aspect >= 0.0) ==>
        && (forall i :: 0 <= i < |ps| ==> ps[i].Top() <= sheet.pageHeight - cfg.Margin())
        && (forall i, j :: 0 <= i < j < |ps| ==> ps[j].Top() <= ps[i].Top())
  {
    ComposeFitsInColumns(sheet, entries);
    if sheet.Config().Width() >= 0.0 && (forall it :: it in entries && IsSvg(it) ==> it.aspect >= 0.0) {
      ComposeTopsDescend(sheet, entries);
    }
  }

  /** The first half of `ComposeGeometry`. */
  lemma ComposeFitsInColumns(sheet: Sheet, entries: seq<Item>)
    requires Compose(sheet, entries).Ok?
    ensures
      var cfg := sheet.Config();
      var ps := Compose(sheet, entries).value;
      forall i :: 0 <= i < |ps| ==>
        && (ps[i].x + ps[i].width <= cfg.Right() || ps[i].x == cfg.Margin())
        && 1 <= ps[i].column <= sheet.maxColumns
  {
    ComposeIsRunOfDrawingOrder(sheet, entries);
    GeometryFromStart(sheet.Config(), DrawingOrder(entries));
  }

  /** The second half of `ComposeGeometry`. */
  lemma ComposeTopsDescend(sheet: Sheet, entries: seq<Item>)
    requires Compose(sheet, entries).Ok?
    requires sheet.Config().Width() >= 0.0
    requires forall it :: it in entries && IsSvg(it) ==> it.aspect >= 0.0
    ensures
      var ps := Compose(sheet, entries).value;
      && (forall i :: 0 <= i < |ps| ==> ps[i].Top() <= sheet.pageHeight - sheet.Config().Margin())
      && (forall i, j :: 0 <= i < j < |ps| ==> ps[j].Top() <= ps[i].Top())
  {
    ComposeIsRunOfDrawingOrder(sheet, entries);
    DrawingOrderAspectsNonNegative(entries);
    GeometryFromStart(sheet.Config(), DrawingOrder(entries));
  }

  /** Non-negative aspect ratios carry over to the drawing order. */
  lemma DrawingOrderAspectsNonNegative(entries: seq<Item>)
    requires forall i :: 0 <= i < |entries| ==> ExtractPrefix(entries[i].name).Some?
    requires forall it :: it in entries && IsSvg(it) ==> it.aspect >= 0.0
    ensures forall it :: it in DrawingOrder(entries) && IsSvg(it) ==> it.aspect >= 0.0
  {
    DrawingOrderMembers(entries);
  }

  /** A successful sheet is the run over the drawing order. */
  lemma ComposeIsRunOfDrawingOrder(sheet: Sheet, entries: seq<Item>)
    requires Compose(sheet, entries).Ok?
    ensures forall i :: 0 <= i < |entries| ==> ExtractPrefix(entries[i].name).Some?
    ensures Run(sheet.Config(), Start(sheet.Config()), DrawingOrder(entries)) == Ok(Compose(sheet, entries).value)
  {
    assert KeyAll(entries).Ok?;
    ComposeRunsDrawingOrder(sheet, entries);
  }

  /** Equal-sized drawings on a page wide enough for `maxColumns` of them:
      the i-th drawing (from 0) goes in column `i mod maxColumns` of row
      `i div maxColumns`, so rows wrap exactly every `maxColumns` items
      even when more would fit. */
  lemma ComposeGrid(sheet: Sheet, entries: seq<Item>, a: real)
    requires forall i :: 0 <= i < |entries| ==> ExtractPrefix(entries[i].name).Some?
    requires sheet.maxColumns >= 1
    requires sheet.Config().Width() >= 0.0
    requires sheet.Config().RowFits(sheet.maxColumns)
    requires forall it :: it in entries && IsSvg(it) ==> it.aspect == a
    ensures Compose(sheet, entries).Ok?
    ensures RowMajor(sheet.Config(), Compose(sheet, entries).value, sheet.maxColumns, a)
  {
    var cfg := sheet.Config();
    var n := sheet.maxColumns;
    ComposeRunsDrawingOrder(sheet, entries);
    var order := DrawingOrder(entries);
    DrawingOrderAspects(entries, a);
    UniformGridFromStart(cfg, order, n, a);
  }
}
