/** The legend of `keylegend.py`: the same drawing as `create_keylegend.py`
    with every size and family fixed (title 12, action 22, Atkinson
    Hyperlegible), a transparent square, a bold title and regular-weight
    action lines, none of them coloured. */
module Keylegend {
  import opened Results
  import opened Elements
  import CreateKeylegend

  const KeyWidth: real := 100.0
  const TitleFontSize: int := 12
  const ActionFontSize: int := 22
  const Margin: real := 5.0
  const TitleFontFamily: string := "Atkinson Hyperlegible"
  const ActionFontFamily: string := "Atkinson Hyperlegible"

  function ActionText(line: string, y: real): Element {
    Text(line, ActionFontSize, 0.0, y, "middle", ActionFontFamily, Some("liga 0"), None, None)
  }

  /** The drawing the script saves for the given title and action. */
  function Keylegend(title: string, action: string): (d: Drawing)
    ensures |d.elements| == 2 + |ActionLines(action)|
  {
    var square := Rectangle(-KeyWidth / 2.0, -KeyWidth / 2.0, KeyWidth, KeyWidth, Some("none"), "black", 1.0);
    var titleText := Text(title, TitleFontSize, -KeyWidth / 2.0 + Margin,
                          -KeyWidth / 2.0 + TitleFontSize as real + Margin,
                          "start", TitleFontFamily, None, Some("bold"), None);
    var centre := (TitleFontSize as real + 2.0 * Margin) / 2.0;
    var lines := ActionLines(action);
    var actions :=
      if '$' !in action then [ActionText(action, centre)]
      else [ActionText(lines[0], centre - ActionFontSize as real / 2.0),
            ActionText(lines[1], centre + ActionFontSize as real / 2.0)];
    Drawing(KeyWidth, KeyWidth, [square, titleText] + actions)
  }

  /** The script's command line: the title and the action are the first two
      arguments after the script name; with fewer, indexing `sys.argv`
      raises IndexError (`None`). */
  function Script(argv: seq<string>): (r: Option<Drawing>)
    ensures r.Some? <==> |argv| >= 3
    ensures r.Some? ==> r.value == Keylegend(argv[1], argv[2])
  {
    if |argv| < 3 then None else Some(Keylegend(argv[1], argv[2]))
  }

  /** With the fixed constants the square starts at (-50, -50) with side 100
      and no fill, and the title is drawn at (-45, -33). */
  lemma FixedOutlineAndTitle(title: string, action: string)
    ensures
      var es := Keylegend(title, action).elements;
      && es[0] == Rectangle(-50.0, -50.0, 100.0, 100.0, Some("none"), "black", 1.0)
      && es[1].Text? && es[1].text == title && es[1].x == -45.0 && es[1].y == -33.0
      && es[1].fontWeight == Some("bold") && es[1].fill.None?
  {
  }

  /** A single-line action is drawn at (0, 11); a two-line action at (0, 0)
      and (0, 22), from the first two '$'-separated pieces. */
  lemma FixedActionPositions(title: string, action: string)
    ensures
      var es := Keylegend(title, action).elements;
      var lines := ActionLines(action);
      && ('$' !in action ==> es[2].Text? && es[2].text == action && es[2].x == 0.0 && es[2].y == 11.0)
      && ('$' in action ==>
            && es[2].Text? && es[2].text == lines[0] && es[2].x == 0.0 && es[2].y == 0.0
            && es[3].Text? && es[3].text == lines[1] && es[3].x == 0.0 && es[3].y == 22.0)
  {
  }

  /** The script draws what `create_keylegend` draws with sizes 12 and 22,
      Atkinson Hyperlegible for both texts and a transparent background, up to
      weight and fill: positions, sizes, texts, anchors, families and
      variants agree element by element. The styles differ only in that
      the script's title is bold and its texts carry no colour, where
      `create_keylegend` bolds the action lines and colours both texts. */
  lemma MatchesCreateKeylegend(title: string, action: string, titleColor: string, actionColor: string)
    ensures
      var fixed := Keylegend(title, action);
      var general := CreateKeylegend.CreateKeylegend(title, action, 12, 22, "Atkinson Hyperlegible",
                       "Atkinson Hyperlegible", "none", titleColor, actionColor);
      && fixed.width == general.width && fixed.height == general.height
      && UnstyledAll(fixed.elements) == UnstyledAll(general.elements)
      && fixed.elements[0] == general.elements[0]
      && fixed.elements[1].fontWeight == Some("bold") && general.elements[1].fontWeight.None?
      && fixed.elements[1].fill.None? && general.elements[1].fill == Some(titleColor)
      && forall k :: 2 <= k < |fixed.elements| ==>
           && fixed.elements[k].fontWeight.None? && general.elements[k].fontWeight == Some("bold")
           && fixed.elements[k].fill.None? && general.elements[k].fill == Some(actionColor)
  {
    if '$' in action {
      assert |ActionLines(action)| == 2;
    } else {
      assert ActionLines(action) == [action];
    }
  }
}
