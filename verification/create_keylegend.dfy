/** The legend of `create_keylegend.py`: a key-sized square, a title in its
    top-left corner and the action text centred on one or two lines, every
    size, family and colour given by the caller. */
module CreateKeylegend {
  import opened Results
  import opened Elements

  /** The side of the key in drawing units. */
  const KeyWidth: real := 100.0
  /** The inset of the title from the key's edges. */
  const Margin: real := 5.0

  /** The style of every action line: centred, ligatures off, bold. */
  function ActionText(line: string, fontSize: int, y: real, family: string, color: string): Element {
    Text(line, fontSize, 0.0, y, "middle", family, Some("liga 0"), Some("bold"), Some(color))
  }

  /** The height the action text is centred on. */
  function ActionCentre(titleFontSize: int): real {
    (titleFontSize as real + 2.0 * Margin) / 2.0
  }

  /** `create_keylegend`: the drawing it saves. */
  function CreateKeylegend(title: string, action: string, titleFontSize: int, actionFontSize: int,
                           titleFontFamily: string, actionFontFamily: string,
                           backgroundColor: string, titleColor: string, actionColor: string): (d: Drawing)
    ensures d.width == d.height == KeyWidth
    ensures |d.elements| == 2 + |ActionLines(action)|
  {
    var square := Rectangle(-KeyWidth / 2.0, -KeyWidth / 2.0, KeyWidth, KeyWidth,
                            Some(backgroundColor), "black", 1.0);
    var titleText := Text(title, titleFontSize, -KeyWidth / 2.0 + Margin,
                          -KeyWidth / 2.0 + titleFontSize as real + Margin,
                          "start", titleFontFamily, None, None, Some(titleColor));
    var centre := ActionCentre(titleFontSize);
    var lines := ActionLines(action);
    var actions :=
      if '$' !in action then [ActionText(action, actionFontSize, centre, actionFontFamily, actionColor)]
      else [ActionText(lines[0], actionFontSize, centre - actionFontSize as real / 2.0, actionFontFamily, actionColor),
            ActionText(lines[1], actionFontSize, centre + actionFontSize as real / 2.0, actionFontFamily, actionColor)];
    Drawing(KeyWidth, KeyWidth, [square, titleText] + actions)
  }

  /** Square first, then the title, then the action lines: three elements,
      or four exactly when the action has a '$'. The square is the border of
      the canvas (centred on the origin, side `KEY_WIDTH`), drawn with a 1px
      black stroke over the background colour. */
  lemma LegendOutline(title: string, action: string, titleFontSize: int, actionFontSize: int,
                      titleFontFamily: string, actionFontFamily: string,
                      backgroundColor: string, titleColor: string, actionColor: string)
    ensures
      var d := CreateKeylegend(title, action, titleFontSize, actionFontSize, titleFontFamily,
                               actionFontFamily, backgroundColor, titleColor, actionColor);
      var es := d.elements;
      && (|es| == 3 || |es| == 4)
      && (|es| == 4 <==> '$' in action)
      && es[0].Rectangle?
      && (forall k :: 1 <= k < |es| ==> es[k].Text?)
      && es[0].x == -d.width / 2.0 && es[0].y == -d.height / 2.0
      && es[0].width == d.width && es[0].height == d.height
      && es[0].fill == Some(backgroundColor) && es[0].stroke == "black" && es[0].strokeWidth == 1.0
  {
  }

  /** The title: the given text, size, family and colour, left-aligned one
      margin in from the left edge, its baseline one font size plus one
      margin below the top edge, so its first line sits in the top-left
      corner. */
  lemma TitleInTopLeftCorner(title: string, action: string, titleFontSize: int, actionFontSize: int,
                             titleFontFamily: string, actionFontFamily: string,
                             backgroundColor: string, titleColor: string, actionColor: string)
    ensures
      var d := CreateKeylegend(title, action, titleFontSize, actionFontSize, titleFontFamily,
                               actionFontFamily, backgroundColor, titleColor, actionColor);
      var t := d.elements[1];
      && t == Text(t.text, t.fontSize, t.x, t.y, t.anchor, t.fontFamily, None, None, t.fill)
      && t.text == title && t.fontSize == titleFontSize
      && t.fontFamily == titleFontFamily && t.fill == Some(titleColor)
      && t.anchor == "start"
      && t.x - Margin == -d.width / 2.0
      && t.y - (titleFontSize as real) - Margin == -d.height / 2.0
  {
  }

  /** The action lines: the '$'-split pieces of the action text, in order,
      each centred on the vertical axis in the action size, family and
      colour, bold, with ligatures off. */
  lemma ActionLinesDrawn(title: string, action: string, titleFontSize: int, actionFontSize: int,
                         titleFontFamily: string, actionFontFamily: string,
                         backgroundColor: string, titleColor: string, actionColor: string)
    ensures
      var es := CreateKeylegend(title, action, titleFontSize, actionFontSize, titleFontFamily,
                                actionFontFamily, backgroundColor, titleColor, actionColor).elements;
      var lines := ActionLines(action);
      forall k :: 0 <= k < |lines| ==>
        && es[2 + k].Text?
        && es[2 + k].text == lines[k]
        && es[2 + k].fontSize == actionFontSize
        && es[2 + k].x == 0.0 && es[2 + k].anchor == "middle"
        && es[2 + k].fontFamily == actionFontFamily
        && es[2 + k].fontVariant == Some("liga 0")
        && es[2 + k].fontWeight == Some("bold")
        && es[2 + k].fill == Some(actionColor)
  {
  }

  /** A single action line has its baseline half a title band (title size
      plus two margins) below the centre of the key. A two-line action puts
      its lines one action font size apart, centred on that same height. */
  lemma ActionLinesStraddleCentre(title: string, action: string, other: string, titleFontSize: int,
                                  actionFontSize: int, titleFontFamily: string, actionFontFamily: string,
                                  backgroundColor: string, titleColor: string, actionColor: string)
    requires '$' in action && '$' !in other
    ensures
      var two := CreateKeylegend(title, action, titleFontSize, actionFontSize, titleFontFamily,
                                 actionFontFamily, backgroundColor, titleColor, actionColor).elements;
      var one := CreateKeylegend(title, other, titleFontSize, actionFontSize, titleFontFamily,
                                 actionFontFamily, backgroundColor, titleColor, actionColor).elements;
      && one[2].y == (titleFontSize as real + 2.0 * Margin) / 2.0
      && two[3].y - two[2].y == actionFontSize as real
      && (two[2].y + two[3].y) / 2.0 == one[2].y
  {
  }

  /** Only the action text decides the action lines: two actions with the
      same '$'-split pieces give the same drawing. */
  lemma DependsOnActionLinesOnly(title: string, action: string, other: string, titleFontSize: int,
                                 actionFontSize: int, titleFontFamily: string, actionFontFamily: string,
                                 backgroundColor: string, titleColor: string, actionColor: string)
    requires ActionLines(action) == ActionLines(other)
    ensures CreateKeylegend(title, action, titleFontSize, actionFontSize, titleFontFamily,
                            actionFontFamily, backgroundColor, titleColor, actionColor)
         == CreateKeylegend(title, other, titleFontSize, actionFontSize, titleFontFamily,
                            actionFontFamily, backgroundColor, titleColor, actionColor)
  {
  }
}
