/** The drawing elements both legend scripts emit, and the '$' split of the
    action text they share. */
module Elements {
  import opened Results
  import opened Strings

  /** One SVG element. Style attributes the script leaves unset are `None`. */
  datatype Element =
    | Rectangle(x: real, y: real, width: real, height: real, fill: Option<string>, stroke: string, strokeWidth: real)
    | Text(text: string, fontSize: int, x: real, y: real, anchor: string, fontFamily: string,
           fontVariant: Option<string>, fontWeight: Option<string>, fill: Option<string>)

  /** A drawing with its origin at the centre: it spans `-width/2 .. width/2`
      horizontally and `-height/2 .. height/2` vertically, y growing downwards. */
  datatype Drawing = Drawing(width: real, height: real, elements: seq<Element>)

  /** The lines the action text is drawn on: the whole text when it has no
      '$', otherwise the first two '$'-separated pieces (`action1, action2,
      *_ = action.split('$')`); anything after a second '$' is dropped. */
  function ActionLines(action: string): (lines: seq<string>)
    ensures 1 <= |lines| <= 2
    ensures |lines| == 2 <==> '$' in action
    ensures forall k :: 0 <= k < |lines| ==> '$' !in lines[k]
    ensures '$' !in action ==> lines == [action]
    ensures '$' in action ==>
      && lines[0] == FirstField(action, '$')
      && lines[1] == FirstField(action[|lines[0]| + 1..], '$')
  {
    if '$' !in action then [action]
    else
      var parts := Split(action, '$');
      [parts[0], parts[1]]
  }

  /** Writing two '$'-free lines with one '$' between them gives them back. */
  lemma ActionLinesRoundTrip(first: string, second: string)
    requires '$' !in first && '$' !in second
    ensures ActionLines(first + "$" + second) == [first, second]
    ensures ActionLines(first) == [first]
  {
    var action := first + "$" + second;
    assert action[|first|] == '$';
    assert forall k :: 0 <= k < |first| ==> action[k] == first[k];
    assert IndexOf(action, '$') == |first|;
    assert FirstField(action, '$') == first;
    assert action[|first| + 1..] == second;
    assert |FirstField(second, '$')| == |second|;
  }

  /** The two lines are the whole action text exactly when it has a single
      '$'; otherwise they and their separator are a proper prefix of it. */
  lemma ActionLinesRecoverAction(action: string)
    requires '$' in action
    ensures
      var lines := ActionLines(action);
      var rest := action[|lines[0]| + 1..];
      && lines[0] + "$" + lines[1] <= action
      && (lines[0] + "$" + lines[1] == action <==> '$' !in rest)
  {
    var lines := ActionLines(action);
    var rest := action[|lines[0]| + 1..];
    assert action == lines[0] + "$" + rest;
    assert lines[1] <= rest;
    if '$' !in rest {
      assert |lines[1]| == |rest|;
    }
  }

  /** An element with its weight and fill erased: what remains is its kind,
      position, size, text, anchor, family and variant. */
  function Unstyled(e: Element): (u: Element)
    ensures u.Text? ==> u.fontWeight.None? && u.fill.None?
    ensures u.Text? <==> e.Text?
  {
    match e
    case Rectangle(_, _, _, _, _, _, _) => e
    case Text(t, size, x, y, anchor, family, variant, _, _) =>
      Text(t, size, x, y, anchor, family, variant, None, None)
  }

  function UnstyledAll(es: seq<Element>): (us: seq<Element>)
    ensures |us| == |es|
    ensures forall k :: 0 <= k < |es| ==> us[k] == Unstyled(es[k])
  {
    seq(|es|, k requires 0 <= k < |es| => Unstyled(es[k]))
  }
}
