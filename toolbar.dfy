/** The tool buttons (src/components/Toolbar.tsx): count and cap per tool, the
    disabled rule and the mode toggle. The caps are a parameter, as the toolbar
    receives them. */
module Toolbar {
  import opened Types

  /** The tools, in the order they are offered. */
  const Tools: seq<ShapeType> := [Circle, Rectangle, Polygon, LineString]

  lemma ToolsListEachKindOnce()
    ensures |Tools| == 4
    ensures forall k: ShapeType :: k in Tools
    ensures forall i, j :: 0 <= i < j < |Tools| ==> Tools[i] != Tools[j]
  {
    forall k: ShapeType ensures k in Tools {
      match k
      case Circle => assert Tools[0] == k;
      case Rectangle => assert Tools[1] == k;
      case Polygon => assert Tools[2] == k;
      case LineString => assert Tools[3] == k;
    }
  }

  /** A tool's count: 0 when its kind is absent from the counts. */
  function ToolCount(counts: map<ShapeType, nat>, k: ShapeType): (n: nat)
    ensures k in counts ==> n == counts[k]
    ensures k !in counts ==> n == 0
  {
    if k in counts then counts[k] else 0
  }

  /** A tool is at its limit when its count has reached its cap. */
  predicate AtLimit(counts: map<ShapeType, nat>, caps: ShapeType -> nat, k: ShapeType): (b: bool)
    ensures k in counts ==> (b <==> counts[k] >= caps(k))
    ensures k !in counts ==> (b <==> caps(k) == 0)
  {
    ToolCount(counts, k) >= caps(k)
  }

  /** A button is disabled when its tool is at its limit and is not the active
      tool. */
  predicate ButtonDisabled(counts: map<ShapeType, nat>, caps: ShapeType -> nat, current: Option<ShapeType>, k: ShapeType): (b: bool)
    ensures b ==> AtLimit(counts, caps, k)
    ensures current == Some(k) ==> !b
    ensures ToolCount(counts, k) < caps(k) ==> !b
  {
    AtLimit(counts, caps, k) && current != Some(k)
  }

  /** The mode a button click asks for: off when the tool is active, the tool
      otherwise. */
  function NextMode(current: Option<ShapeType>, k: ShapeType): (m: Option<ShapeType>)
    ensures m == None <==> current == Some(k)
    ensures m != None ==> m == Some(k)
  {
    if current == Some(k) then None else Some(k)
  }

  /** The mode after pressing the button of `k`: a disabled button does nothing. */
  function Press(counts: map<ShapeType, nat>, caps: ShapeType -> nat, current: Option<ShapeType>, k: ShapeType): (m: Option<ShapeType>)
    ensures m == Some(k) <==> current != Some(k) && ToolCount(counts, k) < caps(k)
    ensures current == Some(k) ==> m == None
    ensures m != current ==> m == NextMode(current, k)
  {
    if ButtonDisabled(counts, caps, current, k) then current else NextMode(current, k)
  }

  /** The active tool's button is never disabled, even at its cap. */
  lemma ActiveNeverDisabled(counts: map<ShapeType, nat>, caps: ShapeType -> nat, k: ShapeType)
    ensures !ButtonDisabled(counts, caps, Some(k), k)
  {
  }

  /** A kind at or over its cap never becomes the new mode: a mode after a press
      is either the unchanged mode or a kind below its cap. */
  lemma PressRespectsCaps(counts: map<ShapeType, nat>, caps: ShapeType -> nat, current: Option<ShapeType>, k: ShapeType)
    ensures var m := Press(counts, caps, current, k);
      m == current || m == None || ToolCount(counts, m.value) < caps(m.value)
  {
  }

  /** What one button shows and does. */
  datatype Button = Button(tool: ShapeType, count: nat, max: nat, limitReached: bool, disabled: bool)

  /** The buttons, one per tool in the fixed order. */
  function Buttons(counts: map<ShapeType, nat>, caps: ShapeType -> nat, current: Option<ShapeType>): (bs: seq<Button>)
    ensures |bs| == |Tools|
    ensures forall i :: 0 <= i < |bs| ==> bs[i].tool == Tools[i]
    ensures forall i :: 0 <= i < |bs| ==> bs[i].count == ToolCount(counts, Tools[i]) && bs[i].max == caps(Tools[i])
    ensures forall i :: 0 <= i < |bs| ==> (bs[i].limitReached <==> bs[i].count >= bs[i].max)
    ensures forall i :: 0 <= i < |bs| ==> (bs[i].disabled <==> bs[i].limitReached && current != Some(bs[i].tool))
  {
    seq(|Tools|, i requires 0 <= i < |Tools| =>
      var k := Tools[i];
      Button(k, ToolCount(counts, k), caps(k), AtLimit(counts, caps, k), ButtonDisabled(counts, caps, current, k)))
  }
}
