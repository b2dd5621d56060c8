/**
  The content of the PDF report built by `generate_pdf`: the ordered list of
  blocks handed to the document renderer. Rendering and writing the file are
  outside the model.
 */
module Report {
  import opened Records

  datatype Style = TitleStyle | NormalStyle

  /** What a paragraph says. The HTML-like markup of each template is kept only for the title. */
  datatype Text =
    | Heading(markup: string)
    | FieldLine(key: string, value: Value)
    | PriceLine(price: int)
    | ExplanationLine(explanation: string)

  datatype Block =
    | Paragraph(text: Text, style: Style)
    | Spacer(width: int, height: int)
    | Image(path: string, width: int, height: int)

  const Title := Paragraph(Heading("<b>Car Price Prediction Report</b>"), TitleStyle)
  /** `Spacer(1, 12)`, the gap between sections. */
  const Gap := Spacer(1, 12)
  /** The chart is drawn 400 by 250 points. */
  const ChartWidth := 400
  const ChartHeight := 250

  /**
    The content list of `generate_pdf`: the title and a gap, one paragraph per
    record field in the record's key order, then gap, price, gap, chart, gap
    and explanation. The chart is the only image, and the explanation is last.
   */
  method GeneratePdf(carData: Record, price: int, explanation: string, graphPath: string)
    returns (content: seq<Block>)
    ensures |content| == |carData| + 8
    ensures content[0] == Title && content[1] == Gap
    ensures forall i :: 0 <= i < |carData| ==>
      content[2 + i] == Paragraph(FieldLine(carData[i].key, carData[i].value), NormalStyle)
    ensures content[|carData| + 2] == Gap
    ensures content[|carData| + 3] == Paragraph(PriceLine(price), NormalStyle)
    ensures content[|carData| + 4] == Gap
    ensures content[|carData| + 5] == Image(graphPath, ChartWidth, ChartHeight)
    ensures content[|carData| + 6] == Gap
    ensures content[|content| - 1] == Paragraph(ExplanationLine(explanation), NormalStyle)
    ensures forall i :: 0 <= i < |content| ==> (content[i].Image? <==> i == |carData| + 5)
  {
    content := [];
    content := content + [Title];
    content := content + [Gap];

    for i := 0 to |carData|
      invariant |content| == i + 2
      invariant content[0] == Title && content[1] == Gap
      invariant forall j :: 0 <= j < i ==>
        content[2 + j] == Paragraph(FieldLine(carData[j].key, carData[j].value), NormalStyle)
      invariant forall j :: 0 <= j < |content| ==> !content[j].Image?
    {
      content := content + [Paragraph(FieldLine(carData[i].key, carData[i].value), NormalStyle)];
    }

    content := content + [Gap];
    content := content + [Paragraph(PriceLine(price), NormalStyle)];
    content := content + [Gap];
    content := content + [Image(graphPath, ChartWidth, ChartHeight)];
    content := content + [Gap];
    content := content + [Paragraph(ExplanationLine(explanation), NormalStyle)];
  }
}
