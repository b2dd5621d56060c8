/**
  The prediction page of app.py: the form answers become the base record, the
  record is priced, the forecast and the sell advice are derived, and the
  explanation and report are produced from them.
 */
module App {
  import opened Wrappers
  import opened Records
  import opened Forecast
  import opened Advisory
  import opened Narrative
  import opened Report

  /** The choices offered by the page's select boxes. */
  datatype FuelType = Petrol | Diesel | Cng
  datatype SellerType = Dealer | Individual
  datatype Transmission = Manual | Automatic

  function FuelName(f: FuelType): string {
    match f
    case Petrol => "Petrol"
    case Diesel => "Diesel"
    case Cng => "CNG"
  }

  function SellerName(s: SellerType): string {
    match s
    case Dealer => "Dealer"
    case Individual => "Individual"
  }

  function TransmissionName(t: Transmission): string {
    match t
    case Manual => "Manual"
    case Automatic => "Automatic"
  }

  /** The form answers, as the widgets return them. */
  datatype Form = Form(
    company: string,
    year: int,
    presentPrice: real,
    kmsDriven: int,
    fuel: FuelType,
    seller: SellerType,
    transmission: Transmission,
    owner: int)

  /** `save_depreciation_graph` always writes the chart to this file. */
  const GraphPath := "depreciation_graph.png"

  /**
    `base_input`: eight fields, in the page's order; its "Year" is the year
    entered in the form, which is also the year the forecast starts from.
   */
  function BaseInput(f: Form): (r: Record)
    ensures |r| == 8
    ensures Lookup(r, "Year") == Some(Int(f.year))
  {
    var fields := [
      Field("company", Str(f.company)),
      Field("Year", Int(f.year)),
      Field("Present_Price", Num(f.presentPrice)),
      Field("Kms_Driven", Int(f.kmsDriven)),
      Field("Fuel_Type", Str(FuelName(f.fuel))),
      Field("Seller_Type", Str(SellerName(f.seller))),
      Field("Transmission", Str(TransmissionName(f.transmission))),
      Field("Owner", Int(f.owner))];
    // the eight key names have eight different lengths
    assert forall i, j :: 0 <= i < j < |fields| ==> |fields[i].key| != |fields[j].key|;
    KeyIndexUnique(fields, "Year", 1);
    fields
  }

  /**
    The first half of the page after "Predict": the predicted price, the
    forecast from the entered year, and the advised sell year, which is the
    first cheapest year of the forecast window.
   */
  method Advise(f: Form, predict: Record -> int)
    returns (predictedPrice: int, years: seq<int>, prices: seq<int>, sellYear: int)
    ensures predictedPrice == predict(BaseInput(f))
    ensures |years| == Horizon && |prices| == Horizon
    ensures forall i :: 0 <= i < Horizon ==> years[i] == f.year + i
    ensures forall i :: 0 <= i < Horizon ==> prices[i] == predict(ForecastRecord(BaseInput(f), f.year, i))
    ensures prices[0] == predictedPrice
    ensures f.year <= sellYear < f.year + Horizon
    ensures IsFirstMinimum(prices, sellYear - f.year)
  {
    var baseInput := BaseInput(f);
    predictedPrice := predict(baseInput);
    years, prices := CalculateFuturePrices(baseInput, f.year, predict);
    FirstForecastIsPrediction(baseInput, f.year, predict);
    sellYear := SellYear(years, prices);
    SellYearInWindow(f.year, years, prices);
  }

  /**
    The page after "Predict" in the mobile layout: the predicted price is the
    first forecast price, the forecast covers the entered year and the five
    after it, the advised year is the first cheapest of them, the explanation
    is the cut-down answer, and the report shows price, chart and explanation.
   */
  method PredictAndReport(f: Form, predict: Record -> int, response: string)
    returns (predictedPrice: int, years: seq<int>, prices: seq<int>, sellYear: int,
             explanation: string, content: seq<Block>)
    ensures predictedPrice == predict(BaseInput(f))
    ensures |years| == Horizon && |prices| == Horizon
    ensures forall i :: 0 <= i < Horizon ==> years[i] == f.year + i
    ensures forall i :: 0 <= i < Horizon ==> prices[i] == predict(ForecastRecord(BaseInput(f), f.year, i))
    ensures prices[0] == predictedPrice
    ensures f.year <= sellYear < f.year + Horizon
    ensures IsFirstMinimum(prices, sellYear - f.year)
    ensures explanation == Explanation(response)
    ensures |content| == 16
    ensures content[0] == Title && content[1] == Gap
    ensures forall i :: 0 <= i < 8 ==>
      content[2 + i] == Paragraph(FieldLine(BaseInput(f)[i].key, BaseInput(f)[i].value), NormalStyle)
    ensures content[10] == Gap && content[12] == Gap && content[14] == Gap
    ensures content[11] == Paragraph(PriceLine(predictedPrice), NormalStyle)
    ensures content[13] == Image(GraphPath, ChartWidth, ChartHeight)
    ensures content[15] == Paragraph(ExplanationLine(explanation), NormalStyle)
  {
    predictedPrice, years, prices, sellYear := Advise(f, predict);
    explanation := Explanation(response);
    content := GeneratePdf(BaseInput(f), predictedPrice, explanation, GraphPath);
  }
}
