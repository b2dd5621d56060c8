# Car price prediction: forecast, sell advice, explanation and report

A Dafny model of the sequential logic of the Streamlit page `app.py` of a used-car
price predictor. The page builds a feature record from a form, prices it with a
pre-trained regression model, forecasts the price for the entered year and the
five following years, advises the year to sell before, shortens a language
model's explanation to at most five lines, and lays out a PDF report.

The model covers:

- `records.dfy` (module `Records`): the feature record as a Python dict, an
  ordered list of fields with distinct keys; `d[k]` as `Lookup` and `d[k] = v`
  as `SetField`.
- `forecast.dfy` (module `Forecast`): `calculate_future_prices` as a method with
  its loop. The regression model, together with the `round(..., 2)` applied to
  its output, is an abstract deterministic function `Record -> int` giving the
  price in hundredths of a lakh.
- `advisory.dfy` (module `Advisory`): `future_prices.index(min(future_prices))`
  and `future_years[idx]` as functions, with Python's `min` and `list.index`.
- `narrative.dfy` (module `Narrative`): `"\n".join(text.strip().split("\n")[:5])`,
  with `str.strip` over Python 3's whitespace set, `split` and `join`.
- `report.dfy` (module `Report`): the block list that `generate_pdf` builds,
  as a method with its loop over the record's items.
- `app.dfy` (module `App`): the form, `base_input`, and the page flow after
  "Predict" in the mobile layout, which ties all of the above together.
- `wrappers.dfy`: the `Option` type used where Python raises an exception.

The explanation keeps the first five newline-separated pieces, including empty
ones, not the first five non-empty lines.

## Model

| member | source | states |
|---|---|---|
| `Records.KeyIndex` | app.py:47 | the dict finds a key's position exactly when the key is present, and the field there has that key |
| `Records.KeyIndexUnique` | app.py:151-160 | a key sits at one position of the dict only; used to read the "Year" of the dict literal built here |
| `Records.Lookup` | app.py:151-160 | the `d[k]` read, used to state what the dict literal built here holds: `None` exactly when the key is absent, and otherwise a value stored under that key |
| `Records.SetField` | app.py:47 | assigning an existing key keeps key order and changes only that key's value; a new key is appended at the end; keys stay distinct |
| `Records.LookupSetField` | app.py:46-47 | after `d[k] = v`, `d[k]` reads `v` and every other key reads what it read before |
| `Records.SetFieldSameValue` | app.py:47 | writing a key the value it already holds leaves the record unchanged |
| `Forecast.CalculateFuturePrices` | app.py:43-51 | exactly six years and six prices; year `i` is `year + i`, so years are contiguous and strictly ascending; price `i` is the model's price for the base record with its year set to `year + i` |
| `Forecast.ForecastRecordOnlyYearChanges` | app.py:46-47 | the record priced at each offset differs from the base only in "Year", which holds `year + offset`; key order is kept |
| `Forecast.FirstForecastIsPrediction` | app.py:162-164 | when the start year is the record's own year, the offset-0 record is the base record, so the first forecast price equals the top-level predicted price |
| `Advisory.MinOf` | app.py:178 | `min` returns an element of the list no greater than any element |
| `Advisory.IndexOf` | app.py:178 | `list.index` fails exactly when the item is absent, otherwise returns the first position holding it |
| `Advisory.SellIndex` | app.py:178 | the chosen position holds a cheapest price and every earlier position holds a strictly higher price |
| `Advisory.SellIndexIsTheFirstMinimum` | app.py:209 | a position is the first minimum if and only if it is the one the expression picks |
| `Advisory.SellYearInWindow` | app.py:178-179 | for contiguous forecast years, the advised year lies in the forecast window and is the year of the first cheapest price |
| `Narrative.LeadingSpaces` | app.py:67 | the length of the run of whitespace that opens the text; the character after it is not whitespace |
| `Narrative.TrailingSpaces` | app.py:67 | the length of the run of whitespace that closes the text; the character before it is not whitespace |
| `Narrative.Strip` | app.py:67 | the result is an infix of the text with only whitespace around it, and neither starts nor ends with whitespace |
| `Narrative.StripIdempotent` | app.py:67 | stripping a stripped text changes nothing |
| `Narrative.NewlineIndex` | app.py:67 | the position of the first newline, with none before it |
| `Narrative.Split` | app.py:67 | one piece more than there are newlines, no piece holds a newline, and joining the pieces with newlines gives the text back |
| `Narrative.JoinPrefix` | app.py:67 | joining the first `k` pieces gives a prefix of the whole with `k - 1` newlines, followed by a newline when pieces remain |
| `Narrative.FirstLines` | app.py:67 | the kept text is a prefix with at most four newlines; a text of at most five pieces is kept whole; a cut falls just before the fifth newline |
| `Narrative.Explanation` | app.py:54-67 | the explanation is a prefix of the stripped answer that does not start with whitespace and has at most four newlines; a short answer is kept whole; a cut falls just before the fifth newline |
| `Report.GeneratePdf` | app.py:80-97 | `len(car_data) + 8` blocks: title, gap, one paragraph per field in key order, gap, price, gap, the chart image, gap, explanation last; the chart is the only image |
| `App.BaseInput` | app.py:151-160 | the base record has eight fields and its "Year" is the entered year |
| `App.Advise` | app.py:162-179 | the predicted price is the model's price of the base record and equals the first forecast price; every forecast price is the model's price for the base record moved to that year; the forecast covers the entered year and five more; the advised year is the first cheapest in that window |
| `App.PredictAndReport` | app.py:162-188 | all of the above, plus: the explanation is the cut-down answer, and the report is the title, a gap, the eight form fields in order, then gap, price, gap, chart, gap and explanation |

## Left out

- The Streamlit interface: page setup, the mobile/desktop toggle, the sidebar, widget layout, the widget input ranges and the download button (presentation only).
- The desktop branches (app.py:197-226) run subsets of the mobile flow with the same expressions; only the mobile flow is modelled as one method.
- Loading the model file and the model's internals: the model is an abstract total deterministic function. An exception raised by the model, which aborts the page, is not modelled.
- Forecast.CalculateFuturePrices: prices are integers in hundredths; the floating-point `round(price, 2)` and float comparison in `min` (including NaN) are not modelled.
- The prompt built in `explain_with_gemini` and the call to the language model (network I/O); the answer text is an input. The call uses a name `client` that app.py never defines; the model assumes the call returns text.
- Plotting with matplotlib (`save_depreciation_graph`), apart from the fixed file name it returns.
- Report.GeneratePdf: paragraph text is kept as structured data (field key and value, price, explanation); the f-string markup and the string conversion of values are not modelled, nor are `SimpleDocTemplate`, `doc.build` and the returned file name. Because markup is not parsed, the model is total. It therefore omits the failure where reportlab's `Paragraph` rejects text it cannot parse as its own markup and raises `ValueError` before `doc.build`. Such text can come from a company name typed into the form or an explanation containing an unknown tag such as `<x>`.
- App.PredictAndReport: models the flow as it was evidently meant to run. As written, the explanation step at app.py:182 raises `NameError`, because `client` is never defined (app.py:63), so app.py:185-191 are never reached. The model assumes the language-model call returns the answer text.
