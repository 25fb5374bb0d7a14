# NutriGestão Escolar — a verified model of the page's core logic

NutriGestão Escolar is a one-page Streamlit app (`app.py`). It loads a school
sheet of students (name, registration number, age, gender, weight and
height) and a WHO weight-for-height reference table. For the chosen student,
it plots the student on the reference curves of their gender and shows their
body-mass index (IMC). This project models the three pieces of `app.py` that
hold real logic, and proves properties of them in Dafny:

- **Header standardisation**, `padronizar_colunas`. Each column label is
  turned into a string and lower-cased. Then `ê` and `é` are folded to `e`,
  and surrounding whitespace is stripped. The new header list is stored on
  the same table, and that table is returned. This is modelled in
  `headers.dfy` as the method `StandardizeColumns` on a `Frame` class. The
  Python string primitives it uses are modelled in `pystr.dfy`.
- **BMI with a guard**, `calcular_imc`. It returns weight / (height in
  metres)², rounded to two decimals, when both inputs are positive numbers.
  Otherwise, or when anything raises, it returns the integer 0. This is
  modelled in `bmi.dfy` over exact reals.
- **The page's inline logic**. This covers the picker's options
  (`unique()`), the selection of the first row with the chosen name, the
  defaulting of missing weight and height to `0.0`, and the gender text,
  stripped and upper-cased, that presets the M/F picker. It also covers the
  filter of the reference table by the chosen gender, and the choice between
  the chart (with the BMI), the "no reference data" warning and the page's
  error handler. This is modelled in `page.dfy`. The function `Render` gives
  the whole outcome for a standardised sheet, a reference table, a chosen
  name and the sidebar edits.

## Behaviour worth knowing

- A missing gender does not preset M. An empty gender cell reads `"nan"`,
  which is not `"M"`, so the picker starts on F (`EmptyGenderPresetsF`).
- The docstring of `padronizar_colunas` says it removes accents and spaces,
  but the code does less. It removes only surrounding whitespace, so interior
  spaces stay (`NormalizeTrimmedHeader`). It folds only `ê` and `é`; `í`,
  `â`, `ã` and the other accents are kept. So a header `"Matrícula"` becomes
  `matrícula`, not the `matricula` the page reads, and such a sheet always
  ends in the error message (`NoRegistrationKeyFails`).
- An empty name cell is offered by the picker, but picking it selects no row,
  so the page shows the error message (`BlankNameSelectsNothing`).

## Model

| member | source | states |
|---|---|---|
| `PyStr.Lower` | app.py:12 | `lower()` keeps the length of the text |
| `PyStr.Upper` | app.py:71 | `upper()` is at least as long as the text and at most twice as long (`ß` becomes "SS"); `Page.UpperIsM` gives the case the page tests |
| `PyStr.Strip` | app.py:12 | `strip()` is no longer than the text; `PyStr.StripSlice` gives its full meaning |
| `PyStr.StripStartSuffix` | app.py:12 | the leading part `strip()` removes is whitespace only, and what remains is the rest of the text, starting with a non-space |
| `PyStr.StripEndPrefix` | app.py:12 | the trailing part `strip()` removes is whitespace only, and what remains is the start of the text, ending with a non-space |
| `PyStr.StripSlice` | app.py:12 | `strip()` keeps one contiguous slice of the input that neither starts nor ends with whitespace, and everything it cuts on either side is whitespace |
| `PyStr.StripTrimmed` | app.py:12 | a text that neither starts nor ends with whitespace is its own `strip()` |
| `PyStr.StripPadded` | app.py:12 | one whitespace character on each side of a trimmed text, the empty text included, is exactly what `strip()` removes |
| `PyStr.ReplaceChar` | app.py:12 | `replace(a, b)` with a one-character pattern keeps the length; `Headers.LowerFoldAt` states which characters it swaps in the two calls the page makes |
| `PyStr.DecimalString` | app.py:12 | `str(n)` of an integer label is never empty; `PyStr.DecimalStringShape` and `PyStr.DecimalStringValue` state its form and that it denotes n |
| `PyStr.DigitsShape` | app.py:12 | the decimal spelling of a natural number is made of digits and starts with `0` only for 0 |
| `PyStr.DecimalStringShape` | app.py:12 | `str(n)` of an integer label is made of digits and a leading minus sign, and the sign appears exactly when n < 0 |
| `PyStr.DigitsValue` | app.py:12 | the digits of a natural number, read back most significant first, give that number |
| `PyStr.DecimalStringValue` | app.py:12 | `str(n)` denotes n: the digits of a non-negative n spell n, and a negative n is a minus sign followed by the digits of -n |
| `Headers.Str` | app.py:12 | `str(c)` of a label: the text itself, or the decimal spelling of an integer label; `Headers.IntHeaderIsDecimal` states what an integer label standardises to |
| `Headers.FoldAccents` | app.py:12 | `.replace('ê', 'e').replace('é', 'e')` keeps the length; `Headers.LowerFoldAt` states that it turns each `ê` and `é`, and nothing else, into `e` |
| `Headers.LowerFoldAt` | app.py:12 | lowering and the two `replace` calls keep the length, and character i becomes character i lowered, with `ê` and `é`, and nothing else, turned into `e` |
| `Headers.NormalizeHeader` | app.py:12 | `str(c).lower()`, the two `replace` calls and `strip()` on one label; `Headers.NormalizeHeaderCanonical` and `Headers.NormalizeHeaderIdempotent` state what it produces |
| `Headers.NormalizeHeaderCanonical` | app.py:12 | every standardised header is lower-case, contains no `é`/`ê`, has no surrounding whitespace, and is no longer than `str(label)` |
| `Headers.NormalizeHeaderNoAccentedE` | app.py:12 | because lowering runs first, `É` and `Ê` are gone too |
| `Headers.CanonicalHeaderUnchanged` | app.py:12 | a header already of that shape is left exactly as it is |
| `Headers.NormalizeHeaderIdempotent` | app.py:11-14 | standardising a standardised header changes nothing |
| `Headers.NormalizeTrimmedHeader` | app.py:12 | without surrounding whitespace nothing is cut: output character i is input character i, lowered and folded, so interior spaces, `í`, `ã` and the rest survive |
| `Headers.GenderHeaderNormalized` | app.py:71 | the header "Gênero" becomes the key `genero` |
| `Headers.WeightHeaderNormalized` | app.py:69 | the header "Peso (kg)" becomes the key `peso (kg)`, with its interior space |
| `Headers.RegistrationHeaderKeepsAccent` | app.py:82 | the header "Matrícula" becomes `matrícula`, which is not the key `matricula` |
| `Headers.PaddedHeaderNormalized` | app.py:12 | a header padded with a space and a tab, " Peso (kg)\t", loses both and becomes `peso (kg)` |
| `Headers.IntHeaderIsDecimal` | app.py:12 | an integer label becomes its decimal spelling |
| `Headers.PaddingIgnored` | app.py:12 | a whitespace character on each side of a trimmed header, the empty header included, changes nothing in its standardised form |
| `Headers.Standardized` | app.py:11-14 | the whole new header list; `Headers.StandardizedAt`, `Headers.StandardizedShape` and `Headers.StandardizedIdempotent` state what it holds |
| `Headers.StandardizedAt` | app.py:11-14 | the new header list has the same length and order, and entry i is the text made from old entry i |
| `Headers.StandardizedShape` | app.py:11-14 | the new header list has the same length and order; entry i is text, comes from old entry i and has the canonical shape |
| `Headers.StandardizedIdempotent` | app.py:11-14 | standardising the header list twice gives the same list as once |
| `Headers.StandardizeColumns` | app.py:9-15 | the table's header list is replaced by its standardised form, the rows are untouched, and the same table is returned |
| `Bmi.Round2` | app.py:36 | `round(x, 2)` gives a whole number of hundredths, at most half a hundredth from x, and never negative for x ≥ 0 |
| `Bmi.Round2Nearest` | app.py:36 | a hundredth closer than half a hundredth to x is the one rounding returns |
| `Bmi.Round2Cents` | app.py:36 | a value that already has two decimals is returned unchanged |
| `Bmi.Round2Monotone` | app.py:36 | rounding never reverses the order of two values |
| `Bmi.CalcImc` | app.py:33-39 | it returns a rounded value exactly when both inputs are numbers above 0; otherwise it returns the integer 0 (NaN fails the guard, a non-number raises and is caught). The value has two decimals, is within half a hundredth of weight / (height/100)², and what is shown is never negative |
| `Bmi.ImcIsNearestHundredth` | app.py:36 | for positive inputs, the result is the hundredth nearest to weight / (height/100)² |
| `Bmi.ImcAtOneMetre` | app.py:36 | at 100 cm the index is the rounded weight, and a two-decimal weight comes back unchanged |
| `Bmi.ImcMonotoneInWeight` | app.py:33-39 | at any fixed height, a heavier child never gets a smaller index shown, for all weights, including the 0.0 of a missing weight |
| `Bmi.ImcExample` | app.py:36 | 20 kg at 125 cm gives 12.8 |
| `Page.Where` | app.py:92 | `df[mask]` is no longer than the table, and every row it keeps satisfies the mask and comes from the table |
| `Page.WhereKeepsMatches` | app.py:92 | no row that satisfies the mask is dropped |
| `Page.WhereConcat` | app.py:92 | filtering keeps the original order: the filter of two stacked tables is the two filters stacked |
| `Page.WhereEmpty` | app.py:94 | the filter is empty exactly when no row satisfies the mask |
| `Page.WhereFirst` | app.py:62 | the first row kept is the first row of the table that satisfies the mask |
| `Page.Unique` | app.py:61 | `unique()` lists each name of the column exactly once, and nothing else |
| `Page.UniquePrefix` | app.py:61 | `unique()` keeps the order of first appearance: the options for a prefix of the column are a prefix of the options |
| `Page.SelectStudent` | app.py:62 | the name filter followed by `.iloc[0]`, or nothing where that raises; `Page.SelectStudentIsFirst` states which row it is |
| `Page.SelectStudentIsFirst` | app.py:62 | `.iloc[0]` of the name filter is the first row whose name equals the pick, and it fails exactly when no row's name equals it |
| `Page.OfferedNameSelects` | app.py:61-62 | every name (not an empty cell) the picker offers selects a row with that name |
| `Page.BlankNameSelectsNothing` | app.py:61-62 | the picker offers an empty name exactly when some name cell is empty, and picking it selects no row, since NaN equals nothing |
| `Page.MeasureOrZero` | app.py:69-70 | a missing weight or height becomes 0.0, a present one its value; `Page.MissingMeasurementGivesZeroImc` states what that does to the BMI |
| `Page.NormalizeGender` | app.py:71 | `str(v).strip().upper()` of the gender cell; `Page.InitialGenderIsM` states the texts it turns into "M" |
| `Page.PickerIndex` | app.py:75 | `0 if gen_val == "M" else 1`; `Page.InitialGenderIsM` states which gender texts give index 0 |
| `Page.InitialGender` | app.py:71-75 | the gender the picker starts on; `Page.InitialGenderIsM` states when it is M and when F |
| `Page.UpperIsM` | app.py:71 | only "m" and "M" upper-case to exactly "M" |
| `Page.InitialGenderIsM` | app.py:71-75 | the picker starts on M exactly when the stripped gender text is "M" or "m", and on F otherwise |
| `Page.EmptyGenderPresetsF` | app.py:71-75 | an empty gender cell, read as "nan", presets F |
| `Page.SpelledGenderPresetsF` | app.py:71-75 | "Masculino" is not exactly "M", so it presets F |
| `Page.PaddedGenderPresetsM` | app.py:71-75 | " m " is stripped and upper-cased to "M", so it presets M |
| `Page.ReferenceCurve` | app.py:92 | the reference rows of the chosen gender; `Page.ReferenceCurveExact` and `Page.ReferenceCurveOrder` state which rows and in what order |
| `Page.ReferenceCurveExact` | app.py:92-94 | the curve holds exactly the reference rows whose `genero` equals the chosen gender, and it is empty exactly when there are none |
| `Page.ReferenceCurveOrder` | app.py:92 | the curve keeps the reference table's row order |
| `Page.HasColumns` | app.py:61-82 | the six keys the page reads (`aluno`, `peso (kg)`, `altura (cm)`, `genero`, `idade`, `matricula`) are all among the headers; `Page.RenderOutcomes` and `Page.NoRegistrationKeyFails` state that a missing one ends in the error message |
| `Page.ChosenGender` | app.py:75 | the gender picker's value: the edit, or the preset `Page.InitialGender`; `Page.RenderOutcomes` states that the curve shown is that gender's |
| `Page.ChosenWeight` | app.py:73 | the weight input's value: the edit, or the preset `Page.MeasureOrZero`; `Page.RenderOutcomes` states that the chart's point and BMI use it |
| `Page.ChosenHeight` | app.py:74 | the height input's value: the edit, or the preset `Page.MeasureOrZero`; `Page.RenderOutcomes` states that the chart's point and BMI use it |
| `Page.Render` | app.py:58-118 | the page's outcome for a standardised sheet, the reference table, the pick and the sidebar edits; `Page.RenderOutcomes` states when each outcome occurs |
| `Page.RenderOutcomes` | app.py:58-118 | the error message shows exactly when a key the page reads is missing, no row's name equals the pick, the reference table has no `genero` column, or the chosen gender has reference rows but the table lacks a plotted column (`estatura`, `z_2neg`, `z_0`, `z_2pos`). The warning shows exactly when no reference row has the chosen gender. Otherwise the chart shows exactly `Page.ReferenceCurve` of the chosen gender, in table order, with the point at the chosen height and weight and the BMI of them |
| `Page.MissingMeasurementGivesZeroImc` | app.py:69-103 | a missing weight or height, left unedited, defaults to 0.0, so any chart drawn shows BMI 0 |
| `Page.EmptyGenderShowsFemaleCurve` | app.py:71-92 | with an empty gender cell and no edit, any chart drawn shows only F reference rows |
| `Page.NoRegistrationKeyFails` | app.py:82 | a sheet with no header that standardises to `matricula` always ends in the error message |

## Left out

- The Streamlit interface is not modelled: page setup, titles, metrics, info, warning and error texts, and the widgets themselves. The values typed into the sidebar are a parameter (`Edits`). The name picked is a parameter. The upload prompt is not modelled.
- File reading is not modelled: the reference CSV (`carregar_referencias`, its `on_bad_lines='skip'` and its cache) and the uploaded CSV or Excel file. The reference table arrives as rows with a flag saying whether it carries the four plotted columns, or as `Unreadable` for a table without `genero`, such as the empty table returned when reading fails.
- The Plotly chart is not modelled. The chart outcome carries the curve rows and the student's point; drawing them is left out.
- Floating point is not modelled. `calcular_imc` works on exact reals. So the model does not capture binary representation effects of `round` (`round(2.675, 2)` is 2.67 in Python), infinities, or a height so small that its square underflows to 0.0 and raises `ZeroDivisionError`, which the handler turns into 0.
- `Bmi.Quotient` divides twice by the height in metres instead of once by its square. The two are the same real number.
- Case mapping covers ASCII and the Latin-1 Supplement only (with `ß` → "SS", `ÿ` → `Ÿ` and `µ` → `Μ` on upper-casing). Other characters are treated as having no case.
- Column labels are text or integers. Float, tuple and other label types are not modelled.
- Two headers that standardise to the same key are not modelled: each row holds a single value per field.
- Name cells are text or empty. A number in the name column is not modelled.
- Weight and height cells are numbers or empty. A text cell passed to `float()` is not modelled.
- The gender field of a row holds the text `str()` gives for the cell. How Python renders non-text cells is not modelled, except that an empty cell reads "nan".
- The displayed age and registration values are not modelled. Only the presence of their keys is modelled, since a missing key raises.
