/**
 * The page logic around the two helpers (app.py lines 58-118): the student
 * picker's options, the selection of the first row with the chosen name, the
 * defaulting of missing weight and height to 0.0, the gender normalisation
 * that presets the M/F picker, the filtering of the reference table by the
 * chosen gender, and the choice between the chart (with the BMI) and the
 * warning. Every exception raised on the way ends in the page's error message.
 */
module Page {
  import opened Wrappers
  import opened PyStr
  import opened Headers
  import opened Bmi

  /** A cell of a numeric column: empty (None or NaN, which `pd.notnull` rejects) or a number. */
  datatype Cell = Missing | Value(x: real)

  /**
   * A cell of the name column: a name, or empty (NaN). `unique()` lists an
   * empty cell like any other value, but NaN compares unequal to everything.
   */
  datatype NameCell = Name(s: string) | Blank

  /** Pandas `==` between a name cell and the picked value: true only for two equal names. */
  predicate SameName(cell: NameCell, picked: NameCell) {
    cell.Name? && picked.Name? && cell.s == picked.s
  }

  /**
   * A row of the school sheet, reduced to the columns whose values the page
   * uses. `genero` holds `str()` of the cell (an empty cell reads "nan").
   */
  datatype StudentRow = StudentRow(aluno: NameCell, peso: Cell, altura: Cell, genero: string)

  /** A row of the reference table: gender, height and the three curves drawn. */
  datatype RefRow = RefRow(genero: string, estatura: real, z2neg: real, z0: real, z2pos: real)

  /**
   * The reference table as loaded. `Unreadable` is a table without a `genero`
   * column (the empty one returned when reading fails). A loaded table has
   * `plotColumns` when it also carries `estatura`, `z_2neg`, `z_0` and
   * `z_2pos`; without them the numeric fields of its rows are never read.
   */
  datatype References = Loaded(rows: seq<RefRow>, plotColumns: bool) | Unreadable

  datatype Gender = M | F

  /** The options of the gender picker, in order. */
  const GenderOptions: seq<Gender> := [M, F]

  /** The text the reference table uses for a gender. */
  function Code(g: Gender): string {
    match g
    case M => "M"
    case F => "F"
  }

  // ---------------------------------------------------------------------------
  // Row filtering, `df[mask]`

  /** The elements of `s` that satisfy `keep`, in their original order. */
  function Where<T>(s: seq<T>, keep: T -> bool): (r: seq<T>)
    ensures |r| <= |s|
    ensures forall i :: 0 <= i < |r| ==> keep(r[i]) && r[i] in s
  {
    if s == [] then []
    else (if keep(s[0]) then [s[0]] else []) + Where(s[1..], keep)
  }

  /** Nothing that satisfies `keep` is dropped. */
  lemma {:induction false} WhereKeepsMatches<T>(s: seq<T>, keep: T -> bool)
    ensures forall x :: x in s && keep(x) ==> x in Where(s, keep)
  {
    if s != [] {
      WhereKeepsMatches(s[1..], keep);
      forall x | x in s && keep(x) ensures x in Where(s, keep) {
        if x != s[0] {
          assert x in s[1..];
        }
      }
    }
  }

  /** Filtering a concatenation filters each part and keeps them in order. */
  lemma {:induction false} WhereConcat<T>(a: seq<T>, b: seq<T>, keep: T -> bool)
    ensures Where(a + b, keep) == Where(a, keep) + Where(b, keep)
  {
    if a == [] {
      assert a + b == b;
    } else {
      assert (a + b)[1..] == a[1..] + b;
      WhereConcat(a[1..], b, keep);
    }
  }

  /** The filter is empty exactly when no element satisfies `keep`. */
  lemma {:induction false} WhereEmpty<T>(s: seq<T>, keep: T -> bool)
    ensures Where(s, keep) == [] <==> forall i :: 0 <= i < |s| ==> !keep(s[i])
  {
    WhereKeepsMatches(s, keep);
    if Where(s, keep) == [] {
      forall i | 0 <= i < |s| ensures !keep(s[i]) {
        assert s[i] in s;
      }
    } else {
      var i :| 0 <= i < |s| && s[i] == Where(s, keep)[0];
      assert keep(s[i]);
    }
  }

  /** The first element kept is the first element of `s` that satisfies `keep`. */
  lemma {:induction false} WhereFirst<T>(s: seq<T>, keep: T -> bool) returns (k: nat)
    requires Where(s, keep) != []
    ensures k < |s| && Where(s, keep)[0] == s[k] && keep(s[k])
    ensures forall j :: 0 <= j < k ==> !keep(s[j])
  {
    if keep(s[0]) {
      k := 0;
    } else {
      var k' := WhereFirst(s[1..], keep);
      k := k' + 1;
    }
  }

  // ---------------------------------------------------------------------------
  // The student picker and the selected row (lines 61-62)

  function Names(rows: seq<StudentRow>): seq<NameCell> {
    seq(|rows|, i requires 0 <= i < |rows| => rows[i].aluno)
  }

  /** `Series.unique()`: each value once, in the order of first appearance. */
  function Unique<T(==,!new)>(s: seq<T>): (r: seq<T>)
    ensures forall x :: x in r <==> x in s
    ensures forall i, j :: 0 <= i < j < |r| ==> r[i] != r[j]
  {
    if s == [] then []
    else
      var u := Unique(s[..|s| - 1]);
      assert s == s[..|s| - 1] + [s[|s| - 1]];
      if s[|s| - 1] in u then u else u + [s[|s| - 1]]
  }

  /** Unique keeps first appearances: the options for a prefix of the column are a prefix of the options. */
  lemma {:induction false} UniquePrefix<T(!new)>(s: seq<T>, n: nat)
    requires n <= |s|
    ensures Unique(s[..n]) <= Unique(s)
    decreases |s| - n
  {
    if n < |s| {
      UniquePrefix(s, n + 1);
      assert s[..n + 1][..n] == s[..n];
    } else {
      assert s[..n] == s;
    }
  }

  function HasName(name: NameCell): StudentRow -> bool {
    (row: StudentRow) => SameName(row.aluno, name)
  }

  /** `df_alunos[df_alunos['aluno'] == aluno_nome].iloc[0]`; `None` where `iloc[0]` raises. */
  function SelectStudent(rows: seq<StudentRow>, name: NameCell): Option<StudentRow> {
    var matches := Where(rows, HasName(name));
    if matches == [] then None else Some(matches[0])
  }

  /** The selected row is the first one carrying the name, and there is one exactly when some row carries it. */
  lemma SelectStudentIsFirst(rows: seq<StudentRow>, name: NameCell)
    ensures SelectStudent(rows, name).None? <==> forall i :: 0 <= i < |rows| ==> !SameName(rows[i].aluno, name)
    ensures SelectStudent(rows, name).Some? ==>
      exists k :: 0 <= k < |rows| && rows[k] == SelectStudent(rows, name).value
        && SameName(rows[k].aluno, name) && forall j :: 0 <= j < k ==> !SameName(rows[j].aluno, name)
  {
    WhereEmpty(rows, HasName(name));
    if Where(rows, HasName(name)) != [] {
      var k := WhereFirst(rows, HasName(name));
      assert rows[k] == SelectStudent(rows, name).value;
    }
  }

  /** Every name the picker offers selects a row with that name. */
  lemma OfferedNameSelects(rows: seq<StudentRow>, name: NameCell)
    requires name in Unique(Names(rows)) && name.Name?
    ensures SelectStudent(rows, name).Some? && SelectStudent(rows, name).value.aluno == name
  {
    var i :| 0 <= i < |rows| && Names(rows)[i] == name;
    SelectStudentIsFirst(rows, name);
    assert SameName(rows[i].aluno, name);
  }

  /**
   * The picker offers the empty name exactly when some name cell is empty, and
   * picking it selects no row, since NaN equals nothing.
   */
  lemma BlankNameSelectsNothing(rows: seq<StudentRow>)
    ensures Blank in Unique(Names(rows)) <==> exists i :: 0 <= i < |rows| && rows[i].aluno.Blank?
    ensures SelectStudent(rows, Blank).None?
  {
    SelectStudentIsFirst(rows, Blank);
    if exists i :: 0 <= i < |rows| && rows[i].aluno.Blank? {
      var i :| 0 <= i < |rows| && rows[i].aluno.Blank?;
      assert Names(rows)[i] == Blank;
    }
  }

  // ---------------------------------------------------------------------------
  // Defaults shown in the editing widgets (lines 69-71, 75)

  /** `float(v) if pd.notnull(v) else 0.0`. */
  function MeasureOrZero(c: Cell): real {
    match c
    case Missing => 0.0
    case Value(x) => x
  }

  /** `str(v).strip().upper()`. */
  function NormalizeGender(raw: string): string {
    Upper(Strip(raw))
  }

  /** `0 if gen_val == "M" else 1`: the preset position in the gender picker. */
  function PickerIndex(g: string): nat {
    if g == "M" then 0 else 1
  }

  /** The gender the picker starts on for a row's stored gender text. */
  function InitialGender(raw: string): Gender {
    GenderOptions[PickerIndex(NormalizeGender(raw))]
  }

  /** Only "m" and "M" upper-case to exactly "M". */
  lemma UpperIsM(t: string)
    ensures Upper(t) == "M" <==> (t == "M" || t == "m")
  {
    if Upper(t) == "M" {
      assert |t| == 1;
      assert Upper(t) == UpperChar(t[0]) + Upper(t[1..]);
      assert t == [t[0]];
    }
    if t == "m" {
      assert Upper(t) == UpperChar('m') + Upper([]);
    }
    if t == "M" {
      assert Upper(t) == UpperChar('M') + Upper([]);
    }
  }

  /** The picker starts on M exactly when the stripped text is "M" or "m"; anything else, an empty cell included, starts on F. */
  lemma InitialGenderIsM(raw: string)
    ensures InitialGender(raw) == M <==> (Strip(raw) == "M" || Strip(raw) == "m")
    ensures InitialGender(raw) == F <==> !(Strip(raw) == "M" || Strip(raw) == "m")
  {
    UpperIsM(Strip(raw));
  }

  // As with the header examples, the gender text is a parameter fixed by
  // `requires`, so that the solver does not unfold the string functions on a
  // literal.

  /** An empty gender cell reads "nan" and presets F. */
  lemma EmptyGenderPresetsF(raw: string)
    requires raw == "nan"
    ensures InitialGender(raw) == F
  {
    StripTrimmed(raw);
    InitialGenderIsM(raw);
  }

  /** A spelled-out "Masculino" is not "M": it presets F. */
  lemma SpelledGenderPresetsF(raw: string)
    requires raw == "Masculino"
    ensures InitialGender(raw) == F
  {
    StripTrimmed(raw);
    InitialGenderIsM(raw);
  }

  /** A padded lower-case " m " presets M. */
  lemma PaddedGenderPresetsM(raw: string)
    requires raw == " m "
    ensures InitialGender(raw) == M
  {
    assert StripStart(raw[1..]) == raw[1..];
    assert StripStart(raw) == "m ";
    assert StripEnd("m") == "m";
    assert StripEnd("m ") == "m";
    InitialGenderIsM(raw);
  }

  // ---------------------------------------------------------------------------
  // The reference curve for the chosen gender (line 92)

  function HasGender(g: Gender): RefRow -> bool {
    (ref: RefRow) => ref.genero == Code(g)
  }

  /** `df_ref[df_ref['genero'] == edit_gen]`. */
  function ReferenceCurve(refs: seq<RefRow>, g: Gender): seq<RefRow> {
    Where(refs, HasGender(g))
  }

  /**
   * The curve holds exactly the reference rows of the chosen gender, in their
   * original order, and is empty exactly when there are none.
   */
  lemma ReferenceCurveExact(refs: seq<RefRow>, g: Gender)
    ensures forall r :: r in ReferenceCurve(refs, g) <==> r in refs && r.genero == Code(g)
    ensures ReferenceCurve(refs, g) == [] <==> forall i :: 0 <= i < |refs| ==> refs[i].genero != Code(g)
  {
    WhereKeepsMatches(refs, HasGender(g));
    WhereEmpty(refs, HasGender(g));
  }

  /** Order is kept: the curve of two stacked tables is the two curves stacked. */
  lemma ReferenceCurveOrder(a: seq<RefRow>, b: seq<RefRow>, g: Gender)
    ensures ReferenceCurve(a + b, g) == ReferenceCurve(a, g) + ReferenceCurve(b, g)
  {
    WhereConcat(a, b, HasGender(g));
  }

  // ---------------------------------------------------------------------------
  // The page (lines 58-118)

  /** The standardised keys the page reads from the school sheet (lines 61, 69-71, 76, 82). */
  const StudentKeys: seq<string> := ["aluno", "peso (kg)", "altura (cm)", "genero", "idade", "matricula"]

  predicate HasColumns(columns: seq<Label>) {
    forall k :: k in StudentKeys ==> Text(k) in columns
  }

  /** What the user typed into the sidebar widgets; `None` where the preset value was kept. */
  datatype Edits = Edits(peso: Option<real>, altura: Option<real>, genero: Option<Gender>)

  const NoEdits: Edits := Edits(None, None, None)

  /** What the page shows below the header. */
  datatype Screen =
    | ErrorMessage                   // an exception reached the handler at line 117
    | NoReferenceWarning             // line 112
    | Chart(curve: seq<RefRow>, altura: real, peso: real, imc: ImcResult)

  function ChosenGender(row: StudentRow, edits: Edits): Gender {
    edits.genero.GetOr(InitialGender(row.genero))
  }

  function ChosenWeight(row: StudentRow, edits: Edits): real {
    edits.peso.GetOr(MeasureOrZero(row.peso))
  }

  function ChosenHeight(row: StudentRow, edits: Edits): real {
    edits.altura.GetOr(MeasureOrZero(row.altura))
  }

  /**
   * The page for a standardised school sheet (`columns`, `rows`), the
   * reference table, the name picked and the sidebar edits.
   */
  function Render(columns: seq<Label>, rows: seq<StudentRow>, refs: References, name: NameCell, edits: Edits): Screen {
    if !HasColumns(columns) then ErrorMessage
    else match SelectStudent(rows, name)
      case None => ErrorMessage
      case Some(row) =>
        if refs.Unreadable? then ErrorMessage
        else
          var curve := ReferenceCurve(refs.rows, ChosenGender(row, edits));
          if curve == [] then NoReferenceWarning
          else if !refs.plotColumns then ErrorMessage
          else
            var peso := ChosenWeight(row, edits);
            var altura := ChosenHeight(row, edits);
            Chart(curve, altura, peso, CalcImc(Num(peso), Num(altura)))
  }

  /**
   * The three outcomes: the error message exactly when a key is missing, no
   * row has the name, the reference table has no `genero` column, or the
   * chosen gender's rows are there but a plotted column is not; the warning
   * exactly when no reference row has the chosen gender; otherwise the chart,
   * whose curve is the chosen gender's rows in table order, whose point is the
   * chosen height and weight, and whose BMI is `calcular_imc` of them.
   */
  lemma RenderOutcomes(columns: seq<Label>, rows: seq<StudentRow>, refs: References, name: NameCell, edits: Edits)
    ensures Render(columns, rows, refs, name, edits).ErrorMessage? <==>
      !HasColumns(columns) || (forall i :: 0 <= i < |rows| ==> !SameName(rows[i].aluno, name)) || refs.Unreadable?
      || (refs.Loaded? && !refs.plotColumns && SelectStudent(rows, name).Some?
          && ReferenceCurve(refs.rows, ChosenGender(SelectStudent(rows, name).value, edits)) != [])
    ensures Render(columns, rows, refs, name, edits).NoReferenceWarning? <==>
      HasColumns(columns) && SelectStudent(rows, name).Some? && refs.Loaded?
      && forall i :: 0 <= i < |refs.rows| ==>
           refs.rows[i].genero != Code(ChosenGender(SelectStudent(rows, name).value, edits))
    ensures Render(columns, rows, refs, name, edits).Chart? ==>
      var row := SelectStudent(rows, name).value;
      var screen := Render(columns, rows, refs, name, edits);
      && refs.Loaded? && refs.plotColumns
      && screen.curve == ReferenceCurve(refs.rows, ChosenGender(row, edits)) && screen.curve != []
      && (forall r :: r in screen.curve <==> r in refs.rows && r.genero == Code(ChosenGender(row, edits)))
      && screen.altura == ChosenHeight(row, edits) && screen.peso == ChosenWeight(row, edits)
      && screen.imc == CalcImc(Num(ChosenWeight(row, edits)), Num(ChosenHeight(row, edits)))
  {
    SelectStudentIsFirst(rows, name);
    if SelectStudent(rows, name).Some? && refs.Loaded? {
      ReferenceCurveExact(refs.rows, ChosenGender(SelectStudent(rows, name).value, edits));
    }
  }

  /** A missing weight or height, left unedited, gives a BMI of 0 whenever the chart is drawn. */
  lemma MissingMeasurementGivesZeroImc(columns: seq<Label>, rows: seq<StudentRow>, refs: References, name: NameCell)
    requires SelectStudent(rows, name).Some?
    requires SelectStudent(rows, name).value.peso.Missing? || SelectStudent(rows, name).value.altura.Missing?
    ensures Render(columns, rows, refs, name, NoEdits).Chart? ==>
      Render(columns, rows, refs, name, NoEdits).imc == Zero
  {
  }

  /** With an empty gender cell and no edit, the chart shows the F curve: the picker is preset to F. */
  lemma EmptyGenderShowsFemaleCurve(columns: seq<Label>, rows: seq<StudentRow>, refs: References, name: NameCell)
    requires SelectStudent(rows, name).Some? && SelectStudent(rows, name).value.genero == "nan"
    ensures Render(columns, rows, refs, name, NoEdits).Chart? ==>
      forall r :: r in Render(columns, rows, refs, name, NoEdits).curve ==> r.genero == "F"
  {
    EmptyGenderPresetsF(SelectStudent(rows, name).value.genero);
    if refs.Loaded? {
      ReferenceCurveExact(refs.rows, F);
    }
  }

  /**
   * A sheet none of whose headers standardises to `matricula` (a "Matrícula"
   * header keeps its accent) always ends in the error message.
   */
  lemma NoRegistrationKeyFails(raw: seq<Label>, rows: seq<StudentRow>, refs: References, name: NameCell, edits: Edits)
    requires forall i :: 0 <= i < |raw| ==> NormalizeHeader(raw[i]) != "matricula"
    ensures Render(Standardized(raw), rows, refs, name, edits) == ErrorMessage
  {
    assert "matricula" in StudentKeys;
    StandardizedShape(raw);
    assert Text("matricula") !in Standardized(raw);
  }
}
