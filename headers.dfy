/**
 * Column-header standardisation (`padronizar_colunas`, app.py lines 9-15):
 * every header is turned into a string, lower-cased, has `ê` and `é` folded to
 * `e`, and is stripped of surrounding whitespace. The table's header list is
 * replaced in place and the same table is handed back.
 */
module Headers {
  import opened PyStr

  /** A column label as the table holds it: text, or an integer label. */
  datatype Label = Text(s: string) | Int(n: int)

  /** `str(label)`. */
  function Str(l: Label): string {
    match l
    case Text(s) => s
    case Int(n) => DecimalString(n)
  }

  /** The two accented letters the page folds, each to `e`. */
  function FoldChar(c: char): char {
    if c == 'ê' || c == 'é' then 'e' else c
  }

  /** `.replace('ê', 'e').replace('é', 'e')`. */
  function FoldAccents(s: string): (r: string)
    ensures |r| == |s|
  {
    ReplaceChar(ReplaceChar(s, 'ê', 'e'), 'é', 'e')
  }

  /** Lowering and folding work piece by piece on a concatenation. */
  lemma LowerFoldConcat(a: string, b: string)
    ensures FoldAccents(Lower(a + b)) == FoldAccents(Lower(a)) + FoldAccents(Lower(b))
  {
    LowerConcat(a, b);
    ReplaceCharConcat(Lower(a), Lower(b), 'ê', 'e');
    ReplaceCharConcat(ReplaceChar(Lower(a), 'ê', 'e'), ReplaceChar(Lower(b), 'ê', 'e'), 'é', 'e');
  }

  /** Lowering then folding, character by character. */
  lemma LowerFoldAt(s: string)
    ensures |FoldAccents(Lower(s))| == |s|
    ensures forall i :: 0 <= i < |s| ==> FoldAccents(Lower(s))[i] == FoldChar(LowerChar(s[i]))
  {
  }

  /** `str(c).lower().replace('ê', 'e').replace('é', 'e').strip()`. */
  function NormalizeHeader(l: Label): string {
    Strip(FoldAccents(Lower(Str(l))))
  }

  /** The shape of every header the page produces. */
  predicate IsCanonical(h: string) {
    LowerFolded(h) && (h != [] ==> !IsSpace(h[0]) && !IsSpace(h[|h| - 1]))
  }

  /** No upper-case letter and no `é`/`ê` anywhere in `t`. */
  predicate LowerFolded(t: string) {
    forall i :: 0 <= i < |t| ==> !IsUpper(t[i]) && t[i] != 'é' && t[i] != 'ê'
  }

  /** Lowering then folding leaves no upper-case letter and no `é`/`ê`. */
  lemma FoldedLowerShape(s: string)
    ensures LowerFolded(FoldAccents(Lower(s)))
  {
    LowerFoldAt(s);
  }

  /** Stripping keeps a slice, so it keeps that shape, and it trims. */
  lemma StripKeepsLowerFolded(t: string)
    requires LowerFolded(t)
    ensures IsCanonical(Strip(t))
  {
    var a, b := StripSlice(t);
    var r := Strip(t);
    forall i | 0 <= i < |r| ensures !IsUpper(r[i]) && r[i] != 'é' && r[i] != 'ê' {
      assert r[i] == t[a + i];
    }
  }

  /** Each normalised header is lower-case, free of `é`/`ê` and trimmed, and no longer than its source. */
  lemma NormalizeHeaderCanonical(l: Label)
    ensures IsCanonical(NormalizeHeader(l))
    ensures |NormalizeHeader(l)| <= |Str(l)|
  {
    FoldedLowerShape(Str(l));
    StripKeepsLowerFolded(FoldAccents(Lower(Str(l))));
  }

  /** A header of canonical shape holds neither accented `e`, in either case. */
  lemma CanonicalHasNoAccentedE(h: string)
    requires IsCanonical(h)
    ensures 'é' !in h && 'ê' !in h && 'É' !in h && 'Ê' !in h
  {
    forall i | 0 <= i < |h| ensures h[i] != 'É' && h[i] != 'Ê' {
      assert !IsUpper(h[i]);
    }
  }

  /** Because lowering runs first, the capital forms `É` and `Ê` disappear too. */
  lemma NormalizeHeaderNoAccentedE(l: Label)
    ensures 'é' !in NormalizeHeader(l) && 'ê' !in NormalizeHeader(l)
    ensures 'É' !in NormalizeHeader(l) && 'Ê' !in NormalizeHeader(l)
  {
    NormalizeHeaderCanonical(l);
    CanonicalHasNoAccentedE(NormalizeHeader(l));
  }

  /** A header already in canonical shape is left exactly as it is. */
  lemma CanonicalHeaderUnchanged(h: string)
    requires IsCanonical(h)
    ensures NormalizeHeader(Text(h)) == h
  {
    var t := FoldAccents(Lower(h));
    LowerFoldAt(h);
    assert t == h;
    StripTrimmed(h);
  }

  /** Normalising a normalised header changes nothing. */
  lemma NormalizeHeaderIdempotent(l: Label)
    ensures NormalizeHeader(Text(NormalizeHeader(l))) == NormalizeHeader(l)
  {
    NormalizeHeaderCanonical(l);
    CanonicalHeaderUnchanged(NormalizeHeader(l));
  }

  /**
   * On a header without surrounding whitespace, nothing is cut: character i of
   * the result is character i of the input, lowered and with `é`/`ê` folded.
   * Interior spaces, `í`, `ã` and every other character survive.
   */
  lemma NormalizeTrimmedHeader(s: string)
    requires s != [] ==> !IsSpace(s[0]) && !IsSpace(s[|s| - 1])
    ensures |NormalizeHeader(Text(s))| == |s|
    ensures forall i :: 0 <= i < |s| ==> NormalizeHeader(Text(s))[i] == FoldChar(LowerChar(s[i]))
  {
    var t := FoldAccents(Lower(s));
    LowerFoldAt(s);
    StripTrimmed(t);
  }

  // The example lemmas below take the header text as a parameter fixed by their
  // `requires` rather than writing the literal into the `ensures`: applied to a
  // literal, the string functions would be unfolded character by character by
  // the solver, which is far more costly than the stepwise proofs given here.

  /** "Gênero" becomes the key `genero` the page reads. */
  lemma GenderHeaderNormalized(raw: string)
    requires raw == "Gênero"
    ensures NormalizeHeader(Text(raw)) == "genero"
  {
    var t := FoldAccents(Lower(raw));
    LowerFoldAt(raw);
    assert t == "genero";
    StripTrimmed(t);
  }

  /** "Peso (kg)" keeps its interior space and brackets: the key is `peso (kg)`. */
  lemma WeightHeaderNormalized(raw: string)
    requires raw == "Peso (kg)"
    ensures NormalizeHeader(Text(raw)) == "peso (kg)"
  {
    var t := FoldAccents(Lower(raw));
    LowerFoldAt(raw);
    assert t == "peso (kg)";
    StripTrimmed(t);
  }

  /** Accents other than `é`/`ê` survive: "Matrícula" keeps its `í`. */
  lemma RegistrationHeaderKeepsAccent(raw: string)
    requires raw == "Matrícula"
    ensures NormalizeHeader(Text(raw)) == "matrícula"
    ensures NormalizeHeader(Text(raw)) != "matricula"
  {
    var t := FoldAccents(Lower(raw));
    LowerFoldAt(raw);
    assert t == "matrícula";
    StripTrimmed(t);
  }

  /** A whitespace character on each side of a trimmed header makes no difference. */
  lemma PaddingIgnored(core: string, before: char, after: char)
    requires core != [] ==> !IsSpace(core[0]) && !IsSpace(core[|core| - 1])
    requires IsSpace(before) && IsSpace(after)
    ensures NormalizeHeader(Text([before] + core + [after])) == NormalizeHeader(Text(core))
  {
    var c := FoldAccents(Lower(core));
    LowerFoldConcat([before] + core, [after]);
    LowerFoldConcat([before], core);
    LowerFoldAt(core);
    LowerFoldAt([before]);
    LowerFoldAt([after]);
    var b, a := FoldChar(LowerChar(before)), FoldChar(LowerChar(after));
    assert FoldAccents(Lower([before])) == [b];
    assert FoldAccents(Lower([after])) == [a];
    StripPadded(c, b, a);
    StripTrimmed(c);
  }

  /** Surrounding whitespace of any kind goes; the interior space stays. */
  lemma PaddedHeaderNormalized(raw: string)
    requires raw == " Peso (kg)\t"
    ensures NormalizeHeader(Text(raw)) == "peso (kg)"
  {
    var core := raw[1..|raw| - 1];
    assert core == "Peso (kg)" by {
      assert |core| == 9;
    }
    assert raw == [raw[0]] + core + [raw[|raw| - 1]];
    PaddingIgnored(core, raw[0], raw[|raw| - 1]);
    WeightHeaderNormalized(core);
  }

  /** An integer label becomes its decimal spelling, unchanged by the rest. */
  lemma IntHeaderIsDecimal(n: int)
    ensures NormalizeHeader(Int(n)) == DecimalString(n)
  {
    var s := DecimalString(n);
    DecimalStringShape(n);
    forall i | 0 <= i < |s| ensures FoldChar(LowerChar(s[i])) == s[i] && !IsSpace(s[i]) {}
    NormalizeTrimmedHeader(s);
  }

  /** The label a header becomes: the text `NormalizeHeader` gives. */
  function Standard(l: Label): Label {
    Text(NormalizeHeader(l))
  }

  /** `[f(x) for x in s]`, built from the front. */
  function Map<A, B>(f: A -> B, s: seq<A>): seq<B> {
    if s == [] then [] else Map(f, s[..|s| - 1]) + [f(s[|s| - 1])]
  }

  /** Mapping keeps the count and order: entry i is `f` of entry i. */
  lemma {:induction false} MapAt<A, B>(f: A -> B, s: seq<A>)
    ensures |Map(f, s)| == |s|
    ensures forall i :: 0 <= i < |s| ==> Map(f, s)[i] == f(s[i])
  {
    if s != [] {
      var n := |s| - 1;
      MapAt(f, s[..n]);
      forall i | 0 <= i < n ensures Map(f, s)[i] == f(s[i]) {
        assert s[..n][i] == s[i];
      }
    }
  }

  /** The whole new header list: one text label per old one, in the same order. */
  function Standardized(cols: seq<Label>): seq<Label> {
    Map(Standard, cols)
  }

  /** The new list keeps the count and order: entry i is the text label made from old entry i. */
  lemma StandardizedAt(cols: seq<Label>)
    ensures |Standardized(cols)| == |cols|
    ensures forall i :: 0 <= i < |cols| ==> Standardized(cols)[i] == Text(NormalizeHeader(cols[i]))
  {
    MapAt(Standard, cols);
  }

  /** Every entry of the new list is a text label of canonical shape. */
  lemma StandardizedShape(cols: seq<Label>)
    ensures |Standardized(cols)| == |cols|
    ensures forall i :: 0 <= i < |cols| ==>
      Standardized(cols)[i].Text? && Standardized(cols)[i].s == NormalizeHeader(cols[i])
      && IsCanonical(Standardized(cols)[i].s)
  {
    StandardizedAt(cols);
    forall i | 0 <= i < |cols| ensures IsCanonical(NormalizeHeader(cols[i])) {
      NormalizeHeaderCanonical(cols[i]);
    }
  }

  /** Standardising an already standardised header list is a no-op. */
  lemma StandardizedIdempotent(cols: seq<Label>)
    ensures Standardized(Standardized(cols)) == Standardized(cols)
  {
    var once := Standardized(cols);
    StandardizedAt(cols);
    StandardizedAt(once);
    forall i | 0 <= i < |cols|
      ensures Standardized(once)[i] == once[i]
    {
      NormalizeHeaderIdempotent(cols[i]);
    }
  }

  /** A table: its header list and its rows. Only the headers are ever reassigned. */
  class Frame<Row> {
    var columns: seq<Label>
    var rows: seq<Row>

    constructor (columns: seq<Label>, rows: seq<Row>)
      ensures this.columns == columns && this.rows == rows
    {
      this.columns := columns;
      this.rows := rows;
    }
  }

  /**
   * `padronizar_colunas(df)`: rebuilds the header list one label at a time,
   * stores it on the same table and returns that table.
   */
  method StandardizeColumns<Row>(df: Frame<Row>) returns (r: Frame<Row>)
    modifies df`columns
    ensures r == df
    ensures df.columns == Standardized(old(df.columns))
    ensures df.rows == old(df.rows)
  {
    var cols := df.columns;
    var out: seq<Label> := [];
    var i := 0;
    while i < |cols|
      invariant 0 <= i <= |cols|
      invariant out == Standardized(cols[..i])
    {
      assert cols[..i + 1][..i] == cols[..i];
      out := out + [Standard(cols[i])];
      i := i + 1;
    }
    assert cols[..|cols|] == cols;
    df.columns := out;
    r := df;
  }
}
