/** The row layout of the signature transition mass matrix report: a `bc`
    row with the barcode ions, one `tg` row per target product ion type,
    and one `bg` row per background peptide and background product ion
    type. Each m/z cell stands for the rounded mass-over-charge of one ion
    at one charge state; its numeric value is not modelled. The collections
    the report iterates over are given in their iteration order. */
module MassMatrix {

  datatype ProductIonType = ProductIonType(name: string)

  /** A peptide's product ions, by type (its precursor ion's view). */
  datatype Peptide<Ion> = Peptide(productIons: map<ProductIonType, seq<Ion>>)

  /** The fields of a signature transition that the report reads. */
  datatype SignatureTransition<Ion> = SignatureTransition(
    peptide: Peptide<Ion>,
    backgroundPeptides: seq<Peptide<Ion>>,
    productIons: seq<Ion>,
    backgroundProductIonTypes: seq<ProductIonType>,
    targetProductIonTypes: seq<ProductIonType>,
    productIonChargeStates: seq<int>)

  /** A cell of the report: literal text, or the m/z of an ion at a charge. */
  datatype Cell<Ion> = Text(text: string) | MassOverCharge(ion: Ion, charge: int)

  /** getPrecursorIon().getProductIons(type); a type the peptide has no
      entry for has no ions. */
  function ProductIonsOf<Ion>(p: Peptide<Ion>, t: ProductIonType): seq<Ion> {
    if t in p.productIons then p.productIons[t] else []
  }

  /** One m/z cell per ion of `ion` at each charge state, in charge order. */
  function ChargeCells<Ion>(ion: Ion, charges: seq<int>): (r: seq<Cell<Ion>>)
    ensures |r| == |charges|
    ensures forall j :: 0 <= j < |charges| ==> r[j] == MassOverCharge(ion, charges[j])
  {
    seq(|charges|, j requires 0 <= j < |charges| => MassOverCharge(ion, charges[j]))
  }

  /** The m/z cells of a list of ions: ions in the outer loop, charge
      states in the inner loop. */
  function IonCells<Ion>(ions: seq<Ion>, charges: seq<int>): seq<Cell<Ion>>
  {
    if ions == [] then []
    else IonCells(ions[..|ions| - 1], charges) + ChargeCells(ions[|ions| - 1], charges)
  }

  /** The barcode row. */
  function BarcodeRow<Ion>(st: SignatureTransition<Ion>): seq<Cell<Ion>> {
    [Text("bc"), Text("")] + IonCells(st.productIons, st.productIonChargeStates)
  }

  /** A `tg` or `bg` row: the tag, the type name, the m/z cells of the
      peptide's ions of that type. */
  function TypeRow<Ion>(tag: string, p: Peptide<Ion>, t: ProductIonType, charges: seq<int>): seq<Cell<Ion>> {
    [Text(tag), Text(t.name)] + IonCells(ProductIonsOf(p, t), charges)
  }

  /** The rows of one peptide for each of the given types, in type order. */
  function TypeRows<Ion>(tag: string, p: Peptide<Ion>, types: seq<ProductIonType>, charges: seq<int>): (r: seq<seq<Cell<Ion>>>)
    ensures |r| == |types|
    ensures forall t :: 0 <= t < |types| ==> r[t] == TypeRow(tag, p, types[t], charges)
  {
    seq(|types|, t requires 0 <= t < |types| => TypeRow(tag, p, types[t], charges))
  }

  /** The `bg` rows: for each background peptide in turn, its type rows. */
  function BackgroundRows<Ion>(peptides: seq<Peptide<Ion>>, types: seq<ProductIonType>, charges: seq<int>): seq<seq<Cell<Ion>>>
  {
    if peptides == [] then []
    else BackgroundRows(peptides[..|peptides| - 1], types, charges)
         + TypeRows("bg", peptides[|peptides| - 1], types, charges)
  }

  /** Every row of the report, in the order they are written. */
  function MatrixRows<Ion>(st: SignatureTransition<Ion>): seq<seq<Cell<Ion>>> {
    [BarcodeRow(st)]
    + TypeRows("tg", st.peptide, st.targetProductIonTypes, st.productIonChargeStates)
    + BackgroundRows(st.backgroundPeptides, st.backgroundProductIonTypes, st.productIonChargeStates)
  }

  /** write: the rows handed to the table writer, in order. The transition
      is a value, so the report cannot change it. */
  method Write<Ion>(st: SignatureTransition<Ion>) returns (rows: seq<seq<Cell<Ion>>>)
    ensures rows == MatrixRows(st)
  {
    var charges := st.productIonChargeStates;
    var cells := MassOverChargeCells(st.productIons, charges);
    var barcodeMz := [Text("bc"), Text("")] + cells;
    var targetRows := TypeRowsOf("tg", st.peptide, st.targetProductIonTypes, charges);
    rows := [barcodeMz] + targetRows;
    ghost var head := rows;

    var p := 0;
    while p < |st.backgroundPeptides|
      invariant 0 <= p <= |st.backgroundPeptides|
      invariant rows == head + BackgroundRows(st.backgroundPeptides[..p], st.backgroundProductIonTypes, charges)
    {
      var backgroundRows := TypeRowsOf("bg", st.backgroundPeptides[p], st.backgroundProductIonTypes, charges);
      ghost var done := st.backgroundPeptides[..p + 1];
      assert done[..p] == st.backgroundPeptides[..p] && done[p] == st.backgroundPeptides[p];
      assert BackgroundRows(done, st.backgroundProductIonTypes, charges)
             == BackgroundRows(st.backgroundPeptides[..p], st.backgroundProductIonTypes, charges) + backgroundRows;
      rows := rows + backgroundRows;
      p := p + 1;
    }
    assert st.backgroundPeptides[..p] == st.backgroundPeptides;
  }

  /** The loop over product ion types that writes one `tg` or `bg` row per
      type of one peptide. */
  method TypeRowsOf<Ion>(tag: string, p: Peptide<Ion>, types: seq<ProductIonType>, charges: seq<int>)
    returns (rows: seq<seq<Cell<Ion>>>)
    ensures rows == TypeRows(tag, p, types, charges)
  {
    rows := [];
    var t := 0;
    while t < |types|
      invariant 0 <= t <= |types|
      invariant |rows| == t
      invariant forall u :: 0 <= u < t ==> rows[u] == TypeRow(tag, p, types[u], charges)
    {
      var cells := MassOverChargeCells(ProductIonsOf(p, types[t]), charges);
      rows := rows + [[Text(tag), Text(types[t].name)] + cells];
      t := t + 1;
    }
  }

  /** The nested ion x charge loop that fills the m/z cells of one row. */
  method MassOverChargeCells<Ion>(ions: seq<Ion>, charges: seq<int>) returns (cells: seq<Cell<Ion>>)
    ensures cells == IonCells(ions, charges)
  {
    cells := [];
    var i := 0;
    while i < |ions|
      invariant 0 <= i <= |ions|
      invariant cells == IonCells(ions[..i], charges)
    {
      var j := 0;
      while j < |charges|
        invariant 0 <= j <= |charges|
        invariant cells == IonCells(ions[..i], charges) + ChargeCells(ions[i], charges[..j])
      {
        cells := cells + [MassOverCharge(ions[i], charges[j])];
        j := j + 1;
      }
      assert charges[..j] == charges;
      assert ions[..i + 1][..i] == ions[..i];
      i := i + 1;
    }
    assert ions[..i] == ions;
  }

  /** A row lists one m/z cell per (ion, charge state) pair. */
  lemma {:induction false} IonCellsLength<Ion>(ions: seq<Ion>, charges: seq<int>)
    ensures |IonCells(ions, charges)| == |ions| * |charges|
  {
    if ions != [] {
      var n := |ions|;
      IonCellsLength(ions[..n - 1], charges);
      assert (n - 1) * |charges| + |charges| == n * |charges|;
    }
  }

  /** The cell for ion i at charge j sits at position i * |charges| + j of
      the m/z cells: ions outer, charges inner. */
  lemma {:induction false} IonCellAt<Ion>(ions: seq<Ion>, charges: seq<int>, i: nat, j: nat)
    requires i < |ions| && j < |charges|
    ensures i * |charges| + j < |IonCells(ions, charges)|
    ensures IonCells(ions, charges)[i * |charges| + j] == MassOverCharge(ions[i], charges[j])
  {
    var n := |ions|;
    var front := ions[..n - 1];
    IonCellsLength(front, charges);
    if i < n - 1 {
      IonCellAt(front, charges, i, j);
      assert front[i] == ions[i];
    } else {
      assert i * |charges| + j == |IonCells(front, charges)| + j;
    }
  }

  /** The background block has one row per (peptide, type) pair. */
  lemma {:induction false} BackgroundRowsLength<Ion>(peptides: seq<Peptide<Ion>>, types: seq<ProductIonType>, charges: seq<int>)
    ensures |BackgroundRows(peptides, types, charges)| == |peptides| * |types|
  {
    if peptides != [] {
      var n := |peptides|;
      BackgroundRowsLength(peptides[..n - 1], types, charges);
      assert (n - 1) * |types| + |types| == n * |types|;
    }
  }

  /** The `bg` row of background peptide p and background type t is row
      p * |types| + t of the background block: peptides outer, types
      inner. */
  lemma {:induction false} BackgroundRowAt<Ion>(peptides: seq<Peptide<Ion>>, types: seq<ProductIonType>, charges: seq<int>, p: nat, t: nat)
    requires p < |peptides| && t < |types|
    ensures p * |types| + t < |BackgroundRows(peptides, types, charges)|
    ensures BackgroundRows(peptides, types, charges)[p * |types| + t]
            == [Text("bg"), Text(types[t].name)] + IonCells(ProductIonsOf(peptides[p], types[t]), charges)
  {
    var n := |peptides|;
    var front := peptides[..n - 1];
    BackgroundRowsLength(front, types, charges);
    if p < n - 1 {
      BackgroundRowAt(front, types, charges, p, t);
      assert front[p] == peptides[p];
    } else {
      assert p * |types| + t == |BackgroundRows(front, types, charges)| + t;
    }
  }

  /** The layout of the whole report: 1 + |target types| + |background
      peptides| * |background types| rows; the barcode row first; then the
      `tg` row of each target type, in type order; then the background
      block (laid out by BackgroundRowAt). */
  lemma MatrixLayout<Ion>(st: SignatureTransition<Ion>)
    ensures var rows := MatrixRows(st);
            var tt, bt := st.targetProductIonTypes, st.backgroundProductIonTypes;
            && |rows| == 1 + |tt| + |st.backgroundPeptides| * |bt|
            && rows[0] == [Text("bc"), Text("")] + IonCells(st.productIons, st.productIonChargeStates)
            && (forall t :: 0 <= t < |tt| ==>
                  rows[1 + t] == [Text("tg"), Text(tt[t].name)] + IonCells(ProductIonsOf(st.peptide, tt[t]), st.productIonChargeStates))
            && rows[1 + |tt|..] == BackgroundRows(st.backgroundPeptides, bt, st.productIonChargeStates)
  {
    BackgroundRowsLength(st.backgroundPeptides, st.backgroundProductIonTypes, st.productIonChargeStates);
  }

  /** Every row has two leading cells and one m/z cell per (ion, charge
      state) pair of the ions it lists. */
  lemma RowLength<Ion>(tag: string, p: Peptide<Ion>, t: ProductIonType, charges: seq<int>)
    ensures |TypeRow(tag, p, t, charges)| == 2 + |ProductIonsOf(p, t)| * |charges|
  {
    IonCellsLength(ProductIonsOf(p, t), charges);
  }
}
