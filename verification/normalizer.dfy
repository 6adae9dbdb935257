/** The cleaning steps that turn the parsed employee table into documents:
    missing-value fills, character stripping, numeric coercion, column
    exclusion and the row-to-document conversion. */
module Normalizer {
  import opened Results
  import opened Records
  import Text
  import Numeric

  /** A present cell is kept; a missing one becomes `v`. */
  function FillCell(c: Cell, v: Cell): Cell {
    if c.Missing? then v else c
  }

  /** A column-wide cell transformation used by the cleaning steps. */
  datatype CellOp = Fill(v: Cell) | Strip(drop: set<char>) | Coerce

  /** The effect of `op` on one cell. */
  function Apply(op: CellOp, c: Cell): Cell {
    match op
    case Fill(v) => FillCell(c, v)
    case Strip(drop) => StripCell(c, drop)
    case Coerce => CoerceOrZero(c)
  }

  /** `op` applied to the row's `col` cell, when the row has one. */
  function UpdateCell(row: Row, col: string, op: CellOp): (r: Row)
    ensures r.Keys == row.Keys
    ensures forall k :: k in row ==> r[k] == if k == col then Apply(op, row[k]) else row[k]
  {
    if col in row then row[col := Apply(op, row[col])] else row
  }

  /** `op` applied to every cell of column `col`. */
  function MapColumn(t: Table, col: string, op: CellOp): (r: Table)
    ensures r.columns == t.columns && |r.rows| == |t.rows|
    ensures forall i :: 0 <= i < |t.rows| ==> r.rows[i] == UpdateCell(t.rows[i], col, op)
  {
    Table(t.columns, seq(|t.rows|, i requires 0 <= i < |t.rows| => UpdateCell(t.rows[i], col, op)))
  }

  /** Column-wide fill: every missing cell of `col` becomes `v`; present
      cells and the other columns are left alone. */
  function FillMissing(t: Table, col: string, v: Cell): (r: Table)
    ensures r.columns == t.columns && |r.rows| == |t.rows|
    ensures forall i :: 0 <= i < |t.rows| ==> r.rows[i].Keys == t.rows[i].Keys
    ensures forall i :: 0 <= i < |t.rows| && col in t.rows[i] && t.rows[i][col].Missing? ==>
      r.rows[i][col] == v
    ensures forall i, k :: 0 <= i < |t.rows| && k in t.rows[i] && !t.rows[i][k].Missing? ==>
      r.rows[i][k] == t.rows[i][k]
    ensures forall i, k :: 0 <= i < |t.rows| && k in t.rows[i] && k != col ==>
      r.rows[i][k] == t.rows[i][k]
  {
    MapColumn(t, col, Fill(v))
  }

  /** Fill of several columns with one value, as a dictionary fill does;
      names that are not columns are ignored. */
  function FillEach(t: Table, cols: seq<string>, v: Cell): (r: Table)
    ensures r.columns == t.columns && |r.rows| == |t.rows|
    ensures forall i :: 0 <= i < |t.rows| ==> r.rows[i].Keys == t.rows[i].Keys
    ensures forall i, k :: 0 <= i < |t.rows| && k in t.rows[i] ==>
      r.rows[i][k] == if k in cols then FillCell(t.rows[i][k], v) else t.rows[i][k]
    decreases |cols|
  {
    if |cols| == 0 then t
    else
      var once := FillMissing(t, cols[0], v);
      var r := FillEach(once, cols[1..], v);
      assert forall i, k :: 0 <= i < |t.rows| && k in t.rows[i] ==>
        r.rows[i][k] == if k in cols then FillCell(t.rows[i][k], v) else t.rows[i][k]
      by {
        forall i, k | 0 <= i < |t.rows| && k in t.rows[i]
          ensures r.rows[i][k] == if k in cols then FillCell(t.rows[i][k], v) else t.rows[i][k]
        {
          assert k in cols <==> k == cols[0] || k in cols[1..];
          var c := t.rows[i][k];
          assert k in once.rows[i];
          assert once.rows[i][k] == if k == cols[0] then FillCell(c, v) else c;
          assert r.rows[i][k] == if k in cols[1..] then FillCell(once.rows[i][k], v) else once.rows[i][k];
        }
      }
      r
  }

  /** A text cell without the characters in `drop`; numbers and missing
      cells are not text and pass through. */
  function StripCell(c: Cell, drop: set<char>): (r: Cell)
    ensures c.Str? <==> r.Str?
    ensures r.Str? ==> forall i :: 0 <= i < |r.s| ==> r.s[i] !in drop
    ensures c.Str? ==> r == Str(Text.StripChars(c.s, drop))
    ensures !c.Str? ==> r == c
  {
    match c
    case Str(s) => Str(Text.StripChars(s, drop))
    case _ => c
  }

  /** Column-wide removal of the characters in `drop` from text cells. */
  function StripColumn(t: Table, col: string, drop: set<char>): (r: Table)
    ensures r.columns == t.columns && |r.rows| == |t.rows|
    ensures forall i :: 0 <= i < |t.rows| ==> r.rows[i].Keys == t.rows[i].Keys
    ensures forall i :: 0 <= i < |t.rows| && col in t.rows[i] && r.rows[i][col].Str? ==>
      forall j :: 0 <= j < |r.rows[i][col].s| ==> r.rows[i][col].s[j] !in drop
    ensures forall i :: 0 <= i < |t.rows| && col in t.rows[i] && t.rows[i][col].Str? ==>
      r.rows[i][col] == Str(Text.StripChars(t.rows[i][col].s, drop))
    ensures forall i, k :: 0 <= i < |t.rows| && k in t.rows[i] && (k != col || !t.rows[i][k].Str?) ==>
      r.rows[i][k] == t.rows[i][k]
  {
    MapColumn(t, col, Strip(drop))
  }

  /** The salary cleanup: the `$` pattern is replaced first, then `,`. */
  function StripSalary(t: Table): (r: Table)
    ensures r.columns == t.columns && |r.rows| == |t.rows|
    ensures forall i :: 0 <= i < |t.rows| ==> r.rows[i].Keys == t.rows[i].Keys
    ensures forall i :: 0 <= i < |t.rows| && ANNUAL_SALARY in t.rows[i] && t.rows[i][ANNUAL_SALARY].Str? ==>
      r.rows[i][ANNUAL_SALARY] == Str(Text.StripChars(t.rows[i][ANNUAL_SALARY].s, {'$', ','}))
    ensures forall i, k :: 0 <= i < |t.rows| && k in t.rows[i] && (k != ANNUAL_SALARY || !t.rows[i][k].Str?) ==>
      r.rows[i][k] == t.rows[i][k]
  {
    var dollars := StripColumn(t, ANNUAL_SALARY, {'$'});
    var r := StripColumn(dollars, ANNUAL_SALARY, {','});
    assert forall i :: 0 <= i < |t.rows| && ANNUAL_SALARY in t.rows[i] && t.rows[i][ANNUAL_SALARY].Str? ==>
      r.rows[i][ANNUAL_SALARY] == Str(Text.StripChars(t.rows[i][ANNUAL_SALARY].s, {'$', ','}))
    by {
      forall i | 0 <= i < |t.rows| && ANNUAL_SALARY in t.rows[i] && t.rows[i][ANNUAL_SALARY].Str?
        ensures r.rows[i][ANNUAL_SALARY] == Str(Text.StripChars(t.rows[i][ANNUAL_SALARY].s, {'$', ','}))
      {
        var text := t.rows[i][ANNUAL_SALARY].s;
        assert dollars.rows[i][ANNUAL_SALARY] == Str(Text.StripChars(text, {'$'}));
        Text.StripSequential(text, {'$'}, {','});
        assert {'$'} + {','} == {'$', ','};
      }
    }
    r
  }

  /** The bonus cleanup: the `%` pattern is removed. */
  function StripBonus(t: Table): (r: Table)
    ensures r.columns == t.columns && |r.rows| == |t.rows|
    ensures forall i :: 0 <= i < |t.rows| ==> r.rows[i].Keys == t.rows[i].Keys
    ensures forall i :: 0 <= i < |t.rows| && BONUS in t.rows[i] && t.rows[i][BONUS].Str? ==>
      r.rows[i][BONUS] == Str(Text.StripChars(t.rows[i][BONUS].s, {'%'}))
    ensures forall i, k :: 0 <= i < |t.rows| && k in t.rows[i] && (k != BONUS || !t.rows[i][k].Str?) ==>
      r.rows[i][k] == t.rows[i][k]
  {
    StripColumn(t, BONUS, {'%'})
  }

  /** Coercion with failures turned into zero: a number stays, a numeral
      becomes its value, and missing or unparseable cells become 0. */
  function CoerceOrZero(c: Cell): (r: Cell)
    ensures r.Num?
    ensures c.Num? ==> r == c
    ensures c.Missing? ==> r == Num(0.0)
    ensures c.Str? && Numeric.ParseDecimal(c.s).Some? ==> r == Num(Numeric.ParseDecimal(c.s).value)
    ensures c.Str? && Numeric.ParseDecimal(c.s).None? ==> r == Num(0.0)
  {
    match c
    case Missing => Num(0.0)
    case Num(_) => c
    case Str(s) => Num(Numeric.ParseDecimal(s).GetOr(0.0))
  }

  /** Column-wide coercion: afterwards every cell of `col` is a number. */
  function CoerceColumn(t: Table, col: string): (r: Table)
    ensures r.columns == t.columns && |r.rows| == |t.rows|
    ensures forall i :: 0 <= i < |t.rows| ==> r.rows[i].Keys == t.rows[i].Keys
    ensures forall i :: 0 <= i < |t.rows| && col in t.rows[i] ==> r.rows[i][col].Num?
    ensures forall i :: 0 <= i < |t.rows| && col in t.rows[i] ==>
      r.rows[i][col] == CoerceOrZero(t.rows[i][col])
    ensures forall i, k :: 0 <= i < |t.rows| && k in t.rows[i] && k != col ==>
      r.rows[i][k] == t.rows[i][k]
  {
    MapColumn(t, col, Coerce)
  }

  /** The column list without `col`, other names in their order. */
  function Without(cols: seq<string>, col: string): (r: seq<string>)
    ensures forall c :: c in r <==> c in cols && c != col
    ensures Distinct(cols) ==> Distinct(r)
    decreases |cols|
  {
    if |cols| == 0 then []
    else if cols[0] == col then Without(cols[1..], col)
    else
      var rest := Without(cols[1..], col);
      assert Distinct(cols) ==> cols[0] !in cols[1..];
      [cols[0]] + rest
  }

  /** Drops column `col` when the table has it; otherwise the table is
      returned as it is. */
  function DropColumn(t: Table, col: string): (r: Table)
    ensures col !in t.columns ==> r == t
    ensures col !in r.columns
    ensures forall c :: c in r.columns <==> c in t.columns && c != col
    ensures |r.rows| == |t.rows|
    ensures col in t.columns ==> forall i :: 0 <= i < |t.rows| ==>
      r.rows[i].Keys == t.rows[i].Keys - {col}
    ensures forall i, k :: 0 <= i < |t.rows| && k in r.rows[i] ==>
      k in t.rows[i] && r.rows[i][k] == t.rows[i][k]
    ensures WellFormed(t) ==> WellFormed(r)
  {
    if col in t.columns then
      Table(Without(t.columns, col),
            seq(|t.rows|, i requires 0 <= i < |t.rows| => t.rows[i] - {col}))
    else t
  }

  /** The column-wide steps, in source order. Looking up `Age`, `Annual
      Salary` or `Bonus %` raises a KeyError when the column is absent. */
  function Normalize(t: Table, exclude: string): (r: Result<Table, Error>)
    ensures r.Failure? <==> AGE !in t.columns || ANNUAL_SALARY !in t.columns || BONUS !in t.columns
    ensures r.Failure? ==> r.error == KeyError(
      if AGE !in t.columns then AGE
      else if ANNUAL_SALARY !in t.columns then ANNUAL_SALARY
      else BONUS)
    ensures r.Success? ==> |r.value.rows| == |t.rows| && exclude !in r.value.columns
    ensures r.Success? ==> forall c :: c in r.value.columns <==> c in t.columns && c != exclude
    ensures r.Success? && WellFormed(t) ==> WellFormed(r.value)
  {
    if AGE !in t.columns then Failure(KeyError(AGE))
    else if ANNUAL_SALARY !in t.columns then Failure(KeyError(ANNUAL_SALARY))
    else if BONUS !in t.columns then Failure(KeyError(BONUS))
    else
      Success(DropColumn(Cleaned(t), exclude))
  }

  /** Reference meaning of one cleaned cell, by column: what the column-wide
      steps together do to a cell of column `k`. */
  function CleanedCell(k: string, c: Cell): Cell {
    if k == ANNUAL_SALARY then CoerceOrZero(StripCell(c, {'$', ','}))
    else if k == BONUS then CoerceOrZero(StripCell(c, {'%'}))
    else if k == AGE then FillCell(c, Num(0.0))
    else if k in FILL_COLUMNS then FillCell(c, UNKNOWN)
    else c
  }

  /** One row as a document: every key kept, every missing value replaced
      by the "Unknown" sentinel, every present value unchanged. */
  function RowToDoc(row: Row): (doc: Row)
    ensures doc.Keys == row.Keys
    ensures NoMissing(doc)
    ensures forall k :: k in row && !row[k].Missing? ==> doc[k] == row[k]
    ensures forall k :: k in row && row[k].Missing? ==> doc[k] == UNKNOWN
  {
    map k | k in row :: FillCell(row[k], UNKNOWN)
  }

  /** The document's identifier, read from its `Employee_ID` field. */
  function DocId(doc: Row): (r: Result<Cell, Error>)
    ensures r.Success? <==> EMPLOYEE_ID in doc
    ensures r.Success? ==> r.value == doc[EMPLOYEE_ID]
    ensures r.Failure? ==> r.error == KeyError(EMPLOYEE_ID)
  {
    if EMPLOYEE_ID in doc then Success(doc[EMPLOYEE_ID]) else Failure(KeyError(EMPLOYEE_ID))
  }

  /** In one row, two strips of a column are one strip of both sets. */
  lemma StripTwiceRow(row: Row, col: string, a: set<char>, b: set<char>)
    ensures UpdateCell(UpdateCell(row, col, Strip(a)), col, Strip(b)) == UpdateCell(row, col, Strip(a + b))
  {
    if col in row && row[col].Str? {
      Text.StripSequential(row[col].s, a, b);
    }
  }

  /** Replacing the `$` pattern and then the `,` pattern is one removal of
      both characters. */
  lemma SalaryStripIsOnePass(t: Table)
    ensures StripSalary(t) == StripColumn(t, ANNUAL_SALARY, {'$', ','})
  {
    var first := MapColumn(t, ANNUAL_SALARY, Strip({'$'}));
    var two := MapColumn(first, ANNUAL_SALARY, Strip({','}));
    var one := MapColumn(t, ANNUAL_SALARY, Strip({'$', ','}));
    forall i | 0 <= i < |t.rows|
      ensures two.rows[i] == one.rows[i]
    {
      StripTwiceRow(t.rows[i], ANNUAL_SALARY, {'$'}, {','});
      assert {'$'} + {','} == {'$', ','};
    }
    assert two.rows == one.rows;
  }

  /** The column-wide steps before the exclusion, as Normalize runs them. */
  function Cleaned(t: Table): (r: Table)
    ensures r.columns == t.columns && |r.rows| == |t.rows|
    ensures forall i :: 0 <= i < |t.rows| ==> r.rows[i].Keys == t.rows[i].Keys
  {
    var filled := FillEach(t, FILL_COLUMNS, UNKNOWN);
    var aged := FillMissing(filled, AGE, Num(0.0));
    var stripped := StripBonus(StripSalary(aged));
    CoerceColumn(CoerceColumn(stripped, ANNUAL_SALARY), BONUS)
  }

  /** One cell traced through the column-wide steps. */
  lemma CleanedCellTrace(t: Table, i: nat, k: string)
    requires i < |t.rows| && k in t.rows[i]
    ensures Cleaned(t).rows[i][k] == CleanedCell(k, t.rows[i][k])
  {
    var c := t.rows[i][k];
    var filled := FillEach(t, FILL_COLUMNS, UNKNOWN);
    var aged := FillMissing(filled, AGE, Num(0.0));
    var salary := StripSalary(aged);
    var stripped := StripBonus(salary);
    var coerced1 := CoerceColumn(stripped, ANNUAL_SALARY);
    SalaryStripIsOnePass(aged);
    assert filled.rows[i][k] == if k in FILL_COLUMNS then FillCell(c, UNKNOWN) else c;
    assert aged.rows[i][k] == if k == AGE then FillCell(c, Num(0.0)) else filled.rows[i][k];
    assert salary.rows[i][k] == if k == ANNUAL_SALARY then StripCell(c, {'$', ','}) else aged.rows[i][k];
    assert stripped.rows[i][k] == if k == BONUS then StripCell(c, {'%'}) else salary.rows[i][k];
    assert coerced1.rows[i][k] == if k == ANNUAL_SALARY then CoerceOrZero(stripped.rows[i][k])
      else stripped.rows[i][k];
  }

  /** Every cell that survives normalisation is the reference cleaning of
      the raw cell of the same row and column, and the rows keep all their
      keys except the dropped column. */
  lemma NormalizeCells(t: Table, exclude: string)
    requires Normalize(t, exclude).Success?
    ensures forall i :: 0 <= i < |t.rows| ==>
      Normalize(t, exclude).value.rows[i].Keys
        == t.rows[i].Keys - (if exclude in t.columns then {exclude} else {})
    ensures forall i, k :: 0 <= i < |t.rows| && k in Normalize(t, exclude).value.rows[i] ==>
      k in t.rows[i] && Normalize(t, exclude).value.rows[i][k] == CleanedCell(k, t.rows[i][k])
  {
    var cleaned := Cleaned(t);
    var n := DropColumn(cleaned, exclude);
    assert Normalize(t, exclude) == Success(n);
    forall i, k | 0 <= i < |t.rows| && k in n.rows[i]
      ensures k in t.rows[i] && n.rows[i][k] == CleanedCell(k, t.rows[i][k])
    {
      CleanedCellTrace(t, i, k);
    }
  }

  /** The sentinel a document ends up with for one cleaned cell of column
      `k`: the numeric columns always hold numbers, a missing age holds 0,
      any other missing cell holds "Unknown", and present cells outside the
      numeric columns are unchanged. */
  lemma CleanedCellFacts(k: string, c: Cell)
    ensures var d := FillCell(CleanedCell(k, c), UNKNOWN);
      && !d.Missing?
      && (k == ANNUAL_SALARY || k == BONUS ==> d.Num?)
      && (k == AGE && c.Missing? ==> d == Num(0.0))
      && (k != AGE && k != ANNUAL_SALARY && k != BONUS && c.Missing? ==> d == UNKNOWN)
      && (k != ANNUAL_SALARY && k != BONUS && !c.Missing? ==> d == c)
  {
    assert AGE != ANNUAL_SALARY && AGE != BONUS;
  }

  /** What an emitted document holds, column by column: the salary and bonus
      are numbers, missing configured cells hold their defaults, any other
      missing cell holds "Unknown", present cells outside the two numeric
      columns are unchanged, and the excluded column is gone. */
  lemma DocumentContents(t: Table, exclude: string, i: nat)
    requires Normalize(t, exclude).Success? && i < |t.rows|
    ensures var doc := RowToDoc(Normalize(t, exclude).value.rows[i]);
      && NoMissing(doc)
      && (forall k :: k in doc ==> k in t.rows[i] && doc[k] == FillCell(CleanedCell(k, t.rows[i][k]), UNKNOWN))
      && (ANNUAL_SALARY in doc ==> doc[ANNUAL_SALARY].Num?)
      && (BONUS in doc ==> doc[BONUS].Num?)
      && (AGE in doc && t.rows[i][AGE].Missing? ==> doc[AGE] == Num(0.0))
      && (forall k :: k in doc && k != AGE && k != ANNUAL_SALARY && k != BONUS && t.rows[i][k].Missing? ==>
            doc[k] == UNKNOWN)
      && (forall k :: k in doc && k != ANNUAL_SALARY && k != BONUS && !t.rows[i][k].Missing? ==>
            doc[k] == t.rows[i][k])
      && (forall k :: k in t.rows[i] && k != exclude ==> k in doc)
      && (WellFormed(t) ==> exclude !in doc)
  {
    NormalizeCells(t, exclude);
    var n := Normalize(t, exclude).value;
    var doc := RowToDoc(n.rows[i]);
    forall k | k in doc
      ensures k in t.rows[i] && doc[k] == FillCell(CleanedCell(k, t.rows[i][k]), UNKNOWN)
    {
      assert n.rows[i][k] == CleanedCell(k, t.rows[i][k]);
    }
    forall k | k in doc {
      CleanedCellFacts(k, t.rows[i][k]);
    }
    if WellFormed(t) && exclude !in t.columns {
      assert exclude !in t.rows[i].Keys;
    }
  }
}
