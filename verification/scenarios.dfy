/** Worked values of the cleaning rules and of the whole ingestion. */
module Scenarios {
  import opened Results
  import opened Records
  import opened Normalizer
  import Text
  import Numeric
  import Indexer

  lemma SalaryPrefixStripped()
    ensures Text.StripChars("$1,", {'$', ','}) == "1"
  {
    assert "$1,"[1..] == "1,";
    assert "1,"[1..] == ",";
    assert ","[1..] == "";
  }

  lemma SalarySuffixKept()
    ensures Text.StripChars("234.50", {'$', ','}) == "234.50"
  {
    Text.StripNoop("234.50", {'$', ','});
  }

  lemma SalaryTextSplit()
    ensures "$1,234.50" == "$1," + "234.50"
  {
    var text := "$1,234.50";
    assert text[..3] == "$1," && text[3..] == "234.50";
    assert text == text[..3] + text[3..];
  }

  lemma SalaryTextStripped()
    ensures Text.StripChars("$1,234.50", {'$', ','}) == "1234.50"
  {
    SalaryTextSplit();
    Text.StripAppend("$1,", "234.50", {'$', ','});
    SalarySuffixKept();
    SalaryPrefixStripped();
  }

  lemma SalaryDigits()
    ensures Numeric.AllDigits("1234") && Numeric.DigitsValue("1234") == 1234
    ensures Numeric.AllDigits("50") && Numeric.DigitsValue("50") == 50
  {
    assert "1234"[..3] == "123" && "123"[..2] == "12" && "12"[..1] == "1" && "1"[..0] == "";
    assert "50"[..1] == "5" && "5"[..0] == "";
  }

  lemma SalaryNumeralJoin()
    ensures "1234" + "." + "50" == "1234.50"
  {
  }

  lemma SalaryPositional()
    ensures Numeric.AllDigits("1234") && Numeric.AllDigits("50")
    ensures Numeric.Positional("1234", "50") == 1234.5
  {
    SalaryDigits();
    assert Numeric.Pow10(2) == 100;
  }

  lemma SalaryTextParsed()
    ensures Numeric.ParseDecimal("1234.50") == Some(1234.5)
  {
    SalaryNumeralJoin();
    SalaryPositional();
    Numeric.ParsePointed("1234", "50");
  }

  /** "$1,234.50" in the salary column is cleaned to the number 1234.50. */
  lemma SalaryExample()
    ensures CleanedCell(ANNUAL_SALARY, Str("$1,234.50")) == Num(1234.5)
  {
    SalaryTextStripped();
    SalaryTextParsed();
  }

  lemma BonusTextStripped()
    ensures Text.StripChars("12.5%", {'%'}) == "12.5"
  {
    assert "12.5%" == "12.5" + "%";
    Text.StripAppend("12.5", "%", {'%'});
    Text.StripNoop("12.5", {'%'});
    assert Text.StripChars("%", {'%'}) == "";
  }

  lemma BonusTextParsed()
    ensures Numeric.ParseDecimal("12.5") == Some(12.5)
  {
    assert "12" + "." + "5" == "12.5";
    assert "12"[..1] == "1" && "1"[..0] == "" && "5"[..0] == "";
    Numeric.ParsePointed("12", "5");
  }

  /** "12.5%" in the bonus column is cleaned to the number 12.5. */
  lemma BonusExample()
    ensures CleanedCell(BONUS, Str("12.5%")) == Num(12.5)
  {
    BonusTextStripped();
    BonusTextParsed();
  }

  /** An empty, missing or symbol-only salary is cleaned to 0 rather than
      an error. */
  lemma EmptySalaryExample()
    ensures CleanedCell(ANNUAL_SALARY, Str("")) == Num(0.0)
    ensures CleanedCell(ANNUAL_SALARY, Missing) == Num(0.0)
    ensures CleanedCell(ANNUAL_SALARY, Str("$")) == Num(0.0)
  {
    assert Text.StripChars("$", {'$', ','}) == "";
  }

  /** A minus inside the digits makes the text unparsable. */
  lemma InnerMinusUnparsed()
    ensures Numeric.ParseDecimal("1-2") == None
  {
    Numeric.ParseDecimalIff("1-2");
    assert "1-2"[1] == '-';
  }

  /** A second point makes the text unparsable. */
  lemma TwoPointsUnparsed()
    ensures Numeric.ParseDecimal("1.2.3") == None
  {
    Numeric.ParseDecimalIff("1.2.3");
    assert "1.2.3"[1] == '.' && "1.2.3"[3] == '.';
  }

  /** Only one sign is read. */
  lemma TwoSignsUnparsed()
    ensures Numeric.ParseDecimal("+-1") == None
  {
    Numeric.ParseDecimalIff("+-1");
    assert "+-1"[1..][0] == '-';
  }

  /** A sign or a point alone holds no digit and is unparsable. */
  lemma NoDigitUnparsed()
    ensures Numeric.ParseDecimal("-") == None
    ensures Numeric.ParseDecimal(".") == None
  {
    Numeric.ParseDecimalIff("-");
    assert "-"[1..] == "";
    Numeric.ParseDecimalIff(".");
  }

  /** Text made only of numeral characters but not shaped as a numeral
      is cleaned to 0 in the bonus column. */
  lemma MalformedBonusExample()
    ensures CleanedCell(BONUS, Str("1-2")) == Num(0.0)
  {
    Text.StripNoop("1-2", {'%'});
    InnerMinusUnparsed();
  }

  lemma RoundSalaryPrefixStripped()
    ensures Text.StripChars("$50,", {'$', ','}) == "50"
  {
    assert "$50,"[1..] == "50,";
    assert "50,"[1..] == "0,";
    assert "0,"[1..] == ",";
    assert ","[1..] == "";
  }

  lemma RoundSalaryStripped()
    ensures Text.StripChars("$50,000", {'$', ','}) == "50000"
  {
    var drop := {'$', ','};
    assert "$50,000" == "$50," + "000";
    Text.StripAppend("$50,", "000", drop);
    Text.StripNoop("000", drop);
    RoundSalaryPrefixStripped();
  }

  lemma RoundSalaryDigits()
    ensures Numeric.AllDigits("50000") && Numeric.DigitsValue("50000") == 50000
  {
    assert "5"[..0] == "";
    assert Numeric.DigitsValue("5") == 5;
    assert "50"[..1] == "5";
    assert Numeric.DigitsValue("50") == 50;
    assert "500"[..2] == "50";
    assert Numeric.DigitsValue("500") == 500;
    assert "5000"[..3] == "500";
    assert Numeric.DigitsValue("5000") == 5000;
    assert "50000"[..4] == "5000";
  }

  lemma RoundSalaryParsed()
    ensures Numeric.ParseDecimal("50000") == Some(50000.0)
  {
    RoundSalaryDigits();
    Numeric.ParseWhole("50000");
  }

  /** "$50,000" in the salary column is cleaned to the number 50000. */
  lemma RoundSalaryExample()
    ensures CleanedCell(ANNUAL_SALARY, Str("$50,000")) == Num(50000.0)
  {
    RoundSalaryStripped();
    RoundSalaryParsed();
  }

  const DEPARTMENT: string := "Department"
  const GENDER: string := "Gender"

  /** The column names involved have pairwise different lengths. */
  lemma ColumnNameLengths()
    ensures |EMPLOYEE_ID| == 11 && |DEPARTMENT| == 10 && |GENDER| == 6
    ensures |AGE| == 3 && |ANNUAL_SALARY| == 13 && |BONUS| == 7
  {}

  /** A three-row employee table in which the first row has no gender and
      the second a salary of "$50,000", ingested while excluding
      "Department": three documents are submitted, in row order, under the
      rows' identifiers, none has a "Department" key, the first has gender
      "Unknown" and the second has salary 50000. */
  lemma ThreeRowIngest(t: Table)
    requires WellFormed(t) && |t.rows| == 3
    requires forall c :: c in [EMPLOYEE_ID, DEPARTMENT, GENDER, AGE, ANNUAL_SALARY, BONUS] ==> c in t.columns
    requires forall j :: 0 <= j < 3 ==> t.rows[j][EMPLOYEE_ID].Str?
    requires t.rows[0][GENDER] == Missing
    requires t.rows[1][ANNUAL_SALARY] == Str("$50,000")
    ensures var r := Indexer.IndexData("employees", t, DEPARTMENT);
      && r.failure.None?
      && |r.sent| == 3
      && (forall j :: 0 <= j < 3 ==> r.sent[j].id == t.rows[j][EMPLOYEE_ID])
      && (forall j :: 0 <= j < 3 ==> DEPARTMENT !in r.sent[j].body)
      && GENDER in r.sent[0].body && r.sent[0].body[GENDER] == UNKNOWN
      && ANNUAL_SALARY in r.sent[1].body && r.sent[1].body[ANNUAL_SALARY] == Num(50000.0)
  {
    ColumnNameLengths();
    assert EMPLOYEE_ID in t.columns && DEPARTMENT in t.columns && GENDER in t.columns;
    assert AGE in t.columns && ANNUAL_SALARY in t.columns && BONUS in t.columns;
    Indexer.IndexDataOutcome("employees", t, DEPARTMENT);
    var n := Normalize(t, DEPARTMENT).value;
    var r := Indexer.IndexData("employees", t, DEPARTMENT);
    assert r == Indexer.IngestRows("employees", n.rows);
    DocumentContents(t, DEPARTMENT, 0);
    DocumentContents(t, DEPARTMENT, 1);
    assert GENDER in t.rows[0] && ANNUAL_SALARY in t.rows[1];
    assert r.sent[1].body[ANNUAL_SALARY] == FillCell(CleanedCell(ANNUAL_SALARY, Str("$50,000")), UNKNOWN);
    RoundSalaryExample();
  }
}
