/** `preprocess_data`: normalises the raw `default` column to the integers
    0 and 1 and derives the `default_label` column from it. */
module Cleaning {
  import opened Base
  import opened Loans

  /** The integer conversion of the mapped column raises; the model records
      the first row whose value did not map. */
  datatype CleanError = UnmappedDefault(row: nat)

  // ---------------------------------------------------------------------
  // Step 1: `astype(str)`

  function DigitChar(d: nat): (c: char)
    requires d < 10
    ensures '0' <= c <= '9'
  {
    (48 + d) as char
  }

  /** Decimal digits of `n`, most significant first. */
  function Digits(n: nat): (s: string)
    ensures |s| >= 1 && '0' <= s[0] <= '9'
    ensures |s| == 1 <==> n < 10
    decreases n
  {
    if n < 10 then [DigitChar(n)] else Digits(n / 10) + [DigitChar(n % 10)]
  }

  /** `str` of an integer: a minus sign for negatives, then the digits. */
  function IntText(i: int): (s: string)
    ensures |s| >= 1
    ensures s[0] == '-' <==> i < 0
  {
    if i < 0 then "-" + Digits(-i) else Digits(i)
  }

  /** One cell of `df['default'].astype(str)`; a missing value prints as "nan". */
  function AsText(v: Value): Value {
    match v
    case Int(i) => Text(IntText(i))
    case Text(_) => v
    case NaN => Text("nan")
  }

  // ---------------------------------------------------------------------
  // Step 2: `map(mapeo_valores)`

  /** The lookup table `mapeo_valores`, keyed by spelling. */
  const Spellings: map<string, int> := map["0" := 0, "1" := 1, "'0'" := 0, ":0" := 0]

  /** One cell of `Series.map(Spellings)`: a key outside the table (and any
      cell that is not a string) becomes missing. */
  function MapSpelling(v: Value): (m: Value)
    ensures !m.Text?
  {
    if v.Text? && v.s in Spellings then Int(Spellings[v.s]) else NaN
  }

  // ---------------------------------------------------------------------
  // Step 3: `astype(int)`, step 4: the label column

  /** The first row the integer conversion cannot convert. */
  function FirstUncastable(rows: seq<Loan>): (r: Option<nat>)
    ensures r.Some? ==> r.value < |rows| && !rows[r.value].default.Int?
    ensures r.Some? ==> forall j :: 0 <= j < r.value ==> rows[j].default.Int?
    ensures r.None? <==> forall j :: 0 <= j < |rows| ==> rows[j].default.Int?
    decreases |rows|
  {
    if rows == [] then None
    else if !rows[0].default.Int? then Some(0)
    else match FirstUncastable(rows[1..])
      case None => None
      case Some(k) => Some(k + 1)
  }

  /** One cell of `map({0: 'Aprobado', 1: 'No Aprobado'})`. */
  function LabelOf(v: Value): Option<string> {
    if v == Int(0) then Some(ApprovedLabel)
    else if v == Int(1) then Some(NotApprovedLabel)
    else None
  }

  /** The whole-column assignments of `preprocess_data`, one row at a time. */
  function TextStage(rows: seq<Loan>): seq<Loan> {
    seq(|rows|, i requires 0 <= i < |rows| => rows[i].(default := AsText(rows[i].default)))
  }

  function MappedStage(rows: seq<Loan>): seq<Loan> {
    seq(|rows|, i requires 0 <= i < |rows| => rows[i].(default := MapSpelling(rows[i].default)))
  }

  function LabelStage(rows: seq<Loan>): seq<Loan> {
    seq(|rows|, i requires 0 <= i < |rows| => rows[i].(defaultLabel := LabelOf(rows[i].default)))
  }

  // ---------------------------------------------------------------------
  // The independent statement of what cleaning accepts

  /** The spellings cleaning accepts, each with the code it stands for. */
  function Decode(v: Value): Option<int> {
    match v
    case Int(i) => if i == 0 || i == 1 then Some(i) else None
    case Text(s) =>
      if s == "0" || s == "'0'" || s == ":0" then Some(0)
      else if s == "1" then Some(1)
      else None
    case NaN => None
  }

  /** The row cleaning makes of an accepted row: the code, its label, and every
      other column as it was. */
  function CleanRow(r: Loan, code: int): Loan {
    r.(default := Int(code),
       defaultLabel := Some(if code == 0 then ApprovedLabel else NotApprovedLabel))
  }

  /** The printed form of an integer is in the table exactly for 0 and 1. */
  lemma {:induction false} IntSpelling(i: int)
    ensures IntText(i) in Spellings <==> i == 0 || i == 1
    ensures i == 0 || i == 1 ==> Spellings[IntText(i)] == i
  {
    var s := IntText(i);
    if i < 0 {
      assert s[0] == '-';
    } else if i < 10 {
      assert s == [DigitChar(i)];
    } else {
      assert |s| >= 2 && '0' <= s[0] <= '9';
      assert s != "'0'" by { assert "'0'"[0] == '\''; }
      assert s != ":0" by { assert ":0"[0] == ':'; }
    }
  }

  /** `astype(str)` followed by the table lookup is `Decode`. */
  lemma {:induction false} NormaliseIsDecode(v: Value)
    ensures MapSpelling(AsText(v)) == (match Decode(v) case Some(c) => Int(c) case None => NaN)
  {
    match v
    case Int(i) => IntSpelling(i);
    case Text(s) =>
    case NaN => assert "nan" !in Spellings;
  }

  lemma NormaliseAllAreDecode()
    ensures forall v :: MapSpelling(AsText(v)) == (match Decode(v) case Some(c) => Int(c) case None => NaN)
  {
    forall v ensures MapSpelling(AsText(v)) == (match Decode(v) case Some(c) => Int(c) case None => NaN) {
      NormaliseIsDecode(v);
    }
  }

  // ---------------------------------------------------------------------
  // preprocess_data

  /** The table `preprocess_data` produces, or the error it raises. */
  function Clean(rows: seq<Loan>): (r: Result<seq<Loan>, CleanError>)
    ensures r.Success? <==> forall i :: 0 <= i < |rows| ==> Decode(rows[i].default).Some?
    ensures r.Failure? ==>
      && r.error.row < |rows|
      && Decode(rows[r.error.row].default).None?
      && forall j :: 0 <= j < r.error.row ==> Decode(rows[j].default).Some?
    ensures r.Success? ==>
      && |r.value| == |rows|
      && forall i :: 0 <= i < |rows| ==>
           r.value[i] == CleanRow(rows[i], Decode(rows[i].default).value)
  {
    NormaliseAllAreDecode();
    var mapped := MappedStage(TextStage(rows));
    assert forall j :: 0 <= j < |rows| ==>
      (mapped[j].default.Int? <==> Decode(rows[j].default).Some?);
    match FirstUncastable(mapped)
    case Some(k) => Failure(UnmappedDefault(k))
    case None => Success(LabelStage(mapped))
  }

  /** The invariant of a cleaned table: every code is 0 or 1 and its label is
      the one that code names. */
  ghost predicate Cleaned(rows: seq<Loan>) {
    forall i :: 0 <= i < |rows| ==>
      || (rows[i].default == Int(0) && rows[i].defaultLabel == Some(ApprovedLabel))
      || (rows[i].default == Int(1) && rows[i].defaultLabel == Some(NotApprovedLabel))
  }

  /** A successful clean establishes the invariant, keeps the number and order
      of rows and changes no other column. */
  lemma CleanEstablishesInvariant(rows: seq<Loan>)
    requires Clean(rows).Success?
    ensures Cleaned(Clean(rows).value)
    ensures |Clean(rows).value| == |rows|
    ensures forall i :: 0 <= i < |rows| ==>
      Clean(rows).value[i].(default := rows[i].default, defaultLabel := rows[i].defaultLabel) == rows[i]
  {
  }

  /** `preprocess_data` on a frame held in `df`: it overwrites the `default`
      column three times in place and then adds `default_label`. When the
      integer conversion raises, the frame keeps the mapped column. */
  method PreprocessData(df: array<Loan>) returns (err: Option<CleanError>)
    modifies df
    ensures err.None? <==> Clean(old(df[..])).Success?
    ensures err.None? ==> df[..] == Clean(old(df[..])).value
    ensures err.Some? ==>
      err.value == Clean(old(df[..])).error && df[..] == MappedStage(TextStage(old(df[..])))
  {
    forall i | 0 <= i < df.Length {
      df[i] := df[i].(default := AsText(df[i].default));
    }
    assert df[..] == TextStage(old(df[..]));
    forall i | 0 <= i < df.Length {
      df[i] := df[i].(default := MapSpelling(df[i].default));
    }
    assert df[..] == MappedStage(TextStage(old(df[..])));
    var bad := FirstUncastable(df[..]);
    if bad.Some? {
      return Some(UnmappedDefault(bad.value));
    }
    forall i | 0 <= i < df.Length {
      df[i] := df[i].(defaultLabel := LabelOf(df[i].default));
    }
    assert df[..] == LabelStage(MappedStage(TextStage(old(df[..]))));
    err := None;
  }
}
