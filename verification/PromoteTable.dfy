// openzl_promote and openzl_restore on whole tables: verdicts, casts, and what comes back.
module PromoteTable {
  import opened Wrappers
  import opened Decimal
  import opened Promote

  datatype Cell = Null | Text(text: string) | Number(unscaled: int) | Other(id: int)

  /** A column with its type as DESCRIBE prints it. Only VARCHAR columns hold text. */
  datatype Column = Column(name: string, typeName: string, cells: seq<Cell>)
  {
    predicate Valid() { typeName == "VARCHAR" ==> forall c | c in cells :: c.Null? || c.Text? }
  }

  datatype Options = Options(
    maxIntDigits: nat, decIntDigits: nat, decScale: nat, promoteDecimal: bool, fixedWidth: bool)
  {
    /** The ranges the binder enforces. */
    predicate Valid() {
      1 <= maxIntDigits <= 18 && decScale >= 1 && decIntDigits >= 1 && decIntDigits + decScale <= 18
    }

    function DecimalType(): string { TypeName(decIntDigits + decScale, decScale) }
  }

  // ---- verdicts ----

  predicate AllNull(cells: seq<Cell>) { forall c | c in cells :: c.Null? }

  predicate AllIntegers(cells: seq<Cell>, max: nat) {
    forall c | c in cells && c.Text? :: MatchesInteger(c.text, max)
  }

  predicate AllDecimals(cells: seq<Cell>, intDigits: nat, scale: nat) {
    forall c | c in cells && c.Text? :: MatchesDecimal(c.text, intDigits, scale)
  }

  predicate AllDigitText(cells: seq<Cell>) {
    forall c | c in cells && c.Text? :: MatchesDigits(c.text)
  }

  predicate AllOfWidth(cells: seq<Cell>, width: nat) {
    forall c | c in cells && c.Text? :: MatchesDigits(c.text) && |c.text| == width
  }

  /** What the type a column is cast to means; "" leaves the column alone. */
  ghost predicate IsVerdict(col: Column, o: Options, verdict: string) {
    var fixed := o.fixedWidth && exists w | 2 <= w <= 18 :: AllOfWidth(col.cells, w);
    if col.typeName != "VARCHAR" || AllNull(col.cells) then verdict == ""
    else if AllIntegers(col.cells, o.maxIntDigits) then verdict == "BIGINT"
    else if fixed then exists w | 2 <= w <= 18 :: AllOfWidth(col.cells, w) && verdict == TypeName(w, 0)
    else if o.promoteDecimal && AllDecimals(col.cells, o.decIntDigits, o.decScale) then verdict == o.DecimalType()
    else verdict == ""
  }

  function CountText(cells: seq<Cell>): nat {
    if |cells| == 0 then 0 else CountText(cells[..|cells| - 1]) + (if cells[|cells| - 1].Text? then 1 else 0)
  }

  function MinLength(cells: seq<Cell>): Option<nat> {
    if |cells| == 0 then None
    else
      var rest, last := MinLength(cells[..|cells| - 1]), cells[|cells| - 1];
      if !last.Text? then rest
      else if rest.Some? && rest.value <= |last.text| then rest else Some(|last.text|)
  }

  function MaxLength(cells: seq<Cell>): Option<nat> {
    if |cells| == 0 then None
    else
      var rest, last := MaxLength(cells[..|cells| - 1]), cells[|cells| - 1];
      if !last.Text? then rest
      else if rest.Some? && rest.value >= |last.text| then rest else Some(|last.text|)
  }

  // ---- the analysis query: one flat row of aggregates ----

  datatype Aggregate =
    | Count(col: nat)
    | AllMatchInteger(col: nat)
    | AllMatchDecimal(col: nat)
    | AllMatchDigits(col: nat)
    | ShortestLength(col: nat)
    | LongestLength(col: nat)

  datatype SqlValue = Missing | Integer(n: nat) | Boolean(b: bool)

  /** An aggregate over no rows is NULL, and so is a length aggregate over NULLs. */
  function Evaluate(agg: Aggregate, cells: seq<Cell>, o: Options): SqlValue {
    match agg
    case Count(_) => Integer(CountText(cells))
    case AllMatchInteger(_) => if cells == [] then Missing else Boolean(AllIntegers(cells, o.maxIntDigits))
    case AllMatchDecimal(_) => if cells == [] then Missing else Boolean(AllDecimals(cells, o.decIntDigits, o.decScale))
    case AllMatchDigits(_) => if cells == [] then Missing else Boolean(AllDigitText(cells))
    case ShortestLength(_) => if MinLength(cells).Some? then Integer(MinLength(cells).value) else Missing
    case LongestLength(_) => if MaxLength(cells).Some? then Integer(MaxLength(cells).value) else Missing
  }

  /** The aggregates selected for one text column: six of them with fixed_width, else three. */
  function AggregatesOf(i: nat, o: Options): (aggs: seq<Aggregate>)
    ensures |aggs| == Stride(o) && forall j | 0 <= j < |aggs| :: aggs[j].col == i
  {
    [Count(i), AllMatchInteger(i), AllMatchDecimal(i)]
    + if o.fixedWidth then [AllMatchDigits(i), ShortestLength(i), LongestLength(i)] else []
  }

  function Stride(o: Options): nat { if o.fixedWidth then 6 else 3 }

  /** Where the aggregates of the k-th text column start in the row. */
  function Base(o: Options, k: nat): nat { if o.fixedWidth then 6 * k else 3 * k }

  predicate InTable(aggs: seq<Aggregate>, width: nat) { forall j | 0 <= j < |aggs| :: aggs[j].col < width }

  /** The row of the analysis query. */
  function AnalysisRow(cols: seq<Column>, o: Options, aggs: seq<Aggregate>): (row: seq<SqlValue>)
    requires InTable(aggs, |cols|)
    ensures |row| == |aggs|
  {
    seq(|aggs|, j requires 0 <= j < |aggs| => Evaluate(aggs[j], cols[aggs[j].col].cells, o))
  }

  /** The part of a row that starts at `base` holds the aggregates of these cells. */
  ghost predicate RowHolds(row: seq<SqlValue>, base: nat, cells: seq<Cell>, o: Options) {
    && base + Stride(o) <= |row|
    && forall j | 0 <= j < Stride(o) :: row[base + j] == Evaluate(AggregatesOf(0, o)[j], cells, o)
  }

  lemma RowEntries(row: seq<SqlValue>, base: nat, cells: seq<Cell>, o: Options)
    requires RowHolds(row, base, cells, o)
    ensures row[base] == Evaluate(Count(0), cells, o)
    ensures row[base + 1] == Evaluate(AllMatchInteger(0), cells, o)
    ensures row[base + 2] == Evaluate(AllMatchDecimal(0), cells, o)
    ensures o.fixedWidth ==>
        && row[base + 3] == Evaluate(AllMatchDigits(0), cells, o)
        && row[base + 4] == Evaluate(ShortestLength(0), cells, o)
        && row[base + 5] == Evaluate(LongestLength(0), cells, o)
  {
    hide Evaluate;
    assert forall j | 0 <= j < Stride(o) :: row[base + j] == Evaluate(AggregatesOf(0, o)[j], cells, o);
    assert row[base + 0] == Evaluate(AggregatesOf(0, o)[0], cells, o);
    assert row[base + 1] == Evaluate(AggregatesOf(0, o)[1], cells, o);
    assert row[base + 2] == Evaluate(AggregatesOf(0, o)[2], cells, o);
    if o.fixedWidth {
      assert row[base + 3] == Evaluate(AggregatesOf(0, o)[3], cells, o);
      assert row[base + 4] == Evaluate(AggregatesOf(0, o)[4], cells, o);
      assert row[base + 5] == Evaluate(AggregatesOf(0, o)[5], cells, o);
    }
  }

  /** The aggregates laid out column after column. */
  ghost predicate LaidOut(aggs: seq<Aggregate>, aggCol: seq<nat>, o: Options) {
    && |aggs| == Base(o, |aggCol|)
    && forall k | 0 <= k < |aggCol| :: aggs[Base(o, k)..Base(o, k) + Stride(o)] == AggregatesOf(aggCol[k], o)
  }

  lemma LaidOutAppend(aggs: seq<Aggregate>, aggCol: seq<nat>, o: Options, i: nat, width: nat)
    requires LaidOut(aggs, aggCol, o) && InTable(aggs, width) && i < width
    ensures LaidOut(aggs + AggregatesOf(i, o), aggCol + [i], o)
    ensures InTable(aggs + AggregatesOf(i, o), width)
  {
    var aggs', aggCol' := aggs + AggregatesOf(i, o), aggCol + [i];
    forall k | 0 <= k < |aggCol'|
      ensures aggs'[Base(o, k)..Base(o, k) + Stride(o)] == AggregatesOf(aggCol'[k], o)
    {
      if k < |aggCol| {
        assert Base(o, k) + Stride(o) <= |aggs|;
        assert aggs'[Base(o, k)..Base(o, k) + Stride(o)] == aggs[Base(o, k)..Base(o, k) + Stride(o)];
      }
    }
  }

  lemma SliceEntry<T>(s: seq<T>, a: nat, part: seq<T>, j: nat)
    requires a + |part| <= |s| && s[a..a + |part|] == part && j < |part|
    ensures s[a + j] == part[j]
  {
  }

  /** What an aggregate computes depends on the cells, not on where the column stands. */
  lemma SameAggregate(i: nat, j: nat, cells: seq<Cell>, o: Options)
    requires j < Stride(o)
    ensures Evaluate(AggregatesOf(i, o)[j], cells, o) == Evaluate(AggregatesOf(0, o)[j], cells, o)
  {
    hide AllIntegers, AllDecimals, AllDigitText, CountText, MinLength, MaxLength;
  }

  lemma SliceBounds(aggs: seq<Aggregate>, aggCol: seq<nat>, o: Options, k: nat)
    requires LaidOut(aggs, aggCol, o) && k < |aggCol|
    ensures Base(o, k) + Stride(o) <= |aggs|
    ensures aggs[Base(o, k)..Base(o, k) + Stride(o)] == AggregatesOf(aggCol[k], o)
  {
  }

  /** Slice k of the row belongs to the k-th text column. */
  lemma RowHoldsColumn(cols: seq<Column>, o: Options, aggs: seq<Aggregate>, aggCol: seq<nat>, k: nat)
    requires InTable(aggs, |cols|)
    requires LaidOut(aggs, aggCol, o) && k < |aggCol| && aggCol[k] < |cols|
    ensures RowHolds(AnalysisRow(cols, o, aggs), Base(o, k), cols[aggCol[k]].cells, o)
  {
    hide Evaluate, LaidOut, Base, AggregatesOf, Stride;
    SliceBounds(aggs, aggCol, o, k);
    var row, base, i := AnalysisRow(cols, o, aggs), Base(o, k), aggCol[k];
    forall j | 0 <= j < Stride(o)
      ensures row[base + j] == Evaluate(AggregatesOf(0, o)[j], cols[i].cells, o)
    {
      SliceEntry(aggs, base, AggregatesOf(i, o), j);
      SameAggregate(i, j, cols[i].cells, o);
      assert aggs[base + j].col == i;
      assert row[base + j] == Evaluate(aggs[base + j], cols[i].cells, o);
    }
  }

  lemma {:induction false} LengthAggregates(cells: seq<Cell>)
    ensures CountText(cells) == 0 <==> forall c | c in cells :: !c.Text?
    ensures MinLength(cells).Some? <==> CountText(cells) > 0
    ensures MaxLength(cells).Some? <==> CountText(cells) > 0
    ensures forall c | c in cells && c.Text? :: MinLength(cells).value <= |c.text| <= MaxLength(cells).value
    ensures MinLength(cells).Some? ==> exists c :: c in cells && c.Text? && |c.text| == MinLength(cells).value
  {
    if |cells| > 0 {
      var front, last := cells[..|cells| - 1], cells[|cells| - 1];
      LengthAggregates(front);
      assert cells == front + [last];
      if last.Text? && MinLength(cells) == Some(|last.text|) {
        assert last in cells;
      }
    }
  }

  /** The test on the aggregates recognizes exactly the columns of one width. */
  lemma EqualLengthsAreOneWidth(cells: seq<Cell>, width: nat)
    requires CountText(cells) > 0
    ensures AllDigitText(cells) && MinLength(cells) == MaxLength(cells) == Some(width) <==> AllOfWidth(cells, width)
  {
    LengthAggregates(cells);
    hide MatchesDigits;
    var c :| c in cells && c.Text? && |c.text| == MinLength(cells).value;
    if AllOfWidth(cells, width) {
      assert MatchesDigits(c.text) && |c.text| == width;
      LongestIsWidth(cells, width);
    }
  }

  lemma {:induction false} LongestIsWidth(cells: seq<Cell>, width: nat)
    requires CountText(cells) > 0 && AllOfWidth(cells, width)
    ensures MaxLength(cells) == Some(width)
  {
    var front, last := cells[..|cells| - 1], cells[|cells| - 1];
    LengthAggregates(front);
    assert cells == front + [last];
    if CountText(front) > 0 {
      LongestIsWidth(front, width);
    }
    if last.Text? {
      assert last in cells;
    }
  }

  method AddAggregates(aggs: seq<Aggregate>, i: nat, o: Options) returns (longer: seq<Aggregate>)
    ensures longer == aggs + AggregatesOf(i, o)
  {
    longer := aggs + [Count(i), AllMatchInteger(i), AllMatchDecimal(i)];
    if o.fixedWidth {
      longer := longer + [AllMatchDigits(i), ShortestLength(i), LongestLength(i)];
    }
  }

  predicate IsVarchar(col: Column) { col.typeName == "VARCHAR" }

  /** The text columns among the first n. */
  ghost predicate TextColumns(aggCol: seq<nat>, cols: seq<Column>, n: nat)
    requires n <= |cols|
  {
    && (forall k | 0 <= k < |aggCol| :: aggCol[k] < n && IsVarchar(cols[aggCol[k]]))
    && (forall j | 0 <= j < n && IsVarchar(cols[j]) :: j in aggCol)
  }

  lemma TextColumnsSkip(aggCol: seq<nat>, cols: seq<Column>, n: nat)
    requires n < |cols| && TextColumns(aggCol, cols, n) && !IsVarchar(cols[n])
    ensures TextColumns(aggCol, cols, n + 1)
  {
    hide IsVarchar;
  }

  lemma TextColumnsAdd(aggCol: seq<nat>, cols: seq<Column>, n: nat)
    requires n < |cols| && TextColumns(aggCol, cols, n) && IsVarchar(cols[n])
    ensures TextColumns(aggCol + [n], cols, n + 1)
  {
    hide IsVarchar;
    assert forall j | 0 <= j < n && IsVarchar(cols[j]) :: j in aggCol + [n];
    assert n in aggCol + [n];
  }

  /** The first loop: the text columns, in order, and the select list of the analysis query. */
  method CollectAggregates(cols: seq<Column>, o: Options) returns (aggs: seq<Aggregate>, aggCol: seq<nat>)
    ensures LaidOut(aggs, aggCol, o) && InTable(aggs, |cols|) && TextColumns(aggCol, cols, |cols|)
  {
    aggs, aggCol := [], [];
    assert LaidOut(aggs, aggCol, o) && InTable(aggs, |cols|) && TextColumns(aggCol, cols, 0);
    hide *;
    for i := 0 to |cols|
      invariant LaidOut(aggs, aggCol, o) && InTable(aggs, |cols|) && TextColumns(aggCol, cols, i)
    {
      if !IsVarchar(cols[i]) {
        TextColumnsSkip(aggCol, cols, i);
        continue;
      }
      TextColumnsAdd(aggCol, cols, i);
      LaidOutAppend(aggs, aggCol, o, i, |cols|);
      aggs := AddAggregates(aggs, i, o);
      aggCol := aggCol + [i];
    }
  }

  /** Text columns are collected with their aggregates first; the verdicts are then read back from the flat row. */
  method PromoteBind(cols: seq<Column>, o: Options) returns (verdict: seq<string>)
    requires o.Valid() && forall col | col in cols :: col.Valid()
    ensures |verdict| == |cols| && forall i | 0 <= i < |cols| :: IsVerdict(cols[i], o, verdict[i])
  {
    hide IsVerdict, Column.Valid, Options.Valid, LaidOut, RowHolds, IsVarchar;
    var aggs, aggCol := CollectAggregates(cols, o);
    verdict := seq(|cols|, i => "");
    if aggs != [] {
      var stats := AnalysisRow(cols, o, aggs);
      var stride := if o.fixedWidth then 6 else 3;
      for k := 0 to |aggCol|
        invariant |verdict| == |cols|
        invariant forall i | 0 <= i < |cols| && i !in aggCol[..k] :: verdict[i] == ""
        invariant forall l | 0 <= l < k :: IsVerdict(cols[aggCol[l]], o, verdict[aggCol[l]])
      {
        var i := aggCol[k];
        RowHoldsColumn(cols, o, aggs, aggCol, k);
        assert stride * k == Base(o, k);
        var v := ColumnVerdict(stats, stride * k, o, cols[i]);
        assert aggCol[..k + 1] == aggCol[..k] + [i];
        verdict := verdict[i := v];
      }
    }
    forall i | 0 <= i < |cols|
      ensures IsVerdict(cols[i], o, verdict[i])
    {
      if i in aggCol {
        var l :| 0 <= l < |aggCol| && aggCol[l] == i;
        SomeAggregates(aggs, aggCol, o);
      } else {
        assert aggCol[..|aggCol|] == aggCol;
        OtherTypesStay(cols[i], o);
      }
    }
  }

  lemma SomeAggregates(aggs: seq<Aggregate>, aggCol: seq<nat>, o: Options)
    requires LaidOut(aggs, aggCol, o) && aggCol != []
    ensures aggs != []
  {
  }

  lemma OtherTypesStay(col: Column, o: Options)
    requires !IsVarchar(col)
    ensures IsVerdict(col, o, "")
  {
  }

  /** The verdict of the column whose aggregates start at `base`. */
  method ColumnVerdict(stats: seq<SqlValue>, base: nat, o: Options, ghost col: Column) returns (verdict: string)
    requires o.Valid() && col.Valid() && IsVarchar(col)
    requires RowHolds(stats, base, col.cells, o)
    ensures IsVerdict(col, o, verdict)
  {
    hide MatchesInteger, MatchesDecimal, MatchesDigits, TypeName;
    LengthAggregates(col.cells);
    RowEntries(stats, base, col.cells, o);
    verdict := "";
    var nonNull := stats[base];
    if nonNull.n == 0 {
      return;
    }
    hide AllIntegers, AllDecimals, AllOfWidth, AllDigitText, CountText, MinLength, MaxLength;
    var allInt, allDec := stats[base + 1], stats[base + 2];
    var digitsFixed, width := false, 0;
    if o.fixedWidth {
      var allDigits, minLength, maxLength := stats[base + 3], stats[base + 4], stats[base + 5];
      if allDigits == Boolean(true) && minLength.Integer? && maxLength.Integer? && minLength == maxLength {
        width := minLength.n;
        digitsFixed := 2 <= width <= 18;
      }
    }
    forall w: nat
      ensures AllOfWidth(col.cells, w)
         <==> AllDigitText(col.cells) && MinLength(col.cells) == MaxLength(col.cells) == Some(w)
    {
      EqualLengthsAreOneWidth(col.cells, w);
    }
    if allInt == Boolean(true) {
      verdict := "BIGINT";
    } else if digitsFixed {
      verdict := TypeName(width, 0);
    } else if o.promoteDecimal && allDec == Boolean(true) {
      verdict := o.DecimalType();
    }
  }

  // ---- verdicts by the texts in a column ----

  /** The print of an integer of at most `max` digits. */
  ghost predicate IntegerText(s: string, max: nat) { exists v: int :: Abs(v) < Pow10(max) && PrintInt(v) == s }

  /** A decimal within the digit bounds. */
  ghost predicate BoundedDecimal(s: string, intDigits: nat, scale: nat) {
    exists neg, whole, fraction :: DecimalShape(s, neg, whole, fraction, intDigits, scale)
  }

  ghost predicate TextColumn(col: Column) { col.typeName == "VARCHAR" && exists c :: c in col.cells && c.Text? }

  ghost predicate IntegerColumn(col: Column, o: Options) {
    TextColumn(col) && forall c | c in col.cells && c.Text? :: IntegerText(c.text, o.maxIntDigits)
  }

  ghost predicate PaddedColumn(col: Column, width: nat, o: Options) {
    && TextColumn(col) && o.fixedWidth && 2 <= width <= 18
    && forall c | c in col.cells && c.Text? :: PaddedText(c.text, width)
  }

  ghost predicate DecimalColumn(col: Column, o: Options) {
    && TextColumn(col) && o.promoteDecimal
    && forall c | c in col.cells && c.Text? :: BoundedDecimal(c.text, o.decIntDigits, o.decScale)
  }

  lemma IntegerTexts(col: Column, max: nat)
    requires 1 <= max <= 18
    ensures AllIntegers(col.cells, max) <==> forall c | c in col.cells && c.Text? :: IntegerText(c.text, max)
  {
    hide MatchesInteger, PrintInt;
    forall c | c in col.cells && c.Text?
      ensures MatchesInteger(c.text, max) <==> IntegerText(c.text, max)
    {
      IntegerPatternIsExact(c.text, max);
    }
  }

  lemma DecimalTexts(col: Column, intDigits: nat, scale: nat)
    requires intDigits >= 1
    ensures AllDecimals(col.cells, intDigits, scale)
       <==> forall c | c in col.cells && c.Text? :: BoundedDecimal(c.text, intDigits, scale)
  {
    hide MatchesDecimal, DecimalShape;
    forall c | c in col.cells && c.Text?
      ensures MatchesDecimal(c.text, intDigits, scale) <==> BoundedDecimal(c.text, intDigits, scale)
    {
      DecimalPatternIsExact(c.text, intDigits, scale);
    }
  }

  lemma PaddedTexts(col: Column, width: nat)
    requires width >= 1
    ensures AllOfWidth(col.cells, width) <==> forall c | c in col.cells && c.Text? :: PaddedText(c.text, width)
  {
    hide MatchesDigits, PaddedText;
    forall c | c in col.cells && c.Text?
      ensures MatchesDigits(c.text) && |c.text| == width <==> PaddedText(c.text, width)
    {
      DigitsPatternIsExact(c.text, width);
    }
  }

  /** Only one width fits a column that has texts at all. */
  lemma OneWidth(col: Column, v: nat, w: nat)
    requires TextColumn(col) && AllOfWidth(col.cells, v) && AllOfWidth(col.cells, w)
    ensures v == w
  {
    hide MatchesDigits;
  }

  lemma NoTexts(col: Column)
    requires col.Valid() && col.typeName == "VARCHAR"
    ensures TextColumn(col) <==> !AllNull(col.cells)
  {
  }

  /**
   * The verdict by what the texts are: integers go first, then padded numbers if asked for, then decimals if allowed;
   * everything else, and a column without texts, is left alone.
   */
  lemma VerdictByTexts(col: Column, o: Options, verdict: string)
    requires o.Valid() && col.Valid() && IsVerdict(col, o, verdict)
    ensures IntegerColumn(col, o) ==> verdict == "BIGINT"
    ensures !IntegerColumn(col, o) ==> forall w | PaddedColumn(col, w, o) :: verdict == TypeName(w, 0)
    ensures
      (!IntegerColumn(col, o) && forall w | 2 <= w <= 18 :: !PaddedColumn(col, w, o)) ==>
        verdict == if DecimalColumn(col, o) then o.DecimalType() else ""
  {
    hide IntegerText, PaddedText, BoundedDecimal, TypeName, TextColumn, AllIntegers, AllDecimals, AllOfWidth, AllNull,
      Column.Valid;
    if col.typeName != "VARCHAR" {
      OnlyVarchar(col);
      return;
    }
    NoTexts(col);
    IntegerTexts(col, o.maxIntDigits);
    DecimalTexts(col, o.decIntDigits, o.decScale);
    forall w: nat | 2 <= w <= 18
      ensures AllOfWidth(col.cells, w) <==> forall c | c in col.cells && c.Text? :: PaddedText(c.text, w)
    {
      PaddedTexts(col, w);
    }
    forall v: nat, w: nat | TextColumn(col) && AllOfWidth(col.cells, v) && AllOfWidth(col.cells, w)
      ensures v == w
    {
      OneWidth(col, v, w);
    }
    forall w: nat | 2 <= w <= 18 && TextColumn(col) && o.fixedWidth
      ensures AllOfWidth(col.cells, w) <==> PaddedColumn(col, w, o)
    {
    }
  }

  lemma OnlyVarchar(col: Column)
    requires col.typeName != "VARCHAR"
    ensures !TextColumn(col)
  {
  }

  // ---- casting, and restoring ----

  /** `r` is CAST(c AS typeName), for the types a verdict can name. */
  ghost predicate IsCast(c: Cell, typeName: string, r: Cell) {
    if !c.Text? then r == c
    else if typeName == "BIGINT" then r.Number? && CastBigint(c.text) == Some(r.unscaled)
    else r.Number? && exists p, s :: typeName == TypeName(p, s) && CastDecimal(c.text, p, s) == Some(r.unscaled)
  }

  /** `result` is what the promoted table holds in place of `col`. */
  ghost predicate IsPromoted(col: Column, verdict: string, result: Column) {
    if verdict == "" then result == col
    else
      && result.name == col.name && result.typeName == verdict && |result.cells| == |col.cells|
      && forall i | 0 <= i < |col.cells| :: IsCast(col.cells[i], verdict, result.cells[i])
  }

  /** One item of the restoring select list: the column itself, or the column printed and padded. */
  datatype Expr = Keep | PadTo(width: nat)

  function RestoreExpr(typeName: string): Expr {
    var width := RestoreWidth(typeName);
    if 2 <= width <= 18 then PadTo(width) else Keep
  }

  function RestoreCell(c: Cell, width: nat): Cell {
    if c.Number? then Text(LeftPad(PrintInt(c.unscaled), width)) else c
  }

  /** The column a select item makes of a column. */
  function Apply(e: Expr, col: Column): Column {
    match e
    case Keep => col
    case PadTo(width) =>
      Column(col.name, "VARCHAR",
             seq(|col.cells|, i requires 0 <= i < |col.cells| => RestoreCell(col.cells[i], width)))
  }

  function RestoreColumn(col: Column): Column { Apply(RestoreExpr(col.typeName), col) }

  method RestoreBind(cols: seq<Column>) returns (select: seq<Expr>)
    ensures |select| == |cols| && forall i | 0 <= i < |cols| :: select[i] == RestoreExpr(cols[i].typeName)
    ensures forall i, p, s | 0 <= i < |cols| && cols[i].typeName == TypeName(p, s) ::
        select[i] == if s == 0 && 2 <= p <= 18 then PadTo(p) else Keep
  {
    select := [];
    for i := 0 to |cols|
      invariant |select| == i && forall k | 0 <= k < i :: select[k] == RestoreExpr(cols[k].typeName)
    {
      var width := RestoreWidth(cols[i].typeName);
      if width >= 2 && width <= 18 {
        select := select + [PadTo(width)];
      } else {
        select := select + [Keep];
      }
    }
    forall i, p, s | 0 <= i < |cols| && cols[i].typeName == TypeName(p, s)
      ensures select[i] == if s == 0 && 2 <= p <= 18 then PadTo(p) else Keep
    {
      RestoreWidthOfType(p, s);
    }
  }

  /** The text of a cell that was promoted: text as it is, numbers printed. */
  function AsText(c: Cell): Cell {
    if c.Number? then Text(PrintInt(c.unscaled)) else c
  }

  lemma TypeNameIsInjective(p: nat, s: nat, q: nat, t: nat)
    requires TypeName(p, s) == TypeName(q, t)
    ensures p == q && s == t
  {
    var a, b := Print(p) + "," + Print(s) + ")", Print(q) + "," + Print(t) + ")";
    assert TypeName(p, s) == "DECIMAL(" + a && TypeName(q, t) == "DECIMAL(" + b;
    assert TypeName(p, s)[8..] == a && TypeName(q, t)[8..] == b;
    assert Print(p) + "," + (Print(s) + ")") == a && Print(q) + "," + (Print(t) + ")") == b;
    DigitsBeforeComma(Print(p), Print(s) + ")", Print(q), Print(t) + ")");
    PrintIsInjective(p, q);
    assert (Print(s) + ")")[..|Print(s)|] == Print(s);
    assert (Print(t) + ")")[..|Print(t)|] == Print(t);
    PrintIsInjective(s, t);
  }

  lemma DigitsBeforeComma(a: string, x: string, b: string, y: string)
    requires AllDigits(a) && AllDigits(b)
    requires a + "," + x == b + "," + y
    ensures a == b && x == y
  {
    var whole := a + "," + x;
    assert whole[|a|] == ',' && whole[|b|] == ',';
    assert forall j | 0 <= j < |a| :: IsDigit(whole[j]);
    assert forall j | 0 <= j < |b| :: whole[j] == b[j] && IsDigit(whole[j]);
    assert !IsDigit(whole[|a|]) && !IsDigit(whole[|b|]);
    assert whole[..|a|] == a && whole[..|b|] == b;
    assert whole[|a| + 1..] == x && whole[|b| + 1..] == y;
  }

  lemma NotDecimalNames(p: nat, s: nat)
    ensures TypeName(p, s) != "BIGINT" && TypeName(p, s) != "VARCHAR" && TypeName(p, s) != ""
    ensures RestoreWidth("BIGINT") == 0 && RestoreWidth("VARCHAR") == 0
  {
    assert TypeName(p, s)[0] == 'D';
  }

  /** Every cast a verdict asks for succeeds. */
  lemma PromotionNeverFails(col: Column, o: Options, verdict: string, c: Cell)
    requires o.Valid() && col.Valid() && IsVerdict(col, o, verdict) && verdict != "" && c in col.cells
    ensures exists r :: IsCast(c, verdict, r)
  {
    hide MatchesInteger, MatchesDecimal, TypeName, CastBigint, CastDecimal, DecimalText, FractionDigits, Numerator,
      LeadingDigits, Pow10, Value;
    if c.Null? {
      assert IsCast(c, verdict, c);
    } else if AllIntegers(col.cells, o.maxIntDigits) {
      IntegerRoundTrip(c.text, o.maxIntDigits);
      assert IsCast(c, verdict, Number(CastBigint(c.text).value));
    } else if o.fixedWidth && exists w | 2 <= w <= 18 :: AllOfWidth(col.cells, w) {
      var w :| 2 <= w <= 18 && AllOfWidth(col.cells, w) && verdict == TypeName(w, 0);
      DigitsAreExact(c.text);
      NotDecimalNames(w, 0);
      assert IsCast(c, verdict, Number(Value(c.text)));
    } else {
      DecimalIsExact(c.text, o.decIntDigits, o.decScale);
      NotDecimalNames(o.decIntDigits + o.decScale, o.decScale);
      assert IsCast(c, verdict, Number(CastDecimal(c.text, o.decIntDigits + o.decScale, o.decScale).value));
    }
  }

  /** A column cast to BIGINT is left alone by restore, and prints back character for character. */
  lemma BigintComesBack(col: Column, o: Options, promoted: Column)
    requires o.Valid() && col.Valid() && IsVerdict(col, o, "BIGINT") && IsPromoted(col, "BIGINT", promoted)
    ensures RestoreColumn(promoted) == promoted
    ensures forall i | 0 <= i < |col.cells| :: AsText(promoted.cells[i]) == col.cells[i]
  {
    NotDecimalNames(o.decIntDigits + o.decScale, o.decScale);
    hide MatchesInteger, MatchesDecimal, RestoreWidth;
    forall w | 2 <= w <= 18
      ensures TypeName(w, 0) != "BIGINT"
    {
      NotDecimalNames(w, 0);
    }
    hide TypeName;
    forall i | 0 <= i < |col.cells|
      ensures AsText(promoted.cells[i]) == col.cells[i]
    {
      assert IsCast(col.cells[i], "BIGINT", promoted.cells[i]);
      assert col.cells[i] in col.cells;
      if col.cells[i].Text? {
        IntegerRoundTrip(col.cells[i].text, o.maxIntDigits);
      }
    }
  }

  /** A column of fixed-width digits, cast to DECIMAL(w,0), is restored exactly, leading zeros and NULLs included. */
  lemma FixedWidthComesBack(col: Column, w: nat, promoted: Column)
    requires col.typeName == "VARCHAR" && col.Valid() && 2 <= w <= 18
    requires AllOfWidth(col.cells, w) && IsPromoted(col, TypeName(w, 0), promoted)
    ensures RestoreColumn(promoted) == col
  {
    RestoreWidthOfType(w, 0);
    NotDecimalNames(w, 0);
    hide TypeName, RestoreWidth, LeftPad, CastDecimal;
    forall i | 0 <= i < |col.cells|
      ensures RestoreCell(promoted.cells[i], w) == col.cells[i]
    {
      var c := col.cells[i];
      assert c in col.cells && IsCast(c, TypeName(w, 0), promoted.cells[i]);
      if c.Text? {
        var p, s :| TypeName(w, 0) == TypeName(p, s) && CastDecimal(c.text, p, s) == Some(promoted.cells[i].unscaled);
        TypeNameIsInjective(w, 0, p, s);
        DigitsAreExact(c.text);
        LeftPadRestores(c.text);
      }
    }
  }

  /** The number a decimal cast leaves in a cell denotes the same rational as the text it came from. */
  ghost predicate SameRational(text: string, r: Cell, scale: nat) {
    DecimalText(text) && r.Number?
    && r.unscaled * Pow10(|FractionDigits(text)|) == Numerator(text) * Pow10(scale)
  }

  lemma DecimalCellIsExact(text: string, o: Options, r: Cell)
    requires o.Valid() && MatchesDecimal(text, o.decIntDigits, o.decScale)
    requires IsCast(Text(text), o.DecimalType(), r)
    ensures SameRational(text, r, o.decScale)
  {
    var p, s := o.decIntDigits + o.decScale, o.decScale;
    NotDecimalNames(p, s);
    hide TypeName, CastDecimal, MatchesDecimal, DecimalText, FractionDigits, Numerator, Pow10;
    var q: nat, t: nat :| TypeName(p, s) == TypeName(q, t) && CastDecimal(text, q, t) == Some(r.unscaled);
    TypeNameIsInjective(p, s, q, t);
    DecimalIsExact(text, o.decIntDigits, o.decScale);
  }

  /** A column cast to the decimal type is never mistaken for a padded one, and each number equals its text. */
  lemma DecimalStaysExact(col: Column, o: Options, promoted: Column)
    requires o.Valid() && col.Valid() && IsPromoted(col, o.DecimalType(), promoted)
    requires AllDecimals(col.cells, o.decIntDigits, o.decScale)
    ensures RestoreColumn(promoted) == promoted
    ensures forall i | 0 <= i < |col.cells| && col.cells[i].Text? ::
        SameRational(col.cells[i].text, promoted.cells[i], o.decScale)
  {
    RestoreWidthOfType(o.decIntDigits + o.decScale, o.decScale);
    NotDecimalNames(o.decIntDigits + o.decScale, o.decScale);
    hide TypeName, RestoreWidth, MatchesDecimal, SameRational, IsCast;
    forall i | 0 <= i < |col.cells| && col.cells[i].Text?
      ensures SameRational(col.cells[i].text, promoted.cells[i], o.decScale)
    {
      assert col.cells[i] in col.cells && IsCast(col.cells[i], o.DecimalType(), promoted.cells[i]);
      DecimalCellIsExact(col.cells[i].text, o, promoted.cells[i]);
    }
  }

  /** A column that is not promoted survives restore unless its own type is a DECIMAL(L,0) with 2 <= L <= 18. */
  lemma UnpromotedSurvives(col: Column)
    ensures RestoreColumn(col) == col <==> !(2 <= RestoreWidth(col.typeName) <= 18)
    ensures forall p: nat, s: nat | col.typeName == TypeName(p, s) ::
        RestoreColumn(col) == col <==> !(s == 0 && 2 <= p <= 18)
  {
    NotDecimalNames(0, 0);
    forall p: nat, s: nat | col.typeName == TypeName(p, s)
      ensures RestoreWidth(col.typeName) == if s == 0 then p else 0
    {
      RestoreWidthOfType(p, s);
    }
  }

  /** A source column that openzl_restore leaves alone, which excludes DECIMAL(L,0) columns the source already had. */
  predicate RestoreKeeps(typeName: string) { !(2 <= RestoreWidth(typeName) <= 18) }

  /**
   * What promoting and restoring owes a column: text promoted to BIGINT prints to itself, decimals are the same
   * numbers, every other column, fixed-width text included, is the same column; NULLs stay NULL.
   */
  ghost predicate ComesBack(col: Column, o: Options, verdict: string, restored: Column) {
    if verdict == "BIGINT" then
      && restored.name == col.name && |restored.cells| == |col.cells|
      && forall k | 0 <= k < |col.cells| :: AsText(restored.cells[k]) == col.cells[k]
    else if verdict == o.DecimalType() then
      && restored.name == col.name && |restored.cells| == |col.cells|
      && forall k | 0 <= k < |col.cells| ::
           if col.cells[k].Text? then SameRational(col.cells[k].text, restored.cells[k], o.decScale)
           else restored.cells[k] == col.cells[k]
    else restored == col
  }

  lemma DecimalComesBack(col: Column, o: Options, promoted: Column)
    requires o.Valid() && col.Valid() && IsPromoted(col, o.DecimalType(), promoted)
    requires AllDecimals(col.cells, o.decIntDigits, o.decScale)
    ensures ComesBack(col, o, o.DecimalType(), RestoreColumn(promoted))
  {
    NotDecimalNames(o.decIntDigits + o.decScale, o.decScale);
    DecimalStaysExact(col, o, promoted);
    hide TypeName, RestoreColumn, SameRational, MatchesDecimal, CastDecimal, CastBigint, Options.Valid;
    assert forall k | 0 <= k < |col.cells| :: IsCast(col.cells[k], o.DecimalType(), promoted.cells[k]);
  }

  /** One column: it comes back exactly if restore leaves its source type alone, as it does for every text column. */
  lemma ColumnComesBack(col: Column, o: Options, verdict: string, promoted: Column)
    requires o.Valid() && col.Valid() && IsVerdict(col, o, verdict) && IsPromoted(col, verdict, promoted)
    ensures ComesBack(col, o, verdict, RestoreColumn(promoted)) <==> RestoreKeeps(col.typeName)
  {
    hide TypeName, RestoreWidth, LeftPad, AllIntegers, AllDecimals, AllOfWidth, AllNull, IsCast, AsText, RestoreCell,
      Column.Valid, SameRational;
    var p, s := o.decIntDigits + o.decScale, o.decScale;
    NotDecimalNames(p, s);
    RestoreWidthOfType(p, s);
    if verdict == "" {
      UnpromotedSurvives(col);
    } else if verdict == "BIGINT" {
      BigintComesBack(col, o, promoted);
    } else if verdict == o.DecimalType() && AllDecimals(col.cells, o.decIntDigits, o.decScale) {
      DecimalComesBack(col, o, promoted);
    } else {
      var w :| 2 <= w <= 18 && AllOfWidth(col.cells, w) && verdict == TypeName(w, 0);
      NotTheDecimalType(o, w);
      hide IsVerdict, IsPromoted, RestoreColumn;
      FixedWidthComesBack(col, w, promoted);
    }
  }

  lemma NotTheDecimalType(o: Options, w: nat)
    requires o.Valid()
    ensures TypeName(w, 0) != o.DecimalType() && TypeName(w, 0) != "BIGINT"
  {
    hide TypeName, RestoreWidth;
    NotDecimalNames(w, 0);
    if TypeName(w, 0) == o.DecimalType() {
      TypeNameIsInjective(w, 0, o.decIntDigits + o.decScale, o.decScale);
    }
  }

  /** The promoting query succeeds on the whole table. */
  lemma PromotedTableExists(cols: seq<Column>, o: Options, verdicts: seq<string>) returns (promoted: seq<Column>)
    requires o.Valid() && |verdicts| == |cols|
    requires forall i | 0 <= i < |cols| :: cols[i].Valid() && IsVerdict(cols[i], o, verdicts[i])
    ensures |promoted| == |cols| && forall i | 0 <= i < |cols| :: IsPromoted(cols[i], verdicts[i], promoted[i])
  {
    hide IsVerdict, IsPromoted, Column.Valid, Options.Valid;
    promoted := [];
    for i := 0 to |cols|
      invariant |promoted| == i && forall k | 0 <= k < i :: IsPromoted(cols[k], verdicts[k], promoted[k])
    {
      var col := PromotedColumnExists(cols[i], o, verdicts[i]);
      promoted := promoted + [col];
    }
  }

  lemma PromotedColumnExists(col: Column, o: Options, verdict: string) returns (promoted: Column)
    requires o.Valid() && col.Valid() && IsVerdict(col, o, verdict)
    ensures IsPromoted(col, verdict, promoted)
  {
    if verdict == "" {
      return col;
    }
    hide IsVerdict, IsCast, Column.Valid, Options.Valid;
    var cells: seq<Cell> := [];
    for i := 0 to |col.cells|
      invariant |cells| == i && forall k | 0 <= k < i :: IsCast(col.cells[k], verdict, cells[k])
    {
      assert col.cells[i] in col.cells;
      PromotionNeverFails(col, o, verdict, col.cells[i]);
      var r :| IsCast(col.cells[i], verdict, r);
      cells := cells + [r];
    }
    promoted := Column(col.name, verdict, cells);
  }

  /**
   * openzl_restore after openzl_promote on a whole table, with the verdicts of PromoteBind, the casts they ask for, and
   * the select list RestoreBind makes of the promoted types: every column comes back if and only if no source column is
   * one that restore would pad.
   */
  lemma RestoreInvertsPromote(
      cols: seq<Column>, o: Options, verdicts: seq<string>, promoted: seq<Column>, select: seq<Expr>)
    requires o.Valid() && |verdicts| == |promoted| == |select| == |cols|
    requires forall i | 0 <= i < |cols| :: cols[i].Valid() && IsVerdict(cols[i], o, verdicts[i])
    requires forall i | 0 <= i < |cols| :: IsPromoted(cols[i], verdicts[i], promoted[i])
    requires forall i | 0 <= i < |cols| :: select[i] == RestoreExpr(promoted[i].typeName)
    ensures (forall i | 0 <= i < |cols| :: ComesBack(cols[i], o, verdicts[i], Apply(select[i], promoted[i])))
       <==> (forall i | 0 <= i < |cols| :: RestoreKeeps(cols[i].typeName))
  {
    hide IsVerdict, IsPromoted, ComesBack, Apply, RestoreExpr, RestoreKeeps, Options.Valid, Column.Valid;
    forall i | 0 <= i < |cols|
      ensures ComesBack(cols[i], o, verdicts[i], Apply(select[i], promoted[i])) <==> RestoreKeeps(cols[i].typeName)
    {
      ColumnComesBack(cols[i], o, verdicts[i], promoted[i]);
    }
  }
}
