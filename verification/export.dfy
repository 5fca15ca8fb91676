/**
  The spreadsheet export: the guards `exportExcel` applies before it builds
  anything, the row/column matrix it hands to the spreadsheet library, and
  the sheet and file names it derives from the hatim name. Cell styling,
  column widths, row heights and the file write belong to the library and
  are not modelled.
 */
module Export {
  import opened Results
  import opened Text
  import opened Allocation
  import opened Calendar

  /** A spreadsheet cell: the script puts numbers and strings side by side. */
  datatype Cell = Num(n: int) | Str(s: string)

  /** A date field of the saved state: never chosen (the empty string), a
      string that does not parse as a date, or a date. */
  datatype DateField = Blank | Unparsable | Given(date: CalendarDate)

  /** The app's whole saved state. */
  datatype Hatim = Hatim(hatimName: string, startDate: DateField, endDate: DateField, participants: seq<Participant>)

  /** Why an export was refused, in the order the checks run. */
  datatype ExportError = NoParticipants | NoDateRange | EmptyDateRange | RangeTooLong

  /** What is handed to the spreadsheet library. */
  datatype Workbook = Workbook(sheetName: string, fileName: string, rows: seq<seq<Cell>>)

  /** The longest exportable range, in days. */
  const MaxExportDays: nat := 365

  /** The longest sheet name the spreadsheet format accepts. */
  const MaxSheetName: nat := 31

  const FileSuffix: string := "_hatim.xlsx"

  // ---------------------------------------------------------------------
  //  Matrix

  function HeaderRow(dates: seq<CalendarDate>): (row: seq<Cell>)
    ensures |row| == 3 + |dates|
    ensures row[..3] == [Str("#"), Str("İSİM SOYİSİM"), Str("SAYFA SAYISI")]
    ensures forall k :: 0 <= k < |dates| ==> row[3 + k] == Str(FormatDate(dates[k]))
  {
    [Str("#"), Str("İSİM SOYİSİM"), Str("SAYFA SAYISI")]
      + seq(|dates|, k requires 0 <= k < |dates| => Str(FormatDate(dates[k])))
  }

  /** The text of one day's cell: `Sf: start-end`. For a non-negative start
      page the first dash after the prefix is the separator. */
  function RangeLabel(pr: PageRange): (text: string)
    ensures |text| == 5 + |IntToString(pr.start)| + |IntToString(pr.end)|
    ensures text[..4] == "Sf: "
    ensures text[4..4 + |IntToString(pr.start)|] == IntToString(pr.start)
    ensures text[4 + |IntToString(pr.start)|] == '-'
    ensures text[5 + |IntToString(pr.start)|..] == IntToString(pr.end)
    ensures pr.start >= 0 ==> AllDigits(text[4..4 + |IntToString(pr.start)|])
  {
    var a, b := IntToString(pr.start), IntToString(pr.end);
    var text := "Sf: " + a + "-" + b;
    assert text == "Sf: " + (a + "-" + b);
    assert text[4..] == a + "-" + b;
    assert text[4..4 + |a|] == a;
    assert text[5 + |a|..] == b;
    text
  }

  function ParticipantRow(ps: seq<Participant>, i: nat, days: nat): (row: seq<Cell>)
    requires i < |ps|
    ensures |row| == 3 + days
    ensures row[..3] == [Num(i + 1), Str(ps[i].fullName), Num(ps[i].pages)]
    ensures forall d :: 0 <= d < days ==> row[3 + d] == Str(RangeLabel(DayRange(ps, i, d)))
  {
    [Num(i + 1), Str(ps[i].fullName), Num(ps[i].pages)]
      + seq(days, d requires 0 <= d < days => Str(RangeLabel(DayRange(ps, i, d))))
  }

  /** The `wsData` array: a header row, then one row per participant in list
      order; every row has three leading columns and one column per day. */
  function Matrix(ps: seq<Participant>, dates: seq<CalendarDate>): (m: seq<seq<Cell>>)
    ensures |m| == |ps| + 1
    ensures forall row :: 0 <= row < |m| ==> |m[row]| == 3 + |dates|
    ensures m[0] == HeaderRow(dates)
    ensures forall i :: 0 <= i < |ps| ==> m[i + 1] == ParticipantRow(ps, i, |dates|)
  {
    [HeaderRow(dates)] + seq(|ps|, i requires 0 <= i < |ps| => ParticipantRow(ps, i, |dates|))
  }

  // ---------------------------------------------------------------------
  //  Names

  /** `state.hatimName || 'Hatim'`. */
  function DisplayName(hatimName: string): (n: string)
    ensures n != []
    ensures hatimName != [] ==> n == hatimName
    ensures hatimName == [] ==> n == "Hatim"
  {
    if hatimName == [] then "Hatim" else hatimName
  }

  /** `hatimName.substring(0, 31)`: the longest prefix of the (defaulted)
      name that fits a sheet name. */
  function SheetName(hatimName: string): (r: string)
    ensures 1 <= |r| <= MaxSheetName && |r| <= |DisplayName(hatimName)|
    ensures r == DisplayName(hatimName)[..|r|]
    ensures |r| == MaxSheetName || r == DisplayName(hatimName)
  {
    var n := DisplayName(hatimName);
    if |n| <= MaxSheetName then n else n[..MaxSheetName]
  }

  /** The characters a file name may not contain. */
  predicate UnsafeForFileName(c: char) {
    c in "\\/:*?\"<>|"
  }

  /** The regular expression replace of the file name: every unsafe
      character becomes `_`. */
  function Sanitize(s: string): (r: string)
    ensures |r| == |s|
    ensures forall i :: 0 <= i < |s| ==> !UnsafeForFileName(r[i])
    ensures forall i :: 0 <= i < |s| ==> (UnsafeForFileName(s[i]) <==> r[i] == '_' && s[i] != '_')
    ensures forall i :: 0 <= i < |s| && !UnsafeForFileName(s[i]) ==> r[i] == s[i]
  {
    seq(|s|, i requires 0 <= i < |s| => if UnsafeForFileName(s[i]) then '_' else s[i])
  }

  lemma SuffixIsSafe()
    ensures forall i :: 0 <= i < |FileSuffix| ==> !UnsafeForFileName(FileSuffix[i])
  {
  }

  /** The download name: the sanitized (defaulted) hatim name followed by
      `_hatim.xlsx`. */
  function FileName(hatimName: string): (r: string)
    ensures |r| == |DisplayName(hatimName)| + |FileSuffix|
    ensures r[|r| - |FileSuffix|..] == FileSuffix
    ensures forall i :: 0 <= i < |r| ==> !UnsafeForFileName(r[i])
    ensures forall i :: (0 <= i < |DisplayName(hatimName)| && !UnsafeForFileName(DisplayName(hatimName)[i]))
              ==> r[i] == DisplayName(hatimName)[i]
    ensures forall i :: (0 <= i < |DisplayName(hatimName)| && UnsafeForFileName(DisplayName(hatimName)[i]))
              ==> r[i] == '_'
  {
    SuffixIsSafe();
    Sanitize(DisplayName(hatimName)) + FileSuffix
  }

  // ---------------------------------------------------------------------
  //  Export

  /** The date the range enumeration sees for a field: `None` when the
      string does not parse. */
  function Parsed(f: DateField): Option<CalendarDate> {
    match f
    case Given(d) => Some(d)
    case _ => None
  }

  /** The days of the chosen range, as `exportExcel` computes them. */
  function ExportDays(h: Hatim): seq<CalendarDate> {
    DatesInRange(Parsed(h.startDate), Parsed(h.endDate))
  }

  /** `exportExcel` up to the library calls: refuses an empty list, a missing
      date, a range without days and a range over 365 days, in that order;
      otherwise builds the matrix and the two names. */
  function ExportWorkbook(h: Hatim): (r: Result<Workbook, ExportError>)
    ensures h.participants == [] ==> r == Err(NoParticipants)
    ensures h.participants != [] && (h.startDate.Blank? || h.endDate.Blank?) ==> r == Err(NoDateRange)
    ensures r.Ok? <==> h.participants != [] && !h.startDate.Blank? && !h.endDate.Blank?
                       && 1 <= |ExportDays(h)| <= MaxExportDays
    ensures (h.participants != [] && !h.startDate.Blank? && !h.endDate.Blank? && ExportDays(h) == [])
              ==> r == Err(EmptyDateRange)
    ensures (h.participants != [] && !h.startDate.Blank? && !h.endDate.Blank? && |ExportDays(h)| > MaxExportDays)
              ==> r == Err(RangeTooLong)
    ensures r.Ok? ==> r.value.rows == Matrix(h.participants, ExportDays(h))
    ensures r.Ok? ==> r.value.sheetName == SheetName(h.hatimName) && r.value.fileName == FileName(h.hatimName)
  {
    if h.participants == [] then Err(NoParticipants)
    else if h.startDate.Blank? || h.endDate.Blank? then Err(NoDateRange)
    else
      var dates := ExportDays(h);
      if |dates| == 0 then Err(EmptyDateRange)
      else if |dates| > MaxExportDays then Err(RangeTooLong)
      else Ok(Workbook(SheetName(h.hatimName), FileName(h.hatimName), Matrix(h.participants, dates)))
  }

  /** A successful export has one row per participant plus the header, one
      column per day plus three, and at most 365 day columns; the day columns
      are the consecutive days from the start date to the end date. */
  lemma ExportShape(h: Hatim)
    requires ExportWorkbook(h).Ok?
    ensures var rows := ExportWorkbook(h).value.rows;
            && |rows| == |h.participants| + 1
            && (forall row :: 0 <= row < |rows| ==> 4 <= |rows[row]| <= 3 + MaxExportDays)
            && h.startDate.Given? && h.endDate.Given?
            && |rows[0]| == 3 + DayNumber(h.endDate.date) - DayNumber(h.startDate.date) + 1
  {
  }

  /** An inverted range yields no days, so the export is refused rather than
      producing a sheet without day columns. */
  lemma InvertedRangeRefused(h: Hatim)
    requires h.participants != [] && h.startDate.Given? && h.endDate.Given?
    requires DayNumber(h.startDate.date) > DayNumber(h.endDate.date)
    ensures ExportWorkbook(h) == Err(EmptyDateRange)
  {
  }

  /** Each day cell of a successful export reads back as the page range of
      that participant on that day. */
  lemma ExportCellsAreDayRanges(h: Hatim, i: nat, d: nat)
    requires ExportWorkbook(h).Ok? && i < |h.participants| && d < |ExportDays(h)|
    ensures ExportWorkbook(h).value.rows[i + 1][3 + d] == Str(RangeLabel(DayRange(h.participants, i, d)))
  {
  }

  // ---------------------------------------------------------------------
  //  Reading a day cell back

  function IndexOf(s: string, c: char): (k: nat)
    ensures k <= |s|
    ensures k < |s| ==> s[k] == c
    ensures forall j :: 0 <= j < k ==> s[j] != c
  {
    if s == [] then 0 else if s[0] == c then 0 else 1 + IndexOf(s[1..], c)
  }

  /** The first occurrence is found. */
  lemma {:induction false} IndexOfFirst(s: string, c: char, k: nat)
    requires k < |s| && s[k] == c
    requires forall j :: 0 <= j < k ==> s[j] != c
    ensures IndexOf(s, c) == k
  {
    if k > 0 {
      IndexOfFirst(s[1..], c, k - 1);
    }
  }

  /** Reads `Sf: start-end` back, for non-negative page numbers. */
  function ParseRangeLabel(s: string): Option<PageRange> {
    if |s| < 4 || s[..4] != "Sf: " then None
    else
      var body := s[4..];
      var k := IndexOf(body, '-');
      if k == |body| || !AllDigits(body[..k]) || !AllDigits(body[k + 1..]) then None
      else Some(PageRange(DigitsToNat(body[..k]), DigitsToNat(body[k + 1..])))
  }

  /** With non-negative page numbers (as every range of a valid list has), a
      day cell names its range unambiguously. */
  lemma RangeLabelRoundTrip(r: PageRange)
    requires 0 <= r.start && 0 <= r.end
    ensures ParseRangeLabel(RangeLabel(r)) == Some(r)
  {
    var a, b := NatToString(r.start), NatToString(r.end);
    var s := RangeLabel(r);
    assert s[4..] == a + "-" + b by {
      assert s[4..][..|a|] == s[4..4 + |a|];
      assert s[4..][|a| + 1..] == s[5 + |a|..];
    }
    ParseLabelParts(s, a, b);
    NatToStringRoundTrip(r.start);
    NatToStringRoundTrip(r.end);
  }

  /** A text made of `Sf: `, digits, a dash and digits reads back as the two
      numbers. */
  lemma ParseLabelParts(s: string, a: string, b: string)
    requires |s| >= 4 && s[..4] == "Sf: " && s[4..] == a + "-" + b
    requires AllDigits(a) && AllDigits(b)
    ensures ParseRangeLabel(s) == Some(PageRange(DigitsToNat(a), DigitsToNat(b)))
  {
    var body := s[4..];
    assert body[|a|] == '-';
    assert body[..|a|] == a;
    assert body[|a| + 1..] == b;
    IndexOfFirst(body, '-', |a|);
  }

  /** Under the allocation invariant every day cell has non-negative page
      numbers, so the round trip above covers every cell of an export. */
  lemma ValidListDayRangesPositive(ps: seq<Participant>, i: nat, d: nat)
    requires Valid(ps) && i < |ps|
    ensures 1 <= DayRange(ps, i, d).start <= DayRange(ps, i, d).end
  {
    BlockWithinBook(ps, i);
    assert d * ps[i].pages >= 0;
  }
}
