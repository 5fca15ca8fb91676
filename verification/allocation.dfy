/**
  The allocation model of the hatim page planner: an ordered list of
  participants sharing a 604-page book. Each participant reads one contiguous
  block whose length is their quota; the blocks follow the list order, so a
  participant's first page is one past the quotas of everyone before them.

  Every mutating operation validates before it changes anything: it returns
  either `Err` (the caller keeps the list it had) or `Ok` with the new list.
 */
module Allocation {
  import opened Results
  import opened Text

  /** `MAX_PAGES`: the number of pages in the book. */
  const MaxPages: int := 604

  /** One entry of the list. `id` is opaque and chosen by the caller. */
  datatype Participant = Participant(id: int, fullName: string, pages: int)

  /** Why an add or an edit was refused. `available` is the number of pages
      the refusal message reports as still usable. */
  datatype AllocError = EmptyName | InvalidPages | CapacityExceeded(available: int)

  /** An inclusive range of absolute page numbers. */
  datatype PageRange = PageRange(start: int, end: int)

  // ---------------------------------------------------------------------
  //  Totals

  /** `totalUsedPages`: the left fold of the quotas. */
  function Total(ps: seq<Participant>): int {
    if ps == [] then 0 else Total(ps[..|ps| - 1]) + ps[|ps| - 1].pages
  }

  /** `remainingPages`. */
  function Remaining(ps: seq<Participant>): (r: int)
    ensures r >= 0 <==> Total(ps) <= MaxPages
    ensures r <= MaxPages <==> Total(ps) >= 0
  {
    MaxPages - Total(ps)
  }

  /** The total of a concatenation is the sum of the totals. */
  lemma {:induction false} TotalConcat(a: seq<Participant>, b: seq<Participant>)
    ensures Total(a + b) == Total(a) + Total(b)
  {
    if b == [] {
      assert a + b == a;
    } else {
      var b' := b[..|b| - 1];
      TotalConcat(a, b');
      assert (a + b)[..|a + b| - 1] == a + b';
    }
  }

  /** The total of a list split around one entry. */
  lemma TotalAround(a: seq<Participant>, x: Participant, b: seq<Participant>)
    ensures Total(a + [x] + b) == Total(a) + x.pages + Total(b)
  {
    TotalConcat(a + [x], b);
    assert (a + [x])[..|a|] == a;
  }

  /** Replacing one entry changes the total by the difference of the quotas. */
  lemma TotalUpdate(ps: seq<Participant>, i: nat, p: Participant)
    requires i < |ps|
    ensures Total(ps[i := p]) == Total(ps) - ps[i].pages + p.pages
  {
    assert ps == ps[..i] + [ps[i]] + ps[i + 1..];
    assert ps[i := p] == ps[..i] + [p] + ps[i + 1..];
    TotalAround(ps[..i], ps[i], ps[i + 1..]);
    TotalAround(ps[..i], p, ps[i + 1..]);
  }

  /** Replacing one entry: the length stays, only that position changes, and
      the total moves by the difference of the quotas. */
  lemma UpdateFacts(ps: seq<Participant>, i: nat, p: Participant)
    requires i < |ps|
    ensures |ps[i := p]| == |ps| && ps[i := p][i] == p
    ensures forall j :: 0 <= j < |ps| && j != i ==> ps[i := p][j] == ps[j]
    ensures Total(ps[i := p]) == Total(ps) - ps[i].pages + p.pages
  {
    TotalUpdate(ps, i, p);
  }

  predicate AllPositive(ps: seq<Participant>) {
    forall i :: 0 <= i < |ps| ==> ps[i].pages >= 1
  }

  /** With positive quotas, every participant accounts for at least one page. */
  lemma {:induction false} TotalAtLeastLength(ps: seq<Participant>)
    requires AllPositive(ps)
    ensures Total(ps) >= |ps|
  {
    if ps != [] {
      TotalAtLeastLength(ps[..|ps| - 1]);
    }
  }

  /** With positive quotas, a prefix never uses more pages than the whole list. */
  lemma PrefixTotalBounded(ps: seq<Participant>, i: nat)
    requires AllPositive(ps) && i <= |ps|
    ensures Total(ps[..i]) <= Total(ps)
  {
    TotalConcat(ps[..i], ps[i..]);
    assert ps[..i] + ps[i..] == ps;
    TotalAtLeastLength(ps[i..]);
  }

  /** The invariant every reachable list keeps: positive quotas, non-empty
      names, distinct ids, and no more pages handed out than the book has. */
  predicate Valid(ps: seq<Participant>) {
    AllPositive(ps) && AllNamed(ps) && DistinctIds(ps) && Total(ps) <= MaxPages
  }

  predicate AllNamed(ps: seq<Participant>) {
    forall i :: 0 <= i < |ps| ==> ps[i].fullName != []
  }

  predicate DistinctIds(ps: seq<Participant>) {
    forall i, j :: 0 <= i < j < |ps| ==> ps[i].id != ps[j].id
  }

  /** Under the invariant the remaining count is never negative and never
      larger than the book minus one page per participant. */
  lemma RemainingBounds(ps: seq<Participant>)
    requires Valid(ps)
    ensures 0 <= Remaining(ps) <= MaxPages - |ps|
  {
    TotalAtLeastLength(ps);
  }

  // ---------------------------------------------------------------------
  //  Start pages and day ranges

  /** Absolute first page of the participant at `i`: one past the quotas of
      everyone before them. */
  function StartPage(ps: seq<Participant>, i: nat): int
    requires i <= |ps|
  {
    1 + Total(ps[..i])
  }

  /** `getPersonStartPage`: the loop that adds up the quotas before `index`. */
  method ComputeStartPage(ps: seq<Participant>, index: nat) returns (start: int)
    requires index <= |ps|
    ensures start == StartPage(ps, index)
    ensures AllPositive(ps) ==> start >= 1 + index
  {
    start := 1;
    var i := 0;
    while i < index
      invariant i <= index
      invariant start == 1 + Total(ps[..i])
    {
      assert ps[..i + 1][..i] == ps[..i];
      start := start + ps[i].pages;
      i := i + 1;
    }
    if AllPositive(ps) {
      TotalAtLeastLength(ps[..index]);
    }
  }

  /** The first participant starts on page 1, and each later one starts right
      after the block of the one before. */
  lemma StartPageRecurrence(ps: seq<Participant>, i: nat)
    requires i < |ps|
    ensures StartPage(ps, 0) == 1
    ensures StartPage(ps, i + 1) == StartPage(ps, i) + ps[i].pages
  {
    assert ps[..i + 1][..i] == ps[..i];
  }

  /** Under the invariant every participant's block lies inside the book; in
      particular the last block ends on page 604 or earlier. */
  lemma BlockWithinBook(ps: seq<Participant>, i: nat)
    requires Valid(ps) && i < |ps|
    ensures 1 <= StartPage(ps, i)
    ensures StartPage(ps, i) + ps[i].pages - 1 <= MaxPages
  {
    StartPageRecurrence(ps, i);
    TotalAtLeastLength(ps[..i]);
    PrefixTotalBounded(ps, i + 1);
  }

  /** `getDayRange`: the pages participant `i` reads on day `d` of the range.
      Each day covers exactly the participant's quota. */
  function DayRange(ps: seq<Participant>, i: nat, d: nat): (r: PageRange)
    requires i < |ps|
    ensures r.end - r.start + 1 == ps[i].pages
    ensures d == 0 ==> r.start == StartPage(ps, i)
  {
    var start := StartPage(ps, i) + d * ps[i].pages;
    PageRange(start, start + ps[i].pages - 1)
  }

  /** Consecutive days of one participant are contiguous. */
  lemma DayRangesContiguous(ps: seq<Participant>, i: nat, d: nat)
    requires i < |ps|
    ensures DayRange(ps, i, d + 1).start == DayRange(ps, i, d).end + 1
  {
    assert (d + 1) * ps[i].pages == d * ps[i].pages + ps[i].pages;
  }

  /** With a positive quota, a participant's day ranges never overlap: an
      earlier day ends before a later day starts. */
  lemma DayRangesDisjoint(ps: seq<Participant>, i: nat, d1: nat, d2: nat)
    requires i < |ps| && ps[i].pages >= 1 && d1 < d2
    ensures DayRange(ps, i, d1).end < DayRange(ps, i, d2).start
  {
    var p := ps[i].pages;
    var k := d2 - d1;
    assert d2 * p == d1 * p + k * p;
    assert k * p == p + (k - 1) * p;
    assert (k - 1) * p >= 0;
  }

  /** The ranges are not clamped to the participant's block: day 0 is the
      whole block, and from day 1 on the range lies past the block's end;
      day 1 starts exactly where the next participant's block starts. */
  lemma DayRangeLeavesOwnBlock(ps: seq<Participant>, i: nat, d: nat)
    requires i < |ps| && ps[i].pages >= 1
    ensures DayRange(ps, i, 0) == PageRange(StartPage(ps, i), StartPage(ps, i) + ps[i].pages - 1)
    ensures d >= 1 ==> DayRange(ps, i, d).start > StartPage(ps, i) + ps[i].pages - 1
    ensures i + 1 < |ps| ==> DayRange(ps, i, 1).start == StartPage(ps, i + 1)
  {
    StartPageRecurrence(ps, i);
    if d >= 1 {
      DayRangesDisjoint(ps, i, 0, d);
    }
  }

  // ---------------------------------------------------------------------
  //  Add and edit

  /** The page-count check of `addParticipant` and `saveEdit`: `parseInt`
      produced a number (`None` is NaN) and it is at least 1. */
  predicate PagesAccepted(pages: Option<int>) {
    pages.Some? && pages.value >= 1
  }

  /** `addParticipant`: the name is trimmed; it is refused when the trimmed
      name is empty, when the page count is missing or below 1, or when it
      would take the total past 604. Otherwise exactly one entry is appended. */
  function Add(ps: seq<Participant>, id: int, rawName: string, pages: Option<int>)
    : (r: Result<seq<Participant>, AllocError>)
    ensures Trim(rawName) == [] ==> r == Err(EmptyName)
    ensures Trim(rawName) != [] && !PagesAccepted(pages) ==> r == Err(InvalidPages)
    ensures (Trim(rawName) != [] && PagesAccepted(pages) && Total(ps) + pages.value > MaxPages)
            ==> r == Err(CapacityExceeded(Remaining(ps)))
    ensures r.Ok? <==> Trim(rawName) != [] && PagesAccepted(pages) && Total(ps) + pages.value <= MaxPages
    ensures r.Ok? ==> |r.value| == |ps| + 1 && r.value[..|ps|] == ps
    ensures r.Ok? ==> r.value[|ps|] == Participant(id, Trim(rawName), pages.value)
    ensures r.Ok? ==> Total(r.value) == Total(ps) + pages.value <= MaxPages
  {
    var name := Trim(rawName);
    if name == [] then Err(EmptyName)
    else if !PagesAccepted(pages) then Err(InvalidPages)
    else if Total(ps) + pages.value > MaxPages then Err(CapacityExceeded(Remaining(ps)))
    else
      var ps' := ps + [Participant(id, name, pages.value)];
      assert ps'[..|ps'| - 1] == ps;
      Ok(ps')
  }

  /** `saveEdit` at `index`: same checks as add, except that the capacity check
      leaves out the edited participant's own current quota. On success only
      that entry's name and quota change; its id and position stay. */
  function Edit(ps: seq<Participant>, index: nat, rawName: string, pages: Option<int>)
    : (r: Result<seq<Participant>, AllocError>)
    requires index < |ps|
    ensures Trim(rawName) == [] ==> r == Err(EmptyName)
    ensures Trim(rawName) != [] && !PagesAccepted(pages) ==> r == Err(InvalidPages)
    ensures (Trim(rawName) != [] && PagesAccepted(pages)
             && Total(ps) - ps[index].pages + pages.value > MaxPages)
            ==> r == Err(CapacityExceeded(MaxPages - (Total(ps) - ps[index].pages)))
    ensures r.Ok? <==> Trim(rawName) != [] && PagesAccepted(pages)
                       && Total(ps) - ps[index].pages + pages.value <= MaxPages
    ensures r.Ok? ==> |r.value| == |ps|
    ensures r.Ok? ==> r.value[index] == Participant(ps[index].id, Trim(rawName), pages.value)
    ensures r.Ok? ==> forall j :: 0 <= j < |ps| && j != index ==> r.value[j] == ps[j]
    ensures r.Ok? ==> Total(r.value) == Total(ps) - ps[index].pages + pages.value <= MaxPages
  {
    var name := Trim(rawName);
    if name == [] then Err(EmptyName)
    else if !PagesAccepted(pages) then Err(InvalidPages)
    else
      var otherPages := Total(ps) - ps[index].pages;
      if otherPages + pages.value > MaxPages then Err(CapacityExceeded(MaxPages - otherPages))
      else
        var p := Participant(ps[index].id, name, pages.value);
        UpdateFacts(ps, index, p);
        Ok(ps[index := p])
  }

  /** Keeping or lowering one's own quota is never blocked by the capacity
      check, whatever the others hold, as long as the list was within the book. */
  lemma EditNeverBlocksKeepingOrLowering(ps: seq<Participant>, index: nat, rawName: string, pages: int)
    requires index < |ps| && Total(ps) <= MaxPages
    requires Trim(rawName) != [] && 1 <= pages <= ps[index].pages
    ensures Edit(ps, index, rawName, Some(pages)).Ok?
  {
  }

  // ---------------------------------------------------------------------
  //  Delete and reorder

  /** `deleteParticipant` (after the user confirmed): removes the entry at
      `index`; the others keep their relative order. */
  function Delete(ps: seq<Participant>, index: nat): (r: seq<Participant>)
    requires index < |ps|
    ensures |r| == |ps| - 1
    ensures forall j :: 0 <= j < index ==> r[j] == ps[j]
    ensures forall j :: index <= j < |r| ==> r[j] == ps[j + 1]
    ensures Total(r) == Total(ps) - ps[index].pages
  {
    assert ps == ps[..index] + [ps[index]] + ps[index + 1..];
    TotalAround(ps[..index], ps[index], ps[index + 1..]);
    TotalConcat(ps[..index], ps[index + 1..]);
    ps[..index] + ps[index + 1..]
  }

  /** After a delete, everyone before the removed entry keeps their start
      page and everyone after it starts earlier by the removed quota. */
  lemma DeleteShiftsStartPages(ps: seq<Participant>, index: nat, j: nat)
    requires index < |ps| && j < |ps| - 1
    ensures j < index ==> StartPage(Delete(ps, index), j) == StartPage(ps, j)
    ensures j >= index ==> StartPage(Delete(ps, index), j) == StartPage(ps, j + 1) - ps[index].pages
  {
    var r := Delete(ps, index);
    if j < index {
      assert r[..j] == ps[..j];
    } else {
      assert r[..j] == ps[..index] + ps[index + 1..j + 1];
      assert ps[..j + 1] == ps[..index] + [ps[index]] + ps[index + 1..j + 1];
      TotalConcat(ps[..index], ps[index + 1..j + 1]);
      TotalConcat(ps[..index] + [ps[index]], ps[index + 1..j + 1]);
      TotalConcat(ps[..index], [ps[index]]);
      assert Total([ps[index]]) == ps[index].pages by {
        assert [ps[index]][..0] == [];
      }
    }
  }

  /** Exchanges the adjacent entries at `i` and `i + 1`. */
  function SwapAdjacent(ps: seq<Participant>, i: nat): (r: seq<Participant>)
    requires i + 1 < |ps|
    ensures |r| == |ps| && r[i] == ps[i + 1] && r[i + 1] == ps[i]
    ensures forall j :: 0 <= j < |ps| && j != i && j != i + 1 ==> r[j] == ps[j]
    ensures multiset(r) == multiset(ps)
    ensures Total(r) == Total(ps)
  {
    var r := ps[..i] + [ps[i + 1], ps[i]] + ps[i + 2..];
    assert ps == ps[..i] + [ps[i], ps[i + 1]] + ps[i + 2..];
    SwapTotal(ps[..i], ps[i], ps[i + 1], ps[i + 2..]);
    r
  }

  lemma SwapTotal(a: seq<Participant>, x: Participant, y: Participant, b: seq<Participant>)
    ensures Total(a + [y, x] + b) == Total(a + [x, y] + b)
  {
    TotalConcat(a + [x, y], b);
    TotalConcat(a, [x, y]);
    TotalConcat(a + [y, x], b);
    TotalConcat(a, [y, x]);
    assert [x, y][..1] == [x];
    assert [y, x][..1] == [y];
  }

  /** `moveUp`: a no-op for the first entry, otherwise swaps with the one above. */
  function MoveUp(ps: seq<Participant>, index: nat): (r: seq<Participant>)
    requires index < |ps|
    ensures |r| == |ps|
    ensures index == 0 ==> r == ps
    ensures index > 0 ==> r[index - 1] == ps[index] && r[index] == ps[index - 1]
    ensures forall j :: 0 <= j < |ps| && j != index && j + 1 != index ==> r[j] == ps[j]
    ensures multiset(r) == multiset(ps) && Total(r) == Total(ps)
  {
    if index == 0 then ps else SwapAdjacent(ps, index - 1)
  }

  /** `moveDown`: a no-op for the last entry, otherwise swaps with the one below. */
  function MoveDown(ps: seq<Participant>, index: nat): (r: seq<Participant>)
    requires index < |ps|
    ensures |r| == |ps|
    ensures index == |ps| - 1 ==> r == ps
    ensures index < |ps| - 1 ==> r[index + 1] == ps[index] && r[index] == ps[index + 1]
    ensures forall j :: 0 <= j < |ps| && j != index && j != index + 1 ==> r[j] == ps[j]
    ensures multiset(r) == multiset(ps) && Total(r) == Total(ps)
  {
    if index == |ps| - 1 then ps else SwapAdjacent(ps, index)
  }

  /** Moving an entry up and then moving it back down restores the list,
      and so does the opposite order. */
  lemma MoveUpThenDownRestores(ps: seq<Participant>, i: nat)
    requires 0 < i < |ps|
    ensures MoveDown(MoveUp(ps, i), i - 1) == ps
    ensures MoveUp(MoveDown(ps, i - 1), i) == ps
  {
  }

  /** A swap moves only the two swapped blocks: everyone else keeps their
      start page. */
  lemma SwapKeepsOtherStartPages(ps: seq<Participant>, i: nat, j: nat)
    requires i + 1 < |ps| && j <= |ps| && j != i + 1
    ensures StartPage(SwapAdjacent(ps, i), j) == StartPage(ps, j)
  {
    var r := SwapAdjacent(ps, i);
    if j <= i {
      assert r[..j] == ps[..j];
    } else {
      assert r[..j] == ps[..i] + [ps[i + 1], ps[i]] + ps[i + 2..j];
      assert ps[..j] == ps[..i] + [ps[i], ps[i + 1]] + ps[i + 2..j];
      SwapTotal(ps[..i], ps[i], ps[i + 1], ps[i + 2..j]);
    }
  }

  // ---------------------------------------------------------------------
  //  The list as a state machine

  /** The user actions that change the list. */
  datatype Command =
    | AddCmd(id: int, rawName: string, pages: Option<int>)
    | EditCmd(index: nat, rawName: string, pages: Option<int>)
    | DeleteCmd(index: nat)
    | MoveUpCmd(index: nat)
    | MoveDownCmd(index: nat)

  /** A command the interface can issue against `ps`: index commands come from
      a rendered row, and an added entry gets an id no entry already has. */
  predicate Applicable(ps: seq<Participant>, cmd: Command) {
    match cmd
    case AddCmd(id, _, _) => forall j :: 0 <= j < |ps| ==> ps[j].id != id
    case EditCmd(index, _, _) => index < |ps|
    case DeleteCmd(index) => index < |ps|
    case MoveUpCmd(index) => index < |ps|
    case MoveDownCmd(index) => index < |ps|
  }

  /** The list after one command; a refused add or edit leaves it unchanged. */
  function Step(ps: seq<Participant>, cmd: Command): seq<Participant>
    requires Applicable(ps, cmd)
  {
    match cmd
    case AddCmd(id, rawName, pages) =>
      (match Add(ps, id, rawName, pages) case Ok(ps') => ps' case Err(_) => ps)
    case EditCmd(index, rawName, pages) =>
      (match Edit(ps, index, rawName, pages) case Ok(ps') => ps' case Err(_) => ps)
    case DeleteCmd(index) => Delete(ps, index)
    case MoveUpCmd(index) => MoveUp(ps, index)
    case MoveDownCmd(index) => MoveDown(ps, index)
  }

  /** Every command keeps the invariant. */
  lemma StepPreservesValid(ps: seq<Participant>, cmd: Command)
    requires Valid(ps) && Applicable(ps, cmd)
    ensures Valid(Step(ps, cmd))
  {
    match cmd
    case AddCmd(id, rawName, pages) =>
      AddPreservesValid(ps, id, rawName, pages);
    case EditCmd(index, rawName, pages) =>
      EditPreservesValid(ps, index, rawName, pages);
    case DeleteCmd(index) =>
      DeletePreservesValid(ps, index);
    case MoveUpCmd(index) =>
      if index > 0 { SwapPreservesValid(ps, index - 1); }
    case MoveDownCmd(index) =>
      if index < |ps| - 1 { SwapPreservesValid(ps, index); }
  }

  lemma AddPreservesValid(ps: seq<Participant>, id: int, rawName: string, pages: Option<int>)
    requires Valid(ps) && forall j :: 0 <= j < |ps| ==> ps[j].id != id
    ensures Add(ps, id, rawName, pages).Ok? ==> Valid(Add(ps, id, rawName, pages).value)
  {
    var r := Add(ps, id, rawName, pages);
    if r.Ok? {
      AppendPreservesValid(ps, r.value[|ps|]);
      assert r.value == ps + [r.value[|ps|]];
    }
  }

  lemma AppendPreservesValid(ps: seq<Participant>, p: Participant)
    requires Valid(ps) && p.pages >= 1 && p.fullName != []
    requires forall j :: 0 <= j < |ps| ==> ps[j].id != p.id
    requires Total(ps + [p]) <= MaxPages
    ensures Valid(ps + [p])
  {
    AppendKeepsEntries(ps, p);
    AppendKeepsDistinctIds(ps, p);
  }

  lemma AppendKeepsEntries(ps: seq<Participant>, p: Participant)
    requires AllPositive(ps) && AllNamed(ps) && p.pages >= 1 && p.fullName != []
    ensures AllPositive(ps + [p]) && AllNamed(ps + [p])
  {
    var v := ps + [p];
    forall i | 0 <= i < |v|
      ensures v[i].pages >= 1 && v[i].fullName != []
    {
      if i < |ps| { assert v[i] == ps[i]; }
    }
  }

  lemma AppendKeepsDistinctIds(ps: seq<Participant>, p: Participant)
    requires DistinctIds(ps)
    requires forall j :: 0 <= j < |ps| ==> ps[j].id != p.id
    ensures DistinctIds(ps + [p])
  {
    var v := ps + [p];
    forall i, j | 0 <= i < j < |v|
      ensures v[i].id != v[j].id
    {
      assert v[i] == ps[i];
      if j < |ps| { assert v[j] == ps[j]; }
    }
  }

  lemma EditPreservesValid(ps: seq<Participant>, index: nat, rawName: string, pages: Option<int>)
    requires Valid(ps) && index < |ps|
    ensures Edit(ps, index, rawName, pages).Ok? ==> Valid(Edit(ps, index, rawName, pages).value)
  {
    var r := Edit(ps, index, rawName, pages);
    if r.Ok? {
      var p := r.value[index];
      assert r.value == ps[index := p];
      UpdatePreservesValid(ps, index, p);
    }
  }

  lemma UpdatePreservesValid(ps: seq<Participant>, index: nat, p: Participant)
    requires Valid(ps) && index < |ps|
    requires p.id == ps[index].id && p.pages >= 1 && p.fullName != []
    requires Total(ps[index := p]) <= MaxPages
    ensures Valid(ps[index := p])
  {
    var v := ps[index := p];
    forall i, j | 0 <= i < j < |v|
      ensures v[i].id != v[j].id
    {
      assert v[i].id == ps[i].id && v[j].id == ps[j].id;
    }
  }

  lemma DeletePreservesValid(ps: seq<Participant>, index: nat)
    requires Valid(ps) && index < |ps|
    ensures Valid(Delete(ps, index))
  {
    var r := Delete(ps, index);
    forall i, j | 0 <= i < j < |r|
      ensures r[i].id != r[j].id
    {
      var i' := if i < index then i else i + 1;
      var j' := if j < index then j else j + 1;
      assert r[i] == ps[i'] && r[j] == ps[j'] && i' < j';
    }
    forall i | 0 <= i < |r|
      ensures r[i].pages >= 1 && r[i].fullName != []
    {
      assert r[i] == ps[if i < index then i else i + 1];
    }
    TotalAtLeastLength([ps[index]]);
  }

  lemma SwapPreservesValid(ps: seq<Participant>, i: nat)
    requires Valid(ps) && i + 1 < |ps|
    ensures Valid(SwapAdjacent(ps, i))
  {
    var r := SwapAdjacent(ps, i);
    forall a, b | 0 <= a < b < |r|
      ensures r[a].id != r[b].id
    {
      var a' := if a == i then i + 1 else if a == i + 1 then i else a;
      var b' := if b == i then i + 1 else if b == i + 1 then i else b;
      assert r[a] == ps[a'] && r[b] == ps[b'] && a' != b';
    }
  }

  /** A sequence of commands each applicable in the state it meets. */
  predicate Admissible(ps: seq<Participant>, cmds: seq<Command>)
    decreases |cmds|
  {
    cmds == [] || (Applicable(ps, cmds[0]) && Admissible(Step(ps, cmds[0]), cmds[1..]))
  }

  function Run(ps: seq<Participant>, cmds: seq<Command>): seq<Participant>
    requires Admissible(ps, cmds)
    decreases |cmds|
  {
    if cmds == [] then ps else Run(Step(ps, cmds[0]), cmds[1..])
  }

  /** Every list reachable from a valid one, in particular from the empty list
      a new hatim starts with, satisfies the invariant. */
  lemma {:induction false} RunPreservesValid(ps: seq<Participant>, cmds: seq<Command>)
    requires Valid(ps) && Admissible(ps, cmds)
    ensures Valid(Run(ps, cmds))
    decreases |cmds|
  {
    if cmds != [] {
      StepPreservesValid(ps, cmds[0]);
      RunPreservesValid(Step(ps, cmds[0]), cmds[1..]);
    }
  }
}
