/** COPY FROM: rows of several files, one item at a time, gathered into batches. */
module CopyFrom {
  import opened Base
  import opened Values
  import opened Framing
  import opened Streaming
  import opened Columns
  import opened Rows

  /** A source: an object that can be opened, or one that cannot. */
  datatype Location = Opens(store: Store) | Unopenable

  /** What is left to read of a source: bytes, or a failing open. */
  datatype Feed = Feed(bytes: Bytes) | Broken

  function FeedOf(loc: Location): Feed {
    if loc.Opens? then Feed(loc.store.data) else Broken
  }

  /** The feeds of a list kept in reverse order. */
  function Forward(pending: seq<Location>): (r: seq<Feed>)
    ensures |r| == |pending|
  {
    seq(|pending|, i requires 0 <= i < |pending| => FeedOf(pending[|pending| - 1 - i]))
  }

  /** The next source is the last of the list. */
  lemma ForwardPop(pending: seq<Location>)
    requires |pending| > 0
    ensures Forward(pending) == [FeedOf(pending[|pending| - 1])] + Forward(pending[..|pending| - 1])
  {
  }

  lemma NothingPending()
    ensures Forward([]) == []
  {
  }

  /** The options of one COPY FROM, with the number of rows a batch gathers. */
  datatype Job = Job(
    pf: Platform, wire: Wire, schema: seq<Field>, shape: RowShape, ignoreErrors: bool, batchRows: nat) {
    ghost predicate Valid() {
      wire.Lawful() && |schema| > 0 && batchRows > 0
    }

    function Decoder(): Parser<Cbor> {
      wire.Item(pf)
    }

    /** The rows in the open batch after one more: a full batch is sent off. */
    function Filled(open: nat): nat {
      if open + 1 == batchRows then 0 else open + 1
    }
  }

  // ---- The next row ----

  datatype RowEvent = Row(item: Cbor) | OpenFailed | DecodeFailed | Done

  /** One row over all feeds, and the feeds after it. A decode failure drops all that follows; a failing open does
      not. */
  ghost function NextRowOf(dec: Parser<Cbor>, feeds: seq<Feed>): (RowEvent, seq<Feed>) {
    if |feeds| == 0 then (Done, [])
    else if feeds[0].Broken? then (OpenFailed, feeds[1..])
    else
      match Step(dec, feeds[0].bytes, 0)
      case (End, _, _) => NextRowOf(dec, feeds[1..])
      case (Item(v), rest, _) => (Row(v), [Feed(rest)] + feeds[1..])
      case (Error(_), _, _) => (DecodeFailed, [])
  }

  ghost function Weight(feeds: seq<Feed>): nat {
    if |feeds| == 0 then 0
    else 1 + (if feeds[0].Feed? then |feeds[0].bytes| else 0) + Weight(feeds[1..])
  }

  lemma {:induction false} NextRowLighter(dec: Parser<Cbor>, feeds: seq<Feed>)
    requires SelfDelimiting(dec)
    ensures var (event, rest) := NextRowOf(dec, feeds);
            if event.Done? then rest == [] else Weight(rest) < Weight(feeds) && (event.DecodeFailed? ==> rest == [])
  {
    if |feeds| > 0 && feeds[0].Feed? {
      var bs := feeds[0].bytes;
      assert Progress(dec, bs);
      if bs == [] {
        NextRowLighter(dec, feeds[1..]);
      } else if dec(bs).Got? {
        var rest := dec(bs).rest;
        assert ([Feed(rest)] + feeds[1..])[1..] == feeds[1..];
      }
    }
  }

  /** Every row takes something off the feeds. */
  lemma JobLighter(job: Job, feeds: seq<Feed>)
    requires job.Valid()
    ensures var (event, rest) := NextRowOf(job.Decoder(), feeds);
            if event.Done? then rest == [] else Weight(rest) < Weight(feeds) && (event.DecodeFailed? ==> rest == [])
  {
    ItemDelimited(job.wire, job.pf);
    NextRowLighter(job.Decoder(), feeds);
  }

  // ---- One batch ----

  datatype Gathered = Gathered(rows: Outcome<seq<Cbor>>, left: seq<Feed>)

  /** The row items of one batch, at most `room`. With `ignoreErrors` an unusable item is skipped, and any failure
      ends the batch; without, each of them refuses the batch. */
  ghost function Gather(job: Job, feeds: seq<Feed>, room: nat): Gathered
    requires job.Valid()
    decreases Weight(feeds)
  {
    JobLighter(job, feeds);
    var (event, rest) := NextRowOf(job.Decoder(), feeds);
    if room == 0 then Gathered(Ok([]), feeds)
    else if event.Row? && Usable(job.shape, event.item) then
      var more := Gather(job, rest, room - 1);
      Gathered(if more.rows.Ok? then Ok([event.item] + more.rows.value) else Refused, more.left)
    else if event.Row? && job.ignoreErrors then Gather(job, rest, room)
    else if event.Done? || (!event.Row? && job.ignoreErrors) then Gathered(Ok([]), rest)
    else Gathered(Refused, rest)
  }

  function Read(job: Job, rows: seq<Cbor>): Outcome<seq<seq<Cell>>> {
    ReadRows(job.pf, job.schema, job.shape, rows)
  }

  /** The rows that can be read on their own. */
  function KeptRows(job: Job, rows: seq<Cbor>): seq<seq<Cell>> {
    if |rows| == 0 then [] else
      var row := ReadRow(job.pf, job.schema, job.shape, rows[0]);
      (if row.Ok? then [row.value] else []) + KeptRows(job, rows[1..])
  }

  datatype Emitted = Emit(rows: seq<seq<Cell>>) | NoMore | Failure

  /** What becomes of gathered rows: without `ignoreErrors`, all of them or a failure; with it, those that can be
      read. */
  function EmittedFor(job: Job, rows: Outcome<seq<Cbor>>): Emitted {
    if rows.Refused? then Failure
    else if rows.value == [] then NoMore
    else if job.ignoreErrors then Emit(KeptRows(job, rows.value))
    else
      match Read(job, rows.value)
      case Ok(cells) => Emit(cells)
      case Refused => Failure
  }

  /** What one call of `next_batch` emits, and what is left afterwards. */
  ghost function NextBatchOf(job: Job, feeds: seq<Feed>): (Emitted, seq<Feed>)
    requires job.Valid()
  {
    var g := Gather(job, feeds, job.batchRows);
    (EmittedFor(job, g.rows), g.left)
  }

  lemma {:induction false} GatherLighter(job: Job, feeds: seq<Feed>, room: nat)
    requires job.Valid()
    ensures var g := Gather(job, feeds, room);
            Weight(g.left) <= Weight(feeds) && (g.rows.Ok? && |g.rows.value| > 0 ==> Weight(g.left) < Weight(feeds))
    decreases Weight(feeds)
  {
    JobLighter(job, feeds);
    hide SelfDelimiting, NextRowOf;
    var (event, rest) := NextRowOf(job.Decoder(), feeds);
    if room > 0 && event.Row? {
      if Usable(job.shape, event.item) {
        GatherLighter(job, rest, room - 1);
      } else if job.ignoreErrors {
        GatherLighter(job, rest, room);
      }
    }
  }

  /** All batches of a run, or its failure. */
  ghost function RunOf(job: Job, feeds: seq<Feed>): Outcome<seq<seq<Cell>>>
    requires job.Valid()
    decreases Weight(feeds)
  {
    GatherLighter(job, feeds, job.batchRows);
    match NextBatchOf(job, feeds)
    case (NoMore, _) => Ok([])
    case (Failure, _) => Refused
    case (Emit(rows), left) =>
      var more :- RunOf(job, left);
      Ok(rows + more)
  }

  // ---- A run by rows instead of batches ----

  /** The row as a list of one, or none when it cannot be read. */
  function Readable(job: Job, item: Cbor): seq<seq<Cell>> {
    var row := ReadRow(job.pf, job.schema, job.shape, item);
    if row.Ok? then [row.value] else []
  }

  /** What a run that ignores errors loads, row by row; `open` counts the rows in the batch being gathered. A source
      that cannot be opened ends the run exactly when that batch is empty. */
  ghost function Survivors(job: Job, feeds: seq<Feed>, open: nat): seq<seq<Cell>>
    requires job.Valid()
    decreases Weight(feeds)
  {
    JobLighter(job, feeds);
    match NextRowOf(job.Decoder(), feeds)
    case (Row(item), rest) =>
      if Usable(job.shape, item) then Readable(job, item) + Survivors(job, rest, job.Filled(open))
      else Survivors(job, rest, open)
    case (OpenFailed, rest) => if open == 0 then [] else Survivors(job, rest, 0)
    case _ => []
  }

  lemma KeptFirst(job: Job, item: Cbor, rows: seq<Cbor>)
    ensures KeptRows(job, [item] + rows) == Readable(job, item) + KeptRows(job, rows)
  {
    hide ReadRow;
    assert ([item] + rows)[1..] == rows;
  }

  /** What survives once a batch is gathered: after an empty one, nothing. */
  ghost function Onward(job: Job, left: seq<Feed>, gathered: nat): seq<seq<Cell>>
    requires job.Valid()
  {
    if gathered == 0 then [] else Survivors(job, left, 0)
  }

  lemma {:induction false} GatherSurvivors(job: Job, feeds: seq<Feed>, room: nat)
    requires job.Valid() && job.ignoreErrors && 0 < room <= job.batchRows
    ensures var g := Gather(job, feeds, room);
            var open := job.batchRows - room;
            && g.rows.Ok?
            && Survivors(job, feeds, open)
               == KeptRows(job, g.rows.value) + Onward(job, g.left, open + |g.rows.value|)
    decreases Weight(feeds)
  {
    hide *;
    JobLighter(job, feeds);
    var open := job.batchRows - room;
    var (event, rest) := NextRowOf(job.Decoder(), feeds);
    if event.Row? && Usable(job.shape, event.item) {
      StepRow(job, feeds, room, event.item, rest);
      var more := Gather(job, rest, room - 1);
      if room > 1 {
        GatherSurvivors(job, rest, room - 1);
      } else {
        LastRoom(job, rest);
      }
      KeptOnward(job, event.item, more.rows.value, more.left, open);
    } else if event.Row? {
      StepSkip(job, feeds, room, event.item, rest);
      GatherSurvivors(job, rest, room);
    } else {
      StepStop(job, feeds, room, event, rest);
    }
  }

  lemma KeptOnward(job: Job, item: Cbor, rows: seq<Cbor>, left: seq<Feed>, open: nat)
    requires job.Valid()
    ensures KeptRows(job, [item] + rows) + Onward(job, left, open + |[item] + rows|)
            == Readable(job, item) + (KeptRows(job, rows) + Onward(job, left, open + 1 + |rows|))
  {
    KeptFirst(job, item, rows);
    hide *;
  }

  lemma StepRow(job: Job, feeds: seq<Feed>, room: nat, item: Cbor, rest: seq<Feed>)
    requires job.Valid() && 0 < room <= job.batchRows
    requires (Row(item), rest) == NextRowOf(job.Decoder(), feeds) && Usable(job.shape, item)
    ensures var more := Gather(job, rest, room - 1);
            Gather(job, feeds, room)
            == Gathered(if more.rows.Ok? then Ok([item] + more.rows.value) else Refused, more.left)
    ensures Survivors(job, feeds, job.batchRows - room)
            == Readable(job, item) + Survivors(job, rest, if room == 1 then 0 else job.batchRows - room + 1)
  {
    hide SelfDelimiting, NextRowOf, Weight, Readable, Usable;
  }

  lemma StepSkip(job: Job, feeds: seq<Feed>, room: nat, item: Cbor, rest: seq<Feed>)
    requires job.Valid() && job.ignoreErrors && 0 < room <= job.batchRows
    requires (Row(item), rest) == NextRowOf(job.Decoder(), feeds) && !Usable(job.shape, item)
    ensures Gather(job, feeds, room) == Gather(job, rest, room)
    ensures Survivors(job, feeds, job.batchRows - room) == Survivors(job, rest, job.batchRows - room)
  {
    hide SelfDelimiting, NextRowOf, Weight, Readable, Usable;
  }

  lemma StepStop(job: Job, feeds: seq<Feed>, room: nat, event: RowEvent, rest: seq<Feed>)
    requires job.Valid() && job.ignoreErrors && 0 < room <= job.batchRows && !event.Row?
    requires (event, rest) == NextRowOf(job.Decoder(), feeds)
    ensures Gather(job, feeds, room) == Gathered(Ok([]), rest)
    ensures Survivors(job, feeds, job.batchRows - room) == KeptRows(job, []) + Onward(job, rest, job.batchRows - room)
  {
    JobLighter(job, feeds);
    hide SelfDelimiting, NextRowOf, Weight, Readable, Usable;
    if !event.OpenFailed? {
      NoFeeds(job);
    }
  }

  lemma LastRoom(job: Job, rest: seq<Feed>)
    requires job.Valid()
    ensures Gather(job, rest, 0) == Gathered(Ok([]), rest)
    ensures Survivors(job, rest, 0) == KeptRows(job, []) + Onward(job, rest, job.batchRows)
  {
    hide SelfDelimiting, NextRowOf, Weight, Readable, Usable;
  }

  lemma NoFeeds(job: Job)
    requires job.Valid()
    ensures Survivors(job, [], 0) == []
  {
  }

  lemma NothingKept(job: Job)
    ensures KeptRows(job, []) == []
  {
  }

  /** With `ignore_errors`, a run never fails, and loads the survivors. */
  lemma {:induction false} RunSurvives(job: Job, feeds: seq<Feed>)
    requires job.Valid() && job.ignoreErrors
    ensures RunOf(job, feeds) == Ok(Survivors(job, feeds, 0))
    decreases Weight(feeds)
  {
    GatherSurvivors(job, feeds, job.batchRows);
    GatherLighter(job, feeds, job.batchRows);
    NothingKept(job);
    hide Gather, Survivors, Weight, KeptRows;
    assert Onward(job, feeds, 0) == [];
    var g := Gather(job, feeds, job.batchRows);
    if |g.rows.value| > 0 {
      RunSurvives(job, g.left);
    }
  }

  // ---- Closed forms ----

  datatype End = Clean | Malformed | Unopened(rest: seq<Feed>)

  /** The items up to the first bad item or the first source that cannot be opened. */
  datatype Stretch = Stretch(items: seq<Cbor>, end: End)

  ghost function Flow(dec: Parser<Cbor>, feeds: seq<Feed>): Stretch
    requires SelfDelimiting(dec)
  {
    if |feeds| == 0 then Stretch([], Clean)
    else if feeds[0].Broken? then Stretch([], Unopened(feeds[1..]))
    else
      var parse := Items(dec, feeds[0].bytes, 0);
      if parse.error.Some? then Stretch(parse.items, Malformed)
      else
        var more := Flow(dec, feeds[1..]);
        Stretch(parse.items + more.items, more.end)
  }

  lemma {:induction false} ItemsRenumbered(dec: Parser<Cbor>, bs: Bytes, i: nat, j: nat)
    requires SelfDelimiting(dec)
    ensures Items(dec, bs, i).items == Items(dec, bs, j).items
    ensures Items(dec, bs, i).error.None? <==> Items(dec, bs, j).error.None?
    decreases |bs|
  {
    if bs != [] && dec(bs).Got? {
      assert Progress(dec, bs);
      ItemsRenumbered(dec, dec(bs).rest, i + 1, j + 1);
    }
  }

  /** The flow goes on row by row. */
  lemma {:induction false} FlowStep(dec: Parser<Cbor>, feeds: seq<Feed>)
    requires SelfDelimiting(dec)
    ensures var (event, rest) := NextRowOf(dec, feeds);
            match event
            case Row(item) => Flow(dec, feeds) == Stretch([item] + Flow(dec, rest).items, Flow(dec, rest).end)
            case OpenFailed => Flow(dec, feeds) == Stretch([], Unopened(rest))
            case DecodeFailed => Flow(dec, feeds) == Stretch([], Malformed)
            case Done => Flow(dec, feeds) == Stretch([], Clean)
  {
    if |feeds| > 0 && feeds[0].Feed? {
      var bs := feeds[0].bytes;
      if bs == [] {
        FlowStep(dec, feeds[1..]);
      } else if dec(bs).Got? {
        var rest := dec(bs).rest;
        assert Progress(dec, bs);
        ItemsRenumbered(dec, rest, 0, 1);
        var after := [Feed(rest)] + feeds[1..];
        assert after[1..] == feeds[1..];
        assert NextRowOf(dec, feeds) == (Row(dec(bs).value), after);
      }
    }
  }

  function UsableOf(shape: RowShape, items: seq<Cbor>): seq<Cbor> {
    if |items| == 0 then []
    else (if Usable(shape, items[0]) then [items[0]] else []) + UsableOf(shape, items[1..])
  }

  ghost function FlowOf(job: Job, feeds: seq<Feed>): Stretch
    requires job.Valid()
  {
    ItemDelimited(job.wire, job.pf);
    Flow(job.Decoder(), feeds)
  }

  lemma FlowOfStep(job: Job, feeds: seq<Feed>)
    requires job.Valid()
    ensures var (event, rest) := NextRowOf(job.Decoder(), feeds);
            match event
            case Row(item) => FlowOf(job, feeds) == Stretch([item] + FlowOf(job, rest).items, FlowOf(job, rest).end)
            case OpenFailed => FlowOf(job, feeds) == Stretch([], Unopened(rest))
            case DecodeFailed => FlowOf(job, feeds) == Stretch([], Malformed)
            case Done => FlowOf(job, feeds) == Stretch([], Clean)
  {
    ItemDelimited(job.wire, job.pf);
    FlowStep(job.Decoder(), feeds);
  }

  /** What a run goes on with after a stretch of `gathered` rows since the last empty batch. */
  ghost function AfterStretch(job: Job, end: End, gathered: nat): seq<seq<Cell>>
    requires job.Valid()
  {
    if end.Unopened? && gathered % job.batchRows != 0 then Survivors(job, end.rest, 0) else []
  }

  lemma FilledModulo(n: nat, open: nat, more: nat)
    requires open < n
    ensures ((if open + 1 == n then 0 else open + 1) + more) % n == (open + 1 + more) % n
  {
    hide *;
    if open + 1 == n {
      WholeTurn(n, more);
    }
  }

  lemma WholeTurn(n: int, k: int)
    requires n > 0 && k >= 0
    ensures (n + k) % n == k % n
  {
    hide *;
    var d := (n + k) / n - k / n - 1;
    assert n + k == n * ((n + k) / n) + (n + k) % n;
    assert k == n * (k / n) + k % n;
    assert n * d == k % n - (n + k) % n;
    assert d >= 1 ==> n * d >= n;
    assert d <= -1 ==> n * d <= -n;
  }

  lemma StretchRow(job: Job, item: Cbor, items: seq<Cbor>, end: End, open: nat)
    requires job.Valid() && open < job.batchRows && Usable(job.shape, item)
    ensures var all, some := UsableOf(job.shape, [item] + items), UsableOf(job.shape, items);
            KeptRows(job, all) + AfterStretch(job, end, open + |all|)
            == Readable(job, item)
               + (KeptRows(job, some)
                  + AfterStretch(job, end, (if open + 1 == job.batchRows then 0 else open + 1) + |some|))
  {
    hide Usable, Survivors, Readable, KeptRows, MpCodec.Lawful;
    var some := UsableOf(job.shape, items);
    FilledModulo(job.batchRows, open, |some|);
    assert ([item] + items)[1..] == items;
    KeptFirst(job, item, some);
  }

  lemma StretchSkip(job: Job, item: Cbor, items: seq<Cbor>)
    requires !Usable(job.shape, item)
    ensures UsableOf(job.shape, [item] + items) == UsableOf(job.shape, items)
  {
    assert ([item] + items)[1..] == items;
  }

  lemma StretchEnd(job: Job, feeds: seq<Feed>, open: nat)
    requires job.Valid() && job.ignoreErrors && open < job.batchRows && !NextRowOf(job.Decoder(), feeds).0.Row?
    ensures Survivors(job, feeds, open) == KeptRows(job, []) + AfterStretch(job, FlowOf(job, feeds).end, open)
    ensures FlowOf(job, feeds).items == []
  {
    hide NextRowOf, Flow, SelfDelimiting, Weight, UsableOf;
    FlowOfStep(job, feeds);
  }

  lemma {:induction false} SurvivorsByStretch(job: Job, feeds: seq<Feed>, open: nat)
    requires job.Valid() && job.ignoreErrors && open < job.batchRows
    ensures var stretch := FlowOf(job, feeds);
            var used := UsableOf(job.shape, stretch.items);
            Survivors(job, feeds, open) == KeptRows(job, used) + AfterStretch(job, stretch.end, open + |used|)
    decreases Weight(feeds)
  {
    hide *;
    JobLighter(job, feeds);
    FlowOfStep(job, feeds);
    var (event, rest) := NextRowOf(job.Decoder(), feeds);
    var room := job.batchRows - open;
    if event.Row? && Usable(job.shape, event.item) {
      StepRow(job, feeds, room, event.item, rest);
      SurvivorsByStretch(job, rest, if room == 1 then 0 else open + 1);
      StretchRow(job, event.item, FlowOf(job, rest).items, FlowOf(job, rest).end, open);
    } else if event.Row? {
      StepSkip(job, feeds, room, event.item, rest);
      SurvivorsByStretch(job, rest, open);
      StretchSkip(job, event.item, FlowOf(job, rest).items);
    } else {
      StretchEnd(job, feeds, open);
      NoneUsable(job.shape);
    }
  }

  lemma NoneUsable(shape: RowShape)
    ensures UsableOf(shape, []) == []
  {
  }

  /** A run that ignores errors loads, in order, the rows that fit the shape and the column types, of all sources up to
      the first malformed item, and this for any batch size. A source that cannot be opened is passed over when rows
      are waiting in a batch, and ends the run when none are: when the usable rows before it fill whole batches. */
  lemma IgnoringRun(job: Job, feeds: seq<Feed>)
    requires job.Valid() && job.ignoreErrors
    ensures var stretch := FlowOf(job, feeds);
            var used := UsableOf(job.shape, stretch.items);
            if stretch.end.Unopened? && |used| % job.batchRows != 0
            then RunOf(job, stretch.end.rest).Ok?
                 && RunOf(job, feeds) == Ok(KeptRows(job, used) + RunOf(job, stretch.end.rest).value)
            else RunOf(job, feeds) == Ok(KeptRows(job, used))
  {
    hide FlowOf, Survivors, KeptRows, RunOf, UsableOf, Wire.Lawful;
    RunSurvives(job, feeds);
    SurvivorsByStretch(job, feeds, 0);
    var kept := KeptRows(job, UsableOf(job.shape, FlowOf(job, feeds).items));
    assert kept + [] == kept;
    if FlowOf(job, feeds).end.Unopened? {
      RunSurvives(job, FlowOf(job, feeds).end.rest);
    }
  }

  /** With every source openable, the batch size makes no difference. */
  lemma IgnoringRunAllOpen(job: Job, feeds: seq<Feed>)
    requires job.Valid() && job.ignoreErrors && Broken !in feeds
    ensures RunOf(job, feeds) == Ok(KeptRows(job, UsableOf(job.shape, FlowOf(job, feeds).items)))
  {
    hide RunOf, KeptRows, UsableOf;
    IgnoringRun(job, feeds);
    ItemDelimited(job.wire, job.pf);
    OpenFlow(job.Decoder(), feeds);
  }

  lemma {:induction false} OpenFlow(dec: Parser<Cbor>, feeds: seq<Feed>)
    requires SelfDelimiting(dec)
    ensures Broken !in feeds ==> !Flow(dec, feeds).end.Unopened?
    ensures Flow(dec, feeds).end.Clean? ==> Broken !in feeds
  {
    if |feeds| > 0 {
      OpenFlow(dec, feeds[1..]);
      assert feeds == [feeds[0]] + feeds[1..];
    }
  }

  /** A first source that cannot be opened loses every other source, although errors are ignored. */
  lemma UnopenableFirst(job: Job, feeds: seq<Feed>)
    requires job.Valid() && job.ignoreErrors
    ensures RunOf(job, [Broken] + feeds) == Ok([])
  {
    hide RunOf;
    IgnoringRun(job, [Broken] + feeds);
  }

  // ---- A run that does not ignore errors ----

  /** What a stretch loads when nothing is ignored: every item, or nothing. */
  ghost function Strict(job: Job, stretch: Stretch): Outcome<seq<seq<Cell>>> {
    if stretch.end.Clean? && (forall item | item in stretch.items :: Usable(job.shape, item))
    then Read(job, stretch.items) else Refused
  }

  lemma ReadRowsCons(job: Job, item: Cbor, rows: seq<Cbor>)
    ensures var row, more := ReadRow(job.pf, job.schema, job.shape, item), Read(job, rows);
            Read(job, [item] + rows) == if row.Ok? && more.Ok? then Ok([row.value] + more.value) else Refused
  {
    hide ReadRow;
    assert ([item] + rows)[1..] == rows;
  }

  /** Two lists of rows read one after the other. */
  lemma {:induction false} ReadRowsAppend(job: Job, xs: seq<Cbor>, ys: seq<Cbor>)
    ensures Read(job, xs + ys) == if Read(job, xs).Ok? && Read(job, ys).Ok?
                                  then Ok(Read(job, xs).value + Read(job, ys).value) else Refused
    decreases |xs|
  {
    hide *;
    if |xs| == 0 {
      assert xs == [] && xs + ys == ys;
      NothingRead(job);
      assert Read(job, ys).Ok? ==> [] + Read(job, ys).value == Read(job, ys).value;
    } else {
      var item, rest := xs[0], xs[1..];
      assert xs == [item] + rest && xs + ys == [item] + (rest + ys);
      ReadRowsAppend(job, rest, ys);
      ReadRowsCons(job, item, rest);
      ReadRowsCons(job, item, rest + ys);
      var row := ReadRow(job.pf, job.schema, job.shape, item);
      assert row.Ok? && Read(job, rest).Ok? && Read(job, ys).Ok? ==>
          [row.value] + (Read(job, rest).value + Read(job, ys).value)
          == ([row.value] + Read(job, rest).value) + Read(job, ys).value;
    }
  }

  lemma NothingRead(job: Job)
    ensures Read(job, []) == Ok([])
  {
  }

  /** A batch is the front of the flow, or meets what the run must refuse. */
  lemma {:induction false} GatherStrict(job: Job, feeds: seq<Feed>, room: nat)
    requires job.Valid() && !job.ignoreErrors && room <= job.batchRows
    ensures var g := Gather(job, feeds, room);
            var whole, after := FlowOf(job, feeds), FlowOf(job, g.left);
            if g.rows.Ok?
            then whole == Stretch(g.rows.value + after.items, after.end)
                 && (forall item | item in g.rows.value :: Usable(job.shape, item))
                 && (room > 0 && g.rows.value == [] ==> whole == Stretch([], Clean))
            else Strict(job, whole).Refused?
    decreases Weight(feeds)
  {
    hide *;
    JobLighter(job, feeds);
    FlowOfStep(job, feeds);
    var (event, rest) := NextRowOf(job.Decoder(), feeds);
    if room == 0 {
      LastRoom(job, feeds);
      assert [] + FlowOf(job, feeds).items == FlowOf(job, feeds).items;
    } else if event.Row? && Usable(job.shape, event.item) {
      StepRow(job, feeds, room, event.item, rest);
      GatherStrict(job, rest, room - 1);
      var more, after := Gather(job, rest, room - 1), FlowOf(job, rest);
      if more.rows.Ok? {
        assert [event.item] + (more.rows.value + FlowOf(job, more.left).items)
            == ([event.item] + more.rows.value) + FlowOf(job, more.left).items;
      } else {
        StrictTail(job, event.item, after);
      }
    } else {
      StrictStop(job, feeds, room);
    }
  }

  /** Without `ignore_errors`, a batch ends before its room is used up only at the end of all sources. */
  lemma StrictStop(job: Job, feeds: seq<Feed>, room: nat)
    requires job.Valid() && !job.ignoreErrors && room > 0
    requires var event := NextRowOf(job.Decoder(), feeds).0; !(event.Row? && Usable(job.shape, event.item))
    ensures var g, whole := Gather(job, feeds, room), FlowOf(job, feeds);
            if g.rows.Ok? then g.rows.value == [] && whole == FlowOf(job, g.left) == Stretch([], Clean)
            else Strict(job, whole).Refused?
  {
    hide SelfDelimiting, NextRowOf, Flow, Weight, Usable, Read;
    JobLighter(job, feeds);
    FlowOfStep(job, feeds);
    NothingFlows(job);
    var (event, rest) := NextRowOf(job.Decoder(), feeds);
    assert event.Row? ==> event.item in FlowOf(job, feeds).items;
  }

  lemma NothingFlows(job: Job)
    requires job.Valid()
    ensures FlowOf(job, []) == Stretch([], Clean)
  {
  }

  lemma StrictTail(job: Job, item: Cbor, after: Stretch)
    requires Strict(job, after).Refused?
    ensures Strict(job, Stretch([item] + after.items, after.end)).Refused?
  {
    hide ReadRow, Usable;
    ReadRowsAppend(job, [item], after.items);
  }

  /** Without `ignore_errors`, a run loads every item of every source in order, or is refused; it is refused exactly
      when a source cannot be opened or is malformed, or some item does not fit the shape or the column types. */
  lemma {:induction false} StrictRun(job: Job, feeds: seq<Feed>)
    requires job.Valid() && !job.ignoreErrors
    ensures RunOf(job, feeds) == Strict(job, FlowOf(job, feeds))
    decreases Weight(feeds)
  {
    hide Gather, FlowOf, Weight, Read, Usable, Strict;
    GatherStrict(job, feeds, job.batchRows);
    GatherLighter(job, feeds, job.batchRows);
    var g := Gather(job, feeds, job.batchRows);
    if g.rows.Ok? {
      StrictJoin(job, g.rows.value, FlowOf(job, g.left));
      if |g.rows.value| > 0 {
        StrictRun(job, g.left);
      } else {
        NothingStrict(job);
      }
    }
  }

  /** The item has the shape the job declares: a map or an array, not tagged. */
  ghost predicate HasShape(shape: RowShape, item: Cbor) {
    match shape
    case MapShape => exists entries :: item == Map(entries)
    case ArrayShape => exists items :: item == Array(items)
  }

  lemma ShapeUsable(shape: RowShape, item: Cbor)
    ensures Usable(shape, item) <==> HasShape(shape, item)
  {
    if item.Map? {
      assert item == Map(item.entries);
    } else if item.Array? {
      assert item == Array(item.items);
    }
  }

  /** A run that does not ignore errors succeeds exactly when every source opens and is well-formed, and every item has
      the declared shape and can be read; then it loads one row per item, in order. */
  lemma StrictRunIff(job: Job, feeds: seq<Feed>)
    requires job.Valid() && !job.ignoreErrors
    ensures var flow, run := FlowOf(job, feeds), RunOf(job, feeds);
            && (run.Ok? <==> flow.end.Clean? && forall i | 0 <= i < |flow.items| ::
                  && HasShape(job.shape, flow.items[i])
                  && ReadRow(job.pf, job.schema, job.shape, flow.items[i]).Ok?)
            && (run.Ok? ==> |run.value| == |flow.items| && forall i | 0 <= i < |flow.items| ::
                  ReadRow(job.pf, job.schema, job.shape, flow.items[i]) == Ok(run.value[i]))
  {
    hide FlowOf, RunOf, ReadRow, Usable, HasShape, ReadRows;
    StrictRun(job, feeds);
    var items := FlowOf(job, feeds).items;
    forall i | 0 <= i < |items|
      ensures Usable(job.shape, items[i]) <==> HasShape(job.shape, items[i])
    {
      ShapeUsable(job.shape, items[i]);
    }
  }

  lemma {:induction false} UsableAppend(shape: RowShape, xs: seq<Cbor>, ys: seq<Cbor>)
    ensures UsableOf(shape, xs + ys) == UsableOf(shape, xs) + UsableOf(shape, ys)
  {
    hide Usable;
    if |xs| == 0 {
      assert xs + ys == ys;
    } else {
      assert (xs + ys)[1..] == xs[1..] + ys;
      UsableAppend(shape, xs[1..], ys);
    }
  }

  lemma {:induction false} KeptAppend(job: Job, xs: seq<Cbor>, ys: seq<Cbor>)
    ensures KeptRows(job, xs + ys) == KeptRows(job, xs) + KeptRows(job, ys)
  {
    hide ReadRow;
    if |xs| == 0 {
      assert xs + ys == ys;
    } else {
      assert (xs + ys)[1..] == xs[1..] + ys;
      KeptAppend(job, xs[1..], ys);
    }
  }

  /** With errors ignored, one more item adds its row when it has the declared shape and can be read, and nothing
      otherwise. */
  lemma OneMoreItem(job: Job, items: seq<Cbor>, item: Cbor)
    ensures var row := ReadRow(job.pf, job.schema, job.shape, item);
            KeptRows(job, UsableOf(job.shape, items + [item]))
            == KeptRows(job, UsableOf(job.shape, items))
               + if HasShape(job.shape, item) && row.Ok? then [row.value] else []
  {
    ShapeUsable(job.shape, item);
    UsableAppend(job.shape, items, [item]);
    KeptAppend(job, UsableOf(job.shape, items), UsableOf(job.shape, [item]));
    SingleItem(job, item);
    hide ReadRow, HasShape, KeptRows, UsableOf;
  }

  lemma SingleItem(job: Job, item: Cbor)
    ensures var row := ReadRow(job.pf, job.schema, job.shape, item);
            KeptRows(job, UsableOf(job.shape, [item]))
            == if Usable(job.shape, item) && row.Ok? then [row.value] else []
  {
    hide ReadRow, Usable;
    assert [item][1..] == [];
  }

  lemma NothingStrict(job: Job)
    ensures Strict(job, Stretch([], Clean)) == Ok([])
  {
  }

  lemma StrictJoin(job: Job, rows: seq<Cbor>, after: Stretch)
    requires forall item | item in rows :: Usable(job.shape, item)
    ensures var read := Read(job, rows);
            Strict(job, Stretch(rows + after.items, after.end))
            == if read.Ok? && Strict(job, after).Ok? then Ok(read.value + Strict(job, after).value) else Refused
  {
    hide ReadRow, Usable;
    ReadRowsAppend(job, rows, after.items);
    assert forall item | item in after.items :: item in rows + after.items;
  }

  // ---- Files append ----

  /** Reading a complete file and then another is reading the two put together. */
  lemma FilesAppend(job: Job, a: Bytes, b: Bytes, feeds: seq<Feed>)
    requires job.Valid() && FlowOf(job, [Feed(a)]).end.Clean?
    ensures RunOf(job, [Feed(a), Feed(b)] + feeds) == RunOf(job, [Feed(a + b)] + feeds)
  {
    hide RunOf, FlowOf, KeptRows, UsableOf, Strict, Wire.Lawful;
    FlowsAppend(job, a, b, feeds);
    if job.ignoreErrors {
      IgnoringRun(job, [Feed(a), Feed(b)] + feeds);
      IgnoringRun(job, [Feed(a + b)] + feeds);
    } else {
      StrictRun(job, [Feed(a), Feed(b)] + feeds);
      StrictRun(job, [Feed(a + b)] + feeds);
    }
  }

  /** The flow of a file and then more. */
  lemma FlowFirst(dec: Parser<Cbor>, bs: Bytes, feeds: seq<Feed>)
    requires SelfDelimiting(dec)
    ensures var parse, more := Items(dec, bs, 0), Flow(dec, feeds);
            Flow(dec, [Feed(bs)] + feeds)
            == if parse.error.Some? then Stretch(parse.items, Malformed)
               else Stretch(parse.items + more.items, more.end)
  {
    hide Items, SelfDelimiting;
    assert ([Feed(bs)] + feeds)[1..] == feeds;
  }

  lemma FlowsAppend(job: Job, a: Bytes, b: Bytes, feeds: seq<Feed>)
    requires job.Valid() && FlowOf(job, [Feed(a)]).end.Clean?
    ensures FlowOf(job, [Feed(a), Feed(b)] + feeds) == FlowOf(job, [Feed(a + b)] + feeds)
  {
    hide Wire.Item, SelfDelimiting, Items, Flow;
    var dec := job.Decoder();
    ItemDelimited(job.wire, job.pf);
    assert [Feed(a), Feed(b)] + feeds == [Feed(a)] + ([Feed(b)] + feeds);
    assert [Feed(a)] == [Feed(a)] + [];
    FlowFirst(dec, a, []);
    FlowFirst(dec, a, [Feed(b)] + feeds);
    FlowFirst(dec, b, feeds);
    FlowFirst(dec, a + b, feeds);
    SequencesAppend(dec, a, b, 0);
    var first := Items(dec, a, 0).items;
    ItemsRenumbered(dec, b, 0, |first|);
    var more := Flow(dec, feeds);
    assert first + (Items(dec, b, 0).items + more.items) == (first + Items(dec, b, 0).items) + more.items;
  }
}
