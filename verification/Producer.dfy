/** The row producer: it opens sources one at a time, decodes their items, and emits batches. */
module Producer {
  import opened Base
  import opened Values
  import opened Framing
  import opened Streaming
  import opened Columns
  import opened Rows
  import opened CopyFrom

  datatype Answer = Batch(len: nat, columns: seq<Column>) | Finished | Stopped

  /** The batch a call returned is the one its specification names. */
  ghost predicate Shows(job: Job, answer: Answer, emitted: Emitted) {
    match answer
    case Batch(len, columns) =>
      BatchOk(job.schema, len, columns) && emitted == Emit(BatchRows(job.schema, len, columns))
    case Finished => emitted == NoMore
    case Stopped => emitted == Failure
  }

  /** What a batch has gathered when its store fails: with errors ignored, the first of the rows; without, nothing. */
  ghost predicate CutShort(job: Job, some: Outcome<seq<Cbor>>, all: Outcome<seq<Cbor>>) {
    if job.ignoreErrors then some.Ok? && all.Ok? && some.value <= all.value else some.Refused?
  }

  /** A call that met a failing store: with errors ignored, it answers the first of the rows; without, it stops. */
  ghost predicate ShowsLess(job: Job, answer: Answer, emitted: Emitted) {
    match answer
    case Batch(len, columns) =>
      job.ignoreErrors && emitted.Emit? && BatchOk(job.schema, len, columns)
      && BatchRows(job.schema, len, columns) <= emitted.rows
    case Finished => job.ignoreErrors && !emitted.Failure?
    case Stopped => !job.ignoreErrors
  }

  class RowProducer {
    const job: Job
    const chunk: nat
    const capacity: nat
    var pending: seq<Location>      // sources still to read, the next one last
    var items: SeqReader?<Cbor>     // the source being decoded

    ghost function Repr(): set<object>
      reads this
    {
      {this} + if items == null then {} else {items, items.src, items.src.inner, items.src.buf}
    }

    ghost predicate Valid()
      reads Repr()
      ensures Valid() ==> job.Valid()
    {
      && job.Valid() && chunk > 0 && capacity > 0
      && (forall loc | loc in pending && loc.Opens? :: loc.store.Valid())
      && (items != null ==> items.Valid() && items.dec == job.Decoder())
    }

    /** No request to a source fails once it is open. */
    ghost predicate Reliable()
      reads this
    {
      && (forall loc | loc in pending && loc.Opens? :: loc.store.Reliable())
      && (items != null ==> items.src.inner.store.Reliable())
    }

    /** What is left to read, in order. */
    ghost function Feeds(): seq<Feed>
      requires Valid()
      reads Repr()
    {
      if items == null then Forward(pending) else [Feed(items.Pending())] + Forward(pending)
    }

    constructor (job: Job, sources: seq<Location>, chunk: nat, capacity: nat)
      requires job.Valid() && chunk > 0 && capacity > 0
      requires forall loc | loc in sources && loc.Opens? :: loc.store.Valid()
      ensures Valid() && fresh(Repr()) && this.job == job
      ensures Feeds() == seq(|sources|, i requires 0 <= i < |sources| => FeedOf(sources[i]))
      ensures (forall loc | loc in sources && loc.Opens? :: loc.store.Reliable()) ==> Reliable()
    {
      this.job, this.chunk, this.capacity := job, chunk, capacity;
      pending := seq(|sources|, i requires 0 <= i < |sources| => sources[|sources| - 1 - i]);
      items := null;
      new;
      hide Job.Valid, Store.Valid, Store.Reliable;
      assert forall loc | loc in pending :: loc in sources;
    }

    /** Open the next source; Ok(false) when there is none. */
    method Advance() returns (r: Outcome<bool>)
      requires Valid() && items == null
      modifies this
      ensures Valid() && fresh(Repr() - {this})
      ensures old(Reliable()) ==> Reliable()
      ensures match r
              case Ok(true) => items != null && Feeds() == old(Feeds()) && |pending| < |old(pending)|
              case Ok(false) => items == null && old(Feeds()) == Feeds() == []
              case Refused => items == null && old(Feeds()) == [Broken] + Feeds()
    {
      hide Job.Valid, Store.Valid, Store.Reliable, SelfDelimiting, Forward;
      if pending == [] {
        NothingPending();
        return Ok(false);
      }
      ForwardPop(pending);
      var next := pending[|pending| - 1];
      pending := pending[..|pending| - 1];
      if next.Unopenable? {
        return Refused;
      }
      Decodable(job);
      items := new SeqReader(job.Decoder(), next.store, chunk, capacity);
      return Ok(true);
    }

    /** One item of the open source; None when the source has ended. */
    method Pull() returns (event: Option<RowEvent>)
      requires Valid() && items != null
      modifies Repr()
      ensures Valid() && fresh(Repr() - old(Repr()))
      ensures event == None ==> items == null && pending == old(pending)
      ensures old(Reliable()) ==> Reliable()
      ensures OneItem(job.Decoder(), old(Feeds()), event, Feeds())
              || (!old(Reliable()) && event == Some(DecodeFailed) && Feeds() == [])
      ensures Weight(Feeds()) < Weight(old(Feeds()))
    {
      hide Job.Valid, Store.Valid, Store.Reliable, SelfDelimiting, Step, NextRowOf, Weight, SeqReader.Pending,
        BufReader.Valid;
      Decodable(job);
      ghost var bs, index := items.Pending(), items.index;
      BeforeItems(job.Decoder(), []);
      AfterStep(job.Decoder(), bs, index, Forward(pending));
      var next := items.NextItem();
      match next
      case Item(value) => return Some(Row(value));
      case Error(_) =>
        items, pending := null, [];
        return Some(DecodeFailed);
      case End =>
        items := null;
        return None;
    }

    /** The next row over all sources. A store that fails half-way is a decode failure. */
    method NextRow() returns (event: RowEvent)
      requires Valid()
      modifies Repr()
      ensures Valid() && fresh(Repr() - old(Repr()))
      ensures old(Reliable()) ==> Reliable()
      ensures (event, Feeds()) == NextRowOf(job.Decoder(), old(Feeds()))
              || (!old(Reliable()) && event == DecodeFailed && Feeds() == [])
      ensures Weight(Feeds()) <= Weight(old(Feeds())) && (event.Row? ==> Weight(Feeds()) < Weight(old(Feeds())))
    {
      hide Job.Valid, Store.Valid, Store.Reliable, SelfDelimiting, NextRowOf, Weight, SeqReader.Pending,
        SeqReader.Valid, Valid, Feeds, Reliable, Forward;
      while true
        invariant Valid() && fresh(Repr() - old(Repr()))
        invariant old(Reliable()) ==> Reliable()
        invariant NextRowOf(job.Decoder(), Feeds()) == NextRowOf(job.Decoder(), old(Feeds()))
        invariant Weight(Feeds()) <= Weight(old(Feeds()))
        decreases |pending|, items != null
      {
        if items == null {
          ghost var feeds := Feeds();
          var advanced := Advance();
          BeforeItems(job.Decoder(), Feeds());
          match advanced
          case Ok(true) =>
          case Ok(false) => return Done;
          case Refused => return OpenFailed;
        }
        var pulled := Pull();
        if pulled.Some? {
          return pulled.value;
        }
      }
    }

    /** The rows of one batch, or a refusal. */
    method GatherRows() returns (r: Outcome<seq<Cbor>>)
      requires Valid()
      modifies Repr()
      ensures Valid() && fresh(Repr() - old(Repr()))
      ensures old(Reliable()) ==> Reliable()
      ensures Gathered(r, Feeds()) == Gather(job, old(Feeds()), job.batchRows)
              || (!old(Reliable()) && Feeds() == [] && CutShort(job, r, Gather(job, old(Feeds()), job.batchRows).rows))
      ensures r.Ok? && r.value != [] ==> Weight(Feeds()) < Weight(old(Feeds()))
    {
      hide Job.Valid, Store.Valid, Store.Reliable, Valid, Feeds, Reliable, Gather, Ahead, Weight, Usable, NextRowOf,
        Shows, NextBatchOf, EmittedFor, BatchOk;
      ghost var feeds := Feeds();
      ghost var reliable := Reliable();
      var rows: seq<Cbor> := [];
      AheadOfNothing(Gather(job, feeds, job.batchRows));
      while |rows| < job.batchRows
        invariant Valid() && fresh(Repr() - old(Repr())) && (reliable ==> Reliable())
        invariant |rows| <= job.batchRows
        invariant Gather(job, feeds, job.batchRows) == Ahead(rows, Gather(job, Feeds(), job.batchRows - |rows|))
        invariant Weight(Feeds()) <= Weight(feeds) && (rows != [] ==> Weight(Feeds()) < Weight(feeds))
        decreases Weight(Feeds())
      {
        ghost var before := Feeds();
        var next := NextRow();
        if (next, Feeds()) == NextRowOf(job.Decoder(), before) {
          GatherNext(job, before, job.batchRows - |rows|, next, Feeds(), rows);
        } else {
          GatherCut(job, before, job.batchRows - |rows|, rows);
        }
        if next.Row? && Usable(job.shape, next.item) {
          rows := rows + [next.item];
        } else if next.Done? || (!next.Row? && job.ignoreErrors) {
          return Ok(rows);
        } else if !job.ignoreErrors {
          return Refused;
        }
      }
      GatherFull(job, Feeds(), rows);
      return Ok(rows);
    }

    method NextBatch() returns (answer: Answer)
      requires Valid()
      modifies Repr()
      ensures Valid() && fresh(Repr() - old(Repr()))
      ensures old(Reliable()) ==> Reliable()
      ensures (Shows(job, answer, NextBatchOf(job, old(Feeds())).0) && Feeds() == NextBatchOf(job, old(Feeds())).1)
              || (!old(Reliable()) && Feeds() == [] && ShowsLess(job, answer, NextBatchOf(job, old(Feeds())).0))
      ensures answer.Batch? ==> BatchOk(job.schema, answer.len, answer.columns)
                                && Weight(Feeds()) < Weight(old(Feeds()))
    {
      hide Job.Valid, Store.Valid, Store.Reliable, Valid, Feeds, Reliable, Gather, Ahead, Weight, Usable, NextRowOf,
        Shows, NextBatchOf, EmittedFor, BatchOk;
      ghost var feeds := Feeds();
      var rows := GatherRows();
      HasColumns(job);
      if rows.Refused? {
        answer := Stopped;
      } else if rows.value == [] {
        answer := Finished;
      } else {
        answer := Convert(job, rows.value);
      }
      NextBatchGathers(job, feeds, rows, Feeds(), answer);
    }
  }

  lemma HasColumns(job: Job)
    requires job.Valid()
    ensures |job.schema| > 0
  {
  }

  lemma NextBatchGathers(job: Job, feeds: seq<Feed>, rows: Outcome<seq<Cbor>>, left: seq<Feed>, answer: Answer)
    requires job.Valid()
    requires match answer
             case Batch(_, _) => rows.Ok? && Shows(job, answer, EmittedFor(job, rows))
             case Finished => rows == Ok([])
             case Stopped => rows.Refused? || Shows(job, answer, EmittedFor(job, rows))
    ensures Gather(job, feeds, job.batchRows) == Gathered(rows, left) ==>
              NextBatchOf(job, feeds).1 == left && Shows(job, answer, NextBatchOf(job, feeds).0)
    ensures CutShort(job, rows, Gather(job, feeds, job.batchRows).rows) ==>
              ShowsLess(job, answer, NextBatchOf(job, feeds).0)
    ensures answer.Batch? ==> BatchOk(job.schema, answer.len, answer.columns)
  {
    hide Gather, KeptRows, Read, Job.Valid, BatchOk;
    var all := Gather(job, feeds, job.batchRows).rows;
    if CutShort(job, rows, all) && job.ignoreErrors {
      KeptPrefix(job, rows.value, all.value);
    }
  }

  lemma {:induction false} KeptPrefix(job: Job, some: seq<Cbor>, all: seq<Cbor>)
    requires some <= all
    ensures KeptRows(job, some) <= KeptRows(job, all)
  {
    hide ReadRow;
    if |some| > 0 {
      KeptPrefix(job, some[1..], all[1..]);
    }
  }

  /** The rows that can be built alone. */
  function KeptItems(job: Job, rows: seq<Cbor>): seq<Cbor> {
    if |rows| == 0 then []
    else (if Read(job, [rows[0]]).Ok? then [rows[0]] else []) + KeptItems(job, rows[1..])
  }

  /** A batch is built at once, or, when that fails and errors are ignored, from the rows that can be built alone;
      this second build cannot fail. */
  method Convert(job: Job, rows: seq<Cbor>) returns (answer: Answer)
    requires rows != [] && |job.schema| > 0
    ensures !answer.Finished? && Shows(job, answer, EmittedFor(job, Ok(rows)))
  {
    hide ReadRows, KeptRows, KeptItems, BatchOk, BatchRows;
    KeptTogether(job, rows);
    var built := BuildBatch(job.pf, job.schema, job.shape, rows);
    if built.Ok? {
      return Batch(|rows|, built.value);
    }
    if !job.ignoreErrors {
      return Stopped;
    }
    var kept := Keep(job, rows);
    built := BuildBatch(job.pf, job.schema, job.shape, kept);
    return Batch(|kept|, built.value);
  }

  method Keep(job: Job, rows: seq<Cbor>) returns (kept: seq<Cbor>)
    requires |job.schema| > 0
    ensures kept == KeptItems(job, rows)
  {
    hide ReadRow, ReadRows, KeptItems;
    kept := [];
    assert rows[0..] == rows;
    for i := 0 to |rows|
      invariant KeptItems(job, rows) == kept + KeptItems(job, rows[i..])
    {
      KeptItemsAt(job, rows, i);
      var alone := BuildBatch(job.pf, job.schema, job.shape, [rows[i]]);
      if alone.Ok? {
        kept := kept + [rows[i]];
      }
    }
    assert rows[|rows|..] == [];
    KeptNothing(job);
  }

  lemma KeptItemsAt(job: Job, rows: seq<Cbor>, i: nat)
    requires i < |rows|
    ensures KeptItems(job, rows[i..])
            == (if Read(job, [rows[i]]).Ok? then [rows[i]] else []) + KeptItems(job, rows[i + 1..])
  {
    hide Read;
    assert rows[i..][0] == rows[i] && rows[i..][1..] == rows[i + 1..];
  }

  /** The rows that can be read alone can be read together, as the same rows; when all can, none is lost. */
  lemma {:induction false} KeptTogether(job: Job, rows: seq<Cbor>)
    ensures Read(job, KeptItems(job, rows)) == Ok(KeptRows(job, rows))
    ensures Read(job, rows).Ok? ==> Read(job, rows) == Ok(KeptRows(job, rows))
  {
    hide *;
    if |rows| == 0 {
      assert rows == [];
      KeptNothing(job);
    } else {
      var item, rest := rows[0], rows[1..];
      assert rows == [item] + rest;
      KeptTogether(job, rest);
      KeptFirst(job, item, rest);
      KeptItemsFirst(job, item, rest);
      ReadRowsCons(job, item, rest);
      ReadRowsCons(job, item, KeptItems(job, rest));
      assert [] + KeptRows(job, rest) == KeptRows(job, rest);
    }
  }

  lemma KeptNothing(job: Job)
    ensures KeptItems(job, []) == [] && Read(job, []) == Ok([]) && KeptRows(job, []) == []
  {
  }

  lemma KeptItemsFirst(job: Job, item: Cbor, rows: seq<Cbor>)
    ensures ReadRow(job.pf, job.schema, job.shape, item).Ok? ==>
              KeptItems(job, [item] + rows) == [item] + KeptItems(job, rows)
              && Readable(job, item) == [ReadRow(job.pf, job.schema, job.shape, item).value]
    ensures ReadRow(job.pf, job.schema, job.shape, item).Refused? ==>
              KeptItems(job, [item] + rows) == KeptItems(job, rows) && Readable(job, item) == []
  {
    hide ReadRow;
    assert ([item] + rows)[1..] == rows;
    ReadRowsCons(job, item, []);
    NothingRead(job);
    assert [item] + [] == [item];
  }

  /** A batch with `rows` gathered before it. */
  ghost function Ahead(rows: seq<Cbor>, g: Gathered): Gathered {
    Gathered(if g.rows.Ok? then Ok(rows + g.rows.value) else Refused, g.left)
  }

  lemma AheadOfNothing(g: Gathered)
    ensures Ahead([], g) == g
  {
    assert g.rows.Ok? ==> [] + g.rows.value == g.rows.value;
  }

  /** How gathering goes on after one row event, with `rows` gathered before it. */
  lemma GatherNext(job: Job, feeds: seq<Feed>, room: nat, event: RowEvent, rest: seq<Feed>, rows: seq<Cbor>)
    requires job.Valid() && room > 0 && (event, rest) == NextRowOf(job.Decoder(), feeds)
    ensures Ahead(rows, Gather(job, feeds, room))
            == if event.Row? && Usable(job.shape, event.item)
               then Ahead(rows + [event.item], Gather(job, rest, room - 1))
               else if event.Row? && job.ignoreErrors then Ahead(rows, Gather(job, rest, room))
               else if event.Done? || (!event.Row? && job.ignoreErrors) then Gathered(Ok(rows), rest)
               else Gathered(Refused, rest)
  {
    hide SelfDelimiting, NextRowOf, Weight, Usable;
    assert rows + [] == rows;
    if event.Row? && Usable(job.shape, event.item) {
      var more := Gather(job, rest, room - 1);
      assert more.rows.Ok? ==>
          rows + ([event.item] + more.rows.value) == (rows + [event.item]) + more.rows.value;
    }
  }

  /** Rows gathered before a failing store are the first of those to be gathered. */
  lemma GatherCut(job: Job, feeds: seq<Feed>, room: nat, rows: seq<Cbor>)
    requires job.Valid() && 0 < room <= job.batchRows
    ensures CutShort(job, if job.ignoreErrors then Ok(rows) else Refused, Ahead(rows, Gather(job, feeds, room)).rows)
  {
    hide Gather, Job.Valid;
    if job.ignoreErrors {
      GatherSurvivors(job, feeds, room);
    }
  }

  lemma GatherFull(job: Job, feeds: seq<Feed>, rows: seq<Cbor>)
    requires job.Valid()
    ensures Ahead(rows, Gather(job, feeds, 0)) == Gathered(Ok(rows), feeds)
  {
    assert rows + [] == rows;
  }

  ghost predicate OneItem(dec: Parser<Cbor>, before: seq<Feed>, event: Option<RowEvent>, after: seq<Feed>) {
    match event
    case None => NextRowOf(dec, after) == NextRowOf(dec, before)
    case Some(e) => (e, after) == NextRowOf(dec, before)
  }

  lemma BeforeItems(dec: Parser<Cbor>, feeds: seq<Feed>)
    ensures NextRowOf(dec, []) == (Done, [])
    ensures NextRowOf(dec, [Broken] + feeds) == (OpenFailed, feeds)
    ensures Weight([]) == 0 && Weight(feeds) < Weight([Broken] + feeds)
  {
  }

  lemma Decodable(job: Job)
    requires job.Valid()
    ensures SelfDelimiting(job.Decoder())
  {
    ItemDelimited(job.wire, job.pf);
  }

  /** The next row after one step of the first source. */
  lemma AfterStep(dec: Parser<Cbor>, bs: Bytes, index: nat, feeds: seq<Feed>)
    requires SelfDelimiting(dec)
    ensures var step := Step(dec, bs, index);
            NextRowOf(dec, [Feed(bs)] + feeds)
            == if step.0.Item? then (Row(step.0.value), [Feed(step.1)] + feeds)
               else if step.0.End? then NextRowOf(dec, feeds) else (DecodeFailed, [])
    ensures var step := Step(dec, bs, index);
            step.0.Item? ==> Weight([Feed(step.1)] + feeds) < Weight([Feed(bs)] + feeds)
    ensures Weight(feeds) < Weight([Feed(bs)] + feeds)
  {
    assert Progress(dec, bs);
    assert ([Feed(bs)] + feeds)[1..] == feeds;
    assert ([Feed(Step(dec, bs, index).1)] + feeds)[1..] == feeds;
  }

  /** The rows of several batches in a row. */
  ghost function RowsOf(schema: seq<Field>, batches: seq<(nat, seq<Column>)>): seq<seq<Cell>>
    requires forall b | b in batches :: BatchOk(schema, b.0, b.1)
  {
    if |batches| == 0 then []
    else BatchRows(schema, batches[0].0, batches[0].1) + RowsOf(schema, batches[1..])
  }

  lemma {:induction false} RowsOfAppend(schema: seq<Field>, batches: seq<(nat, seq<Column>)>,
                                        len: nat, columns: seq<Column>)
    requires forall b | b in batches :: BatchOk(schema, b.0, b.1)
    requires BatchOk(schema, len, columns)
    ensures RowsOf(schema, batches + [(len, columns)]) == RowsOf(schema, batches) + BatchRows(schema, len, columns)
  {
    hide BatchOk, BatchRows;
    var all := batches + [(len, columns)];
    if |batches| == 0 {
      assert all[1..] == [];
    } else {
      assert all[1..] == batches[1..] + [(len, columns)];
      RowsOfAppend(schema, batches[1..], len, columns);
    }
  }

  /** A whole run: batches are asked for until there are no more. From sources whose stores do not fail, it loads what
      the run's specification says, whatever the chunk size and the buffer capacity. When stores do fail, a run that
      does not ignore errors still loads everything or fails, and one that does loads the first of the rows. */
  method RunCopy(job: Job, sources: seq<Location>, chunk: nat, capacity: nat)
    returns (ok: bool, batches: seq<(nat, seq<Column>)>)
    requires job.Valid() && chunk > 0 && capacity > 0
    requires forall loc | loc in sources && loc.Opens? :: loc.store.Valid()
    ensures forall b | b in batches :: BatchOk(job.schema, b.0, b.1)
    ensures var run := RunOf(job, seq(|sources|, i requires 0 <= i < |sources| => FeedOf(sources[i])));
            && ((forall loc | loc in sources && loc.Opens? :: loc.store.Reliable()) ==>
                  (ok <==> run.Ok?) && (ok ==> RowsOf(job.schema, batches) == run.value))
            && (ok ==> run.Ok? && RowsOf(job.schema, batches) <= run.value)
            && (ok && !job.ignoreErrors ==> RowsOf(job.schema, batches) == run.value)
  {
    hide RunOf, Weight, Job.Valid, Store.Valid, Store.Reliable, RowProducer.Valid, RowProducer.Feeds,
      RowProducer.Reliable, RowsOf, BatchOk, NextBatchOf;
    ghost var feeds := seq(|sources|, i requires 0 <= i < |sources| => FeedOf(sources[i]));
    var producer := new RowProducer(job, sources, chunk, capacity);
    ghost var reliable := producer.Reliable();
    ghost var cut := false;
    batches := [];
    NoBatches(job, feeds);
    while true
      invariant producer.Valid() && fresh(producer.Repr()) && producer.job == job && (reliable ==> producer.Reliable())
      invariant forall b | b in batches :: BatchOk(job.schema, b.0, b.1)
      invariant cut ==> !reliable && job.ignoreErrors && producer.Feeds() == []
      invariant Loaded(cut, RunOf(job, feeds), RowsOf(job.schema, batches), RunOf(job, producer.Feeds()))
      decreases Weight(producer.Feeds())
    {
      ghost var before := producer.Feeds();
      var answer := producer.NextBatch();
      ghost var done := RowsOf(job.schema, batches);
      if Answered(job, before, producer.Feeds(), answer) {
        RunGoesOn(job, before, producer.Feeds(), answer, done);
      } else {
        RunCutShort(job, before, answer, done);
      }
      match answer
      case Batch(len, columns) =>
        cut := cut || !Answered(job, before, producer.Feeds(), answer);
        RowsOfAppend(job.schema, batches, len, columns);
        batches := batches + [(len, columns)];
      case Finished =>
        return true, batches;
      case Stopped =>
        return false, batches;
    }
  }

  /** The run with `rows` loaded before it. */
  ghost function Following(rows: seq<seq<Cell>>, run: Outcome<seq<seq<Cell>>>): Outcome<seq<seq<Cell>>> {
    if run.Ok? then Ok(rows + run.value) else Refused
  }

  /** How far a run has come: `done` and then `next`, or, once cut short, the first rows of the whole. */
  ghost predicate Loaded(cut: bool, whole: Outcome<seq<seq<Cell>>>, done: seq<seq<Cell>>,
                         next: Outcome<seq<seq<Cell>>>) {
    if cut then whole.Ok? && done <= whole.value else whole == Following(done, next)
  }

  lemma NoBatches(job: Job, feeds: seq<Feed>)
    requires job.Valid()
    ensures Loaded(false, RunOf(job, feeds), RowsOf(job.schema, []), RunOf(job, feeds))
    ensures NextBatchOf(job, []) == (NoMore, [])
  {
    hide RunOf;
    var run := RunOf(job, feeds);
    assert run.Ok? ==> [] + run.value == run.value;
  }

  /** The call answered as specified. */
  ghost predicate Answered(job: Job, feeds: seq<Feed>, left: seq<Feed>, answer: Answer)
    requires job.Valid()
  {
    Shows(job, answer, NextBatchOf(job, feeds).0) && left == NextBatchOf(job, feeds).1
  }

  lemma RunGoesOn(job: Job, feeds: seq<Feed>, left: seq<Feed>, answer: Answer, done: seq<seq<Cell>>)
    requires job.Valid() && Answered(job, feeds, left, answer)
    ensures answer.Batch? ==> BatchOk(job.schema, answer.len, answer.columns)
    ensures Following(done, RunOf(job, feeds))
            == match answer
               case Batch(len, columns) =>
                 Following(done + BatchRows(job.schema, len, columns), RunOf(job, left))
               case Finished => Ok(done)
               case Stopped => Refused
  {
    hide NextBatchOf, BatchOk, BatchRows, Job.Valid, Weight;
    if answer.Batch? && RunOf(job, left).Ok? {
      var rows, more := BatchRows(job.schema, answer.len, answer.columns), RunOf(job, left).value;
      assert done + (rows + more) == (done + rows) + more;
    }
    assert done + [] == done;
  }

  lemma RunCutShort(job: Job, feeds: seq<Feed>, answer: Answer, done: seq<seq<Cell>>)
    requires job.Valid() && ShowsLess(job, answer, NextBatchOf(job, feeds).0)
    ensures answer.Batch? ==> BatchOk(job.schema, answer.len, answer.columns)
    ensures !job.ignoreErrors ==> answer.Stopped?
    ensures job.ignoreErrors ==>
              var whole := Following(done, RunOf(job, feeds));
              && !answer.Stopped? && whole.Ok? && done <= whole.value
              && (answer.Batch? ==> done + BatchRows(job.schema, answer.len, answer.columns) <= whole.value)
  {
    hide NextBatchOf, BatchOk, BatchRows, Job.Valid, Weight;
    if job.ignoreErrors {
      RunSurvives(job, feeds);
    }
  }
}
