/** What a scan prints: `header`, `render_row` and `batch_lines` of `output.rs` in the loop of `run.rs`. */
module Output {
  import opened Bytes
  import Sequences
  import Text
  import opened Devices
  import opened Csv

  datatype Format = AsCsv | AsTsv | AsJson | AsTable

  /** How a row looks in the JSON and table formats. */
  type Renderer = (Format, Device) -> string

  const TSV_HEADER := "protocol\tversion\tip\tmac\ttype\tserial"

  function Header(fmt: Format): seq<string> {
    match fmt
    case AsCsv => [CSV_HEADER]
    case AsTsv => [TSV_HEADER]
    case _ => []
  }

  function Row(fmt: Format, other: Renderer, d: Device): string {
    match fmt
    case AsCsv => RenderCsv(d)
    case AsTsv => Text.Join(Fields(d), '\t')
    case _ => other(fmt, d)
  }

  function Rows(fmt: Format, other: Renderer, ds: seq<Device>): (r: seq<string>)
    ensures |r| == |ds|
  {
    if ds == [] then [] else [Row(fmt, other, ds[0])] + Rows(fmt, other, ds[1..])
  }

  lemma {:induction false} RowsAppend(fmt: Format, other: Renderer, ds: seq<Device>, d: Device)
    ensures Rows(fmt, other, ds + [d]) == Rows(fmt, other, ds) + [Row(fmt, other, d)]
  {
    hide Row;
    if ds == [] {
      assert ds + [d] == [d];
    } else {
      assert (ds + [d])[1..] == ds[1..] + [d];
      RowsAppend(fmt, other, ds[1..], d);
    }
  }

  /** The header line and a row for each entry in discovery order. */
  method BatchLines(table: DeviceTable, fmt: Format, other: Renderer) returns (out: seq<string>)
    ensures out == Header(fmt) + Rows(fmt, other, Listed(table.State()))
  {
    hide Row, Rows, Header, Listed;
    out := Header(fmt);
    var all := table.All();
    NoRows(fmt, other);
    assert all[..0] == [] && out + [] == out;
    for i := 0 to |all|
      invariant out == Header(fmt) + Rows(fmt, other, all[..i])
    {
      assert all[..i + 1] == all[..i] + [all[i]];
      RowsAppend(fmt, other, all[..i], all[i]);
      out := out + [Row(fmt, other, all[i])];
    }
    assert all[..|all|] == all;
  }

  lemma NoRows(fmt: Format, other: Renderer)
    ensures Rows(fmt, other, []) == []
  {
  }

  // ---------- a run ----------

  /** What the loop selects: a device, a rescan, the senders' end, the timeout, or Ctrl+C. */
  datatype Event = Received(device: Device) | Rescan | Closed | Timeout | CtrlC

  datatype Exit = Finished | Interrupted

  function Code(exit: Exit): int { if exit.Finished? then 0 else 130 }

  function Ends(e: Event): Option<Exit> {
    match e
    case Closed => Some(Finished)
    case Timeout => Some(Finished)
    case CtrlC => Some(Interrupted)
    case _ => None
  }

  /** How a run ends; it is still going on when no event has ended it. */
  function ExitOf(events: seq<Event>): Option<Exit> {
    if events == [] then None
    else if Ends(events[0]).Some? then Ends(events[0])
    else ExitOf(events[1..])
  }

  /** The devices received before the end. */
  function Arrived(events: seq<Event>): seq<Device> {
    if events == [] || Ends(events[0]).Some? then []
    else (if events[0].Received? then [events[0].device] else []) + Arrived(events[1..])
  }

  /** The lines of a run: a header, and each row as it comes, or in batch mode what is printed at a regular end. */
  function Shown(fmt: Format, other: Renderer, batch: bool, f: Flags, events: seq<Event>): seq<string> {
    var (table, rows) := Run(f, Arrived(events));
    if !batch then Header(fmt) + Rows(fmt, other, rows)
    else if ExitOf(events) == Some(Finished) then Header(fmt) + (Header(fmt) + Rows(fmt, other, Listed(table)))
    else Header(fmt)
  }

  method RunScan(fmt: Format, other: Renderer, batch: bool, f: Flags, events: seq<Event>)
    returns (lines: seq<string>, code: Option<int>)
    ensures lines == Shown(fmt, other, batch, f, events)
    ensures code == match ExitOf(events)
                    case Some(Finished) => Some(0)
                    case Some(Interrupted) => Some(130)
                    case None => None
  {
    hide Row, Rows, Header, Listed, Added, Run, Arrived, ExitOf;
    var table := new DeviceTable(f.generic);
    lines := Header(fmt);
    ghost var got, rows: seq<Device> := [], [];
    NoRows(fmt, other);
    NoCalls(f);
    assert events[0..] == events;
    for i := 0 to |events|
      invariant fresh(table) && table.Valid() && table.forceGeneric == f.generic
      invariant got + Arrived(events[i..]) == Arrived(events) && ExitOf(events[i..]) == ExitOf(events)
      invariant (table.State(), rows) == Run(f, got)
      invariant lines == Header(fmt) + (if batch then [] else Rows(fmt, other, rows))
    {
      EventStep(events, i, got);
      var e := events[i];
      if Ends(e).Some? {
        if batch && Ends(e) == Some(Finished) {
          var more := BatchLines(table, fmt, other);
          lines := lines + more;
        }
        return lines, Some(Code(Ends(e).value));
      }
      if e.Received? {
        RunStep(f, got, e.device);
        var row := table.Add(e.device, f.ipv4, f.ipv6);
        got := got + [e.device];
        if row.Some? {
          RowsAppend(fmt, other, rows, row.value);
          rows := rows + [row.value];
          if !batch { lines := lines + [Row(fmt, other, row.value)]; }
        }
      }
    }
    NoEvents(events, got);
    return lines, None;
  }

  /** One event: an end leaves what has been received, and a device adds to it. */
  lemma EventStep(events: seq<Event>, i: nat, got: seq<Device>)
    requires i < |events| && got + Arrived(events[i..]) == Arrived(events) && ExitOf(events[i..]) == ExitOf(events)
    ensures var e := events[i];
            if Ends(e).Some? then Arrived(events) == got && ExitOf(events) == Ends(e)
            else && ExitOf(events[i + 1..]) == ExitOf(events)
                 && (if e.Received? then got + [e.device] else got) + Arrived(events[i + 1..]) == Arrived(events)
  {
    hide Arrived, ExitOf;
    var e, rest := events[i], events[i + 1..];
    assert events[i..] == [e] + rest;
    ArrivedStep(e, rest);
    if Ends(e).Some? {
      Sequences.Empty(got);
    } else if e.Received? {
      Sequences.Assoc(got, [e.device], Arrived(rest));
    } else {
      Sequences.Empty(Arrived(rest));
    }
  }

  lemma ArrivedStep(e: Event, rest: seq<Event>)
    ensures ExitOf([e] + rest) == if Ends(e).Some? then Ends(e) else ExitOf(rest)
    ensures Arrived([e] + rest) ==
            if Ends(e).Some? then [] else (if e.Received? then [e.device] else []) + Arrived(rest)
  {
    Sequences.Cons(e, rest);
  }

  lemma NoEvents(events: seq<Event>, got: seq<Device>)
    requires got + Arrived(events[|events|..]) == Arrived(events) && ExitOf(events[|events|..]) == ExitOf(events)
    ensures Arrived(events) == got && ExitOf(events) == None
  {
    assert events[|events|..] == [];
  }

  lemma NoCalls(f: Flags)
    ensures Run(f, []) == (Table(map[], []), [])
  {
  }

  lemma RunStep(f: Flags, calls: seq<Device>, d: Device)
    ensures Run(f, calls + [d]) ==
            var (t, rows) := Run(f, calls);
            var (t', row) := Added(f, t, d);
            (t', if row.Some? then rows + [row.value] else rows)
  {
    hide Added;
    assert (calls + [d])[..|calls|] == calls;
    assert Run(f, calls).1 + [] == Run(f, calls).1;
  }

  // ---------- how a run ends ----------

  /** The first event that ends the run. */
  ghost predicate EndsAt(events: seq<Event>, i: nat) {
    && i < |events| && (events[i].Closed? || events[i].Timeout? || events[i].CtrlC?)
    && forall j :: 0 <= j < i ==> events[j].Received? || events[j].Rescan?
  }

  /** The devices among some events. */
  function DevicesOf(events: seq<Event>): seq<Device> {
    if events == [] then []
    else (if events[0].Received? then [events[0].device] else []) + DevicesOf(events[1..])
  }

  /** A run is interrupted when Ctrl+C comes first, and finished when the senders' end or the timeout does; what has
      arrived by then is what was received before, and while nothing ends it, all that was received. */
  lemma {:induction false} RunEnds(events: seq<Event>, i: nat)
    ensures EndsAt(events, i) ==>
              && ExitOf(events) == Some(if events[i].CtrlC? then Interrupted else Finished)
              && Arrived(events) == DevicesOf(events[..i])
    ensures (forall j :: 0 <= j < |events| ==> events[j].Received? || events[j].Rescan?) ==>
              ExitOf(events) == None && Arrived(events) == DevicesOf(events)
    decreases |events|
  {
    hide Arrived, ExitOf, DevicesOf;
    if events == [] {
      NothingArrived();
    } else {
      var e, rest := events[0], events[1..];
      assert events == [e] + rest;
      ArrivedStep(e, rest);
      if EndsAt(events, i) {
        if i == 0 {
          assert events[..0] == [];
          DevicesStep(e, []);
        } else {
          RunEnds(rest, i - 1);
          assert events[..i] == [e] + rest[..i - 1];
          DevicesStep(e, rest[..i - 1]);
        }
      }
      if forall j :: 0 <= j < |events| ==> events[j].Received? || events[j].Rescan? {
        RunEnds(rest, 0);
        DevicesStep(e, rest);
      }
    }
  }

  lemma NothingArrived()
    ensures ExitOf([]) == None && Arrived([]) == [] == DevicesOf([])
  {
  }

  lemma DevicesStep(e: Event, rest: seq<Event>)
    ensures DevicesOf([]) == []
    ensures DevicesOf([e] + rest) == (if e.Received? then [e.device] else []) + DevicesOf(rest)
  {
    Sequences.Cons(e, rest);
  }

  /** A TSV row reads back to its fields when they have no tab, and the header to the column names. */
  lemma TsvRowReads(other: Renderer, d: Device)
    requires forall f <- Fields(d) :: '\t' !in f
    ensures Text.Split(Row(AsTsv, other, d), '\t') == Fields(d)
  {
    Text.SplitJoin(Fields(d), '\t');
  }

  lemma TsvHeaderReads()
    ensures Header(AsTsv) == ["protocol\tversion\tip\tmac\ttype\tserial"]
  {
  }

  // ---------- what batch and stream have in common ----------

  ghost predicate Nothing(f: Flags, calls: seq<Device>) { forall d <- calls :: !FamilyOk(f, d.ip) }

  lemma ListedNothing(f: Flags, calls: seq<Device>)
    ensures Listed(Run(f, calls).0) == [] <==> Nothing(f, calls)
  {
    hide Listed, Run, FamilyOk, Key;
    TableCountsKeys(f, calls);
    var keys := set d | d in calls && FamilyOk(f, d.ip) :: Key(f.generic, d);
    if !Nothing(f, calls) {
      var d :| d in calls && FamilyOk(f, d.ip);
      assert Key(f.generic, d) in keys;
    }
  }

  /** Batch prints the header and the last row of each key that the stream of the same events shows, in order of first
      appearance, exactly when it ends regularly in a format without a header, or there is nothing to show and no
      regular end repeats the header. */
  lemma BatchAgreesExactly(fmt: Format, other: Renderer, f: Flags, events: seq<Event>)
    requires forall d <- Arrived(events) :: d.ip.Valid()
    ensures Shown(fmt, other, true, f, events)
         == Header(fmt) + Rows(fmt, other, Kept(f.generic, Run(f, Arrived(events)).1))
       <==> if ExitOf(events) == Some(Finished) then fmt.AsJson? || fmt.AsTable? else Nothing(f, Arrived(events))
  {
    hide Listed, Run, Kept, Row, Rows, Arrived, ExitOf, Nothing;
    var calls := Arrived(events);
    StreamingEqualsBatch(f, calls);
    ListedNothing(f, calls);
    NoRows(fmt, other);
    assert |Header(fmt)| == if fmt.AsJson? || fmt.AsTable? then 0 else 1;
    var rows := Rows(fmt, other, Listed(Run(f, calls).0));
    if |Header(fmt)| == 0 { assert Header(fmt) + rows == rows; }
  }

  // ---------- reading CSV back ----------

  lemma {:induction false} CsvRows(other: Renderer, ds: seq<Device>)
    ensures Rows(AsCsv, other, ds) == Rendered(ds)
  {
    hide RenderCsv;
    if ds != [] { CsvRows(other, ds[1..]); }
  }

  /** The text of a stream reads back as one header and the fields of every row. */
  lemma StreamReadsBack(other: Renderer, f: Flags, events: seq<Event>)
    ensures ReadFile(Printed(Shown(AsCsv, other, false, f, events)))
         == Some([COLUMNS] + AllFields(Run(f, Arrived(events)).1))
  {
    hide ReadFile, Printed, Rows, Rendered, Run, AllFields, CSV_HEADER, COLUMNS;
    var rows := Run(f, Arrived(events)).1;
    CsvRows(other, rows);
    HeaderReads(Rendered(rows));
    RowsRead(rows);
  }

  /** The text of a batch reads back as the column names twice and the fields of the table after a regular end, and as
      the column names once otherwise. */
  lemma BatchReadsBack(other: Renderer, f: Flags, events: seq<Event>)
    ensures ReadFile(Printed(Shown(AsCsv, other, true, f, events))) ==
            if ExitOf(events) == Some(Finished)
            then Some([COLUMNS] + ([COLUMNS] + AllFields(Listed(Run(f, Arrived(events)).0))))
            else Some([COLUMNS])
  {
    hide ReadFile, Printed, Rows, Rendered, Run, Listed, AllFields, Arrived, ExitOf, CSV_HEADER, COLUMNS;
    var ds := Listed(Run(f, Arrived(events)).0);
    CsvRows(other, ds);
    RowsRead(ds);
    HeaderReads(Rendered(ds));
    HeaderReads([CSV_HEADER] + Rendered(ds));
    NoText();
    HeaderReads([]);
    assert [CSV_HEADER] + [] == [CSV_HEADER] && [COLUMNS] + [] == [COLUMNS];
  }

  lemma NoText()
    ensures ReadFile(Printed([])) == Some([])
  {
  }

  /** The devices among some rows, without the headers. */
  function DevicesIn(rows: seq<seq<string>>): seq<Device> {
    if rows == [] then []
    else (match DeviceOf(rows[0]) case Some(d) => [d] case None => []) + DevicesIn(rows[1..])
  }

  function ReadDevices(text: string): Option<seq<Device>> {
    match ReadFile(text) case Some(rows) => Some(DevicesIn(rows)) case None => None
  }

  lemma {:induction false} FieldsAreDevices(ds: seq<Device>)
    requires forall d <- ds :: d.ip.Valid()
    ensures DevicesIn(AllFields(ds)) == ds
  {
    hide DeviceOf, Fields;
    if ds != [] {
      assert ds[0] in ds && forall d :: d in ds[1..] ==> d in ds;
      FieldsAreDevice(ds[0]);
      FieldsAreDevices(ds[1..]);
      assert ds == [ds[0]] + ds[1..];
    }
  }

  lemma HeaderIsNoDevice(rows: seq<seq<string>>)
    ensures DevicesIn([COLUMNS] + rows) == DevicesIn(rows)
  {
    assert ([COLUMNS] + rows)[1..] == rows;
    assert DeviceOf(COLUMNS) == None;
  }

  lemma {:induction false} RowsAreValid(f: Flags, calls: seq<Device>)
    requires forall d <- calls :: d.ip.Valid()
    ensures forall d <- Run(f, calls).1 :: d.ip.Valid()
  {
    hide Follows;
    if calls != [] {
      var before, d := calls[..|calls| - 1], calls[|calls| - 1];
      assert calls == before + [d];
      assert d in calls && forall x :: x in before ==> x in calls;
      RowsAreValid(f, before);
      RunFollows(f, before);
      RowIsValid(f, Run(f, before).0, Run(f, before).1, d);
    }
  }

  lemma RowIsValid(f: Flags, t: Table, rows: seq<Device>, d: Device)
    requires Follows(f, t, rows) && d.ip.Valid()
    ensures var row := Added(f, t, d).1; row.Some? ==> row.value.ip.Valid()
  {
  }

  lemma {:induction false} ListedAreValid(f: Flags, t: Table, rows: seq<Device>, order: seq<string>)
    requires Follows(f, t, rows)
    ensures forall d <- Listed(t.(order := order)) :: d.ip.Valid()
  {
    if order != [] { ListedAreValid(f, t, rows, order[1..]); }
  }

  /** Read as CSV, a batch gives the last row of each key of the stream exactly when the run ended regularly or nothing
      was accepted: after Ctrl+C a batch shows none of what the stream has shown. */
  lemma TextsAgreeExactly(other: Renderer, f: Flags, events: seq<Event>)
    requires forall d <- Arrived(events) :: d.ip.Valid()
    ensures var stream := ReadDevices(Printed(Shown(AsCsv, other, false, f, events)));
            var batch := ReadDevices(Printed(Shown(AsCsv, other, true, f, events)));
            && stream.Some?
            && (batch == Some(Kept(f.generic, stream.value))
                <==> ExitOf(events) == Some(Finished) || Nothing(f, Arrived(events)))
  {
    hide ReadFile, Printed, Shown, Run, Listed, Kept, Arrived, ExitOf, Nothing, AllFields, Follows, COLUMNS;
    var calls := Arrived(events);
    var (t, rows) := Run(f, calls);
    StreamReadsBack(other, f, events);
    BatchReadsBack(other, f, events);
    RowsAreValid(f, calls);
    RunFollows(f, calls);
    ListedAreValid(f, t, rows, t.order);
    FieldsAreDevices(rows);
    FieldsAreDevices(Listed(t));
    HeaderIsNoDevice(AllFields(rows));
    HeaderIsNoDevice(AllFields(Listed(t)));
    HeaderIsNoDevice([COLUMNS] + AllFields(Listed(t)));
    HeaderIsNoDevice([]);
    assert [COLUMNS] + [] == [COLUMNS] && DevicesIn([]) == [];
    StreamingEqualsBatch(f, calls);
    ListedNothing(f, calls);
  }
}
