/** The device table of `devices.rs` and the rows it feeds to streaming and batch output. */
module Devices {
  import opened Bytes

  /** An address, identified with its canonical text. */
  datatype Ip = V4(text: string) | V6(text: string) {
    predicate Valid() {
      match this
      case V4(t) => forall c <- t :: '0' <= c <= '9' || c == '.'
      case V6(t) => ':' in t && forall c <- t :: '0' <= c <= '9' || 'a' <= c <= 'f' || c == ':' || c == '.'
    }
  }

  datatype Device = Device(protocol: string, version: U32, ip: Ip, mac: string, deviceType: string, serial: string)

  /** The flags a run is made with. */
  datatype Flags = Flags(generic: bool, ipv4: bool, ipv6: bool)

  function Key(generic: bool, d: Device): string {
    if generic then d.protocol + "|" + d.ip.text else d.ip.text
  }

  predicate FamilyOk(f: Flags, ip: Ip) { if ip.V4? then f.ipv4 else f.ipv6 }

  /** The state of the table as a value. */
  datatype Table = Table(entries: map<string, Device>, order: seq<string>)

  /** The entry a higher version replaces the old one by: the old address, and the old MAC if the new one is empty. */
  function Merged(existing: Device, d: Device): Device {
    d.(ip := existing.ip, mac := if d.mac == "" then existing.mac else d.mac)
  }

  /** One `add`: the new state and the row to print. */
  function Added(f: Flags, t: Table, d: Device): (Table, Option<Device>) {
    var key := Key(f.generic, d);
    if !FamilyOk(f, d.ip) then (t, None)
    else if key !in t.entries then (Table(t.entries[key := d], t.order + [key]), Some(d))
    else if d.version > t.entries[key].version then
      var updated := Merged(t.entries[key], d);
      (Table(t.entries[key := updated], t.order), Some(updated))
    else (t, None)
  }

  /** The order lists the keys of the entries, each once. */
  ghost predicate Consistent(t: Table) {
    && (forall i, j :: 0 <= i < j < |t.order| ==> t.order[i] != t.order[j])
    && (forall key :: key in t.order <==> key in t.entries)
  }

  class DeviceTable {
    const forceGeneric: bool
    var entries: map<string, Device>
    var order: seq<string>

    constructor (forceGenericProtocols: bool)
      ensures forceGeneric == forceGenericProtocols
      ensures State() == Table(map[], []) && Valid()
    {
      forceGeneric := forceGenericProtocols;
      entries := map[];
      order := [];
    }

    function State(): Table
      reads this
    {
      Table(entries, order)
    }

    ghost predicate Valid()
      reads this
    {
      Consistent(State())
    }

    method Add(device: Device, enableIpv4: bool, enableIpv6: bool) returns (row: Option<Device>)
      requires Valid()
      modifies this
      ensures Valid()
      ensures (State(), row) == Added(Flags(forceGeneric, enableIpv4, enableIpv6), old(State()), device)
    {
      var familyOk := if device.ip.V4? then enableIpv4 else enableIpv6;
      if !familyOk { return None; }
      var key := if forceGeneric then device.protocol + "|" + device.ip.text else device.ip.text;
      if key !in entries {
        order := order + [key];
        entries := entries[key := device];
        return Some(device);
      }
      var existing := entries[key];
      if device.version > existing.version {
        var mac := if device.mac == "" then existing.mac else device.mac;
        var updated := Device(device.protocol, device.version, existing.ip, mac, device.deviceType, device.serial);
        entries := entries[key := updated];
        return Some(updated);
      }
      return None;
    }

    method All() returns (rows: seq<Device>)
      ensures rows == Listed(State())
    {
      rows := [];
      for i := 0 to |order|
        invariant rows == Listed(Table(entries, order[..i]))
      {
        ListedAppend(Table(entries, order[..i]), order[i]);
        assert order[..i + 1] == order[..i] + [order[i]];
        if order[i] in entries { rows := rows + [entries[order[i]]]; }
      }
      assert order[..|order|] == order;
    }

    /** The number of rows that `All` lists. */
    method Len() returns (n: nat)
      requires Valid()
      ensures n == |Listed(State())|
    {
      n := |entries|;
      ListedLength(State());
    }
  }

  /** The entries in discovery order. */
  function Listed(t: Table): seq<Device>
    decreases |t.order|
  {
    if t.order == [] then []
    else (if t.order[0] in t.entries then [t.entries[t.order[0]]] else []) + Listed(t.(order := t.order[1..]))
  }

  lemma {:induction false} ListedAppend(t: Table, key: string)
    ensures Listed(t.(order := t.order + [key]))
         == Listed(t) + (if key in t.entries then [t.entries[key]] else [])
    decreases |t.order|
  {
    if t.order == [] {
      assert t.order + [key] == [key];
    } else {
      assert (t.order + [key])[1..] == t.order[1..] + [key];
      ListedAppend(t.(order := t.order[1..]), key);
    }
  }

  /** Each entry is listed once. */
  lemma ListedLength(t: Table)
    requires Consistent(t)
    ensures |Listed(t)| == |t.order| == |t.entries|
  {
    var keys := set key | key in t.order;
    assert keys == t.entries.Keys;
    DistinctSize(t.order, keys);
    AllListed(t, t.order);
  }

  lemma {:induction false} DistinctSize(order: seq<string>, keys: set<string>)
    requires forall i, j :: 0 <= i < j < |order| ==> order[i] != order[j]
    requires keys == set key | key in order
    ensures |keys| == |order|
  {
    if order != [] {
      var n := |order| - 1;
      assert order == order[..n] + [order[n]];
      assert keys - {order[n]} == set key | key in order[..n];
      DistinctSize(order[..n], keys - {order[n]});
    }
  }

  lemma {:induction false} AllListed(t: Table, order: seq<string>)
    requires forall key <- order :: key in t.entries
    ensures |Listed(t.(order := order))| == |order|
  {
    if order != [] {
      assert order[0] in order && forall key :: key in order[1..] ==> key in order;
      AllListed(t, order[1..]);
    }
  }

  // ---------- keys ----------

  lemma TextIsInjective(a: Ip, b: Ip)
    requires a.Valid() && b.Valid() && a.text == b.text
    ensures a == b
  {
  }

  /** A key determines the address, and in generic mode the protocol: an address has no `|`. */
  lemma KeyIsInjective(generic: bool, a: Device, b: Device)
    requires a.ip.Valid() && b.ip.Valid() && Key(generic, a) == Key(generic, b)
    ensures a.ip == b.ip && (generic ==> a.protocol == b.protocol)
  {
    if generic {
      var key := Key(generic, a);
      LastBarFound(a.protocol, a.ip.text);
      LastBarFound(b.protocol, b.ip.text);
      var n := |a.protocol|;
      assert key[..n] == a.protocol && key[n + 1..] == a.ip.text;
      assert key[..n] == b.protocol && key[n + 1..] == b.ip.text;
    }
    TextIsInjective(a.ip, b.ip);
  }

  function LastBar(s: string): nat {
    if s == "" then 0 else if s[|s| - 1] == '|' then |s| - 1 else LastBar(s[..|s| - 1])
  }

  lemma {:induction false} LastBarFound(p: string, s: string)
    requires '|' !in s
    ensures LastBar(p + "|" + s) == |p|
  {
    if s == "" {
      assert p + "|" + s == p + "|";
    } else {
      var whole, init := p + "|" + s, s[..|s| - 1];
      assert whole[..|whole| - 1] == p + "|" + init;
      assert s[|s| - 1] in s && forall c :: c in init ==> c in s;
      LastBarFound(p, init);
    }
  }

  // ---------- what a run leaves ----------

  /** The state and the printed rows after a run of `add` calls. */
  function Run(f: Flags, calls: seq<Device>): (Table, seq<Device>) {
    if calls == [] then (Table(map[], []), [])
    else
      var (t, rows) := Run(f, calls[..|calls| - 1]);
      var (t', row) := Added(f, t, calls[|calls| - 1]);
      (t', rows + (if row.Some? then [row.value] else []))
  }

  /** The accepted calls with a given key, oldest first. */
  function OfKey(f: Flags, calls: seq<Device>, key: string): seq<Device> {
    if calls == [] then []
    else
      var d := calls[|calls| - 1];
      OfKey(f, calls[..|calls| - 1], key) + (if FamilyOk(f, d.ip) && Key(f.generic, d) == key then [d] else [])
  }

  /** The keys of the accepted calls, each once, in the order of their first acceptance. */
  function FirstKeys(f: Flags, calls: seq<Device>): seq<string> {
    if calls == [] then []
    else
      var d, before := calls[|calls| - 1], FirstKeys(f, calls[..|calls| - 1]);
      if FamilyOk(f, d.ip) && Key(f.generic, d) !in before then before + [Key(f.generic, d)] else before
  }

  /** A device of a version above all before it. */
  ghost predicate IsRecord(ds: seq<Device>, i: nat) {
    i < |ds| && forall j :: 0 <= j < i ==> ds[j].version < ds[i].version
  }

  /** The earliest device of the greatest version. */
  ghost predicate IsLeader(ds: seq<Device>, i: nat) {
    IsRecord(ds, i) && forall j :: 0 <= j < |ds| ==> ds[j].version <= ds[i].version
  }

  /** The last record that carries a MAC. */
  ghost predicate IsMacSource(ds: seq<Device>, i: nat) {
    IsRecord(ds, i) && ds[i].mac != "" && forall j :: i < j < |ds| && IsRecord(ds, j) ==> ds[j].mac == ""
  }

  /** What the entry of a key keeps of the devices accepted under that key. */
  ghost predicate Summarises(e: Device, ds: seq<Device>) {
    && (exists i: nat :: IsLeader(ds, i) && i < |ds| && e == ds[i].(ip := ds[0].ip, mac := e.mac))
    && (if exists i: nat :: IsMacSource(ds, i)
        then exists i: nat :: IsMacSource(ds, i) && i < |ds| && e.mac == ds[i].mac
        else e.mac == "")
  }

  lemma LeaderIsUnique(ds: seq<Device>, i: nat, j: nat)
    requires IsLeader(ds, i) && IsLeader(ds, j)
    ensures i == j
  {
    var a, b := ds[i].version, ds[j].version;
  }

  lemma MacSourceIsUnique(ds: seq<Device>, i: nat, j: nat)
    requires IsMacSource(ds, i) && IsMacSource(ds, j)
    ensures i == j
  {
    var a, b := ds[i].mac, ds[j].mac;
  }

  /** The summary leaves no choice. */
  lemma SummaryIsUnique(a: Device, b: Device, ds: seq<Device>)
    requires Summarises(a, ds) && Summarises(b, ds)
    ensures a == b
  {
    hide IsLeader, IsMacSource;
    var i: nat :| IsLeader(ds, i) && i < |ds| && a == ds[i].(ip := ds[0].ip, mac := a.mac);
    var j: nat :| IsLeader(ds, j) && j < |ds| && b == ds[j].(ip := ds[0].ip, mac := b.mac);
    LeaderIsUnique(ds, i, j);
    if exists k: nat :: IsMacSource(ds, k) {
      var k: nat :| IsMacSource(ds, k) && k < |ds| && a.mac == ds[k].mac;
      var l: nat :| IsMacSource(ds, l) && l < |ds| && b.mac == ds[l].mac;
      MacSourceIsUnique(ds, k, l);
    }
  }

  lemma FirstSummarises(d: Device)
    ensures Summarises(d, [d])
  {
    assert IsLeader([d], 0);
    if d.mac != "" { assert IsMacSource([d], 0); }
  }

  lemma RecordKept(ds: seq<Device>, d: Device, i: nat)
    requires i < |ds|
    ensures IsRecord(ds + [d], i) <==> IsRecord(ds, i)
  {
    assert forall j :: 0 <= j < |ds| ==> (ds + [d])[j] == ds[j];
  }

  /** A device that is not above the entry changes nothing of the summary. */
  lemma LowerSummarises(e: Device, ds: seq<Device>, d: Device)
    requires Summarises(e, ds) && d.version <= e.version
    ensures Summarises(e, ds + [d])
  {
    var ds' := ds + [d];
    var i: nat :| IsLeader(ds, i) && i < |ds| && e == ds[i].(ip := ds[0].ip, mac := e.mac);
    assert forall j :: 0 <= j < |ds| ==> ds'[j] == ds[j];
    RecordKept(ds, d, i);
    assert IsLeader(ds', i);
    assert !IsRecord(ds', |ds|);
    MacSourceKept(ds, d);
  }

  lemma MacSourceKept(ds: seq<Device>, d: Device)
    requires !IsRecord(ds + [d], |ds|) || d.mac == ""
    ensures forall i :: IsMacSource(ds, i) <==> IsMacSource(ds + [d], i)
  {
    var ds' := ds + [d];
    assert forall j :: 0 <= j < |ds| ==> ds'[j] == ds[j];
    forall j: nat | j < |ds| ensures IsRecord(ds', j) <==> IsRecord(ds, j) { RecordKept(ds, d, j); }
  }

  /** A device above the entry merges into the summary. */
  lemma HigherSummarises(e: Device, ds: seq<Device>, d: Device)
    requires Summarises(e, ds) && d.version > e.version
    ensures Summarises(Merged(e, d), ds + [d])
  {
    var ds', n := ds + [d], |ds|;
    var i: nat :| IsLeader(ds, i) && i < |ds| && e == ds[i].(ip := ds[0].ip, mac := e.mac);
    NewLeader(ds, d, i);
    if d.mac == "" {
      hide IsLeader;
      MacSourceKept(ds, d);
    } else {
      hide IsLeader;
      assert IsMacSource(ds', n);
    }
  }

  lemma NewLeader(ds: seq<Device>, d: Device, i: nat)
    requires IsLeader(ds, i) && ds[i].version < d.version
    ensures IsLeader(ds + [d], |ds|)
  {
    assert forall j :: 0 <= j < |ds| ==> (ds + [d])[j] == ds[j];
  }

  /** The table holds exactly the accepted keys, in order of first acceptance, each with its summary. */
  ghost predicate Reflects(f: Flags, t: Table, calls: seq<Device>) {
    && t.order == FirstKeys(f, calls)
    && (forall key :: key in t.order <==> key in t.entries)
    && (forall key :: key in t.entries <==> OfKey(f, calls, key) != [])
    && (forall key <- t.entries :: Summarises(t.entries[key], OfKey(f, calls, key)))
  }

  lemma {:induction false} OfKeyHolds(f: Flags, calls: seq<Device>, key: string)
    ensures forall d <- OfKey(f, calls, key) :: d in calls && FamilyOk(f, d.ip) && Key(f.generic, d) == key
    ensures OfKey(f, calls, key) != [] <==> key in FirstKeys(f, calls)
  {
    if calls != [] {
      var d, before := calls[|calls| - 1], calls[..|calls| - 1];
      OfKeyHolds(f, before, key);
      assert calls == before + [d];
    }
  }

  /** After any run the table reflects the accepted calls. */
  lemma {:induction false} RunReflects(f: Flags, calls: seq<Device>)
    ensures Reflects(f, Run(f, calls).0, calls)
  {
    if calls != [] {
      RunReflects(f, calls[..|calls| - 1]);
      AddReflects(f, calls);
    }
  }

  lemma AddReflects(f: Flags, calls: seq<Device>)
    requires calls != [] && Reflects(f, Run(f, calls[..|calls| - 1]).0, calls[..|calls| - 1])
    ensures Reflects(f, Run(f, calls).0, calls)
  {
    hide Summarises, OfKey, Key, FamilyOk, Merged;
    var d, before := calls[|calls| - 1], calls[..|calls| - 1];
    var t, t', k := Run(f, before).0, Run(f, calls).0, Key(f.generic, d);
    forall key ensures key in t'.entries <==> OfKey(f, calls, key) != [] {
      OfKeyStep(f, calls, key);
    }
    forall key | key in t'.entries ensures Summarises(t'.entries[key], OfKey(f, calls, key)) {
      OfKeyStep(f, calls, key);
      if FamilyOk(f, d.ip) && key == k {
        EntrySummarises(f, t, d, OfKey(f, before, key));
      }
    }
  }

  lemma EntrySummarises(f: Flags, t: Table, d: Device, ds: seq<Device>)
    requires var k := Key(f.generic, d); if k in t.entries then Summarises(t.entries[k], ds) else ds == []
    requires FamilyOk(f, d.ip)
    ensures var k, t' := Key(f.generic, d), Added(f, t, d).0;
            k in t'.entries && Summarises(t'.entries[k], ds + [d])
  {
    hide Summarises;
    var k := Key(f.generic, d);
    if k !in t.entries {
      assert ds + [d] == [d];
      FirstSummarises(d);
    } else if d.version > t.entries[k].version {
      HigherSummarises(t.entries[k], ds, d);
    } else {
      LowerSummarises(t.entries[k], ds, d);
    }
  }

  lemma OfKeyStep(f: Flags, calls: seq<Device>, key: string)
    requires calls != []
    ensures var d, before := calls[|calls| - 1], OfKey(f, calls[..|calls| - 1], key);
            OfKey(f, calls, key) ==
            if FamilyOk(f, d.ip) && Key(f.generic, d) == key then before + [d] else before
  {
  }

  lemma {:induction false} FirstKeysDistinct(f: Flags, calls: seq<Device>)
    ensures forall i, j :: 0 <= i < j < |FirstKeys(f, calls)| ==> FirstKeys(f, calls)[i] != FirstKeys(f, calls)[j]
  {
    if calls != [] {
      FirstKeysDistinct(f, calls[..|calls| - 1]);
    }
  }

  lemma {:induction false} AcceptedKeys(f: Flags, calls: seq<Device>, key: string)
    ensures key in FirstKeys(f, calls) <==> exists d <- calls :: FamilyOk(f, d.ip) && Key(f.generic, d) == key
  {
    if calls != [] {
      var d, before := calls[|calls| - 1], calls[..|calls| - 1];
      AcceptedKeys(f, before, key);
      assert calls == before + [d];
    }
  }

  /** After any run the table is consistent, and its length is the number of different keys that were accepted. */
  lemma TableCountsKeys(f: Flags, calls: seq<Device>)
    ensures var t := Run(f, calls).0;
            && Consistent(t)
            && |Listed(t)| == |set d | d in calls && FamilyOk(f, d.ip) :: Key(f.generic, d)|
  {
    hide Key, FamilyOk, Run, OfKey, Summarises, Listed, FirstKeys;
    var t := Run(f, calls).0;
    RunReflects(f, calls);
    FirstKeysDistinct(f, calls);
    ListedLength(t);
    forall key ensures key in t.entries <==> exists d <- calls :: FamilyOk(f, d.ip) && Key(f.generic, d) == key {
      AcceptedKeys(f, calls, key);
    }
    assert t.entries.Keys == set d | d in calls && FamilyOk(f, d.ip) :: Key(f.generic, d);
  }

  /** Exactly the keys of devices of an enabled family have an entry, and its address is of an enabled family. */
  lemma FamilyListed(f: Flags, calls: seq<Device>)
    ensures var t := Run(f, calls).0;
            && (forall key :: key in t.entries <==>
                  exists d <- calls :: ((d.ip.V4? && f.ipv4) || (d.ip.V6? && f.ipv6)) && Key(f.generic, d) == key)
            && forall key <- t.entries ::
                 var ip := t.entries[key].ip; (ip.V4? && f.ipv4) || (ip.V6? && f.ipv6)
  {
    hide Run, Key;
    var t := Run(f, calls).0;
    RunReflects(f, calls);
    forall key
      ensures key in t.entries <==>
                exists d <- calls :: ((d.ip.V4? && f.ipv4) || (d.ip.V6? && f.ipv6)) && Key(f.generic, d) == key
    {
      AcceptedKeys(f, calls, key);
    }
    forall key | key in t.entries ensures var ip := t.entries[key].ip; (ip.V4? && f.ipv4) || (ip.V6? && f.ipv6) {
      var ds := OfKey(f, calls, key);
      OfKeyHolds(f, calls, key);
      assert ds[0] in ds;
      FirstAddress(t.entries[key], ds);
    }
  }

  lemma FirstAddress(e: Device, ds: seq<Device>)
    requires Summarises(e, ds)
    ensures ds != [] && e.ip == ds[0].ip
  {
  }

  // ---------- streaming and batch ----------

  /** The last row printed for a key. */
  function LastRow(generic: bool, rows: seq<Device>, key: string): Option<Device> {
    if rows == [] then None
    else if Key(generic, rows[|rows| - 1]) == key then Some(rows[|rows| - 1])
    else LastRow(generic, rows[..|rows| - 1], key)
  }

  /** The keys of the rows, each once, in order of first appearance. */
  function RowKeys(generic: bool, rows: seq<Device>): seq<string> {
    if rows == [] then []
    else
      var key, before := Key(generic, rows[|rows| - 1]), RowKeys(generic, rows[..|rows| - 1]);
      if key in before then before else before + [key]
  }

  /** The last rows for the given keys. */
  function LastRows(generic: bool, rows: seq<Device>, keys: seq<string>): seq<Device> {
    if keys == [] then []
    else (match LastRow(generic, rows, keys[0]) case Some(d) => [d] case None => [])
         + LastRows(generic, rows, keys[1..])
  }

  /** What a reader of the stream keeps: the last row of each key, in order of first appearance. */
  function Kept(generic: bool, rows: seq<Device>): seq<Device> {
    LastRows(generic, rows, RowKeys(generic, rows))
  }

  ghost predicate Follows(f: Flags, t: Table, rows: seq<Device>) {
    && RowKeys(f.generic, rows) == t.order
    && (forall key :: LastRow(f.generic, rows, key) == if key in t.entries then Some(t.entries[key]) else None)
    && (forall key :: key in t.order <==> key in t.entries)
    && (forall key <- t.entries :: t.entries[key].ip.Valid() && Key(f.generic, t.entries[key]) == key)
  }

  lemma StepFollows(f: Flags, t: Table, rows: seq<Device>, d: Device)
    requires Follows(f, t, rows) && d.ip.Valid()
    ensures var (t', row) := Added(f, t, d);
            Follows(f, t', rows + (if row.Some? then [row.value] else []))
  {
    var (t', row) := Added(f, t, d);
    if row.Some? {
      var rows', key := rows + [row.value], Key(f.generic, d);
      assert rows'[..|rows|] == rows;
      if key in t.entries { KeyIsInjective(f.generic, d, t.entries[key]); }
      assert Key(f.generic, row.value) == key;
    } else {
      assert rows + [] == rows;
    }
  }

  lemma {:induction false} RunFollows(f: Flags, calls: seq<Device>)
    requires forall d <- calls :: d.ip.Valid()
    ensures Follows(f, Run(f, calls).0, Run(f, calls).1)
  {
    if calls != [] {
      var before := calls[..|calls| - 1];
      assert calls == before + [calls[|calls| - 1]];
      assert calls[|calls| - 1] in calls && forall d :: d in before ==> d in calls;
      RunFollows(f, before);
      StepFollows(f, Run(f, before).0, Run(f, before).1, calls[|calls| - 1]);
    }
  }

  // ---------- which rows are streamed ----------

  /** A row is returned if and only if the table changes, and it is the new entry. */
  lemma RowMeansChange(f: Flags, t: Table, d: Device)
    ensures var (t', row) := Added(f, t, d);
            && (row.Some? <==> t' != t)
            && (row.Some? ==> Key(f.generic, d) in t'.entries && t'.entries[Key(f.generic, d)] == row.value)
  {
    hide Key;
    var key := Key(f.generic, d);
    if key !in t.entries { assert key in t.entries[key := d]; }
  }

  /** The rows of one key, oldest first. */
  function RowsOf(generic: bool, rows: seq<Device>, key: string): seq<Device> {
    if rows == [] then []
    else
      var row := rows[|rows| - 1];
      RowsOf(generic, rows[..|rows| - 1], key) + (if Key(generic, row) == key then [row] else [])
  }

  /** Where the records stand, in order. */
  ghost function Records(ds: seq<Device>): seq<nat> {
    if ds == [] then []
    else Records(ds[..|ds| - 1]) + (if IsRecord(ds, |ds| - 1) then [|ds| - 1] else [])
  }

  ghost predicate Rise(ds: seq<Device>, r: seq<nat>) {
    && (forall k :: 0 <= k < |r| ==> r[k] < |ds|)
    && forall j, k :: 0 <= j < k < |r| ==> r[j] < r[k] && ds[r[j]].version < ds[r[k]].version
  }

  /** They are all the records, rising in place and in version. */
  lemma {:induction false} RecordsExactly(ds: seq<Device>)
    ensures forall i: nat :: i in Records(ds) <==> IsRecord(ds, i)
    ensures Rise(ds, Records(ds))
  {
    if ds != [] {
      var n := |ds| - 1;
      var before := ds[..n];
      RecordsExactly(before);
      assert ds == before + [ds[n]];
      forall i: nat | i < n ensures IsRecord(ds, i) <==> IsRecord(before, i) { RecordKept(before, ds[n], i); }
      RiseOn(before, ds[n], Records(before));
    }
  }

  lemma RiseOn(ds: seq<Device>, d: Device, r: seq<nat>)
    requires Rise(ds, r)
    ensures Rise(ds + [d], r)
    ensures IsRecord(ds + [d], |ds|) ==> Rise(ds + [d], r + [|ds|])
  {
    var all, s := ds + [d], r + [|ds|];
    forall k | 0 <= k < |r| ensures all[r[k]] == ds[r[k]] && s[k] == r[k] { }
  }

  /** One row for each record, and each row is the summary up to its record. */
  ghost predicate RowsAreRecords(rows: seq<Device>, ds: seq<Device>) {
    && |rows| == |Records(ds)|
    && forall k :: 0 <= k < |rows| ==> Records(ds)[k] < |ds| && Summarises(rows[k], ds[..Records(ds)[k] + 1])
  }

  /** Over any run the rows streamed for a key are one for each record of the key, in order: each is what the entry then
      became. So the versions of its rows rise strictly, and a repeated answer prints nothing. */
  lemma {:induction false} StreamedRows(f: Flags, calls: seq<Device>, key: string)
    requires forall d <- calls :: d.ip.Valid()
    ensures RowsAreRecords(RowsOf(f.generic, Run(f, calls).1, key), OfKey(f, calls, key))
  {
    hide Run, RowsAreRecords, RowsOf, OfKey, Key;
    if calls == [] {
      NothingStreamed(f, key);
    } else {
      var before, d := calls[..|calls| - 1], calls[|calls| - 1];
      assert calls == before + [d];
      assert d in calls && forall x :: x in before ==> x in calls;
      StreamedRows(f, before, key);
      OfKeyStep(f, calls, key);
      RunReflects(f, before);
      RunFollows(f, before);
      RunLast(f, calls);
      var (t, rows) := Run(f, before);
      var row := Added(f, t, d).1;
      var ds := OfKey(f, before, key);
      if row.Some? { RowKey(f, t, rows, d); RowsOfSnoc(f.generic, rows, row.value, key); }
      if FamilyOk(f, d.ip) && Key(f.generic, d) == key {
        KeySummarised(f, t, before, key);
        RecordRow(f, t, d, ds, RowsOf(f.generic, rows, key));
      } else {
        NoRow(f, t, d);
      }
    }
  }

  lemma NothingStreamed(f: Flags, key: string)
    ensures RowsAreRecords(RowsOf(f.generic, Run(f, []).1, key), OfKey(f, [], key))
  {
  }

  lemma RunLast(f: Flags, calls: seq<Device>)
    requires calls != []
    ensures var (t, rows) := Run(f, calls[..|calls| - 1]);
            var (t', row) := Added(f, t, calls[|calls| - 1]);
            Run(f, calls) == (t', if row.Some? then rows + [row.value] else rows)
  {
    hide Added;
    var rows := Run(f, calls[..|calls| - 1]).1;
    assert rows + [] == rows;
  }

  lemma RowsOfSnoc(generic: bool, rows: seq<Device>, row: Device, key: string)
    ensures RowsOf(generic, rows + [row], key) ==
            if Key(generic, row) == key then RowsOf(generic, rows, key) + [row] else RowsOf(generic, rows, key)
  {
    hide Key;
    assert (rows + [row])[..|rows|] == rows;
    assert RowsOf(generic, rows, key) + [] == RowsOf(generic, rows, key);
  }

  /** A row has the key of the device that made it. */
  lemma RowKey(f: Flags, t: Table, rows: seq<Device>, d: Device)
    requires Follows(f, t, rows) && d.ip.Valid() && Added(f, t, d).1.Some?
    ensures Key(f.generic, Added(f, t, d).1.value) == Key(f.generic, d)
  {
    if Key(f.generic, d) in t.entries { KeyIsInjective(f.generic, d, t.entries[Key(f.generic, d)]); }
  }

  lemma NoRow(f: Flags, t: Table, d: Device)
    ensures !FamilyOk(f, d.ip) ==> Added(f, t, d).1.None?
  {
  }

  lemma KeySummarised(f: Flags, t: Table, calls: seq<Device>, key: string)
    requires Reflects(f, t, calls)
    ensures var ds := OfKey(f, calls, key);
            if key in t.entries then Summarises(t.entries[key], ds) else ds == []
  {
    hide Summarises, OfKey;
  }

  /** The next device of a key makes a row exactly when it is a record. */
  lemma RecordRow(f: Flags, t: Table, d: Device, ds: seq<Device>, rows: seq<Device>)
    requires FamilyOk(f, d.ip)
    requires var k := Key(f.generic, d); if k in t.entries then Summarises(t.entries[k], ds) else ds == []
    requires RowsAreRecords(rows, ds)
    ensures var row := Added(f, t, d).1;
            RowsAreRecords(if row.Some? then rows + [row.value] else rows, ds + [d])
  {
    hide Summarises, IsRecord, Key, Added, Records;
    var key, row, all := Key(f.generic, d), Added(f, t, d).1, ds + [d];
    RecordIs(f, t, d, ds);
    EntrySummarises(f, t, d, ds);
    RowMeansChange(f, t, d);
    RecordsStep(ds, d);
    assert all[..|ds| + 1] == all;
    var r := Records(ds);
    assert forall k :: 0 <= k < |rows| ==> all[..r[k] + 1] == ds[..r[k] + 1];
  }

  lemma RecordsStep(ds: seq<Device>, d: Device)
    ensures Records(ds + [d]) == Records(ds) + (if IsRecord(ds + [d], |ds|) then [|ds|] else [])
  {
    assert (ds + [d])[..|ds|] == ds;
  }

  lemma RecordIs(f: Flags, t: Table, d: Device, ds: seq<Device>)
    requires FamilyOk(f, d.ip)
    requires var k := Key(f.generic, d); if k in t.entries then Summarises(t.entries[k], ds) else ds == []
    ensures IsRecord(ds + [d], |ds|) <==> Added(f, t, d).1.Some?
  {
    hide Key;
    assert forall j :: 0 <= j < |ds| ==> (ds + [d])[j] == ds[j];
  }

  lemma {:induction false} KeptIsListed(f: Flags, t: Table, rows: seq<Device>, keys: seq<string>)
    requires Follows(f, t, rows)
    ensures LastRows(f.generic, rows, keys) == Listed(t.(order := keys))
    decreases |keys|
  {
    if keys != [] {
      KeptIsListed(f, t, rows, keys[1..]);
    }
  }

  /** After any run, in both key modes, the last printed row of each key in order of first appearance is the
      batch list. */
  lemma StreamingEqualsBatch(f: Flags, calls: seq<Device>)
    requires forall d <- calls :: d.ip.Valid()
    ensures Kept(f.generic, Run(f, calls).1) == Listed(Run(f, calls).0)
  {
    RunFollows(f, calls);
    var (t, rows) := Run(f, calls);
    KeptIsListed(f, t, rows, t.order);
  }
}
