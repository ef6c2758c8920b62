/** CSV rows (`render_csv`) and a reader after section 2 of RFC 4180. */
module Csv {
  import opened Bytes
  import Sequences
  import opened Text
  import opened Devices

  const QUOTE := '"'
  const COMMA := ','
  const NEWLINE := '\n'
  const CSV_HEADER := "protocol" + "," + ("version" + "," + ("ip" + "," + ("mac" + "," + ("type" + "," + "serial"))))

  function Digit(d: nat): char
    requires d < 10
  {
    '0' + d as char
  }

  function Decimal(n: nat): (s: string)
    ensures s != ""
  {
    if n < 10 then [Digit(n)] else Decimal(n / 10) + [Digit(n % 10)]
  }

  /** The field with every quote doubled. */
  function Doubled(f: string): string {
    if f == "" then "" else (if f[0] == QUOTE then [QUOTE, QUOTE] else [f[0]]) + Doubled(f[1..])
  }

  function Quoted(f: string): string { [QUOTE] + Doubled(f) + [QUOTE] }

  function Fields(d: Device): seq<string> {
    [d.protocol, Decimal(d.version), d.ip.text, d.mac, d.deviceType, d.serial]
  }

  function QuotedAll(fs: seq<string>): (r: seq<string>)
    ensures |r| == |fs|
  {
    if fs == [] then [] else [Quoted(fs[0])] + QuotedAll(fs[1..])
  }

  function RenderCsv(d: Device): string { Join(QuotedAll(Fields(d)), COMMA) }

  function Rendered(ds: seq<Device>): seq<string> {
    if ds == [] then [] else [RenderCsv(ds[0])] + Rendered(ds[1..])
  }

  // ---------- the reader ----------

  /** The rest of a quoted field, behind its opening quote. */
  function ReadQuoted(s: string): (r: Option<(string, string)>)
    ensures r.Some? ==> |r.value.1| < |s|
  {
    if s == "" then None
    else if s[0] != '"' then
      (match ReadQuoted(s[1..]) case Some((f, rest)) => Some(([s[0]] + f, rest)) case None => None)
    else if |s| > 1 && s[1] == '"' then
      (match ReadQuoted(s[2..]) case Some((f, rest)) => Some((['"'] + f, rest)) case None => None)
    else Some(("", s[1..]))
  }

  /** A field without quotes. */
  function ReadBare(s: string): (r: (string, string))
    ensures s == r.0 + r.1
    ensures r.1 == "" || r.1[0] in {'"', ',', '\n'}
  {
    if s == "" || s[0] in {'"', ',', '\n'} then ("", s)
    else
      var (f, rest) := ReadBare(s[1..]);
      ([s[0]] + f, rest)
  }

  function ReadField(s: string): (r: Option<(string, string)>)
    ensures r.Some? ==> |r.value.1| <= |s|
  {
    if s != "" && s[0] == '"' then ReadQuoted(s[1..]) else Some(ReadBare(s))
  }

  /** One record and the text behind its line break. */
  function ReadRow(s: string): (r: Option<(seq<string>, string)>)
    ensures r.Some? ==> |r.value.1| < |s|
    decreases |s|
  {
    match ReadField(s)
    case None => None
    case Some((f, rest)) =>
      if rest == "" || rest[0] == '"' then None
      else if rest[0] == ',' then
        (match ReadRow(rest[1..]) case Some((fs, more)) => Some(([f] + fs, more)) case None => None)
      else if rest[0] == '\n' then Some(([f], rest[1..]))
      else None
  }

  function ReadFile(s: string): Option<seq<seq<string>>>
    decreases |s|
  {
    if s == "" then Some([])
    else match ReadRow(s)
      case None => None
      case Some((row, rest)) =>
        match ReadFile(rest)
        case Some(rows) => Some([row] + rows)
        case None => None
  }

  // ---------- reading back ----------

  lemma {:induction false} QuotedReads(f: string, rest: string)
    requires rest == "" || rest[0] != QUOTE
    ensures ReadQuoted(Doubled(f) + [QUOTE] + rest) == Some((f, rest))
  {
    var s := Doubled(f) + [QUOTE] + rest;
    if f == "" {
      assert s == [QUOTE] + rest;
    } else {
      QuotedReads(f[1..], rest);
      var tail := Doubled(f[1..]) + [QUOTE] + rest;
      if f[0] == QUOTE {
        assert s == [QUOTE, QUOTE] + tail;
      } else {
        assert s == [f[0]] + tail;
      }
      assert f == [f[0]] + f[1..];
    }
  }

  lemma FieldReads(f: string, rest: string)
    requires rest == "" || rest[0] != QUOTE
    ensures ReadField(Quoted(f) + rest) == Some((f, rest))
  {
    hide ReadQuoted, Doubled;
    QuotedReads(f, rest);
    var tail := Doubled(f) + [QUOTE];
    Sequences.Assoc([QUOTE], Doubled(f), [QUOTE]);
    Sequences.Assoc([QUOTE], tail, rest);
    Sequences.Cons(QUOTE, tail + rest);
  }

  /** A field at the end of its row, and one before another. */
  lemma RowEnds(s: string, f: string, rest: string)
    requires ReadField(s) == Some((f, [NEWLINE] + rest))
    ensures ReadRow(s) == Some(([f], rest))
  {
    hide ReadField;
    assert ([NEWLINE] + rest)[1..] == rest;
  }

  lemma RowGoesOn(s: string, f: string, tail: string)
    requires ReadField(s) == Some((f, [COMMA] + tail))
    ensures ReadRow(s) ==
            match ReadRow(tail) case Some((fs, more)) => Some(([f] + fs, more)) case None => None
  {
    hide ReadField;
    assert ([COMMA] + tail)[1..] == tail;
  }

  lemma JoinStep(fs: seq<string>, rest: string)
    requires fs != []
    ensures Join(fs, COMMA) + [NEWLINE] + rest ==
            fs[0] + (if |fs| == 1 then [NEWLINE] + rest else [COMMA] + (Join(fs[1..], COMMA) + [NEWLINE] + rest))
  {
    hide Join;
    Sequences.HeadTail(fs);
    Sequences.Assoc(Join(fs, COMMA), [NEWLINE], rest);
    if |fs| == 1 {
      JoinOne(fs[0], COMMA);
      assert fs == [fs[0]];
    } else {
      var more := Join(fs[1..], COMMA);
      JoinMore(fs[0], fs[1..], COMMA);
      Sequences.Assoc(fs[0] + [COMMA], more, [NEWLINE] + rest);
      Sequences.Assoc(fs[0], [COMMA], more + ([NEWLINE] + rest));
      Sequences.Assoc(more, [NEWLINE], rest);
    }
  }

  lemma {:induction false} RowReads(fs: seq<string>, rest: string)
    requires fs != []
    ensures ReadRow(Join(QuotedAll(fs), COMMA) + [NEWLINE] + rest) == Some((fs, rest))
    decreases |fs|
  {
    hide ReadField, ReadRow, Quoted, Join;
    var qs := QuotedAll(fs);
    var s := Join(qs, COMMA) + [NEWLINE] + rest;
    assert qs[0] == Quoted(fs[0]) && qs[1..] == QuotedAll(fs[1..]) && |qs| == |fs|;
    JoinStep(qs, rest);
    if |fs| == 1 {
      FieldReads(fs[0], [NEWLINE] + rest);
      RowEnds(s, fs[0], rest);
      assert fs == [fs[0]];
    } else {
      var tail := Join(QuotedAll(fs[1..]), COMMA) + [NEWLINE] + rest;
      FieldReads(fs[0], [COMMA] + tail);
      RowGoesOn(s, fs[0], tail);
      RowReads(fs[1..], rest);
      assert fs == [fs[0]] + fs[1..];
    }
  }

  /** The printed text: each line and a line break. */
  function Printed(lines: seq<string>): string {
    if lines == [] then "" else lines[0] + [NEWLINE] + Printed(lines[1..])
  }

  function AllFields(ds: seq<Device>): seq<seq<string>> {
    if ds == [] then [] else [Fields(ds[0])] + AllFields(ds[1..])
  }

  /** A printed row reads as the fields of its device, whatever they contain. */
  lemma RenderedReads(d: Device, rest: string)
    ensures ReadRow(RenderCsv(d) + [NEWLINE] + rest) == Some((Fields(d), rest))
  {
    hide ReadRow, QuotedAll;
    RowReads(Fields(d), rest);
  }

  lemma {:induction false} RowsRead(ds: seq<Device>)
    ensures ReadFile(Printed(Rendered(ds))) == Some(AllFields(ds))
  {
    hide ReadRow, RenderCsv;
    if ds != [] {
      RowsRead(ds[1..]);
      assert Rendered(ds)[1..] == Rendered(ds[1..]);
      RenderedReads(ds[0], Printed(Rendered(ds[1..])));
    }
  }

  lemma {:induction false} BareReads(f: string, rest: string)
    requires (forall c <- f :: c !in {QUOTE, COMMA, NEWLINE}) && rest != "" && rest[0] in {COMMA, NEWLINE}
    ensures ReadBare(f + rest) == (f, rest)
  {
    if f == "" {
      assert f + rest == rest;
    } else {
      assert f[0] in f && forall c :: c in f[1..] ==> c in f;
      assert (f + rest)[1..] == f[1..] + rest;
      BareReads(f[1..], rest);
      assert f == [f[0]] + f[1..];
    }
  }

  predicate IsBare(f: string) { f != "" && forall c <- f :: c !in {QUOTE, COMMA, NEWLINE} }

  lemma {:induction false} BareRowReads(fs: seq<string>, rest: string)
    requires fs != [] && forall f <- fs :: IsBare(f)
    ensures ReadRow(Join(fs, COMMA) + [NEWLINE] + rest) == Some((fs, rest))
    decreases |fs|
  {
    hide ReadField, ReadRow, Join;
    var s, f := Join(fs, COMMA) + [NEWLINE] + rest, fs[0];
    assert f in fs;
    JoinStep(fs, rest);
    if |fs| == 1 {
      BareFieldReads(f, [NEWLINE] + rest);
      RowEnds(s, f, rest);
      assert fs == [f];
    } else {
      var tail := Join(fs[1..], COMMA) + [NEWLINE] + rest;
      BareFieldReads(f, [COMMA] + tail);
      RowGoesOn(s, f, tail);
      assert forall g :: g in fs[1..] ==> g in fs;
      BareRowReads(fs[1..], rest);
      assert fs == [f] + fs[1..];
    }
  }

  lemma BareFieldReads(f: string, rest: string)
    requires IsBare(f) && rest != "" && rest[0] in {COMMA, NEWLINE}
    ensures ReadField(f + rest) == Some((f, rest))
  {
    hide ReadBare;
    BareReads(f, rest);
    assert (f + rest)[0] == f[0] && f[0] in f;
  }

  const COLUMNS := ["protocol", "version", "ip", "mac", "type", "serial"]

  /** A header line in front of any text reads as the column names in front of its rows. */
  lemma HeaderReads(lines: seq<string>)
    ensures ReadFile(Printed([CSV_HEADER] + lines)) ==
            match ReadFile(Printed(lines)) case Some(rows) => Some([COLUMNS] + rows) case None => None
  {
    hide ReadRow;
    assert ([CSV_HEADER] + lines)[1..] == lines;
    HeaderIsColumns();
    BareRowReads(COLUMNS, Printed(lines));
  }

  lemma HeaderIsColumns()
    ensures Join(COLUMNS, COMMA) == CSV_HEADER
    ensures forall f <- COLUMNS :: IsBare(f)
  {
    hide IsBare;
    ColumnsAreBare();
    JoinTwo("type", ["serial"]);
    JoinTwo("mac", ["type", "serial"]);
    JoinTwo("ip", ["mac", "type", "serial"]);
    JoinTwo("version", ["ip", "mac", "type", "serial"]);
    JoinTwo("protocol", ["version", "ip", "mac", "type", "serial"]);
  }

  lemma ColumnsAreBare()
    ensures IsBare("protocol") && IsBare("version") && IsBare("ip")
    ensures IsBare("mac") && IsBare("type") && IsBare("serial")
  {
  }

  lemma JoinTwo(f: string, rest: seq<string>)
    requires rest != []
    ensures Join([f] + rest, COMMA) == f + "," + Join(rest, COMMA)
    ensures |rest| == 1 ==> Join(rest, COMMA) == rest[0]
  {
    assert ([f] + rest)[1..] == rest;
  }

  // ---------- from fields to the device ----------

  function Number(s: string): Option<nat> {
    if s == "" then Some(0)
    else if !('0' <= s[|s| - 1] <= '9') then None
    else match Number(s[..|s| - 1])
      case Some(n) => Some(10 * n + (s[|s| - 1] as int - '0' as int))
      case None => None
  }

  lemma {:induction false} DecimalReads(n: nat)
    ensures Number(Decimal(n)) == Some(n)
  {
    if n < 10 {
      assert Decimal(n)[..0] == "";
    } else {
      DecimalReads(n / 10);
      assert Decimal(n)[..|Decimal(n)| - 1] == Decimal(n / 10);
    }
  }

  function DeviceOf(fs: seq<string>): Option<Device> {
    if |fs| != 6 then None
    else match Number(fs[1])
      case Some(v) =>
        if v > U32_MAX then None
        else Some(Device(fs[0], v, if ':' in fs[2] then V6(fs[2]) else V4(fs[2]), fs[3], fs[4], fs[5]))
      case None => None
  }

  lemma FieldsAreDevice(d: Device)
    requires d.ip.Valid()
    ensures DeviceOf(Fields(d)) == Some(d)
  {
    hide Number;
    DecimalReads(d.version);
  }

  /** A printed row determines the device. */
  lemma RowIsDevice(d: Device, rest: string)
    requires d.ip.Valid()
    ensures match ReadRow(RenderCsv(d) + [NEWLINE] + rest)
            case Some((fs, more)) => DeviceOf(fs) == Some(d) && more == rest
            case None => false
  {
    hide ReadRow, RenderCsv;
    RenderedReads(d, rest);
    FieldsAreDevice(d);
  }
}
