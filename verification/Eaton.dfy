/** `extract_object_entry` of `eaton.rs`: the capture of `<OBJECT +name *= *"NAME">([^<]*)</OBJECT>`, and the slice that
    can fail on the way to it. */
module Eaton {
  import opened Bytes
  import Sequences
  import Matchers
  import opened Regex
  import Utf8

  const OBJECT := "<OBJECT"
  const END_OBJECT := "</OBJECT>"

  function ContentTail(): seq<Atom> { [NotStar('<')] + (Lit(END_OBJECT) + []) }

  function NameTail(name: string): seq<Atom> { Lit(name) + (Lit("\">") + ContentTail()) }

  /** The attribute up to the quote that opens its value, and then `tail`. */
  function Attribute(tail: seq<Atom>): seq<Atom> {
    [Plus(' ')] + (Lit("name") + ([Star(' ')] + ([Ch('=')] + ([Star(' ')] + ([Ch('"')] + tail)))))
  }

  function ObjectPattern(name: string): seq<Atom> { Lit(OBJECT) + Attribute(NameTail(name)) }

  /** Where the value of an opening at `start` begins: behind its quote. */
  function ValueAt(xml: string, start: nat): (v: Option<nat>)
    requires start <= |xml|
    ensures v.Some? ==> start < v.value <= |xml| && xml[v.value - 1] == '"'
  {
    if !(OBJECT <= xml[start..]) then None
    else
      var a := start + |OBJECT|;
      var b := RunEnd(Star(' '), xml, a);
      if a == b || !("name" <= xml[b..]) then None
      else
        var c := RunEnd(Star(' '), xml, b + |"name"|);
        if c >= |xml| || xml[c] != '=' then None
        else
          var d := RunEnd(Star(' '), xml, c + 1);
          if d >= |xml| || xml[d] != '"' then None else Some(d + 1)
  }

  /** The name would end inside a character. */
  predicate Splits(xml: string, start: nat, name: string)
    requires start <= |xml|
  {
    match ValueAt(xml, start)
    case Some(v) => v + |name| <= |xml| && !Utf8.IsBoundary(xml, v + |name|)
    case None => false
  }

  /** A slice that is not between characters ends the task. */
  datatype SliceError = NotABoundary

  /** Whether `p` is an opening that splits a character before the first match. */
  ghost predicate FailsAt(xml: string, name: string, p: nat) {
    && p <= |xml| && Splits(xml, p, name)
    && forall q :: 0 <= q < p ==> MatchFrom(ObjectPattern(name), xml, q).None?
  }

  /** The leftmost capture, or a failure exactly when an opening before any match splits a character. */
  method ExtractObjectEntry(xml: string, name: string) returns (r: Result<Option<string>, SliceError>)
    requires Utf8.WellFormed(xml)
    ensures r.Err? <==> exists p: nat :: FailsAt(xml, name, p)
    ensures r.Ok? ==> Captures(ObjectPattern(name), |name| + 18, |name| + 19, xml, r.value)
  {
    hide Captures, Deterministic, MatchFrom, ObjectPattern, Find, Concat, Splits, Utf8.WellFormed;
    ObjectDeterministic(name);
    ghost var pat := ObjectPattern(name);
    var cursor := 0;
    while true
      invariant 0 <= cursor <= |xml|
      invariant forall q :: 0 <= q < cursor ==> MatchFrom(pat, xml, q).None? && !Splits(xml, q, name)
      decreases |xml| - cursor
    {
      var off := Find(xml, OBJECT, cursor);
      ObjectNotBefore(xml, name, cursor);
      if off.None? {
        FoundNowhere(pat, |name| + 18, |name| + 19, xml);
        return Ok(None);
      }
      var captured := MatchObject(xml, off.value, name);
      if captured.Err? {
        assert FailsAt(xml, name, off.value);
        return captured;
      }
      if captured.value.Some? {
        FoundAt(pat, |name| + 18, |name| + 19, xml, off.value, MatchFrom(pat, xml, off.value).value);
        MatchedFirst(xml, name, off.value);
        return captured;
      }
      cursor := off.value + 1;
    }
  }

  /** Nothing fails when a match comes before any opening that splits a character. */
  lemma MatchedFirst(xml: string, name: string, p: nat)
    requires p <= |xml| && MatchFrom(ObjectPattern(name), xml, p).Some?
    requires forall q :: 0 <= q <= p ==> !Splits(xml, q, name)
    ensures forall q: nat :: !FailsAt(xml, name, q)
  {
    hide MatchFrom, Splits, ObjectPattern;
    forall q: nat ensures !FailsAt(xml, name, q) {
      if q > p { assert MatchFrom(ObjectPattern(name), xml, p).Some?; }
    }
  }

  lemma ObjectDeterministic(name: string)
    ensures Deterministic(ObjectPattern(name)) && |ObjectPattern(name)| == |name| + 28
  {
    hide Deterministic, Lit;
    var content, value := ContentTail(), [Ch('"')] + NameTail(name);
    DeterministicNil();
    DeterministicLit(END_OBJECT, []);
    DeterministicCons(NotStar('<'), Lit(END_OBJECT) + []);
    DeterministicLit("\">", content);
    DeterministicLit(name, Lit("\">") + content);
    DeterministicCons(Ch('"'), NameTail(name));
    DeterministicCons(Star(' '), value);
    DeterministicCons(Ch('='), [Star(' ')] + value);
    DeterministicCons(Star(' '), [Ch('=')] + ([Star(' ')] + value));
    DeterministicLit("name", [Star(' ')] + ([Ch('=')] + ([Star(' ')] + value)));
    DeterministicCons(Plus(' '), Lit("name") + ([Star(' ')] + ([Ch('=')] + ([Star(' ')] + value))));
    DeterministicLit(OBJECT, Attribute(NameTail(name)));
  }

  lemma DeterministicNil()
    ensures Deterministic([])
  {
  }

  lemma ObjectNotBefore(xml: string, name: string, from: nat)
    requires from <= |xml|
    ensures var off := Find(xml, OBJECT, from);
            forall q :: from <= q <= |xml| && (off.Some? ==> q < off.value) ==>
              MatchFrom(ObjectPattern(name), xml, q).None? && !Splits(xml, q, name)
  {
    hide MatchFrom, Find, Splits, Attribute, NameTail;
    NotBefore(OBJECT, Attribute(NameTail(name)), xml, from);
    forall q | from <= q <= |xml| && !(OBJECT <= xml[q..]) ensures !Splits(xml, q, name) { NoOpening(xml, q, name); }
  }

  lemma NoOpening(xml: string, q: nat, name: string)
    requires q <= |xml| && !(OBJECT <= xml[q..])
    ensures !Splits(xml, q, name)
  {
    hide RunEnd;
  }

  /** The tests of an opening, up to the quote. */
  method FindValue(xml: string, start: nat) returns (v: Option<nat>)
    requires start <= |xml| && OBJECT <= xml[start..] && Utf8.WellFormed(xml)
    ensures v == ValueAt(xml, start)
  {
    hide RunEnd, Utf8.WellFormed, ValueAt;
    ValueSteps(xml, start);
    var ws := start + |OBJECT|;
    var i := Matchers.SkipSpaces(xml, ws);
    if i == ws || !("name" <= xml[i..]) { return None; }
    i := i + |"name"|;
    i := Matchers.SkipSpaces(xml, i);
    Sequences.OneAt(xml, i, '=');
    if !("=" <= xml[i..]) { return None; }
    i := i + 1;
    i := Matchers.SkipSpaces(xml, i);
    Sequences.OneAt(xml, i, '"');
    if !("\"" <= xml[i..]) { return None; }
    return Some(i + 1);
  }

  lemma ValueSteps(xml: string, start: nat)
    requires start <= |xml| && OBJECT <= xml[start..]
    ensures start + |OBJECT| <= |xml|
    ensures var a := start + |OBJECT|;
            var b := RunEnd(Star(' '), xml, a);
            if a == b || !("name" <= xml[b..]) then ValueAt(xml, start) == None
            else
              && b + |"name"| <= |xml|
              && var c := RunEnd(Star(' '), xml, b + |"name"|);
                 if c >= |xml| || xml[c] != '=' then ValueAt(xml, start) == None
                 else
                   var d := RunEnd(Star(' '), xml, c + 1);
                   ValueAt(xml, start) == if d >= |xml| || xml[d] != '"' then None else Some(d + 1)
  {
    hide RunEnd;
  }

  /** The match at an opening, unless its name splits a character. */
  method MatchObject(xml: string, start: nat, name: string) returns (r: Result<Option<string>, SliceError>)
    requires start <= |xml| && OBJECT <= xml[start..] && Utf8.WellFormed(xml)
    ensures r.Err? <==> Splits(xml, start, name)
    ensures r.Ok? ==>
              match MatchFrom(ObjectPattern(name), xml, start)
              case None => r.value == None
              case Some(pieces) => |pieces| == |name| + 28 && r.value == Some(Concat(pieces[|name| + 18..|name| + 19]))
  {
    hide MatchFrom, Find, Concat, Lit, Singles, RunEnd, Ahead, ValueAt, NameTail, ContentTail, Utf8.WellFormed;
    ghost var goal := MatchFrom(ObjectPattern(name), xml, start);
    var v := FindValue(xml, start);
    ghost var pre := AttributeMatches(xml, start, NameTail(name));
    if v.None? { return Ok(None); }
    var i := v.value;
    var nameEnd := i + |name|;
    StepName(xml, name, i, pre, goal);
    if nameEnd > |xml| { return Ok(None); }
    Utf8.AsciiBoundary(xml, i);
    if !Utf8.IsBoundary(xml, i) || !Utf8.IsBoundary(xml, nameEnd) { return Err(NotABoundary); }
    if xml[i..nameEnd] != name { return Ok(None); }
    var content := MatchContent(xml, nameEnd, name, pre + Singles(name), goal);
    return Ok(content);
  }

  lemma StepName(xml: string, name: string, i: nat, pre: seq<string>, goal: Option<seq<string>>)
    requires i <= |xml| && goal == Ahead(pre, MatchFrom(NameTail(name), xml, i))
    ensures if i + |name| <= |xml| && xml[i..i + |name|] == name
            then goal == Ahead(pre + Singles(name), MatchFrom(Lit("\">") + ContentTail(), xml, i + |name|))
            else goal == None
  {
    hide MatchFrom, Lit, Singles, Ahead, ContentTail;
    StepLit(name, Lit("\">") + ContentTail(), xml, i, pre, goal);
    SliceIsPrefix(xml, i, name);
  }

  lemma SliceIsPrefix(s: string, i: nat, w: string)
    requires i <= |s|
    ensures w <= s[i..] <==> i + |w| <= |s| && s[i..i + |w|] == w
  {
    if i + |w| <= |s| { assert s[i..][..|w|] == s[i..i + |w|]; }
  }

  /** The rest of the match, behind the name. */
  method MatchContent(xml: string, start: nat, name: string, ghost before: seq<string>, ghost goal: Option<seq<string>>)
    returns (r: Option<string>)
    requires start <= |xml| && |before| == |name| + 16
    requires goal == Ahead(before, MatchFrom(Lit("\">") + ContentTail(), xml, start))
    ensures match goal
            case None => r == None
            case Some(pieces) => |pieces| == |name| + 28 && r == Some(Concat(pieces[|name| + 18..|name| + 19]))
  {
    hide MatchFrom, Find, Concat, Lit, Singles, RunEnd, Ahead;
    ghost var pre := before;
    var i := start;
    StepLit("\">", ContentTail(), xml, i, pre, goal);
    if !("\">" <= xml[i..]) { return None; }
    pre := pre + Singles("\">");
    i := i + 2;
    var bracket := Find(xml, "<", i);
    var end := if bracket.Some? then bracket.value else |xml|;
    StopIsFound('<', xml, i);
    StepClass(NotStar('<'), Lit(END_OBJECT) + [], xml, i, pre, goal);
    var content := xml[i..end];
    pre := pre + [content];
    ghost var k := |pre| - 1;
    StepLit(END_OBJECT, [], xml, end, pre, goal);
    if !(END_OBJECT <= xml[end..]) { return None; }
    EndFrom(xml, end + |END_OBJECT|);
    pre := pre + Singles(END_OBJECT);
    Matchers.AheadEnd(pre);
    assert k == |name| + 18 && pre[k] == content;
    Matchers.OneCaptured(pre, k);
    return Some(content);
  }

  /** A pattern that begins with the attribute matches exactly where there is a value, and goes on there. */
  lemma AttributeMatches(xml: string, start: nat, tail: seq<Atom>) returns (pre: seq<string>)
    requires start <= |xml|
    ensures |pre| == 16
    ensures MatchFrom(Lit(OBJECT) + Attribute(tail), xml, start) ==
            match ValueAt(xml, start) case Some(v) => Ahead(pre, MatchFrom(tail, xml, v)) case None => None
    ensures ValueAt(xml, start).Some? ==> start + |Concat(pre)| == ValueAt(xml, start).value
  {
    hide MatchFrom, Lit, Singles, RunEnd, Ahead, Concat;
    var goal := MatchFrom(Lit(OBJECT) + Attribute(tail), xml, start);
    pre := seq(16, i => "");
    AheadTwice([], [], goal);
    var value := [Ch('"')] + tail;
    StepLit(OBJECT, Attribute(tail), xml, start, [], goal);
    if OBJECT <= xml[start..] {
      var a := start + |OBJECT|;
      var b := RunEnd(Star(' '), xml, a);
      SamePlus(xml, a);
      var p1 := [] + Singles(OBJECT);
      StepClass(Plus(' '), Lit("name") + ([Star(' ')] + ([Ch('=')] + ([Star(' ')] + value))), xml, a, p1, goal);
      if a < b {
        var p2 := p1 + [xml[a..b]];
        StepLit("name", [Star(' ')] + ([Ch('=')] + ([Star(' ')] + value)), xml, b, p2, goal);
        if "name" <= xml[b..] {
          var p3 := p2 + Singles("name");
          PiecesSize(xml, start, a, b);
          pre := AttributeEnds(xml, b + |"name"|, tail, p3, goal);
        }
      }
    }
  }

  lemma PiecesSize(xml: string, start: nat, a: nat, b: nat)
    requires start + |OBJECT| == a <= b <= |xml|
    ensures var p3 := [] + Singles(OBJECT) + [xml[a..b]] + Singles("name");
            |p3| == 12 && start + |Concat(p3)| == b + |"name"|
  {
    hide Concat, Singles;
    ConcatAppend([] + Singles(OBJECT) + [xml[a..b]], Singles("name"));
    ConcatAppend([] + Singles(OBJECT), [xml[a..b]]);
    ConcatSingles(OBJECT);
    ConcatSingles("name");
    ConcatOne(xml[a..b]);
    assert [] + Singles(OBJECT) == Singles(OBJECT);
  }

  /** The second half of the attribute: spaces, an equals sign, spaces and the quote. */
  lemma AttributeEnds(xml: string, from: nat, tail: seq<Atom>, p3: seq<string>, goal: Option<seq<string>>)
    returns (pre: seq<string>)
    requires from <= |xml| && |p3| == 12
    requires goal == Ahead(p3, MatchFrom([Star(' ')] + ([Ch('=')] + ([Star(' ')] + ([Ch('"')] + tail))), xml, from))
    ensures |pre| == 16
    ensures var c := RunEnd(Star(' '), xml, from);
            if c >= |xml| || xml[c] != '=' then goal == None
            else
              var d := RunEnd(Star(' '), xml, c + 1);
              if d >= |xml| || xml[d] != '"' then goal == None
              else goal == Ahead(pre, MatchFrom(tail, xml, d + 1)) && |Concat(pre)| == |Concat(p3)| + (d + 1 - from)
  {
    hide MatchFrom, RunEnd, Ahead, Concat;
    pre := seq(16, i => "");
    var value := [Ch('"')] + tail;
    var c := RunEnd(Star(' '), xml, from);
    StepClass(Star(' '), [Ch('=')] + ([Star(' ')] + value), xml, from, p3, goal);
    var p4 := p3 + [xml[from..c]];
    StepChar('=', [Star(' ')] + value, xml, c, p4, goal);
    if c < |xml| && xml[c] == '=' {
      var p5 := p4 + ["="];
      var d := RunEnd(Star(' '), xml, c + 1);
      StepClass(Star(' '), value, xml, c + 1, p5, goal);
      var p6 := p5 + [xml[c + 1..d]];
      StepChar('"', tail, xml, d, p6, goal);
      pre := p6 + ["\""];
      ConcatAppend(p6, ["\""]);
      ConcatAppend(p5, [xml[c + 1..d]]);
      ConcatAppend(p4, ["="]);
      ConcatAppend(p3, [xml[from..c]]);
      ConcatOne("\"");
      ConcatOne("=");
      ConcatOne(xml[c + 1..d]);
      ConcatOne(xml[from..c]);
    }
  }

  /** One or more spaces end where spaces end. */
  lemma SamePlus(s: string, p: nat)
    requires p <= |s|
    ensures RunEnd(Plus(' '), s, p) == RunEnd(Star(' '), s, p)
  {
    var q := RunEnd(Star(' '), s, p);
    assert forall i :: p <= i < q ==> InClass(Star(' '), s[i]);
    RunEndIs(Plus(' '), s, p, q);
  }

  /** There is a value exactly when `<OBJECT +name *= *"` matches at the offset, and it begins where the match ends. */
  lemma ValueAtExactly(xml: string, start: nat)
    requires start <= |xml|
    ensures match MatchFrom(Lit(OBJECT) + Attribute([]), xml, start)
            case Some(pieces) => ValueAt(xml, start) == Some(start + |Concat(pieces)|)
            case None => ValueAt(xml, start) == None
  {
    hide MatchFrom, Lit, ValueAt, Attribute;
    var pre := AttributeMatches(xml, start, []);
    if ValueAt(xml, start).Some? {
      EndFrom(xml, ValueAt(xml, start).value);
      Matchers.AheadEnd(pre);
    }
  }

  // ---------- what is captured ----------

  function ObjectText(name: string, a: string, b: string, c: string, content: string): string {
    "<OBJECT" + a + "name" + b + "=" + c + "\"" + name + "\">" + content + "</OBJECT>"
  }

  /** The text begins with the object of this name and its content. */
  ghost predicate IsObject(s: string, name: string, content: string) {
    && '<' !in content
    && exists a, b, c ::
         && a != "" && Matchers.IsSpaces(a) && Matchers.IsSpaces(b) && Matchers.IsSpaces(c)
         && ObjectText(name, a, b, c, content) <= s
  }

  function NamePieces(name: string, content: string): seq<string> {
    Singles(name) + (Singles("\">") + ([content] + Singles("</OBJECT>")))
  }

  function AttributePieces(a: string, b: string, c: string, rest: seq<string>): seq<string> {
    [a] + (Singles("name") + ([b] + (["="] + ([c] + (["\""] + rest)))))
  }

  function ObjectPieces(name: string, a: string, b: string, c: string, content: string): seq<string> {
    Singles("<OBJECT") + AttributePieces(a, b, c, NamePieces(name, content))
  }

  lemma NameFits(name: string, pieces: seq<string>)
    ensures Fits(NameTail(name), pieces) <==>
              |pieces| == |name| + 12 && '<' !in pieces[|name| + 2] && pieces == NamePieces(name, pieces[|name| + 2])
  {
    hide Lit, Singles, Fits;
    Matchers.FitsSize(NameTail(name), pieces);
    LitFits(name, Lit("\">") + ContentTail(), pieces);
    if |pieces| == |name| + 12 {
      var rest := pieces[|name|..];
      LitFits("\">", ContentTail(), rest);
      AtomFits(NotStar('<'), Lit("</OBJECT>") + [], rest[2..]);
      LitFits("</OBJECT>", [], rest[2..][1..]);
      NothingFits(rest[2..][1..][9..]);
      assert rest[2..][0] == pieces[|name| + 2];
      if pieces == NamePieces(name, rest[2]) {
        assert pieces[..|name|] == Singles(name);
        assert rest == Singles("\">") + ([rest[2]] + Singles("</OBJECT>"));
        assert rest[..2] == Singles("\">");
      }
    }
  }

  lemma AttributeFits(tail: seq<Atom>, pieces: seq<string>)
    ensures Fits(Attribute(tail), pieces) <==>
              && |pieces| == |tail| + 9
              && pieces[0] != "" && Matchers.IsSpaces(pieces[0])
              && Matchers.IsSpaces(pieces[5]) && Matchers.IsSpaces(pieces[7])
              && pieces == AttributePieces(pieces[0], pieces[5], pieces[7], pieces[9..]) && Fits(tail, pieces[9..])
  {
    hide Lit, Singles, Fits;
    var value := [Ch('"')] + tail;
    Matchers.FitsSize(Attribute(tail), pieces);
    if |pieces| == |tail| + 9 {
      AtomFits(Plus(' '), Lit("name") + ([Star(' ')] + ([Ch('=')] + ([Star(' ')] + value))), pieces);
      LitFits("name", [Star(' ')] + ([Ch('=')] + ([Star(' ')] + value)), pieces[1..]);
      AtomFits(Star(' '), [Ch('=')] + ([Star(' ')] + value), pieces[5..]);
      AtomFits(Ch('='), [Star(' ')] + value, pieces[6..]);
      AtomFits(Star(' '), value, pieces[7..]);
      AtomFits(Ch('"'), tail, pieces[8..]);
      assert pieces[1..][4..] == pieces[5..];
      if pieces == AttributePieces(pieces[0], pieces[5], pieces[7], pieces[9..]) {
        assert pieces[1..][..4] == Singles("name");
      }
    }
  }

  lemma ObjectFits(name: string, pieces: seq<string>)
    ensures Fits(ObjectPattern(name), pieces) <==>
              && |pieces| == |name| + 28
              && pieces[7] != "" && Matchers.IsSpaces(pieces[7])
              && Matchers.IsSpaces(pieces[12]) && Matchers.IsSpaces(pieces[14]) && '<' !in pieces[|name| + 18]
              && pieces == ObjectPieces(name, pieces[7], pieces[12], pieces[14], pieces[|name| + 18])
  {
    hide Lit, Singles, Fits, Attribute, NameTail, NamePieces;
    ObjectDeterministic(name);
    TailSize(name);
    Matchers.FitsSize(ObjectPattern(name), pieces);
    LitFits("<OBJECT", Attribute(NameTail(name)), pieces);
    if |pieces| == |name| + 28 {
      var rest := pieces[7..];
      AttributeFits(NameTail(name), rest);
      NameFits(name, rest[9..]);
      assert rest[9..] == pieces[16..];
      if pieces == ObjectPieces(name, pieces[7], pieces[12], pieces[14], pieces[|name| + 18]) {
        assert pieces[..7] == Singles("<OBJECT");
        assert rest == AttributePieces(rest[0], rest[5], rest[7], NamePieces(name, pieces[|name| + 18]));
        assert rest[9..] == NamePieces(name, pieces[|name| + 18]);
      }
    }
  }

  lemma TailSize(name: string)
    ensures |NameTail(name)| == |name| + 12
  {
  }

  lemma ObjectPiecesText(name: string, a: string, b: string, c: string, content: string)
    ensures var pieces := ObjectPieces(name, a, b, c, content);
            && |pieces| == |name| + 28 && pieces[7] == a && pieces[12] == b && pieces[14] == c
            && pieces[|name| + 18] == content && Concat(pieces[|name| + 18..|name| + 19]) == content
            && Concat(pieces) == ObjectText(name, a, b, c, content)
  {
    hide Singles, Concat, NamePieces, AttributePieces;
    var rest := NamePieces(name, content);
    NamePiecesText(name, content);
    AttributePiecesText(a, b, c, rest);
    TextOf("<OBJECT", AttributePieces(a, b, c, rest));
    ObjectTextIs(name, a, b, c, content);
    hide ObjectText;
    var pieces := ObjectPieces(name, a, b, c, content);
    Matchers.OneCaptured(pieces, |name| + 18);
    assert pieces[7..] == AttributePieces(a, b, c, rest);
    assert pieces[7..][9..] == pieces[16..];
  }

  lemma ObjectTextIs(name: string, a: string, b: string, c: string, content: string)
    ensures ObjectText(name, a, b, c, content) == "<OBJECT"
         + (a + ("name" + (b + ("=" + (c + ("\"" + (name + ("\">" + (content + "</OBJECT>")))))))))
  {
    var value := "\">" + (content + "</OBJECT>");
    var quoted := "\"" + (name + value);
    assert "\"" + name + "\">" + content + "</OBJECT>" == quoted;
    assert "<OBJECT" + a + "name" + b + "=" + c + quoted == "<OBJECT" + (a + ("name" + (b + ("=" + (c + quoted)))));
  }

  lemma NamePiecesText(name: string, content: string)
    ensures var rest := NamePieces(name, content);
            && |rest| == |name| + 12 && rest[|name| + 2] == content
            && Concat(rest) == name + ("\">" + (content + "</OBJECT>"))
  {
    hide Singles, Concat;
    TextOf(name, Singles("\">") + ([content] + Singles("</OBJECT>")));
    TextOf("\">", [content] + Singles("</OBJECT>"));
    TextOfOne(content, Singles("</OBJECT>"));
    ConcatSingles("</OBJECT>");
  }

  lemma AttributePiecesText(a: string, b: string, c: string, rest: seq<string>)
    ensures var pieces := AttributePieces(a, b, c, rest);
            && |pieces| == |rest| + 9 && pieces[0] == a && pieces[5] == b && pieces[7] == c && pieces[9..] == rest
            && Concat(pieces) == a + ("name" + (b + ("=" + (c + ("\"" + Concat(rest))))))
  {
    hide Singles, Concat;
    TextOfOne(a, Singles("name") + ([b] + (["="] + ([c] + (["\""] + rest)))));
    TextOf("name", [b] + (["="] + ([c] + (["\""] + rest))));
    TextOfOne(b, ["="] + ([c] + (["\""] + rest)));
    TextOfOne("=", [c] + (["\""] + rest));
    TextOfOne(c, ["\""] + rest);
    TextOfOne("\"", rest);
  }

  /** What is extracted is the content of the first object of the name that ends before any other bracket. */
  lemma ObjectCaptured(xml: string, name: string, r: Option<string>)
    ensures Captures(ObjectPattern(name), |name| + 18, |name| + 19, xml, r) <==>
              IsFirst(xml, (s: string, content: string) => IsObject(s, name, content), r)
  {
    hide Captures, IsMatch, IsFirst, Concat, Fits, ObjectPattern, IsObject;
    var pat, means := ObjectPattern(name), (s: string, content: string) => IsObject(s, name, content);
    var lo, hi := |name| + 18, |name| + 19;
    ObjectDeterministic(name);
    forall s, content ensures means(s, content) <==> exists pieces :: MatchGives(pat, lo, hi, s, pieces, content) {
      if means(s, content) {
        var found := ObjectMatches(name, s, content);
        assert MatchGives(pat, lo, hi, s, found, content);
      }
      if pieces :| MatchGives(pat, lo, hi, s, pieces, content) { MatchIsObject(name, s, pieces); }
    }
    CapturesFirst(pat, lo, hi, xml, means, r);
  }

  lemma ObjectMatches(name: string, s: string, content: string) returns (pieces: seq<string>)
    requires IsObject(s, name, content)
    ensures IsMatch(ObjectPattern(name), s, pieces) && |pieces| == |name| + 28
    ensures Concat(pieces[|name| + 18..|name| + 19]) == content
  {
    hide Fits, Concat, ObjectPattern, ObjectPieces, Matchers.IsSpaces, ObjectText, IsMatch;
    var a, b, c :|
      && a != "" && Matchers.IsSpaces(a) && Matchers.IsSpaces(b) && Matchers.IsSpaces(c)
      && ObjectText(name, a, b, c, content) <= s;
    pieces := ObjectPieces(name, a, b, c, content);
    ObjectPiecesText(name, a, b, c, content);
    ObjectFits(name, pieces);
    Matchers.FitsSize(ObjectPattern(name), pieces);
  }

  lemma MatchIsObject(name: string, s: string, pieces: seq<string>)
    requires IsMatch(ObjectPattern(name), s, pieces)
    ensures |pieces| == |name| + 28 && IsObject(s, name, pieces[|name| + 18])
    ensures Concat(pieces[|name| + 18..|name| + 19]) == pieces[|name| + 18]
  {
    hide Fits, Concat, ObjectPattern, ObjectPieces, Matchers.IsSpaces, ObjectText, IsMatch;
    Matchers.FitsSize(ObjectPattern(name), pieces);
    ObjectFits(name, pieces);
    ObjectPiecesText(name, pieces[7], pieces[12], pieces[14], pieces[|name| + 18]);
  }

  // ---------- when it fails ----------

  /** An ASCII text never fails. */
  lemma AsciiNeverFails(xml: string, name: string, p: nat)
    requires Utf8.WellFormed(xml) && Utf8.IsAscii(xml)
    ensures !FailsAt(xml, name, p)
  {
    hide ValueAt, MatchFrom, Utf8.WellFormed;
    if p <= |xml| && ValueAt(xml, p).Some? && ValueAt(xml, p).value + |name| <= |xml| {
      Utf8.AsciiBoundary(xml, ValueAt(xml, p).value + |name|);
    }
  }

  const OPENING := "<OBJECT name=\""

  /** Any name fails on an attribute whose value is one byte short of it and goes on with a longer character. */
  lemma SplitNameFails(name: string, value: string, c: char)
    requires |value| + 1 == |name| && Utf8.IsAscii(value) && |Utf8.EncodeChar(c)| > 1
    ensures var xml := OPENING + value + Utf8.EncodeChar(c);
            Utf8.WellFormed(xml) && FailsAt(xml, name, 0)
  {
    hide Utf8.EncodeChar, Utf8.WellFormed, MatchFrom, ValueAt;
    var e := Utf8.EncodeChar(c);
    OpeningIsAscii(value);
    Utf8.AsciiThenOne(OPENING + value, c);
    OpeningHasValue(value + e);
    assert OPENING + (value + e) == OPENING + value + e;
    assert (OPENING + value + e)[|OPENING| + |name|] == e[1];
  }

  lemma OpeningIsAscii(value: string)
    requires Utf8.IsAscii(value)
    ensures |OPENING| == 14 && Utf8.IsAscii(OPENING + value)
  {
    assert Utf8.IsAscii(OPENING);
    assert forall c :: c in OPENING + value ==> c in OPENING || c in value;
  }

  lemma OpeningHasValue(rest: string)
    ensures ValueAt(OPENING + rest, 0) == Some(|OPENING|)
  {
    hide RunEnd;
    var xml := OPENING + rest;
    assert xml[0..] == xml && OBJECT <= xml;
    assert xml[7] == ' ' && xml[8] == 'n' && xml[12] == '=' && xml[13] == '"';
    assert xml[8..] == "name" + xml[12..];
    RunEndIs(Star(' '), xml, 7, 8);
    RunEndIs(Star(' '), xml, 12, 12);
    RunEndIs(Star(' '), xml, 13, 13);
  }

  /** For one, a description of seventeen letters and an accented one. */
  lemma AccentFails()
    ensures var xml := "<OBJECT name=\"aaaaaaaaaaaaaaaaa\U{C3}\U{A9}";
            Utf8.WellFormed(xml) && FailsAt(xml, "System.Description", 0)
  {
    hide FailsAt, Utf8.WellFormed;
    assert Utf8.IsAscii("aaaaaaaaaaaaaaaaa");
    SplitNameFails("System.Description", "aaaaaaaaaaaaaaaaa", '\U{E9}');
    assert "<OBJECT name=\"aaaaaaaaaaaaaaaaa\U{C3}\U{A9}"
        == OPENING + "aaaaaaaaaaaaaaaaa" + Utf8.EncodeChar('\U{E9}');
  }
}
