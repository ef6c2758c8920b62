/** The hand-written replacements of regular expressions in `hikvision.rs` and `dahua2.rs`. */
module Matchers {
  import opened Bytes
  import opened Regex

  // ---------- hikvision.rs: <tag>([^<]*)</tag> ----------

  function Open(tag: string): (r: string)
    ensures |r| == |tag| + 2 && r[0] == '<' && r[1..|tag| + 1] == tag && r[|tag| + 1] == '>'
  {
    "<" + tag + ">"
  }

  function Close(tag: string): (r: string)
    ensures |r| == |tag| + 3
  {
    "</" + tag + ">"
  }

  function XmlTail(tag: string): seq<Atom> { [NotStar('<')] + (Lit(Close(tag)) + []) }

  function XmlPattern(tag: string): seq<Atom> { Lit(Open(tag)) + XmlTail(tag) }

  lemma XmlDeterministic(tag: string)
    ensures Deterministic(XmlPattern(tag)) && |XmlPattern(tag)| == 2 * |tag| + 6
  {
  }

  method ExtractXmlString(xml: string, tag: string) returns (r: Option<string>)
    requires '<' !in tag
    ensures Captures(XmlPattern(tag), |tag| + 2, |tag| + 3, xml, r)
  {
    hide Captures, Deterministic, MatchFrom, XmlPattern, XmlTail, Open, Close, Find, Singles, Concat;
    XmlDeterministic(tag);
    ghost var pat := XmlPattern(tag);
    var cursor := 0;
    while true
      invariant 0 <= cursor <= |xml|
      invariant forall q :: 0 <= q < cursor ==> MatchFrom(pat, xml, q).None?
      decreases |xml| - cursor
    {
      var off := Find(xml, Open(tag), cursor);
      XmlNotBefore(xml, tag, cursor);
      if off.None? {
        FoundNowhere(pat, |tag| + 2, |tag| + 3, xml);
        return None;
      }
      var start := off.value + |Open(tag)|;
      var end := Find(xml, "<", start);
      XmlOpens(xml, tag, off.value);
      XmlTailAt(xml, tag, start, end);
      if end.None? {
        XmlNotWithoutBracket(xml, tag, start);
        XmlNotInside(xml, tag, off.value);
        FoundNowhere(pat, |tag| + 2, |tag| + 3, xml);
        return None;
      }
      if Close(tag) <= xml[end.value..] {
        FoundAt(pat, |tag| + 2, |tag| + 3, xml, off.value, MatchFrom(pat, xml, off.value).value);
        XmlCaptured(tag, xml[start..end.value]);
        return Some(xml[start..end.value]);
      }
      XmlNotInside(xml, tag, off.value);
      cursor := start;
    }
  }

  lemma XmlNotBefore(xml: string, tag: string, from: nat)
    requires from <= |xml|
    ensures var off := Find(xml, Open(tag), from);
            forall q :: from <= q <= |xml| && (off.Some? ==> q < off.value) ==> MatchFrom(XmlPattern(tag), xml, q).None?
  {
    NotBefore(Open(tag), XmlTail(tag), xml, from);
  }

  function XmlTailPieces(tag: string, content: string): seq<string> { [content] + (Singles(Close(tag)) + []) }

  /** At an opening tag the content runs to the next bracket, and the closing tag must stand there. */
  lemma XmlOpens(xml: string, tag: string, p: nat)
    requires p <= |xml| && Open(tag) <= xml[p..]
    ensures p + |tag| + 2 <= |xml|
    ensures MatchFrom(XmlPattern(tag), xml, p) == Ahead(Singles(Open(tag)), MatchFrom(XmlTail(tag), xml, p + |tag| + 2))
  {
    hide MatchFrom, Open, Lit, Singles, XmlTail, Ahead;
    LitFrom(Open(tag), XmlTail(tag), xml, p);
  }

  lemma XmlTailAt(xml: string, tag: string, start: nat, end: Option<nat>)
    requires start <= |xml| && end == Find(xml, "<", start)
    ensures MatchFrom(XmlTail(tag), xml, start) ==
            if end.Some? && Close(tag) <= xml[end.value..]
            then Some(XmlTailPieces(tag, xml[start..end.value])) else None
  {
    hide MatchFrom, Open, Close, Lit, Singles, Find, RunEnd;
    ClassFrom(NotStar('<'), Lit(Close(tag)) + [], xml, start);
    StopIsFound('<', xml, start);
    var q := RunEnd(NotStar('<'), xml, start);
    LitFrom(Close(tag), [], xml, q);
    if Close(tag) <= xml[q..] { EndFrom(xml, q + |Close(tag)|); }
  }

  lemma XmlCaptured(tag: string, content: string)
    ensures var pieces := Singles(Open(tag)) + XmlTailPieces(tag, content);
            |pieces| >= |tag| + 3 && Concat(pieces[|tag| + 2..|tag| + 3]) == content
  {
    var pieces := Singles(Open(tag)) + XmlTailPieces(tag, content);
    assert pieces[|tag| + 2..|tag| + 3] == [content];
    assert [content][1..] == [] && content + "" == content;
  }

  lemma XmlNotWithoutBracket(xml: string, tag: string, from: nat)
    requires from <= |xml| && Find(xml, "<", from).None?
    ensures forall q :: from <= q <= |xml| ==> MatchFrom(XmlPattern(tag), xml, q).None?
  {
    forall q | from <= q <= |xml| ensures MatchFrom(XmlPattern(tag), xml, q).None? {
      LitFrom(Open(tag), XmlTail(tag), xml, q);
      PrefixHead(Open(tag), xml[q..]);
    }
  }

  lemma PrefixHead(w: string, s: string)
    requires w != ""
    ensures w <= s ==> s != "" && [w[0]] <= s && s[0] == w[0]
  {
  }

  /** No other opening tag begins inside an opening tag. */
  lemma XmlNotInside(xml: string, tag: string, p: nat)
    requires '<' !in tag && p <= |xml| && Open(tag) <= xml[p..]
    ensures forall q :: p < q < p + |tag| + 2 ==> q <= |xml| && MatchFrom(XmlPattern(tag), xml, q).None?
  {
    forall q | p < q < p + |tag| + 2 ensures q <= |xml| && MatchFrom(XmlPattern(tag), xml, q).None? {
      assert xml[q] == xml[p..][q - p] == Open(tag)[q - p];
      assert q - p <= |tag| ==> Open(tag)[q - p] == tag[q - p - 1] && tag[q - p - 1] in tag;
      LitFrom(Open(tag), XmlTail(tag), xml, q);
      PrefixHead(Open(tag), xml[q..]);
    }
  }

  /** The text begins with the element and its content. */
  predicate IsElement(s: string, tag: string, content: string) {
    '<' !in content && "<" + tag + ">" + content + "</" + tag + ">" <= s
  }

  function ElementPieces(tag: string, content: string): seq<string> {
    Singles("<" + tag + ">") + ([content] + Singles("</" + tag + ">"))
  }

  lemma ElementFits(tag: string, pieces: seq<string>)
    ensures Fits(XmlPattern(tag), pieces) <==>
              |pieces| == 2 * |tag| + 6 && '<' !in pieces[|tag| + 2] && pieces == ElementPieces(tag, pieces[|tag| + 2])
  {
    hide Lit, Singles, Fits;
    var open, close := "<" + tag + ">", "</" + tag + ">";
    assert Open(tag) == open && Close(tag) == close;
    XmlDeterministic(tag);
    FitsSize(XmlPattern(tag), pieces);
    LitFits(open, XmlTail(tag), pieces);
    if |pieces| == 2 * |tag| + 6 {
      var rest := pieces[|tag| + 2..];
      AtomFits(NotStar('<'), Lit(close) + [], rest);
      LitFits(close, [], rest[1..]);
      NothingFits(rest[1..][|close|..]);
      assert rest[0] == pieces[|tag| + 2];
      if pieces == ElementPieces(tag, rest[0]) {
        assert pieces[..|open|] == Singles(open);
        assert rest == [rest[0]] + Singles(close);
      }
    }
  }

  lemma FitsSize(pat: seq<Atom>, pieces: seq<string>)
    ensures Fits(pat, pieces) ==> |pieces| == |pat|
    ensures forall s :: IsMatch(pat, s, pieces) <==> Fits(pat, pieces) && Concat(pieces) <= s
  {
  }

  lemma ElementText(tag: string, content: string)
    ensures var pieces := ElementPieces(tag, content);
            && |pieces| == 2 * |tag| + 6 && pieces[|tag| + 2] == content
            && Concat(pieces) == "<" + tag + ">" + content + "</" + tag + ">"
            && Concat(pieces[|tag| + 2..|tag| + 3]) == content
  {
    hide Singles, Concat;
    var open, close := "<" + tag + ">", "</" + tag + ">";
    TextOf(open, [content] + Singles(close));
    TextOfOne(content, Singles(close));
    ConcatSingles(close);
    OneCaptured(ElementPieces(tag, content), |tag| + 2);
  }

  /** What is extracted is the content of the first such element that ends before any other bracket. */
  lemma ElementCaptured(xml: string, tag: string, r: Option<string>)
    ensures Captures(XmlPattern(tag), |tag| + 2, |tag| + 3, xml, r) <==>
              IsFirst(xml, (s: string, content: string) => IsElement(s, tag, content), r)
  {
    hide Captures, IsMatch, IsFirst, Concat, Fits, XmlPattern, ElementPieces;
    var pat, means := XmlPattern(tag), (s: string, content: string) => IsElement(s, tag, content);
    var lo, hi := |tag| + 2, |tag| + 3;
    XmlDeterministic(tag);
    forall s, c ensures means(s, c) <==> exists pieces :: MatchGives(pat, lo, hi, s, pieces, c) {
      var found := ElementPieces(tag, c);
      ElementText(tag, c);
      ElementFits(tag, found);
      FitsSize(pat, found);
      if means(s, c) { assert MatchGives(pat, lo, hi, s, found, c); }
      if pieces :| MatchGives(pat, lo, hi, s, pieces, c) {
        FitsSize(pat, pieces);
        ElementFits(tag, pieces);
        ElementText(tag, pieces[|tag| + 2]);
      }
    }
    CapturesFirst(pat, lo, hi, xml, means, r);
  }

  // ---------- dahua2.rs: "key" *: *"([^"]*)" and "key" *: *(\{[^}]*\}) ----------

  function Key(key: string): (r: string)
    ensures |r| == |key| + 2
  {
    "\"" + key + "\""
  }

  function Enclosed(open: char, close: char): seq<Atom> { [Ch(open)] + ([NotStar(close)] + ([Ch(close)] + [])) }

  function Member(open: char, close: char): seq<Atom> {
    [Star(' ')] + ([Ch(':')] + ([Star(' ')] + Enclosed(open, close)))
  }

  function JsonPattern(key: string, open: char, close: char): seq<Atom> { Lit(Key(key)) + Member(open, close) }

  lemma JsonDeterministic(key: string, open: char, close: char)
    requires open != ' '
    ensures Deterministic(JsonPattern(key, open, close)) && |JsonPattern(key, open, close)| == |key| + 8
  {
  }

  method SkipSpaces(s: string, i: nat) returns (j: nat)
    requires i <= |s|
    ensures j == RunEnd(Star(' '), s, i)
  {
    j := i;
    while j < |s| && s[j] == ' '
      invariant i <= j <= |s| && forall k :: i <= k < j ==> s[k] == ' '
    {
      j := j + 1;
    }
    RunEndIs(Star(' '), s, i, j);
  }

  method ExtractJsonString(key: string, json: string) returns (r: Option<string>)
    ensures Captures(JsonPattern(key, '"', '"'), |key| + 6, |key| + 7, json, r)
  {
    hide Captures, Deterministic, MatchFrom, JsonPattern, Key, Find, Concat;
    JsonDeterministic(key, '"', '"');
    ghost var pat := JsonPattern(key, '"', '"');
    var cursor := 0;
    while true
      invariant 0 <= cursor <= |json|
      invariant forall q :: 0 <= q < cursor ==> MatchFrom(pat, json, q).None?
      decreases |json| - cursor
    {
      var off := Find(json, Key(key), cursor);
      JsonNotBefore(json, key, '"', '"', cursor);
      if off.None? {
        FoundNowhere(pat, |key| + 6, |key| + 7, json);
        return None;
      }
      var content := MemberAt(json, key, '"', '"', off.value);
      if content.Some? {
        FoundAt(pat, |key| + 6, |key| + 7, json, off.value, MatchFrom(pat, json, off.value).value);
        return Some(content.value);
      }
      cursor := off.value + 1;
    }
  }

  method ExtractJsonSection(key: string, json: string) returns (r: Option<string>)
    ensures Captures(JsonPattern(key, '{', '}'), |key| + 5, |key| + 8, json, r)
  {
    hide Captures, Deterministic, MatchFrom, JsonPattern, Key, Find, Concat;
    JsonDeterministic(key, '{', '}');
    ghost var pat := JsonPattern(key, '{', '}');
    var cursor := 0;
    while true
      invariant 0 <= cursor <= |json|
      invariant forall q :: 0 <= q < cursor ==> MatchFrom(pat, json, q).None?
      decreases |json| - cursor
    {
      var off := Find(json, Key(key), cursor);
      JsonNotBefore(json, key, '{', '}', cursor);
      if off.None? {
        FoundNowhere(pat, |key| + 5, |key| + 8, json);
        return None;
      }
      var content := MemberAt(json, key, '{', '}', off.value);
      if content.Some? {
        FoundAt(pat, |key| + 5, |key| + 8, json, off.value, MatchFrom(pat, json, off.value).value);
        return Some("{" + content.value + "}");
      }
      cursor := off.value + 1;
    }
  }

  lemma JsonNotBefore(json: string, key: string, open: char, close: char, from: nat)
    requires from <= |json|
    ensures var off := Find(json, Key(key), from);
            forall q :: from <= q <= |json| && (off.Some? ==> q < off.value) ==>
              MatchFrom(JsonPattern(key, open, close), json, q).None?
  {
    NotBefore(Key(key), Member(open, close), json, from);
  }

  /** The tests behind a key at `p`: spaces, a colon, spaces, and what the two characters enclose. */
  method MemberAt(json: string, key: string, open: char, close: char, p: nat) returns (r: Option<string>)
    requires p <= |json| && Key(key) <= json[p..]
    ensures match MatchFrom(JsonPattern(key, open, close), json, p)
            case None => r == None
            case Some(pieces) =>
              && |pieces| == |key| + 8
              && r == Some(Concat(pieces[|key| + 6..|key| + 7]))
              && Concat(pieces[|key| + 5..|key| + 8]) == [open] + r.value + [close]
  {
    hide MatchFrom, Key, Find, Concat, Lit, Singles, RunEnd, Ahead;
    ghost var goal := MatchFrom(JsonPattern(key, open, close), json, p);
    AheadTwice([], [], goal);
    StepLit(Key(key), Member(open, close), json, p, [], goal);
    var from := p + |Key(key)|;
    var i := SkipSpaces(json, from);
    ghost var pre := [] + Singles(Key(key));
    StepClass(Star(' '), [Ch(':')] + ([Star(' ')] + Enclosed(open, close)), json, from, pre, goal);
    pre := pre + [json[from..i]];
    StepChar(':', [Star(' ')] + Enclosed(open, close), json, i, pre, goal);
    if i >= |json| || json[i] != ':' { return None; }
    pre := pre + [":"];
    var j := SkipSpaces(json, i + 1);
    StepClass(Star(' '), Enclosed(open, close), json, i + 1, pre, goal);
    pre := pre + [json[i + 1..j]];
    StepChar(open, [NotStar(close)] + ([Ch(close)] + []), json, j, pre, goal);
    if j >= |json| || json[j] != open { return None; }
    pre := pre + [[open]];
    var end := Find(json, [close], j + 1);
    StopIsFound(close, json, j + 1);
    StepClass(NotStar(close), [Ch(close)] + [], json, j + 1, pre, goal);
    if end.None? {
      StepChar(close, [], json, |json|, pre + [json[j + 1..|json|]], goal);
      return None;
    }
    var content := json[j + 1..end.value];
    pre := pre + [content];
    assert json[end.value] == json[end.value..][0] == close;
    StepChar(close, [], json, end.value, pre, goal);
    EndFrom(json, end.value + 1);
    pre := pre + [[close]];
    AheadEnd(pre);
    assert |pre| == |key| + 8;
    EnclosedCaptured(pre, |key| + 5, open, content, close);
    return Some(content);
  }

  lemma AheadEnd(pre: seq<string>)
    ensures Ahead(pre, Some([])) == Some(pre)
  {
    assert pre + [] == pre;
  }

  lemma EnclosedCaptured(pieces: seq<string>, k: nat, open: char, content: string, close: char)
    requires |pieces| == k + 3 && pieces[k] == [open] && pieces[k + 1] == content && pieces[k + 2] == [close]
    ensures Concat(pieces[k + 1..k + 2]) == content && Concat(pieces[k..k + 3]) == [open] + content + [close]
  {
    OneCaptured(pieces, k + 1);
    OneCaptured(pieces, k + 2);
    assert pieces[k..k + 3][1..] == pieces[k + 1..k + 3] && pieces[k + 1..k + 3][1..] == pieces[k + 2..k + 3];
    assert [open] + (content + [close]) == [open] + content + [close];
  }

  lemma OneCaptured(pieces: seq<string>, k: nat)
    requires k < |pieces|
    ensures Concat(pieces[k..k + 1]) == pieces[k]
  {
    assert pieces[k..k + 1] == [pieces[k]] && [pieces[k]][1..] == [];
    assert pieces[k] + "" == pieces[k];
  }

  predicate IsSpaces(s: string) { forall c <- s :: c == ' ' }

  function MemberText(key: string, before: string, behind: string, value: string): string {
    "\"" + key + "\"" + before + ":" + behind + value
  }

  /** The text begins with the key, a colon, perhaps between spaces, and what the two characters enclose. */
  ghost predicate IsMember(s: string, key: string, open: char, content: string, close: char) {
    && close !in content
    && exists before, behind ::
         IsSpaces(before) && IsSpaces(behind) && MemberText(key, before, behind, [open] + content + [close]) <= s
  }

  function Tail(before: string, behind: string, open: char, content: string, close: char): seq<string> {
    [before] + ([":"] + ([behind] + ([[open]] + ([content] + ([[close]] + [])))))
  }

  function MemberPieces(key: string, before: string, behind: string, open: char, content: string, close: char):
    seq<string>
  {
    Singles("\"" + key + "\"") + Tail(before, behind, open, content, close)
  }

  lemma EnclosedFits(open: char, close: char, rest: seq<string>)
    ensures Fits(Enclosed(open, close), rest) <==>
              |rest| == 3 && close !in rest[1] && rest == [[open]] + ([rest[1]] + ([[close]] + []))
  {
    hide Fits, Concat;
    FitsSize(Enclosed(open, close), rest);
    if |rest| == 3 {
      AtomFits(Ch(open), [NotStar(close)] + ([Ch(close)] + []), rest);
      AtomFits(NotStar(close), [Ch(close)] + [], rest[1..]);
      AtomFits(Ch(close), [], rest[2..]);
      NothingFits(rest[3..]);
      assert rest[1..][0] == rest[1] && rest[1..][1..] == rest[2..] && rest[2..][1..] == rest[3..] == [];
      assert rest[2..][0] == rest[2];
    }
  }

  lemma TailFits(open: char, close: char, rest: seq<string>)
    ensures Fits(Member(open, close), rest) <==>
              && |rest| == 6 && IsSpaces(rest[0]) && IsSpaces(rest[2]) && close !in rest[4]
              && rest == Tail(rest[0], rest[2], open, rest[4], close)
  {
    hide Fits, Concat;
    var whole, colon, behind := Member(open, close), [Star(' ')] + Enclosed(open, close), Enclosed(open, close);
    FitsSize(whole, rest);
    if |rest| == 6 {
      var r1, r2, r3 := rest[1..], rest[2..], rest[3..];
      assert r1[1..] == r2 && r2[1..] == r3 && r1[0] == rest[1] && r2[0] == rest[2] && r3[1] == rest[4];
      hide Enclosed;
      AtomFits(Star(' '), [Ch(':')] + colon, rest);
      AtomFits(Ch(':'), colon, r1);
      AtomFits(Star(' '), behind, r2);
      EnclosedFits(open, close, r3);
      TailParts(rest, open, close);
    }
  }

  lemma TailParts(rest: seq<string>, open: char, close: char)
    requires |rest| == 6
    ensures rest == Tail(rest[0], rest[2], open, rest[4], close) <==>
              rest[1] == ":" && rest[3..] == [[open]] + ([rest[4]] + ([[close]] + []))
  {
    var tail := Tail(rest[0], rest[2], open, rest[4], close);
    assert tail == [rest[0], ":", rest[2], [open], rest[4], [close]];
    assert rest[3..] == [rest[3], rest[4], rest[5]];
  }

  lemma MemberFits(key: string, open: char, close: char, pieces: seq<string>)
    ensures Fits(JsonPattern(key, open, close), pieces) <==>
              && |pieces| == |key| + 8
              && IsSpaces(pieces[|key| + 2]) && IsSpaces(pieces[|key| + 4]) && close !in pieces[|key| + 6]
              && pieces == MemberPieces(key, pieces[|key| + 2], pieces[|key| + 4], open, pieces[|key| + 6], close)
  {
    hide Lit, Singles, Fits, Tail, IsSpaces;
    var quoted := "\"" + key + "\"";
    assert Key(key) == quoted;
    assert |JsonPattern(key, open, close)| == |key| + 8;
    FitsSize(JsonPattern(key, open, close), pieces);
    LitFits(quoted, Member(open, close), pieces);
    if |pieces| == |key| + 8 {
      var rest := pieces[|key| + 2..];
      TailFits(open, close, rest);
      if pieces == Singles(quoted) + Tail(rest[0], rest[2], open, rest[4], close) {
        assert pieces[..|quoted|] == Singles(quoted);
        assert rest == Tail(rest[0], rest[2], open, rest[4], close);
      }
    }
  }

  lemma MemberPiecesText(key: string, before: string, behind: string, open: char, content: string, close: char)
    ensures var pieces := MemberPieces(key, before, behind, open, content, close);
            && |pieces| == |key| + 8 && pieces[|key| + 2] == before && pieces[|key| + 4] == behind
            && pieces[|key| + 6] == content
            && Concat(pieces) == MemberText(key, before, behind, [open] + content + [close])
            && Concat(pieces[|key| + 6..|key| + 7]) == content
            && Concat(pieces[|key| + 5..|key| + 8]) == [open] + content + [close]
  {
    hide Singles, Concat;
    var quoted, pieces := "\"" + key + "\"", MemberPieces(key, before, behind, open, content, close);
    TextOf(quoted, Tail(before, behind, open, content, close));
    TextOfOne(before, [":"] + ([behind] + ([[open]] + ([content] + ([[close]] + [])))));
    TextOfOne(":", [behind] + ([[open]] + ([content] + ([[close]] + []))));
    TextOfOne(behind, [[open]] + ([content] + ([[close]] + [])));
    TextOfOne([open], [content] + ([[close]] + []));
    TextOfOne(content, [[close]] + []);
    ConcatOne([close]);
    assert [[close]] + [] == [[close]];
    EnclosedCaptured(pieces, |key| + 5, open, content, close);
  }

  lemma MemberIs(key: string, open: char, close: char, s: string, pieces: seq<string>)
    ensures IsMatch(JsonPattern(key, open, close), s, pieces) ==>
              && |pieces| == |key| + 8
              && var c := pieces[|key| + 6];
                 && IsMember(s, key, open, c, close)
                 && Concat(pieces[|key| + 6..|key| + 7]) == c
                 && Concat(pieces[|key| + 5..|key| + 8]) == [open] + c + [close]
  {
    hide Fits, Concat, JsonPattern, MemberPieces, IsSpaces, MemberText, IsMatch;
    FitsSize(JsonPattern(key, open, close), pieces);
    MemberFits(key, open, close, pieces);
    if |pieces| == |key| + 8 {
      MemberPiecesText(key, pieces[|key| + 2], pieces[|key| + 4], open, pieces[|key| + 6], close);
    }
  }

  lemma MemberMatches(key: string, open: char, close: char, s: string, content: string) returns (pieces: seq<string>)
    requires IsMember(s, key, open, content, close)
    ensures IsMatch(JsonPattern(key, open, close), s, pieces) && |pieces| == |key| + 8
    ensures Concat(pieces[|key| + 6..|key| + 7]) == content
    ensures Concat(pieces[|key| + 5..|key| + 8]) == [open] + content + [close]
  {
    hide Fits, Concat, JsonPattern, MemberPieces, IsSpaces, MemberText, IsMatch;
    var before, behind :|
      IsSpaces(before) && IsSpaces(behind) && MemberText(key, before, behind, [open] + content + [close]) <= s;
    pieces := MemberPieces(key, before, behind, open, content, close);
    MemberPiecesText(key, before, behind, open, content, close);
    MemberFits(key, open, close, pieces);
    FitsSize(JsonPattern(key, open, close), pieces);
  }

  /** What is extracted as a string is the content of the first such member. */
  lemma StringCaptured(json: string, key: string, r: Option<string>)
    ensures Captures(JsonPattern(key, '"', '"'), |key| + 6, |key| + 7, json, r) <==>
              IsFirst(json, (s: string, content: string) => IsMember(s, key, '"', content, '"'), r)
  {
    hide Captures, IsMatch, IsFirst, Concat, JsonPattern, IsMember;
    var pat, means := JsonPattern(key, '"', '"'), (s: string, content: string) => IsMember(s, key, '"', content, '"');
    var lo, hi := |key| + 6, |key| + 7;
    JsonDeterministic(key, '"', '"');
    forall s, c ensures means(s, c) <==> exists pieces :: MatchGives(pat, lo, hi, s, pieces, c) {
      if means(s, c) {
        var found := MemberMatches(key, '"', '"', s, c);
        assert MatchGives(pat, lo, hi, s, found, c);
      }
      if pieces :| MatchGives(pat, lo, hi, s, pieces, c) { MemberIs(key, '"', '"', s, pieces); }
    }
    CapturesFirst(pat, lo, hi, json, means, r);
  }

  /** A section is the content of a braced member between its braces. */
  ghost predicate IsSection(s: string, key: string, section: string) {
    exists content :: section == "{" + content + "}" && IsMember(s, key, '{', content, '}')
  }

  /** What is extracted as a section is the first braced member with its braces. */
  lemma SectionCaptured(json: string, key: string, r: Option<string>)
    ensures Captures(JsonPattern(key, '{', '}'), |key| + 5, |key| + 8, json, r) <==>
              IsFirst(json, (s: string, section: string) => IsSection(s, key, section), r)
  {
    hide Captures, IsMatch, IsFirst, Concat, JsonPattern, IsMember;
    var pat, means := JsonPattern(key, '{', '}'), (s: string, section: string) => IsSection(s, key, section);
    var lo, hi := |key| + 5, |key| + 8;
    JsonDeterministic(key, '{', '}');
    forall s, c ensures means(s, c) <==> exists pieces :: MatchGives(pat, lo, hi, s, pieces, c) {
      if means(s, c) {
        var content :| c == "{" + content + "}" && IsMember(s, key, '{', content, '}');
        var found := MemberMatches(key, '{', '}', s, content);
        assert MatchGives(pat, lo, hi, s, found, c);
      }
      if pieces :| MatchGives(pat, lo, hi, s, pieces, c) { MemberIs(key, '{', '}', s, pieces); }
    }
    CapturesFirst(pat, lo, hi, json, means, r);
  }
}
