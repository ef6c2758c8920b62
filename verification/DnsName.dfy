/** Domain names on the wire: `read_name` of `mdns.rs`. */
module DnsName {
  import opened Bytes

  datatype NameError = NameOverflow | PointerOverflow | PointerOutOfBounds | TooManyRedirects | LabelOverflow

  const DOT: Byte := 0x2E
  const MAX_REDIRECTS := 16

  predicate IsPointer(b: Byte) { b >= 0xC0 }

  function Target(high: Byte, low: Byte): (t: nat)
    ensures t < 0x4000
  {
    (high % 0x40) * 0x100 + low
  }

  /** `read_name` from `p` with `acc` already read: the name and the position after its field. */
  function ReadName(data: seq<Byte>, p: nat, budget: nat, acc: seq<Byte>): (r: Result<(seq<Byte>, nat), NameError>)
    ensures r.Ok? ==> p < r.value.1 <= |data|
    decreases budget, |data| - p
  {
    if p >= |data| then Err(NameOverflow)
    else if data[p] == 0 then Ok((acc, p + 1))
    else
      var name := if acc == [] then [] else acc + [DOT];
      if IsPointer(data[p]) then
        if p + 1 >= |data| then Err(PointerOverflow)
        else
          var target := Target(data[p], data[p + 1]);
          if target >= |data| then Err(PointerOutOfBounds)
          else if budget <= 1 then Err(TooManyRedirects)
          else match ReadName(data, target, budget - 1, [])
            case Err(e) => Err(e)
            case Ok((rest, _)) => Ok((name + rest, p + 2))
      else
        var end := p + 1 + data[p];
        if end > |data| then Err(LabelOverflow)
        else ReadName(data, end, budget, name + data[p + 1..end])
  }

  /** The recursive loop; `budget` is the caller's counter. */
  method ReadNameLoop(data: seq<Byte>, pos: nat, budget: nat) returns (r: Result<(seq<Byte>, nat), NameError>)
    ensures r == ReadName(data, pos, budget, [])
    decreases budget
  {
    hide ReadName, Target;
    var name: seq<Byte>, p := [], pos;
    while true
      invariant ReadName(data, p, budget, name) == ReadName(data, pos, budget, [])
      decreases |data| - p
    {
      ReadStep(data, p, budget, name);
      if p >= |data| { return Err(NameOverflow); }
      var len := data[p];
      p := p + 1;
      if len == 0 { return Ok((name, p)); }
      if name != [] { name := name + [DOT]; }
      if IsPointer(len) {
        if p >= |data| { return Err(PointerOverflow); }
        var target := Target(len, data[p]);
        p := p + 1;
        if target >= |data| { return Err(PointerOutOfBounds); }
        var left := if budget == 0 then 0 else budget - 1;
        if left == 0 { return Err(TooManyRedirects); }
        var nested := ReadNameLoop(data, target, left);
        match nested {
          case Err(e) => return Err(e);
          case Ok(v) => return Ok((name + v.0, p));
        }
      }
      var end := p + len;
      if end > |data| { return Err(LabelOverflow); }
      name := name + data[p..end];
      p := end;
    }
  }

  /** One step of the reader. */
  lemma ReadStep(data: seq<Byte>, p: nat, budget: nat, acc: seq<Byte>)
    ensures p >= |data| ==> ReadName(data, p, budget, acc) == Err(NameOverflow)
    ensures p < |data| && data[p] == 0 ==> ReadName(data, p, budget, acc) == Ok((acc, p + 1))
    ensures p < |data| && data[p] != 0 && IsPointer(data[p]) ==>
              var name := if acc == [] then [] else acc + [DOT];
              ReadName(data, p, budget, acc) ==
              if p + 1 >= |data| then Err(PointerOverflow)
              else if Target(data[p], data[p + 1]) >= |data| then Err(PointerOutOfBounds)
              else if budget <= 1 then Err(TooManyRedirects)
              else match ReadName(data, Target(data[p], data[p + 1]), budget - 1, [])
                case Err(e) => Err(e)
                case Ok((rest, _)) => Ok((name + rest, p + 2))
    ensures p < |data| && data[p] != 0 && !IsPointer(data[p]) ==>
              var name, end := if acc == [] then [] else acc + [DOT], p + 1 + data[p];
              ReadName(data, p, budget, acc) ==
              if end > |data| then Err(LabelOverflow) else ReadName(data, end, budget, name + data[p + 1..end])
  {
    hide Target;
  }

  // ---------- the labels reachable from an offset ----------

  predicate CanStep(data: seq<Byte>, p: nat) {
    && p < |data|
    && data[p] != 0
    && (if IsPointer(data[p]) then p + 1 < |data| && Target(data[p], data[p + 1]) < |data|
        else p + 1 + data[p] <= |data|)
  }

  function Next(data: seq<Byte>, p: nat): nat
    requires CanStep(data, p)
  {
    if IsPointer(data[p]) then Target(data[p], data[p + 1]) else p + 1 + data[p]
  }

  /** Offsets each of which leads to the next. */
  ghost predicate IsTrail(data: seq<Byte>, path: seq<nat>) {
    |path| > 1 ==> CanStep(data, path[0]) && path[1] == Next(data, path[0]) && IsTrail(data, path[1..])
  }

  /** A trail that ends at a terminating zero. */
  ghost predicate IsWalk(data: seq<Byte>, path: seq<nat>) {
    && path != []
    && (if |path| == 1 then path[0] < |data| && data[path[0]] == 0
        else CanStep(data, path[0]) && path[1] == Next(data, path[0]) && IsWalk(data, path[1..]))
  }

  ghost function Redirects(data: seq<Byte>, path: seq<nat>): nat
    requires IsWalk(data, path)
    decreases |path|
  {
    if |path| == 1 then 0
    else (if IsPointer(data[path[0]]) then 1 else 0) + Redirects(data, path[1..])
  }

  /** The labels along a walk; a dot follows a label unless the terminating zero does. */
  ghost function Spelled(data: seq<Byte>, path: seq<nat>): seq<Byte>
    requires IsWalk(data, path)
    decreases |path|
  {
    if |path| == 1 then []
    else if IsPointer(data[path[0]]) then Spelled(data, path[1..])
    else data[path[0] + 1..path[1]] + (if |path| == 2 then [] else ['.' as int]) + Spelled(data, path[1..])
  }

  /** Where the name's own field ends: after its first pointer, or after its zero. */
  ghost function FieldEnd(data: seq<Byte>, path: seq<nat>): nat
    requires IsWalk(data, path)
    decreases |path|
  {
    if |path| == 1 then path[0] + 1
    else if IsPointer(data[path[0]]) then path[0] + 2
    else FieldEnd(data, path[1..])
  }

  ghost function Joined(acc: seq<Byte>, more: seq<Byte>): seq<Byte> {
    if acc == [] then more else acc + [DOT] + more
  }

  /** What the reader should answer on a walk, with `acc` already read. */
  ghost function Outcome(data: seq<Byte>, path: seq<nat>, budget: nat, acc: seq<Byte>)
    : Result<(seq<Byte>, nat), NameError>
    requires IsWalk(data, path)
  {
    if Redirects(data, path) >= budget then Err(TooManyRedirects)
    else Ok((if |path| == 1 then acc else Joined(acc, Spelled(data, path)), FieldEnd(data, path)))
  }

  /** On a walk the reader answers by the number of redirects alone. */
  lemma {:induction false} WalkIsRead(data: seq<Byte>, path: seq<nat>, budget: nat, acc: seq<Byte>)
    requires IsWalk(data, path) && budget > 0
    ensures ReadName(data, path[0], budget, acc) == Outcome(data, path, budget, acc)
    decreases |path|
  {
    hide ReadName, Outcome, Extended;
    if |path| == 1 {
      EndIsRead(data, path, budget, acc);
    } else {
      var p := path[0];
      if IsPointer(data[p]) {
        if budget > 1 { WalkIsRead(data, path[1..], budget - 1, []); }
        JumpIsRead(data, path, budget, acc);
      } else {
        var name := Extended(acc, data[p + 1..path[1]]);
        LabelIsRead(data, p, budget, acc);
        WalkIsRead(data, path[1..], budget, name);
        LabelIsSpelled(data, path, budget, acc);
      }
    }
  }

  lemma EndIsRead(data: seq<Byte>, path: seq<nat>, budget: nat, acc: seq<Byte>)
    requires IsWalk(data, path) && |path| == 1 && budget > 0
    ensures ReadName(data, path[0], budget, acc) == Outcome(data, path, budget, acc)
  {
  }

  lemma JumpIsRead(data: seq<Byte>, path: seq<nat>, budget: nat, acc: seq<Byte>)
    requires IsWalk(data, path) && |path| > 1 && IsPointer(data[path[0]])
    requires budget > 1 ==> ReadName(data, path[1], budget - 1, []) == Outcome(data, path[1..], budget - 1, [])
    ensures ReadName(data, path[0], budget, acc) == Outcome(data, path, budget, acc)
  {
    assert Redirects(data, path) == 1 + Redirects(data, path[1..]);
    assert |path[1..]| == 1 ==> Spelled(data, path[1..]) == [];
    assert acc == [] ==> [] + Spelled(data, path) == Spelled(data, path);
  }

  function Extended(acc: seq<Byte>, text: seq<Byte>): seq<Byte> { (if acc == [] then [] else acc + [DOT]) + text }

  lemma LabelIsRead(data: seq<Byte>, p: nat, budget: nat, acc: seq<Byte>)
    requires CanStep(data, p) && !IsPointer(data[p])
    ensures ReadName(data, p, budget, acc) ==
            ReadName(data, Next(data, p), budget, Extended(acc, data[p + 1..Next(data, p)]))
  {
  }

  lemma LabelIsSpelled(data: seq<Byte>, path: seq<nat>, budget: nat, acc: seq<Byte>)
    requires IsWalk(data, path) && |path| > 1 && !IsPointer(data[path[0]])
    ensures Outcome(data, path[1..], budget, Extended(acc, data[path[0] + 1..path[1]]))
         == Outcome(data, path, budget, acc)
  {
    hide ReadName, Redirects, Spelled, FieldEnd;
    var text, rest := data[path[0] + 1..path[1]], Spelled(data, path[1..]);
    LabelFirst(data, path);
    assert Extended(acc, text) == Joined(acc, text) != [];
    if |path| > 2 {
      assert Joined(Extended(acc, text), rest) == Joined(acc, text + [DOT] + rest);
    }
  }

  lemma LabelFirst(data: seq<Byte>, path: seq<nat>)
    requires IsWalk(data, path) && |path| > 1 && !IsPointer(data[path[0]])
    ensures Redirects(data, path) == Redirects(data, path[1..]) && FieldEnd(data, path) == FieldEnd(data, path[1..])
    ensures var text := data[path[0] + 1..path[1]];
            Spelled(data, path) == if |path| == 2 then text else text + [DOT] + Spelled(data, path[1..])
  {
  }

  /** A successful read followed a walk. */
  lemma {:induction false} ReadHasWalk(data: seq<Byte>, p: nat, budget: nat, acc: seq<Byte>) returns (path: seq<nat>)
    requires ReadName(data, p, budget, acc).Ok?
    ensures IsWalk(data, path) && path[0] == p
    decreases budget, |data| - p
  {
    if data[p] == 0 {
      path := [p];
    } else {
      var name := if acc == [] then [] else acc + [DOT];
      var rest;
      if IsPointer(data[p]) {
        rest := ReadHasWalk(data, Next(data, p), budget - 1, []);
      } else {
        rest := ReadHasWalk(data, Next(data, p), budget, name + data[p + 1..Next(data, p)]);
      }
      path := [p] + rest;
    }
  }

  ghost predicate Denotes(data: seq<Byte>, p: nat, path: seq<nat>, name: seq<Byte>, end: nat) {
    && IsWalk(data, path) && path[0] == p && Redirects(data, path) <= 15
    && name == Spelled(data, path) && end == FieldEnd(data, path)
  }

  /** The reader returns a name and a position exactly when a walk with at most 15 redirects spells them. */
  lemma ReadNameExact(data: seq<Byte>, p: nat, name: seq<Byte>, end: nat)
    ensures ReadName(data, p, MAX_REDIRECTS, []) == Ok((name, end))
       <==> exists path :: Denotes(data, p, path, name, end)
  {
    if ReadName(data, p, MAX_REDIRECTS, []) == Ok((name, end)) {
      var path := ReadHasWalk(data, p, MAX_REDIRECTS, []);
      WalkIsRead(data, path, MAX_REDIRECTS, []);
      assert Denotes(data, p, path, name, end);
    }
    if path :| Denotes(data, p, path, name, end) {
      WalkIsRead(data, path, MAX_REDIRECTS, []);
    }
  }

  /** A trail from the start of a walk is a prefix of the walk. */
  lemma {:induction false} TrailFollowsWalk(data: seq<Byte>, path: seq<nat>, trail: seq<nat>)
    requires IsWalk(data, path) && trail != [] && IsTrail(data, trail) && trail[0] == path[0]
    ensures trail <= path
    decreases |trail|
  {
    if |trail| > 1 {
      TrailFollowsWalk(data, path[1..], trail[1..]);
      assert trail == [trail[0]] + trail[1..] && path == [path[0]] + path[1..];
    }
  }

  lemma {:induction false} SuffixIsWalk(data: seq<Byte>, path: seq<nat>, i: nat)
    requires IsWalk(data, path) && i < |path|
    ensures IsWalk(data, path[i..]) && IsTrail(data, path[i..])
    decreases |path|
  {
    if |path| > 1 { SuffixIsWalk(data, path[1..], if i == 0 then 0 else i - 1); }
    if i > 0 {
      assert path[i..] == path[1..][i - 1..];
    } else {
      assert path[0..] == path && path[1..][0..] == path[1..];
    }
  }

  /** A name that leads back to an offset it has passed is an error at every budget. */
  lemma CycleIsError(data: seq<Byte>, trail: seq<nat>, i: nat, j: nat, budget: nat)
    requires IsTrail(data, trail) && i < j < |trail| && trail[i] == trail[j]
    ensures ReadName(data, trail[0], budget, []).Err?
  {
    if ReadName(data, trail[0], budget, []).Ok? {
      var path := ReadHasWalk(data, trail[0], budget, []);
      TrailFollowsWalk(data, path, trail);
      SuffixIsWalk(data, path, i);
      SuffixIsWalk(data, path, j);
      TrailFollowsWalk(data, path[j..], path[i..]);
    }
  }
}
