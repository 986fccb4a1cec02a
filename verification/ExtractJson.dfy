/** Digging a JSON object out of a model's reply by counting braces, strings included. */
module ExtractJson {

  // ---------------------------------------------------------------- brace depth

  datatype Walked = Sunk | At(depth: nat)

  /** The depth reached from a given depth, or Sunk if a '}' came with nothing open. */
  function Walk(s: string, from: nat): Walked {
    if s == "" then At(from)
    else
      var before, c := Walk(s[..|s| - 1], from), s[|s| - 1];
      if before.Sunk? then Sunk
      else if c == '{' then At(before.depth + 1)
      else if c == '}' then (if before.depth == 0 then Sunk else At(before.depth - 1))
      else before
  }

  /** Every '{' is closed and every '}' closes one. */
  predicate Level(s: string) {
    Walk(s, 0) == At(0)
  }

  function CountOf(s: string, c: char): nat {
    if s == "" then 0 else CountOf(s[..|s| - 1], c) + if s[|s| - 1] == c then 1 else 0
  }

  /** No stretch from the start closes more than it has opened. */
  ghost predicate NeverOverCloses(s: string) {
    forall n :: 0 <= n <= |s| ==> CountOf(s[..n], '}') <= CountOf(s[..n], '{')
  }

  lemma NeverOverClosesSnoc(s: string, c: char)
    ensures NeverOverCloses(s + [c]) <==>
            NeverOverCloses(s) && CountOf(s + [c], '}') <= CountOf(s + [c], '{')
  {
    hide CountOf;
    var t := s + [c];
    assert t[..|t|] == t;
    forall n | 0 <= n <= |s| ensures t[..n] == s[..n] {}
    if NeverOverCloses(t) {
      forall n | 0 <= n <= |s| ensures CountOf(s[..n], '}') <= CountOf(s[..n], '{') {
        assert CountOf(t[..n], '}') <= CountOf(t[..n], '{');
      }
      assert CountOf(t[..|t|], '}') <= CountOf(t[..|t|], '{');
    }
  }

  lemma WalkSnoc(s: string, c: char)
    ensures Walk(s + [c], 0) ==
            if Walk(s, 0).Sunk? then Sunk
            else if c == '{' then At(Walk(s, 0).depth + 1)
            else if c == '}' then (if Walk(s, 0).depth == 0 then Sunk else At(Walk(s, 0).depth - 1))
            else Walk(s, 0)
  {
    assert (s + [c])[..|s|] == s;
  }

  lemma {:induction false} WalkMeaning(s: string)
    ensures Walk(s, 0).At? <==> NeverOverCloses(s)
    ensures Walk(s, 0).At? ==> Walk(s, 0).depth == CountOf(s, '{') - CountOf(s, '}')
  {
    if s == "" {
      assert s[..0] == s;
    } else {
      var init, c := s[..|s| - 1], s[|s| - 1];
      hide CountOf, NeverOverCloses, Walk;
      WalkMeaning(init);
      assert s == init + [c];
      WalkSnoc(init, c);
      NeverOverClosesSnoc(init, c);
      CountOfSnoc(init, c, '{');
      CountOfSnoc(init, c, '}');
    }
  }

  lemma CountOfSnoc(s: string, d: char, c: char)
    ensures CountOf(s + [d], c) == CountOf(s, c) + if d == c then 1 else 0
  {
    assert (s + [d])[..|s|] == s;
  }

  /** That is: as many braces are closed as opened, and never more than were opened so far. */
  lemma LevelMeaning(s: string)
    ensures Level(s) <==> CountOf(s, '{') == CountOf(s, '}') && NeverOverCloses(s)
  {
    WalkMeaning(s);
  }

  predicate IsBlock(s: string) {
    |s| >= 2 && s[0] == '{' && s[|s| - 1] == '}' && Level(s[1..|s| - 1])
  }

  lemma {:induction false} WalkConcat(a: string, b: string, from: nat)
    ensures Walk(a + b, from) == if Walk(a, from).Sunk? then Sunk else Walk(b, Walk(a, from).depth)
  {
    if b == "" {
      assert a + b == a;
    } else {
      WalkConcat(a, b[..|b| - 1], from);
      assert (a + b)[..|a + b| - 1] == a + b[..|b| - 1];
    }
  }

  /** Starting deeper only adds to the depth, and never sinks earlier. */
  lemma {:induction false} WalkFromDeeper(s: string, from: nat, extra: nat)
    requires Walk(s, from).At?
    ensures Walk(s, from + extra) == At(Walk(s, from).depth + extra)
  {
    if s != "" {
      WalkFromDeeper(s[..|s| - 1], from, extra);
    }
  }

  lemma LevelConcat(a: string, b: string)
    requires Level(a) && Level(b)
    ensures Level(a + b)
  {
    WalkConcat(a, b, 0);
  }

  lemma BlockIsLevel(s: string)
    requires IsBlock(s)
    ensures Level(s)
  {
    var inner := s[1..|s| - 1];
    assert s == "{" + inner + "}";
    WalkConcat("{" + inner, "}", 0);
    WalkConcat("{", inner, 0);
    WalkFromDeeper(inner, 0, 1);
    assert Walk("{", 0) == At(1) && Walk("}", 1) == At(0);
  }

  lemma {:induction false} PlainIsLevel(s: string)
    requires '{' !in s && '}' !in s
    ensures Level(s)
  {
    if s != "" {
      PlainIsLevel(s[..|s| - 1]);
    }
  }

  // ---------------------------------------------------------------- extraction

  function FirstOpen(s: string): (i: nat)
    ensures i <= |s| && (i < |s| ==> s[i] == '{')
  {
    if s == "" || s[0] == '{' then 0 else 1 + FirstOpen(s[1..])
  }

  /** The shortest block that s begins with, given that it is longer than n; s itself if there is none. */
  function ShortestBlock(s: string, n: nat): string
    requires 1 <= n <= |s|
    decreases |s| - n
  {
    if n == |s| then s
    else if s[n] == '}' && Level(s[1..n]) then s[..n + 1]
    else ShortestBlock(s, n + 1)
  }

  function Extract(s: string): string {
    var start := FirstOpen(s);
    if start == |s| then s else ShortestBlock(s[start..], 1)
  }

  method ExtractJSON(s: string) returns (json: string)
    ensures json == Extract(s)
  {
    var start := IndexOfOpen(s);
    if start == -1 {
      return s;
    }
    var depth := 0;
    ghost var rest := s[start..];
    for i := start to |s|
      invariant i == start ==> depth == 0
      invariant i > start ==> depth > 0 && Walk(rest[1..i - start], 0) == At(depth - 1)
      invariant i > start ==> ShortestBlock(rest, 1) == ShortestBlock(rest, i - start)
    {
      if i > start {
        assert rest[1..i - start + 1] == rest[1..i - start] + [s[i]];
        assert rest[1..i - start + 1][..i - start - 1] == rest[1..i - start];
      }
      if s[i] == '{' {
        depth := depth + 1;
      } else if s[i] == '}' {
        depth := depth - 1;
        if depth == 0 {
          assert s[start..i + 1] == rest[..i - start + 1];
          return s[start..i + 1];
        }
      }
    }
    return s[start..];
  }

  /** strings.Index(s, "{") */
  method IndexOfOpen(s: string) returns (i: int)
    ensures i == if FirstOpen(s) == |s| then -1 else FirstOpen(s)
  {
    i := 0;
    while i < |s|
      invariant 0 <= i <= |s|
      invariant FirstOpen(s) == i + FirstOpen(s[i..])
    {
      if s[i] == '{' {
        return;
      }
      assert s[i..][1..] == s[i + 1..];
      i := i + 1;
    }
    return -1;
  }

  // ---------------------------------------------------------------- what it recovers

  lemma {:induction false} FirstOpenSkipsPlain(p: string, s: string)
    requires '{' !in p
    ensures FirstOpen(p + s) == |p| + FirstOpen(s)
  {
    if p == "" {
      assert p + s == s;
    } else {
      assert p == [p[0]] + p[1..];
      FirstOpenSkipsPlain(p[1..], s);
      assert (p + s)[1..] == p[1..] + s;
    }
  }

  /** Within a block nothing shorter is a block. */
  lemma NoShorterBlock(b: string, n: nat)
    requires IsBlock(b) && 1 <= n < |b| - 1
    ensures !(b[n] == '}' && Level(b[1..n]))
  {
    assert Walk("}", 0) == Sunk;
    if b[n] == '}' && Level(b[1..n]) {
      var inner := b[1..|b| - 1];
      assert inner == b[1..n] + ("}" + b[n + 1..|b| - 1]);
      WalkConcat(b[1..n], "}" + b[n + 1..|b| - 1], 0);
      WalkConcat("}", b[n + 1..|b| - 1], 0);
    }
  }

  lemma {:induction false} ShortestBlockIs(b: string, t: string, n: nat)
    requires IsBlock(b) && 1 <= n < |b|
    ensures ShortestBlock(b + t, n) == b
    decreases |b| - n
  {
    assert (b + t)[1..n] == b[1..n];
    if n < |b| - 1 {
      NoShorterBlock(b, n);
      ShortestBlockIs(b, t, n + 1);
    } else {
      assert (b + t)[..n + 1] == b;
    }
  }

  /** Any block is recovered from any prose that has no '{' before it. */
  lemma ExtractRecoversBlock(p: string, b: string, t: string)
    requires '{' !in p && IsBlock(b)
    ensures Extract(p + b + t) == b
  {
    assert p + b + t == p + (b + t);
    FirstOpenSkipsPlain(p, b + t);
    assert (p + (b + t))[|p|..] == b + t;
    ShortestBlockIs(b, t, 1);
  }

  /** Either the result is a block, or there is no block to offer and the tail comes back whole,
      with whatever closes nothing after it. */
  lemma {:induction false} ShortestBlockCases(s: string, t: string, n: nat)
    requires 1 <= n <= |s| && s[0] == '{' && '}' !in t
    ensures var r := ShortestBlock(s, n);
            && r <= s
            && (IsBlock(r) || (r == s && ShortestBlock(s + t, n) == s + t))
    decreases |s| - n
  {
    assert (s + t)[1..n] == s[1..n];
    if n == |s| {
      assert (s + t)[n..] == t;
      NoCloseNoBlock(s + t, n);
    } else if s[n] == '}' && Level(s[1..n]) {
      assert s[..n + 1][1..n] == s[1..n];
    } else {
      ShortestBlockCases(s, t, n + 1);
    }
  }

  lemma {:induction false} NoCloseNoBlock(s: string, n: nat)
    requires 1 <= n <= |s| && '}' !in s[n..]
    ensures ShortestBlock(s, n) == s
    decreases |s| - n
  {
    if n < |s| {
      assert s[n] in s[n..] && s[n + 1..] == s[n..][1..];
      NoCloseNoBlock(s, n + 1);
    }
  }

  /** A text that begins with '{' survives whatever follows it exactly when it is a block. */
  lemma RecoveredIffBlock(b: string)
    requires b != "" && b[0] == '{'
    ensures IsBlock(b) <==> forall t :: Extract(b + t) == b
  {
    assert b[0..] == b && b + "" == b && (b + "x")[0..] == b + "x";
    ShortestBlockCases(b, "x", 1);
    assert Extract(b + "") == ShortestBlock(b, 1) && Extract(b + "x") == ShortestBlock(b + "x", 1);
    if IsBlock(b) {
      forall t ensures Extract(b + t) == b {
        ExtractRecoversBlock("", b, t);
        assert "" + b + t == b + t;
      }
    }
  }

  /** Extracting again changes nothing. */
  lemma ExtractIsIdempotent(s: string)
    ensures Extract(Extract(s)) == Extract(s)
  {
    var start := FirstOpen(s);
    if start < |s| {
      var tail := s[start..];
      ShortestBlockCases(tail, "", 1);
      var r := Extract(s);
      assert r[0] == '{' && r[0..] == r;
      if IsBlock(r) {
        ExtractRecoversBlock("", r, "");
        assert "" + r + "" == r;
      }
    }
  }

  /** Without a '{' the reply comes back as it is, and if no block starts at the first '{' all of the
      reply from there on does. */
  lemma ExtractWithoutBlock(s: string)
    ensures '{' !in s ==> Extract(s) == s
    ensures var tail := s[FirstOpen(s)..];
            tail != "" && (forall n :: 0 <= n <= |tail| ==> !IsBlock(tail[..n])) ==> Extract(s) == tail
  {
    var tail := s[FirstOpen(s)..];
    if tail != "" {
      ShortestBlockCases(tail, "", 1);
      var r := ShortestBlock(tail, 1);
      assert r == tail[..|r|];
    }
  }

  // ---------------------------------------------------------------- JSON objects

  /** A JSON text in the grammar of RFC 8259, with its insignificant whitespace. A scalar is a
      literal, a number or a string together with its quotes; a key likewise has its quotes. */
  datatype Json =
    | Scalar(text: string)
    | Arr(pad: string, items: seq<Item>)
    | Obj(pad: string, members: seq<Member>)

  datatype Item = Item(lead: string, value: Json, trail: string)

  datatype Member = Member(lead: string, key: string, gap: string, value: Json, trail: string)

  function Render(j: Json): string
    decreases j
  {
    match j
    case Scalar(text) => text
    case Arr(pad, items) => "[" + pad + RenderItems(items) + "]"
    case Obj(pad, members) => "{" + (pad + RenderMembers(members)) + "}"
  }

  function RenderItems(items: seq<Item>): string
    decreases items
  {
    if items == [] then ""
    else
      items[0].lead + Render(items[0].value) + items[0].trail
      + (if |items| == 1 then "" else "," + RenderItems(items[1..]))
  }

  /** gap stands for the colon and the whitespace around it. */
  function RenderMembers(members: seq<Member>): string
    decreases members
  {
    if members == [] then ""
    else
      (members[0].lead + members[0].key + members[0].gap) + Render(members[0].value) + members[0].trail
      + (if |members| == 1 then "" else "," + RenderMembers(members[1..]))
  }

  predicate Plain(s: string) {
    '{' !in s && '}' !in s
  }

  /** No brace in any string, key or scalar (and none, of course, in whitespace). */
  predicate BraceFree(j: Json)
    decreases j
  {
    match j
    case Scalar(text) => Plain(text)
    case Arr(pad, items) =>
      Plain(pad) && forall it :: it in items ==> Plain(it.lead) && BraceFree(it.value) && Plain(it.trail)
    case Obj(pad, members) =>
      Plain(pad) && forall m :: m in members ==> Plain(m.lead + m.key + m.gap) && BraceFree(m.value) && Plain(m.trail)
  }

  lemma LevelElement(before: string, value: string, after: string)
    requires Plain(before) && Level(value) && Plain(after)
    ensures Level(before + value + after)
  {
    PlainIsLevel(before);
    PlainIsLevel(after);
    LevelConcat(before, value);
    LevelConcat(before + value, after);
  }

  lemma {:induction false} RenderIsLevel(j: Json)
    requires BraceFree(j)
    ensures Level(Render(j))
    ensures j.Obj? ==> IsBlock(Render(j))
    decreases j
  {
    match j
    case Scalar(text) => PlainIsLevel(text);
    case Arr(pad, items) =>
      RenderItemsIsLevel(items);
      LevelElement("[" + pad, RenderItems(items), "]");
    case Obj(pad, members) =>
      RenderMembersIsLevel(members);
      PlainIsLevel(pad);
      LevelConcat(pad, RenderMembers(members));
      assert Render(j)[1..|Render(j)| - 1] == pad + RenderMembers(members);
      BlockIsLevel(Render(j));
  }

  lemma {:induction false} RenderItemsIsLevel(items: seq<Item>)
    requires forall it :: it in items ==> Plain(it.lead) && BraceFree(it.value) && Plain(it.trail)
    ensures Level(RenderItems(items))
    decreases items
  {
    if items != [] {
      var it := items[0];
      RenderIsLevel(it.value);
      LevelElement(it.lead, Render(it.value), it.trail);
      var first := it.lead + Render(it.value) + it.trail;
      if |items| == 1 {
        assert first + "" == first;
      } else {
        RenderItemsIsLevel(items[1..]);
        PlainIsLevel(",");
        LevelConcat(",", RenderItems(items[1..]));
        LevelConcat(first, "," + RenderItems(items[1..]));
      }
    }
  }

  lemma {:induction false} RenderMembersIsLevel(members: seq<Member>)
    requires forall m :: m in members ==> Plain(m.lead + m.key + m.gap) && BraceFree(m.value) && Plain(m.trail)
    ensures Level(RenderMembers(members))
    decreases members
  {
    if members != [] {
      var m := members[0];
      RenderIsLevel(m.value);
      LevelElement(m.lead + m.key + m.gap, Render(m.value), m.trail);
      var first := (m.lead + m.key + m.gap) + Render(m.value) + m.trail;
      if |members| == 1 {
        assert first + "" == first;
      } else {
        RenderMembersIsLevel(members[1..]);
        PlainIsLevel(",");
        LevelConcat(",", RenderMembers(members[1..]));
        LevelConcat(first, "," + RenderMembers(members[1..]));
      }
    }
  }

  /** Any JSON object without braces in its strings is recovered from surrounding prose. */
  lemma ExtractRecoversObject(p: string, doc: Json, t: string)
    requires '{' !in p && doc.Obj? && BraceFree(doc)
    ensures Extract(p + Render(doc) + t) == Render(doc)
  {
    RenderIsLevel(doc);
    ExtractRecoversBlock(p, Render(doc), t);
  }

  const AWKWARD := Obj("", [Member("", "\"a\"", ":", Scalar("\"}\""), "")])

  lemma AwkwardRendered()
    ensures Render(AWKWARD) == "{\"a\":\"}\"}"
  {
    assert RenderMembers(AWKWARD.members) == "\"a\":\"}\"";
  }

  /** With a brace in a string the object can be cut short. */
  lemma BraceInStringCutsObject()
    ensures AWKWARD.Obj? && Extract(Render(AWKWARD)) == "{\"a\":\"}"
  {
    AwkwardRendered();
    var cut := "{\"a\":\"}";
    assert cut[1..6] == "\"a\":\"";
    PlainIsLevel("\"a\":\"");
    ExtractRecoversBlock("", cut, "\"}");
    assert "" + cut + "\"}" == Render(AWKWARD);
  }
}
