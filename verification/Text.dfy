/** The parts of Go's strings package that the bot relies on. */
module Text {

  /** unicode.IsSpace */
  predicate IsSpace(c: char) {
    || c == ' ' || '\t' <= c <= '\r' || c == '\U{0085}' || c == '\U{00A0}' || c == '\U{1680}'
    || '\U{2000}' <= c <= '\U{200A}' || c == '\U{2028}' || c == '\U{2029}' || c == '\U{202F}'
    || c == '\U{205F}' || c == '\U{3000}'
  }

  /** The white space of the Unicode standard, by code point. */
  lemma SpacesByCodePoint(c: char)
    ensures IsSpace(c) <==>
            c as int in {0x09, 0x0A, 0x0B, 0x0C, 0x0D, 0x20, 0x85, 0xA0, 0x1680, 0x2000, 0x2001, 0x2002, 0x2003, 0x2004,
                         0x2005, 0x2006, 0x2007, 0x2008, 0x2009, 0x200A, 0x2028, 0x2029, 0x202F, 0x205F, 0x3000}
  {
  }

  /** Nothing but white space; BlankIff ties it to strings.TrimSpace. */
  predicate Blank(s: string) {
    forall c :: c in s ==> IsSpace(c)
  }

  // ---------------------------------------------------------------- words

  /** The words of cur + s, where cur is a word already begun. */
  function FieldsFrom(s: string, cur: string): seq<string> {
    if s == "" then (if cur == "" then [] else [cur])
    else if IsSpace(s[0]) then (if cur == "" then [] else [cur]) + FieldsFrom(s[1..], "")
    else FieldsFrom(s[1..], cur + [s[0]])
  }

  /** strings.Fields */
  function Fields(s: string): seq<string> {
    FieldsFrom(s, "")
  }

  /** strings.Join */
  function Join(parts: seq<string>, sep: string): string {
    if parts == [] then ""
    else if |parts| == 1 then parts[0]
    else parts[0] + sep + Join(parts[1..], sep)
  }

  predicate IsWord(w: string) {
    w != "" && forall c :: c in w ==> !IsSpace(c)
  }

  predicate AreWords(ws: seq<string>) {
    forall w :: w in ws ==> IsWord(w)
  }

  lemma {:induction false} FieldsAreWords(s: string, cur: string)
    requires cur == "" || IsWord(cur)
    ensures AreWords(FieldsFrom(s, cur))
  {
    if s != "" {
      if IsSpace(s[0]) {
        FieldsAreWords(s[1..], "");
      } else {
        FieldsAreWords(s[1..], cur + [s[0]]);
      }
    }
  }

  /** Every character of a word comes from the text. */
  lemma {:induction false} FieldsChars(s: string, cur: string, w: string, c: char)
    requires w in FieldsFrom(s, cur) && c in w
    ensures c in s || c in cur
  {
    if s != "" {
      assert s == [s[0]] + s[1..];
      if IsSpace(s[0]) {
        if w in FieldsFrom(s[1..], "") {
          FieldsChars(s[1..], "", w, c);
        }
      } else {
        FieldsChars(s[1..], cur + [s[0]], w, c);
      }
    }
  }

  lemma {:induction false} FieldsOfWordAndMore(w: string, s: string, cur: string)
    requires forall c :: c in w ==> !IsSpace(c)
    ensures FieldsFrom(w + s, cur) == FieldsFrom(s, cur + w)
  {
    if w == "" {
      assert w + s == s && cur + w == cur;
    } else {
      assert w == [w[0]] + w[1..] && (w + s)[1..] == w[1..] + s;
      FieldsOfWordAndMore(w[1..], s, cur + [w[0]]);
      assert cur + [w[0]] + w[1..] == cur + w;
    }
  }

  /** Fields undoes Join on words. */
  lemma {:induction false} FieldsOfJoin(ws: seq<string>)
    requires AreWords(ws)
    ensures Fields(Join(ws, " ")) == ws
  {
    if ws != [] {
      var w, rest := ws[0], Join(ws[1..], " ");
      assert ws == [w] + ws[1..] && w in ws && IsWord(w);
      FieldsOfJoin(ws[1..]);
      if |ws| == 1 {
        FieldsOfWordAndMore(w, "", "");
        assert w + "" == w && "" + w == w;
      } else {
        FieldsOfWordAndMore(w, " " + rest, "");
        assert w + " " + rest == w + (" " + rest) && "" + w == w;
        assert (" " + rest)[1..] == rest;
      }
    }
  }

  lemma {:induction false} FieldsAfterBlank(b: string, s: string, cur: string)
    requires Blank(b) && (b != "" || cur == "")
    ensures FieldsFrom(b + s, cur) == (if cur == "" then [] else [cur]) + FieldsFrom(s, "")
  {
    if b == "" {
      assert b + s == s;
    } else {
      assert b[0] in b && (b + s)[1..] == b[1..] + s;
      FieldsAfterBlank(b[1..], s, "");
    }
  }

  /** The words with a gap before each and one at the end. */
  function Spaced(gaps: seq<string>, ws: seq<string>): string
    requires |gaps| == |ws| + 1
  {
    if ws == [] then gaps[0] else gaps[0] + (ws[0] + Spaced(gaps[1..], ws[1..]))
  }

  ghost predicate AreGaps(gaps: seq<string>, n: nat) {
    |gaps| == n + 1 && (forall g :: g in gaps ==> Blank(g)) && forall i :: 0 < i < n ==> gaps[i] != ""
  }

  /** Whatever white space stands before, between and after words, Fields finds just them. */
  lemma {:induction false} FieldsOfSpaced(gaps: seq<string>, ws: seq<string>)
    requires AreWords(ws) && AreGaps(gaps, |ws|)
    ensures Fields(Spaced(gaps, ws)) == ws
  {
    assert gaps[0] in gaps;
    if ws == [] {
      FieldsAfterBlank(gaps[0], "", "");
      assert gaps[0] + "" == gaps[0];
    } else {
      var w, rest := ws[0], Spaced(gaps[1..], ws[1..]);
      assert ws == [w] + ws[1..] && w in ws && IsWord(w);
      FieldsAfterBlank(gaps[0], w + rest, "");
      FieldsOfWordAndMore(w, rest, "");
      assert "" + w == w;
      FieldsOfSpaced(gaps[1..], ws[1..]);
      FieldsEndsWord(w, gaps[1..], ws[1..]);
    }
  }

  lemma FieldsEndsWord(w: string, gaps: seq<string>, ws: seq<string>)
    requires IsWord(w) && |gaps| == |ws| + 1 && Blank(gaps[0]) && (ws != [] ==> gaps[0] != "")
    ensures FieldsFrom(Spaced(gaps, ws), w) == [w] + Fields(Spaced(gaps, ws))
  {
    var more := if ws == [] then "" else ws[0] + Spaced(gaps[1..], ws[1..]);
    assert Spaced(gaps, ws) == gaps[0] + more by {
      assert gaps[0] + "" == gaps[0];
    }
    hide Spaced;
    GapEndsWord(w, gaps[0], more);
  }

  lemma GapEndsWord(w: string, gap: string, more: string)
    requires w != "" && Blank(gap) && (gap != "" || more == "")
    ensures FieldsFrom(gap + more, w) == [w] + Fields(gap + more)
  {
    if gap == "" {
      assert gap + more == "" && FieldsFrom("", w) == [w] && Fields("") == [];
    } else {
      hide FieldsFrom, Blank;
      FieldsAfterBlank(gap, more, "");
      FieldsAfterBlank(gap, more, w);
    }
  }

  lemma {:induction false} JoinChars(parts: seq<string>, sep: string, c: char)
    requires c in Join(parts, sep)
    ensures c in sep || exists p :: p in parts && c in p
  {
    if |parts| > 1 {
      if c in Join(parts[1..], sep) {
        JoinChars(parts[1..], sep, c);
      } else {
        assert c in parts[0] || c in sep;
      }
    }
  }

  // ---------------------------------------------------------------- splitting

  /** The pieces of cur + s, where cur is a piece already begun. */
  function SplitFrom(s: string, sep: char, cur: string): seq<string> {
    if s == "" then [cur]
    else if s[0] == sep then [cur] + SplitFrom(s[1..], sep, "")
    else SplitFrom(s[1..], sep, cur + [s[0]])
  }

  /** strings.Split with a separator of one character */
  function Split(s: string, sep: char): seq<string> {
    SplitFrom(s, sep, "")
  }

  lemma {:induction false} SplitOfPieceAndMore(piece: string, s: string, sep: char, cur: string)
    requires sep !in piece
    ensures SplitFrom(piece + s, sep, cur) == SplitFrom(s, sep, cur + piece)
  {
    if piece == "" {
      assert piece + s == s && cur + piece == cur;
    } else {
      assert piece == [piece[0]] + piece[1..] && (piece + s)[1..] == piece[1..] + s;
      SplitOfPieceAndMore(piece[1..], s, sep, cur + [piece[0]]);
      assert cur + [piece[0]] + piece[1..] == cur + piece;
    }
  }

  lemma JoinCons(piece: string, more: seq<string>, sep: string)
    requires more != []
    ensures Join([piece] + more, sep) == piece + (sep + Join(more, sep))
  {
    assert ([piece] + more)[1..] == more;
    assert piece + sep + Join(more, sep) == piece + (sep + Join(more, sep));
  }

  /** Split undoes Join on pieces without the separator. */
  lemma {:induction false} SplitOfJoin(pieces: seq<string>, sep: char)
    requires pieces != [] && forall p :: p in pieces ==> sep !in p
    ensures Split(Join(pieces, [sep]), sep) == pieces
  {
    var piece, more := pieces[0], pieces[1..];
    assert pieces == [piece] + more && piece in pieces;
    if more == [] {
      SplitOfPieceAndMore(piece, "", sep, "");
      assert piece + "" == piece && "" + piece == piece;
    } else {
      SplitOfJoin(more, sep);
      JoinCons(piece, more, [sep]);
      SplitOfPieceAndMore(piece, [sep] + Join(more, [sep]), sep, "");
      assert ([sep] + Join(more, [sep]))[1..] == Join(more, [sep]) && "" + piece == piece;
    }
  }

  // ---------------------------------------------------------------- trimming

  function TrimLeft(s: string): string {
    if s != "" && IsSpace(s[0]) then TrimLeft(s[1..]) else s
  }

  function TrimRight(s: string): string {
    if s != "" && IsSpace(s[|s| - 1]) then TrimRight(s[..|s| - 1]) else s
  }

  /** strings.TrimSpace */
  function TrimSpace(s: string): string {
    TrimRight(TrimLeft(s))
  }

  lemma {:induction false} TrimLeftIs(p: string, s: string)
    requires Blank(p) && (s == "" || !IsSpace(s[0]))
    ensures TrimLeft(p + s) == s
  {
    if p == "" {
      assert p + s == s;
    } else {
      assert p[0] in p && (p + s)[1..] == p[1..] + s;
      TrimLeftIs(p[1..], s);
    }
  }

  lemma {:induction false} TrimRightIs(s: string, q: string)
    requires Blank(q) && (s == "" || !IsSpace(s[|s| - 1]))
    ensures TrimRight(s + q) == s
  {
    if q == "" {
      assert s + q == s;
    } else {
      var init := q[..|q| - 1];
      assert q[|q| - 1] in q && (s + q)[..|s + q| - 1] == s + init;
      TrimRightIs(s, init);
    }
  }

  /** What is left of a text is what stands between its outer white space. */
  lemma TrimSpaceIs(p: string, t: string, q: string)
    requires Blank(p) && Blank(q) && (t != "" ==> !IsSpace(t[0]) && !IsSpace(t[|t| - 1]))
    ensures TrimSpace(p + t + q) == t
  {
    if t == "" {
      TrimLeftIs(p + t + q, "");
      assert p + t + q + "" == p + t + q;
    } else {
      TrimLeftIs(p, t + q);
      assert p + t + q == p + (t + q);
      TrimRightIs(t, q);
    }
  }

  lemma {:induction false} TrimRightKeepsFirst(s: string)
    ensures s != "" && !IsSpace(s[0]) ==> TrimRight(s) != ""
  {
    if s != "" && IsSpace(s[|s| - 1]) {
      TrimRightKeepsFirst(s[..|s| - 1]);
    }
  }

  lemma {:induction false} TrimLeftOfNoBlank(s: string)
    requires !Blank(s)
    ensures TrimLeft(s) != "" && !IsSpace(TrimLeft(s)[0])
  {
    assert s == [s[0]] + s[1..];
    if IsSpace(s[0]) {
      TrimLeftOfNoBlank(s[1..]);
    }
  }

  lemma BlankIff(s: string)
    ensures Blank(s) <==> TrimSpace(s) == ""
  {
    if Blank(s) {
      TrimSpaceIs(s, "", "");
      assert s + "" + "" == s;
    } else {
      TrimLeftOfNoBlank(s);
      TrimRightKeepsFirst(TrimLeft(s));
    }
  }

  lemma {:induction false} FieldsOfTrimLeft(s: string)
    ensures Fields(TrimLeft(s)) == Fields(s)
  {
    if s != "" && IsSpace(s[0]) {
      FieldsOfTrimLeft(s[1..]);
    }
  }

  lemma {:induction false} FieldsDropTrailingSpace(s: string, c: char, cur: string)
    requires IsSpace(c)
    ensures FieldsFrom(s + [c], cur) == FieldsFrom(s, cur)
  {
    if s == "" {
      assert (s + [c])[1..] == "";
    } else {
      assert (s + [c])[1..] == s[1..] + [c];
      FieldsDropTrailingSpace(s[1..], c, if IsSpace(s[0]) then "" else cur + [s[0]]);
    }
  }

  lemma {:induction false} FieldsOfTrimRight(s: string)
    ensures Fields(TrimRight(s)) == Fields(s)
  {
    if s != "" && IsSpace(s[|s| - 1]) {
      FieldsOfTrimRight(s[..|s| - 1]);
      FieldsDropTrailingSpace(s[..|s| - 1], s[|s| - 1], "");
      assert s[..|s| - 1] + [s[|s| - 1]] == s;
    }
  }

  lemma FieldsOfTrimSpace(s: string)
    ensures Fields(TrimSpace(s)) == Fields(s)
  {
    FieldsOfTrimLeft(s);
    FieldsOfTrimRight(TrimLeft(s));
  }

  /** strings.Trim */
  function Trim(s: string, cutset: string): string {
    if s != "" && s[0] in cutset then Trim(s[1..], cutset)
    else if s != "" && s[|s| - 1] in cutset then Trim(s[..|s| - 1], cutset)
    else s
  }

  lemma {:induction false} TrimMeaning(s: string, cutset: string)
    ensures var t := Trim(s, cutset);
            && (t != "" ==> t[0] !in cutset && t[|t| - 1] !in cutset)
            && forall c :: c in t ==> c in s
    decreases |s|
  {
    if s != "" && s[0] in cutset {
      TrimMeaning(s[1..], cutset);
    } else if s != "" && s[|s| - 1] in cutset {
      TrimMeaning(s[..|s| - 1], cutset);
    }
  }

  /** What is left is what stands between the outer characters of the cutset. */
  lemma {:induction false} TrimIs(p: string, t: string, q: string, cutset: string)
    requires (forall c :: c in p ==> c in cutset) && (forall c :: c in q ==> c in cutset)
    requires t != "" ==> t[0] !in cutset && t[|t| - 1] !in cutset
    ensures Trim(p + t + q, cutset) == t
    decreases |p| + |q|
  {
    var s := p + t + q;
    if p != "" {
      assert s[0] == p[0] && p[0] in p && s[1..] == p[1..] + t + q;
      TrimIs(p[1..], t, q, cutset);
    } else if q != "" && t == "" {
      assert s[0] == q[0] && q[0] in q && s[1..] == p + t + q[1..];
      TrimIs(p, t, q[1..], cutset);
    } else if q != "" {
      assert s[0] == t[0] && s[|s| - 1] == q[|q| - 1] && q[|q| - 1] in q && s[..|s| - 1] == p + t + q[..|q| - 1];
      TrimIs(p, t, q[..|q| - 1], cutset);
    } else {
      assert s == t;
    }
  }

  // ---------------------------------------------------------------- contents and size

  /** strings.Contains */
  predicate Contains(s: string, part: string) {
    exists i :: 0 <= i <= |s| - |part| && OccursAt(s, part, i)
  }

  predicate OccursAt(s: string, part: string, i: int) {
    0 <= i <= |s| - |part| && s[i..i + |part|] == part
  }

  predicate IsAround(s: string, before: string, part: string, after: string) {
    s == before + part + after
  }

  lemma ContainsIff(s: string, part: string)
    ensures Contains(s, part) <==> exists before, after :: IsAround(s, before, part, after)
  {
    if Contains(s, part) {
      var i :| 0 <= i <= |s| - |part| && OccursAt(s, part, i);
      assert IsAround(s, s[..i], part, s[i + |part|..]);
    }
    forall before, after | IsAround(s, before, part, after) ensures Contains(s, part) {
      assert OccursAt(s, part, |before|);
    }
  }

  function Utf8Size(c: char): nat {
    if c < '\U{80}' then 1 else if c < '\U{800}' then 2 else if c < '\U{10000}' then 3 else 4
  }

  /** The length of the text in bytes. */
  function Bytes(s: string): nat {
    if s == "" then 0 else Bytes(s[..|s| - 1]) + Utf8Size(s[|s| - 1])
  }

  lemma {:induction false} BytesConcat(a: string, b: string)
    ensures Bytes(a + b) == Bytes(a) + Bytes(b)
  {
    if b == "" {
      assert a + b == a;
    } else {
      BytesConcat(a, b[..|b| - 1]);
      assert (a + b)[..|a + b| - 1] == a + b[..|b| - 1];
    }
  }

  /** ASCII takes one byte a character, and what stands from U+0080 to U+07FF, Cyrillic among it, two. */
  lemma {:induction false} BytesByScript(s: string)
    ensures |s| <= Bytes(s) <= 4 * |s|
    ensures (forall c :: c in s ==> c as int < 0x80) ==> Bytes(s) == |s|
    ensures (forall c :: c in s ==> 0x80 <= c as int < 0x800) ==> Bytes(s) == 2 * |s|
  {
    if s != "" {
      var init := s[..|s| - 1];
      BytesByScript(init);
      assert s == init + [s[|s| - 1]];
      assert s[|s| - 1] in s && forall c :: c in init ==> c in s;
    }
  }

  // ---------------------------------------------------------------- letter case

  /** unicode.ToLower on ASCII and on the Cyrillic letters from U+0400 to U+042F; other characters
      are left alone. */
  function Lower(c: char): char {
    if 'A' <= c <= 'Z' then c + '\U{20}'
    else if '\U{0410}' <= c <= '\U{042F}' then c + '\U{20}'
    else if '\U{0400}' <= c <= '\U{040F}' then c + '\U{50}'
    else c
  }

  /** strings.ToLower */
  function ToLower(s: string): (r: string)
    ensures |r| == |s|
    ensures forall i :: 0 <= i < |s| ==> r[i] == Lower(s[i])
  {
    seq(|s|, i requires 0 <= i < |s| => Lower(s[i]))
  }

  /** A text of lowered characters is left alone. */
  lemma LoweredIsStable(s: string, t: string)
    requires forall c :: c in t ==> c in ToLower(s)
    ensures ToLower(t) == t
  {
    forall i | 0 <= i < |t| ensures Lower(t[i]) == t[i] {
      assert t[i] in ToLower(s);
      var k :| 0 <= k < |s| && ToLower(s)[k] == t[i];
      LowerIsStable(s[k]);
    }
  }

  lemma LowerIsStable(c: char)
    ensures Lower(Lower(c)) == Lower(c)
    ensures IsSpace(Lower(c)) <==> IsSpace(c)
  {
  }

  /** A capital letter and its small one: A-Z with a-z, U+0410-U+042F with U+0430-U+044F, and
      U+0400-U+040F with U+0450-U+045F. */
  predicate IsCapitalOf(c: char, d: char) {
    || ('A' <= c <= 'Z' && 'a' <= d <= 'z' && c as int - 0x41 == d as int - 0x61)
    || (0x410 <= c as int <= 0x42F && 0x430 <= d as int <= 0x44F && c as int - 0x410 == d as int - 0x430)
    || (0x400 <= c as int <= 0x40F && 0x450 <= d as int <= 0x45F && c as int - 0x400 == d as int - 0x450)
  }

  predicate SameLetter(c: char, d: char) {
    c == d || IsCapitalOf(c, d) || IsCapitalOf(d, c)
  }

  lemma LoweredAlikeIff(c: char, d: char)
    ensures Lower(c) == Lower(d) <==> SameLetter(c, d)
  {
  }

  ghost predicate SameButForCase(s: string, t: string) {
    |s| == |t| && forall i :: 0 <= i < |s| ==> SameLetter(s[i], t[i])
  }

  lemma TextsLoweredAlikeIff(s: string, t: string)
    ensures ToLower(s) == ToLower(t) <==> SameButForCase(s, t)
  {
    hide Lower, SameLetter;
    forall i | 0 <= i < |s| && i < |t| ensures ToLower(s)[i] == ToLower(t)[i] <==> SameLetter(s[i], t[i]) {
      LoweredAlikeIff(s[i], t[i]);
    }
    assert |s| == |ToLower(s)| && |t| == |ToLower(t)|;
    if SameButForCase(s, t) {
      assert forall i :: 0 <= i < |s| ==> ToLower(s)[i] == ToLower(t)[i];
    }
  }

  ghost predicate WordsSameButForCase(a: seq<string>, b: seq<string>) {
    |a| == |b| && forall i :: 0 <= i < |a| ==> SameButForCase(a[i], b[i])
  }

  ghost function LowerAll(ws: seq<string>): (r: seq<string>)
    ensures |r| == |ws|
    ensures forall i :: 0 <= i < |ws| ==> r[i] == ToLower(ws[i])
  {
    seq(|ws|, i requires 0 <= i < |ws| => ToLower(ws[i]))
  }

  lemma LowerSnoc(s: string, c: char)
    ensures ToLower(s + [c]) == ToLower(s) + [Lower(c)]
  {
  }

  lemma LowerTail(s: string)
    requires s != ""
    ensures ToLower(s)[1..] == ToLower(s[1..]) && ToLower(s)[0] == Lower(s[0])
  {
  }

  lemma LowerAllCons(w: string, ws: seq<string>)
    ensures LowerAll([w] + ws) == [ToLower(w)] + LowerAll(ws)
  {
  }

  /** Lowering a text lowers its words. */
  lemma {:induction false} FieldsOfLower(s: string, cur: string)
    ensures FieldsFrom(ToLower(s), ToLower(cur)) == LowerAll(FieldsFrom(s, cur))
  {
    assert |ToLower(cur)| == |cur| && |ToLower(s)| == |s|;
    LowerAllCons(cur, []);
    if s != "" {
      LowerTail(s);
      LowerIsStable(s[0]);
      hide Lower, IsSpace;
      if IsSpace(s[0]) {
        FieldsOfLower(s[1..], "");
        LowerAllCons(cur, FieldsFrom(s[1..], ""));
        assert ToLower("") == "";
      } else {
        FieldsOfLower(s[1..], cur + [s[0]]);
        LowerSnoc(cur, s[0]);
      }
    }
  }

  /** Two texts have the same lowered words exactly when their words differ in letter case only. */
  lemma LoweredWordsAlikeIff(q: string, r: string)
    ensures Fields(ToLower(q)) == Fields(ToLower(r)) <==> WordsSameButForCase(Fields(q), Fields(r))
  {
    assert ToLower("") == "";
    FieldsOfLower(q, "");
    FieldsOfLower(r, "");
    hide ToLower, FieldsFrom, SameButForCase;
    var a, b := Fields(q), Fields(r);
    forall i | 0 <= i < |a| && i < |b| ensures LowerAll(a)[i] == LowerAll(b)[i] <==> SameButForCase(a[i], b[i]) {
      TextsLoweredAlikeIff(a[i], b[i]);
    }
    assert |a| == |LowerAll(a)| && |b| == |LowerAll(b)|;
    if WordsSameButForCase(a, b) {
      assert forall i :: 0 <= i < |a| ==> LowerAll(a)[i] == LowerAll(b)[i];
    }
  }
}
