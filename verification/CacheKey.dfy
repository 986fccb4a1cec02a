/** The text that the search cache's key is a hash of. */
module CacheKey {
  import opened Text

  function NormalizeQuery(q: string): string {
    Join(Fields(TrimSpace(ToLower(q))), " ")
  }

  // ---------------------------------------------------------------- sorted domains

  /** Lexicographic order, the order of sort.Strings. */
  predicate AtMost(a: string, b: string) {
    a == "" || (b != "" && (a[0] < b[0] || (a[0] == b[0] && AtMost(a[1..], b[1..]))))
  }

  lemma {:induction false} AtMostIsTotal(a: string, b: string)
    ensures AtMost(a, b) || AtMost(b, a)
  {
    if a != "" && b != "" {
      AtMostIsTotal(a[1..], b[1..]);
    }
  }

  lemma {:induction false} AtMostIsAntisymmetric(a: string, b: string)
    requires AtMost(a, b) && AtMost(b, a)
    ensures a == b
  {
    if a != "" {
      AtMostIsAntisymmetric(a[1..], b[1..]);
      assert a == [a[0]] + a[1..] && b == [b[0]] + b[1..];
    }
  }

  lemma {:induction false} AtMostIsTransitive(a: string, b: string, c: string)
    requires AtMost(a, b) && AtMost(b, c)
    ensures AtMost(a, c)
  {
    if a != "" && a[0] == b[0] == c[0] {
      AtMostIsTransitive(a[1..], b[1..], c[1..]);
    }
  }

  ghost predicate Sorted(ss: seq<string>) {
    |ss| > 1 ==> AtMost(ss[0], ss[1]) && Sorted(ss[1..])
  }

  function Insert(s: string, ss: seq<string>): seq<string> {
    if ss == [] || AtMost(s, ss[0]) then [s] + ss else [ss[0]] + Insert(s, ss[1..])
  }

  /** sort.Strings; any sort leaves the same, as SortedIsUnique says. */
  function SortStrings(ss: seq<string>): seq<string> {
    if ss == [] then [] else Insert(ss[0], SortStrings(ss[1..]))
  }

  lemma {:induction false} InsertKeepsSorted(s: string, ss: seq<string>)
    requires Sorted(ss)
    ensures Sorted(Insert(s, ss))
    ensures multiset(Insert(s, ss)) == multiset(ss) + multiset{s}
  {
    if ss == [] || AtMost(s, ss[0]) {
      assert ([s] + ss)[1..] == ss;
    } else {
      var rest := Insert(s, ss[1..]);
      assert ss == [ss[0]] + ss[1..];
      InsertKeepsSorted(s, ss[1..]);
      AtMostIsTotal(s, ss[0]);
      assert ([ss[0]] + rest)[1..] == rest;
    }
  }

  lemma {:induction false} SortStringsSorts(ss: seq<string>)
    ensures Sorted(SortStrings(ss)) && multiset(SortStrings(ss)) == multiset(ss)
  {
    if ss != [] {
      SortStringsSorts(ss[1..]);
      InsertKeepsSorted(ss[0], SortStrings(ss[1..]));
      assert ss == [ss[0]] + ss[1..];
    }
  }

  lemma {:induction false} HeadIsLeast(ss: seq<string>, s: string)
    requires Sorted(ss) && s in ss
    ensures AtMost(ss[0], s)
  {
    if s == ss[0] {
      AtMostIsTotal(s, s);
    } else {
      assert ss == [ss[0]] + ss[1..];
      HeadIsLeast(ss[1..], s);
      AtMostIsTransitive(ss[0], ss[1], s);
    }
  }

  lemma HeadAndTail(ss: seq<string>) returns (head: string, tail: seq<string>)
    requires ss != []
    ensures head == ss[0] && ss == [head] + tail
    ensures Sorted(ss) ==> Sorted(tail)
    ensures head in multiset(ss) && multiset(tail) == multiset(ss) - multiset{head}
  {
    head, tail := ss[0], ss[1..];
    assert ss == [head] + tail;
  }

  /** A multiset of strings has one sorted sequence. */
  lemma {:induction false} SortedIsUnique(a: seq<string>, b: seq<string>)
    requires Sorted(a) && Sorted(b) && multiset(a) == multiset(b)
    ensures a == b
    decreases |a|
  {
    assert |a| == |multiset(a)| == |multiset(b)| == |b|;
    if |a| > 0 {
      var x, xs := HeadAndTail(a);
      var y, ys := HeadAndTail(b);
      HeadIsLeast(a, y);
      HeadIsLeast(b, x);
      AtMostIsAntisymmetric(x, y);
      SortedIsUnique(xs, ys);
    }
  }

  // ---------------------------------------------------------------- the key

  /** The data that is hashed; no separator stands between the query and the domains. */
  function KeyData(query: string, domains: seq<string>): string {
    NormalizeQuery(query) + Join(SortStrings(domains), ",")
  }

  lemma NormalizedWords(q: string)
    ensures NormalizeQuery(q) == Join(Fields(ToLower(q)), " ")
    ensures Fields(NormalizeQuery(q)) == Fields(ToLower(q))
  {
    FieldsOfTrimSpace(ToLower(q));
    FieldsAreWords(ToLower(q), "");
    FieldsOfJoin(Fields(ToLower(q)));
  }

  /** Two queries are normalized alike exactly when they have the same words but for letter case. */
  lemma NormalizeIsCanonical(q: string, r: string)
    ensures NormalizeQuery(q) == NormalizeQuery(r) <==> Fields(ToLower(q)) == Fields(ToLower(r))
    ensures NormalizeQuery(q) == NormalizeQuery(r) <==> WordsSameButForCase(Fields(q), Fields(r))
  {
    NormalizedWords(q);
    NormalizedWords(r);
    LoweredWordsAlikeIff(q, r);
  }

  lemma NormalizedIsLower(q: string)
    ensures ToLower(NormalizeQuery(q)) == NormalizeQuery(q)
  {
    var n, words := NormalizeQuery(q), Fields(ToLower(q));
    NormalizedWords(q);
    forall i | 0 <= i < |n| ensures Lower(n[i]) == n[i] {
      JoinChars(words, " ", n[i]);
      if n[i] !in " " {
        var w :| w in words && n[i] in w;
        FieldsChars(ToLower(q), "", w, n[i]);
        var k :| 0 <= k < |q| && ToLower(q)[k] == n[i];
        LowerIsStable(q[k]);
      }
    }
  }

  lemma NormalizeIsIdempotent(q: string)
    ensures NormalizeQuery(NormalizeQuery(q)) == NormalizeQuery(q)
  {
    NormalizedIsLower(q);
    NormalizedWords(q);
    NormalizeIsCanonical(NormalizeQuery(q), q);
  }

  /** The key ignores the order of the domains, and for the same domains two queries share it exactly
      when they differ in white space and letter case only. */
  lemma KeyIsCanonical(q: string, r: string, domains: seq<string>, shuffled: seq<string>)
    requires multiset(domains) == multiset(shuffled)
    ensures KeyData(q, domains) == KeyData(r, shuffled) <==> Fields(ToLower(q)) == Fields(ToLower(r))
  {
    SortStringsSorts(domains);
    SortStringsSorts(shuffled);
    SortedIsUnique(SortStrings(domains), SortStrings(shuffled));
    NormalizeIsCanonical(q, r);
    var tail, n, m := Join(SortStrings(domains), ","), NormalizeQuery(q), NormalizeQuery(r);
    if n + tail == m + tail {
      assert |n| == |m| && n == (n + tail)[..|n|] && m == (m + tail)[..|m|];
    }
  }

  /** Changing the letter case of any characters of a query, or the order of the domains, changes no key. */
  lemma KeyIgnoresCase(q: string, r: string, domains: seq<string>, shuffled: seq<string>)
    requires SameButForCase(q, r) && multiset(domains) == multiset(shuffled)
    ensures KeyData(q, domains) == KeyData(r, shuffled)
  {
    TextsLoweredAlikeIff(q, r);
    KeyIsCanonical(q, r, domains, shuffled);
  }

  /** Whatever white space stands around and between their words, two queries share a key for the same
      domains exactly when their words are the same but for letter case. */
  lemma KeyIgnoresSpacing(
      gaps: seq<string>, ws: seq<string>, others: seq<string>, vs: seq<string>, domains: seq<string>)
    requires AreWords(ws) && AreGaps(gaps, |ws|) && AreWords(vs) && AreGaps(others, |vs|)
    ensures KeyData(Spaced(gaps, ws), domains) == KeyData(Spaced(others, vs), domains) <==> WordsSameButForCase(ws, vs)
  {
    hide KeyData, Spaced, Fields, AreWords, WordsSameButForCase;
    FieldsOfSpaced(gaps, ws);
    FieldsOfSpaced(others, vs);
    KeyIsCanonical(Spaced(gaps, ws), Spaced(others, vs), domains, domains);
    LoweredWordsAlikeIff(Spaced(gaps, ws), Spaced(others, vs));
  }

  // ---------------------------------------------------------------- when keys collide

  /** Domains as the sources have them: not empty and without a comma. */
  predicate ArePlain(domains: seq<string>) {
    forall d :: d in domains ==> d != "" && ',' !in d
  }

  lemma JoinIsEmptyIff(domains: seq<string>)
    requires ArePlain(domains)
    ensures Join(domains, ",") == "" <==> domains == []
  {
    if domains != [] {
      assert domains[0] in domains;
    }
  }

  lemma JoinIsInjective(a: seq<string>, b: seq<string>)
    requires ArePlain(a) && ArePlain(b) && Join(a, ",") == Join(b, ",")
    ensures a == b
  {
    JoinIsEmptyIff(a);
    JoinIsEmptyIff(b);
    if a != [] {
      SplitOfJoin(a, ',');
      SplitOfJoin(b, ',');
    }
  }

  lemma SortKeepsPlain(domains: seq<string>)
    requires ArePlain(domains)
    ensures ArePlain(SortStrings(domains))
  {
    SortStringsSorts(domains);
    forall d | d in SortStrings(domains) ensures d in domains {
      assert d in multiset(SortStrings(domains));
    }
  }

  /** One query with plain domains has one key for each multiset of them. */
  lemma SameQuerySameKeyIff(q: string, d: seq<string>, e: seq<string>)
    requires ArePlain(d) && ArePlain(e)
    ensures KeyData(q, d) == KeyData(q, e) <==> multiset(d) == multiset(e)
  {
    var n, x, y := NormalizeQuery(q), SortStrings(d), SortStrings(e);
    SortStringsSorts(d);
    SortStringsSorts(e);
    if multiset(d) == multiset(e) {
      SortedIsUnique(x, y);
    }
    if KeyData(q, d) == KeyData(q, e) {
      assert (n + Join(x, ","))[|n|..] == Join(x, ",") && (n + Join(y, ","))[|n|..] == Join(y, ",");
      SortKeepsPlain(d);
      SortKeepsPlain(e);
      JoinIsInjective(x, y);
    }
  }

  /** The longer query makes up for what the domains of the shorter one begin with. */
  predicate Glues(q: string, d: seq<string>, r: string, e: seq<string>) {
    var n, m := NormalizeQuery(q), NormalizeQuery(r);
    n <= m && Join(SortStrings(d), ",") == m[|n|..] + Join(SortStrings(e), ",")
  }

  lemma PrefixesGlue(n: string, x: string, m: string, y: string)
    requires |n| <= |m|
    ensures n + x == m + y <==> n <= m && x == m[|n|..] + y
  {
    if n + x == m + y {
      assert n == (n + x)[..|n|] == (m + y)[..|n|] == m[..|n|];
      assert x == (n + x)[|n|..] == (m + y)[|n|..] == m[|n|..] + y;
    }
    if n <= m && x == m[|n|..] + y {
      assert m == n + m[|n|..];
      assert n + (m[|n|..] + y) == n + m[|n|..] + y;
    }
  }

  /** Exactly when two searches share a key. */
  lemma SameKeyIff(q: string, d: seq<string>, r: string, e: seq<string>)
    ensures KeyData(q, d) == KeyData(r, e) <==> Glues(q, d, r, e) || Glues(r, e, q, d)
  {
    var n, m := NormalizeQuery(q), NormalizeQuery(r);
    var x, y := Join(SortStrings(d), ","), Join(SortStrings(e), ",");
    hide NormalizeQuery, Join, SortStrings;
    if |n| <= |m| {
      PrefixesGlue(n, x, m, y);
    }
    if |m| <= |n| {
      PrefixesGlue(m, y, n, x);
    }
  }

  /** So different searches can share one: the query may end as a domain begins, a domain may hold a
      comma, and a domain may be empty. */
  lemma {:induction false} KeysCanCollide()
    ensures KeyData("ab", []) == KeyData("a", ["b"])
    ensures KeyData("a", ["b,c"]) == KeyData("a", ["b", "c"])
    ensures KeyData("a", [""]) == KeyData("a", [])
  {
    assert ToLower("ab") == "ab" && ToLower("a") == "a";
    NormalizedWords("ab");
    NormalizedWords("a");
    assert NormalizeQuery("ab") == "ab" && NormalizeQuery("a") == "a";
    assert SortStrings(["b"]) == ["b"] && SortStrings([""]) == [""] && SortStrings(["b,c"]) == ["b,c"];
    assert SortStrings(["c"]) == ["c"] && ["b", "c"][1..] == ["c"];
    assert AtMost("b", "c") && SortStrings(["b", "c"]) == ["b", "c"];
    assert Join(["b", "c"], ",") == "b,c";
  }
}
