/** Splitting a long HTML message into parts for Telegram. Strings are sequences of bytes. */
module MessageSplitter {

  predicate IsBreak(c: char) {
    c == ' ' || c == '\n'
  }

  /** The nearest angle bracket at or before pos is a '<'. */
  ghost predicate InsideTag(text: string, pos: int)
    decreases pos
  {
    0 <= pos < |text| && text[pos] != '>' && (text[pos] == '<' || InsideTag(text, pos - 1))
  }

  ghost predicate OpensUpTo(text: string, j: int, pos: int) {
    0 <= j <= pos < |text| && text[j] == '<' && forall k :: j <= k <= pos ==> text[k] != '>'
  }

  /** That is: some '<' stands at or before pos with no '>' since. */
  lemma {:induction false} InsideTagMeaning(text: string, pos: int)
    ensures InsideTag(text, pos) <==> exists j :: OpensUpTo(text, j, pos)
    decreases pos
  {
    if 0 <= pos < |text| {
      InsideTagMeaning(text, pos - 1);
      if text[pos] == '<' {
        assert OpensUpTo(text, pos, pos);
      } else {
        if InsideTag(text, pos) {
          var j :| OpensUpTo(text, j, pos - 1);
          assert OpensUpTo(text, j, pos);
        }
        if j :| OpensUpTo(text, j, pos) {
          assert OpensUpTo(text, j, pos - 1);
        }
      }
    }
  }

  ghost predicate SafeBreak(text: string, i: int) {
    0 <= i < |text| && IsBreak(text[i]) && !InsideTag(text, i)
  }

  // ---------------------------------------------------------------- where the text is cut

  /** The last break outside any tag in (lo, hi], or -1. */
  ghost function LastSafeBreak(text: string, lo: nat, hi: int): (i: int)
    ensures i == -1 || (lo < i <= hi && SafeBreak(text, i))
    decreases hi
  {
    if hi <= lo then -1 else if SafeBreak(text, hi) then hi else LastSafeBreak(text, lo, hi - 1)
  }

  /** The last break in (0, hi], inside a tag or not, or -1. */
  ghost function LastBreak(text: string, hi: int): (i: int)
    requires hi < |text|
    ensures i == -1 || (0 < i <= hi && IsBreak(text[i]))
    decreases hi
  {
    if hi <= 0 then -1 else if IsBreak(text[hi]) then hi else LastBreak(text, hi - 1)
  }

  /** The first '>' at or after from, or -1. */
  ghost function FirstClose(text: string, from: nat): (i: int)
    requires from <= |text|
    ensures i == -1 || (from <= i < |text| && text[i] == '>')
    decreases |text| - from
  {
    if from == |text| then -1 else if text[from] == '>' then from else FirstClose(text, from + 1)
  }

  /** The first break in [from, end), or -1. */
  ghost function FirstBreak(text: string, from: nat, end: int): (i: int)
    ensures i == -1 || (from <= i < |text| && i < end && IsBreak(text[i]))
    decreases end - from
  {
    if from >= end || from >= |text| then -1
    else if IsBreak(text[from]) then from else FirstBreak(text, from + 1, end)
  }

  lemma {:induction false} LastSafeBreakIsLast(text: string, lo: nat, hi: int, k: int)
    requires lo < k <= hi && SafeBreak(text, k)
    ensures LastSafeBreak(text, lo, hi) >= k
    decreases hi
  {
    if k < hi {
      LastSafeBreakIsLast(text, lo, hi - 1, k);
    }
  }

  lemma {:induction false} LastBreakIsLast(text: string, hi: int, k: int)
    requires 0 < k <= hi < |text| && IsBreak(text[k])
    ensures LastBreak(text, hi) >= k
    decreases hi
  {
    if k < hi {
      LastBreakIsLast(text, hi - 1, k);
    }
  }

  lemma {:induction false} FirstCloseIsFirst(text: string, from: nat, k: int)
    requires from <= k < |text| && text[k] == '>'
    ensures 0 <= FirstClose(text, from) <= k
    decreases k - from
  {
    if from < k && text[from] != '>' {
      FirstCloseIsFirst(text, from + 1, k);
    }
  }

  lemma {:induction false} FirstBreakIsFirst(text: string, from: nat, end: int, k: int)
    requires from <= k < |text| && k < end && IsBreak(text[k])
    ensures 0 <= FirstBreak(text, from, end) <= k
    decreases k - from
  {
    if from < k && !IsBreak(text[from]) {
      FirstBreakIsFirst(text, from + 1, end, k);
    }
  }

  // How far past a closing '>' a break is still looked for.
  const LOOKAHEAD := 50

  /** No safe break is in reach below maxLen, and the tag open at maxLen is closed further on. */
  ghost predicate PassesTag(text: string, maxLen: nat)
    requires maxLen < |text|
  {
    LastSafeBreak(text, maxLen / 2, maxLen - 1) == -1 && InsideTag(text, maxLen) && FirstClose(text, maxLen) != -1
  }

  /** The number of bytes that go into the next part of a text longer than maxLen. */
  ghost function SplitPoint(text: string, maxLen: nat): int
    requires maxLen < |text|
  {
    var safe, close := LastSafeBreak(text, maxLen / 2, maxLen - 1), FirstClose(text, maxLen);
    if safe != -1 then safe + 1
    else if InsideTag(text, maxLen) && close != -1 then
      var after := FirstBreak(text, close + 1, close + LOOKAHEAD);
      if after != -1 then after + 1 else close + 1
    else
      var last := LastBreak(text, maxLen - 1);
      if last != -1 then last + 1 else maxLen
  }

  method IsInsideHTMLTag(text: string, pos: int) returns (inside: bool)
    ensures inside <==> InsideTag(text, pos)
  {
    if pos >= |text| || pos < 0 {
      return false;
    }
    var i := pos;
    while i >= 0
      invariant -1 <= i <= pos
      invariant InsideTag(text, pos) <==> InsideTag(text, i)
    {
      if text[i] == '>' {
        return false;
      }
      if text[i] == '<' {
        return true;
      }
      i := i - 1;
    }
    return false;
  }

  /** A negative maxLen comes back as it is: every search below it is empty. */
  method FindSafeSplitPoint(text: string, maxLen: int) returns (p: int)
    requires maxLen < |text|
    ensures p == if maxLen < 0 then maxLen else SplitPoint(text, maxLen)
  {
    var i := maxLen - 1;
    while i > maxLen / 2
      invariant maxLen >= 0 ==> LastSafeBreak(text, maxLen / 2, maxLen - 1) == LastSafeBreak(text, maxLen / 2, i)
    {
      if i < |text| {
        var inside := IsInsideHTMLTag(text, i);
        if !inside && (text[i] == '\n' || text[i] == ' ') {
          return i + 1;
        }
      }
      i := i - 1;
    }

    var insideAtMax := IsInsideHTMLTag(text, maxLen);
    if maxLen < |text| && insideAtMax {
      p := FindSplitPointAfterTag(text, maxLen);
      if p != 0 {
        return p;
      }
    }

    i := maxLen - 1;
    while i > 0
      invariant i < |text|
      invariant maxLen >= 0 ==> LastBreak(text, maxLen - 1) == LastBreak(text, i)
    {
      if text[i] == ' ' || text[i] == '\n' {
        return i + 1;
      }
      i := i - 1;
    }
    return maxLen;
  }

  /** The second phase: past the end of the tag, or 0 when no '>' follows. */
  method FindSplitPointAfterTag(text: string, maxLen: nat) returns (p: nat)
    requires maxLen < |text|
    ensures var close := FirstClose(text, maxLen);
            if close == -1 then p == 0
            else var after := FirstBreak(text, close + 1, close + LOOKAHEAD);
                 p == if after != -1 then after + 1 else close + 1
  {
    var i := maxLen;
    while i < |text|
      invariant maxLen <= i <= |text|
      invariant FirstClose(text, maxLen) == FirstClose(text, i)
    {
      if text[i] == '>' {
        var j := i + 1;
        while j < |text| && j < i + LOOKAHEAD
          invariant i < j
          invariant FirstBreak(text, i + 1, i + LOOKAHEAD) == FirstBreak(text, j, i + LOOKAHEAD)
        {
          if text[j] == '\n' || text[j] == ' ' {
            return j + 1;
          }
          j := j + 1;
        }
        return i + 1;
      }
      i := i + 1;
    }
    return 0;
  }

  /** A cut always lies in the text; it passes maxLen exactly when the second phase finds a '>'
      closing the tag that is open at maxLen, and then by at most LOOKAHEAD past that '>'. */
  lemma SplitPointBounds(text: string, maxLen: nat)
    requires maxLen < |text|
    ensures var p, close := SplitPoint(text, maxLen), FirstClose(text, maxLen);
            && 0 <= p <= |text|
            && (p == 0 <==> maxLen == 0 && !PassesTag(text, 0))
            && (p > maxLen <==> PassesTag(text, maxLen))
            && (p > maxLen ==> close < p <= close + LOOKAHEAD)
  {
  }

  // ---------------------------------------------------------------- the cut, without the searches

  ghost predicate IsLastSafe(text: string, maxLen: nat, i: int) {
    maxLen / 2 < i < maxLen && SafeBreak(text, i) && forall k :: i < k < maxLen ==> !SafeBreak(text, k)
  }

  ghost predicate NoneSafe(text: string, maxLen: nat) {
    forall k :: maxLen / 2 < k < maxLen ==> !SafeBreak(text, k)
  }

  ghost predicate IsFirstClose(text: string, maxLen: nat, c: int) {
    maxLen <= c < |text| && text[c] == '>' && forall k :: maxLen <= k < c ==> text[k] != '>'
  }

  ghost predicate NeverCloses(text: string, maxLen: nat) {
    forall k :: maxLen <= k < |text| ==> text[k] != '>'
  }

  ghost predicate IsFirstBreakAfter(text: string, c: int, i: int) {
    && 0 <= c < i < |text| && i < c + LOOKAHEAD && IsBreak(text[i])
    && forall k :: c < k < i ==> !IsBreak(text[k])
  }

  ghost predicate NoBreakAfter(text: string, c: int) {
    0 <= c && forall k :: c < k < |text| && k < c + LOOKAHEAD ==> !IsBreak(text[k])
  }

  ghost predicate IsLastBreak(text: string, maxLen: nat, i: int) {
    0 < i < maxLen <= |text| && IsBreak(text[i]) && forall k :: i < k < maxLen ==> !IsBreak(text[k])
  }

  ghost predicate NoBreak(text: string, maxLen: nat) {
    forall k :: 0 < k < maxLen && k < |text| ==> !IsBreak(text[k])
  }

  /** The cut falls past the '>' at c: after the first break within reach, or else right there. */
  ghost predicate CutsAfterTag(text: string, maxLen: nat, c: int, p: int) {
    IsFirstClose(text, maxLen, c) && (IsFirstBreakAfter(text, c, p - 1) || (NoBreakAfter(text, c) && p == c + 1))
  }

  /** Where a text is to be cut: after the last safe break in the upper half of maxLen; failing that,
      if a tag is open at maxLen and closed later, past that tag; failing that, after the last break of
      any kind; failing that, at maxLen. */
  ghost predicate IsCut(text: string, maxLen: nat, p: int) {
    || IsLastSafe(text, maxLen, p - 1)
    || (NoneSafe(text, maxLen) && InsideTag(text, maxLen) && exists c :: CutsAfterTag(text, maxLen, c, p))
    || (NoneSafe(text, maxLen) && (!InsideTag(text, maxLen) || NeverCloses(text, maxLen)) &&
        (IsLastBreak(text, maxLen, p - 1) || (NoBreak(text, maxLen) && p == maxLen)))
  }

  lemma LastSafeBreakMeaning(text: string, maxLen: nat)
    ensures var i := LastSafeBreak(text, maxLen / 2, maxLen - 1);
            if i == -1 then NoneSafe(text, maxLen) else IsLastSafe(text, maxLen, i)
  {
    forall k | maxLen / 2 < k < maxLen && SafeBreak(text, k)
      ensures LastSafeBreak(text, maxLen / 2, maxLen - 1) >= k
    {
      LastSafeBreakIsLast(text, maxLen / 2, maxLen - 1, k);
    }
  }

  lemma FirstCloseMeaning(text: string, maxLen: nat)
    requires maxLen <= |text|
    ensures var c := FirstClose(text, maxLen);
            if c == -1 then NeverCloses(text, maxLen) else IsFirstClose(text, maxLen, c)
  {
    forall k | maxLen <= k < |text| && text[k] == '>' ensures 0 <= FirstClose(text, maxLen) <= k {
      FirstCloseIsFirst(text, maxLen, k);
    }
  }

  lemma FirstBreakMeaning(text: string, c: nat)
    ensures var i := FirstBreak(text, c + 1, c + LOOKAHEAD);
            if i == -1 then NoBreakAfter(text, c) else IsFirstBreakAfter(text, c, i)
  {
    forall k | c < k < |text| && k < c + LOOKAHEAD && IsBreak(text[k])
      ensures 0 <= FirstBreak(text, c + 1, c + LOOKAHEAD) <= k
    {
      FirstBreakIsFirst(text, c + 1, c + LOOKAHEAD, k);
    }
  }

  lemma LastBreakMeaning(text: string, maxLen: nat)
    requires maxLen <= |text|
    ensures var i := LastBreak(text, maxLen - 1);
            if i == -1 then NoBreak(text, maxLen) else IsLastBreak(text, maxLen, i)
  {
    forall k | 0 < k < maxLen && IsBreak(text[k]) ensures LastBreak(text, maxLen - 1) >= k {
      LastBreakIsLast(text, maxLen - 1, k);
    }
  }

  lemma SplitPointIsCut(text: string, maxLen: nat)
    requires maxLen < |text|
    ensures IsCut(text, maxLen, SplitPoint(text, maxLen))
  {
    hide LastSafeBreak, FirstClose, FirstBreak, LastBreak, InsideTag;
    LastSafeBreakMeaning(text, maxLen);
    FirstCloseMeaning(text, maxLen);
    LastBreakMeaning(text, maxLen);
    var close := FirstClose(text, maxLen);
    if close != -1 {
      FirstBreakMeaning(text, close);
      assert InsideTag(text, maxLen) && LastSafeBreak(text, maxLen / 2, maxLen - 1) == -1 ==>
          CutsAfterTag(text, maxLen, close, SplitPoint(text, maxLen));
    }
  }

  lemma CutIsUnique(text: string, maxLen: nat, p: int, q: int)
    requires IsCut(text, maxLen, p) && IsCut(text, maxLen, q)
    ensures p == q
  {
    hide InsideTag;
    if IsLastSafe(text, maxLen, p - 1) {
      assert IsLastSafe(text, maxLen, q - 1);
    } else if InsideTag(text, maxLen) && !NeverCloses(text, maxLen) {
      var c :| CutsAfterTag(text, maxLen, c, p);
      var d :| CutsAfterTag(text, maxLen, d, q);
      assert c == d;
    }
  }

  /** The searches find that place and there is only one. */
  lemma SplitPointIsTheCut(text: string, maxLen: nat, p: int)
    requires maxLen < |text|
    ensures p == SplitPoint(text, maxLen) <==> IsCut(text, maxLen, p)
  {
    hide IsCut, SplitPoint;
    SplitPointIsCut(text, maxLen);
    if IsCut(text, maxLen, p) {
      CutIsUnique(text, maxLen, p, SplitPoint(text, maxLen));
    }
  }

  // ---------------------------------------------------------------- the whole split

  /** Whether splitting ends in an answer. With maxLen 0 every cut must take the second phase. */
  ghost predicate CanSplit(text: string, maxLen: int)
    decreases |text|
  {
    || text == ""
    || maxLen >= 1
    || (maxLen == 0 && PassesTag(text, 0) &&
        (SplitPointBounds(text, 0); CanSplit(text[SplitPoint(text, 0)..], 0)))
  }

  /** The parts of a text of which some has already been sent. */
  ghost function PartsOfRest(text: string, maxLen: int): seq<string>
    requires CanSplit(text, maxLen)
    decreases |text|
  {
    if text == "" then []
    else if |text| <= maxLen then [text]
    else
      SplitPointBounds(text, maxLen);
      var p := SplitPoint(text, maxLen);
      [text[..p]] + PartsOfRest(text[p..], maxLen)
  }

  lemma PartsOfRestUnfold(text: string, maxLen: nat)
    requires CanSplit(text, maxLen) && maxLen < |text|
    ensures var p := SplitPoint(text, maxLen);
            && 1 <= p <= |text| && CanSplit(text[p..], maxLen)
            && PartsOfRest(text, maxLen) == [text[..p]] + PartsOfRest(text[p..], maxLen)
            && (PartsOfRest(text[p..], maxLen) == [] <==> p == |text|)
  {
    SplitPointBounds(text, maxLen);
  }

  ghost function Parts(text: string, maxLen: int): seq<string>
    requires CanSplit(text, maxLen)
  {
    if |text| <= maxLen then [text] else PartsOfRest(text, maxLen)
  }

  lemma PartsOfShortRest(text: string, maxLen: int)
    requires text == "" || |text| <= maxLen
    ensures CanSplit(text, maxLen) && PartsOfRest(text, maxLen) == if text == "" then [] else [text]
  {
  }

  /** The requirement is exact. With a negative maxLen any text but the empty one would be sliced out
      of range, and with zero ZeroLimitEndsIff says when the loop ends. */
  method SplitMessage(text: string, maxLen: int) returns (messages: seq<string>)
    requires CanSplit(text, maxLen)
    ensures messages == Parts(text, maxLen)
  {
    if |text| <= maxLen {
      return [text];
    }
    assert Parts(text, maxLen) == PartsOfRest(text, maxLen);
    hide *;
    PartsOfShortRest("", maxLen);
    messages := [];
    var rest := text;
    while |rest| > 0
      invariant CanSplit(rest, maxLen)
      invariant messages + PartsOfRest(rest, maxLen) == PartsOfRest(text, maxLen)
      decreases |rest|
    {
      if |rest| <= maxLen {
        PartsOfShortRest(rest, maxLen);
        messages := messages + [rest];
        break;
      }
      SplittableLimit(rest, maxLen);
      var splitPoint := FindSafeSplitPoint(rest, maxLen);
      PartsOfRestUnfold(rest, maxLen);
      if splitPoint <= 0 || splitPoint > |rest| {
        splitPoint := maxLen;
      }
      ghost var later := PartsOfRest(rest[splitPoint..], maxLen);
      assert messages + ([rest[..splitPoint]] + later) == messages + [rest[..splitPoint]] + later;
      messages := messages + [rest[..splitPoint]];
      rest := rest[splitPoint..];
    }
    assert rest == "" ==> messages + PartsOfRest(rest, maxLen) == messages;
  }

  lemma SplittableLimit(text: string, maxLen: int)
    requires CanSplit(text, maxLen) && text != ""
    ensures maxLen >= 0
  {
  }

  /** What remains with maxLen 0 after n turns of the loop. A turn that finds no cut changes nothing. */
  ghost function RestAfter(text: string, n: nat): string
    decreases n
  {
    if n == 0 || text == "" then text
    else
      SplitPointBounds(text, 0);
      RestAfter(text[SplitPoint(text, 0)..], n - 1)
  }

  lemma {:induction false} EndsThenCanSplit(text: string, n: nat)
    requires RestAfter(text, n) == ""
    ensures CanSplit(text, 0)
    decreases n
  {
    if text != "" {
      SplitPointBounds(text, 0);
      assert text[0..] == text;
      EndsThenCanSplit(text[SplitPoint(text, 0)..], n - 1);
    }
  }

  lemma {:induction false} CanSplitThenEnds(text: string) returns (n: nat)
    requires CanSplit(text, 0)
    ensures RestAfter(text, n) == ""
    decreases |text|
  {
    if text == "" {
      n := 0;
    } else {
      SplitPointBounds(text, 0);
      var k := CanSplitThenEnds(text[SplitPoint(text, 0)..]);
      n := k + 1;
    }
  }

  /** With maxLen 0 the loop comes to an end exactly on the texts that can be split. */
  lemma ZeroLimitEndsIff(text: string)
    ensures (exists n :: RestAfter(text, n) == "") <==> CanSplit(text, 0)
  {
    hide RestAfter, CanSplit;
    if CanSplit(text, 0) {
      var n := CanSplitThenEnds(text);
    }
    forall n | RestAfter(text, n) == "" ensures CanSplit(text, 0) {
      EndsThenCanSplit(text, n);
    }
  }

  ghost function Concat(parts: seq<string>): string {
    if parts == [] then "" else parts[0] + Concat(parts[1..])
  }

  lemma ConcatCons(part: string, parts: seq<string>)
    ensures Concat([part] + parts) == part + Concat(parts)
  {
    assert ([part] + parts)[1..] == parts;
  }

  /** Every part is short, or ends at most LOOKAHEAD past the first '>' at or after maxLen in what
      remained when it was cut. */
  ghost predicate Bounded(rest: string, maxLen: nat, parts: seq<string>)
    decreases |parts|
  {
    parts == [] ||
    (&& 1 <= |parts[0]| <= |rest|
     && IsShort(rest, maxLen, |parts[0]|)
     && Bounded(rest[|parts[0]|..], maxLen, parts[1..]))
  }

  ghost predicate IsShort(rest: string, maxLen: nat, size: nat) {
    size <= maxLen ||
    (maxLen <= |rest| && FirstClose(rest, maxLen) != -1 && size <= FirstClose(rest, maxLen) + LOOKAHEAD)
  }

  lemma BoundedCons(rest: string, maxLen: nat, p: nat, parts: seq<string>)
    requires 1 <= p <= |rest| && IsShort(rest, maxLen, p) && Bounded(rest[p..], maxLen, parts)
    ensures Bounded(rest, maxLen, [rest[..p]] + parts)
  {
    assert ([rest[..p]] + parts)[1..] == parts;
  }

  lemma {:induction false} RestIsPartitioned(text: string, maxLen: nat)
    requires CanSplit(text, maxLen)
    ensures Concat(PartsOfRest(text, maxLen)) == text
    ensures Bounded(text, maxLen, PartsOfRest(text, maxLen))
    decreases |text|
  {
    hide *;
    if |text| <= maxLen {
      ShortRestIsPartitioned(text, maxLen);
    } else {
      PartsOfRestUnfold(text, maxLen);
      CutIsShort(text, maxLen);
      var p := SplitPoint(text, maxLen);
      RestIsPartitioned(text[p..], maxLen);
      BoundedCons(text, maxLen, p, PartsOfRest(text[p..], maxLen));
      ConcatCons(text[..p], PartsOfRest(text[p..], maxLen));
      assert text == text[..p] + text[p..];
    }
  }

  lemma CutIsShort(text: string, maxLen: nat)
    requires maxLen < |text|
    ensures SplitPoint(text, maxLen) >= 0 && IsShort(text, maxLen, SplitPoint(text, maxLen))
  {
    SplitPointBounds(text, maxLen);
  }

  lemma ShortRestIsPartitioned(text: string, maxLen: nat)
    requires |text| <= maxLen && CanSplit(text, maxLen)
    ensures Concat(PartsOfRest(text, maxLen)) == text
    ensures Bounded(text, maxLen, PartsOfRest(text, maxLen))
  {
    if text != "" {
      assert [text][1..] == [] && text[|text|..] == "";
    }
  }

  /** Nothing is lost, no part is empty and no part is much too long. */
  lemma SplitIsPartition(text: string, maxLen: int)
    requires CanSplit(text, maxLen)
    ensures Concat(Parts(text, maxLen)) == text
    ensures text != "" ==> maxLen >= 0 && Bounded(text, maxLen, Parts(text, maxLen))
    ensures text == "" ==> Parts(text, maxLen) == if maxLen >= 0 then [""] else []
  {
    if maxLen >= 0 {
      RestIsPartitioned(text, maxLen);
    }
  }

  // ---------------------------------------------------------------- cuts and tags

  /** Scanning a suffix agrees with scanning the whole text once the cut is outside a tag. */
  lemma {:induction false} SuffixScanAgrees(text: string, at: nat, pos: nat)
    requires at + pos < |text| && !InsideTag(text, at - 1)
    ensures InsideTag(text[at..], pos) <==> InsideTag(text, at + pos)
  {
    if pos > 0 {
      SuffixScanAgrees(text, at, pos - 1);
    }
  }

  /** When a single cut is outside the text's tags. The first phase is always right; the second
      only if the break it settles for is not in a later tag; and the third never if the last break
      is one that the first phase had passed over. */
  ghost predicate CutIsSafe(text: string, maxLen: nat)
    requires maxLen < |text|
  {
    var close, last := FirstClose(text, maxLen), LastBreak(text, maxLen - 1);
    if LastSafeBreak(text, maxLen / 2, maxLen - 1) != -1 then true
    else if InsideTag(text, maxLen) && close != -1 then
      var after := FirstBreak(text, close + 1, close + LOOKAHEAD);
      after == -1 || !InsideTag(text[close + 1..], after - close - 1)
    else if last > maxLen / 2 then false
    else !InsideTag(text, if last != -1 then last else maxLen - 1)
  }

  lemma CutAfterTagIsSafeIff(text: string, close: nat)
    requires close < |text| && text[close] == '>'
    ensures var after := FirstBreak(text, close + 1, close + LOOKAHEAD);
            !InsideTag(text, if after != -1 then after else close) <==>
            after == -1 || !InsideTag(text[close + 1..], after - close - 1)
  {
    var after := FirstBreak(text, close + 1, close + LOOKAHEAD);
    assert !InsideTag(text, close);
    hide InsideTag, FirstBreak;
    if after != -1 {
      SuffixScanAgrees(text, close + 1, after - close - 1);
    }
  }

  /** The first phase would have taken a safe break. */
  lemma PassedOverBreakIsInTag(text: string, maxLen: nat)
    requires maxLen < |text| && LastSafeBreak(text, maxLen / 2, maxLen - 1) == -1
    ensures var last := LastBreak(text, maxLen - 1);
            last > maxLen / 2 ==> InsideTag(text, last)
  {
    hide InsideTag, LastSafeBreak, LastBreak;
    var last := LastBreak(text, maxLen - 1);
    if last > maxLen / 2 && SafeBreak(text, last) {
      LastSafeBreakIsLast(text, maxLen / 2, maxLen - 1, last);
    }
  }

  lemma {:induction false} CutOutsideTagIffSafe(text: string, maxLen: nat)
    requires maxLen < |text|
    ensures !InsideTag(text, SplitPoint(text, maxLen) - 1) <==> CutIsSafe(text, maxLen)
  {
    hide InsideTag, LastSafeBreak, LastBreak, FirstClose, FirstBreak;
    if LastSafeBreak(text, maxLen / 2, maxLen - 1) == -1 {
      PassedOverBreakIsInTag(text, maxLen);
      if FirstClose(text, maxLen) != -1 {
        CutAfterTagIsSafeIff(text, FirstClose(text, maxLen));
      }
    }
  }

  /** Every place where one part ends and the next begins is outside the tags of the whole text;
      at is where the first part begins. */
  ghost predicate CutsOutsideTags(text: string, at: nat, parts: seq<string>)
    decreases |parts|
  {
    |parts| <= 1 ||
    (!InsideTag(text, at + |parts[0]| - 1) && CutsOutsideTags(text, at + |parts[0]|, parts[1..]))
  }

  ghost predicate AllAtMost(parts: seq<string>, maxLen: nat) {
    forall part :: part in parts ==> |part| <= maxLen
  }

  /** Every cut up to the one that reaches the end of the text is safe in what remains there. */
  ghost predicate SplitsSafely(text: string, maxLen: nat)
    requires CanSplit(text, maxLen)
    decreases |text|
  {
    || |text| <= maxLen
    || (PartsOfRestUnfold(text, maxLen);
        var p := SplitPoint(text, maxLen);
        p == |text| || (CutIsSafe(text, maxLen) && SplitsSafely(text[p..], maxLen)))
  }

  /** No cut has to pass a tag. */
  ghost predicate NeverPassesTag(text: string, maxLen: nat)
    requires CanSplit(text, maxLen)
    decreases |text|
  {
    || |text| <= maxLen
    || (PartsOfRestUnfold(text, maxLen);
        !PassesTag(text, maxLen) && NeverPassesTag(text[SplitPoint(text, maxLen)..], maxLen))
  }

  lemma CutsCons(text: string, at: nat, part: string, parts: seq<string>)
    ensures CutsOutsideTags(text, at, [part] + parts) <==>
            parts == [] || (!InsideTag(text, at + |part| - 1) && CutsOutsideTags(text, at + |part|, parts))
  {
    assert ([part] + parts)[1..] == parts;
  }

  lemma SplitsSafelyUnfold(text: string, maxLen: nat)
    requires CanSplit(text, maxLen) && maxLen < |text|
    ensures var p := SplitPoint(text, maxLen);
            && 1 <= p <= |text| && CanSplit(text[p..], maxLen)
            && (SplitsSafely(text, maxLen) <==>
                p == |text| || (CutIsSafe(text, maxLen) && SplitsSafely(text[p..], maxLen)))
  {
    PartsOfRestUnfold(text, maxLen);
  }

  lemma FirstCutIff(text: string, at: nat, rest: string, maxLen: nat) returns (p: nat)
    requires at <= |text| && rest == text[at..] && !InsideTag(text, at - 1)
    requires CanSplit(rest, maxLen) && maxLen < |rest|
    ensures 1 <= p <= |rest| && p == SplitPoint(rest, maxLen) && CanSplit(rest[p..], maxLen)
    ensures CutIsSafe(rest, maxLen) <==> !InsideTag(text, at + p - 1)
    ensures CutsOutsideTags(text, at, PartsOfRest(rest, maxLen)) <==>
            p == |rest| || (CutIsSafe(rest, maxLen) && CutsOutsideTags(text, at + p, PartsOfRest(rest[p..], maxLen)))
  {
    hide *;
    PartsOfRestUnfold(rest, maxLen);
    p := SplitPoint(rest, maxLen);
    CutsCons(text, at, rest[..p], PartsOfRest(rest[p..], maxLen));
    CutOutsideTagIffSafe(rest, maxLen);
    SuffixScanAgrees(text, at, p - 1);
  }

  lemma ShortRestSplitsSafely(text: string, at: nat, rest: string, maxLen: nat)
    requires |rest| <= maxLen && CanSplit(rest, maxLen)
    ensures CutsOutsideTags(text, at, PartsOfRest(rest, maxLen)) && SplitsSafely(rest, maxLen)
  {
  }

  lemma {:induction false} RestSplitsSafelyIff(text: string, at: nat, rest: string, maxLen: nat)
    requires at <= |text| && rest == text[at..] && !InsideTag(text, at - 1) && CanSplit(rest, maxLen)
    ensures CutsOutsideTags(text, at, PartsOfRest(rest, maxLen)) <==> SplitsSafely(rest, maxLen)
    decreases |rest|
  {
    hide *;
    if |rest| <= maxLen {
      ShortRestSplitsSafely(text, at, rest, maxLen);
    } else {
      SplitsSafelyUnfold(rest, maxLen);
      var p := FirstCutIff(text, at, rest, maxLen);
      if p < |rest| && CutIsSafe(rest, maxLen) {
        assert rest[p..] == text[at + p..];
        RestSplitsSafelyIff(text, at + p, rest[p..], maxLen);
      }
    }
  }

  /** Every cut of the whole split is outside the text's tags exactly when each is safe in turn. */
  lemma SplitsSafelyIff(text: string, maxLen: nat)
    requires CanSplit(text, maxLen)
    ensures CutsOutsideTags(text, 0, Parts(text, maxLen)) <==> SplitsSafely(text, maxLen)
  {
    assert text[0..] == text;
    RestSplitsSafelyIff(text, 0, text, maxLen);
  }

  lemma AllAtMostCons(part: string, parts: seq<string>, maxLen: nat)
    ensures AllAtMost([part] + parts, maxLen) <==> |part| <= maxLen && AllAtMost(parts, maxLen)
  {
    var all := [part] + parts;
    assert part in all && forall other :: other in parts ==> other in all;
  }

  lemma {:induction false} RestFitsIff(text: string, maxLen: nat)
    requires CanSplit(text, maxLen)
    ensures AllAtMost(PartsOfRest(text, maxLen), maxLen) <==> NeverPassesTag(text, maxLen)
    decreases |text|
  {
    if |text| <= maxLen {
      ShortRestFits(text, maxLen);
    } else {
      PartsOfRestUnfold(text, maxLen);
      SplitPointBounds(text, maxLen);
      hide InsideTag, SplitPoint, PassesTag, PartsOfRest, CanSplit, AllAtMost;
      var p := SplitPoint(text, maxLen);
      AllAtMostCons(text[..p], PartsOfRest(text[p..], maxLen), maxLen);
      RestFitsIff(text[p..], maxLen);
    }
  }

  /** Every part is within maxLen exactly when no cut has to pass a tag. */
  lemma PartsFitIff(text: string, maxLen: nat)
    requires CanSplit(text, maxLen)
    ensures AllAtMost(Parts(text, maxLen), maxLen) <==> NeverPassesTag(text, maxLen)
  {
    RestFitsIff(text, maxLen);
  }

  /** A tag too long for a part, followed by another tag with a space in it. */
  function AwkwardText(maxLen: nat): string {
    "a<" + seq(maxLen, _ => 'b') + "><a x>yy"
  }

  lemma AwkwardCut(maxLen: nat)
    requires maxLen >= 1
    ensures var text := AwkwardText(maxLen);
            && |text| == maxLen + 10 && SplitPoint(text, maxLen) == maxLen + 6
            && InsideTag(text, maxLen + 5)
  {
    var text := AwkwardText(maxLen);
    assert forall k :: 2 <= k < maxLen + 2 ==> text[k] == 'b';
    assert text[0] == 'a' && text[1] == '<' && text[maxLen + 2] == '>' && text[maxLen + 3] == '<';
    assert text[maxLen + 4] == 'a' && text[maxLen + 5] == ' ';
    hide AwkwardText, InsideTag, SplitPoint;
    InsideTagMeaning(text, maxLen);
    assert OpensUpTo(text, 1, maxLen);
    InsideTagMeaning(text, maxLen + 5);
    assert OpensUpTo(text, maxLen + 3, maxLen + 5);
    assert NoneSafe(text, maxLen);
    assert CutsAfterTag(text, maxLen, maxLen + 2, maxLen + 6);
    SplitPointIsTheCut(text, maxLen, maxLen + 6);
  }

  /** Whatever the limit, some text is cut inside a tag and into a part longer than the limit: the
      break that follows the tag open at maxLen stands inside the next tag. */
  lemma CutCanBreakTag(maxLen: nat)
    requires maxLen >= 1
    ensures var parts := Parts(AwkwardText(maxLen), maxLen);
            !CutsOutsideTags(AwkwardText(maxLen), 0, parts) && !AllAtMost(parts, maxLen)
  {
    var text := AwkwardText(maxLen);
    AwkwardCut(maxLen);
    PartsOfRestUnfold(text, maxLen);
    hide AwkwardText, InsideTag, SplitPoint;
    var p := SplitPoint(text, maxLen);
    CutsCons(text, 0, text[..p], PartsOfRest(text[p..], maxLen));
    AllAtMostCons(text[..p], PartsOfRest(text[p..], maxLen), maxLen);
  }

  /** The width of the stretch below maxLen that the first phase searches, but at least one. */
  function SearchWidth(maxLen: nat): nat {
    var width := maxLen - 1 - maxLen / 2;
    if width < 1 then 1 else width
  }

  /** Every run of width bytes has a break outside any tag. */
  ghost predicate Breakable(text: string, width: nat) {
    forall a, b :: 0 <= a && b == a + width && b <= |text| ==> HasSafeBreak(text, a, b)
  }

  ghost predicate HasSafeBreak(text: string, from: int, end: int) {
    exists i :: from <= i < end && SafeBreak(text, i)
  }

  lemma BreakableCut(text: string, at: nat, rest: string, maxLen: nat)
    requires maxLen >= 3 && Breakable(text, SearchWidth(maxLen))
    requires at <= |text| && rest == text[at..] && maxLen < |rest| && !InsideTag(text, at - 1)
    ensures var p := SplitPoint(rest, maxLen);
            1 <= p <= maxLen && !InsideTag(text, at + p - 1)
  {
    var from := at + maxLen / 2 + 1;
    assert HasSafeBreak(text, from, from + SearchWidth(maxLen));
    var i :| from <= i < from + SearchWidth(maxLen) && SafeBreak(text, i);
    SuffixScanAgrees(text, at, i - at);
    hide InsideTag, LastSafeBreak;
    LastSafeBreakIsLast(rest, maxLen / 2, maxLen - 1, i - at);
    SuffixScanAgrees(text, at, SplitPoint(rest, maxLen) - 1);
  }

  /** With maxLen 1 or 2 the first phase searches nothing; then every byte must be a safe break. */
  lemma BreakableCutTiny(text: string, at: nat, rest: string, maxLen: nat)
    requires 1 <= maxLen <= 2 && Breakable(text, SearchWidth(maxLen))
    requires at <= |text| && rest == text[at..] && maxLen < |rest| && !InsideTag(text, at - 1)
    ensures var p := SplitPoint(rest, maxLen);
            1 <= p <= maxLen && !InsideTag(text, at + p - 1)
  {
    assert HasSafeBreak(text, at + maxLen, at + maxLen + 1);
    assert text[at + maxLen] == rest[maxLen];
    SuffixScanAgrees(text, at, maxLen);
    SplitPointBounds(rest, maxLen);
    var p := SplitPoint(rest, maxLen);
    assert HasSafeBreak(text, at + p - 1, at + p);
  }

  lemma {:induction false} BreakableRest(text: string, at: nat, rest: string, maxLen: nat)
    requires maxLen >= 1 && Breakable(text, SearchWidth(maxLen)) && CanSplit(rest, maxLen)
    requires at <= |text| && rest == text[at..] && !InsideTag(text, at - 1)
    ensures CutsOutsideTags(text, at, PartsOfRest(rest, maxLen)) && AllAtMost(PartsOfRest(rest, maxLen), maxLen)
    decreases |rest|
  {
    hide *;
    if |rest| <= maxLen {
      ShortRestSplitsSafely(text, at, rest, maxLen);
      ShortRestFits(rest, maxLen);
    } else {
      if maxLen >= 3 {
        BreakableCut(text, at, rest, maxLen);
      } else {
        BreakableCutTiny(text, at, rest, maxLen);
      }
      PartsOfRestUnfold(rest, maxLen);
      var p := SplitPoint(rest, maxLen);
      assert rest[p..] == text[at + p..];
      BreakableRest(text, at + p, rest[p..], maxLen);
      CutsCons(text, at, rest[..p], PartsOfRest(rest[p..], maxLen));
      AllAtMostCons(rest[..p], PartsOfRest(rest[p..], maxLen), maxLen);
    }
  }

  lemma ShortRestFits(rest: string, maxLen: nat)
    requires |rest| <= maxLen && CanSplit(rest, maxLen)
    ensures AllAtMost(PartsOfRest(rest, maxLen), maxLen)
  {
  }

  /** A text with a break outside its tags in every stretch of the searched width is cut only
      outside its tags, into parts of at most maxLen bytes. */
  lemma BreakableTextIsCutSafely(text: string, maxLen: nat)
    requires maxLen >= 1 && Breakable(text, SearchWidth(maxLen))
    ensures CutsOutsideTags(text, 0, Parts(text, maxLen))
    ensures AllAtMost(Parts(text, maxLen), maxLen)
  {
    assert text[0..] == text;
    BreakableRest(text, 0, text, maxLen);
  }

  // ---------------------------------------------------------------- balanced parts

  datatype TagState = Outside | Inside | Broken

  function ScanTags(text: string, from: TagState): TagState {
    if text == "" then from
    else
      var before, c := ScanTags(text[..|text| - 1], from), text[|text| - 1];
      if before == Broken then Broken
      else if c == '<' then (if before == Outside then Inside else Broken)
      else if c == '>' then (if before == Inside then Outside else Broken)
      else before
  }

  /** Angle brackets alternate, starting with '<' and ending with '>'. */
  predicate Balanced(text: string) {
    ScanTags(text, Outside) == Outside
  }

  lemma {:induction false} ScanTagsConcat(a: string, b: string, from: TagState)
    ensures ScanTags(a + b, from) == ScanTags(b, ScanTags(a, from))
  {
    if b == "" {
      assert a + b == a;
    } else {
      ScanTagsConcat(a, b[..|b| - 1], from);
      assert (a + b)[..|a + b| - 1] == a + b[..|b| - 1];
    }
  }

  lemma {:induction false} BrokenStaysBroken(text: string)
    ensures ScanTags(text, Broken) == Broken
  {
    if text != "" {
      BrokenStaysBroken(text[..|text| - 1]);
    }
  }

  lemma {:induction false} ScanTagsIsInsideTag(text: string, p: nat)
    requires p <= |text| && ScanTags(text[..p], Outside) != Broken
    ensures ScanTags(text[..p], Outside) == Inside <==> InsideTag(text, p - 1)
  {
    if p > 0 {
      assert text[..p][..p - 1] == text[..p - 1];
      ScanTagsIsInsideTag(text, p - 1);
    }
  }

  ghost predicate AllBalanced(parts: seq<string>) {
    forall part :: part in parts ==> Balanced(part)
  }

  /** A part that begins outside a tag is balanced exactly when it ends outside one. */
  lemma BalancedIffEndsOutside(text: string, at: nat, cut: nat)
    requires Balanced(text) && at <= cut <= |text| && ScanTags(text[..at], Outside) == Outside
    ensures Balanced(text[at..cut]) <==> ScanTags(text[..cut], Outside) == Outside
    ensures Balanced(text[at..cut]) <==> !InsideTag(text, cut - 1)
  {
    assert text[..cut] == text[..at] + text[at..cut] && text == text[..cut] + text[cut..];
    ScanTagsConcat(text[..at], text[at..cut], Outside);
    ScanTagsConcat(text[..cut], text[cut..], Outside);
    BrokenStaysBroken(text[cut..]);
    ScanTagsIsInsideTag(text, cut);
  }

  lemma {:induction false} BalancedPartsFrom(text: string, at: nat, parts: seq<string>)
    requires Balanced(text) && at <= |text| && text[at..] == Concat(parts)
    requires ScanTags(text[..at], Outside) == Outside
    ensures AllBalanced(parts) <==> CutsOutsideTags(text, at, parts)
    decreases |parts|
  {
    if parts != [] {
      var part, rest, cut := parts[0], parts[1..], at + |parts[0]|;
      assert parts == [part] + rest;
      assert text[at..] == part + Concat(rest);
      assert text[at..cut] == part && text[cut..] == Concat(rest);
      BalancedIffEndsOutside(text, at, cut);
      if rest == [] {
        assert text[..cut] == text;
      } else if Balanced(part) {
        BalancedPartsFrom(text, cut, rest);
      }
    }
  }

  /** The parts of a balanced text are all balanced exactly when every cut is outside a tag. */
  lemma BalancedPartsIffCutsOutside(text: string, maxLen: nat)
    requires CanSplit(text, maxLen) && Balanced(text)
    ensures AllBalanced(Parts(text, maxLen)) <==> CutsOutsideTags(text, 0, Parts(text, maxLen))
  {
    SplitIsPartition(text, maxLen);
    assert text[0..] == text && text[..0] == "";
    BalancedPartsFrom(text, 0, Parts(text, maxLen));
  }

  /** So they are exactly when each cut is safe in turn. */
  lemma BalancedPartsIffSplitsSafely(text: string, maxLen: nat)
    requires CanSplit(text, maxLen) && Balanced(text)
    ensures AllBalanced(Parts(text, maxLen)) <==> SplitsSafely(text, maxLen)
  {
    hide *;
    BalancedPartsIffCutsOutside(text, maxLen);
    SplitsSafelyIff(text, maxLen);
  }

  ghost function Count(text: string, c: char): nat {
    if text == "" then 0 else Count(text[..|text| - 1], c) + if text[|text| - 1] == c then 1 else 0
  }

  lemma {:induction false} ScanTagsCounts(text: string)
    requires ScanTags(text, Outside) != Broken
    ensures Count(text, '<') == Count(text, '>') + if ScanTags(text, Outside) == Inside then 1 else 0
  {
    if text != "" {
      ScanTagsCounts(text[..|text| - 1]);
    }
  }

  /** The repository's own test of a split: every part has as many '<' as '>'. */
  lemma BreakableBalancedTextSplitsBalanced(text: string, maxLen: nat, i: nat)
    requires maxLen >= 1 && Breakable(text, SearchWidth(maxLen)) && Balanced(text)
    requires i < |Parts(text, maxLen)|
    ensures Balanced(Parts(text, maxLen)[i])
    ensures Count(Parts(text, maxLen)[i], '<') == Count(Parts(text, maxLen)[i], '>')
  {
    BreakableTextIsCutSafely(text, maxLen);
    BalancedPartsIffCutsOutside(text, maxLen);
    assert Parts(text, maxLen)[i] in Parts(text, maxLen);
    ScanTagsCounts(Parts(text, maxLen)[i]);
  }
}
