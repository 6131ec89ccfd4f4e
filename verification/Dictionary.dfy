/** The sorted word index of a dictionary, and chunked random access to its data. */
module Dictionary {
  import opened Wrappers
  import opened Bytes
  import opened Utf16
  import Lex

  // ----- The word index

  type Comparison = (Text, Text) -> int

  ghost predicate TotalPreorder(cmp: Comparison) {
    && (forall a, b :: cmp(a, b) < 0 <==> cmp(b, a) > 0)
    && (forall a, b, c :: cmp(a, b) <= 0 && cmp(b, c) <= 0 ==> cmp(a, c) <= 0)
  }

  /** The comparison of the index, for any way of lowering the case of a word. */
  function StrCmp(lower: Text -> Text): Comparison {
    (a, b) => Lex.Compare(Code, lower(a), lower(b))
  }

  /** Words are compared by their lowered units: at the first that differs, and else by length; so they are equal if and only
      if they are lowered to the same word. */
  lemma StrCmpIs(lower: Text -> Text, a: Text, b: Text, k: nat)
    requires Lex.FirstDifference(lower(a), lower(b), k)
    ensures var (x, y, r) := (lower(a), lower(b), StrCmp(lower)(a, b));
            && (r == 0 <==> x == y)
            && (r < 0 <==> k < |y| && (k == |x| || x[k] < y[k]))
  {
    hide Lex.Compare;
    Lex.ComparedThere(Code, lower(a), lower(b), k);
    Lex.ZeroIffEqual(Code, lower(a), lower(b));
  }

  lemma StrCmpIsTotalPreorder(lower: Text -> Text)
    ensures TotalPreorder(StrCmp(lower))
  {
    hide Lex.Compare;
    var cmp := StrCmp(lower);
    forall a, b
      ensures cmp(a, b) < 0 <==> cmp(b, a) > 0
    {
      Lex.Antisymmetric(Code, lower(a), lower(b));
    }
    forall a, b, c | cmp(a, b) <= 0 && cmp(b, c) <= 0
      ensures cmp(a, c) <= 0
    {
      Lex.Transitive(Code, lower(a), lower(b), lower(c));
    }
  }

  predicate Sorted(words: seq<Text>, cmp: Comparison) {
    forall i, j :: 0 <= i < j < |words| ==> cmp(words[i], words[j]) <= 0
  }

  // ----- Binary search

  /** What one call of the search does: it throws on a missing word, returns an index or null, or calls itself. */
  datatype Turn = Throws | Found(i: nat) | Absent | Again(start: int, end: int)

  predicate IsIndex(words: seq<Text>, i: int) {
    0 <= i < |words|
  }

  function BisectTurn(words: seq<Text>, cmp: Comparison, query: Text, start: int, end: int): Turn {
    if end - start == 1 then
      if !IsIndex(words, start) then Throws
      else if cmp(query, words[start]) == 0 then Found(start)
      else if !IsIndex(words, end) then Throws
      else if cmp(query, words[end]) == 0 then Found(end)
      else Absent
    else
      var mid := start + (end - start) / 2;
      if !IsIndex(words, mid) then Throws
      else
        var c := cmp(query, words[mid]);
        if c < 0 then Again(start, mid)
        else if c > 0 then Again(mid, end)
        else Found(mid)
  }

  /** Where `n` calls lead. */
  function Turns(words: seq<Text>, cmp: Comparison, query: Text, start: int, end: int, n: nat): Turn
    decreases n
  {
    if n == 0 then Again(start, end) else
    match BisectTurn(words, cmp, query, start, end)
    case Again(s, e) => Turns(words, cmp, query, s, e, n - 1)
    case turn => turn
  }

  ghost predicate Ends(words: seq<Text>, cmp: Comparison, query: Text, start: int, end: int) {
    exists n: nat :: !Turns(words, cmp, query, start, end, n).Again?
  }

  /** The whole recursion: both ends stay different, and come closer with every call. */
  function Bisect(words: seq<Text>, cmp: Comparison, query: Text, start: int, end: int): Result<Option<nat>>
    requires start < end || !BisectTurn(words, cmp, query, start, end).Again?
    decreases end - start
  {
    match BisectTurn(words, cmp, query, start, end)
    case Throws => Thrown
    case Found(i) => Success(Some(i))
    case Absent => Success(None)
    case Again(s, e) => Bisect(words, cmp, query, s, e)
  }

  /** The call that `lookup` makes returns or throws. */
  predicate SearchEnds(words: seq<Text>, cmp: Comparison, query: Text) {
    |words| == 1 ==> cmp(query, words[0]) == 0
  }

  lemma {:induction false} DistantTurnsEnd(words: seq<Text>, cmp: Comparison, query: Text, start: int, end: int)
    requires start < end
    ensures !Turns(words, cmp, query, start, end, end - start).Again?
    decreases end - start
  {
    var turn := BisectTurn(words, cmp, query, start, end);
    if turn.Again? {
      DistantTurnsEnd(words, cmp, query, turn.start, turn.end);
      MoreTurns(words, cmp, query, turn.start, turn.end, turn.end - turn.start, end - start - 1);
    }
  }

  lemma {:induction false} MoreTurns(words: seq<Text>, cmp: Comparison, query: Text, start: int, end: int, n: nat, m: nat)
    requires n <= m && !Turns(words, cmp, query, start, end, n).Again?
    ensures Turns(words, cmp, query, start, end, m) == Turns(words, cmp, query, start, end, n)
    decreases n
  {
    hide BisectTurn;
    var turn := BisectTurn(words, cmp, query, start, end);
    if turn.Again? {
      MoreTurns(words, cmp, query, turn.start, turn.end, n - 1, m - 1);
    }
  }

  /** On a single word that is not the query, every call repeats itself. */
  lemma {:induction false} SingleWordRepeats(words: seq<Text>, cmp: Comparison, query: Text, n: nat)
    requires |words| == 1 && cmp(query, words[0]) != 0
    ensures BisectTurn(words, cmp, query, 0, 0) == Again(0, 0)
    ensures Turns(words, cmp, query, 0, 0, n) == Again(0, 0)
  {
    if n > 0 {
      SingleWordRepeats(words, cmp, query, n - 1);
    }
  }

  /** Searching all words ends, sorted or not, unless there is a single word and it is not the query; on no words it ends
      by throwing. */
  lemma SearchEndsIff(words: seq<Text>, cmp: Comparison, query: Text)
    ensures Ends(words, cmp, query, 0, |words| - 1) <==> SearchEnds(words, cmp, query)
    ensures |words| == 0 ==> BisectTurn(words, cmp, query, 0, |words| - 1) == Throws
  {
    hide BisectTurn;
    if |words| >= 2 {
      DistantTurnsEnd(words, cmp, query, 0, |words| - 1);
    } else if |words| == 1 && cmp(query, words[0]) != 0 {
      forall n: nat
        ensures Turns(words, cmp, query, 0, 0, n).Again?
      {
        SingleWordRepeats(words, cmp, query, n);
      }
    } else {
      ShortSearch(words, cmp, query);
      assert !Turns(words, cmp, query, 0, |words| - 1, 1).Again?;
    }
  }

  lemma ShortSearch(words: seq<Text>, cmp: Comparison, query: Text)
    requires |words| <= 1 && SearchEnds(words, cmp, query)
    ensures BisectTurn(words, cmp, query, 0, |words| - 1) == if words == [] then Throws else Found(0)
  {
  }

  lemma StrictThenWeak(cmp: Comparison, a: Text, b: Text, c: Text)
    requires TotalPreorder(cmp) && cmp(a, b) < 0 && cmp(b, c) <= 0
    ensures cmp(a, c) < 0 && cmp(c, a) > 0
  {
  }

  lemma WeakThenStrict(cmp: Comparison, a: Text, b: Text, c: Text)
    requires TotalPreorder(cmp) && cmp(a, b) <= 0 && cmp(c, b) > 0
    ensures cmp(a, c) < 0 && cmp(c, a) > 0
  {
  }

  /** The word at an index compares equal to the query. */
  predicate IsMatch(words: seq<Text>, cmp: Comparison, query: Text, i: int) {
    IsIndex(words, i) && cmp(query, words[i]) == 0
  }

  lemma NoneAfter(words: seq<Text>, cmp: Comparison, query: Text, mid: nat)
    requires TotalPreorder(cmp) && Sorted(words, cmp) && mid < |words| && cmp(query, words[mid]) < 0
    ensures forall i :: mid <= i ==> !IsMatch(words, cmp, query, i)
  {
    hide TotalPreorder;
    forall i | mid < i < |words|
      ensures cmp(query, words[i]) != 0
    {
      StrictThenWeak(cmp, query, words[mid], words[i]);
    }
  }

  lemma NoneBefore(words: seq<Text>, cmp: Comparison, query: Text, mid: nat)
    requires TotalPreorder(cmp) && Sorted(words, cmp) && mid < |words| && cmp(query, words[mid]) > 0
    ensures forall i :: i <= mid ==> !IsMatch(words, cmp, query, i)
  {
    hide TotalPreorder;
    forall i | 0 <= i < mid
      ensures cmp(query, words[i]) != 0
    {
      WeakThenStrict(cmp, words[i], words[mid], query);
    }
  }

  lemma {:induction false} DistantBisectFinds(words: seq<Text>, cmp: Comparison, query: Text, start: nat, end: nat)
    requires start < end < |words| && TotalPreorder(cmp) && Sorted(words, cmp)
    ensures var found := Bisect(words, cmp, query, start, end);
            && found.Success?
            && if found.value.Some? then start <= found.value.value <= end && IsMatch(words, cmp, query, found.value.value)
               else forall i :: start <= i <= end ==> !IsMatch(words, cmp, query, i)
    decreases end - start
  {
    hide TotalPreorder, Sorted;
    if end - start > 1 {
      var mid := start + (end - start) / 2;
      var c := cmp(query, words[mid]);
      if c < 0 {
        DistantBisectFinds(words, cmp, query, start, mid);
        NoneAfter(words, cmp, query, mid);
      } else if c > 0 {
        DistantBisectFinds(words, cmp, query, mid, end);
        NoneBefore(words, cmp, query, mid);
      }
    }
  }

  /** On sorted words, whenever the search ends: it throws exactly when there are none, finds a match, and returns null
      exactly when there is none. */
  lemma BisectFinds(words: seq<Text>, cmp: Comparison, query: Text)
    requires SearchEnds(words, cmp, query) && TotalPreorder(cmp) && Sorted(words, cmp)
    ensures |words| - 1 > 0 || !BisectTurn(words, cmp, query, 0, |words| - 1).Again?
    ensures var found := Bisect(words, cmp, query, 0, |words| - 1);
            && (found.Thrown? <==> words == [])
            && (found.Success? ==>
                  if found.value.Some? then IsMatch(words, cmp, query, found.value.value)
                  else forall i :: !IsMatch(words, cmp, query, i))
  {
    hide TotalPreorder, Sorted, BisectTurn;
    if |words| >= 2 {
      DistantBisectFinds(words, cmp, query, 0, |words| - 1);
    } else {
      ShortSearch(words, cmp, query);
    }
  }

  // ----- Adjacent matches

  /** The word at an index, unless there is none or it is empty, compares equal to the query. */
  predicate Equals(words: seq<Text>, cmp: Comparison, query: Text, i: int) {
    IsMatch(words, cmp, query, i) && words[i] != []
  }

  function RunStart(words: seq<Text>, cmp: Comparison, query: Text, j: nat): nat {
    if j > 0 && Equals(words, cmp, query, j - 1) then RunStart(words, cmp, query, j - 1) else j
  }

  function RunEnd(words: seq<Text>, cmp: Comparison, query: Text, k: nat): nat
    decreases |words| - k
  {
    if Equals(words, cmp, query, k + 1) then RunEnd(words, cmp, query, k + 1) else k
  }

  function Upto(j: nat, k: nat): (indices: seq<int>)
    ensures |indices| == if j > k then 0 else k + 1 - j
    ensures forall m :: 0 <= m < |indices| ==> indices[m] == j + m
  {
    if j > k then [] else seq(k + 1 - j, m requires 0 <= m < k + 1 - j => j + m)
  }

  lemma UptoHolds(j: nat, k: nat, i: int)
    ensures i in Upto(j, k) <==> j <= i <= k
  {
    if j <= i <= k {
      assert Upto(j, k)[i - j] == i;
    }
  }

  /** The run around an index that was found. */
  function Adjacent(words: seq<Text>, cmp: Comparison, query: Text, found: Option<nat>): seq<int> {
    if found == None then [] else Upto(RunStart(words, cmp, query, found.value), RunEnd(words, cmp, query, found.value))
  }

  method CheckAdjacent(words: seq<Text>, cmp: Comparison, query: Text, found: Option<nat>) returns (indices: seq<int>)
    requires found.Some? ==> found.value < |words|
    ensures indices == Adjacent(words, cmp, query, found)
  {
    if found == None {
      return [];
    }
    var i := found.value;
    var j := i;
    while Equals(words, cmp, query, j - 1)
      invariant 0 <= j <= i && RunStart(words, cmp, query, j) == RunStart(words, cmp, query, i)
      decreases j
    {
      j := j - 1;
    }
    var k := i;
    while Equals(words, cmp, query, k + 1)
      invariant i <= k < |words| && RunEnd(words, cmp, query, k) == RunEnd(words, cmp, query, i)
      decreases |words| - k
    {
      k := k + 1;
    }
    indices := if j == k then [i] else seq(k + 1 - j, m => j + m);
  }

  /** The maximal run of matches around an index that are not empty. */
  lemma {:induction false} RunStartIs(words: seq<Text>, cmp: Comparison, query: Text, j: nat)
    ensures var start := RunStart(words, cmp, query, j);
            && start <= j
            && (forall i :: start <= i < j ==> Equals(words, cmp, query, i))
            && !Equals(words, cmp, query, start - 1)
  {
    hide Equals;
    assert !Equals(words, cmp, query, -1) by {
      NoSuchIndex(words, cmp, query);
    }
    if j > 0 && Equals(words, cmp, query, j - 1) {
      RunStartIs(words, cmp, query, j - 1);
    }
  }

  lemma NoSuchIndex(words: seq<Text>, cmp: Comparison, query: Text)
    ensures !Equals(words, cmp, query, -1)
  {
  }

  lemma {:induction false} RunEndIs(words: seq<Text>, cmp: Comparison, query: Text, k: nat)
    ensures var end := RunEnd(words, cmp, query, k);
            && k <= end
            && (forall i :: k < i <= end ==> Equals(words, cmp, query, i))
            && !Equals(words, cmp, query, end + 1)
    decreases |words| - k
  {
    if Equals(words, cmp, query, k + 1) {
      RunEndIs(words, cmp, query, k + 1);
    }
  }

  /** What `lookup` returns, when its search ends. */
  function LookedUp(words: seq<Text>, cmp: Comparison, query: Text): Result<seq<int>>
    requires SearchEnds(words, cmp, query)
  {
    var found :- SearchAll(words, cmp, query);
    Success(Adjacent(words, cmp, query, found))
  }

  function SearchAll(words: seq<Text>, cmp: Comparison, query: Text): Result<Option<nat>>
    requires SearchEnds(words, cmp, query)
  {
    Bisect(words, cmp, query, 0, |words| - 1)
  }

  method Lookup(words: seq<Text>, cmp: Comparison, query: Text) returns (r: Result<seq<int>>)
    requires SearchEnds(words, cmp, query)
    ensures r == LookedUp(words, cmp, query)
  {
    var found :- SearchAll(words, cmp, query);
    FoundIsIndex(words, cmp, query, 0, |words| - 1);
    var indices := CheckAdjacent(words, cmp, query, found);
    r := Success(indices);
  }

  lemma {:induction false} FoundIsIndex(words: seq<Text>, cmp: Comparison, query: Text, start: int, end: int)
    requires start < end || !BisectTurn(words, cmp, query, start, end).Again?
    ensures var found := Bisect(words, cmp, query, start, end);
            found.Success? && found.value.Some? ==> found.value.value < |words|
    decreases end - start
  {
    var turn := BisectTurn(words, cmp, query, start, end);
    if turn.Again? {
      FoundIsIndex(words, cmp, query, turn.start, turn.end);
    }
  }

  /** Words between two matches are matches. */
  lemma BetweenMatches(words: seq<Text>, cmp: Comparison, query: Text, i: int, m: int, j: int)
    requires TotalPreorder(cmp) && Sorted(words, cmp) && i <= m <= j
    requires IsMatch(words, cmp, query, i) && IsMatch(words, cmp, query, j)
    ensures IsMatch(words, cmp, query, m)
  {
    assert i < m ==> cmp(words[i], words[m]) <= 0;
    assert m < j ==> cmp(words[m], words[j]) <= 0;
  }

  /** No empty word matches, unless it is the one that was found. */
  ghost predicate OnlyFoundIsEmpty(words: seq<Text>, cmp: Comparison, query: Text, found: int) {
    forall i :: IsMatch(words, cmp, query, i) && words[i] == [] ==> i == found
  }

  lemma MatchIsInRun(words: seq<Text>, cmp: Comparison, query: Text, found: nat, i: int)
    requires TotalPreorder(cmp) && Sorted(words, cmp)
    requires IsMatch(words, cmp, query, found) && IsMatch(words, cmp, query, i)
    requires OnlyFoundIsEmpty(words, cmp, query, found)
    ensures RunStart(words, cmp, query, found) <= i <= RunEnd(words, cmp, query, found)
  {
    hide TotalPreorder, Sorted, RunStart, RunEnd;
    var j, k := RunStart(words, cmp, query, found), RunEnd(words, cmp, query, found);
    RunStartIs(words, cmp, query, found);
    RunEndIs(words, cmp, query, found);
    if i < j {
      BetweenMatches(words, cmp, query, i, j - 1, found);
    } else if i > k {
      BetweenMatches(words, cmp, query, found, k + 1, i);
    }
  }

  lemma RunIsMatches(words: seq<Text>, cmp: Comparison, query: Text, found: nat, i: int)
    requires IsMatch(words, cmp, query, found)
    requires RunStart(words, cmp, query, found) <= i <= RunEnd(words, cmp, query, found)
    ensures IsMatch(words, cmp, query, i) && (words[i] == [] ==> i == found)
  {
    RunStartIs(words, cmp, query, found);
    RunEndIs(words, cmp, query, found);
    assert i != found ==> Equals(words, cmp, query, i);
  }

  predicate Ascending(indices: seq<int>) {
    forall a, b :: 0 <= a < b < |indices| ==> indices[a] < indices[b]
  }

  /** On sorted words, whenever the search ends, lookup returns matches only, in ascending order, and none exactly when
      there are none; it returns all of them if and only if no empty word matches besides the one the search found. */
  lemma LookupIsComplete(words: seq<Text>, cmp: Comparison, query: Text)
    requires SearchEnds(words, cmp, query) && TotalPreorder(cmp) && Sorted(words, cmp)
    ensures var r := LookedUp(words, cmp, query);
            && (r.Thrown? <==> words == [])
            && (r.Success? ==>
                  && Ascending(r.value)
                  && (forall i :: i in r.value ==> IsMatch(words, cmp, query, i))
                  && (r.value == [] <==> forall i :: !IsMatch(words, cmp, query, i))
                  && ((forall i :: IsMatch(words, cmp, query, i) ==> i in r.value) <==>
                      forall i :: IsMatch(words, cmp, query, i) && words[i] == [] ==> SearchAll(words, cmp, query) == Success(Some(i))))
  {
    hide TotalPreorder, Sorted, IsMatch, RunStart, RunEnd, Bisect;
    BisectFinds(words, cmp, query);
    var found := SearchAll(words, cmp, query);
    if found.Success? && found.value.Some? {
      var i0 := found.value.value;
      RunIsComplete(words, cmp, query, i0);
    }
  }

  lemma RunIsComplete(words: seq<Text>, cmp: Comparison, query: Text, found: nat)
    requires TotalPreorder(cmp) && Sorted(words, cmp) && IsMatch(words, cmp, query, found)
    ensures var indices := Adjacent(words, cmp, query, Some(found));
            && Ascending(indices) && found in indices
            && (forall i :: i in indices ==> IsMatch(words, cmp, query, i))
            && ((forall i :: IsMatch(words, cmp, query, i) ==> i in indices) <==> OnlyFoundIsEmpty(words, cmp, query, found))
  {
    hide TotalPreorder, Sorted, RunStart, RunEnd, Upto;
    var indices := Adjacent(words, cmp, query, Some(found));
    var j, k := RunStart(words, cmp, query, found), RunEnd(words, cmp, query, found);
    RunStartIs(words, cmp, query, found);
    RunEndIs(words, cmp, query, found);
    UptoHolds(j, k, found);
    forall i | i in indices
      ensures IsMatch(words, cmp, query, i) && (words[i] == [] ==> i == found)
    {
      UptoHolds(j, k, i);
      RunIsMatches(words, cmp, query, found, i);
    }
    if OnlyFoundIsEmpty(words, cmp, query, found) {
      forall i | IsMatch(words, cmp, query, i)
        ensures i in indices
      {
        MatchIsInRun(words, cmp, query, found, i);
        UptoHolds(j, k, i);
      }
    }
  }

  /** Of two empty words that match, only the first is returned. */
  lemma EmptyWordsAreMissed(lower: Text -> Text)
    requires lower([]) == []
    ensures var words: seq<Text> := [[], []];
            && Sorted(words, StrCmp(lower)) && IsMatch(words, StrCmp(lower), [], 1)
            && LookedUp(words, StrCmp(lower), []) == Success([0])
  {
    var words: seq<Text> := [[], []];
    assert BisectTurn(words, StrCmp(lower), [], 0, 1) == Found(0);
    assert Upto(0, 0) == [0];
  }

  // ----- Chunked random access

  /** The chunk table: where each compressed chunk starts, and how long it is. */
  datatype Chunk = Chunk(offset: nat, size: nat)

  datatype DictZip = DictZip(chlen: nat, chunks: seq<Chunk>, compressed: seq<Byte>)

  type Inflate = seq<Byte> -> seq<Byte>

  /** The file holds the packed pieces one after the other; every piece but the last has the chunk length. */
  ghost predicate Packs(d: DictZip, inflate: Inflate, packed: seq<seq<Byte>>, pieces: seq<seq<Byte>>) {
    && d.chlen > 0
    && |d.chunks| == |packed| == |pieces|
    && d.compressed == Concat(packed)
    && (forall i :: 0 <= i < |packed| ==> inflate(packed[i]) == pieces[i])
    && (forall i :: 0 <= i < |packed| ==> d.chunks[i] == Chunk(|Concat(packed[..i])|, |packed[i]|))
    && (forall i :: 0 <= i < |pieces| - 1 ==> |pieces[i]| == d.chlen)
    && (forall i :: 0 <= i < |pieces| ==> |pieces[i]| <= d.chlen)
  }

  lemma {:induction false} PrefixLength(pieces: seq<seq<Byte>>, chlen: nat, k: nat)
    requires k <= |pieces| && forall i :: 0 <= i < k ==> |pieces[i]| == chlen
    ensures |Concat(pieces[..k])| == k * chlen
    decreases k
  {
    if k > 0 {
      PrefixLength(pieces, chlen, k - 1);
      ConcatNext(pieces, k - 1);
      assert (k - 1) * chlen + chlen == k * chlen;
    } else {
      assert pieces[..0] == [];
    }
  }

  /** How far the first `k` chunks reach. */
  lemma Reach(d: DictZip, inflate: Inflate, packed: seq<seq<Byte>>, pieces: seq<seq<Byte>>, k: nat)
    requires Packs(d, inflate, packed, pieces) && k <= |pieces|
    ensures k < |pieces| ==> |Concat(pieces[..k])| == k * d.chlen
    ensures |Concat(pieces[..k])| <= k * d.chlen
    ensures pieces != [] && k == |pieces| ==> |Concat(pieces[..k])| == (k - 1) * d.chlen + |pieces[k - 1]|
  {
    hide Concat;
    if k < |pieces| {
      PrefixLength(pieces, d.chlen, k);
    } else if k > 0 {
      PrefixLength(pieces, d.chlen, k - 1);
      ConcatNext(pieces, k - 1);
    } else {
      PrefixLength(pieces, d.chlen, 0);
    }
  }

  function Slice(s: seq<Byte>, start: nat, end: nat): seq<Byte>
    requires start <= end
  {
    s[Min(start, |s|)..Min(end, |s|)]
  }

  /** Inflates every chunk the range touches, the one its end falls into included. */
  method ReadChunks(d: DictZip, inflate: Inflate, startIndex: nat, endIndex: nat,
                    ghost packed: seq<seq<Byte>>, ghost pieces: seq<seq<Byte>>) returns (arr: seq<Byte>)
    requires Packs(d, inflate, packed, pieces) && startIndex <= endIndex < |d.chunks|
    ensures arr == Concat(pieces[startIndex..endIndex + 1])
  {
    hide Concat, Packs;
    PackedRange(d, inflate, packed, pieces, startIndex, endIndex);
    var buf := Slice(d.compressed, d.chunks[startIndex].offset, d.chunks[endIndex].offset + d.chunks[endIndex].size);
    arr := [];
    var pos := 0;
    PackedChunk(d, inflate, packed, pieces, startIndex);
    NoRuns(packed, startIndex);
    NoRuns(pieces, startIndex);
    for i := startIndex to endIndex + 1
      invariant pos == |Concat(packed[startIndex..i])| && pos <= |buf|
      invariant buf == Concat(packed[startIndex..i]) + Concat(packed[i..endIndex + 1])
      invariant arr == Concat(pieces[startIndex..i])
    {
      PackedChunk(d, inflate, packed, pieces, i);
      RunNext(packed, startIndex, i, endIndex + 1);
      RunNext(pieces, startIndex, i, endIndex + 1);
      NextRun(buf, Concat(packed[startIndex..i]), packed[i], Concat(packed[i + 1..endIndex + 1]));
      var data := buf[pos..pos + d.chunks[i].size];
      arr := arr + inflate(data);
      pos := pos + d.chunks[i].size;
    }
  }

  lemma PackedChunk(d: DictZip, inflate: Inflate, packed: seq<seq<Byte>>, pieces: seq<seq<Byte>>, i: nat)
    requires Packs(d, inflate, packed, pieces) && i < |d.chunks|
    ensures |d.chunks| == |packed| == |pieces|
    ensures d.chunks[i].size == |packed[i]| && inflate(packed[i]) == pieces[i]
  {
  }

  lemma NextRun(all: seq<Byte>, before: seq<Byte>, run: seq<Byte>, after: seq<Byte>)
    requires all == before + (run + after)
    ensures |before| + |run| <= |all| && all[|before|..|before| + |run|] == run && all == (before + run) + after
  {
  }

  lemma NoRuns(runs: seq<seq<Byte>>, k: nat)
    requires k <= |runs|
    ensures Concat(runs[k..k]) == []
  {
  }

  lemma RunNext(runs: seq<seq<Byte>>, start: nat, i: nat, end: nat)
    requires start <= i < end <= |runs|
    ensures Concat(runs[start..i + 1]) == Concat(runs[start..i]) + runs[i]
    ensures Concat(runs[i..end]) == runs[i] + Concat(runs[i + 1..end])
  {
    hide Concat;
    ConcatNext(runs[start..end], i - start);
    assert runs[start..end][..i - start] == runs[start..i] && runs[start..end][..i - start + 1] == runs[start..i + 1];
    assert runs[start..end][i - start..] == runs[i..end] && runs[start..end][i - start + 1..] == runs[i + 1..end];
  }

  lemma RunBetween(runs: seq<seq<Byte>>, j: nat, k: nat)
    requires j <= k <= |runs|
    ensures |Concat(runs[..j])| + |Concat(runs[j..k])| == |Concat(runs[..k])| <= |Concat(runs)|
    ensures Concat(runs)[|Concat(runs[..j])|..|Concat(runs[..k])|] == Concat(runs[j..k])
  {
    hide Concat;
    ConcatSplit(runs, k);
    ConcatSplit(runs[..k], j);
    assert runs[..k][..j] == runs[..j] && runs[..k][j..] == runs[j..k];
  }

  lemma PackedRange(d: DictZip, inflate: Inflate, packed: seq<seq<Byte>>, pieces: seq<seq<Byte>>, startIndex: nat, endIndex: nat)
    requires Packs(d, inflate, packed, pieces) && startIndex <= endIndex < |d.chunks|
    ensures var start, end := d.chunks[startIndex].offset, d.chunks[endIndex].offset + d.chunks[endIndex].size;
            start <= end && Slice(d.compressed, start, end) == Concat(packed[startIndex..endIndex + 1])
  {
    hide Concat;
    ConcatNext(packed, endIndex);
    RunBetween(packed, startIndex, endIndex + 1);
  }

  /** Reads a range of the uncompressed data; there is no chunk for an end past the last one. */
  method Read(d: DictZip, inflate: Inflate, offset: nat, size: nat,
              ghost packed: seq<seq<Byte>>, ghost pieces: seq<seq<Byte>>) returns (r: Result<seq<Byte>>)
    requires Packs(d, inflate, packed, pieces) && offset + size <= |Concat(pieces)|
    ensures r == if (offset + size) / d.chlen < |d.chunks| then Success(Concat(pieces)[offset..offset + size]) else Thrown
  {
    hide Concat;
    var startIndex := offset / d.chlen;
    var endIndex := (offset + size) / d.chlen;
    QuotientBounds(offset, d.chlen);
    QuotientBounds(offset + size, d.chlen);
    QuotientMonotone(offset, offset + size, d.chlen);
    if endIndex >= |d.chunks| {
      return Thrown;
    }
    var arr := ReadChunks(d, inflate, startIndex, endIndex, packed, pieces);
    var startOffset := offset - startIndex * d.chlen;
    Reach(d, inflate, packed, pieces, startIndex);
    Reach(d, inflate, packed, pieces, endIndex + 1);
    RunBetween(pieces, startIndex, endIndex + 1);
    RunBetween(pieces, endIndex + 1, |pieces|);
    assert pieces[..|pieces|] == pieces;
    assert offset + size <= |Concat(pieces[..endIndex + 1])|;
    r := Success(Slice(arr, startOffset, startOffset + size));
    SliceOfSlice(Concat(pieces), |Concat(pieces[..startIndex])|, |Concat(pieces[..endIndex + 1])|, offset, offset + size);
  }

  lemma QuotientBounds(x: nat, d: nat)
    requires d > 0
    ensures x / d >= 0 && x / d * d <= x < (x / d + 1) * d
  {
    var q, r := x / d, x % d;
    assert x == q * d + r && 0 <= r < d;
    assert (q + 1) * d == q * d + d;
  }

  lemma QuotientMonotone(x: nat, y: nat, d: nat)
    requires d > 0 && x <= y
    ensures x / d <= y / d
  {
    QuotientBounds(x, d);
    QuotientBounds(y, d);
    if x / d > y / d {
      MultipleMonotone(y / d + 1, x / d, d);
    }
  }

  lemma MultipleMonotone(x: nat, y: nat, d: nat)
    requires x <= y
    ensures x * d <= y * d
  {
  }

  /** Reading in range fails exactly at the very end of data that fills its last chunk. */
  lemma ReadFailsIff(d: DictZip, inflate: Inflate, packed: seq<seq<Byte>>, pieces: seq<seq<Byte>>, end: nat)
    requires Packs(d, inflate, packed, pieces) && end <= |Concat(pieces)|
    ensures end / d.chlen >= |d.chunks| <==> end == |Concat(pieces)| && |Concat(pieces)| == |d.chunks| * d.chlen
  {
    hide Concat;
    Reach(d, inflate, packed, pieces, |pieces|);
    assert pieces[..|pieces|] == pieces;
    QuotientBounds(end, d.chlen);
    if end / d.chlen >= |d.chunks| {
      MultipleMonotone(|d.chunks|, end / d.chlen, d.chlen);
    } else {
      MultipleMonotone(end / d.chlen + 1, |d.chunks|, d.chlen);
    }
  }
}
