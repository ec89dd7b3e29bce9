/** `resolve_station_code` (utils.py:6-31): exact match on the normalised
    input first, then the substring matches, the shortest matching name
    winning and the earliest such name winning a length tie. */
module Resolver {
  import opened Wrappers
  import opened Text
  import opened StationIndex

  /** The entries whose key contains `q`, in index order: the pairs the
      comprehension at utils.py:24 keeps. */
  function Matching(idx: Index, q: string): (ms: Index)
    ensures |ms| <= |idx|
    ensures forall e :: e in ms <==> e in idx && Contains(e.key, q)
  {
    if idx == [] then []
    else
      var last := idx[|idx| - 1];
      var prefix := idx[..|idx| - 1];
      assert idx == prefix + [last];
      Matching(prefix, q) + (if Contains(last.key, q) then [last] else [])
  }

  /** Python's `min(ks, key=len)`: the first of the shortest strings. */
  function Shortest(ks: seq<string>): string
    requires ks != []
  {
    if |ks| == 1 then ks[0]
    else
      var best := Shortest(ks[..|ks| - 1]);
      if |ks[|ks| - 1]| < |best| then ks[|ks| - 1] else best
  }

  /** `Shortest` returns one of the strings, no longer than any other and
      strictly shorter than every string before it. */
  lemma {:induction false} ShortestSpec(ks: seq<string>) returns (i: int)
    requires ks != []
    ensures 0 <= i < |ks| && ks[i] == Shortest(ks)
    ensures forall j :: 0 <= j < i ==> |ks[j]| > |Shortest(ks)|
    ensures forall j :: 0 <= j < |ks| ==> |Shortest(ks)| <= |ks[j]|
  {
    if |ks| == 1 {
      i := 0;
    } else {
      var n := |ks| - 1;
      var b := ShortestSpec(ks[..n]);
      var best := Shortest(ks[..n]);
      assert forall j :: 0 <= j < n ==> ks[..n][j] == ks[j];
      i := if |ks[n]| < |best| then n else b;
    }
  }

  /** `Shortest` of the keys of a growing sequence of entries. */
  lemma {:induction false} ShortestSnoc(m: Index, last: Entry)
    requires m != []
    ensures Shortest(KeysOf(m + [last])) ==
              if |last.key| < |Shortest(KeysOf(m))| then last.key else Shortest(KeysOf(m))
  {
    var ks := KeysOf(m + [last]);
    assert ks[..|ks| - 1] == KeysOf(m);
    assert ks[|ks| - 1] == last.key;
  }

  /** Lines 21-31 of utils.py on the normalised input `q` and the index. */
  function ResolveIn(q: string, idx: Index): Option<string> {
    if q in KeysOf(idx) then Lookup(idx, q)
    else
      var matches := Matching(idx, q);
      if |matches| == 1 then Some(matches[0].code)
      else if |matches| > 1 then Lookup(idx, Shortest(KeysOf(matches)))
      else None
  }

  /** Position `i` holds the first of the shortest keys containing `q`. */
  ghost predicate IsBestMatch(idx: Index, q: string, i: int) {
    && 0 <= i < |idx|
    && Contains(idx[i].key, q)
    && (forall j :: 0 <= j < |idx| && Contains(idx[j].key, q) ==> |idx[i].key| <= |idx[j].key|)
    && (forall j :: 0 <= j < i && Contains(idx[j].key, q) ==> |idx[i].key| < |idx[j].key|)
  }

  /** There is at most one best match. */
  lemma {:induction false} BestMatchUnique(idx: Index, q: string, i: int, j: int)
    requires IsBestMatch(idx, q, i) && IsBestMatch(idx, q, j)
    ensures i == j
  {
  }

  /** How the best match of a prefix of the index extends by one entry
      `last` that contains `q`. */
  lemma {:induction false} BestMatchSnoc(idx: Index, q: string, b: int)
    requires |idx| > 0 && Contains(idx[|idx| - 1].key, q)
    requires b == -1 ==> forall j :: 0 <= j < |idx| - 1 ==> !Contains(idx[j].key, q)
    requires b != -1 ==> IsBestMatch(idx[..|idx| - 1], q, b)
    ensures b == -1 ==> IsBestMatch(idx, q, |idx| - 1)
    ensures b != -1 && |idx[|idx| - 1].key| < |idx[b].key| ==> IsBestMatch(idx, q, |idx| - 1)
    ensures b != -1 && |idx[|idx| - 1].key| >= |idx[b].key| ==> IsBestMatch(idx, q, b)
  {
    var n := |idx| - 1;
    assert forall j :: 0 <= j < n ==> idx[..n][j] == idx[j];
  }

  /** A best match of a prefix stays best when the next entry does not
      contain `q`. */
  lemma {:induction false} BestMatchSkip(idx: Index, q: string, b: int)
    requires |idx| > 0 && !Contains(idx[|idx| - 1].key, q)
    requires IsBestMatch(idx[..|idx| - 1], q, b)
    ensures IsBestMatch(idx, q, b)
  {
    var n := |idx| - 1;
    assert forall j :: 0 <= j < n ==> idx[..n][j] == idx[j];
  }

  /** Python's `min` over the matching keys picks the best match. */
  lemma {:induction false} ShortestIsBestMatch(idx: Index, q: string) returns (i: int)
    requires Matching(idx, q) != []
    ensures IsBestMatch(idx, q, i)
    ensures Shortest(KeysOf(Matching(idx, q))) == idx[i].key
  {
    var n := |idx| - 1;
    var prefix := idx[..n];
    if !Contains(idx[n].key, q) {
      assert Matching(idx, q) == Matching(prefix, q);
      var b := ShortestIsBestMatch(prefix, q);
      BestMatchSkip(idx, q, b);
      i := b;
    } else if Matching(prefix, q) == [] {
      FirstMatch(idx, q);
      i := n;
    } else {
      var b := ShortestIsBestMatch(prefix, q);
      i := LaterMatch(idx, q, b);
    }
  }

  /** The last entry is the only one containing `q`. */
  lemma {:induction false} FirstMatch(idx: Index, q: string)
    requires |idx| > 0 && Contains(idx[|idx| - 1].key, q)
    requires Matching(idx[..|idx| - 1], q) == []
    ensures IsBestMatch(idx, q, |idx| - 1)
    ensures Shortest(KeysOf(Matching(idx, q))) == idx[|idx| - 1].key
  {
    var n := |idx| - 1;
    var prefix := idx[..n];
    assert Matching(idx, q) == [idx[n]];
    forall j | 0 <= j < n
      ensures !Contains(idx[j].key, q)
    {
      assert prefix[j] == idx[j];
      assert prefix[j] !in Matching(prefix, q);
    }
    BestMatchSnoc(idx, q, -1);
  }

  /** The last entry contains `q` and so did an earlier one, whose best
      match is `b`. */
  lemma {:induction false} LaterMatch(idx: Index, q: string, b: int) returns (i: int)
    requires |idx| > 0 && Contains(idx[|idx| - 1].key, q)
    requires Matching(idx[..|idx| - 1], q) != []
    requires IsBestMatch(idx[..|idx| - 1], q, b)
    requires Shortest(KeysOf(Matching(idx[..|idx| - 1], q))) == idx[..|idx| - 1][b].key
    ensures IsBestMatch(idx, q, i)
    ensures Shortest(KeysOf(Matching(idx, q))) == idx[i].key
  {
    var n := |idx| - 1;
    var m := Matching(idx[..n], q);
    assert Matching(idx, q) == m + [idx[n]];
    ShortestSnoc(m, idx[n]);
    assert idx[..n][b] == idx[b];
    BestMatchSnoc(idx, q, b);
    i := if |idx[n].key| < |idx[b].key| then n else b;
  }

  /** The branches of utils.py:21-31 always come down to the best match:
      `None` exactly when no key contains `q`, and otherwise the code of the
      first shortest key containing `q`. An exact key is that best match,
      since any other key containing `q` is longer. */
  lemma {:induction false} ResolveInIsBestMatch(q: string, idx: Index)
    requires DistinctKeys(idx)
    ensures ResolveIn(q, idx).None? <==> forall i :: 0 <= i < |idx| ==> !Contains(idx[i].key, q)
    ensures forall i :: IsBestMatch(idx, q, i) ==> ResolveIn(q, idx) == Some(idx[i].code)
  {
    var b: int;
    if q in KeysOf(idx) {
      b := ExactIsBestMatch(q, idx);
    } else if |Matching(idx, q)| == 1 {
      b := SingleIsBestMatch(q, idx);
    } else if |Matching(idx, q)| > 1 {
      b := ShortestIsBestMatch(idx, q);
      LookupAt(idx, b);
    } else {
      NoMatch(q, idx);
      return;
    }
    assert ResolveIn(q, idx) == Some(idx[b].code);
    forall i | IsBestMatch(idx, q, i)
      ensures ResolveIn(q, idx) == Some(idx[i].code)
    {
      BestMatchUnique(idx, q, i, b);
    }
  }

  /** An exact key is the best match: every other key containing it is
      longer. */
  lemma {:induction false} ExactIsBestMatch(q: string, idx: Index) returns (p: int)
    requires DistinctKeys(idx) && q in KeysOf(idx)
    ensures IsBestMatch(idx, q, p) && Lookup(idx, q) == Some(idx[p].code)
  {
    p :| 0 <= p < |idx| && idx[p].key == q;
    ContainsSelf(q);
    forall j | 0 <= j < |idx| && Contains(idx[j].key, q)
      ensures |q| <= |idx[j].key|
      ensures j < p ==> |q| < |idx[j].key|
    {
      ContainsLength(idx[j].key, q);
    }
    LookupAt(idx, p);
  }

  /** A sole key containing `q` is the best match. */
  lemma {:induction false} SingleIsBestMatch(q: string, idx: Index) returns (p: int)
    requires DistinctKeys(idx) && |Matching(idx, q)| == 1
    ensures IsBestMatch(idx, q, p) && Matching(idx, q)[0] == idx[p]
  {
    var matches := Matching(idx, q);
    var m := matches[0];
    p :| 0 <= p < |idx| && idx[p] == m;
    forall j | 0 <= j < |idx| && Contains(idx[j].key, q)
      ensures j == p
    {
      assert idx[j] in matches;
    }
  }

  /** No matching entry means no key contains `q`. */
  lemma {:induction false} NoMatch(q: string, idx: Index)
    requires Matching(idx, q) == []
    ensures forall j :: 0 <= j < |idx| ==> !Contains(idx[j].key, q)
  {
    forall j | 0 <= j < |idx|
      ensures !Contains(idx[j].key, q)
    {
      assert idx[j] !in Matching(idx, q);
    }
  }

  /** Whenever some key contains `q`, a best match exists. */
  lemma {:induction false} BestMatchExists(idx: Index, q: string, j: int) returns (i: int)
    requires 0 <= j < |idx| && Contains(idx[j].key, q)
    ensures IsBestMatch(idx, q, i)
  {
    assert idx[j] in Matching(idx, q);
    i := ShortestIsBestMatch(idx, q);
  }

  /** Some station has a truthy name whose normal form contains `q`. */
  ghost predicate AnyNameContains(stations: seq<Station>, q: string) {
    exists i, k :: 0 <= i < |stations| && Names(stations[i], k) && Contains(k, q)
  }

  lemma {:induction false} ResolveInStations(q: string, stations: seq<Station>)
    ensures ResolveIn(q, IndexOf(stations)).None? <==> !AnyNameContains(stations, q)
    ensures ResolveIn(q, IndexOf(stations)).Some? ==>
              exists i :: 0 <= i < |stations| && stations[i].code == ResolveIn(q, IndexOf(stations)).value
  {
    var idx := IndexOf(stations);
    ResolveInIsBestMatch(q, idx);
    if AnyNameContains(stations, q) {
      var i, k :| 0 <= i < |stations| && Names(stations[i], k) && Contains(k, q);
      IndexOfSpec(stations, k);
      var p :| 0 <= p < |idx| && KeysOf(idx)[p] == k;
      assert Contains(idx[p].key, q);
    }
    if ResolveIn(q, idx).Some? {
      var j :| 0 <= j < |idx| && Contains(idx[j].key, q);
      var b := BestMatchExists(idx, q, j);
      LookupAt(idx, b);
      IndexCodesFromStations(stations, idx[b].key);
      IndexOfSpec(stations, idx[b].key);
      assert idx[b].key in KeysOf(idx);
    }
  }

  /** `resolve_station_code(user_input, stations)`: `None` exactly when no
      truthy station name, normalised, contains the normalised input, and
      otherwise the code of one of the given stations. */
  function Resolve(userInput: string, stations: seq<Station>): (r: Option<string>)
    ensures r.None? <==> !AnyNameContains(stations, Normalize(userInput))
    ensures r.Some? ==> exists i :: 0 <= i < |stations| && stations[i].code == r.value
  {
    var q := Normalize(userInput);
    ResolveInStations(q, stations);
    ResolveIn(q, IndexOf(stations))
  }

  /** Ties go to the index: the result is the code stored under the first
      of the shortest keys that contain the normalised input, the keys
      being in order of the first write to each. */
  lemma {:induction false} ResolvePicksBestMatch(userInput: string, stations: seq<Station>, i: int)
    requires IsBestMatch(IndexOf(stations), Normalize(userInput), i)
    ensures Resolve(userInput, stations) == Some(IndexOf(stations)[i].code)
  {
    ResolveInIsBestMatch(Normalize(userInput), IndexOf(stations));
  }

  /** A single key containing the input decides the result on its own. */
  lemma {:induction false} SingleMatchWins(q: string, idx: Index, p: int)
    requires DistinctKeys(idx)
    requires 0 <= p < |idx| && Contains(idx[p].key, q)
    requires forall j :: 0 <= j < |idx| && j != p ==> !Contains(idx[j].key, q)
    ensures ResolveIn(q, idx) == Some(idx[p].code)
  {
    ResolveInIsBestMatch(q, idx);
    assert IsBestMatch(idx, q, p);
  }

  /** Exact match first: when station `j` has a name equal to the
      normalised input, and no later station has, the result is the code
      of station `j`, however many other names contain the input. */
  lemma {:induction false} ExactNameWins(userInput: string, stations: seq<Station>, j: int)
    requires 0 <= j < |stations|
    requires Names(stations[j], Normalize(userInput))
    requires forall i :: j < i < |stations| ==> !Names(stations[i], Normalize(userInput))
    ensures Resolve(userInput, stations) == Some(stations[j].code)
  {
    var q := Normalize(userInput);
    LastStationWins(stations, j, q);
    IndexOfSpec(stations, q);
  }

  /** Only the normal form of the input matters: surrounding whitespace and
      letter case change nothing. */
  lemma {:induction false} ResolveIgnoresCaseAndPadding(userInput: string, pre: string, post: string, stations: seq<Station>)
    requires AllSpace(pre) && AllSpace(post)
    ensures Resolve(pre + userInput + post, stations) == Resolve(userInput, stations)
    ensures Resolve(Lower(userInput), stations) == Resolve(userInput, stations)
    ensures Resolve(Normalize(userInput), stations) == Resolve(userInput, stations)
  {
    NormalizePadded(pre, userInput, post);
    NormalizeIgnoresCase(userInput);
    NormalizeIdempotent(userInput);
  }

  /** Every string contains the empty string, so empty or blank input
      matches every key: the result is `None` only when no station has a
      truthy name at all. */
  lemma {:induction false} BlankInputMatchesAll(userInput: string, stations: seq<Station>)
    requires Normalize(userInput) == []
    ensures Resolve(userInput, stations).None? <==>
              forall i, f :: 0 <= i < |stations| && f in NameFields(stations[i]) ==> !IsTruthy(f)
  {
    if i, f :| 0 <= i < |stations| && f in NameFields(stations[i]) && IsTruthy(f) {
      ContainsEmpty(Normalize(f.value));
      assert Names(stations[i], Normalize(f.value));
    }
  }
}
