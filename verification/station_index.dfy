/** The name-to-code index `resolve_station_code` builds before matching
    (utils.py:16-20). A Python dict keeps its keys in first-insertion order
    and overwrites the value of an existing key in place, so the index is an
    association list with distinct keys. */
module StationIndex {
  import opened Wrappers
  import opened Text

  /** A station as the resolver reads it: its `station_code` and the four
      name fields `name`, `name_ka`, `name_en`, `name_ru`, any of which may
      be missing. */
  datatype Station = Station(
    code: string,
    name: Option<string>,
    nameKa: Option<string>,
    nameEn: Option<string>,
    nameRu: Option<string>)

  /** One key of the index and the code stored under it. */
  datatype Entry = Entry(key: string, code: string)

  type Index = seq<Entry>

  /** The name fields in the order the indexing loop visits them. */
  function NameFields(s: Station): seq<Option<string>> {
    [s.name, s.nameKa, s.nameEn, s.nameRu]
  }

  /** Python truthiness of an optional string: `None` and `""` are false. */
  predicate IsTruthy(n: Option<string>) {
    n.Some? && n.value != []
  }

  /** The station `s` indexes the normalised name `k` under its code. */
  ghost predicate Names(s: Station, k: string) {
    exists f :: f in NameFields(s) && IsTruthy(f) && Normalize(f.value) == k
  }

  /** The dictionary writes that the name fields `names` of a station with
      code `code` make, in order: one per truthy name. */
  function NameWrites(names: seq<Option<string>>, code: string): (ws: seq<Entry>)
    ensures |ws| <= |names|
  {
    if names == [] then []
    else
      var last := names[|names| - 1];
      NameWrites(names[..|names| - 1], code)
        + (if IsTruthy(last) then [Entry(Normalize(last.value), code)] else [])
  }

  lemma {:induction false} NameWritesSpec(names: seq<Option<string>>, code: string, w: Entry)
    ensures w in NameWrites(names, code) <==>
              exists f :: f in names && IsTruthy(f) && w == Entry(Normalize(f.value), code)
  {
    if names != [] {
      var prefix := names[..|names| - 1];
      assert names == prefix + [names[|names| - 1]];
      NameWritesSpec(prefix, code, w);
    }
  }

  /** Every dictionary write the two nested loops of utils.py:17-20 make,
      in execution order. */
  function Writes(stations: seq<Station>): seq<Entry> {
    if stations == [] then []
    else
      var n := |stations| - 1;
      Writes(stations[..n]) + NameWrites(NameFields(stations[n]), stations[n].code)
  }

  /** `w` is one of the writes station `s` makes: a truthy name of `s`,
      normalised, stored under the code of `s`. */
  ghost predicate WrittenBy(s: Station, w: Entry) {
    w.code == s.code && Names(s, w.key)
  }

  lemma {:induction false} StationWritesSpec(s: Station, w: Entry)
    ensures w in NameWrites(NameFields(s), s.code) <==> WrittenBy(s, w)
  {
    NameWritesSpec(NameFields(s), s.code, w);
    if WrittenBy(s, w) {
      var f :| f in NameFields(s) && IsTruthy(f) && Normalize(f.value) == w.key;
      assert w == Entry(Normalize(f.value), s.code);
    }
  }

  /** The writes are exactly the truthy names of the stations, each
      normalised and stored under its own station's code. */
  lemma {:induction false} WritesSpec(stations: seq<Station>, w: Entry)
    ensures w in Writes(stations) <==> exists i :: 0 <= i < |stations| && WrittenBy(stations[i], w)
  {
    if w in Writes(stations) {
      var i := WritesSound(stations, w);
    }
    if i :| 0 <= i < |stations| && WrittenBy(stations[i], w) {
      WritesComplete(stations, w, i);
    }
  }

  lemma {:induction false} WritesSound(stations: seq<Station>, w: Entry) returns (i: nat)
    requires w in Writes(stations)
    ensures i < |stations| && WrittenBy(stations[i], w)
  {
    var n := |stations| - 1;
    var prefix := stations[..n];
    if w in Writes(prefix) {
      i := WritesSound(prefix, w);
      assert prefix[i] == stations[i];
    } else {
      StationWritesSpec(stations[n], w);
      i := n;
    }
  }

  lemma {:induction false} WritesComplete(stations: seq<Station>, w: Entry, i: nat)
    requires i < |stations| && WrittenBy(stations[i], w)
    ensures w in Writes(stations)
  {
    var n := |stations| - 1;
    var prefix := stations[..n];
    if i < n {
      assert prefix[i] == stations[i];
      WritesComplete(prefix, w, i);
    } else {
      StationWritesSpec(stations[n], w);
    }
  }

  function KeysOf(idx: Index): (ks: seq<string>)
    ensures |ks| == |idx|
    ensures forall i :: 0 <= i < |idx| ==> ks[i] == idx[i].key
  {
    seq(|idx|, i requires 0 <= i < |idx| => idx[i].key)
  }

  ghost predicate DistinctKeys(idx: Index) {
    forall i, j :: 0 <= i < |idx| && 0 <= j < |idx| && i != j ==> idx[i].key != idx[j].key
  }

  /** `name_to_code.get(k)`. */
  function Lookup(idx: Index, k: string): (r: Option<string>)
    ensures r.None? <==> k !in KeysOf(idx)
    ensures r.Some? ==> exists i :: 0 <= i < |idx| && idx[i] == Entry(k, r.value)
  {
    if idx == [] then None
    else if idx[0].key == k then Some(idx[0].code)
    else
      var r := Lookup(idx[1..], k);
      assert KeysOf(idx) == [idx[0].key] + KeysOf(idx[1..]);
      r
  }

  /** With distinct keys, the entry at any position is the one found. */
  lemma {:induction false} LookupAt(idx: Index, i: int)
    requires DistinctKeys(idx)
    requires 0 <= i < |idx|
    ensures Lookup(idx, idx[i].key) == Some(idx[i].code)
  {
    if i > 0 {
      LookupAt(idx[1..], i - 1);
    }
  }

  /** Where key `k` sits in the index, or `|idx|` when it is absent. */
  function Position(idx: Index, k: string): (p: nat)
    ensures p <= |idx|
    ensures p < |idx| ==> idx[p].key == k
    ensures p == |idx| <==> k !in KeysOf(idx)
  {
    if idx == [] then 0
    else if idx[0].key == k then 0
    else
      assert KeysOf(idx) == [idx[0].key] + KeysOf(idx[1..]);
      1 + Position(idx[1..], k)
  }

  /** `name_to_code[k] = c`: an existing key keeps its position and takes
      the new code; a new key goes to the end. */
  function Put(idx: Index, k: string, c: string): (r: Index)
    requires DistinctKeys(idx)
    ensures DistinctKeys(r)
    ensures k in KeysOf(idx) ==> KeysOf(r) == KeysOf(idx)
    ensures k !in KeysOf(idx) ==> r == idx + [Entry(k, c)]
  {
    var p := Position(idx, k);
    if p < |idx| then
      var r := idx[p := Entry(k, c)];
      assert KeysOf(r) == KeysOf(idx);
      r
    else
      idx + [Entry(k, c)]
  }

  /** After the write, `k` maps to `c` and every other key is untouched. */
  lemma {:induction false} PutLookup(idx: Index, k: string, c: string, k': string)
    requires DistinctKeys(idx)
    ensures Lookup(Put(idx, k, c), k') == if k' == k then Some(c) else Lookup(idx, k')
  {
    var r := Put(idx, k, c);
    var p := Position(idx, k);
    if k' == k {
      LookupAt(r, p);
    } else {
      LookupOther(idx, r, k');
    }
  }

  /** Two indexes with the same keys that agree on every position holding
      key `k` agree on the lookup of `k`. */
  lemma {:induction false} LookupOther(idx: Index, r: Index, k: string)
    requires |r| >= |idx|
    requires forall i :: 0 <= i < |idx| && (idx[i].key == k || r[i].key == k) ==> r[i] == idx[i]
    requires forall i :: |idx| <= i < |r| ==> r[i].key != k
    ensures Lookup(r, k) == Lookup(idx, k)
  {
    if idx == [] {
      if r != [] {
        LookupOther(idx, r[1..], k);
      }
    } else {
      LookupOther(idx[1..], r[1..], k);
    }
  }

  /** The index a sequence of writes leaves behind, starting from `{}`. */
  function Build(ws: seq<Entry>): (idx: Index)
    ensures DistinctKeys(idx)
  {
    if ws == [] then []
    else
      var w := ws[|ws| - 1];
      Put(Build(ws[..|ws| - 1]), w.key, w.code)
  }

  /** The index utils.py:16-20 builds from `stations`. */
  function IndexOf(stations: seq<Station>): (idx: Index)
    ensures DistinctKeys(idx)
  {
    Build(Writes(stations))
  }

  /** The code of the last write to key `k`, if any. */
  function LastWrite(ws: seq<Entry>, k: string): Option<string> {
    if ws == [] then None
    else if ws[|ws| - 1].key == k then Some(ws[|ws| - 1].code)
    else LastWrite(ws[..|ws| - 1], k)
  }

  /** The keys in order of their first appearance. */
  function FirstOccurrences(ks: seq<string>): seq<string> {
    if ks == [] then []
    else
      var d := FirstOccurrences(ks[..|ks| - 1]);
      if ks[|ks| - 1] in d then d else d + [ks[|ks| - 1]]
  }

  /** Last write wins: the code stored under each key is that of the last
      write to it, and a key never written is absent. */
  lemma {:induction false} BuildLookup(ws: seq<Entry>, k: string)
    ensures Lookup(Build(ws), k) == LastWrite(ws, k)
  {
    if ws != [] {
      var w := ws[|ws| - 1];
      BuildLookup(ws[..|ws| - 1], k);
      PutLookup(Build(ws[..|ws| - 1]), w.key, w.code, k);
    }
  }

  /** A key keeps the position of its first write: the index lists the
      written keys in order of first appearance. */
  lemma {:induction false} BuildKeys(ws: seq<Entry>)
    ensures KeysOf(Build(ws)) == FirstOccurrences(KeysOf(ws))
  {
    if ws != [] {
      var p := ws[..|ws| - 1];
      BuildKeys(p);
      assert KeysOf(ws)[..|ws| - 1] == KeysOf(p);
      var w := ws[|ws| - 1];
      if w.key !in KeysOf(Build(p)) {
        assert KeysOf(Build(p) + [Entry(w.key, w.code)]) == KeysOf(Build(p)) + [w.key];
      }
    }
  }

  lemma {:induction false} LastWriteSpec(ws: seq<Entry>, k: string)
    ensures LastWrite(ws, k).Some? <==> k in KeysOf(ws)
    ensures LastWrite(ws, k).Some? ==> Entry(k, LastWrite(ws, k).value) in ws
  {
    if ws != [] {
      var p := ws[..|ws| - 1];
      LastWriteSpec(p, k);
      assert KeysOf(ws) == KeysOf(p) + [ws[|ws| - 1].key];
    }
  }

  /** The keys of the index are exactly the normalised truthy names of the
      stations, and the code under each key belongs to a station that has
      that name. */
  lemma {:induction false} IndexOfSpec(stations: seq<Station>, k: string)
    ensures k in KeysOf(IndexOf(stations)) <==>
              exists i :: 0 <= i < |stations| && Names(stations[i], k)
    ensures Lookup(IndexOf(stations), k).Some? ==>
              exists i :: 0 <= i < |stations| && Names(stations[i], k)
                       && stations[i].code == Lookup(IndexOf(stations), k).value
  {
    var ws := Writes(stations);
    BuildLookup(ws, k);
    LastWriteSpec(ws, k);
    if k in KeysOf(IndexOf(stations)) {
      var w := Entry(k, LastWrite(ws, k).value);
      var i := WritesSound(stations, w);
    }
    if i :| 0 <= i < |stations| && Names(stations[i], k) {
      var w := Entry(k, stations[i].code);
      WritesComplete(stations, w, i);
      var j :| 0 <= j < |ws| && ws[j] == w;
      assert KeysOf(ws)[j] == k;
    }
  }

  /** Every code the index holds is the code of one of the stations. */
  lemma {:induction false} IndexCodesFromStations(stations: seq<Station>, k: string)
    requires Lookup(IndexOf(stations), k).Some?
    ensures exists i :: 0 <= i < |stations| && stations[i].code == Lookup(IndexOf(stations), k).value
  {
    IndexOfSpec(stations, k);
  }

  lemma {:induction false} WritesAppend(a: seq<Station>, b: seq<Station>)
    ensures Writes(a + b) == Writes(a) + Writes(b)
    decreases |b|
  {
    if b == [] {
      assert a + b == a;
    } else {
      var n := |b| - 1;
      var last := b[n];
      assert (a + b)[..|a + b| - 1] == a + b[..n];
      assert (a + b)[|a + b| - 1] == last;
      WritesAppend(a, b[..n]);
      var tail := NameWrites(NameFields(last), last.code);
      assert Writes(a + b) == Writes(a + b[..n]) + tail;
      assert Writes(b) == Writes(b[..n]) + tail;
    }
  }

  lemma {:induction false} LastWriteAppend(ws: seq<Entry>, more: seq<Entry>, k: string)
    requires k !in KeysOf(more)
    ensures LastWrite(ws + more, k) == LastWrite(ws, k)
    decreases |more|
  {
    if more == [] {
      assert ws + more == ws;
    } else {
      var m := more[..|more| - 1];
      assert (ws + more)[..|ws + more| - 1] == ws + m;
      assert KeysOf(more) == KeysOf(m) + [more[|more| - 1].key];
      LastWriteAppend(ws, m, k);
    }
  }

  lemma {:induction false} LastWriteOfCode(ws: seq<Entry>, k: string, c: string)
    requires forall w :: w in ws ==> w.code == c
    requires k in KeysOf(ws)
    ensures LastWrite(ws, k) == Some(c)
  {
    LastWriteSpec(ws, k);
  }

  lemma {:induction false} LastWriteSuffix(ws: seq<Entry>, more: seq<Entry>, k: string)
    requires k in KeysOf(more)
    ensures LastWrite(ws + more, k) == LastWrite(more, k)
    decreases |more|
  {
    var m := more[..|more| - 1];
    assert (ws + more)[..|ws + more| - 1] == ws + m;
    assert KeysOf(more) == KeysOf(m) + [more[|more| - 1].key];
    if more[|more| - 1].key != k {
      LastWriteSuffix(ws, m, k);
    }
  }

  /** The writes of one station all carry its code, and include key `k`
      when the station has a name normalising to `k`. */
  lemma {:induction false} OwnWrites(s: Station, k: string)
    requires Names(s, k)
    ensures k in KeysOf(NameWrites(NameFields(s), s.code))
    ensures LastWrite(NameWrites(NameFields(s), s.code), k) == Some(s.code)
  {
    var own := NameWrites(NameFields(s), s.code);
    StationWritesSpec(s, Entry(k, s.code));
    var p :| 0 <= p < |own| && own[p] == Entry(k, s.code);
    assert KeysOf(own)[p] == k;
    forall w | w in own
      ensures w.code == s.code
    {
      StationWritesSpec(s, w);
    }
    LastWriteOfCode(own, k, s.code);
  }

  lemma {:induction false} NoWritesOf(stations: seq<Station>, k: string)
    requires forall i :: 0 <= i < |stations| ==> !Names(stations[i], k)
    ensures k !in KeysOf(Writes(stations))
  {
    var ws := Writes(stations);
    if k in KeysOf(ws) {
      var q :| 0 <= q < |ws| && KeysOf(ws)[q] == k;
      var i := WritesSound(stations, ws[q]);
    }
  }

  /** The writes split around station `j`: those before it, its own, and
      those after it. */
  lemma {:induction false} WritesAround(stations: seq<Station>, j: int)
    requires 0 <= j < |stations|
    ensures Writes(stations) == Writes(stations[..j])
                              + NameWrites(NameFields(stations[j]), stations[j].code)
                              + Writes(stations[j + 1..])
  {
    var head := stations[..j + 1];
    assert stations == head + stations[j + 1..];
    WritesAppend(head, stations[j + 1..]);
    assert head[..j] == stations[..j] && head[j] == stations[j];
  }

  /** Collisions go to the last writer: when station `j` has a name that
      normalises to `k` and no later station does, `k` maps to the code of
      station `j`, whatever earlier stations wrote. */
  lemma {:induction false} LastStationWins(stations: seq<Station>, j: int, k: string)
    requires 0 <= j < |stations|
    requires Names(stations[j], k)
    requires forall i :: j < i < |stations| ==> !Names(stations[i], k)
    ensures Lookup(IndexOf(stations), k) == Some(stations[j].code)
  {
    var later := stations[j + 1..];
    var own := NameWrites(NameFields(stations[j]), stations[j].code);
    WritesAround(stations, j);
    forall i | 0 <= i < |later|
      ensures !Names(later[i], k)
    {
      assert later[i] == stations[j + 1 + i];
    }
    NoWritesOf(later, k);
    LastWriteAppend(Writes(stations[..j]) + own, Writes(later), k);
    OwnWrites(stations[j], k);
    LastWriteSuffix(Writes(stations[..j]), own, k);
    BuildLookup(Writes(stations), k);
  }

  /** `s` and `t` agree on their code and on every truthy name; where one
      has `None` the other has `None` or `""`. */
  ghost predicate SameTruthyNames(s: Station, t: Station) {
    && s.code == t.code
    && forall j :: 0 <= j < 4 && (IsTruthy(NameFields(s)[j]) || IsTruthy(NameFields(t)[j])) ==>
         NameFields(s)[j] == NameFields(t)[j]
  }

  lemma {:induction false} NameWritesAgree(a: seq<Option<string>>, b: seq<Option<string>>, code: string)
    requires |a| == |b|
    requires forall j :: 0 <= j < |a| && (IsTruthy(a[j]) || IsTruthy(b[j])) ==> a[j] == b[j]
    ensures NameWrites(a, code) == NameWrites(b, code)
  {
    if a != [] {
      NameWritesAgree(a[..|a| - 1], b[..|b| - 1], code);
    }
  }

  /** Missing and empty names contribute nothing: stations that differ only
      in which of their falsy names are `None` and which are `""` build the
      same index. */
  lemma {:induction false} FalsyNamesIgnored(a: seq<Station>, b: seq<Station>)
    requires |a| == |b|
    requires forall i :: 0 <= i < |a| ==> SameTruthyNames(a[i], b[i])
    ensures IndexOf(a) == IndexOf(b)
  {
    WritesAgree(a, b);
  }

  lemma {:induction false} WritesAgree(a: seq<Station>, b: seq<Station>)
    requires |a| == |b|
    requires forall i :: 0 <= i < |a| ==> SameTruthyNames(a[i], b[i])
    ensures Writes(a) == Writes(b)
  {
    if a != [] {
      var n := |a| - 1;
      WritesAgree(a[..n], b[..n]);
      assert SameTruthyNames(a[n], b[n]);
      NameWritesAgree(NameFields(a[n]), NameFields(b[n]), a[n].code);
    }
  }

  /** A name made only of whitespace is truthy, so it is indexed, under the
      empty key. */
  lemma {:induction false} BlankNameIndexed(stations: seq<Station>, i: int, f: Option<string>)
    requires 0 <= i < |stations|
    requires f in NameFields(stations[i]) && f.Some? && f.value != [] && AllSpace(f.value)
    ensures [] in KeysOf(IndexOf(stations))
  {
    TrimStartAllSpace(f.value);
    assert Normalize(f.value) == [];
    IndexOfSpec(stations, []);
  }

  lemma {:induction false} BuildSnoc(ws: seq<Entry>, w: Entry)
    ensures Build(ws + [w]) == Put(Build(ws), w.key, w.code)
  {
    assert (ws + [w])[..|ws|] == ws;
  }

  lemma {:induction false} NameWritesSnoc(names: seq<Option<string>>, j: int, code: string)
    requires 0 <= j < |names|
    ensures NameWrites(names[..j + 1], code) == NameWrites(names[..j], code)
              + (if IsTruthy(names[j]) then [Entry(Normalize(names[j].value), code)] else [])
  {
    assert names[..j + 1][..j] == names[..j];
  }

  lemma {:induction false} IndexNamesStep(before: seq<Entry>, names: seq<Option<string>>, j: int, code: string)
    requires 0 <= j < |names|
    ensures IsTruthy(names[j]) ==>
              Build(before + NameWrites(names[..j + 1], code))
                == Put(Build(before + NameWrites(names[..j], code)), Normalize(names[j].value), code)
    ensures !IsTruthy(names[j]) ==>
              Build(before + NameWrites(names[..j + 1], code)) == Build(before + NameWrites(names[..j], code))
  {
    var a := NameWrites(names[..j], code);
    var b := NameWrites(names[..j + 1], code);
    NameWritesSnoc(names, j, code);
    if IsTruthy(names[j]) {
      var w := Entry(Normalize(names[j].value), code);
      BuildSnoc(before + a, w);
      assert before + b == before + a + [w];
    } else {
      assert a + [] == a;
      assert b == a;
    }
  }

  /** The inner loop of utils.py:18-20: the writes of one station's names,
      applied to the index built so far. */
  method IndexNames(idx0: Index, names: seq<Option<string>>, code: string, ghost before: seq<Entry>)
    returns (idx: Index)
    requires idx0 == Build(before)
    ensures idx == Build(before + NameWrites(names, code))
  {
    idx := idx0;
    var j := 0;
    assert before + NameWrites(names[..0], code) == before;
    while j < |names|
      invariant 0 <= j <= |names|
      invariant idx == Build(before + NameWrites(names[..j], code))
    {
      IndexNamesStep(before, names, j, code);
      if IsTruthy(names[j]) {
        idx := Put(idx, Normalize(names[j].value), code);
      }
      j := j + 1;
    }
    assert names[..j] == names;
  }

  /** The two nested loops of utils.py:17-20, run from an empty dict,
      build exactly the index `IndexOf` describes. */
  method BuildIndex(stations: seq<Station>) returns (idx: Index)
    ensures idx == IndexOf(stations)
  {
    idx := [];
    var i := 0;
    while i < |stations|
      invariant 0 <= i <= |stations|
      invariant idx == Build(Writes(stations[..i]))
    {
      assert stations[..i + 1][..i] == stations[..i];
      idx := IndexNames(idx, NameFields(stations[i]), stations[i].code, Writes(stations[..i]));
      i := i + 1;
    }
    assert stations[..i] == stations;
  }
}
