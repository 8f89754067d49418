/**
 * The manager's bookkeeping map, std::map<GLuint, FBOData>, as a value: its
 * entries in ascending key order, one entry per key.
 */
module FboMap {
  import opened GLTypes
  import opened SortedSet

  /** FBOMan::FBOData: what is recorded about one buffer. Its constructor stores the four arguments unchanged. */
  datatype FboData = FboData(assetName: string, primMode: GLenum, primType: GLenum, numPrims: GLsizei)

  /** One element of the map: the buffer's GL name and its record. */
  datatype Entry = Entry(key: GLuint, data: FboData)

  /** What a std::map guarantees: unique keys, iterated in ascending order. */
  ghost predicate Sorted(s: seq<Entry>) {
    forall i, j :: 0 <= i < j < |s| ==> s[i].key < s[j].key
  }

  /** The keys in iteration order. */
  function Keys(s: seq<Entry>): (ks: seq<GLuint>)
    ensures |ks| == |s|
    ensures forall i :: 0 <= i < |s| ==> ks[i] == s[i].key
  {
    if s == [] then [] else [s[0].key] + Keys(s[1..])
  }

  lemma SortedKeys(s: seq<Entry>)
    requires Sorted(s)
    ensures StrictlyIncreasing(Keys(s))
  {
  }

  /** The dictionary the entries stand for. */
  ghost function AsMap(s: seq<Entry>): (m: map<GLuint, FboData>)
    ensures forall k :: k in m <==> k in Keys(s)
  {
    if s == [] then map[] else AsMap(s[1..])[s[0].key := s[0].data]
  }

  /** In a sorted map each entry's key looks up that entry's record. */
  lemma {:induction false} AsMapAt(s: seq<Entry>, i: nat)
    requires Sorted(s) && i < |s|
    ensures s[i].key in AsMap(s) && AsMap(s)[s[i].key] == s[i].data
  {
    if i > 0 {
      AsMapAt(s[1..], i - 1);
    }
  }

  /** Facts about a sorted sequence split at its head. */
  lemma SortedTail(s: seq<Entry>)
    requires Sorted(s) && s != []
    ensures Sorted(s[1..])
    ensures forall k :: k in Keys(s[1..]) ==> s[0].key < k
    ensures forall y :: y in s[1..] ==> s[0].key < y.key
    ensures Keys(s) == [s[0].key] + Keys(s[1..])
    ensures AsMap(s) == AsMap(s[1..])[s[0].key := s[0].data]
  {
    forall k | k in Keys(s[1..]) ensures s[0].key < k {
      var j :| 0 <= j < |s| - 1 && Keys(s[1..])[j] == k;
      assert s[j + 1].key == k;
    }
  }

  /** Putting an entry before a sorted sequence of larger keys. */
  lemma SortedCons(x: Entry, t: seq<Entry>)
    requires Sorted(t)
    requires forall y :: y in t ==> x.key < y.key
    ensures Sorted([x] + t)
    ensures ([x] + t)[1..] == t
    ensures Keys([x] + t) == [x.key] + Keys(t)
    ensures AsMap([x] + t) == AsMap(t)[x.key := x.data]
  {
    assert ([x] + t)[1..] == t;
    forall i, j | 0 <= i < j < |t| + 1 ensures ([x] + t)[i].key < ([x] + t)[j].key {
      if i == 0 {
        assert t[j - 1] in t;
      } else {
        assert ([x] + t)[i] == t[i - 1];
      }
      assert ([x] + t)[j] == t[j - 1];
    }
  }

  lemma UpdatesCommute(m: map<GLuint, FboData>, a: GLuint, va: FboData, b: GLuint, vb: FboData)
    requires a != b
    ensures m[a := va][b := vb] == m[b := vb][a := va]
  {
  }

  lemma UpdateRemoveCommute(m: map<GLuint, FboData>, a: GLuint, va: FboData, k: GLuint)
    requires a != k
    ensures (m - {k})[a := va] == m[a := va] - {k}
  {
  }

  /** std::map::insert: adds the entry when its key is absent and leaves the map alone when it is present. */
  function Insert(s: seq<Entry>, e: Entry): (r: seq<Entry>)
    requires Sorted(s)
    ensures Sorted(r)
    ensures e.key in Keys(s) ==> r == s
    ensures e.key !in Keys(s) ==> e in r
    ensures forall x :: x in r ==> x == e || x in s
    ensures e.key !in Keys(s) ==> AsMap(r) == AsMap(s)[e.key := e.data]
  {
    if s == [] then
      SortedCons(e, []);
      [e]
    else if e.key == s[0].key then
      SortedTail(s);
      s
    else if e.key < s[0].key then
      SortedTail(s);
      SortedCons(e, s);
      [e] + s
    else
      SortedTail(s);
      var t := Insert(s[1..], e);
      InsertBehindHead(s, e, t);
      [s[0]] + t
  }

  /** The recursive step of Insert: the entry goes behind a smaller head. */
  lemma InsertBehindHead(s: seq<Entry>, e: Entry, t: seq<Entry>)
    requires Sorted(s) && s != [] && s[0].key < e.key
    requires Sorted(t)
    requires e.key in Keys(s[1..]) ==> t == s[1..]
    requires e.key !in Keys(s[1..]) ==> e in t
    requires forall x :: x in t ==> x == e || x in s[1..]
    requires e.key !in Keys(s[1..]) ==> AsMap(t) == AsMap(s[1..])[e.key := e.data]
    ensures Sorted([s[0]] + t)
    ensures e.key in Keys(s) ==> [s[0]] + t == s
    ensures e.key !in Keys(s) ==> e in [s[0]] + t
    ensures forall x :: x in [s[0]] + t ==> x == e || x in s
    ensures e.key !in Keys(s) ==> AsMap([s[0]] + t) == AsMap(s)[e.key := e.data]
  {
    SortedTail(s);
    InsertBehindHeadSorted(s, e, t);
    assert s == [s[0]] + s[1..];
    assert e.key in Keys(s) <==> e.key in Keys(s[1..]);
    if e.key !in Keys(s[1..]) {
      SortedCons(s[0], t);
      UpdatesCommute(AsMap(s[1..]), e.key, e.data, s[0].key, s[0].data);
    }
  }

  lemma InsertBehindHeadSorted(s: seq<Entry>, e: Entry, t: seq<Entry>)
    requires Sorted(s) && s != [] && s[0].key < e.key
    requires Sorted(t)
    requires forall x :: x in t ==> x == e || x in s[1..]
    ensures Sorted([s[0]] + t)
  {
    SortedTail(s);
    SortedCons(s[0], t);
  }

  /** std::map::erase of a key: removes that entry and nothing else. */
  function Erase(s: seq<Entry>, k: GLuint): (r: seq<Entry>)
    requires Sorted(s)
    ensures Sorted(r)
    ensures forall x :: x in r ==> x in s && x.key != k
    ensures AsMap(r) == AsMap(s) - {k}
  {
    if s == [] then []
    else if s[0].key == k then
      EraseHead(s);
      s[1..]
    else
      var t := Erase(s[1..], k);
      EraseBehindHead(s, k, t);
      [s[0]] + t
  }

  lemma EraseHead(s: seq<Entry>)
    requires Sorted(s) && s != []
    ensures Sorted(s[1..])
    ensures forall x :: x in s[1..] ==> x in s && x.key != s[0].key
    ensures AsMap(s[1..]) == AsMap(s) - {s[0].key}
  {
    SortedTail(s);
    assert s[0].key !in AsMap(s[1..]);
    UpdateThenRemove(AsMap(s[1..]), s[0].key, s[0].data);
    assert forall x :: x in s[1..] ==> x in s by {
      assert s == [s[0]] + s[1..];
    }
  }

  lemma UpdateThenRemove(m: map<GLuint, FboData>, a: GLuint, va: FboData)
    requires a !in m
    ensures m[a := va] - {a} == m
  {
  }

  /** The recursive step of Erase: the head is kept when its key is not the erased one. */
  lemma EraseBehindHead(s: seq<Entry>, k: GLuint, t: seq<Entry>)
    requires Sorted(s) && s != [] && s[0].key != k
    requires Sorted(t)
    requires forall x :: x in t ==> x in s[1..] && x.key != k
    requires AsMap(t) == AsMap(s[1..]) - {k}
    ensures Sorted([s[0]] + t)
    ensures forall x :: x in [s[0]] + t ==> x in s && x.key != k
    ensures AsMap([s[0]] + t) == AsMap(s) - {k}
  {
    SortedTail(s);
    SortedCons(s[0], t);
    assert s == [s[0]] + s[1..];
    UpdateRemoveCommute(AsMap(s[1..]), s[0].key, s[0].data, k);
  }

  /** The position of the first entry, in ascending key order, whose asset name is name; |s| when there is none. */
  function FirstWithName(s: seq<Entry>, name: string): (i: nat)
    ensures i <= |s|
    ensures i < |s| ==> s[i].data.assetName == name
    ensures forall j :: 0 <= j < i ==> s[j].data.assetName != name
  {
    if s == [] then 0
    else if s[0].data.assetName == name then 0
    else 1 + FirstWithName(s[1..], name)
  }
}
