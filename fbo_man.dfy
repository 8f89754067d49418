/**
 * ren::FBOMan: owns the index buffers and their records. The map is changed
 * in place; each glDeleteBuffers call is recorded, in order, in the ghost
 * sequence freed, and each diagnostic of the garbage collection in gcLog.
 */
module FboMan {
  import opened GLTypes
  import opened SortedSet
  import opened FboMap
  import opened FboGc

  /** getFBOData either returns a record or fails, where the source throws std::runtime_error. */
  datatype Lookup = Found(data: FboData) | NotFound

  class FboManager {
    /** mFBOData, in ascending key order. */
    var fboData: seq<Entry>
    /** The buffer names passed to glDeleteBuffers, in call order. */
    ghost var freed: seq<GLuint>
    /** The diagnostics runGCAgainstVaidIDs writes to std::cerr, in order. */
    ghost var gcLog: seq<GcLog>

    ghost predicate Valid()
      reads this
    {
      Sorted(fboData)
    }

    constructor ()
      ensures Valid()
      ensures fboData == [] && freed == [] && gcLog == []
    {
      fboData := [];
      freed := [];
      gcLog := [];
    }

    /** ~FBOMan: releases each buffer in ascending order, then clears the map. */
    method Dispose()
      requires Valid()
      modifies this
      ensures Valid()
      ensures fboData == []
      ensures freed == old(freed) + Keys(old(fboData))
      ensures gcLog == old(gcLog)
    {
      var i := 0;
      while i < |fboData|
        invariant 0 <= i <= |fboData|
        invariant fboData == old(fboData) && gcLog == old(gcLog)
        invariant freed == old(freed) + Keys(fboData[..i])
      {
        var idToErase := fboData[i].key;
        assert Keys(fboData[..i + 1]) == Keys(fboData[..i]) + [idToErase];
        AppendOne(old(freed), Keys(fboData[..i]), idToErase);
        freed := freed + [idToErase];
        i := i + 1;
      }
      assert fboData[..i] == fboData;
      fboData := [];
    }

    /**
     * addInMemoryFBO. glid is the name glGenBuffers produced; the buffer upload
     * itself is not modelled. The insert does not overwrite a present key.
     */
    method AddInMemoryFbo(glid: GLuint, primMode: GLenum, primType: GLenum, numPrims: GLsizei, assetName: string)
      returns (id: GLuint)
      requires Valid()
      modifies this
      ensures Valid()
      ensures id == glid && glid in Keys(fboData)
      ensures glid !in Keys(old(fboData)) ==>
                AsMap(fboData) == AsMap(old(fboData))[glid := FboData(assetName, primMode, primType, numPrims)]
      ensures glid in Keys(old(fboData)) ==> fboData == old(fboData)
      ensures glid !in Keys(old(fboData)) && (forall e :: e in old(fboData) ==> e.data.assetName != assetName) ==>
                FirstWithName(fboData, assetName) < |fboData| &&
                fboData[FirstWithName(fboData, assetName)] == Entry(glid, FboData(assetName, primMode, primType, numPrims))
      ensures freed == old(freed) && gcLog == old(gcLog)
    {
      var record := FboData(assetName, primMode, primType, numPrims);
      ghost var before := fboData;
      fboData := FboMap.Insert(fboData, Entry(glid, record));
      id := glid;
      if glid !in Keys(before) && (forall e :: e in before ==> e.data.assetName != assetName) {
        InsertedNameIsOnlyMatch(before, Entry(glid, record));
      }
    }

    /** removeInMemoryFBO: erasing an iterator that find returned as end() is undefined, hence the requires. */
    method RemoveInMemoryFbo(glid: GLuint)
      requires Valid()
      requires glid in Keys(fboData)
      modifies this
      ensures Valid()
      ensures AsMap(fboData) == AsMap(old(fboData)) - {glid}
      ensures forall k :: k in Keys(fboData) <==> k in Keys(old(fboData)) && k != glid
      ensures freed == old(freed) + [glid]
      ensures gcLog == old(gcLog)
    {
      fboData := Erase(fboData, glid);
      freed := freed + [glid];
    }

    /**
     * hasFBO: the key of the first entry, in ascending key order, with this
     * asset name; 0 when none has it.
     */
    method HasFbo(assetName: string) returns (id: GLuint)
      requires Valid()
      ensures id == if FirstWithName(fboData, assetName) < |fboData| then fboData[FirstWithName(fboData, assetName)].key else 0
      ensures (forall e :: e in fboData ==> e.data.assetName != assetName) ==> id == 0
      ensures (exists e :: e in fboData && e.data.assetName == assetName) ==>
                exists e :: e in fboData && e.key == id && e.data.assetName == assetName
      ensures forall e :: e in fboData && e.data.assetName == assetName ==> id <= e.key
    {
      FirstMatchIsSmallest(fboData, assetName);
      var i := 0;
      while i < |fboData|
        invariant 0 <= i <= |fboData|
        invariant forall j :: 0 <= j < i ==> fboData[j].data.assetName != assetName
      {
        if fboData[i].data.assetName == assetName {
          NoEarlierMatch(fboData, assetName, i);
          return fboData[i].key;
        }
        i := i + 1;
      }
      NoEarlierMatch(fboData, assetName, i);
      return 0;
    }

    /** getFBOData: the record of the entry hasFBO finds; fails when no entry has this asset name. */
    method GetFboData(assetName: string) returns (r: Lookup)
      requires Valid()
      ensures r == if FirstWithName(fboData, assetName) < |fboData| then Found(fboData[FirstWithName(fboData, assetName)].data) else NotFound
      ensures r.NotFound? <==> forall e :: e in fboData ==> e.data.assetName != assetName
      ensures r.Found? ==> r.data.assetName == assetName
    {
      var i := 0;
      while i < |fboData|
        invariant 0 <= i <= |fboData|
        invariant forall j :: 0 <= j < i ==> fboData[j].data.assetName != assetName
      {
        if fboData[i].data.assetName == assetName {
          NoEarlierMatch(fboData, assetName, i);
          return Found(fboData[i].data);
        }
        i := i + 1;
      }
      NoEarlierMatch(fboData, assetName, i);
      return NotFound;
    }

    /**
     * runGCAgainstVaidIDs. The cursor it is the index i into fboData:
     * erase(it++) removes fboData[i] and leaves i on the next entry, ++it is
     * i + 1, and end() is |fboData|. validKeys is the std::set in ascending order.
     */
    method RunGCAgainstValidIds(validKeys: seq<GLuint>)
      requires Valid() && StrictlyIncreasing(validKeys)
      modifies this
      ensures Valid()
      ensures fboData == Reconcile(old(fboData), validKeys).kept
      ensures freed == old(freed) + Reconcile(old(fboData), validKeys).freed
      ensures gcLog == old(gcLog) + Reconcile(old(fboData), validKeys).logs
    {
      ghost var total := Reconcile(fboData, validKeys);
      ghost var freed0, log0 := freed, gcLog;
      ghost var released: seq<GLuint> := [];
      ghost var logged: seq<GcLog> := [];
      var i := 0;
      var j := 0;
      while j < |validKeys|
        invariant 0 <= i <= |fboData| && 0 <= j <= |validKeys|
        invariant Sorted(fboData)
        invariant freed == freed0 + released
        invariant gcLog == log0 + logged
        invariant Continues(fboData, i, released, logged, Reconcile(fboData[i..], validKeys[j..]), total)
        decreases |validKeys| - j
      {
        var id := validKeys[j];
        // Find the key in the map, eliminating any keys that do not match id on the way.
        while i < |fboData| && fboData[i].key < id
          invariant 0 <= i <= |fboData|
          invariant Sorted(fboData)
          invariant freed == freed0 + released
          invariant gcLog == log0 + logged
          invariant Continues(fboData, i, released, logged, Reconcile(fboData[i..], validKeys[j..]), total)
          decreases |fboData| - i
        {
          var idToErase := fboData[i].key;
          EraseAtCursor(fboData, i, released, logged, validKeys[j..], total);
          fboData := fboData[..i] + fboData[i + 1..];
          AppendOne(freed0, released, idToErase);
          freed := freed + [idToErase];
          released := released + [idToErase];
        }
        if i == |fboData| {
          BreakAtEnd(fboData, i, released, logged, validKeys[j..], total);
          AppendOne(log0, logged, TerminatedEarly(id));
          gcLog := gcLog + [TerminatedEarly(id)];
          logged := logged + [TerminatedEarly(id)];
          assert Continues(fboData, i, released, logged, Reconcile(fboData[i..], []), total);
          break;
        }
        ghost var note := if fboData[i].key > id then [UnmatchedValidKey(id)] else [];
        StepPastCursor(fboData, i, released, logged, note, validKeys[j..], total);
        assert validKeys[j..][1..] == validKeys[j + 1..];
        ghost var logged0 := logged;
        if fboData[i].key > id {
          AppendOne(log0, logged, UnmatchedValidKey(id));
          gcLog := gcLog + [UnmatchedValidKey(id)];
          logged := logged + [UnmatchedValidKey(id)];
        }
        assert logged == logged0 + note;
        // Step past the current valid id.
        i := i + 1;
        j := j + 1;
      }
      assert j == |validKeys| ==> validKeys[j..] == [];
      assert Continues(fboData, i, released, logged, Reconcile(fboData[i..], []), total);
      ghost var s := fboData;
      SweepRest(s, i, released, logged, total);
      EraseToEnd(i);
      AppendAssoc(freed0, released, Keys(s[i..]));
    }

    /** The sweep after the loop over the valid ids: erase(it++) from cursor i until the end, releasing each entry after erasing it. */
    method EraseToEnd(i: nat)
      requires Valid() && i <= |fboData|
      modifies this
      ensures Valid()
      ensures fboData == old(fboData)[..i]
      ensures freed == old(freed) + Keys(old(fboData)[i..])
      ensures gcLog == old(gcLog)
    {
      ghost var s0, freed0 := fboData, freed;
      ghost var released: seq<GLuint> := [];
      while i < |fboData|
        invariant i <= |fboData|
        invariant Sorted(fboData) && fboData[..i] == s0[..i]
        invariant freed == freed0 + released
        invariant released + Keys(fboData[i..]) == Keys(s0[i..])
        invariant gcLog == old(gcLog)
        decreases |fboData| - i
      {
        var idToErase := fboData[i].key;
        ghost var s := fboData;
        EraseStep(s, i, released, s0);
        fboData := fboData[..i] + fboData[i + 1..];
        AppendOne(freed0, released, idToErase);
        freed := freed + [idToErase];
        released := released + [idToErase];
      }
      assert fboData == fboData[..i];
    }
  }

  /** One erase(it++) of the final sweep keeps the map sorted, the prefix before the cursor, and the released keys in order. */
  lemma EraseStep(s: seq<Entry>, i: nat, released: seq<GLuint>, s0: seq<Entry>)
    requires Sorted(s) && i < |s| && i <= |s0|
    requires s[..i] == s0[..i]
    requires released + Keys(s[i..]) == Keys(s0[i..])
    ensures Sorted(s[..i] + s[i + 1..])
    ensures (s[..i] + s[i + 1..])[..i] == s0[..i]
    ensures (released + [s[i].key]) + Keys((s[..i] + s[i + 1..])[i..]) == Keys(s0[i..])
  {
    SortedRemoveAt(s, i);
    assert s[i..][1..] == s[i + 1..];
    assert Keys(s[i..]) == [s[i].key] + Keys(s[i + 1..]);
    assert (s[..i] + s[i + 1..])[i..] == s[i + 1..];
  }

  /**
   * The merge so far composed with the merge from the cursor gives the whole
   * merge: the entries before the cursor are the survivors so far.
   */
  ghost predicate Continues(s: seq<Entry>, i: nat, released: seq<GLuint>, logged: seq<GcLog>, rest: GcOutcome, total: GcOutcome)
    requires i <= |s|
  {
    total == GcOutcome(s[..i] + rest.kept, released + rest.freed, logged + rest.logs)
  }

  lemma AppendOne<T>(a: seq<T>, b: seq<T>, x: T)
    ensures (a + b) + [x] == a + (b + [x])
  {
  }

  lemma AppendAssoc<T>(a: seq<T>, b: seq<T>, c: seq<T>)
    ensures (a + b) + c == a + (b + c)
  {
  }

  /** With no valid id left, every entry from the cursor on is released and nothing more is reported. */
  lemma SweepRest(s: seq<Entry>, i: nat, released: seq<GLuint>, logged: seq<GcLog>, total: GcOutcome)
    requires i <= |s|
    requires Continues(s, i, released, logged, Reconcile(s[i..], []), total)
    ensures total.kept == s[..i]
    ensures total.freed == released + Keys(s[i..])
    ensures total.logs == logged
  {
    assert Reconcile(s[i..], []) == GcOutcome([], Keys(s[i..]), []);
  }

  /** The cursor reached the end while valid ids are left: report and stop. */
  lemma BreakAtEnd(s: seq<Entry>, i: nat, released: seq<GLuint>, logged: seq<GcLog>, v: seq<GLuint>, total: GcOutcome)
    requires i == |s| && v != []
    requires Continues(s, i, released, logged, Reconcile(s[i..], v), total)
    ensures Continues(s, i, released, logged + [TerminatedEarly(v[0])], Reconcile(s[i..], []), total)
  {
    assert s[i..] == [];
  }

  /** The entry under the cursor is not below the valid id: report if it is above, then step past it. */
  lemma StepPastCursor(s: seq<Entry>, i: nat, released: seq<GLuint>, logged: seq<GcLog>, note: seq<GcLog>,
                       v: seq<GLuint>, total: GcOutcome)
    requires i < |s| && v != [] && v[0] <= s[i].key
    requires note == if s[i].key > v[0] then [UnmatchedValidKey(v[0])] else []
    requires Continues(s, i, released, logged, Reconcile(s[i..], v), total)
    ensures Continues(s, i + 1, released, logged + note, Reconcile(s[i + 1..], v[1..]), total)
  {
    assert s[i..][1..] == s[i + 1..];
    assert s[..i + 1] == s[..i] + [s[i]];
    assert s[i..] == [s[i]] + s[i + 1..];
  }

  /** Erasing the entry under the cursor when its key is below the next valid id (or none is left). */
  lemma EraseAtCursor(s: seq<Entry>, i: nat, released: seq<GLuint>, logged: seq<GcLog>, v: seq<GLuint>, total: GcOutcome)
    requires Sorted(s) && i < |s|
    requires v == [] || s[i].key < v[0]
    requires Continues(s, i, released, logged, Reconcile(s[i..], v), total)
    ensures Sorted(s[..i] + s[i + 1..])
    ensures Continues(s[..i] + s[i + 1..], i, released + [s[i].key], logged, Reconcile((s[..i] + s[i + 1..])[i..], v), total)
  {
    var s' := s[..i] + s[i + 1..];
    SortedRemoveAt(s, i);
    assert s'[..i] == s[..i];
    assert s'[i..] == s[i..][1..];
    if v == [] {
      assert Keys(s[i..]) == [s[i].key] + Keys(s[i..][1..]);
    }
  }

  /** Removing one entry keeps a map sorted. */
  lemma SortedRemoveAt(s: seq<Entry>, i: nat)
    requires Sorted(s) && i < |s|
    ensures Sorted(s[..i] + s[i + 1..])
  {
    var s' := s[..i] + s[i + 1..];
    forall a, b | 0 <= a < b < |s'| ensures s'[a].key < s'[b].key {
      var a' := if a < i then a else a + 1;
      var b' := if b < i then b else b + 1;
      assert s'[a] == s[a'] && s'[b] == s[b'];
    }
  }

  /** How getFBOData and hasFBO agree: the first match in ascending order has the least key of all matches. */
  lemma FirstMatchIsSmallest(s: seq<Entry>, name: string)
    requires Sorted(s)
    ensures FirstWithName(s, name) < |s| ==>
              forall e :: e in s && e.data.assetName == name ==> s[FirstWithName(s, name)].key <= e.key
  {
    var i := FirstWithName(s, name);
    if i < |s| {
      forall e | e in s && e.data.assetName == name ensures s[i].key <= e.key {
        var j :| 0 <= j < |s| && s[j] == e;
        assert i <= j;
      }
    }
  }

  /**
   * A scan that stopped at i with no match before it agrees with
   * FirstWithName: it stopped on the first match, or found none.
   */
  lemma {:induction false} NoEarlierMatch(s: seq<Entry>, name: string, i: nat)
    requires i <= |s|
    requires forall j :: 0 <= j < i ==> s[j].data.assetName != name
    requires i < |s| ==> s[i].data.assetName == name
    ensures FirstWithName(s, name) == i
    ensures i == |s| ==> forall e :: e in s ==> e.data.assetName != name
    decreases i
  {
    if i > 0 {
      NoEarlierMatch(s[1..], name, i - 1);
    } else if s != [] {
      assert s[0].data.assetName == name;
    }
  }

  /** After inserting a new key under a new name, the name is found at exactly that entry. */
  lemma InsertedNameIsOnlyMatch(s: seq<Entry>, e: Entry)
    requires Sorted(s) && e.key !in Keys(s)
    requires forall x :: x in s ==> x.data.assetName != e.data.assetName
    ensures FirstWithName(FboMap.Insert(s, e), e.data.assetName) < |FboMap.Insert(s, e)|
    ensures FboMap.Insert(s, e)[FirstWithName(FboMap.Insert(s, e), e.data.assetName)] == e
  {
    var r := FboMap.Insert(s, e);
    var i := FirstWithName(r, e.data.assetName);
  }
}
