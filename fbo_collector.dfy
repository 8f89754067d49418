/**
 * FBOGarbageCollector, the system that walks every FBO component, collects
 * the GL names still in use and hands them to the manager. The entity walk of
 * the host framework is the sequence of visited components; the manager is
 * null when the static manager slot no longer holds one (weak_ptr::lock fails).
 */
module FboCollector {
  import opened GLTypes
  import opened SortedSet
  import opened FboComponent
  import opened FboMap
  import opened FboGc
  import opened FboMan

  /** FBOGarbageCollector::getName, which FBOMan::getGCName returns. */
  const GcName: string := "ren:FBOGarbageCollector"

  /** The valid ids after visiting cs in order, starting from an empty set. */
  function Collect(cs: seq<Fbo>): (ks: seq<GLuint>)
    ensures StrictlyIncreasing(ks)
    ensures forall k :: k in ks <==> exists c :: c in cs && c.glid == k
  {
    if cs == [] then []
    else
      var ks := Collect(cs[..|cs| - 1]);
      assert cs == cs[..|cs| - 1] + [cs[|cs| - 1]];
      SortedSet.Insert(ks, cs[|cs| - 1].glid)
  }

  /** Visiting order and repeated components do not matter: the set only depends on which names occur. */
  lemma CollectIgnoresOrder(a: seq<Fbo>, b: seq<Fbo>)
    requires forall c :: c in a <==> c in b
    ensures Collect(a) == Collect(b)
  {
    SameElementsSameSequence(Collect(a), Collect(b));
  }

  /**
   * A default component puts 0 into the valid ids. When every key of the map
   * is a real GL name (never 0), the merge steps over the smallest entry on
   * that 0 and keeps it, whether or not any component uses it.
   */
  lemma DefaultComponentKeepsSmallest(m: seq<Entry>, cs: seq<Fbo>)
    requires Sorted(m) && m != []
    requires forall e :: e in m ==> e.key != 0
    requires DefaultFbo() in cs
    ensures m[0] in Reconcile(m, Collect(cs)).kept
    ensures |Reconcile(m, Collect(cs)).logs| > 0 && Reconcile(m, Collect(cs)).logs[0] == UnmatchedValidKey(0)
  {
    var ks := Collect(cs);
    assert 0 in ks;
    HeadIsLeast(ks);
    assert ks[0] == 0;
    assert m[0] in m;
  }

  class FboGarbageCollector {
    /** mValidKeys, in ascending order. */
    var validKeys: seq<GLuint>

    ghost predicate Valid()
      reads this
    {
      StrictlyIncreasing(validKeys)
    }

    constructor ()
      ensures Valid() && validKeys == []
    {
      validKeys := [];
    }

    /** preWalkComponents: start the cycle with no valid ids. */
    method PreWalkComponents()
      modifies this
      ensures Valid() && validKeys == []
    {
      validKeys := [];
    }

    /** execute, once per visited component: the component's glid is valid. */
    method Execute(fbo: Fbo)
      requires Valid()
      modifies this
      ensures Valid()
      ensures forall k :: k in validKeys <==> k in old(validKeys) || k == fbo.glid
      ensures validKeys == SortedSet.Insert(old(validKeys), fbo.glid)
    {
      validKeys := SortedSet.Insert(validKeys, fbo.glid);
    }

    /**
     * postWalkComponents: with a manager, run its garbage collection on the
     * valid ids and clear them; without one, only report, so the valid ids
     * stay as they are.
     */
    method PostWalkComponents(man: FboManager?)
      requires Valid()
      requires man != null ==> man.Valid()
      modifies this, man
      ensures Valid()
      ensures man != null ==> validKeys == [] && man.Valid()
      ensures man != null ==> man.fboData == Reconcile(old(man.fboData), old(validKeys)).kept
      ensures man != null ==> man.freed == old(man.freed) + Reconcile(old(man.fboData), old(validKeys)).freed
      ensures man != null ==> man.gcLog == old(man.gcLog) + Reconcile(old(man.fboData), old(validKeys)).logs
      ensures man == null ==> validKeys == old(validKeys)
    {
      if man != null {
        man.RunGCAgainstValidIds(validKeys);
        validKeys := [];
      }
    }

    /** One walk of the host framework: preWalkComponents, execute for each component, postWalkComponents. */
    method WalkComponents(components: seq<Fbo>, man: FboManager?)
      requires man != null ==> man.Valid()
      modifies this, man
      ensures Valid()
      ensures validKeys == if man != null then [] else Collect(components)
      ensures man != null ==> man.Valid()
      ensures man != null ==> man.fboData == Reconcile(old(man.fboData), Collect(components)).kept
      ensures man != null ==> man.freed == old(man.freed) + Reconcile(old(man.fboData), Collect(components)).freed
      ensures man != null ==> man.gcLog == old(man.gcLog) + Reconcile(old(man.fboData), Collect(components)).logs
    {
      PreWalkComponents();
      var n := 0;
      while n < |components|
        invariant 0 <= n <= |components|
        invariant Valid() && validKeys == Collect(components[..n])
        invariant man != null ==> man.Valid()
        invariant man != null ==> unchanged(man)
      {
        assert components[..n + 1][..n] == components[..n];
        Execute(components[n]);
        n := n + 1;
      }
      assert components[..n] == components;
      PostWalkComponents(man);
    }
  }

  /** FBOMan::runGCCycle: one walk with a collector of its own; no system stays registered. */
  method RunGCCycle(components: seq<Fbo>, man: FboManager?)
    requires man != null ==> man.Valid()
    modifies man
    ensures man != null ==> man.Valid()
    ensures man != null ==> man.fboData == Reconcile(old(man.fboData), Collect(components)).kept
    ensures man != null ==> man.freed == old(man.freed) + Reconcile(old(man.fboData), Collect(components)).freed
    ensures man != null ==> man.gcLog == old(man.gcLog) + Reconcile(old(man.fboData), Collect(components)).logs
  {
    var gc := new FboGarbageCollector();
    gc.WalkComponents(components, man);
  }
}
