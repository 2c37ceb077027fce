/** The central lists hand out first what came in last. */
module CentralOrder {
  import opened Common
  import opened Central
  import opened CentralLocks
  import opened CentralObjects
  import opened CentralCounts
  import opened CentralRuns

  /** A batch that has just gone into the transfer cache is what the next request for a batch of the class gets,
      whichever thread makes it, and the slots are as before. */
  lemma BatchComesBack(c: Config, s: State, t: nat, u: nat) returns (s1: State, s2: State, s3: State)
    requires Inv(c, s) && t < |s.threads| && u < |s.threads| && t != u && s.threads[t].InsertWait? && s.threads[u].Idle?
    requires Unlocked(s, s.threads[t].cl) && |s.threads[t].chain| == c.batch[s.threads[t].cl] >= 1
    requires |s.lists[s.threads[t].cl].slots| < s.lists[s.threads[t].cl].cacheSize
    ensures var InsertWait(cl, chain) := s.threads[t];
            && Enabled(c, s, t, Advance) && s1 == Step(c, s, t, Advance)
            && Enabled(c, s1, u, StartRemove(cl, c.batch[cl])) && s2 == Step(c, s1, u, StartRemove(cl, c.batch[cl]))
            && Enabled(c, s2, u, Advance) && s3 == Step(c, s2, u, Advance)
            && s3.threads == s.threads[t := Idle] && s3.lists == s.lists
            && s3.caches == s.caches[u := s.caches[u] + set o | o in chain]
  {
    var InsertWait(cl, chain) := s.threads[t];
    assert RefersTo(s.threads[t], |s.lists|);
    s1 := Step(c, s, t, Advance);
    s2 := Step(c, s1, u, StartRemove(cl, c.batch[cl]));
    s3 := Step(c, s2, u, Advance);
    var l := s.lists[cl];
    assert (l.slots + [chain])[..|l.slots|] == l.slots;
  }

  /** An object that has just come back is the next one to be handed out, if its span had none free or is the first
      on the list: s1 is the state that ReleaseOne leaves, but with the thread asking for one object. */
  lemma ObjectComesBack(c: Config, s: State, t: nat, s1: State)
    requires Inv(c, s) && t < |s.threads| && s.threads[t].Release? && s.threads[t].chain != []
    requires s.threads[t].cl < |s.lists| && s.threads[t].chain[0].span in s.spans
    requires var id := s.threads[t].chain[0].span;
             && s.spans[id].cl < |c.capacity| && s.spans[id].refcount > 1
             && (s.spans[id].free == [] || (var l := s.lists[s.threads[t].cl]; l.nonempty != [] && l.nonempty[0] == id))
    requires s1 == At(ReleaseOne(c, s, t), t, Fetch(s.threads[t].cl, 1, [], false))
    ensures CanFetch(s1, t) && Collect(s1, t).threads[t].chain == [s.threads[t].chain[0]]
    ensures Collect(s1, t).spans == s.spans
  {
    var o := s.threads[t].chain[0];
    var free := s.spans[o.span].free;
    assert ([o] + free)[..1] == [o] && ([o] + free)[1..] == free;
  }

  /** A span that has just been entered is the first one that objects are taken from, in their order. */
  lemma NewSpanFirst(c: Config, s: State, t: nat, id: int)
    requires Inv(c, s) && t < |s.threads| && s.threads[t].PopulateWait? && s.threads[t].made == Some(id)
    requires id in s.spans && Unlocked(s, s.threads[t].cl)
    ensures var PopulateWait(cl, n, chain, _) := s.threads[t];
            var s1, free := PopulateLocked(s, t), s.spans[id].free;
            && CanFetch(s1, t)
            && Collect(s1, t).threads[t].chain == free[..if n - |chain| < |free| then n - |chain| else |free|] + chain
  {
    assert ChainOk(c, s.threads[t]);
  }
}
