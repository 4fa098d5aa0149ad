/** A log of single pages taken one after the other. */
module PageLog {
  import opened Sequences

  /** `live` with the order-0 allocations `pages` added. */
  function Adding(live: map<nat, nat>, pages: set<nat>): map<nat, nat>
  {
    live + (map p | p in pages :: 0)
  }

  /** The pages `ps`, distinct and free before, are live single pages afterwards. */
  ghost predicate TookAll(live: map<nat, nat>, free: set<nat>, ps: seq<nat>, live': map<nat, nat>, free': set<nat>)
  {
    var s := Elements(ps);
    && |s| == |ps| && s <= free && s !! live.Keys
    && live' == Adding(live, s) && free' == free - s && |free'| == |free| - |ps|
  }

  lemma TookNone(live: map<nat, nat>, free: set<nat>)
    ensures TookAll(live, free, [], live, free)
    ensures forall live', free' | TookAll(live, free, [], live', free') :: live' == live && free' == free
  {
    assert Elements([]) == {};
    assert Adding(live, {}) == live;
  }

  lemma AddingOne(live: map<nat, nat>, s: set<nat>, p: nat)
    ensures Adding(live, s)[p := 0] == Adding(live, s + {p})
  {
  }

  lemma TookOneMore(live: map<nat, nat>, free: set<nat>, ps: seq<nat>, live': map<nat, nat>, free': set<nat>, p: nat)
    requires TookAll(live, free, ps, live', free') && p in free' && p !in live'
    ensures TookAll(live, free, ps + [p], live'[p := 0], free' - {p})
  {
    assert Elements(ps + [p]) == Elements(ps) + {p};
    TookSet(live, free, Elements(ps), p);
    assert |free' - {p}| == |free'| - 1;
  }

  lemma TookSet(live: map<nat, nat>, free: set<nat>, s: set<nat>, p: nat)
    requires s <= free && s !! live.Keys && p in free - s && p !in Adding(live, s)
    ensures |s + {p}| == |s| + 1 && s + {p} <= free && s + {p} !! live.Keys
    ensures Adding(live, s)[p := 0] == Adding(live, s + {p}) && free - s - {p} == free - (s + {p})
  {
    AddingOne(live, s, p);
  }

  lemma AddingUndone(live: map<nat, nat>, s: set<nat>, p: nat)
    requires p !in live && p !in s
    ensures Adding(live, s + {p}) - {p} == Adding(live, s)
    ensures p in Adding(live, s + {p}) && Adding(live, s + {p})[p] == 0
  {
  }

  function Without(ps: seq<nat>, i: nat): seq<nat>
    requires i < |ps|
  {
    ps[..i] + ps[i + 1..]
  }

  /** Any page taken can be given back. */
  lemma TookOneLess(live: map<nat, nat>, free: set<nat>, ps: seq<nat>, live': map<nat, nat>, free': set<nat>, i: nat)
    requires TookAll(live, free, ps, live', free') && i < |ps|
    ensures ps[i] in live' && live'[ps[i]] == 0
    ensures TookAll(live, free, Without(ps, i), live' - {ps[i]}, free' + {ps[i]})
  {
    var p, q := ps[i], Without(ps, i);
    assert Elements(ps) == Elements(q) + {p} by {
      assert ps == ps[..i] + [p] + ps[i + 1..];
    }
    SizeAtMost(q);
    assert p !in q by {
      assert p in q ==> Elements(ps) == Elements(q);
    }
    AddingUndone(live, Elements(q), p);
    assert free' + {p} == free - Elements(q);
  }
}
