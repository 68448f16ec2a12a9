/** What repeated saving and loading does to a map. */
module Rounds {
  import opened Decimal
  import opened Variants

  function AfterRounds(m: VariantMap, n: nat): VariantMap {
    if n == 0 then m else AfterRounds(PruneMap(m), n - 1)
  }

  ghost predicate Stable(m: VariantMap) {
    PruneMap(m) == m
  }

  /** A value that is not a map has depth 0, a map without maps in it depth 1. */
  ghost predicate DepthAtMost(v: Variant, d: nat) {
    v.Map? ==> d > 0 && forall k <- v.m :: DepthAtMost(v.m[k], d - 1)
  }

  lemma {:induction false} StableStays(m: VariantMap, n: nat)
    requires Stable(m)
    ensures AfterRounds(m, n) == m
  {
    if n > 0 {
      StableStays(m, n - 1);
    }
  }

  lemma {:induction false} RoundsAdd(m: VariantMap, n: nat, k: nat)
    ensures AfterRounds(m, n + k) == AfterRounds(AfterRounds(m, n), k)
    decreases n
  {
    if n > 0 {
      RoundsAdd(PruneMap(m), n - 1, k);
    }
  }

  /** An entry that survives a round was pruned itself. */
  lemma PrunedEntry(m: VariantMap, k: string)
    requires k in PruneMap(m)
    ensures k in m && k != [] && Prune(m[k]) == Some(PruneMap(m)[k])
    ensures m[k].Map? <==> PruneMap(m)[k].Map?
    ensures if m[k].Map? then PruneMap(m)[k] == Map(PruneMap(m[k].m)) && m[k].m != map[] else PruneMap(m)[k] == m[k]
  {
    if m[k].Map? {
      assert m[k] == Map(m[k].m);
    }
  }

  lemma SingleEntry(key: string, v: Variant)
    requires key != []
    ensures PruneMap(map[key := v]) == match Prune(v) case None => map[] case Some(w) => map[key := w]
  {
  }

  /** A map settles one round after the maps in it. */
  lemma {:induction false} SettlesAfterEntries(m: VariantMap, d: nat)
    requires d > 0 && forall k <- m :: m[k].Map? ==> Stable(AfterRounds(m[k].m, d - 1))
    ensures Stable(AfterRounds(m, d))
    decreases d
  {
    var m' := PruneMap(m);
    if d == 1 {
      forall k | k in m'
        ensures Prune(m'[k]) == Some(m'[k]) && k != []
      {
        PrunedEntry(m, k);
      }
      assert Stable(m');
    } else {
      forall k | k in m' && m'[k].Map?
        ensures Stable(AfterRounds(m'[k].m, d - 2))
      {
        PrunedEntry(m, k);
      }
      SettlesAfterEntries(m', d - 1);
    }
  }

  /** A map of depth d is left unchanged by every round after the first d. */
  lemma {:induction false} DepthManyRoundsSettle(m: VariantMap, d: nat)
    requires DepthAtMost(Map(m), d)
    ensures Stable(AfterRounds(m, d))
    ensures forall n :: n >= d ==> AfterRounds(m, n) == AfterRounds(m, d)
    decreases d
  {
    forall k | k in m && m[k].Map?
      ensures Stable(AfterRounds(m[k].m, d - 1))
    {
      DepthManyRoundsSettle(m[k].m, d - 1);
    }
    SettlesAfterEntries(m, d);
    forall n: nat | n >= d
      ensures AfterRounds(m, n) == AfterRounds(m, d)
    {
      RoundsAdd(m, d, n - d);
      StableStays(AfterRounds(m, d), n - d);
    }
  }

  // ---- when nothing is lost --------------------------------------------------------------------

  /** A value that is not saved at all. */
  predicate Lost(v: Variant) {
    match v
    case Invalid => true
    case Unsupported(_) => true
    case Str(s) => s == []
    case StrList(list) => list == []
    case Bytes(d) => d == []
    case Map(m) => m == map[]
    case _ => false
  }

  /** Nothing at any depth of the value is lost. */
  predicate Keeps(v: Variant) {
    !Lost(v) && (v.Map? ==> forall k <- v.m :: k != [] && Keeps(v.m[k]))
  }

  lemma LostIsUnsaved(v: Variant)
    ensures Lost(v) <==> Saved(v).None?
    ensures Lost(v) <==> Prune(v).None?
  {
    if v.Scalar() && !v.Str? && !v.Bool? {
      IntegerRoundTrip(if v.Int? then v.i else if v.UInt? then v.u else if v.LongLong? then v.l else v.ul);
    }
  }

  /** A map is unchanged exactly when each of its entries is. */
  lemma StableIsEntrywise(m: VariantMap)
    ensures Stable(m) <==> forall k <- m :: k != [] && Prune(m[k]) == Some(m[k])
  {
    if Stable(m) {
      forall k | k in m
        ensures k != [] && Prune(m[k]) == Some(m[k])
      {
        assert k in PruneMap(m) && PruneMap(m)[k] == m[k];
      }
    }
  }

  lemma {:induction false} KeptExactly(v: Variant)
    ensures Prune(v) == Some(v) <==> Keeps(v)
  {
    if v.Map? {
      forall k | k in v.m
        ensures Prune(v.m[k]) == Some(v.m[k]) <==> Keeps(v.m[k])
      {
        KeptExactly(v.m[k]);
      }
      assert v == Map(v.m);
      StableIsEntrywise(v.m);
    }
  }

  /** One save and load loses nothing exactly when every entry is named and nothing in it is lost. */
  lemma NothingIsLost(m: VariantMap)
    ensures Stable(m) <==> forall k <- m :: k != [] && Keeps(m[k])
  {
    StableIsEntrywise(m);
    forall k | k in m
      ensures Prune(m[k]) == Some(m[k]) <==> Keeps(m[k])
    {
      KeptExactly(m[k]);
    }
  }

  // ---- when one round is enough ----------------------------------------------------------------

  /** Some entry is saved, so that the map does not come back empty. */
  predicate SavesSome(m: VariantMap) {
    exists j <- m :: j != [] && !Lost(m[j])
  }

  /** No map below that holds anything comes back empty. */
  predicate OneRound(v: Variant) {
    v.Map? ==> forall k <- v.m :: k != [] && v.m[k].Map? && v.m[k].m != map[] ==> SavesSome(v.m[k].m) && OneRound(v.m[k])
  }

  lemma SavesSomeIsExact(m: VariantMap)
    ensures SavesSome(m) <==> PruneMap(m) != map[]
  {
    forall j | j in m
      ensures Lost(m[j]) <==> Prune(m[j]).None?
    {
      LostIsUnsaved(m[j]);
    }
    if SavesSome(m) {
      var j :| j in m && j != [] && !Lost(m[j]);
      assert j in PruneMap(m);
    } else {
      assert PruneMap(m) == map[];
    }
  }

  /** What a second round does to an entry that came out of the first. */
  lemma SecondRound(m: VariantMap, k: string)
    requires k in PruneMap(m)
    ensures var w := PruneMap(m)[k];
            Prune(w) == Some(w) <==> (m[k].Map? ==> SavesSome(m[k].m) && Stable(PruneMap(m[k].m)))
  {
    PrunedEntry(m, k);
    if m[k].Map? {
      SavesSomeIsExact(m[k].m);
    }
  }

  /** A second round changes nothing exactly when no map below that holds anything loses all its entries in the first. */
  lemma {:induction false} OneRoundIsEnough(m: VariantMap)
    ensures Stable(PruneMap(m)) <==> OneRound(Map(m))
    decreases Map(m)
  {
    var m' := PruneMap(m);
    StableIsEntrywise(m');
    forall k | k in m'
      ensures k in m && k != []
      ensures Prune(m'[k]) == Some(m'[k]) <==> (m[k].Map? && m[k].m != map[] ==> SavesSome(m[k].m) && OneRound(m[k]))
    {
      PrunedEntry(m, k);
      SecondRound(m, k);
      if m[k].Map? {
        assert m[k] == Map(m[k].m);
        OneRoundIsEnough(m[k].m);
      }
    }
    forall k | k in m && k != [] && m[k].Map? && m[k].m != map[]
      ensures k in m'
    {
      assert Prune(m[k]).Some?;
    }
  }

  // ---- fewer rounds are not enough -------------------------------------------------------------

  /** Nested maps around a map with one empty text. */
  function Chain(d: nat): VariantMap
    requires d > 0
  {
    if d == 1 then map["a" := Str([])] else map["a" := Map(Chain(d - 1))]
  }

  /** Nested maps around an empty one. */
  function Shell(d: nat): VariantMap {
    if d == 0 then map[] else map["a" := Map(Shell(d - 1))]
  }

  lemma {:induction false} ShellLosesOne(d: nat)
    ensures d > 0 ==> PruneMap(Shell(d)) == Shell(d - 1)
  {
    if d > 1 {
      ShellLosesOne(d - 1);
      SingleEntry("a", Map(Shell(d - 1)));
    } else if d == 1 {
      SingleEntry("a", Map(Shell(0)));
    }
  }

  lemma {:induction false} ChainBecomesShell(d: nat)
    requires d > 0
    ensures PruneMap(Chain(d)) == Shell(d - 1) && DepthAtMost(Map(Chain(d)), d)
  {
    if d > 1 {
      ChainBecomesShell(d - 1);
      SingleEntry("a", Map(Chain(d - 1)));
    } else {
      SingleEntry("a", Str([]));
    }
  }

  lemma {:induction false} ShellAfterRounds(d: nat, n: nat)
    requires n <= d
    ensures AfterRounds(Shell(d), n) == Shell(d - n)
    decreases n
  {
    if n > 0 {
      ShellLosesOne(d);
      ShellAfterRounds(d - 1, n - 1);
    }
  }

  lemma ShellUnsettled()
    ensures !Stable(Shell(1))
  {
    ShellLosesOne(1);
    assert "a" in Shell(1);
  }

  /** For every depth there is a map that needs all the rounds. */
  lemma NoFewerRoundsSettle(d: nat)
    requires d > 0
    ensures DepthAtMost(Map(Chain(d)), d)
    ensures !Stable(AfterRounds(Chain(d), d - 1)) && AfterRounds(Chain(d), d) == map[]
  {
    ChainBecomesShell(d);
    ShellAfterRounds(d - 1, d - 1);
    if d > 1 {
      ShellAfterRounds(d - 1, d - 2);
      ShellUnsettled();
    } else {
      assert "a" in Chain(1);
    }
  }
}
