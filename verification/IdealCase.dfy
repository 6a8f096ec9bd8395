/**
 The case the protocol is made for, in terms of the hashes alone: in every group few keys differ, and they are
 thrown into different bins.
 */
module IdealCase {
  import opened Parity
  import opened PbsSpec
  import opened PbsRounds
  import opened PbsTheorems
  import opened PbsWire
  import opened Stores
  import opened Reconciliation

  /** The keys that the hash puts into group g. */
  ghost function Grouped(p: Params, keys: set<Key>, g: nat): set<Key> {
    set x | x in keys && p.hash(x, p.seed % 0x1_0000_0000_0000_0000) % p.numGroups == g
  }

  /** In every group there are at most t of the keys, and the first round's hash throws them into different bins. */
  ghost predicate Apart(p: Params, keys: set<Key>) {
    && (forall g: nat :: g < p.numGroups ==> |Grouped(p, keys, g)| <= p.t)
    && (forall g: nat, x, y :: g < p.numGroups && x in Grouped(p, keys, g) && y in Grouped(p, keys, g) && x != y ==>
          p.hash(x, (p.seed + 142857) % 0x1_0000_0000_0000_0000) % (p.n - 1)
          != p.hash(y, (p.seed + 142857) % 0x1_0000_0000_0000_0000) % (p.n - 1))
  }

  lemma BinsDiffer(p: Params, keys: set<Key>, g: nat, x: Key, y: Key)
    requires Apart(p, keys) && g < p.numGroups && x in Grouped(p, keys, g) && y in Grouped(p, keys, g) && x != y
    ensures BinId(p, x, 0) != BinId(p, y, 0)
  {
    HashIds(p, x, 0);
    HashIds(p, y, 0);
  }

  /** What differs in a group: the differing keys that hash to it. */
  lemma FirstResidual(p: Params, a: seq<Key>, b: seq<Key>, g: nat)
    requires Distinct(a) && Distinct(b) && g < p.numGroups
    ensures Residual(Start(p, a, b), g) == Grouped(p, SymDiff(ToSet(a), ToSet(b)), g)
  {
    OddDistinct(a);
    OddDistinct(b);
    OddFilter(a, GroupIs(p, g));
    OddFilter(b, GroupIs(p, g));
    forall x: Key
      ensures GroupId(p, x) == p.hash(x, p.seed % 0x1_0000_0000_0000_0000) % p.numGroups
    {
      HashIds(p, x, 0);
    }
  }

  /** The bins of a set of keys. */
  ghost function BinsOfKeys(p: Params, keys: set<Key>): set<nat> {
    set x | x in keys :: BinId(p, x, 0)
  }

  lemma {:induction false} NoMoreBins(p: Params, keys: set<Key>)
    ensures |BinsOfKeys(p, keys)| <= |keys|
    decreases |keys|
  {
    if keys == {} {
    } else {
      var x :| x in keys;
      NoMoreBins(p, keys - {x});
      assert BinsOfKeys(p, keys) == BinsOfKeys(p, keys - {x}) + {BinId(p, x, 0)};
    }
  }

  lemma MarkedIsHit(p: Params, st: Pair, g: nat, bin: nat)
    requires Inv(p, st) && g < |st.alice.groups| && st.alice.round == 0 && bin in Merged(p, st, g)
    ensures bin in BinsOfKeys(p, Residual(st, g))
  {
    BinFacts(p, st.alice.groups[g], st.bob.groups[g], 0, bin);
    var x := OddMember(InBinSet(p, Residual(st, g), 0, bin));
  }

  lemma FewMarked(p: Params, st: Pair, g: nat)
    requires Inv(p, st) && g < |st.alice.groups| && st.alice.round == 0
    ensures |Merged(p, st, g)| <= |Residual(st, g)|
  {
    forall bin | bin in Merged(p, st, g)
      ensures bin in BinsOfKeys(p, Residual(st, g))
    {
      MarkedIsHit(p, st, g, bin);
    }
    NoMoreBins(p, Residual(st, g));
    SubsetSize(Merged(p, st, g), BinsOfKeys(p, Residual(st, g)));
  }

  lemma SubsetSize<T>(a: set<T>, b: set<T>)
    requires a <= b
    ensures |a| <= |b|
  {
    assert b == a + (b - a);
    assert |a + (b - a)| == |a| + |b - a|;
  }

  /** Such keys make an ideal start. */
  lemma ApartIsIdeal(p: Params, a: seq<Key>, b: seq<Key>)
    requires Distinct(a) && Distinct(b) && Apart(p, SymDiff(ToSet(a), ToSet(b)))
    ensures IdealStart(p, a, b)
  {
    var st, keys := Start(p, a, b), SymDiff(ToSet(a), ToSet(b));
    StartEverything(p, a, b);
    forall g | 0 <= g < p.numGroups
      ensures Ideal(p, st, g) && |Merged(p, st, g)| <= p.t
    {
      FirstResidual(p, a, b, g);
      forall x, y | x in Residual(st, g) && y in Residual(st, g) && x != y
        ensures BinId(p, x, 0) != BinId(p, y, 0)
      {
        BinsDiffer(p, keys, g, x, y);
      }
      FewMarked(p, st, g);
    }
  }

  /** From the hashes alone: one sketch, and both stores are the union of the two. */
  method ReconcileApart<V>(p: Params, k: Minisketch, a: seq<Key>, b: seq<Key>, client0: Store<V>, server0: Store<V>)
    returns (completed: bool, rounds: nat, client: Store<V>, server: Store<V>)
    requires Works(p, k) && Distinct(a) && Distinct(b) && ToSet(a) == client0.Keys && ToSet(b) == server0.Keys
    requires forall x :: x in client0 && x in server0 ==> client0[x] == server0[x]
    requires Apart(p, SymDiff(client0.Keys, server0.Keys))
    ensures completed && rounds == 1 && client == server == client0 + server0
  {
    ApartIsIdeal(p, a, b);
    completed, rounds, client, server := ReconcileIdeal(p, k, a, b, client0, server0);
  }
}
