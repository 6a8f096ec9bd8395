/**
 The class `ParityBitmapSketch` with its parallel arrays, proved against the one-host specification.
 */
module PbsSketch {
  import opened Wrappers
  import opened Arithmetic
  import opened Parity
  import opened PbsSpec
  import opened PbsTables

  datatype Role = Alice | Bob | Undetermined

  /** A minisketch holds nonzero values; adding one a second time removes it. */
  function SketchAdd(sketch: set<nat>, e: nat): set<nat> {
    if e == 0 then sketch else SymDiff(sketch, {e})
  }

  /** What decoding a sketch may return: up to its capacity the values it holds, beyond it a failure or
      any t distinct values. That these lie in 1..n-1 is an assumption: n itself would also fit m bits. */
  ghost predicate DecodeResult(p: Params, sketch: set<nat>, r: Option<seq<nat>>) {
    && (|sketch| <= p.t ==> r.Some? && ToSet(r.value) == sketch)
    && (r.Some? ==> |r.value| <= p.t && Distinct(r.value) && InRow(p, r.value))
  }

  /** Decode results for the merged sketches of all groups. */
  ghost predicate DecodeResults(p: Params, mine: seq<set<nat>>, other: seq<set<nat>>, results: seq<Option<seq<nat>>>) {
    && |mine| == |other| == |results|
    && forall g :: 0 <= g < |mine| ==> DecodeResult(p, SymDiff(mine[g], other[g]), results[g])
  }

  ghost predicate AllInRow(p: Params, results: seq<Option<seq<nat>>>) {
    forall g :: 0 <= g < |results| && results[g].Some? ==> InRow(p, results[g].value)
  }

  lemma ResultsBounded(p: Params, mine: seq<set<nat>>, other: seq<set<nat>>, results: seq<Option<seq<nat>>>)
    requires DecodeResults(p, mine, other, results)
    ensures AllInRow(p, results)
  {
    forall g | 0 <= g < |results| && results[g].Some?
      ensures InRow(p, results[g].value)
    {
      assert DecodeResult(p, SymDiff(mine[g], other[g]), results[g]);
    }
  }

  ghost predicate InRow(p: Params, bins: seq<nat>) {
    forall i :: 0 <= i < |bins| ==> 1 <= bins[i] < p.n
  }

  function CountOf(r: Option<seq<nat>>): int {
    if r.None? then -1 else |r.value|
  }

  function BinsOf(r: Option<seq<nat>>): seq<nat> {
    if r.None? then [] else r.value
  }

  lemma OffsetPrefix(counts: seq<int>, more: seq<int>, k: nat)
    requires k <= |counts|
    ensures Offset(counts + more, k) == Offset(counts, k) && Rank(counts + more, k) == Rank(counts, k)
  {
    if k == 0 {
    } else {
      OffsetPrefix(counts, more, k - 1);
    }
  }

  /** The message that reports the given decode results. */
  function Pack(rs: seq<Option<seq<nat>>>): (msg: DecodingMessage)
    ensures |msg.counts| == |rs| && WellSized(msg)
    ensures forall g :: 0 <= g < |rs| ==> msg.counts[g] == CountOf(rs[g])
  {
    if rs == [] then DecodingMessage([], [])
    else
      var k := |rs| - 1;
      var init := Pack(rs[..k]);
      OffsetPrefix(init.counts, [CountOf(rs[k])], k);
      DecodingMessage(init.counts + [CountOf(rs[k])], init.diffs + BinsOf(rs[k]))
  }

  lemma SlicePrefix<T>(s: seq<T>, t: seq<T>, i: nat, j: nat)
    requires i <= j <= |s|
    ensures (s + t)[i..j] == s[i..j] && (s + t)[|s|..] == t
  {
  }

  lemma PackLast(rs: seq<Option<seq<nat>>>)
    requires rs != []
    ensures Bins(Pack(rs), |rs| - 1) == BinsOf(rs[|rs| - 1])
  {
    var k := |rs| - 1;
    var init := Pack(rs[..k]);
    OffsetPrefix(init.counts, [CountOf(rs[k])], k);
    SlicePrefix(init.diffs, BinsOf(rs[k]), 0, 0);
  }

  lemma PackEarlier(rs: seq<Option<seq<nat>>>, g: nat)
    requires g < |rs| - 1
    ensures Bins(Pack(rs), g) == Bins(Pack(rs[..|rs| - 1]), g)
  {
    var k := |rs| - 1;
    var init, last := Pack(rs[..k]), CountOf(rs[k]);
    OffsetPrefix(init.counts, [last], g);
    OffsetPrefix(init.counts, [last], g + 1);
    OffsetMonotone(init.counts, g, g + 1);
    OffsetMonotone(init.counts, g + 1, k);
    SlicePrefix(init.diffs, BinsOf(rs[k]), Offset(init.counts, g), Offset(init.counts, g + 1));
  }

  lemma {:induction false} PackBins(rs: seq<Option<seq<nat>>>, g: nat)
    requires g < |rs|
    ensures Bins(Pack(rs), g) == BinsOf(rs[g])
  {
    if g == |rs| - 1 {
      PackLast(rs);
    } else {
      PackEarlier(rs, g);
      PackBins(rs[..|rs| - 1], g);
    }
  }

  ghost predicate BinsInRow(p: Params, msg: DecodingMessage) {
    forall i :: 0 <= i < |msg.diffs| ==> 1 <= msg.diffs[i] < p.n
  }

  lemma PackInRow(p: Params, rs: seq<Option<seq<nat>>>)
    requires AllInRow(p, rs)
    ensures BinsInRow(p, Pack(rs))
  {
    if rs == [] {
    } else {
      PackInRow(p, rs[..|rs| - 1]);
    }
  }

  /** Group g's slices of the reply. */
  lemma SlicesAt(p: Params, y: Reply, g: nat)
    requires Complete(y) && g < |y.msg.counts| && 0 <= y.msg.counts[g]
    ensures Offset(y.msg.counts, g) + y.msg.counts[g] <= |y.msg.diffs|
    ensures Offset(y.msg.counts, g) + y.msg.counts[g] <= |y.xors|
    ensures Rank(y.msg.counts, g) < |y.checksums|
    ensures y.msg.diffs[Offset(y.msg.counts, g)..Offset(y.msg.counts, g) + y.msg.counts[g]] == Bins(y.msg, g)
    ensures y.xors[Offset(y.msg.counts, g)..Offset(y.msg.counts, g) + y.msg.counts[g]] == Theirs(y, g)
    ensures y.checksums[Rank(y.msg.counts, g)] == Checksum(y, g)
    ensures BinsInRow(p, y.msg) ==> InRow(p, Bins(y.msg, g))
  {
    OffsetMonotone(y.msg.counts, g + 1, |y.msg.counts|);
  }

  // ---------- stepwise forms of the specification functions ----------

  lemma ThreeWaySnoc(p: Params, s: seq<Key>, e: Key, round: nat)
    ensures var i := SplitId(p, e, round);
            ThreeWay(p, s + [e], round) == ThreeWay(p, s, round)[i := ThreeWay(p, s, round)[i] + [e]]
  {
    assert (s + [e])[..|s|] == s;
  }

  lemma SplitAllSnoc(p: Params, groups: seq<seq<Key>>, ids: seq<nat>, g: nat, round: nat)
    requires Below(ids, |groups|) && g < |groups|
    ensures SplitAll(p, Pick(groups, ids + [g]), round)
            == SplitAll(p, Pick(groups, ids), round) + ThreeWay(p, groups[g], round)
  {
    assert Pick(groups, ids + [g])[..|ids|] == Pick(groups, ids);
  }

  lemma RepeatEachSnoc(p: Params, home: seq<nat>, ids: seq<nat>, g: nat)
    requires Below(ids, |home|) && g < |home|
    ensures RepeatEach(p, Pick(home, ids + [g])) == RepeatEach(p, Pick(home, ids)) + Copies(p.c, home[g])
  {
    assert Pick(home, ids + [g])[..|ids|] == Pick(home, ids);
  }

  lemma OddBinsSnoc(p: Params, s: seq<Key>, e: Key, round: nat, b: nat)
    requires 1 <= b < p.n
    ensures b in OddBins(p, s + [e], round) <==> (b in OddBins(p, s, round)) != (b == BinId(p, e, round))
  {
    assert (s + [e])[..|s|] == s;
  }

  lemma RecoverSnoc(p: Params, home: nat, round: nat, bins: seq<nat>, theirs: seq<Key>, mine: seq<Key>, k: nat)
    requires |bins| == |theirs| && k < |bins|
    ensures var rest := Recover(p, home, round, bins[..k], theirs[..k], mine);
            var e := Xor(theirs[k], BinXor(p, mine, round, bins[k]));
            Recover(p, home, round, bins[..k + 1], theirs[..k + 1], mine)
            == if BinId(p, e, round) == bins[k] && GroupId(p, e) == home then rest + [e] else rest
  {
    assert bins[..k + 1][..k] == bins[..k] && theirs[..k + 1][..k] == theirs[..k];
  }

  lemma AppendTail<T>(s: seq<T>, k: nat, x: seq<T>)
    requires k <= |s|
    ensures (s + x)[k..] == s[k..] + x && (s + x)[..k] == s[..k]
  {
  }

  lemma UpdateTail<T>(s: seq<T>, k: nat, i: nat, v: T, x: seq<T>)
    requires i < k <= |s|
    ensures (s[i := v] + x)[k..] == s[k..] + x
    ensures forall j :: i < j < k ==> (s[i := v] + x)[j] == s[j]
  {
  }

  lemma TakeAll<T>(s: seq<T>)
    ensures s[..|s|] == s && s[|s|..] == []
  {
  }

  lemma EmptiesSum(j: nat, k: nat)
    ensures Empties(j) + Empties(k) == Empties(j + k)
  {
  }

  // ---------- what a round appends, group by group ----------

  /** Appended groups and homes, the ids of the groups they come from, and recovered keys. */
  datatype Tail = Tail(groups: seq<seq<Key>>, home: seq<nat>, ids: seq<nat>, recovered: seq<Key>)

  /** After splitting the failed ones of the first k groups. */
  function SplitTail(p: Params, s: Side, counts: seq<int>, k: nat): Tail
    requires k <= |counts| == |s.groups| == |s.home|
  {
    if k == 0 then Tail([], [], [], [])
    else
      var t := SplitTail(p, s, counts, k - 1);
      if 0 <= counts[k - 1] then t
      else Tail(t.groups + ThreeWay(p, s.groups[k - 1], s.round), t.home + Copies(p.c, s.home[k - 1]),
                t.ids + [k - 1], [])
  }

  /** After also checking the decoded ones of the first k groups. */
  function CheckTail(p: Params, s: Side, y: Reply, k: nat): Tail
    requires Fits(s, y) && k <= |s.groups|
  {
    if k == 0 then SplitTail(p, s, y.msg.counts, |s.groups|).(ids := [], recovered := [])
    else
      var t := CheckTail(p, s, y, k - 1);
      if y.msg.counts[k - 1] < 0 then t
      else
        var rec := GroupRecovered(p, s, y, k - 1);
        if GroupDone(p, s, y, k - 1) then t.(recovered := t.recovered + rec)
        else Tail(t.groups + [s.groups[k - 1] + rec], t.home + [s.home[k - 1]], t.ids + [k - 1], t.recovered + rec)
  }

  lemma {:induction false} SplitTailIds(p: Params, s: Side, counts: seq<int>, k: nat)
    requires k <= |counts| == |s.groups| == |s.home|
    ensures SplitTail(p, s, counts, k).ids == FailedBelow(counts, k) && SplitTail(p, s, counts, k).recovered == []
  {
    if k == 0 {
    } else {
      SplitTailIds(p, s, counts, k - 1);
    }
  }

  lemma {:induction false} SplitTailGroups(p: Params, s: Side, counts: seq<int>, k: nat)
    requires k <= |counts| == |s.groups| == |s.home|
    ensures SplitTail(p, s, counts, k).groups == SplitAll(p, Pick(s.groups, FailedBelow(counts, k)), s.round)
  {
    if k == 0 {
    } else {
      SplitTailGroups(p, s, counts, k - 1);
      FailedStep(counts, k - 1);
      if counts[k - 1] < 0 {
        SplitAllSnoc(p, s.groups, FailedBelow(counts, k - 1), k - 1, s.round);
      }
    }
  }

  lemma {:induction false} SplitTailHome(p: Params, s: Side, counts: seq<int>, k: nat)
    requires k <= |counts| == |s.groups| == |s.home|
    ensures SplitTail(p, s, counts, k).home == RepeatEach(p, Pick(s.home, FailedBelow(counts, k)))
  {
    if k == 0 {
    } else {
      SplitTailHome(p, s, counts, k - 1);
      FailedStep(counts, k - 1);
      if counts[k - 1] < 0 {
        RepeatEachSnoc(p, s.home, FailedBelow(counts, k - 1), k - 1);
      }
    }
  }

  lemma FailedStep(counts: seq<int>, k: nat)
    requires k < |counts|
    ensures FailedBelow(counts, k + 1) == FailedBelow(counts, k) + if counts[k] < 0 then [k] else []
  {
  }

  lemma SplitTailIs(p: Params, s: Side, counts: seq<int>)
    requires |counts| == |s.groups| == |s.home|
    ensures var t, ids := SplitTail(p, s, counts, |counts|), Failed(counts);
            && t.groups == SplitAll(p, Pick(s.groups, ids), s.round)
            && t.home == RepeatEach(p, Pick(s.home, ids))
            && t.ids == ids && t.recovered == []
  {
    SplitTailIds(p, s, counts, |counts|);
    SplitTailGroups(p, s, counts, |counts|);
    SplitTailHome(p, s, counts, |counts|);
  }

  lemma KeptSnoc(groups: seq<seq<Key>>, recs: seq<seq<Key>>, ids: seq<nat>, g: nat)
    requires |recs| == |groups| && Below(ids, |groups|) && g < |groups|
    ensures Kept(groups, recs, ids + [g]) == Kept(groups, recs, ids) + [groups[g] + recs[g]]
  {
  }

  lemma PickSnoc<T>(s: seq<T>, ids: seq<nat>, g: nat)
    requires Below(ids, |s|) && g < |s|
    ensures Pick(s, ids + [g]) == Pick(s, ids) + [s[g]]
  {
  }

  lemma PickPrefix<T>(s: seq<T>, ids: seq<nat>, k: nat)
    requires Below(ids, |s|) && k < |ids|
    ensures Pick(s, ids[..k + 1]) == Pick(s, ids[..k]) + [s[ids[k]]]
  {
  }

  lemma SelectSnoc(fates: seq<Fate>, f: Fate, k: nat)
    requires k < |fates|
    ensures Select(fates[..k + 1], f) == if fates[k] == f then Select(fates[..k], f) + [k] else Select(fates[..k], f)
  {
    assert fates[..k + 1][..k] == fates[..k];
  }

  lemma FlattenPrefix(recs: seq<seq<Key>>, k: nat)
    requires k < |recs|
    ensures Flatten(recs[..k + 1]) == Flatten(recs[..k]) + recs[k]
  {
    assert recs[..k + 1] == recs[..k] + [recs[k]];
    FlattenSnoc(recs[..k], recs[k]);
  }

  lemma AppendNothing<T>(s: seq<T>, t: seq<T>)
    requires t == []
    ensures s + t == s
  {
  }

  lemma EncodedStep(groups: seq<seq<Key>>, k: nat)
    requires k < |groups|
    ensures (groups[..k] + Empties(|groups| - k))[k] == []
    ensures (groups[..k] + Empties(|groups| - k))[k := groups[k]] == groups[..k + 1] + Empties(|groups| - (k + 1))
  {
  }

  lemma AppendOne<T>(s: seq<T>, t: seq<T>, e: T)
    ensures s + (t + [e]) == (s + t) + [e]
  {
  }

  /** The group-by-group form agrees with the specification of the round. */
  lemma {:induction false} CheckTailIs(p: Params, s: Side, y: Reply, fates: seq<Fate>, recs: seq<seq<Key>>, k: nat)
    requires Fits(s, y) && k <= |s.groups| && fates == Fates(p, s, y) && recs == Recs(p, s, y)
    ensures var failed, ids := Failed(y.msg.counts), Select(fates[..k], Carried);
            && CheckTail(p, s, y, k).groups == SplitAll(p, Pick(s.groups, failed), s.round) + Kept(s.groups, recs, ids)
            && CheckTail(p, s, y, k).home == RepeatEach(p, Pick(s.home, failed)) + Pick(s.home, ids)
            && CheckTail(p, s, y, k).ids == ids && CheckTail(p, s, y, k).recovered == Flatten(recs[..k])
  {
    var failed := Failed(y.msg.counts);
    if k == 0 {
      SplitTailIs(p, s, y.msg.counts);
      AppendNothing(SplitAll(p, Pick(s.groups, failed), s.round), Kept(s.groups, recs, []));
      AppendNothing(RepeatEach(p, Pick(s.home, failed)), Pick(s.home, []));
    } else {
      var g := k - 1;
      var ids := Select(fates[..g], Carried);
      CheckTailIs(p, s, y, fates, recs, g);
      SelectSnoc(fates, Carried, g);
      FlattenPrefix(recs, g);
      if y.msg.counts[g] < 0 {
        AppendNothing(Flatten(recs[..g]), recs[g]);
      } else if !GroupDone(p, s, y, g) {
        KeptSnoc(s.groups, recs, ids, g);
        PickSnoc(s.home, ids, g);
        AppendOne(SplitAll(p, Pick(s.groups, failed), s.round), Kept(s.groups, recs, ids), s.groups[g] + recs[g]);
        AppendOne(RepeatEach(p, Pick(s.home, failed)), Pick(s.home, ids), s.home[g]);
      }
    }
  }

  lemma CheckTailIsNext(p: Params, s: Side, y: Reply)
    requires Fits(s, y)
    ensures var t, n := CheckTail(p, s, y, |s.groups|), AliceNext(p, s, Fates(p, s, y), Recs(p, s, y));
            && t.groups == n.groups && t.home == n.home && t.ids == Select(Fates(p, s, y), Carried)
            && t.recovered == Flatten(Recs(p, s, y))
  {
    var fates, recs := Fates(p, s, y), Recs(p, s, y);
    CheckTailIs(p, s, y, fates, recs, |s.groups|);
    TakeAll(fates);
    TakeAll(recs);
    SelectSplit(fates, y.msg.counts);
  }

  class ParityBitmapSketch {
    const p: Params
    var groups: seq<seq<Key>>        // element groups
    var home: seq<nat>               // to_original_group_id_
    var xors: seq<Key>               // XOR of each bin, n bins a group
    var checksums: seq<Key>          // XOR of each group
    var live: nat                    // num_groups_remaining_
    var round: nat
    var role: Role
    var hintMaxRange: nat
    var groupsExp: seq<nat>          // groups with a wrong checksum
    var groupsBchFailed: seq<nat>    // groups whose decoding failed
    var recovered: seq<seq<Key>>
    var sketches: seq<set<nat>>      // the sketches of the last encoding message

    /** The lists the tables currently are the XORs of, and the round whose bins they use. */
    ghost var encoded: seq<seq<Key>>
    ghost var tableRound: nat

    /** The four arrays are aligned. */
    ghost predicate Valid()
      reads this
    {
      && |home| == |groups| == |encoded|
      && live <= |groups|
      && Tables(p, xors, checksums, tableRound, encoded)
    }

    ghost function State(): Side
      reads this
    {
      Side(groups, home, round)
    }

    /** Ready to encode: every XOR and checksum is zero. */
    ghost predicate Fresh()
      reads this
    {
      Valid() && live == |groups| && encoded == Empties(|groups|) && tableRound == round
        && Below(groupsExp, hintMaxRange)
    }

    ghost predicate Encoded()
      reads this
    {
      Valid() && live == |groups| == |sketches| && encoded == groups && tableRound == round
    }

    /** Bob's side at the start of the round he has just decoded. */
    ghost function Base(): Side
      requires Valid() && 1 <= round
      reads this
    {
      Side(groups[..live], home[..live], round - 1)
    }

    /** Bob between his decoding and the next hint: subgroups are appended, finished groups not yet erased. */
    ghost predicate Pending()
      reads this
    {
      && Valid() && role == Bob && 1 <= round && groupsExp == []
      && Below(groupsBchFailed, live)
      && groups[live..] == SplitAll(p, Pick(Base().groups, groupsBchFailed), round - 1)
      && home[live..] == RepeatEach(p, Pick(Base().home, groupsBchFailed))
      && encoded[live..] == Empties(|groups| - live)
    }

    constructor (params: Params)
      ensures Fresh() && p == params
      ensures groups == Empties(p.numGroups) && home == seq(p.numGroups, g => g) && round == 0
      ensures role == Undetermined && hintMaxRange == p.numGroups
      ensures groupsExp == [] && groupsBchFailed == [] && recovered == []
    {
      p := params;
      groups := Empties(params.numGroups);
      home := seq(params.numGroups, g => g);
      checksums := Zeros(params.numGroups);
      xors := Zeros(Area(params.n, params.numGroups));
      live, round, role, hintMaxRange := params.numGroups, 0, Undetermined, params.numGroups;
      groupsExp, groupsBchFailed, recovered, sketches := [], [], [], [];
      encoded, tableRound := Empties(params.numGroups), 0;
      new;
      TablesGrow(p, [], [], 0, [], p.numGroups);
      assert [] + Zeros(Area(p.n, p.numGroups)) == xors && [] + Zeros(p.numGroups) == checksums;
      assert [] + Empties(p.numGroups) == encoded;
    }

    method Add(e: Key)
      requires Fresh() && |groups| == p.numGroups
      modifies this`groups
      ensures Fresh()
      ensures groups == old(groups)[GroupId(p, e) := old(groups)[GroupId(p, e)] + [e]]
      ensures var g := p.hash(e, p.seed % 0x1_0000_0000_0000_0000) % p.numGroups;
              groups == old(groups)[g := old(groups)[g] + [e]]
    {
      HashIds(p, e, round);
      var gid := GroupId(p, e);
      groups := groups[gid := groups[gid] + [e]];
    }

    /** XOR one key into its bin and its group's checksum. */
    method Accumulate(gid: nat, elm: Key)
      requires Valid() && tableRound == round && gid < |groups|
      modifies this`xors, this`checksums, this`encoded
      ensures Valid() && encoded == old(encoded)[gid := old(encoded)[gid] + [elm]]
    {
      TablesAdd(p, xors, checksums, round, encoded, gid, elm);
      var cell := Cell(p.n, gid, BinId(p, elm, round));
      xors := xors[cell := Xor(xors[cell], elm)];
      checksums := checksums[gid := Xor(checksums[gid], elm)];
      encoded := encoded[gid := encoded[gid] + [elm]];
    }

    method FillSketch(bitmap: array<bool>) returns (sketch: set<nat>)
      requires bitmap.Length == p.n
      ensures sketch == set b: nat | 1 <= b < p.n && bitmap[b]
    {
      sketch := {};
      var k := 0;
      while k < p.n
        invariant k <= p.n
        invariant sketch == set b: nat | 1 <= b < k && bitmap[b]
      {
        if bitmap[k] {
          sketch := SketchAdd(sketch, k);
        }
        k := k + 1;
      }
    }

    method DoEncode(gid: nat) returns (sketch: set<nat>)
      requires Valid() && tableRound == round && gid < |groups| && encoded[gid] == []
      modifies this`xors, this`checksums, this`encoded
      ensures Valid() && encoded == old(encoded)[gid := groups[gid]]
      ensures sketch == OddBins(p, groups[gid], round)
      ensures forall b :: b in sketch <==> 1 <= b < p.n && |HashedTo(p, groups[gid], round, b)| % 2 == 1
    {
      var bitmap := new bool[p.n](_ => false);
      var k := 0;
      while k < |groups[gid]|
        invariant k <= |groups[gid]|
        invariant Valid() && encoded == old(encoded)[gid := groups[gid][..k]]
        invariant forall b :: 1 <= b < p.n ==> (bitmap[b] <==> b in OddBins(p, groups[gid][..k], round))
      {
        var elm := groups[gid][k];
        var loc := BinId(p, elm, round);
        assert groups[gid][..k + 1] == groups[gid][..k] + [elm];
        forall b | 1 <= b < p.n
          ensures b in OddBins(p, groups[gid][..k + 1], round)
                  <==> (b in OddBins(p, groups[gid][..k], round)) != (b == loc)
        {
          OddBinsSnoc(p, groups[gid][..k], elm, round, b);
        }
        bitmap[loc] := !bitmap[loc];
        Accumulate(gid, elm);
        k := k + 1;
      }
      assert groups[gid][..k] == groups[gid];
      sketch := FillSketch(bitmap);
      forall b: nat
        ensures b in OddBins(p, groups[gid], round)
                <==> 1 <= b < p.n && |HashedTo(p, groups[gid], round, b)| % 2 == 1
      {
        OddBinsHash(p, groups[gid], round, b);
      }
    }

    method EncodeAll() returns (out: seq<set<nat>>)
      requires Fresh()
      modifies this`xors, this`checksums, this`encoded, this`sketches
      ensures Encoded() && out == sketches
      ensures forall g :: 0 <= g < live ==> sketches[g] == OddBins(p, groups[g], round)
    {
      out := [];
      var gid := 0;
      while gid < live
        invariant gid <= live
        invariant Valid() && encoded == groups[..gid] + Empties(live - gid)
        invariant |out| == gid && forall g :: 0 <= g < gid ==> out[g] == OddBins(p, groups[g], round)
      {
        EncodedStep(groups, gid);
        var sketch := DoEncode(gid);
        out := out + [sketch];
        gid := gid + 1;
      }
      AppendNothing(groups[..gid], Empties(0));
      TakeAll(groups);
      sketches := out;
    }

    /** The hint is absent when there were no exceptions. Its ids are in range, so none is rejected. */
    method Encode() returns (out: seq<set<nat>>, hint: Option<seq<nat>>)
      requires Fresh()
      modifies this`xors, this`checksums, this`encoded, this`sketches, this`groupsExp
      ensures Encoded() && out == sketches
      ensures forall g :: 0 <= g < live ==> sketches[g] == OddBins(p, groups[g], round)
      ensures groupsExp == [] && hint == if old(groupsExp) == [] then None else Some(old(groupsExp))
      ensures hint.Some? ==> Below(hint.value, hintMaxRange)
    {
      out := EncodeAll();
      hint := None;
      if groupsExp != [] {
        hint := Some(groupsExp);
        groupsExp := [];
      }
    }

    /** Append c subgroups and push each key of group gid into the one it hashes to. */
    method Distribute(gid: nat)
      requires gid < |groups|
      modifies this`groups
      ensures groups == old(groups) + ThreeWay(p, old(groups)[gid], round)
    {
      var oldSize, all := |groups|, groups[gid];
      groups := groups + Empties(p.c);
      var k := 0;
      assert ThreeWay(p, all[..0], round) == Empties(p.c);
      while k < |all|
        invariant k <= |all|
        invariant groups == old(groups) + ThreeWay(p, all[..k], round)
      {
        var e := all[k];
        var index := SplitId(p, e, round);
        ThreeWaySnoc(p, all[..k], e, round);
        assert all[..k + 1] == all[..k] + [e];
        groups := groups[oldSize + index := groups[oldSize + index] + [e]];
        k := k + 1;
      }
      assert all[..k] == all;
    }

    method ThreeWaySplit(gid: nat)
      requires Valid() && gid < |groups|
      modifies this`groups, this`home, this`xors, this`checksums, this`encoded
      ensures Valid()
      ensures groups == old(groups) + ThreeWay(p, old(groups)[gid], round)
      ensures home == old(home) + Copies(p.c, old(home)[gid])
      ensures encoded == old(encoded) + Empties(p.c)
    {
      TablesGrow(p, xors, checksums, tableRound, encoded, p.c);
      Distribute(gid);
      xors := xors + Zeros(Area(p.n, p.c));
      checksums := checksums + Zeros(p.c);
      home := home + Copies(p.c, home[gid]);
      encoded := encoded + Empties(p.c);
    }

    method EraseRows()
      requires Valid() && encoded[live..] == Empties(|groups| - live)
      modifies this`xors, this`checksums, this`encoded, this`tableRound
      ensures encoded == Empties(|groups| - live) && tableRound == round
      ensures Tables(p, xors, checksums, round, encoded)
    {
      TablesErase(p, xors, checksums, tableRound, encoded, live);
      xors := xors[Area(p.n, live)..];
      checksums := checksums[live..];
      encoded := encoded[live..];
      TablesEmpty(p, xors, checksums, tableRound, |encoded|, round);
      tableRound := round;
    }

    method RemoveCompletedGroups()
      requires Valid() && encoded[live..] == Empties(|groups| - live)
      requires if role == Alice then Below(groupsExp, live) else groupsExp == []
      modifies this`groups, this`home, this`xors, this`checksums, this`live, this`hintMaxRange, this`encoded,
               this`tableRound
      ensures Fresh()
      ensures groups == old(groups)[old(live)..] && home == old(home)[old(live)..]
      ensures hintMaxRange == if role == Alice then old(live) else old(hintMaxRange)
    {
      if role == Alice {
        hintMaxRange := live;
      }
      EraseRows();
      groups := groups[live..];
      home := home[live..];
      live := |groups|;
    }

    /** Append the listed groups at the back; the old entries are left empty (moved from). */
    method MoveToBack(ids: seq<nat>)
      requires live <= |groups| == |home| && Below(ids, live) && Distinct(ids)
      modifies this`groups, this`home
      ensures |groups| == |old(groups)| + |ids|
      ensures groups[live..] == old(groups)[live..] + Pick(old(groups), ids)
      ensures home == old(home) + Pick(old(home), ids)
    {
      var i := 0;
      while i < |ids|
        invariant i <= |ids| && live <= |groups|
        invariant |groups| == |old(groups)| + i
        invariant forall j :: i <= j < |ids| ==> groups[ids[j]] == old(groups)[ids[j]]
        invariant groups[live..] == old(groups)[live..] + Pick(old(groups), ids[..i])
        invariant home == old(home) + Pick(old(home), ids[..i])
      {
        var gid := ids[i];
        UpdateTail(groups, live, gid, [], [groups[gid]]);
        PickPrefix(old(groups), ids, i);
        PickPrefix(old(home), ids, i);
        AppendOne(old(groups)[live..], Pick(old(groups), ids[..i]), groups[gid]);
        AppendOne(old(home), Pick(old(home), ids[..i]), home[gid]);
        groups := groups[gid := []] + [groups[gid]];
        home := home + [home[gid]];
        i := i + 1;
      }
      TakeAll(ids);
    }

    /** Carry the listed groups over, with fresh table rows. */
    method CarryOver(ids: seq<nat>)
      requires Valid() && Below(ids, live) && Distinct(ids)
      modifies this`groups, this`home, this`xors, this`checksums, this`encoded
      ensures Valid()
      ensures groups[live..] == old(groups)[live..] + Pick(old(groups)[..live], ids)
      ensures home[live..] == old(home)[live..] + Pick(old(home)[..live], ids)
      ensures encoded == old(encoded) + Empties(|ids|)
    {
      TablesGrow(p, xors, checksums, tableRound, encoded, |ids|);
      xors := xors + Zeros(Area(p.n, |ids|));
      checksums := checksums + Zeros(|ids|);
      encoded := encoded + Empties(|ids|);
      assert Pick(groups, ids) == Pick(groups[..live], ids) && Pick(home, ids) == Pick(home[..live], ids);
      MoveToBack(ids);
    }

    /** Erase the old round, keeping failed groups' subgroups and the carried groups. */
    method StartRound(ids: seq<nat>)
      requires Pending() && Below(ids, live) && Distinct(ids)
      modifies this`groups, this`home, this`xors, this`checksums, this`encoded, this`tableRound,
               this`live, this`hintMaxRange, this`groupsBchFailed
      ensures Fresh() && groupsBchFailed == [] && hintMaxRange == old(hintMaxRange)
      ensures State() == BobNext(p, old(Base()), old(groupsBchFailed), ids)
      ensures live == Area(p.c, |old(groupsBchFailed)|) + |ids|
    {
      ghost var base, failed := Base(), groupsBchFailed;
      CarryOver(ids);
      groupsBchFailed := [];
      assert encoded[live..] == Empties(|groups| - live);
      ghost var gs, hs := groups[live..], home[live..];
      assert gs == SplitAll(p, Pick(base.groups, failed), base.round) + Pick(base.groups, ids);
      assert hs == RepeatEach(p, Pick(base.home, failed)) + Pick(base.home, ids);
      RemoveCompletedGroups();
      assert State() == Side(gs, hs, base.round + 1);
    }

    /** Bob's reaction to Alice's hint. The mismatch error of the source is shown to be unreachable. */
    method EncodeWithHint(ids: seq<nat>) returns (r: Result<seq<set<nat>>>)
      requires role == Bob ==> Pending() && Below(ids, live) && Distinct(ids)
      modifies this
      ensures old(role) != Bob ==> r == Err(LogicError) && unchanged(this)
      ensures old(role) == Bob ==>
                && r == Ok(sketches) && Encoded()
                && State() == BobNext(p, old(Base()), old(groupsBchFailed), ids)
                && (forall g :: 0 <= g < live ==> sketches[g] == OddBins(p, groups[g], round))
                && role == Bob && groupsExp == [] && groupsBchFailed == []
                && hintMaxRange == old(hintMaxRange) && recovered == old(recovered)
    {
      if role != Bob {
        return Err(LogicError);
      }
      var numGroups := |ids| + Area(p.c, |groupsBchFailed|);
      StartRound(ids);
      if numGroups != live {
        return Err(RuntimeError);
      }
      var out := EncodeAll();
      return Ok(out);
    }

    // ---------- Bob decodes ----------

    /** Merge the other host's sketches into one's own and collect what decoding returns. */
    method SetWith(other: seq<set<nat>>, results: seq<Option<seq<nat>>>) returns (msg: DecodingMessage)
      requires |other| == |results| == |sketches|
      modifies this`sketches
      ensures msg == Pack(results)
      ensures |sketches| == |other|
      ensures forall g :: 0 <= g < |other| ==> sketches[g] == SymDiff(old(sketches)[g], other[g])
    {
      var counts, diffs := [], [];
      var g := 0;
      while g < |other|
        invariant g <= |other| == |sketches|
        invariant forall h :: 0 <= h < |other| ==>
                    sketches[h] == if h < g then SymDiff(old(sketches)[h], other[h]) else old(sketches)[h]
        invariant DecodingMessage(counts, diffs) == Pack(results[..g])
      {
        sketches := sketches[g := SymDiff(sketches[g], other[g])];
        assert results[..g + 1][..g] == results[..g];
        counts := counts + [CountOf(results[g])];
        diffs := diffs + BinsOf(results[g]);
        g := g + 1;
      }
      assert results[..g] == results;
      msg := DecodingMessage(counts, diffs);
    }

    method CollectXors(gid: nat, bins: seq<nat>) returns (xs: seq<Key>)
      requires Valid() && gid < |groups| && InRow(p, bins)
      ensures xs == BinXors(p, encoded[gid], tableRound, bins)
    {
      xs := [];
      var k := 0;
      while k < |bins|
        invariant k <= |bins| && xs == BinXors(p, encoded[gid], tableRound, bins)[..k]
      {
        CellBound(p.n, gid, bins[k], |groups|);
        assert Row(p, xors, gid, bins[k]) == BinXor(p, encoded[gid], tableRound, bins[k]);
        xs := xs + [xors[Cell(p.n, gid, bins[k])]];
        k := k + 1;
      }
    }

    /** `base` is encoded, and t has been appended to its groups. */
    ghost predicate Appended(base: Side, t: Tail)
      reads this
    {
      && Valid() && tableRound == round == base.round && live == |base.groups|
      && encoded[..live] == base.groups && home[..live] == base.home
      && groups[live..] == t.groups && home[live..] == t.home
      && encoded[live..] == Empties(|groups| - live)
    }

    /** The failed ones of the first k groups have been split. */
    ghost predicate SplitSoFar(base: Side, counts: seq<int>, k: nat)
      reads this
    {
      && k <= |counts| == |base.groups| == |base.home|
      && Appended(base, SplitTail(p, base, counts, k))
      && groups[..live] == base.groups
      && groupsBchFailed == SplitTail(p, base, counts, k).ids
    }

    lemma StartSplit(counts: seq<int>)
      requires Valid() && tableRound == round && live == |groups| == |counts| && encoded == groups
               && groupsBchFailed == []
      ensures SplitSoFar(State(), counts, 0)
    {
      TakeAll(groups);
      TakeAll(home);
    }

    method SplitFailed(gid: nat, ghost base: Side, ghost counts: seq<int>)
      requires gid < live && SplitSoFar(base, counts, gid) && counts[gid] < 0
      modifies this`groups, this`home, this`xors, this`checksums, this`encoded, this`groupsBchFailed
      ensures SplitSoFar(base, counts, gid + 1)
    {
      groupsBchFailed := groupsBchFailed + [gid];
      AppendTail(groups, live, ThreeWay(p, groups[gid], round));
      AppendTail(home, live, Copies(p.c, home[gid]));
      AppendTail(encoded, live, Empties(p.c));
      EmptiesSum(|groups| - live, p.c);
      assert base.groups[gid] == groups[gid] && base.home[gid] == home[gid];
      ThreeWaySplit(gid);
    }

    lemma SplitComplete(base: Side, counts: seq<int>)
      requires SplitSoFar(base, counts, live)
      ensures Side(groups[..live], home[..live], round) == base && groupsBchFailed == Failed(counts)
      ensures groups[live..] == SplitAll(p, Pick(base.groups, groupsBchFailed), base.round)
      ensures home[live..] == RepeatEach(p, Pick(base.home, groupsBchFailed))
    {
      SplitTailIs(p, base, counts);
    }

    /** One decoded group: the XORs of its reported bins, and its checksum. */
    method AnswerGroup(msg: DecodingMessage, gid: nat, offset: nat, ghost base: Side)
      returns (xs: seq<Key>, checksum: Key)
      requires SplitSoFar(base, msg.counts, gid) && WellSized(msg) && BinsInRow(p, msg)
      requires gid < live && 0 <= msg.counts[gid] && offset == Offset(msg.counts, gid)
      ensures xs == BinXors(p, base.groups[gid], base.round, Bins(msg, gid))
      ensures checksum == XorSeq(base.groups[gid])
    {
      OffsetMonotone(msg.counts, gid + 1, |msg.counts|);
      var bins := msg.diffs[offset..offset + msg.counts[gid]];
      assert bins == Bins(msg, gid);
      assert encoded[gid] == encoded[..live][gid];
      xs := CollectXors(gid, bins);
      checksum := checksums[gid];
    }

    method AnswerGroups(msg: DecodingMessage, ghost base: Side) returns (outXors: seq<Key>, outChecksums: seq<Key>)
      requires SplitSoFar(base, msg.counts, 0) && WellSized(msg) && BinsInRow(p, msg)
      modifies this`groups, this`home, this`xors, this`checksums, this`encoded, this`groupsBchFailed
      ensures SplitSoFar(base, msg.counts, live)
      ensures outXors == BobXors(p, base, msg, live) && outChecksums == BobChecksums(base, msg.counts, live)
    {
      outXors, outChecksums := [], [];
      var offset, gid := 0, 0;
      while gid < |msg.counts|
        invariant gid <= |msg.counts| == live && offset == Offset(msg.counts, gid)
        invariant SplitSoFar(base, msg.counts, gid)
        invariant outXors == BobXors(p, base, msg, gid) && outChecksums == BobChecksums(base, msg.counts, gid)
      {
        if msg.counts[gid] >= 0 {
          var xs, checksum := AnswerGroup(msg, gid, offset, base);
          outXors := outXors + xs;
          outChecksums := outChecksums + [checksum];
          offset := offset + msg.counts[gid];
        } else {
          SplitFailed(gid, base, msg.counts);
        }
        gid := gid + 1;
      }
    }

    lemma IsPending(base: Side)
      requires Valid() && role == Bob && groupsExp == [] && round == base.round + 1
               && live == |base.groups| == |base.home|
      requires groups[..live] == base.groups && home[..live] == base.home && Below(groupsBchFailed, live)
      requires groups[live..] == SplitAll(p, Pick(base.groups, groupsBchFailed), base.round)
      requires home[live..] == RepeatEach(p, Pick(base.home, groupsBchFailed))
      requires encoded[live..] == Empties(|groups| - live)
      ensures Pending() && Base() == base
    {
    }

    method AnswerAll(other: seq<set<nat>>, results: seq<Option<seq<nat>>>, ghost base: Side) returns (y: Reply)
      requires Encoded() && groupsBchFailed == [] && base == State()
      requires |other| == |results| == live
      requires AllInRow(p, results)
      modifies this`groups, this`home, this`xors, this`checksums, this`encoded, this`groupsBchFailed, this`sketches
      ensures Valid() && live == |base.groups| && groups[..live] == base.groups && home[..live] == base.home
      ensures y == BobReply(p, base, Pack(results)) && groupsBchFailed == Failed(y.msg.counts)
      ensures groups[live..] == SplitAll(p, Pick(base.groups, groupsBchFailed), base.round)
      ensures home[live..] == RepeatEach(p, Pick(base.home, groupsBchFailed))
      ensures encoded[live..] == Empties(|groups| - live)
    {
      var msg := SetWith(other, results);
      PackInRow(p, results);
      StartSplit(msg.counts);
      var outXors, outChecksums := AnswerGroups(msg, base);
      SplitComplete(base, msg.counts);
      y := Reply(msg, outXors, outChecksums);
    }

    method DecodeAsBob(other: seq<set<nat>>, results: seq<Option<seq<nat>>>) returns (y: Reply)
      requires Encoded() && groupsExp == [] && groupsBchFailed == [] && role == Bob
      requires |other| == |results| == live
      requires AllInRow(p, results)
      modifies this`groups, this`home, this`xors, this`checksums, this`encoded, this`groupsBchFailed, this`sketches,
               this`round
      ensures y == BobReply(p, old(State()), Pack(results))
      ensures Pending() && Base() == old(State()) && groupsBchFailed == Failed(Pack(results).counts)
    {
      ghost var base := State();
      y := AnswerAll(other, results, base);
      round := round + 1;
      IsPending(base);
    }

    method BecomeBob()
      requires Encoded()
      modifies this`role, this`hintMaxRange
      ensures Encoded() && role == Bob && hintMaxRange == live
    {
      hintMaxRange := live;
      role := Bob;
    }

    /** Bob's answer to Alice's sketches; `results` is what decoding the merged sketches returns. */
    method Decode(other: seq<set<nat>>, results: seq<Option<seq<nat>>>) returns (r: Result<Reply>)
      requires Encoded() && groupsExp == [] && groupsBchFailed == []
      requires DecodeResults(p, sketches, other, results)
      modifies this
      ensures old(role) == Alice ==> r == Err(LogicError) && unchanged(this)
      ensures old(role) != Alice ==> r == Ok(BobReply(p, old(State()), Pack(results)))
      ensures old(role) == Alice || Pending()
      ensures old(role) != Alice ==> Base() == old(State()) && groupsBchFailed == Failed(Pack(results).counts)
      ensures old(role) != Alice ==> hintMaxRange == live == old(live) && recovered == old(recovered)
    {
      if role == Alice {
        return Err(LogicError);
      }
      ResultsBounded(p, sketches, other, results);
      BecomeBob();
      var y := DecodeAsBob(other, results);
      return Ok(y);
    }

    // ---------- Alice checks ----------

    /** The candidates of one group that hash back to their bin and group, and the checksum with them XORed in. */
    method RecoverGroup(gid: nat, bins: seq<nat>, theirs: seq<Key>) returns (rec: seq<Key>, checksum: Key)
      requires Valid() && tableRound == round && gid < |groups| && encoded[gid] == groups[gid]
      requires |bins| == |theirs| && InRow(p, bins)
      ensures rec == Recover(p, home[gid], round, bins, theirs, groups[gid])
      ensures checksum == Xor(XorSeq(groups[gid]), XorSeq(rec))
    {
      rec := [];
      checksum := checksums[gid];
      XorZero(checksum);
      var i := 0;
      while i < |bins|
        invariant i <= |bins|
        invariant rec == Recover(p, home[gid], round, bins[..i], theirs[..i], groups[gid])
        invariant checksum == Xor(XorSeq(groups[gid]), XorSeq(rec))
      {
        var bid := bins[i];
        CellBound(p.n, gid, bid, |groups|);
        assert Row(p, xors, gid, bid) == BinXor(p, groups[gid], round, bid);
        var elm := Xor(theirs[i], xors[Cell(p.n, gid, bid)]);
        RecoverSnoc(p, home[gid], round, bins, theirs, groups[gid], i);
        if BinId(p, elm, round) == bid && GroupId(p, elm) == home[gid] {
          XorSeqSnoc(rec, elm);
          XorAssociates(XorSeq(groups[gid]), XorSeq(rec), elm);
          rec := rec + [elm];
          checksum := Xor(checksum, elm);
        }
        i := i + 1;
      }
      assert bins[..i] == bins && theirs[..i] == theirs;
    }

    /** Carry group gid over, with `rec` appended and with fresh table rows. */
    method CarryBack(gid: nat, rec: seq<Key>)
      requires Valid() && gid < live
      modifies this`groups, this`home, this`xors, this`checksums, this`encoded, this`groupsExp
      ensures Valid()
      ensures groups[live..] == old(groups)[live..] + [old(groups)[gid] + rec]
      ensures forall g :: gid < g < live ==> groups[g] == old(groups)[g]
      ensures home[live..] == old(home)[live..] + [old(home)[gid]] && home[..live] == old(home)[..live]
      ensures encoded[live..] == old(encoded)[live..] + [[]] && encoded[..live] == old(encoded)[..live]
      ensures groupsExp == old(groupsExp) + [gid]
    {
      UpdateTail(groups, live, gid, [], [groups[gid] + rec]);
      AppendTail(home, live, [home[gid]]);
      AppendTail(encoded, live, [[]]);
      TablesGrow(p, xors, checksums, tableRound, encoded, 1);
      groups := groups[gid := groups[gid] + rec];
      groups := groups[gid := []] + [groups[gid]];
      home := home + [home[gid]];
      xors := xors + Zeros(Area(p.n, 1));
      checksums := checksums + Zeros(1);
      assert Empties(1) == [[]];
      encoded := encoded + [[]];
      groupsExp := groupsExp + [gid];
    }

    /** One decoded group: recover, compare checksums, and carry the group over if they differ. */
    method DoDecodeCheck(gid: nat, bins: seq<nat>, theirs: seq<Key>, checksum: Key)
      requires Valid() && tableRound == round && gid < live && encoded[gid] == groups[gid] && |recovered| == round + 1
      requires |bins| == |theirs| && InRow(p, bins)
      modifies this`groups, this`home, this`xors, this`checksums, this`encoded, this`groupsExp, this`recovered
      ensures Valid() && home[..live] == old(home)[..live] && encoded[..live] == old(encoded)[..live]
      ensures forall g :: gid < g < live ==> groups[g] == old(groups)[g]
      ensures var mine := old(groups)[gid];
              var rec := Recover(p, old(home)[gid], round, bins, theirs, mine);
              && recovered == old(recovered)[round := old(recovered)[round] + rec]
              && if checksum == Xor(XorSeq(mine), XorSeq(rec)) then
                   groups == old(groups) && home == old(home) && encoded == old(encoded) && groupsExp == old(groupsExp)
                 else
                   && groups[live..] == old(groups)[live..] + [mine + rec]
                   && home[live..] == old(home)[live..] + [old(home)[gid]]
                   && encoded[live..] == old(encoded)[live..] + [[]]
                   && groupsExp == old(groupsExp) + [gid]
    {
      var rec, bChecksum := RecoverGroup(gid, bins, theirs);
      recovered := recovered[round := recovered[round] + rec];
      if checksum != bChecksum {
        CarryBack(gid, rec);
      }
    }

    /** Alice splits the failed groups first, so that both hosts order their groups alike. */
    method SplitAllFailed(msg: DecodingMessage, ghost base: Side) returns (xorSize: nat, checksumSize: nat)
      requires SplitSoFar(base, msg.counts, 0)
      modifies this`groups, this`home, this`xors, this`checksums, this`encoded, this`groupsBchFailed
      ensures SplitSoFar(base, msg.counts, live)
      ensures xorSize == Offset(msg.counts, |msg.counts|) && checksumSize == Rank(msg.counts, |msg.counts|)
    {
      xorSize, checksumSize := 0, 0;
      var gid := 0;
      while gid < |msg.counts|
        invariant gid <= |msg.counts| == live
        invariant SplitSoFar(base, msg.counts, gid)
        invariant xorSize == Offset(msg.counts, gid) && checksumSize == Rank(msg.counts, gid)
      {
        if msg.counts[gid] < 0 {
          SplitFailed(gid, base, msg.counts);
        } else {
          xorSize := xorSize + msg.counts[gid];
          checksumSize := checksumSize + 1;
        }
        gid := gid + 1;
      }
    }

    /** The first k groups have been checked. */
    ghost predicate CheckedSoFar(base: Side, y: Reply, earlier: seq<seq<Key>>, k: nat)
      reads this
    {
      && Fits(base, y) && k <= |base.groups| && |earlier| == base.round
      && Appended(base, CheckTail(p, base, y, k))
      && (forall g :: k <= g < live ==> groups[g] == base.groups[g])
      && groupsExp == CheckTail(p, base, y, k).ids
      && recovered == earlier + [CheckTail(p, base, y, k).recovered]
    }

    lemma StartCheck(base: Side, y: Reply, earlier: seq<seq<Key>>)
      requires Fits(base, y) && SplitSoFar(base, y.msg.counts, |base.groups|) && |earlier| == base.round
      requires groupsExp == [] && recovered == earlier + [[]]
      ensures CheckedSoFar(base, y, earlier, 0)
    {
      forall g | 0 <= g < live
        ensures groups[g] == base.groups[g]
      {
        assert groups[g] == groups[..live][g];
      }
    }

    /** The state after one more group, from the state before. */
    lemma ChecksOut(base: Side, y: Reply, earlier: seq<seq<Key>>, gid: nat, t: Tail, rec: seq<Key>)
      requires Valid() && tableRound == round == base.round && live == |base.groups| && |earlier| == round
      requires encoded[..live] == base.groups && home[..live] == base.home
      requires forall g :: gid < g < live ==> groups[g] == base.groups[g]
      requires encoded[live..] == Empties(|groups| - live)
      requires Fits(base, y) && gid < live && 0 <= y.msg.counts[gid]
      requires t == CheckTail(p, base, y, gid) && rec == GroupRecovered(p, base, y, gid)
      requires recovered == earlier + [t.recovered + rec]
      requires if GroupDone(p, base, y, gid) then groups[live..] == t.groups && home[live..] == t.home
               && groupsExp == t.ids
               else groups[live..] == t.groups + [base.groups[gid] + rec] && home[live..] == t.home + [base.home[gid]]
                    && groupsExp == t.ids + [gid]
      ensures CheckedSoFar(base, y, earlier, gid + 1)
    {
    }

    lemma OneMoreEmpty(before: seq<seq<Key>>, now: seq<seq<Key>>, n: nat)
      requires before == Empties(n) && now == before + [[]]
      ensures now == Empties(n + 1)
    {
    }

    method CheckGroup(gid: nat, offset: nat, cid: nat, y: Reply, ghost base: Side, ghost earlier: seq<seq<Key>>)
      requires CheckedSoFar(base, y, earlier, gid) && BinsInRow(p, y.msg)
      requires gid < live && 0 <= y.msg.counts[gid] && offset == Offset(y.msg.counts, gid)
               && cid == Rank(y.msg.counts, gid)
      modifies this`groups, this`home, this`xors, this`checksums, this`encoded, this`groupsExp, this`recovered
      ensures CheckedSoFar(base, y, earlier, gid + 1)
    {
      SlicesAt(p, y, gid);
      var c := y.msg.counts[gid];
      assert encoded[gid] == encoded[..live][gid] && home[gid] == home[..live][gid];
      ghost var t, rec, tail := CheckTail(p, base, y, gid), GroupRecovered(p, base, y, gid), encoded[live..];
      DoDecodeCheck(gid, y.msg.diffs[offset..offset + c], y.xors[offset..offset + c], y.checksums[cid]);
      if encoded[live..] == tail + [[]] {
        OneMoreEmpty(tail, encoded[live..], |tail|);
      }
      ChecksOut(base, y, earlier, gid, t, rec);
    }

    method CheckGroups(y: Reply, ghost base: Side, ghost earlier: seq<seq<Key>>)
      requires CheckedSoFar(base, y, earlier, 0) && BinsInRow(p, y.msg)
      modifies this`groups, this`home, this`xors, this`checksums, this`encoded, this`groupsExp, this`recovered
      ensures CheckedSoFar(base, y, earlier, live)
    {
      var offset, cid, gid := 0, 0, 0;
      while gid < |y.msg.counts|
        invariant gid <= |y.msg.counts| == live
        invariant offset == Offset(y.msg.counts, gid) && cid == Rank(y.msg.counts, gid)
        invariant CheckedSoFar(base, y, earlier, gid)
      {
        var c := y.msg.counts[gid];
        if c >= 0 {
          CheckGroup(gid, offset, cid, y, base, earlier);
          offset, cid := offset + c, cid + 1;
        }
        gid := gid + 1;
      }
    }

    method CountRound()
      requires Fresh()
      modifies this`round, this`tableRound
      ensures Fresh() && round == old(round) + 1
    {
      TablesEmpty(p, xors, checksums, tableRound, |groups|, round + 1);
      round := round + 1;
      tableRound := round;
    }

    /** All groups checked: what is appended are the groups of the next round. */
    lemma EndCheck(base: Side, y: Reply, earlier: seq<seq<Key>>, next: Side)
      requires CheckedSoFar(base, y, earlier, live) && next == AliceNext(p, base, Fates(p, base, y), Recs(p, base, y))
      ensures Fits(base, y) && groups[live..] == next.groups && home[live..] == next.home && round + 1 == next.round
      ensures encoded[live..] == Empties(|groups| - live) && Valid() && Below(groupsExp, live)
      ensures groupsExp == Select(Fates(p, base, y), Carried)
      ensures recovered == earlier + [Flatten(Recs(p, base, y))]
    {
      CheckTailIsNext(p, base, y);
    }

    /** Erase the old round. */
    method FinishRound(ghost next: Side)
      requires Valid() && role == Alice && encoded[live..] == Empties(|groups| - live) && Below(groupsExp, live)
      requires groups[live..] == next.groups && home[live..] == next.home && round + 1 == next.round
      modifies this`groups, this`home, this`xors, this`checksums, this`encoded, this`tableRound, this`live,
               this`hintMaxRange, this`round
      ensures Fresh() && State() == next && hintMaxRange == old(live)
    {
      RemoveCompletedGroups();
      CountRound();
    }

    /** Check all groups, up to the erasing of the old round. */
    method CheckAll(y: Reply, ghost base: Side, ghost earlier: seq<seq<Key>>, ghost next: Side)
      requires Fits(base, y) && SplitSoFar(base, y.msg.counts, live) && BinsInRow(p, y.msg)
      requires |earlier| == base.round && recovered == earlier + [[]]
      requires next == AliceNext(p, base, Fates(p, base, y), Recs(p, base, y))
      modifies this`groups, this`home, this`xors, this`checksums, this`encoded, this`groupsExp, this`recovered
      ensures Valid() && groups[live..] == next.groups && home[live..] == next.home && round + 1 == next.round
      ensures encoded[live..] == Empties(|groups| - live) && Below(groupsExp, live)
      ensures groupsExp == Select(Fates(p, base, y), Carried)
      ensures recovered == earlier + [Flatten(Recs(p, base, y))]
    {
      groupsExp := [];
      StartCheck(base, y, earlier);
      CheckGroups(y, base, earlier);
      EndCheck(base, y, earlier, next);
    }

    method CheckReply(y: Reply, ghost base: Side, ghost earlier: seq<seq<Key>>)
      requires Fits(base, y) && SplitSoFar(base, y.msg.counts, live) && BinsInRow(p, y.msg) && role == Alice
      requires |earlier| == base.round && recovered == earlier + [[]]
      modifies this`groups, this`home, this`xors, this`checksums, this`encoded, this`tableRound, this`live,
               this`hintMaxRange, this`round, this`groupsExp, this`recovered
      ensures Fresh()
      ensures State() == AliceNext(p, base, Fates(p, base, y), Recs(p, base, y))
      ensures groupsExp == Select(Fates(p, base, y), Carried) && hintMaxRange == old(live)
      ensures recovered == earlier + [Flatten(Recs(p, base, y))]
    {
      ghost var next := AliceNext(p, base, Fates(p, base, y), Recs(p, base, y));
      CheckAll(y, base, earlier, next);
      FinishRound(next);
    }

    /** Alice's check of Bob's reply. True means that no group is left. */
    method DecodeCheck(y: Reply) returns (r: Result<bool>)
      requires Encoded() && groupsExp == [] && |recovered| == round
      requires |y.msg.counts| == live && WellSized(y.msg) && BinsInRow(p, y.msg)
      modifies this
      ensures old(role) == Bob ==> r == Err(LogicError) && unchanged(this)
      ensures old(role) != Bob ==> role == Alice && r == if Complete(y) then Ok(groups == []) else Err(RuntimeError)
      ensures old(role) != Bob && !Complete(y) ==> recovered == old(recovered) + [[]] && round == old(round)
      ensures old(role) != Bob && Complete(y) ==>
                var base := old(State());
                && Fits(base, y) && Fresh()
                && State() == AliceNext(p, base, Fates(p, base, y), Recs(p, base, y))
                && groupsExp == Select(Fates(p, base, y), Carried) && hintMaxRange == old(live)
                && recovered == old(recovered) + [Flatten(Recs(p, base, y))]
    {
      if role == Bob {
        return Err(LogicError);
      }
      role := Alice;
      ghost var base, earlier := State(), recovered;
      recovered := recovered + [[]];
      groupsBchFailed := [];
      StartSplit(y.msg.counts);
      var xorSize, checksumSize := SplitAllFailed(y.msg, base);
      if xorSize > |y.xors| || checksumSize > |y.checksums| {
        return Err(RuntimeError);
      }
      CheckReply(y, base, earlier);
      return Ok(live == 0);
    }
  }
}
