/**
 The flat tables of `ParityBitmapSketch`: bin b of group g is cell n * g + b.
 */
module PbsTables {
  import opened Arithmetic
  import opened Parity
  import opened PbsSpec

  function Cell(n: nat, g: nat, b: nat): nat {
    Area(n, g) + b
  }

  lemma CellBound(n: nat, g: nat, b: nat, rows: nat)
    requires g < rows && b < n
    ensures Cell(n, g, b) < Area(n, rows)
  {
    AreaMonotone(n, g + 1, rows);
  }

  lemma CellInjective(n: nat, g: nat, b: nat, h: nat, c: nat)
    requires b < n && c < n && Cell(n, g, b) == Cell(n, h, c)
    ensures g == h && b == c
  {
    if g < h {
      CellBound(n, g, b, h);
    } else if h < g {
      CellBound(n, h, c, g);
    }
  }

  /** The tables hold, for each row g, the bin XORs and the checksum of the list gs[g]; a row of zeros is that
      of the empty list. */
  ghost predicate Tables(p: Params, xors: seq<Key>, checksums: seq<Key>, round: nat, gs: seq<seq<Key>>) {
    && |checksums| == |gs|
    && |xors| == Area(p.n, |gs|)
    && (forall g :: 0 <= g < |gs| ==> checksums[g] == XorSeq(gs[g]))
    && (forall g, b :: 0 <= g < |gs| && 0 <= b < p.n ==> Row(p, xors, g, b) == BinXor(p, gs[g], round, b))
  }

  function Row(p: Params, xors: seq<Key>, g: nat, b: nat): Key {
    if Cell(p.n, g, b) < |xors| then xors[Cell(p.n, g, b)] else ZERO
  }

  function Empties(k: nat): (r: seq<seq<Key>>)
    ensures |r| == k && forall i :: 0 <= i < k ==> r[i] == []
  {
    Copies(k, [])
  }

  lemma BinXorSnoc(p: Params, s: seq<Key>, e: Key, round: nat, b: nat)
    ensures BinXor(p, s + [e], round, b)
         == if BinId(p, e, round) == b then Xor(BinXor(p, s, round, b), e) else BinXor(p, s, round, b)
  {
    assert (s + [e])[..|s|] == s;
    if BinId(p, e, round) == b {
      XorSeqSnoc(InBin(p, s, round, b), e);
    }
  }

  /** XORing one key into its bin and into the checksum of row g. */
  lemma TablesAdd(p: Params, xors: seq<Key>, checksums: seq<Key>, round: nat, gs: seq<seq<Key>>, g: nat, e: Key)
    requires Tables(p, xors, checksums, round, gs) && g < |gs|
    ensures Cell(p.n, g, BinId(p, e, round)) < |xors|
    ensures var c := Cell(p.n, g, BinId(p, e, round));
            Tables(p, xors[c := Xor(xors[c], e)], checksums[g := Xor(checksums[g], e)], round, gs[g := gs[g] + [e]])
  {
    var bin := BinId(p, e, round);
    var c := Cell(p.n, g, bin);
    CellBound(p.n, g, bin, |gs|);
    var xors', gs' := xors[c := Xor(xors[c], e)], gs[g := gs[g] + [e]];
    XorSeqSnoc(gs[g], e);
    forall h, b | 0 <= h < |gs| && 0 <= b < p.n
      ensures Row(p, xors', h, b) == BinXor(p, gs'[h], round, b)
    {
      CellBound(p.n, h, b, |gs|);
      assert Row(p, xors, h, b) == BinXor(p, gs[h], round, b);
      if Cell(p.n, h, b) == c {
        CellInjective(p.n, h, b, g, bin);
      }
      if h == g {
        BinXorSnoc(p, gs[g], e, round, b);
      }
    }
  }

  /** Growing the tables at the back. */
  lemma TablesGrow(p: Params, xors: seq<Key>, checksums: seq<Key>, round: nat, gs: seq<seq<Key>>, k: nat)
    requires Tables(p, xors, checksums, round, gs)
    ensures Tables(p, xors + Zeros(Area(p.n, k)), checksums + Zeros(k), round, gs + Empties(k))
  {
    var xors', gs' := xors + Zeros(Area(p.n, k)), gs + Empties(k);
    AreaSum(p.n, |gs|, k);
    forall g, b | 0 <= g < |gs'| && 0 <= b < p.n
      ensures Row(p, xors', g, b) == BinXor(p, gs'[g], round, b)
    {
      CellBound(p.n, g, b, |gs'|);
      if g < |gs| {
        CellBound(p.n, g, b, |gs|);
        assert Row(p, xors, g, b) == BinXor(p, gs[g], round, b);
      } else {
        AreaMonotone(p.n, |gs|, g);
      }
    }
  }

  lemma RowErased(p: Params, xors: seq<Key>, rows: nat, k: nat, g: nat, b: nat)
    requires k + g < rows && b < p.n && |xors| == Area(p.n, rows)
    ensures Area(p.n, k) <= |xors|
    ensures Row(p, xors[Area(p.n, k)..], g, b) == Row(p, xors, k + g, b)
  {
    AreaMonotone(p.n, k, rows);
    AreaSum(p.n, k, rows - k);
    AreaSum(p.n, k, g);
    CellBound(p.n, g, b, rows - k);
    CellBound(p.n, k + g, b, rows);
  }

  lemma RowsErased(p: Params, xors: seq<Key>, checksums: seq<Key>, round: nat, gs: seq<seq<Key>>, k: nat, g: nat)
    requires Tables(p, xors, checksums, round, gs) && k + g < |gs|
    ensures Area(p.n, k) <= |xors|
    ensures checksums[k..][g] == XorSeq(gs[k..][g])
    ensures forall b :: 0 <= b < p.n ==> Row(p, xors[Area(p.n, k)..], g, b) == BinXor(p, gs[k..][g], round, b)
  {
    AreaMonotone(p.n, k, |gs|);
    assert gs[k..][g] == gs[k + g] && checksums[k..][g] == checksums[k + g];
    forall b | 0 <= b < p.n
      ensures Row(p, xors[Area(p.n, k)..], g, b) == BinXor(p, gs[k..][g], round, b)
    {
      RowErased(p, xors, |gs|, k, g, b);
      assert Row(p, xors, k + g, b) == BinXor(p, gs[k + g], round, b);
    }
  }

  lemma SizeErased(p: Params, xors: seq<Key>, rows: nat, k: nat)
    requires |xors| == Area(p.n, rows) && k <= rows
    ensures Area(p.n, k) <= |xors| && |xors[Area(p.n, k)..]| == Area(p.n, rows - k)
  {
    AreaMonotone(p.n, k, rows);
    AreaSum(p.n, k, rows - k);
  }

  /** Erasing the first k rows. */
  lemma TablesErase(p: Params, xors: seq<Key>, checksums: seq<Key>, round: nat, gs: seq<seq<Key>>, k: nat)
    requires Tables(p, xors, checksums, round, gs) && k <= |gs|
    ensures Area(p.n, k) <= |xors|
    ensures Tables(p, xors[Area(p.n, k)..], checksums[k..], round, gs[k..])
  {
    SizeErased(p, xors, |gs|, k);
    forall g | 0 <= g < |gs| - k
      ensures checksums[k..][g] == XorSeq(gs[k..][g])
      ensures forall b :: 0 <= b < p.n ==> Row(p, xors[Area(p.n, k)..], g, b) == BinXor(p, gs[k..][g], round, b)
    {
      RowsErased(p, xors, checksums, round, gs, k, g);
    }
  }

  /** Rows of zeros are the same in every round. */
  lemma TablesEmpty(p: Params, xors: seq<Key>, checksums: seq<Key>, round: nat, k: nat, next: nat)
    requires Tables(p, xors, checksums, round, Empties(k))
    ensures Tables(p, xors, checksums, next, Empties(k))
  {
    forall g, b | 0 <= g < k && 0 <= b < p.n
      ensures Row(p, xors, g, b) == BinXor(p, Empties(k)[g], next, b)
    {
      assert Row(p, xors, g, b) == BinXor(p, Empties(k)[g], round, b);
    }
  }
}
