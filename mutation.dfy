// nsga2/nsga2.py: the value-level meaning of `mutation` (one disturbed gene,
// the whole mutated genome, one call with its gate draw) and of the last loop
// of crossover and usual_crossover, which passes every child genome to it.
module Mutation {
  import opened Common
  import opened Random

  /**
   * A gene moved by disturb times its own value, downwards when the sign draw is
   * below one half, then clamped to [lo, hi] (upper bound tested first).
   */
  function Disturbed(x: real, sign: real, disturb: real, lo: real, hi: real): (y: real)
    ensures lo <= hi ==> lo <= y <= hi
    ensures y == hi || y == lo || y == x + disturb * x || y == x - disturb * x
  {
    var v := disturb * x;
    var moved := if sign < 0.5 then x - v else x + v;
    if moved > hi then hi else if moved < lo then lo else moved
  }

  /** A gene already in range that is moved within range is moved by exactly disturb times its value. */
  lemma DisturbedInside(x: real, sign: real, disturb: real, lo: real, hi: real)
    requires lo <= x - disturb * x <= hi && lo <= x + disturb * x <= hi
    ensures Disturbed(x, sign, disturb, lo, hi) == if sign < 0.5 then x - disturb * x else x + disturb * x
  {
  }

  /** Position in the draw stream of gene k's first draw, the loop starting at draw first: a gene that mutates takes one more draw for its sign. */
  function GeneDraw(stream: nat -> real, first: nat, p: real, k: nat): (d: nat)
    ensures d >= first + k
    ensures d <= first + 2 * k
  {
    if k == 0 then first
    else
      var d := GeneDraw(stream, first, p, k - 1);
      d + (if stream(d) < p then 2 else 1)
  }

  /** Gene k after the mutation loop: disturbed when its draw is below p, otherwise unchanged. */
  function MutatedGene(g: seq<real>, k: nat, stream: nat -> real, first: nat, p: real,
                       disturb: real, lo: real, hi: real): (y: real)
    requires k < |g|
    ensures lo <= hi ==> y == g[k] || lo <= y <= hi
  {
    var d := GeneDraw(stream, first, p, k);
    if stream(d) < p then Disturbed(g[k], stream(d + 1), disturb, lo, hi) else g[k]
  }

  /** The genome after the mutation loop, its draws starting at draw first. */
  function Mutated(g: seq<real>, stream: nat -> real, first: nat, p: real,
                   disturb: real, lo: real, hi: real): (r: seq<real>)
    ensures |r| == |g|
    ensures forall k :: 0 <= k < |g| ==> r[k] == MutatedGene(g, k, stream, first, p, disturb, lo, hi)
  {
    seq(|g|, k requires 0 <= k < |g| => MutatedGene(g, k, stream, first, p, disturb, lo, hi))
  }

  /** Mutation never moves a gene out of [lo, hi]: every gene is either the old one or within range. */
  lemma MutatedInRange(g: seq<real>, stream: nat -> real, first: nat, p: real,
                       disturb: real, lo: real, hi: real)
    requires lo <= hi
    ensures forall k :: 0 <= k < |g| ==>
      Mutated(g, stream, first, p, disturb, lo, hi)[k] == g[k] ||
      lo <= Mutated(g, stream, first, p, disturb, lo, hi)[k] <= hi
  {
  }

  /** With probability zero no gene changes. */
  lemma {:induction false} MutatedNever(g: seq<real>, stream: nat -> real, first: nat,
                                       disturb: real, lo: real, hi: real)
    requires forall i :: stream(i) >= 0.0
    ensures Mutated(g, stream, first, 0.0, disturb, lo, hi) == g
  {
    var r := Mutated(g, stream, first, 0.0, disturb, lo, hi);
    forall k | 0 <= k < |g|
      ensures r[k] == g[k]
    {
      var d := GeneDraw(stream, first, 0.0, k);
      assert stream(d) >= 0.0;
    }
  }

  /** The values mutation reads: mutation_rate, genotype_mutation_probability, disturb_percent and the genome bounds. */
  datatype MutationSettings = MutationSettings(rate: real, p: real, disturb: real, lo: real, hi: real)

  /**
   * One call of `mutation` on a genome holding g, its draws starting at draw
   * d: the genome afterwards and the next draw to be read. Draw d is
   * discarded and draw d + 1 is the gate; above the rate nothing changes.
   */
  function MutationOf(g: seq<real>, stream: nat -> real, d: nat, s: MutationSettings): (r: (seq<real>, nat))
    requires forall n: nat :: 0.0 <= stream(n) < 1.0
    ensures |r.0| == |g| && d + 2 <= r.1 <= d + 2 + 2 * |g|
    ensures s.lo <= s.hi ==> forall k :: 0 <= k < |g| ==> r.0[k] == g[k] || s.lo <= r.0[k] <= s.hi
  {
    if UniformOf(stream(d + 1), 0.0, 1.0) > s.rate then (g, d + 2)
    else (Mutated(g, stream, d + 2, s.p, s.disturb, s.lo, s.hi), GeneDraw(stream, d + 2, s.p, |g|))
  }

  /** Genome contents, array by array. */
  type Memory = map<array<real>, seq<real>>

  /**
   * The last loop of crossover and usual_crossover over genomes[..k]: every
   * listed array is passed to `mutation` in turn, from contents mem and draw
   * d. The result holds the contents afterwards and the next draw. An array
   * listed twice is mutated twice.
   */
  function MutateAll(genomes: seq<array<real>>, k: nat, mem: Memory, stream: nat -> real, d: nat,
                     s: MutationSettings): (r: (Memory, nat))
    requires k <= |genomes| && forall g :: g in genomes ==> g in mem
    requires forall n: nat :: 0.0 <= stream(n) < 1.0
    ensures r.0.Keys == mem.Keys
    ensures forall g :: g in mem ==> |r.0[g]| == |mem[g]|
    ensures forall g :: g in mem && g !in genomes[..k] ==> r.0[g] == mem[g]
    ensures d + 2 * k <= r.1
    decreases k
  {
    if k == 0 then (mem, d)
    else
      var before := MutateAll(genomes, k - 1, mem, stream, d, s);
      var g := genomes[k - 1];
      var after := MutationOf(before.0[g], stream, before.1, s);
      (before.0[g := after.0], after.1)
  }

  /** At its turn, an array not listed before is mutated from its starting contents. */
  lemma MutateAllTurn(genomes: seq<array<real>>, i: nat, mem: Memory, stream: nat -> real, d: nat,
                      s: MutationSettings)
    requires i < |genomes| && genomes[i] !in genomes[..i] && forall g :: g in genomes ==> g in mem
    requires forall n: nat :: 0.0 <= stream(n) < 1.0
    ensures MutateAll(genomes, i + 1, mem, stream, d, s).0[genomes[i]] ==
            MutationOf(mem[genomes[i]], stream, MutateAll(genomes, i, mem, stream, d, s).1, s).0
  {
    assert MutateAll(genomes, i, mem, stream, d, s).0[genomes[i]] == mem[genomes[i]];
  }

  /** An array listed twice, as a parent cloned into two children, is mutated twice over. */
  lemma MutateAllAliased(g: array<real>, mem: Memory, stream: nat -> real, d: nat, s: MutationSettings)
    requires g in mem && forall n: nat :: 0.0 <= stream(n) < 1.0
    ensures var once := MutationOf(mem[g], stream, d, s);
            MutateAll([g, g], 2, mem, stream, d, s) == (mem[g := MutationOf(once.0, stream, once.1, s).0], MutationOf(once.0, stream, once.1, s).1)
  {
    var once := MutationOf(mem[g], stream, d, s);
    var twice := MutationOf(once.0, stream, once.1, s);
    assert MutateAll([g, g], 1, mem, stream, d, s) == (mem[g := once.0], once.1);
    assert mem[g := once.0][g := twice.0] == mem[g := twice.0];
  }

  /** A mutation rate of one lets every genome through the gate, since a uniform draw on [0, 1) never exceeds one. */
  lemma GateAlwaysOpen(u: real)
    requires 0.0 <= u < 1.0
    ensures !(UniformOf(u, 0.0, 1.0) > 1.0)
  {
  }
}
