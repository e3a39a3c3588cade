/** The column sampler of `extractDimension`: a `Random(CHUNK_SAMPLE_SEED)`
    drawing `NUM_CHUNKS` chunk positions, x before z, each in
    [-HALF_RANGE, HALF_RANGE). */
module Sampler {

  const ChunkSampleSeed := 24680
  const NumChunks := 128
  const HalfRange := 625

  /** Kotlin's seeded generator, abstracted: `seeded(seed)` is the state of a
      fresh `Random(seed)`, and `nextInt(state, from, until)` returns the next
      state and the drawn value. */
  datatype Random<!S> = Random(seeded: int -> S, nextInt: (S, int, int) -> (S, int))

  /** The one property the sampler relies on: `nextInt(from, until)` lies in
      [from, until). */
  ghost predicate ValidRandom<S(!new)>(rng: Random<S>)
  {
    forall st: S, lo: int, hi: int :: lo < hi ==> lo <= rng.nextInt(st, lo, hi).1 < hi
  }

  /** A sampled chunk column. */
  datatype Column = Column(chunkX: int, chunkZ: int)

  predicate InSampleRange(c: Column)
  {
    -HalfRange <= c.chunkX < HalfRange && -HalfRange <= c.chunkZ < HalfRange
  }

  /** `n` successive `nextInt(-HALF_RANGE, HALF_RANGE)` values from `st`. */
  function Draws<S>(rng: Random<S>, st: S, n: nat): (ds: seq<int>)
    ensures |ds| == n
  {
    if n == 0 then []
    else
      var (st', d) := rng.nextInt(st, -HalfRange, HalfRange);
      [d] + Draws(rng, st', n - 1)
  }

  /** `n` iterations of `chunkX = rng.nextInt(..); chunkZ = rng.nextInt(..)`. */
  function Columns<S(!new)>(rng: Random<S>, st: S, n: nat): (cs: seq<Column>)
    ensures |cs| == n
    ensures ValidRandom(rng) ==> forall i :: 0 <= i < n ==> InSampleRange(cs[i])
  {
    if n == 0 then []
    else
      var (s1, x) := rng.nextInt(st, -HalfRange, HalfRange);
      var (s2, z) := rng.nextInt(s1, -HalfRange, HalfRange);
      [Column(x, z)] + Columns(rng, s2, n - 1)
  }

  /** One loop step: from the state reached after `i` columns, two draws give
      the `i`-th column and leave the state the remaining columns start from. */
  lemma ColumnsStep<S(!new)>(rng: Random<S>, start: S, st: S, n: nat, i: nat)
    requires i < n
    requires Columns(rng, start, n)[i..] == Columns(rng, st, n - i)
    ensures var (s1, x) := rng.nextInt(st, -HalfRange, HalfRange);
            var (s2, z) := rng.nextInt(s1, -HalfRange, HalfRange);
            && Columns(rng, start, n)[i] == Column(x, z)
            && Columns(rng, start, n)[i + 1..] == Columns(rng, s2, n - i - 1)
  {
    var (s1, x) := rng.nextInt(st, -HalfRange, HalfRange);
    var (s2, z) := rng.nextInt(s1, -HalfRange, HalfRange);
    var rest := Columns(rng, st, n - i);
    assert rest == [Column(x, z)] + Columns(rng, s2, n - i - 1);
    assert Columns(rng, start, n)[i] == rest[0];
    assert Columns(rng, start, n)[i + 1..] == rest[1..];
  }

  /** x is drawn before z: the i-th column pairs draws 2i and 2i + 1 of one
      uninterrupted stream of draws. */
  lemma {:induction false} ColumnsPairConsecutiveDraws<S(!new)>(rng: Random<S>, st: S, n: nat)
    ensures forall i :: 0 <= i < n ==>
              Columns(rng, st, n)[i] == Column(Draws(rng, st, 2 * n)[2 * i], Draws(rng, st, 2 * n)[2 * i + 1])
  {
    if n > 0 {
      var (s1, x) := rng.nextInt(st, -HalfRange, HalfRange);
      var (s2, z) := rng.nextInt(s1, -HalfRange, HalfRange);
      var ds := Draws(rng, st, 2 * n);
      var rest := Draws(rng, s2, 2 * (n - 1));
      assert Draws(rng, s1, 2 * n - 1) == [z] + rest;
      assert ds == [x] + ([z] + rest);
      ColumnsPairConsecutiveDraws(rng, s2, n - 1);
      forall i | 0 <= i < n
        ensures Columns(rng, st, n)[i] == Column(ds[2 * i], ds[2 * i + 1])
      {
        if i > 0 {
          assert ds[2 * i] == rest[2 * (i - 1)];
          assert ds[2 * i + 1] == rest[2 * (i - 1) + 1];
        }
      }
    }
  }
}
