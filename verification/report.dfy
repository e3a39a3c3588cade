/** `BiomeHashes.extract` / `extractDimension`: the per-dimension list of
    sampled columns and their fingerprints, assembled over the dimensions that
    are available. */
module BiomeReport {
  import opened Options
  import opened Bytes
  import opened Lattice
  import opened Fingerprint
  import opened Sampler

  /** The world seed the report is meant for. */
  const Seed := 13579

  /** A loaded dimension: its section bounds and its biome classifier. */
  datatype Level = Level(minSectionY: int, maxSectionY: int, classify: Classifier)

  /** A configured dimension, whose level may be unavailable (null). */
  datatype Dimension = Dimension(name: string, level: Option<Level>)

  /** `[chunkX, chunkZ, hash]`. */
  datatype HashEntry = HashEntry(chunkX: int, chunkZ: int, hash: string)

  /** `{min_section_y, max_section_y, hashes}` of one dimension. */
  datatype DimensionReport = DimensionReport(minSectionY: int, maxSectionY: int, hashes: seq<HashEntry>)

  /** `{seed, chunk_sample_seed, num_chunks}` and one entry per dimension. */
  datatype Report = Report(seed: int, chunkSampleSeed: int, numChunks: int,
                           dimensions: seq<(string, DimensionReport)>)

  /** The entry recorded for column `c` of `level`: `[chunkX, chunkZ, hash]`,
      the hash being the column's 32-character fingerprint. */
  function EntryFor(level: Level, md5: Md5, c: Column): (e: HashEntry)
    ensures e.chunkX == c.chunkX && e.chunkZ == c.chunkZ
    ensures |e.hash| == 32 && IsLowerHex(e.hash)
  {
    HashEntry(c.chunkX, c.chunkZ,
              ChunkBiomeHash(md5, level.classify, c.chunkX, c.chunkZ, level.minSectionY, level.maxSectionY))
  }

  /** `r` is what `extractDimension` produces for `level`: its bounds, and one
      entry per column of a fresh `Random(CHUNK_SAMPLE_SEED)`, in draw order. */
  ghost predicate IsDimensionReport<S(!new)>(r: DimensionReport, level: Level, rng: Random<S>, md5: Md5)
  {
    var cols := Columns(rng, rng.seeded(ChunkSampleSeed), NumChunks);
    && r.minSectionY == level.minSectionY
    && r.maxSectionY == level.maxSectionY
    && |r.hashes| == NumChunks
    && forall i :: 0 <= i < NumChunks ==> r.hashes[i] == EntryFor(level, md5, cols[i])
  }

  /** `extractDimension`: draws NUM_CHUNKS columns, x before z, and
      fingerprints each as it is drawn. */
  method ExtractDimension<S(!new)>(level: Level, rng: Random<S>, md5: Md5) returns (r: DimensionReport)
    ensures IsDimensionReport(r, level, rng, md5)
    ensures ValidRandom(rng) ==>
              forall i :: 0 <= i < |r.hashes| ==> InSampleRange(Column(r.hashes[i].chunkX, r.hashes[i].chunkZ))
  {
    var start := rng.seeded(ChunkSampleSeed);
    var state := start;
    var hashes: seq<HashEntry> := [];
    var i := 0;
    while i < NumChunks
      invariant 0 <= i <= NumChunks && |hashes| == i
      invariant Columns(rng, start, NumChunks)[i..] == Columns(rng, state, NumChunks - i)
      invariant forall j :: 0 <= j < i ==> hashes[j] == EntryFor(level, md5, Columns(rng, start, NumChunks)[j])
    {
      var (s1, chunkX) := rng.nextInt(state, -HalfRange, HalfRange);
      var (s2, chunkZ) := rng.nextInt(s1, -HalfRange, HalfRange);
      ColumnsStep(rng, start, state, NumChunks, i);
      hashes := hashes + [EntryFor(level, md5, Column(chunkX, chunkZ))];
      state := s2;
      i := i + 1;
    }
    r := DimensionReport(level.minSectionY, level.maxSectionY, hashes);
  }

  /** The dimensions whose level is available, in configured order. */
  function Available(dims: seq<Dimension>): (av: seq<(string, Level)>)
    ensures |av| <= |dims|
    ensures forall i :: 0 <= i < |av| ==>
              exists j :: 0 <= j < |dims| && dims[j].name == av[i].0 && dims[j].level == Some(av[i].1)
    ensures forall j :: 0 <= j < |dims| && dims[j].level.Some? ==> (dims[j].name, dims[j].level.value) in av
    ensures (forall j :: 0 <= j < |dims| ==> dims[j].level.Some?) ==> |av| == |dims|
  {
    if dims == [] then []
    else
      var rest := Available(dims[..|dims| - 1]);
      var last := dims[|dims| - 1];
      match last.level
      case None => rest
      case Some(level) => rest + [(last.name, level)]
  }

  /** The configured dimensions are visited in order: the available ones of
      `d + e` are those of `d` followed by those of `e`. */
  lemma {:induction false} AvailableAppend(d: seq<Dimension>, e: seq<Dimension>)
    ensures Available(d + e) == Available(d) + Available(e)
    decreases |e|
  {
    if e == [] {
      assert d + e == d;
    } else {
      var init := e[..|e| - 1];
      var last := e[|e| - 1];
      assert (d + e)[..|d + e| - 1] == d + init;
      assert (d + e)[|d + e| - 1] == last;
      AvailableAppend(d, init);
    }
  }

  /** A dimension whose level is null is skipped; any other is listed once,
      with its name and level. */
  lemma AvailableOfOne(x: Dimension)
    ensures x.level.None? ==> Available([x]) == []
    ensures x.level.Some? ==> Available([x]) == [(x.name, x.level.value)]
  {
    assert [x][..0] == [];
  }

  /** `out` reports on the dimensions `av`, one entry each, in order. */
  ghost predicate Reports<S(!new)>(out: seq<(string, DimensionReport)>, av: seq<(string, Level)>,
                                   rng: Random<S>, md5: Md5)
  {
    && |out| == |av|
    && forall i :: 0 <= i < |out| ==> out[i].0 == av[i].0 && IsDimensionReport(out[i].1, av[i].1, rng, md5)
  }

  /** Reporting on one more available dimension extends the report by it. */
  lemma ReportsExtend<S(!new)>(out: seq<(string, DimensionReport)>, av: seq<(string, Level)>,
                               name: string, level: Level, r: DimensionReport, rng: Random<S>, md5: Md5)
    requires Reports(out, av, rng, md5) && IsDimensionReport(r, level, rng, md5)
    ensures Reports(out + [(name, r)], av + [(name, level)], rng, md5)
  {
    var out' := out + [(name, r)];
    var av' := av + [(name, level)];
    forall i | 0 <= i < |out'|
      ensures out'[i].0 == av'[i].0 && IsDimensionReport(out'[i].1, av'[i].1, rng, md5)
    {
      if i < |out| {
        assert out'[i] == out[i] && av'[i] == av[i];
      }
    }
  }

  /** `extract`: skips every dimension whose level is null and reports every
      other one, in order. */
  method Extract<S(!new)>(dims: seq<Dimension>, rng: Random<S>, md5: Md5) returns (report: Report)
    ensures report.seed == Seed && report.chunkSampleSeed == ChunkSampleSeed && report.numChunks == NumChunks
    ensures |report.dimensions| == |Available(dims)|
    ensures forall i :: 0 <= i < |report.dimensions| ==>
              && report.dimensions[i].0 == Available(dims)[i].0
              && IsDimensionReport(report.dimensions[i].1, Available(dims)[i].1, rng, md5)
  {
    var out: seq<(string, DimensionReport)> := [];
    var i := 0;
    while i < |dims|
      invariant 0 <= i <= |dims|
      invariant Reports(out, Available(dims[..i]), rng, md5)
    {
      assert dims[..i + 1][..i] == dims[..i];
      match dims[i].level {
        case None =>
        case Some(level) =>
          var r := ExtractDimension(level, rng, md5);
          ReportsExtend(out, Available(dims[..i]), dims[i].name, level, r, rng, md5);
          out := out + [(dims[i].name, r)];
      }
      i := i + 1;
    }
    assert dims[..i] == dims;
    report := Report(Seed, ChunkSampleSeed, NumChunks, out);
  }

  /** Every dimension starts from a fresh `Random(CHUNK_SAMPLE_SEED)`, so all
      dimensions list the same columns in the same order. */
  lemma DimensionsShareColumns<S(!new)>(r1: DimensionReport, level1: Level, r2: DimensionReport, level2: Level,
                                         rng: Random<S>, md5: Md5)
    requires IsDimensionReport(r1, level1, rng, md5) && IsDimensionReport(r2, level2, rng, md5)
    ensures |r1.hashes| == |r2.hashes|
    ensures forall i :: 0 <= i < |r1.hashes| ==>
              r1.hashes[i].chunkX == r2.hashes[i].chunkX && r1.hashes[i].chunkZ == r2.hashes[i].chunkZ
  {
  }

  /** The classifier sees a quarter position only within its chunk (x and z
      modulo 4) and by height. */
  ghost predicate OffsetBlind(classify: Classifier)
  {
    forall x1, x2, y, z1, z2 :: x1 % 4 == x2 % 4 && z1 % 4 == z2 % 4 ==> classify(x1, y, z1) == classify(x2, y, z2)
  }

  /** Under an offset-blind classifier any two columns name every cell alike. */
  lemma OffsetBlindNamesAlike(classify: Classifier, a: Column, b: Column, k: BiomeKey)
    requires OffsetBlind(classify) && InSection(k)
    ensures BiomeName(classify, a.chunkX, a.chunkZ, k) == BiomeName(classify, b.chunkX, b.chunkZ, k)
  {
    var qa := QuartOf(a.chunkX, a.chunkZ, k);
    var qb := QuartOf(b.chunkX, b.chunkZ, k);
    assert classify(qa.x, qa.y, qa.z) == classify(qb.x, qb.y, qb.z);
  }

  /** An offset-blind classifier gives every sampled column of a dimension
      the same fingerprint. */
  lemma OffsetBlindClassifierGivesUniformHashes<S(!new)>(r: DimensionReport, level: Level, rng: Random<S>, md5: Md5)
    requires IsDimensionReport(r, level, rng, md5)
    requires OffsetBlind(level.classify)
    ensures forall i, j :: 0 <= i < |r.hashes| && 0 <= j < |r.hashes| ==> r.hashes[i].hash == r.hashes[j].hash
  {
    var cols := Columns(rng, rng.seeded(ChunkSampleSeed), NumChunks);
    forall i, j | 0 <= i < |r.hashes| && 0 <= j < |r.hashes|
      ensures r.hashes[i].hash == r.hashes[j].hash
    {
      var a := cols[i];
      var b := cols[j];
      forall k | InLattice(k, level.minSectionY, level.maxSectionY)
        ensures BiomeName(level.classify, a.chunkX, a.chunkZ, k) == BiomeName(level.classify, b.chunkX, b.chunkZ, k)
      {
        OffsetBlindNamesAlike(level.classify, a, b, k);
      }
      OffsetOnlyThroughClassifier(md5, level.classify, a.chunkX, a.chunkZ, b.chunkX, b.chunkZ,
                                  level.minSectionY, level.maxSectionY);
    }
  }

  /** A classifier answering the same biome everywhere gives every sampled
      column of a dimension the same fingerprint. */
  lemma ConstantClassifierGivesUniformHashes<S(!new)>(r: DimensionReport, level: Level, rng: Random<S>, md5: Md5)
    requires IsDimensionReport(r, level, rng, md5)
    requires forall x, y, z :: level.classify(x, y, z) == level.classify(0, 0, 0)
    ensures forall i, j :: 0 <= i < |r.hashes| && 0 <= j < |r.hashes| ==> r.hashes[i].hash == r.hashes[j].hash
  {
    OffsetBlindClassifierGivesUniformHashes(r, level, rng, md5);
  }
}
