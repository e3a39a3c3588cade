/** `chunkBiomeHash`: the per-column biome fingerprint. A generation pass
    fills a cell -> biome-name map in the classifier's preferred order; a
    hashing pass re-reads it in a canonical order into the byte stream the
    MD5 digest consumes; the digest is rendered as lowercase hex. */
module Fingerprint {
  import opened Options
  import opened Bytes
  import opened Text
  import opened Utf8
  import opened Assignments
  import opened Lattice

  /** The biome source with its climate sampler bound: the biome at a quarter
      position, as the identifier of its registry key, or None when the biome
      holder has no key. */
  type Classifier = (int, int, int) -> Option<string>

  /** MD5 over a byte stream. Only its output width matters here. */
  type Md5 = seq<Byte> -> Digest

  /** Name recorded for a biome without a registry key. */
  const Unknown := "unknown"

  /** Namespace removed from every name before hashing. */
  const Namespace := "minecraft:"

  /** The name the generation pass stores for cell `k` of column
      (chunkX, chunkZ): the classifier's answer at the cell's quarter
      position, or `Unknown`. */
  function BiomeName(classify: Classifier, chunkX: int, chunkZ: int, k: BiomeKey): string
  {
    var q := QuartOf(chunkX, chunkZ, k);
    classify(q.x, q.y, q.z).GetOr(Unknown)
  }

  /** The writes `biomes[cell] = name` for cells visited in order `cells`. */
  function GenerationWrites(classify: Classifier, chunkX: int, chunkZ: int, cells: seq<BiomeKey>)
    : (ws: seq<(BiomeKey, string)>)
    ensures KeysOf(ws) == cells
    ensures forall i :: 0 <= i < |ws| ==> ws[i].1 == BiomeName(classify, chunkX, chunkZ, ws[i].0)
  {
    seq(|cells|, i requires 0 <= i < |cells| => (cells[i], BiomeName(classify, chunkX, chunkZ, cells[i])))
  }

  /** Step 1 of `chunkBiomeHash`: one map entry per lattice cell, holding
      that cell's biome name. */
  function GenerationPass(classify: Classifier, chunkX: int, chunkZ: int, minS: int, maxS: int)
    : (biomes: map<BiomeKey, string>)
    ensures forall k :: k in biomes <==> InLattice(k, minS, maxS)
    ensures forall k :: k in biomes ==> biomes[k] == BiomeName(classify, chunkX, chunkZ, k)
    ensures |biomes| == 64 * SectionCount(minS, maxS)
  {
    var cells := GenerationOrder(minS, maxS);
    var ws := GenerationWrites(classify, chunkX, chunkZ, cells);
    GenerationOrderCoversLatticeOnce(minS, maxS);
    AssignFunctional(map[], ws, k => BiomeName(classify, chunkX, chunkZ, k));
    AssignDistinctSize(map[], ws);
    Assign(map[], ws)
  }

  /** Filling the map in any other order that visits the same cells gives
      the same map, for a classifier whose answer depends only on the
      position asked about. */
  lemma GenerationOrderIrrelevant(classify: Classifier, chunkX: int, chunkZ: int, minS: int, maxS: int,
                                  cells: seq<BiomeKey>)
    requires forall k :: k in cells <==> InLattice(k, minS, maxS)
    ensures Assign(map[], GenerationWrites(classify, chunkX, chunkZ, cells))
            == GenerationPass(classify, chunkX, chunkZ, minS, maxS)
  {
    var ws := GenerationWrites(classify, chunkX, chunkZ, cells);
    var filled := Assign(map[], ws);
    var generated := GenerationPass(classify, chunkX, chunkZ, minS, maxS);
    AssignFunctional(map[], ws, k => BiomeName(classify, chunkX, chunkZ, k));
    assert forall k :: k in filled <==> k in cells;
    assert filled.Keys == generated.Keys;
    forall k | k in filled
      ensures filled[k] == generated[k]
    {
      assert filled[k] == BiomeName(classify, chunkX, chunkZ, k);
    }
  }

  /** One element of the hashed stream: a section marker byte, or a biome
      name as stored in the map. */
  datatype Token = Marker(b: Byte) | Name(id: string)

  /** The map has an entry for every lattice cell, so every `!!` lookup of
      the hashing pass succeeds. */
  ghost predicate Covers(biomes: map<BiomeKey, string>, minS: int, maxS: int)
  {
    forall k :: InLattice(k, minS, maxS) ==> k in biomes
  }

  /** The hashing pass over one section: its marker, then its 64 names in
      y, z, x order. */
  function SectionTokens(biomes: map<BiomeKey, string>, s: int): (ts: seq<Token>)
    requires Covers(biomes, s, s)
  {
    [Marker(ToByte(s))] + seq(64, i requires 0 <= i < 64 => Name(biomes[HashCell(s, i)]))
  }

  /** Step 2 of `chunkBiomeHash` as tokens: the sections in ascending order,
      65 tokens each. */
  function HashTokens(biomes: map<BiomeKey, string>, minS: int, maxS: int): (ts: seq<Token>)
    requires Covers(biomes, minS, maxS)
    ensures |ts| == 65 * SectionCount(minS, maxS)
    decreases maxS - minS
  {
    if minS > maxS then [] else SectionTokens(biomes, minS) + HashTokens(biomes, minS + 1, maxS)
  }

  /** The token stream agrees with its closed form `TokenAt` at every
      position. */
  lemma {:induction false} HashTokensClosedForm(biomes: map<BiomeKey, string>, minS: int, maxS: int)
    requires Covers(biomes, minS, maxS)
    ensures forall p :: 0 <= p < |HashTokens(biomes, minS, maxS)| ==>
              TokenAtRange(p, minS, maxS) && HashTokens(biomes, minS, maxS)[p] == TokenAt(biomes, minS, maxS, p)
    decreases maxS - minS
  {
    if minS <= maxS {
      var ts := HashTokens(biomes, minS, maxS);
      var rest := HashTokens(biomes, minS + 1, maxS);
      HashTokensClosedForm(biomes, minS + 1, maxS);
      forall p | 0 <= p < |ts|
        ensures TokenAtRange(p, minS, maxS) && ts[p] == TokenAt(biomes, minS, maxS, p)
      {
        if p < 65 {
          DivMod(p, 65, 0, p);
        } else {
          ShiftBlock(p, 65);
          assert ts[p] == rest[p - 65];
        }
      }
    }
  }

  /** Position `p` lies within the stream of sections `minS..maxS`. */
  predicate TokenAtRange(p: int, minS: int, maxS: int)
  {
    0 <= p < 65 * SectionCount(minS, maxS)
  }

  /** Closed form of the token stream: position p belongs to section
      minS + p / 65; slot 0 of each section is its marker, slot i > 0 the
      name of the (i-1)-th cell in y, z, x order. */
  function TokenAt(biomes: map<BiomeKey, string>, minS: int, maxS: int, p: int): Token
    requires Covers(biomes, minS, maxS) && TokenAtRange(p, minS, maxS)
  {
    var s := minS + p / 65;
    var slot := p % 65;
    if slot == 0 then Marker(ToByte(s)) else Name(biomes[HashCell(s, slot - 1)])
  }

  /** A stored name as it is hashed: without its `minecraft:` prefix. */
  function StripNamespace(id: string): (r: string)
    ensures Namespace <= id ==> Namespace + r == id
    ensures !(Namespace <= id) ==> r == id
  {
    RemovePrefix(id, Namespace)
  }

  /** Names of any other namespace keep their namespace. */
  lemma OtherNamespaceKept(ns: string, path: string)
    requires ns != "minecraft" && ':' !in ns
    ensures StripNamespace(ns + ":" + path) == ns + ":" + path
  {
    var id := ns + ":" + path;
    if |ns| > 9 {
      assert id[9] == ns[9] != ':' == Namespace[9];
    } else if |ns| < 9 {
      assert id[|ns|] == ':' != Namespace[|ns|];
    } else {
      var i :| 0 <= i < 9 && ns[i] != Namespace[i];
      assert id[i] == ns[i];
    }
  }

  /** The same biome spelled with and without the `minecraft:` namespace
      hashes to the same bytes. */
  lemma NamespaceSpellingsHashAlike(path: string)
    requires !(Namespace <= path)
    ensures TokenBytes(Name(Namespace + path)) == TokenBytes(Name(path))
  {
    assert Namespace <= Namespace + path;
  }

  /** The bytes a token contributes: a marker as itself, a name with its
      `minecraft:` prefix stripped, UTF-8 encoded, with no separator. */
  function TokenBytes(t: Token): seq<Byte>
  {
    match t
    case Marker(b) => [b]
    case Name(id) => Encode(StripNamespace(id))
  }

  function Serialize(ts: seq<Token>): seq<Byte>
  {
    if ts == [] then [] else TokenBytes(ts[0]) + Serialize(ts[1..])
  }

  lemma {:induction false} SerializeAppend(a: seq<Token>, b: seq<Token>)
    ensures Serialize(a + b) == Serialize(a) + Serialize(b)
  {
    if a == [] {
      assert a + b == b;
    } else {
      assert (a + b)[0] == a[0];
      assert (a + b)[1..] == a[1..] + b;
      SerializeAppend(a[1..], b);
    }
  }

  /** The bytes fed to `md.update` by the hashing pass. */
  function HashStream(biomes: map<BiomeKey, string>, minS: int, maxS: int): seq<Byte>
    requires Covers(biomes, minS, maxS)
  {
    Serialize(HashTokens(biomes, minS, maxS))
  }

  /** `chunkBiomeHash`: the hex rendering of the MD5 of the hash stream of the
      column's generation pass. */
  function ChunkBiomeHash(md5: Md5, classify: Classifier, chunkX: int, chunkZ: int, minS: int, maxS: int)
    : (hex: string)
    ensures |hex| == 32 && IsLowerHex(hex)
    ensures ParseHex(hex) == md5(HashStream(GenerationPass(classify, chunkX, chunkZ, minS, maxS), minS, maxS))
  {
    var biomes := GenerationPass(classify, chunkX, chunkZ, minS, maxS);
    var digest := md5(HashStream(biomes, minS, maxS));
    ParseHexInvertsHex(digest);
    Hex(digest)
  }

  /** The hashed names of `ids` run together with no separator. */
  function JoinNames(ids: seq<string>): string
  {
    if ids == [] then "" else StripNamespace(ids[0]) + JoinNames(ids[1..])
  }

  /** Name tokens serialise to the UTF-8 encoding of their joined names. */
  lemma {:induction false} NamesSerializeAsJoined(ids: seq<string>)
    ensures Serialize(seq(|ids|, i requires 0 <= i < |ids| => Name(ids[i]))) == Encode(JoinNames(ids))
  {
    var ts := seq(|ids|, i requires 0 <= i < |ids| => Name(ids[i]));
    if ids != [] {
      assert ts[1..] == seq(|ids| - 1, i requires 0 <= i < |ids| - 1 => Name(ids[1..][i]));
      NamesSerializeAsJoined(ids[1..]);
      EncodeAppend(StripNamespace(ids[0]), JoinNames(ids[1..]));
    }
  }

  /** The names of section `s` in hashing order (y, z, x). */
  function SectionNames(biomes: map<BiomeKey, string>, s: int): (ids: seq<string>)
    requires Covers(biomes, s, s)
    ensures |ids| == 64
  {
    seq(64, i requires 0 <= i < 64 => biomes[HashCell(s, i)])
  }

  /** The stream of sections `minS..maxS` is, section by ascending section,
      exactly one marker byte equal to the section index truncated to 8 bits,
      followed by the UTF-8 of that section's 64 stripped names run together. */
  lemma HashStreamBySection(biomes: map<BiomeKey, string>, minS: int, maxS: int)
    requires Covers(biomes, minS, maxS) && minS <= maxS
    ensures HashStream(biomes, minS, maxS)
            == [ToByte(minS)] + Encode(JoinNames(SectionNames(biomes, minS))) + HashStream(biomes, minS + 1, maxS)
  {
    var ids := SectionNames(biomes, minS);
    var names := seq(|ids|, i requires 0 <= i < |ids| => Name(ids[i]));
    assert SectionTokens(biomes, minS) == [Marker(ToByte(minS))] + names;
    SerializeAppend(SectionTokens(biomes, minS), HashTokens(biomes, minS + 1, maxS));
    SerializeAppend([Marker(ToByte(minS))], names);
    NamesSerializeAsJoined(ids);
  }

  /** The hashing pass reads only lattice cells: two maps that agree on every
      lattice cell, however they were filled, give the same stream. */
  lemma StreamDependsOnlyOnLattice(b1: map<BiomeKey, string>, b2: map<BiomeKey, string>, minS: int, maxS: int)
    requires Covers(b1, minS, maxS) && Covers(b2, minS, maxS)
    requires forall k :: InLattice(k, minS, maxS) ==> b1[k] == b2[k]
    ensures HashStream(b1, minS, maxS) == HashStream(b2, minS, maxS)
  {
    var t1 := HashTokens(b1, minS, maxS);
    var t2 := HashTokens(b2, minS, maxS);
    HashTokensClosedForm(b1, minS, maxS);
    HashTokensClosedForm(b2, minS, maxS);
    forall p | 0 <= p < |t1|
      ensures t1[p] == t2[p]
    {
      var s := minS + p / 65;
      var slot := p % 65;
      if slot != 0 {
        assert InLattice(HashCell(s, slot - 1), minS, maxS);
      }
    }
    assert t1 == t2;
  }

  /** The chunk offset enters only through the classifier's answers: two
      columns whose cells get the same names at every lattice cell have the
      same fingerprint. */
  lemma OffsetOnlyThroughClassifier(md5: Md5, classify: Classifier, chunkX1: int, chunkZ1: int,
                                    chunkX2: int, chunkZ2: int, minS: int, maxS: int)
    requires forall k :: InLattice(k, minS, maxS) ==>
               BiomeName(classify, chunkX1, chunkZ1, k) == BiomeName(classify, chunkX2, chunkZ2, k)
    ensures ChunkBiomeHash(md5, classify, chunkX1, chunkZ1, minS, maxS)
            == ChunkBiomeHash(md5, classify, chunkX2, chunkZ2, minS, maxS)
  {
    var b1 := GenerationPass(classify, chunkX1, chunkZ1, minS, maxS);
    var b2 := GenerationPass(classify, chunkX2, chunkZ2, minS, maxS);
    StreamDependsOnlyOnLattice(b1, b2, minS, maxS);
  }

  /** A cell whose biome has no registry key is hashed as the name
      `unknown`, at the position the closed form gives it. */
  lemma UnresolvedCellHashedAsUnknown(classify: Classifier, chunkX: int, chunkZ: int, minS: int, maxS: int,
                                      k: BiomeKey)
    requires InLattice(k, minS, maxS)
    requires classify(QuartOf(chunkX, chunkZ, k).x, QuartOf(chunkX, chunkZ, k).y, QuartOf(chunkX, chunkZ, k).z).None?
    ensures var ts := HashTokens(GenerationPass(classify, chunkX, chunkZ, minS, maxS), minS, maxS);
            var p := (k.sectionY - minS) * 65 + 1 + HashIndex(k);
            0 <= p < |ts| && ts[p] == Name(Unknown)
  {
    var biomes := GenerationPass(classify, chunkX, chunkZ, minS, maxS);
    CellToken(biomes, minS, maxS, k);
  }

  /** Cell `k` is hashed at position (sectionY - minS) * 65 + 1 + its index
      in y, z, x order. */
  lemma CellToken(biomes: map<BiomeKey, string>, minS: int, maxS: int, k: BiomeKey)
    requires Covers(biomes, minS, maxS) && InLattice(k, minS, maxS)
    ensures var ts := HashTokens(biomes, minS, maxS);
            var p := (k.sectionY - minS) * 65 + 1 + HashIndex(k);
            0 <= p < |ts| && ts[p] == Name(biomes[k])
  {
    var ts := HashTokens(biomes, minS, maxS);
    var j := k.sectionY - minS;
    var p := j * 65 + 1 + HashIndex(k);
    CellOfIndex(k);
    assert 0 <= p < |ts| by {
      assert j + 1 <= SectionCount(minS, maxS);
      assert (j + 1) * 65 <= SectionCount(minS, maxS) * 65;
    }
    DivMod(p, 65, j, 1 + HashIndex(k));
    HashTokensClosedForm(biomes, minS, maxS);
  }
  /** A classifier answering `first` at quarter position `at`, `second` at
      the next position along x, and `plains` everywhere else. */
  function RunTogether(first: string, second: string, at: QuartPos): Classifier
  {
    (x: int, y: int, z: int) =>
      if x == at.x && y == at.y && z == at.z then Some(first)
      else if x == at.x + 1 && y == at.y && z == at.z then Some(second)
      else Some("plains")
  }

  /** The i-th name of section `s` in hashing order is the name the
      generation pass gave the i-th hashed cell: the `!!` lookup of the
      hashing pass always finds an entry. */
  lemma GeneratedSectionName(classify: Classifier, chunkX: int, chunkZ: int, minS: int, maxS: int, s: int, i: int)
    requires minS <= s <= maxS && 0 <= i < 64
    ensures HashCell(s, i) in GenerationPass(classify, chunkX, chunkZ, minS, maxS)
    ensures SectionNames(GenerationPass(classify, chunkX, chunkZ, minS, maxS), s)[i]
            == GenerationPass(classify, chunkX, chunkZ, minS, maxS)[HashCell(s, i)]
            == BiomeName(classify, chunkX, chunkZ, HashCell(s, i))
  {
    assert InLattice(HashCell(s, i), minS, maxS);
  }

  /** The names the classifier gives section `s` of a column, in hashing
      order (y, z, x). */
  function SectionBiomeNames(classify: Classifier, chunkX: int, chunkZ: int, s: int): (ids: seq<string>)
    ensures |ids| == 64
  {
    seq(64, i requires 0 <= i < 64 => BiomeName(classify, chunkX, chunkZ, HashCell(s, i)))
  }

  /** Within the range it fills, the generation pass lists each section's
      names exactly as the classifier gives them. */
  lemma GeneratedSectionNames(classify: Classifier, chunkX: int, chunkZ: int, minS: int, maxS: int, s: int)
    requires minS <= s <= maxS
    ensures SectionNames(GenerationPass(classify, chunkX, chunkZ, minS, maxS), s)
            == SectionBiomeNames(classify, chunkX, chunkZ, s)
  {
    forall i | 0 <= i < 64
      ensures SectionNames(GenerationPass(classify, chunkX, chunkZ, minS, maxS), s)[i]
              == SectionBiomeNames(classify, chunkX, chunkZ, s)[i]
    {
      GeneratedSectionName(classify, chunkX, chunkZ, minS, maxS, s, i);
    }
  }

  /** Two maps whose sections join their names to the same text, section by
      section, give the same stream. */
  lemma {:induction false} StreamsAgree(b1: map<BiomeKey, string>, b2: map<BiomeKey, string>, minS: int, maxS: int)
    requires Covers(b1, minS, maxS) && Covers(b2, minS, maxS)
    requires forall s :: minS <= s <= maxS ==> JoinNames(SectionNames(b1, s)) == JoinNames(SectionNames(b2, s))
    ensures HashStream(b1, minS, maxS) == HashStream(b2, minS, maxS)
    decreases maxS - minS
  {
    if minS <= maxS {
      HashStreamBySection(b1, minS, maxS);
      HashStreamBySection(b2, minS, maxS);
      StreamsAgree(b1, b2, minS + 1, maxS);
    }
  }

  /** Away from `at` and its neighbour along x, `RunTogether` names every
      cell of the column `plains`, in every section. */
  lemma RunTogetherElsewhere(first: string, second: string, chunkX: int, chunkZ: int, s: int, k: BiomeKey)
    requires InSection(k) && k != BiomeKey(s, 0, 0, 0) && k != BiomeKey(s, 1, 0, 0)
    ensures BiomeName(RunTogether(first, second, QuartOf(chunkX, chunkZ, BiomeKey(s, 0, 0, 0))), chunkX, chunkZ, k)
            == "plains"
  {
    var q := QuartOf(chunkX, chunkZ, k);
    if q == QuartOf(chunkX, chunkZ, BiomeKey(s, 0, 0, 0)) {
      QuartOfInjective(chunkX, chunkZ, k, BiomeKey(s, 0, 0, 0));
    }
    if q == QuartOf(chunkX, chunkZ, BiomeKey(s, 1, 0, 0)) {
      QuartOfInjective(chunkX, chunkZ, k, BiomeKey(s, 1, 0, 0));
    }
  }

  /** Any hashed cell other than the first two of section `s` is named
      `plains`. */
  lemma RunTogetherPlainsAt(first: string, second: string, chunkX: int, chunkZ: int, s: int, t: int, i: int)
    requires 0 <= i < 64 && (t != s || 2 <= i)
    ensures SectionBiomeNames(RunTogether(first, second, QuartOf(chunkX, chunkZ, BiomeKey(s, 0, 0, 0))),
                              chunkX, chunkZ, t)[i] == "plains"
  {
    var k := HashCell(t, i);
    CellOfIndex(k);
    if k == BiomeKey(s, 0, 0, 0) || k == BiomeKey(s, 1, 0, 0) {
      CellOfIndex(BiomeKey(s, 0, 0, 0));
      CellOfIndex(BiomeKey(s, 1, 0, 0));
    }
    RunTogetherElsewhere(first, second, chunkX, chunkZ, s, k);
  }

  /** The names `RunTogether` gives section `s`, in hashing order: its two
      chosen names first, then the same names for both pairs. */
  lemma RunTogetherSectionNames(f1: string, s1: string, f2: string, s2: string, chunkX: int, chunkZ: int, s: int)
    ensures var at := QuartOf(chunkX, chunkZ, BiomeKey(s, 0, 0, 0));
            var ids1 := SectionBiomeNames(RunTogether(f1, s1, at), chunkX, chunkZ, s);
            var ids2 := SectionBiomeNames(RunTogether(f2, s2, at), chunkX, chunkZ, s);
            ids1[0] == f1 && ids1[1] == s1 && ids2[0] == f2 && ids2[1] == s2 && ids1[2..] == ids2[2..]
  {
    var at := QuartOf(chunkX, chunkZ, BiomeKey(s, 0, 0, 0));
    var ids1 := SectionBiomeNames(RunTogether(f1, s1, at), chunkX, chunkZ, s);
    var ids2 := SectionBiomeNames(RunTogether(f2, s2, at), chunkX, chunkZ, s);
    assert HashCell(s, 0) == BiomeKey(s, 0, 0, 0) && HashCell(s, 1) == BiomeKey(s, 1, 0, 0);
    forall i | 2 <= i < 64
      ensures ids1[i] == ids2[i]
    {
      RunTogetherPlainsAt(f1, s1, chunkX, chunkZ, s, s, i);
      RunTogetherPlainsAt(f2, s2, chunkX, chunkZ, s, s, i);
    }
    assert ids1[2..] == ids2[2..];
  }

  /** Every section other than `s` gets the same names from both pairs. */
  lemma RunTogetherOtherSections(f1: string, s1: string, f2: string, s2: string, chunkX: int, chunkZ: int,
                                 s: int, t: int)
    requires t != s
    ensures var at := QuartOf(chunkX, chunkZ, BiomeKey(s, 0, 0, 0));
            SectionBiomeNames(RunTogether(f1, s1, at), chunkX, chunkZ, t)
            == SectionBiomeNames(RunTogether(f2, s2, at), chunkX, chunkZ, t)
  {
    var at := QuartOf(chunkX, chunkZ, BiomeKey(s, 0, 0, 0));
    forall i | 0 <= i < 64
      ensures SectionBiomeNames(RunTogether(f1, s1, at), chunkX, chunkZ, t)[i]
              == SectionBiomeNames(RunTogether(f2, s2, at), chunkX, chunkZ, t)[i]
    {
      RunTogetherPlainsAt(f1, s1, chunkX, chunkZ, s, t, i);
      RunTogetherPlainsAt(f2, s2, chunkX, chunkZ, s, t, i);
    }
  }

  /** Two maps over sections `minS..maxS` that list the same names everywhere
      except the first two names of section `s`, which run together to the
      same text, hash alike. */
  lemma FirstTwoNamesRunTogether(b1: map<BiomeKey, string>, b2: map<BiomeKey, string>, minS: int, maxS: int, s: int)
    requires Covers(b1, minS, maxS) && Covers(b2, minS, maxS) && minS <= s <= maxS
    requires forall t :: minS <= t <= maxS && t != s ==> SectionNames(b1, t) == SectionNames(b2, t)
    requires SectionNames(b1, s)[2..] == SectionNames(b2, s)[2..]
    requires StripNamespace(SectionNames(b1, s)[0]) + StripNamespace(SectionNames(b1, s)[1])
             == StripNamespace(SectionNames(b2, s)[0]) + StripNamespace(SectionNames(b2, s)[1])
    ensures HashStream(b1, minS, maxS) == HashStream(b2, minS, maxS)
  {
    JoinNamesAfterTwo(SectionNames(b1, s));
    JoinNamesAfterTwo(SectionNames(b2, s));
    StreamsAgree(b1, b2, minS, maxS);
  }

  /** Names are hashed with no separator, so the hash does not see where one
      name ends and the next begins: in every column and over every range of
      sections, classifiers that disagree at the first cell of a section
      ("ab" then "c" against "a" then "bc") give the same fingerprint,
      whatever the digest. */
  lemma NameBoundariesAreNotHashed(md5: Md5, chunkX: int, chunkZ: int, minS: int, maxS: int, s: int)
    requires minS <= s <= maxS
    ensures var at := QuartOf(chunkX, chunkZ, BiomeKey(s, 0, 0, 0));
            RunTogether("ab", "c", at)(at.x, at.y, at.z) != RunTogether("a", "bc", at)(at.x, at.y, at.z)
    ensures var at := QuartOf(chunkX, chunkZ, BiomeKey(s, 0, 0, 0));
            ChunkBiomeHash(md5, RunTogether("ab", "c", at), chunkX, chunkZ, minS, maxS)
            == ChunkBiomeHash(md5, RunTogether("a", "bc", at), chunkX, chunkZ, minS, maxS)
  {
    SplitNamesRunTogether(chunkX, chunkZ, minS, maxS, s, "ab", "c", "a", "bc");
  }

  /** The classifiers `RunTogether(f1, s1, _)` and `RunTogether(f2, s2, _)`,
      anchored at the first cell of any section, hash alike whenever their two
      names run together to the same text. */
  lemma SplitNamesRunTogether(chunkX: int, chunkZ: int, minS: int, maxS: int, s: int,
                              f1: string, s1: string, f2: string, s2: string)
    requires minS <= s <= maxS
    requires StripNamespace(f1) + StripNamespace(s1) == StripNamespace(f2) + StripNamespace(s2)
    ensures var at := QuartOf(chunkX, chunkZ, BiomeKey(s, 0, 0, 0));
            HashStream(GenerationPass(RunTogether(f1, s1, at), chunkX, chunkZ, minS, maxS), minS, maxS)
            == HashStream(GenerationPass(RunTogether(f2, s2, at), chunkX, chunkZ, minS, maxS), minS, maxS)
  {
    var at := QuartOf(chunkX, chunkZ, BiomeKey(s, 0, 0, 0));
    var c1 := RunTogether(f1, s1, at);
    var c2 := RunTogether(f2, s2, at);
    var b1 := GenerationPass(c1, chunkX, chunkZ, minS, maxS);
    var b2 := GenerationPass(c2, chunkX, chunkZ, minS, maxS);
    forall t | minS <= t <= maxS
      ensures SectionNames(b1, t) == SectionBiomeNames(c1, chunkX, chunkZ, t)
      ensures SectionNames(b2, t) == SectionBiomeNames(c2, chunkX, chunkZ, t)
    {
      GeneratedSectionNames(c1, chunkX, chunkZ, minS, maxS, t);
      GeneratedSectionNames(c2, chunkX, chunkZ, minS, maxS, t);
    }
    forall t | minS <= t <= maxS && t != s
      ensures SectionNames(b1, t) == SectionNames(b2, t)
    {
      RunTogetherOtherSections(f1, s1, f2, s2, chunkX, chunkZ, s, t);
    }
    RunTogetherSectionNames(f1, s1, f2, s2, chunkX, chunkZ, s);
    FirstTwoNamesRunTogether(b1, b2, minS, maxS, s);
  }

  lemma JoinNamesAfterTwo(ids: seq<string>)
    requires |ids| >= 2
    ensures JoinNames(ids) == StripNamespace(ids[0]) + StripNamespace(ids[1]) + JoinNames(ids[2..])
  {
    assert ids[1..][0] == ids[1] && ids[1..][1..] == ids[2..];
  }
}
