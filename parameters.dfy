/**
 * The strain universe and the static species-by-strain susceptibility table.
 * A strain is a pair of segment indices (H, N); species are indexed
 * 0 Human, 1 Pig, 2 Bird, 3 Poultry.
 */
module Parameters {

  /** Number of H-segment variants and of N-segment variants. */
  const H_COUNT: nat := 16
  const N_COUNT: nat := 9
  const SPECIES_COUNT: nat := 4

  datatype Strain = Strain(h: nat, n: nat)

  predicate InUniverse(s: Strain) {
    s.h < H_COUNT && s.n < N_COUNT
  }

  /** Every strain that can exist: the cross product of the segment ranges. */
  const Viruses: set<Strain> := set h: nat, n: nat | h < H_COUNT && n < N_COUNT :: Strain(h, n)

  /** InfectionTable[species][h][n] is 1 when the species can carry strain (h, n). */
  const InfectionTable: seq<seq<seq<int>>> := [
    // Human
    [
      [1, 0, 0, 0, 0, 0, 0, 0, 0],
      [0, 1, 0, 0, 0, 0, 0, 0, 0],
      [0, 1, 0, 0, 0, 0, 0, 0, 0],
      [0, 0, 0, 0, 0, 0, 0, 0, 0],
      [1, 0, 0, 0, 0, 0, 0, 0, 0],
      [0, 0, 0, 0, 0, 0, 0, 0, 0],
      [0, 1, 1, 0, 0, 0, 1, 0, 0],
      [0, 0, 0, 0, 0, 0, 0, 0, 0],
      [0, 1, 0, 0, 0, 0, 0, 0, 0],
      [0, 0, 0, 0, 0, 0, 1, 0, 0],
      [0, 0, 0, 0, 0, 0, 0, 0, 0],
      [0, 0, 0, 0, 0, 0, 0, 0, 0],
      [0, 0, 0, 0, 0, 0, 0, 0, 0],
      [0, 0, 0, 0, 0, 0, 0, 0, 0],
      [0, 0, 0, 0, 0, 0, 0, 0, 0],
      [0, 0, 0, 0, 0, 0, 0, 0, 0]
    ],
    // Pig
    [
      [1, 1, 0, 0, 0, 0, 0, 0, 0],
      [0, 0, 1, 0, 0, 0, 0, 0, 0],
      [0, 1, 1, 0, 0, 0, 0, 0, 0],
      [0, 0, 0, 0, 0, 1, 0, 0, 0],
      [0, 1, 0, 0, 0, 0, 0, 0, 0],
      [0, 0, 0, 0, 0, 0, 0, 0, 0],
      [0, 0, 0, 0, 0, 0, 0, 0, 0],
      [0, 0, 0, 0, 0, 0, 0, 0, 0],
      [0, 1, 0, 0, 0, 0, 0, 0, 0],
      [0, 0, 0, 0, 0, 0, 0, 0, 0],
      [0, 0, 0, 0, 0, 0, 0, 0, 0],
      [0, 0, 0, 0, 0, 0, 0, 0, 0],
      [0, 0, 0, 0, 0, 0, 0, 0, 0],
      [0, 0, 0, 0, 0, 0, 0, 0, 0],
      [0, 0, 0, 0, 0, 0, 0, 0, 0],
      [0, 0, 0, 0, 0, 0, 0, 0, 0]
    ],
    // Bird
    [
      [1, 1, 1, 1, 1, 1, 1, 1, 1],
      [1, 1, 1, 1, 1, 1, 1, 1, 1],
      [1, 1, 1, 1, 1, 1, 1, 1, 1],
      [1, 1, 1, 1, 1, 1, 1, 1, 1],
      [1, 1, 1, 1, 1, 1, 1, 1, 1],
      [1, 1, 1, 1, 1, 1, 1, 1, 1],
      [1, 1, 1, 1, 1, 1, 1, 1, 1],
      [1, 1, 1, 1, 1, 1, 1, 1, 1],
      [1, 1, 1, 1, 1, 1, 1, 1, 1],
      [1, 1, 1, 1, 1, 1, 1, 1, 1],
      [1, 1, 1, 1, 1, 1, 1, 1, 1],
      [1, 1, 1, 1, 1, 1, 1, 1, 1],
      [1, 1, 1, 1, 1, 1, 1, 1, 1],
      [1, 1, 1, 1, 1, 1, 1, 1, 1],
      [1, 1, 1, 1, 1, 1, 1, 1, 1],
      [1, 1, 1, 1, 1, 1, 1, 1, 1]
    ],
    // Poultry
    [
      [1, 1, 1, 1, 1, 1, 1, 1, 1],
      [1, 1, 1, 1, 1, 1, 1, 1, 1],
      [1, 1, 1, 1, 1, 1, 1, 1, 1],
      [1, 1, 1, 1, 1, 1, 1, 1, 1],
      [1, 1, 1, 1, 1, 1, 1, 1, 1],
      [1, 1, 1, 1, 1, 1, 1, 1, 1],
      [1, 1, 1, 1, 1, 1, 1, 1, 1],
      [1, 1, 1, 1, 1, 1, 1, 1, 1],
      [1, 1, 1, 1, 1, 1, 1, 1, 1],
      [1, 1, 1, 1, 1, 1, 1, 1, 1],
      [1, 1, 1, 1, 1, 1, 1, 1, 1],
      [1, 1, 1, 1, 1, 1, 1, 1, 1],
      [1, 1, 1, 1, 1, 1, 1, 1, 1],
      [0, 0, 0, 0, 0, 0, 0, 0, 0],
      [0, 0, 0, 0, 0, 0, 0, 0, 0],
      [0, 0, 0, 0, 0, 0, 0, 0, 0]
    ]
  ]

  /** Whether species `species` can be infected by strain `s` (a nonzero table entry). */
  predicate Infectable(species: nat, s: Strain) {
    species < SPECIES_COUNT && InUniverse(s) && InfectionTable[species][s.h][s.n] != 0
  }

  /** Row `species` of the table as a set: the strains that species can carry. */
  function CarriableBy(species: nat): set<Strain> {
    set h: nat, n: nat | h < H_COUNT && n < N_COUNT && Infectable(species, Strain(h, n)) :: Strain(h, n)
  }

  /** A strain is in a species' row set exactly when the table lets the species carry it. */
  lemma CarriableByMembership(species: nat)
    ensures forall s :: s in CarriableBy(species) <==> Infectable(species, s)
  {
    forall s | Infectable(species, s) ensures s in CarriableBy(species) {
      assert s == Strain(s.h, s.n);
    }
  }

  lemma VirusesAreTheUniverse()
    ensures forall s :: s in Viruses <==> InUniverse(s)
  {
  }

  /** The strains whose H index is below `hs` and whose N index is below `ns`. */
  ghost function Grid(hs: nat, ns: nat): set<Strain> {
    set h: nat, n: nat | h < hs && n < ns :: Strain(h, n)
  }

  ghost function Row(h: nat, ns: nat): set<Strain> {
    set n: nat | n < ns :: Strain(h, n)
  }

  lemma {:induction false} RowSize(h: nat, ns: nat)
    ensures |Row(h, ns)| == ns
  {
    if ns > 0 {
      RowSize(h, ns - 1);
      assert Row(h, ns) == Row(h, ns - 1) + {Strain(h, ns - 1)};
    } else {
      assert Row(h, ns) == {};
    }
  }

  /** The grid with hs rows is the grid with hs - 1 rows plus row hs - 1, disjointly. */
  lemma GridSplit(hs: nat, ns: nat)
    requires hs > 0
    ensures Grid(hs, ns) == Grid(hs - 1, ns) + Row(hs - 1, ns)
    ensures Grid(hs - 1, ns) !! Row(hs - 1, ns)
  {
    forall s | s in Grid(hs, ns) ensures s in Grid(hs - 1, ns) + Row(hs - 1, ns) {
      if s.h < hs - 1 { assert s in Grid(hs - 1, ns); } else { assert s in Row(hs - 1, ns); }
    }
  }

  lemma MultiplyStep(a: nat, b: nat)
    requires a > 0
    ensures (a - 1) * b + b == a * b
  {
  }

  lemma {:induction false} GridSize(hs: nat, ns: nat)
    ensures |Grid(hs, ns)| == hs * ns
  {
    if hs > 0 {
      GridSize(hs - 1, ns);
      RowSize(hs - 1, ns);
      GridSplit(hs, ns);
      MultiplyStep(hs, ns);
    } else {
      assert Grid(hs, ns) == {};
    }
  }

  /** The universe holds 16 * 9 = 144 strains. */
  lemma VirusCount()
    ensures |Viruses| == 144
  {
    GridSize(H_COUNT, N_COUNT);
    assert Viruses == Grid(H_COUNT, N_COUNT);
  }

  /** A species' block of the table: 16 rows of 9 entries, each 0 or 1. */
  ghost predicate BinaryBlock(rows: seq<seq<int>>) {
    && |rows| == H_COUNT
    && (forall h | 0 <= h < H_COUNT :: |rows[h]| == N_COUNT)
    && (forall h, n | 0 <= h < H_COUNT && 0 <= n < N_COUNT :: rows[h][n] == 0 || rows[h][n] == 1)
  }

  lemma HumanBlockBinary() ensures BinaryBlock(InfectionTable[0]) {}
  lemma PigBlockBinary() ensures BinaryBlock(InfectionTable[1]) {}
  lemma BirdBlockBinary() ensures BinaryBlock(InfectionTable[2]) {}
  lemma PoultryBlockBinary() ensures BinaryBlock(InfectionTable[3]) {}

  /** The table is 4 by 16 by 9 and every entry is 0 or 1. */
  lemma TableShape()
    ensures |InfectionTable| == SPECIES_COUNT
    ensures forall k | 0 <= k < SPECIES_COUNT :: BinaryBlock(InfectionTable[k])
  {
    HumanBlockBinary();
    PigBlockBinary();
    BirdBlockBinary();
    PoultryBlockBinary();
    forall k | 0 <= k < SPECIES_COUNT ensures BinaryBlock(InfectionTable[k]) {
      if k == 0 { } else if k == 1 { } else if k == 2 { } else { }
    }
  }

  /** Birds can carry every strain of the universe. */
  lemma BirdCarriesEveryStrain()
    ensures forall s | InUniverse(s) :: Infectable(2, s)
  {
  }

  /** Summed over species, the table column of every strain is at least 1,
      so the per-strain species count used as a divisor is never zero. */
  lemma EveryStrainHasAHost()
    ensures forall h, n | 0 <= h < H_COUNT && 0 <= n < N_COUNT ::
      InfectionTable[0][h][n] + InfectionTable[1][h][n] + InfectionTable[2][h][n] + InfectionTable[3][h][n] >= 1
  {
    TableShape();
    forall h, n | 0 <= h < H_COUNT && 0 <= n < N_COUNT
      ensures InfectionTable[0][h][n] + InfectionTable[1][h][n] + InfectionTable[2][h][n] + InfectionTable[3][h][n] >= 1
    {
      BirdCarriesEveryStrain();
      assert Infectable(2, Strain(h, n));
      assert BinaryBlock(InfectionTable[0]) && BinaryBlock(InfectionTable[1]) && BinaryBlock(InfectionTable[3]);
    }
  }

  /** Poultry can carry exactly the strains whose H index is at most 12. */
  lemma PoultryCarriesLowH()
    ensures forall s | InUniverse(s) :: Infectable(3, s) <==> s.h <= 12
  {
  }
}
