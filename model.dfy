/**
 * The host agents and the population they live in. Each step runs four stages
 * over a snapshot of the scheduled hosts: contact (spreading into pending
 * buffers), recombination, recovery with waning, and birth/death.
 *
 * Randomness enters as oracle arguments: the outcome of each transmission
 * trial, the samples drawn for contacts, the uniform numbers compared
 * against the recovery and death chances, the keep draws of waning, and the
 * stage orders chosen by the shuffling scheduler.
 */
module Model {
  import opened Wrappers
  import opened Parameters
  import opened Strains
  import opened Rates

  const SpeciesNames: seq<string> := ["Human", "Pig", "Bird", "Poultry"]

  /** A species id: 0 Human, 1 Pig, 2 Bird, 3 Poultry. */
  type SpeciesId = k: nat | k < SPECIES_COUNT

  /** The species check made when a host is created: the index of a known
      name, None for a name the model rejects. */
  function SpeciesIndex(name: string): (r: Option<nat>)
    ensures r.Some? <==> name in SpeciesNames
    ensures r.Some? ==> r.value < SPECIES_COUNT && SpeciesNames[r.value] == name
  {
    if name == "Human" then Some(0)
    else if name == "Pig" then Some(1)
    else if name == "Bird" then Some(2)
    else if name == "Poultry" then Some(3)
    else None
  }

  /** A species' id is the position of its name. */
  lemma SpeciesIndexOfEachName()
    ensures forall k | 0 <= k < SPECIES_COUNT :: SpeciesIndex(SpeciesNames[k]) == Some(k)
  {
  }

  /** Seed strains drawn for initial humans and pigs. */
  const HumanSeeds: seq<Strain> := [Strain(0, 0), Strain(1, 1), Strain(2, 1), Strain(4, 0), Strain(6, 1),
                                    Strain(6, 2), Strain(6, 6), Strain(8, 1), Strain(9, 6)]
  const PigSeeds: seq<Strain> := [Strain(0, 0), Strain(0, 1), Strain(1, 2), Strain(2, 1), Strain(2, 2),
                                  Strain(3, 5), Strain(4, 1), Strain(8, 1)]

  /** The human seed list is exactly the set of strains humans can carry. */
  lemma HumanSeedsAreHumanStrains()
    ensures forall s | InUniverse(s) :: Infectable(0, s) <==> s in HumanSeeds
  {
  }

  /** The pig seed list is exactly the set of strains pigs can carry. */
  lemma PigSeedsArePigStrains()
    ensures forall s | InUniverse(s) :: Infectable(1, s) <==> s in PigSeeds
  {
  }

  /** The contact rates used when none are given: entry [i][j] is the fraction
      of species j that one host of species i contacts per step. */
  const DefaultContactRates: RateTable := [
    [0.01, 0.0045, 0.002, 0.001],
    [0.0045, 0.0095, 0.003, 0.0045],
    [0.002, 0.003, 0.09, 0.003],
    [0.001, 0.0045, 0.003, 0.01]
  ]

  predicate RatesShape(rates: seq<seq<real>>) {
    |rates| == SPECIES_COUNT && forall i | 0 <= i < SPECIES_COUNT :: |rates[i]| == SPECIES_COUNT
  }

  /** A 4 by 4 table of contact rates. */
  type RateTable = r: seq<seq<real>> | RatesShape(r)
    witness [[0.0, 0.0, 0.0, 0.0], [0.0, 0.0, 0.0, 0.0], [0.0, 0.0, 0.0, 0.0], [0.0, 0.0, 0.0, 0.0]]

  predicate UnitRates(rates: RateTable)
  {
    forall i, j | 0 <= i < SPECIES_COUNT && 0 <= j < SPECIES_COUNT :: 0.0 <= rates[i][j] <= 1.0
  }

  lemma DefaultRatesAreUnit()
    ensures UnitRates(DefaultContactRates)
  {
  }

  /** No element occurs twice. */
  predicate Distinct<T(==)>(s: seq<T>) {
    forall i, j | 0 <= i < j < |s| :: Apart(s, i, j)
  }

  /** Positions i and j of s hold different elements. */
  predicate Apart<T(==)>(s: seq<T>, i: nat, j: nat)
    requires i < |s| && j < |s|
  {
    s[i] != s[j]
  }

  /** In a duplicate-free sequence no element occurs before its own position. */
  lemma DistinctNotBefore<T>(s: seq<T>, i: nat)
    requires Distinct(s) && i < |s|
    ensures s[i] !in s[..i]
  {
    forall k | 0 <= k < i ensures s[..i][k] != s[i] {
      assert s[..i][k] == s[k] && Apart(s, k, i);
    }
  }

  /** In a duplicate-free sequence no element occurs after its own position. */
  lemma DistinctNotAfter<T>(s: seq<T>, i: nat)
    requires Distinct(s) && i < |s|
    ensures s[i] !in s[i + 1..]
  {
    var t := s[i + 1..];
    forall k | 0 <= k < |t| ensures t[k] != s[i] {
      assert t[k] == s[i + 1 + k] && Apart(s, i, i + 1 + k);
    }
  }

  /** A non-empty suffix is its first element followed by the rest. */
  lemma SuffixFromHead<T>(s: seq<T>, i: nat)
    requires i < |s|
    ensures s[i..] == [s[i]] + s[i + 1..]
  {
  }

  lemma DistinctAppend<T>(s: seq<T>, x: T)
    requires Distinct(s) && x !in s
    ensures Distinct(s + [x])
  {
    DistinctConcat(s, [x]);
  }

  lemma DistinctConcat<T>(a: seq<T>, b: seq<T>)
    requires Distinct(a) && Distinct(b) && (forall x | x in a :: x !in b)
    ensures Distinct(a + b)
  {
    var c := a + b;
    forall i, j | 0 <= i < j < |c| ensures Apart(c, i, j) {
      if j < |a| {
        assert c[i] == a[i] && c[j] == a[j] && Apart(a, i, j);
      } else if i < |a| {
        assert c[i] == a[i] && c[j] == b[j - |a|];
        assert c[i] in a && c[j] in b;
      } else {
        assert c[i] == b[i - |a|] && c[j] == b[j - |a|] && Apart(b, i - |a|, j - |a|);
      }
    }
  }

  /** Four duplicate-free blocks whose members have the block's species id
      concatenate to a duplicate-free sequence. */
  lemma SpeciesBlocksDistinct(p: seq<seq<Host>>)
    requires |p| == SPECIES_COUNT
    requires forall j | 0 <= j < SPECIES_COUNT :: Distinct(p[j])
    requires forall j, x | 0 <= j < SPECIES_COUNT && x in p[j] :: x.speciesId == j
    ensures Distinct(p[0] + p[1] + p[2] + p[3])
    ensures forall c | c in p[0] + p[1] + p[2] + p[3] :: c.speciesId < SPECIES_COUNT && c in p[c.speciesId]
  {
    forall x ensures (x in p[0] ==> x.speciesId == 0) && (x in p[1] ==> x.speciesId == 1)
                  && (x in p[2] ==> x.speciesId == 2) && (x in p[3] ==> x.speciesId == 3) {
    }
    DistinctConcat(p[0], p[1]);
    DistinctConcat(p[0] + p[1], p[2]);
    DistinctConcat(p[0] + p[1] + p[2], p[3]);
  }

  /** The elements of a sequence, as a set. */
  function Members<T>(s: seq<T>): (r: set<T>)
    ensures forall x | x in s :: x in r
    ensures forall x | x in r :: x in s
  {
    set x | x in s
  }

  /** Python's list.remove: drops the first occurrence of x. */
  function RemoveFirst<T(==)>(s: seq<T>, x: T): (r: seq<T>)
    requires x in s
    ensures |r| == |s| - 1
  {
    assert s == [s[0]] + s[1..];
    if s[0] == x then s[1..] else [s[0]] + RemoveFirst(s[1..], x)
  }

  /** Removal takes away exactly one occurrence of x and keeps every other element. */
  lemma {:induction false} RemoveFirstCount<T>(s: seq<T>, x: T)
    requires x in s
    ensures multiset(RemoveFirst(s, x)) == multiset(s) - multiset{x}
    decreases |s|
  {
    assert s == [s[0]] + s[1..];
    if s[0] != x {
      RemoveFirstCount(s[1..], x);
    }
  }

  /** In a list without repetitions, removal deletes exactly x and keeps the rest distinct. */
  lemma RemoveFirstDistinct<T>(s: seq<T>, x: T)
    requires x in s && Distinct(s)
    ensures Distinct(RemoveFirst(s, x))
    ensures forall y | y in RemoveFirst(s, x) :: y in s && y != x
    ensures forall y | y in s && y != x :: y in RemoveFirst(s, x)
    decreases |s|
  {
    DistinctNotAfter(s, 0);
    assert s == [s[0]] + s[1..];
    assert Distinct(s[1..]) by {
      forall i, j | 0 <= i < j < |s| - 1 ensures Apart(s[1..], i, j) {
        assert s[1..][i] == s[i + 1] && s[1..][j] == s[j + 1] && Apart(s, i + 1, j + 1);
      }
    }
    if s[0] != x {
      var r := RemoveFirst(s[1..], x);
      RemoveFirstDistinct(s[1..], x);
      assert RemoveFirst(s, x) == [s[0]] + r;
      DistinctConcat([s[0]], r);
    }
  }

  /** Seed strain candidates of species k when initial hosts are created:
      the given list, or the species' own default choice. */
  ghost function SeedCandidates(k: nat, initViruses: Option<seq<Strain>>): set<Strain> {
    if initViruses.Some? then Members(initViruses.value)
    else if k == 0 then Members(HumanSeeds)
    else if k == 1 then Members(PigSeeds)
    else if k == 2 then Viruses
    else set s | s in Viruses && s.h <= 12
  }

  /** What the immunity draw of an initial host of species k may produce: humans and
      pigs sometimes get a strain of their seed list, birds and poultry always get one
      (poultry H index at most 12). */
  ghost predicate ImmuneDrawFits(k: nat, d: Option<Strain>) {
    if k == 0 then d.None? || d.value in HumanSeeds
    else if k == 1 then d.None? || d.value in PigSeeds
    else if k == 2 then d.Some? && InUniverse(d.value)
    else d.Some? && InUniverse(d.value) && d.value.h <= 12
  }

  /** With the default choices, every seed and immunity strain drawn for an
      initial host is one its species can carry, so none is discarded. */
  lemma DefaultDrawsTakeHold(k: nat, seed: Strain, immune: Option<Strain>)
    requires k < SPECIES_COUNT && seed in SeedCandidates(k, None) && ImmuneDrawFits(k, immune)
    ensures Infectable(k, seed)
    ensures immune.Some? ==> Infectable(k, immune.value)
  {
    HumanSeedsAreHumanStrains();
    PigSeedsArePigStrains();
    BirdCarriesEveryStrain();
    PoultryCarriesLowH();
    VirusesAreTheUniverse();
  }

  class Host {
    const species: string
    const speciesId: SpeciesId
    /** The strains this host's species can carry: its row of the infection table. */
    const carriable: set<Strain>
    /** Strains received this step, not yet merged. */
    var tempViruses: set<Strain>
    var viruses: set<Strain>
    var timeSinceInfection: nat
    var hImmune: set<nat>
    var nImmune: set<nat>
    /** The presence fields H1N1 ... H16N9, keyed by strain. */
    var reporters: map<Strain, int>
    /** The host born to this one in its last stage 4, if any (specification only). */
    ghost var offspring: Host?
    /** The host that gave birth to this one; null for an initial host (specification only). */
    ghost const parent: Host?

    /** The species is one of the four and its id is the position of its name. */
    ghost predicate Named() {
      species == SpeciesNames[speciesId]
    }

    /** Named, and the carriable strains are that species' row of the infection table. */
    ghost predicate Kind() {
      Named() && carriable == CarriableBy(speciesId)
    }

    /** Only strains the species can carry are held or pending. */
    ghost predicate Valid()
      reads this`viruses, this`tempViruses
    {
      viruses <= carriable && tempViruses <= carriable
    }

    /** The state of a new host: it holds the seed strain only when its species can
        carry it, and an immunity strain its species can carry puts BOTH of its segment
        indices into the H memory while the N memory starts empty. */
    ghost predicate Initial(id: nat, seed: Option<Strain>, immune: Option<Strain>)
      reads this`viruses, this`tempViruses, this`timeSinceInfection, this`hImmune, this`nImmune, this`reporters
    {
      && speciesId == id
      && viruses == (if seed.Some? && IsInfectableBy(seed.value) then {seed.value} else {})
      && tempViruses == {} && timeSinceInfection == 0
      && hImmune == (if immune.Some? && IsInfectableBy(immune.value) then {immune.value.h, immune.value.n} else {})
      && nImmune == {}
      && reporters == ReporterMap(viruses)
    }

    constructor (species: string, seed: Option<Strain>, immune: Option<Strain>, ghost parent: Host?)
      requires species in SpeciesNames
      requires seed.Some? ==> InUniverse(seed.value)
      requires immune.Some? ==> InUniverse(immune.value)
      ensures Kind() && Valid()
      ensures this.species == species && SpeciesIndex(species) == Some(speciesId)
      ensures Initial(speciesId, seed, immune) && this.parent == parent
    {
      this.parent := parent;
      var id := SpeciesIndex(species).value;
      this.species := species;
      speciesId := id;
      var row := CarriableBy(id);
      carriable := row;
      tempViruses := {};
      var held: set<Strain> := {};
      CarriableByMembership(id);
      if seed.Some? && seed.value in row {
        held := {seed.value};
      }
      viruses := held;
      timeSinceInfection := 0;
      var memory: set<nat> := {};
      if immune.Some? && immune.value in row {
        memory := {immune.value.h, immune.value.n};
      }
      hImmune := memory;
      nImmune := {};
      var fields := BuildReporters(held);
      reporters := fields;
      offspring := null;
    }

    /** Whether this host's species can be infected by v. */
    predicate IsInfectableBy(v: Strain) {
      v in carriable
    }

    /** The carriable set answers the table lookup of the host's species. */
    lemma IsInfectableByTable(v: Strain)
      requires Kind()
      ensures IsInfectableBy(v) <==> Infectable(speciesId, v)
    {
      CarriableByMembership(speciesId);
    }

    /** Immune to both segments of v: v cannot spread to this host. */
    predicate FullyImmune(v: Strain)
      reads this`hImmune, this`nImmune
    {
      v.h in hImmune && v.n in nImmune
    }

    /** The strains among `done` that this host pushes to c as its k-th contact:
        those c can carry and is not fully immune to, whose trial succeeded. */
    ghost function Pushed(k: nat, done: set<Strain>, c: Host, transmits: (nat, Strain) -> bool): set<Strain>
      reads c`hImmune, c`nImmune
    {
      set v | v in done && c.IsInfectableBy(v) && !c.FullyImmune(v) && transmits(k, v)
    }

    /** The strains this host pushes to c through the first `upTo` contacts. */
    ghost function Sent(contacts: seq<Host>, upTo: nat, c: Host, transmits: (nat, Strain) -> bool): set<Strain>
      requires upTo <= |contacts|
      reads this`viruses, c`hImmune, c`nImmune
    {
      if upTo == 0 then {}
      else Sent(contacts, upTo - 1, c, transmits) +
           (if contacts[upTo - 1] == c then Pushed(upTo - 1, viruses, c, transmits) else {})
    }

    /** A strain reaches c exactly when this host holds it, c can carry it and is not
        fully immune to it, and the trial succeeded at some position of c among the
        contacts; a host sampled twice gets two chances. */
    lemma {:induction false} SentMembership(contacts: seq<Host>, upTo: nat, c: Host, transmits: (nat, Strain) -> bool, v: Strain)
      requires upTo <= |contacts|
      ensures v in Sent(contacts, upTo, c, transmits) <==>
        v in viruses && c.IsInfectableBy(v) && !c.FullyImmune(v) &&
        exists k | 0 <= k < upTo :: contacts[k] == c && transmits(k, v)
    {
      if upTo > 0 {
        SentMembership(contacts, upTo - 1, c, transmits, v);
        if contacts[upTo - 1] == c && transmits(upTo - 1, v) && v in viruses && c.IsInfectableBy(v) && !c.FullyImmune(v) {
          assert v in Pushed(upTo - 1, viruses, c, transmits);
        }
      }
    }

    /** Stage 1: spread every held strain to the sampled contacts. A contact only
        ever gains strains in its pending buffer; nobody's strains or immunity change,
        and a failed sampling changes nothing. */
    method ContractVirus(m: VirusModel, picks: PerSpecies, transmits: (nat, Strain) -> bool)
      returns (ok: bool)
      requires m.Pooled() && m.HostsValid() && this in m.schedule
      requires m.PicksFit(m.Pools(), speciesId, picks)
      modifies m.schedule`tempViruses
      ensures m.HostsValid()
      ensures ok <==> m.Contacts(m.Pools(), speciesId, picks).Ok?
      ensures forall c | c in m.schedule :: c.tempViruses == old(c.tempViruses) + m.Offered(m.Pools(), this, picks, transmits, c)
    {
      var r := m.Contacts(m.Pools(), speciesId, picks);
      if r.Err? {
        return false;
      }
      m.ContactsAreScheduled(speciesId, picks);
      SpreadAll(m.schedule, r.value, transmits);
      return true;
    }

    /** Offers every held strain to each contact in turn. */
    method SpreadAll(ghost hosts: set<Host>, contacts: seq<Host>, transmits: (nat, Strain) -> bool)
      requires forall c | c in contacts :: c in hosts
      requires forall c | c in hosts :: c.Valid()
      modifies hosts`tempViruses
      ensures forall c | c in hosts :: c.Valid()
      ensures forall c | c in hosts :: c.tempViruses == old(c.tempViruses) + Sent(contacts, |contacts|, c, transmits)
    {
      for k := 0 to |contacts|
        invariant forall c | c in hosts :: c.tempViruses == old(c.tempViruses) + Sent(contacts, k, c, transmits)
      {
        SpreadTo(contacts[k], k, transmits);
      }
      forall c | c in hosts ensures c.Valid() {
        forall v | v in Sent(contacts, |contacts|, c, transmits) ensures c.IsInfectableBy(v) {
          SentMembership(contacts, |contacts|, c, transmits, v);
        }
      }
    }

    /** Offers every held strain to one contact, the k-th of this step. */
    method SpreadTo(contact: Host, k: nat, transmits: (nat, Strain) -> bool)
      modifies contact`tempViruses
      ensures contact.tempViruses == old(contact.tempViruses) + Pushed(k, viruses, contact, transmits)
    {
      var rest := viruses;
      while rest != {}
        invariant rest <= viruses
        invariant contact.tempViruses == old(contact.tempViruses) + Pushed(k, viruses - rest, contact, transmits)
        decreases rest
      {
        var v :| v in rest;
        assert viruses - (rest - {v}) == (viruses - rest) + {v};
        if contact.IsInfectableBy(v) && !contact.FullyImmune(v) && transmits(k, v) {
          contact.tempViruses := contact.tempViruses + {v};
        }
        rest := rest - {v};
      }
    }

    /** Stage 2: merge the pending buffer, clear it, and reassort. */
    method Recombine()
      modifies this`viruses, this`tempViruses
      ensures Valid()
      ensures tempViruses == {}
      ensures viruses == Reassort(carriable, old(viruses) + old(tempViruses))
    {
      viruses := viruses + tempViruses;
      tempViruses := {};
      viruses := Reassort(carriable, viruses);
      ReassortOnlyFeasible(carriable, old(viruses) + old(tempViruses));
    }

    /** Whether an infected host recovers this step: its counter is about to grow
        by one, and the draw u must not exceed the recovery chance of that count. */
    ghost predicate Recovers(recoveryRate: real, u: real)
      reads this`viruses, this`timeSinceInfection
    {
      viruses != {} && u <= RecoveryChance(recoveryRate, timeSinceInfection + 1)
    }

    /** The outcome of stage 3 relative to the state before it. An uninfected host
        keeps its counter; an infected one that does not recover counts one more
        step; one that recovers loses its strains, resets its counter and remembers
        their segments. Then each remembered segment survives only with its keep
        draw, and the presence fields are refreshed. */
    twostate predicate Recovered(recoveryRate: real, u: real, keepH: nat -> bool, keepN: nat -> bool)
      reads this
    {
      var recovered := old(Recovers(recoveryRate, u));
      && timeSinceInfection == (if recovered then 0
                                else if old(viruses) == {} then old(timeSinceInfection)
                                else old(timeSinceInfection) + 1)
      && viruses == (if recovered then {} else old(viruses))
      && hImmune == Wane(old(hImmune) + (if recovered then HSegments(old(viruses)) else {}), keepH)
      && nImmune == Wane(old(nImmune) + (if recovered then NSegments(old(viruses)) else {}), keepN)
      && tempViruses == old(tempViruses)
      && reporters == ReporterMap(viruses)
    }

    /** Stage 3: recovery, then waning of immune memory, then the presence fields. */
    method Recovery(recoveryRate: real, u: real, keepH: nat -> bool, keepN: nat -> bool)
      requires Valid()
      modifies this`timeSinceInfection, this`viruses, this`hImmune, this`nImmune, this`reporters
      ensures Valid()
      ensures Recovered(recoveryRate, u, keepH, keepN)
    {
      ghost var recovered := Recovers(recoveryRate, u);
      var t, held, hs, ns := timeSinceInfection, viruses, hImmune, nImmune;
      if held != {} {
        t := t + 1;
        if u <= RecoveryChance(recoveryRate, t) {
          t := 0;
          hs := hs + HSegments(held);
          ns := ns + NSegments(held);
          held := {};
        }
      }
      ghost var remembered, rememberedN := hs, ns;
      assert remembered == old(hImmune) + (if recovered then HSegments(old(viruses)) else {});
      assert rememberedN == old(nImmune) + (if recovered then NSegments(old(viruses)) else {});
      assert held == (if recovered then {} else old(viruses));
      if hs != {} {
        hs := Wane(hs, keepH);
      } else {
        assert Wane(hs, keepH) == {};
      }
      if ns != {} {
        ns := Wane(ns, keepN);
      } else {
        assert Wane(ns, keepN) == {};
      }
      assert hs == Wane(remembered, keepH) && ns == Wane(rememberedN, keepN);
      var fields := BuildReporters(held);
      timeSinceInfection, viruses, hImmune, nImmune, reporters := t, held, hs, ns, fields;
    }

    /** Whether this host dies: the draw falls below its death threshold. */
    ghost predicate Dies(m: VirusModel, deathU: real)
      reads this`viruses
    {
      deathU < DeathThreshold(m.deathRate, speciesId, |viruses|)
    }

    /** The fate of this host in stage 4 relative to the state before it: it stays
        scheduled and keeps its strains, unless it dies, which clears them. */
    twostate predicate Survived(m: VirusModel, deathU: real)
      reads this`viruses, m`schedule
    {
      && (this in m.schedule <==> !old(Dies(m, deathU)))
      && viruses == if old(Dies(m, deathU)) then {} else old(viruses)
    }

    /** The birth half of this host's fate in stage 4: it has an offspring exactly when
        the birth draw says so, and that offspring is a new scheduled host of this
        species in the initial state, seeded with the immigrant draws. */
    twostate predicate Bore(m: VirusModel, born: bool, new immigrant: Option<Strain>, new immigrantImmune: Option<Strain>)
      reads this`offspring, m`schedule, offspring
    {
      && (offspring != null <==> born)
      && (offspring != null ==> fresh(offspring) && offspring.parent == this && offspring in m.schedule
                                && offspring.Initial(speciesId, immigrant, immigrantImmune))
    }

    /** Stage 4: maybe give birth to a host of the same species (possibly carrying an
        immigrant strain or immunity), then maybe die. A birth appends the child to this
        species' list and the schedule; a death removes this host from both and clears
        its strains. */
    method BirthDeath(m: VirusModel, born: bool, immigrant: Option<Strain>, immigrantImmune: Option<Strain>, deathU: real)
      requires m.Valid() && this in m.schedule
      requires immigrant.Some? ==> InUniverse(immigrant.value)
      requires immigrantImmune.Some? ==> InUniverse(immigrantImmune.value)
      modifies m, this`viruses, this`offspring
      ensures m.Valid() && m.modelStep == old(m.modelStep)
      ensures Bore(m, born, immigrant, immigrantImmune)
      ensures viruses == if old(Dies(m, deathU)) then {} else old(viruses)
      ensures m.schedule == old(m.schedule) + (if born then {offspring} else {}) - (if old(Dies(m, deathU)) then {this} else {})
    {
      ghost var c := Reproduce(m, born, immigrant, immigrantImmune);
      if deathU < DeathThreshold(m.deathRate, speciesId, |viruses|) {
        Die(m);
        assert c != null ==> c in m.schedule && c.Initial(speciesId, immigrant, immigrantImmune);
      }
      offspring := c;
    }

    /** The death half of stage 4: the host leaves its pool and the schedule, and its
        strains are cleared. */
    method Die(m: VirusModel)
      requires m.Valid() && this in m.schedule
      modifies m, this`viruses
      ensures m.Valid() && m.modelStep == old(m.modelStep)
      ensures viruses == {}
      ensures m.schedule == old(m.schedule) - {this}
      ensures forall k | 0 <= k < SPECIES_COUNT ::
        m.HostsOf(k) == if k == speciesId then RemoveFirst(old(m.HostsOf(k)), this) else old(m.HostsOf(k))
    {
      m.RemoveHost(this);
      viruses := {};
      assert m.HostsValid() by {
        forall h | h in m.schedule ensures h.Valid() {
          assert h != this;
        }
      }
    }

    /** The birth half of stage 4: a newborn of this species joins its pool and the schedule. */
    method Reproduce(m: VirusModel, born: bool, immigrant: Option<Strain>, immigrantImmune: Option<Strain>)
      returns (ghost child: Host?)
      requires m.Valid() && this in m.schedule
      requires immigrant.Some? ==> InUniverse(immigrant.value)
      requires immigrantImmune.Some? ==> InUniverse(immigrantImmune.value)
      modifies m
      ensures m.Valid() && m.modelStep == old(m.modelStep)
      ensures born <==> child != null
      ensures child != null ==> fresh(child) && child.species == SpeciesNames[speciesId] && child.speciesId == speciesId && child.Kind()
      ensures child != null ==> child.parent == this
      ensures child != null ==> child.Initial(speciesId, immigrant, immigrantImmune)
      ensures m.schedule == old(m.schedule) + (if born then {child} else {})
      ensures forall k | 0 <= k < SPECIES_COUNT && k != speciesId :: m.HostsOf(k) == old(m.HostsOf(k))
      ensures var added: seq<Host> := if born then [child] else [];
        m.HostsOf(speciesId) == old(m.HostsOf(speciesId)) + added
    {
      child := null;
      if born {
        SpeciesIndexOfEachName();
        var host := new Host(SpeciesNames[speciesId], immigrant, immigrantImmune, this);
        m.AddHost(host);
        child := host;
      }
    }
  }

  /** Pool k holds distinct hosts of species k, and `sched` holds exactly the pooled hosts. */
  ghost predicate PoolsShape(pools: seq<seq<Host>>, sched: set<Host>) {
    && |pools| == SPECIES_COUNT
    && (forall k | 0 <= k < SPECIES_COUNT :: Distinct(pools[k]))
    && (forall k, h | 0 <= k < SPECIES_COUNT && h in pools[k] :: h.speciesId == k && h in sched)
    && (forall h | h in sched :: h in pools[h.speciesId])
  }

  /** Appending a new host to its own pool keeps the pools well formed. */
  lemma PoolsAdd(pools: seq<seq<Host>>, sched: set<Host>, host: Host)
    requires PoolsShape(pools, sched) && host !in sched
    ensures PoolsShape(pools[host.speciesId := pools[host.speciesId] + [host]], sched + {host})
  {
    DistinctAppend(pools[host.speciesId], host);
  }

  /** Removing a pooled host from its pool keeps the pools well formed. */
  lemma PoolsRemove(pools: seq<seq<Host>>, sched: set<Host>, host: Host)
    requires PoolsShape(pools, sched) && host in sched
    ensures host in pools[host.speciesId]
    ensures PoolsShape(pools[host.speciesId := RemoveFirst(pools[host.speciesId], host)], sched - {host})
  {
    var k := host.speciesId;
    RemoveFirstDistinct(pools[k], host);
    var pools' := pools[k := RemoveFirst(pools[k], host)];
    forall j, h: Host | 0 <= j < SPECIES_COUNT && h in pools'[j] ensures h.speciesId == j && h in sched - {host} {
      if j == k {
        assert h in RemoveFirst(pools[k], host);
        assert h in pools[k];
        assert h != host;
      } else {
        assert h in pools[j];
        assert h != host;
      }
    }
  }

  /** One list of hosts for each species, at the species' id: the four pools, or the
      four samples one host draws from them. */
  type PerSpecies = p: seq<seq<Host>> | |p| == SPECIES_COUNT witness [[], [], [], []]

  /** The random outcomes of one step. */
  datatype Draws = Draws(
    orders: seq<seq<Host>>,               // the shuffled host order of each of the four stages
    picks: seq<PerSpecies>,                   // each host's four contact samples
    transmits: seq<(nat, Strain) -> bool>,  // the trial for contact k and strain v succeeded
    recoveryU: Host -> real,              // uniform draw compared with the recovery chance
    keepH: Host -> nat -> bool,           // keep draws of waning H memory
    keepN: Host -> nat -> bool,           // keep draws of waning N memory
    born: Host -> bool,                   // the birth draw succeeded
    immigrant: Host -> Option<Strain>,    // strain of the newborn, when the immigration draw succeeded
    immigrantImmune: Host -> Option<Strain>,  // immunity strain of the newborn, likewise
    deathU: Host -> real)                 // uniform draw compared with the death threshold

  /** The draws for initial hosts only name strains of the universe. */
  lemma InitialDrawsInUniverse(initPopSize: seq<nat>, initViruses: Option<seq<Strain>>,
                               seedDraw: (nat, nat) -> Option<Strain>, immuneDraw: (nat, nat) -> Option<Strain>)
    requires VirusModel.InitialDrawsFit(initPopSize, initViruses, seedDraw, immuneDraw)
    ensures forall k, i | 0 <= k < SPECIES_COUNT && 0 <= i < initPopSize[k] ::
      (seedDraw(k, i).Some? ==> InUniverse(seedDraw(k, i).value)) && (immuneDraw(k, i).Some? ==> InUniverse(immuneDraw(k, i).value))
  {
    VirusesAreTheUniverse();
  }

  /** Creates the n initial hosts of species k; host i is made from the draws
      seedDraw(k, i) and immuneDraw(k, i). */
  method InitialHosts(k: SpeciesId, n: nat, seedDraw: (nat, nat) -> Option<Strain>, immuneDraw: (nat, nat) -> Option<Strain>)
    returns (pool: seq<Host>)
    requires forall i | 0 <= i < n ::
      (seedDraw(k, i).Some? ==> InUniverse(seedDraw(k, i).value)) && (immuneDraw(k, i).Some? ==> InUniverse(immuneDraw(k, i).value))
    ensures |pool| == n && Distinct(pool)
    ensures forall i | 0 <= i < n :: fresh(pool[i]) && pool[i].Valid() && pool[i].Initial(k, seedDraw(k, i), immuneDraw(k, i))
    ensures forall h | h in pool :: fresh(h) && h.Valid() && h.Kind() && h.speciesId == k
  {
    pool := [];
    for i := 0 to n
      invariant |pool| == i && Distinct(pool)
      invariant forall p | 0 <= p < i :: fresh(pool[p]) && pool[p].Valid() && pool[p].Kind() && pool[p].Initial(k, seedDraw(k, p), immuneDraw(k, p))
    {
      SpeciesIndexOfEachName();
      var host := new Host(SpeciesNames[k], seedDraw(k, i), immuneDraw(k, i), null);
      DistinctAppend(pool, host);
      pool := pool + [host];
    }
  }

  /** Creates the initial hosts of every species: pool k holds initPopSize[k] of them. */
  method InitialPopulation(initPopSize: seq<nat>, seedDraw: (nat, nat) -> Option<Strain>, immuneDraw: (nat, nat) -> Option<Strain>)
    returns (pools: PerSpecies)
    requires |initPopSize| == SPECIES_COUNT
    requires forall k, i | 0 <= k < SPECIES_COUNT && 0 <= i < initPopSize[k] ::
      (seedDraw(k, i).Some? ==> InUniverse(seedDraw(k, i).value)) && (immuneDraw(k, i).Some? ==> InUniverse(immuneDraw(k, i).value))
    ensures forall k: SpeciesId :: |pools[k]| == initPopSize[k] && Distinct(pools[k])
    ensures forall k: SpeciesId, h | h in pools[k] :: fresh(h) && h.Valid() && h.Kind() && h.speciesId == k
    ensures forall k: SpeciesId, i | 0 <= i < initPopSize[k] ::
      fresh(pools[k][i]) && pools[k][i].Valid() && pools[k][i].Initial(k, seedDraw(k, i), immuneDraw(k, i))
  {
    var humans := InitialHosts(0, initPopSize[0], seedDraw, immuneDraw);
    var pigs := InitialHosts(1, initPopSize[1], seedDraw, immuneDraw);
    var birds := InitialHosts(2, initPopSize[2], seedDraw, immuneDraw);
    var poultry := InitialHosts(3, initPopSize[3], seedDraw, immuneDraw);
    pools := [humans, pigs, birds, poultry];
    forall k: SpeciesId, h | h in pools[k] ensures fresh(h) && h.Valid() && h.Kind() && h.speciesId == k {
      if k == 0 {
        assert h in humans;
      } else if k == 1 {
        assert h in pigs;
      } else if k == 2 {
        assert h in birds;
      } else {
        assert h in poultry;
      }
    }
    forall k: SpeciesId, i | 0 <= i < initPopSize[k]
      ensures fresh(pools[k][i]) && pools[k][i].Valid() && pools[k][i].Initial(k, seedDraw(k, i), immuneDraw(k, i))
    {
      if k == 0 {
        assert pools[k][i] == humans[i];
      } else if k == 1 {
        assert pools[k][i] == pigs[i];
      } else if k == 2 {
        assert pools[k][i] == birds[i];
      } else {
        assert pools[k][i] == poultry[i];
      }
    }
  }

  /** Four duplicate-free pools, each holding hosts of its own species, are well formed
      with the schedule holding exactly their hosts. */
  lemma InitialPoolsShape(humans: seq<Host>, pigs: seq<Host>, birds: seq<Host>, poultry: seq<Host>)
    requires Distinct(humans) && Distinct(pigs) && Distinct(birds) && Distinct(poultry)
    requires forall x | x in humans :: x.speciesId == 0
    requires forall x | x in pigs :: x.speciesId == 1
    requires forall x | x in birds :: x.speciesId == 2
    requires forall x | x in poultry :: x.speciesId == 3
    ensures PoolsShape([humans, pigs, birds, poultry], Members(humans) + Members(pigs) + Members(birds) + Members(poultry))
  {
  }

  /** `order` lists the hosts of `hosts` once each. */
  ghost predicate Lists(order: seq<Host>, hosts: set<Host>) {
    && Distinct(order)
    && (forall h | h in order :: h in hosts)
    && (forall h | h in hosts :: h in order)
  }

  /** `h` was born during the current operation to a host of `s0`, and is that
      host's offspring. */
  twostate predicate BornTo(new h: Host, s0: set<Host>)
    reads h.parent
  {
    fresh(h) && h.parent != null && h.parent in s0 && h.parent.offspring == h
  }

  class VirusModel {
    var hosts0: seq<Host>
    var hosts1: seq<Host>
    var hosts2: seq<Host>
    var hosts3: seq<Host>
    var schedule: set<Host>
    var modelStep: nat
    const contactRates: RateTable
    const recoveryRate: real
    const deathRate: real

    /** The pool of species k. */
    function HostsOf(k: nat): seq<Host>
      requires k < SPECIES_COUNT
      reads this`hosts0, this`hosts1, this`hosts2, this`hosts3
    {
      if k == 0 then hosts0 else if k == 1 then hosts1 else if k == 2 then hosts2 else hosts3
    }

    /** Each pool holds distinct hosts of its own species, the schedule holds exactly
        the pooled hosts, and every scheduled host is valid and of its kind. */
    ghost predicate Valid()
      reads this`hosts0, this`hosts1, this`hosts2, this`hosts3, this`schedule, schedule`viruses, schedule`tempViruses
    {
      Shape() && HostsValid() && Typed()
    }

    /** The four pools as one sequence, pool k at index k. */
    function Pools(): (p: seq<seq<Host>>)
      reads this`hosts0, this`hosts1, this`hosts2, this`hosts3
      ensures |p| == SPECIES_COUNT && forall k | 0 <= k < SPECIES_COUNT :: p[k] == HostsOf(k)
    {
      [hosts0, hosts1, hosts2, hosts3]
    }

    ghost predicate Shape()
      reads this`hosts0, this`hosts1, this`hosts2, this`hosts3, this`schedule
    {
      PoolsShape(Pools(), schedule)
    }

    /** Every pooled host is scheduled. */
    ghost predicate Pooled()
      reads this`hosts0, this`hosts1, this`hosts2, this`hosts3, this`schedule
    {
      forall j, x | 0 <= j < SPECIES_COUNT && x in HostsOf(j) :: x in schedule
    }

    /** Every scheduled host's carriable set is its species' row of the infection table. */
    ghost predicate Typed()
      reads this`schedule
    {
      forall h {:trigger h.Kind()} | h in schedule :: h.Kind()
    }

    ghost predicate HostsValid()
      reads this`schedule, schedule`viruses, schedule`tempViruses
    {
      forall h {:trigger h.Valid()} | h in schedule :: h.Valid()
    }

    /** Susceptibility: every scheduled host holds and receives only strains that its
        species' row of the infection table allows. */
    lemma ScheduledHostsSusceptible()
      requires Valid()
      ensures forall h | h in schedule :: h.viruses <= CarriableBy(h.speciesId) && h.tempViruses <= CarriableBy(h.speciesId)
    {
      forall h | h in schedule ensures h.viruses <= CarriableBy(h.speciesId) && h.tempViruses <= CarriableBy(h.speciesId) {
        assert h.Valid() && h.Kind();
      }
    }

    /** Every scheduled host is in exactly one pool, that of its species. */
    lemma OnePoolEach()
      requires Valid()
      ensures forall h, k | h in schedule && 0 <= k < SPECIES_COUNT :: h in HostsOf(k) <==> k == h.speciesId
    {
    }

    /** How many hosts of species j one host of species `species` contacts, when the
        pools are `pools`. */
    function Count(pools: PerSpecies, species: SpeciesId, j: SpeciesId): int {
      ContactCount(|pools[j]|, contactRates[species][j])
    }

    predicate CountFits(pools: PerSpecies, species: SpeciesId, j: SpeciesId) {
      0 <= Count(pools, species, j) <= |pools[j]|
    }

    /** The samples of a host of `species` are, for each species j whose count can be
        sampled, that many distinct members of pool j. */
    ghost predicate PicksFit(pools: PerSpecies, species: SpeciesId, picks: PerSpecies) {
      forall j: SpeciesId | CountFits(pools, species, j) ::
        |picks[j]| == Count(pools, species, j) && Distinct(picks[j]) && (forall x | x in picks[j] :: x in pools[j])
    }

    /** The contacts of a host of `species`: the four samples concatenated. Sampling a
        negative number of hosts, or more than a pool holds, is an error. */
    function Contacts(pools: PerSpecies, species: SpeciesId, picks: PerSpecies): (r: Result<seq<Host>>)
      ensures r.Ok? <==> forall j: SpeciesId :: CountFits(pools, species, j)
      ensures r.Ok? && PicksFit(pools, species, picks) ==>
        |r.value| == Count(pools, species, 0) + Count(pools, species, 1) + Count(pools, species, 2) + Count(pools, species, 3)
    {
      if CountFits(pools, species, 0) && CountFits(pools, species, 1) && CountFits(pools, species, 2) && CountFits(pools, species, 3) then
        Ok(picks[0] + picks[1] + picks[2] + picks[3])
      else
        Err("Sample larger than population or is negative")
    }

    /** What spreader s pushes into c's pending buffer in stage 1; nothing when the
        sampling of s fails. */
    ghost function Offered(pools: PerSpecies, s: Host, picks: PerSpecies, transmits: (nat, Strain) -> bool, c: Host): set<Strain>
      reads s`viruses, c`hImmune, c`nImmune
    {
      var r := Contacts(pools, s.speciesId, picks);
      if r.Ok? then s.Sent(r.value, |r.value|, c, transmits) else {}
    }

    /** Every contact is a scheduled host. */
    lemma ContactsAreScheduled(species: SpeciesId, picks: PerSpecies)
      requires Pooled() && PicksFit(Pools(), species, picks) && Contacts(Pools(), species, picks).Ok?
      ensures forall c | c in Contacts(Pools(), species, picks).value :: c in schedule
    {
      var pools := Pools();
      forall c | c in Contacts(pools, species, picks).value ensures c in schedule {
        assert CountFits(pools, species, 0) && CountFits(pools, species, 1) && CountFits(pools, species, 2) && CountFits(pools, species, 3);
        assert c in picks[0] || c in picks[1] || c in picks[2] || c in picks[3];
      }
    }

    /** In a valid population the contacts are distinct scheduled hosts, and the block
        taken from pool j is exactly the contacts of species j. */
    lemma ContactsAreDistinct(species: SpeciesId, picks: PerSpecies)
      requires Valid() && PicksFit(Pools(), species, picks) && Contacts(Pools(), species, picks).Ok?
      ensures Distinct(Contacts(Pools(), species, picks).value)
      ensures forall c | c in Contacts(Pools(), species, picks).value :: c in schedule && c in picks[c.speciesId]
    {
      var pools := Pools();
      forall j: SpeciesId, x | x in picks[j] ensures x.speciesId == j && x in schedule {
        assert CountFits(pools, species, j);
      }
      assert Distinct(picks[0]) && Distinct(picks[1]) && Distinct(picks[2]) && Distinct(picks[3]) by {
        assert CountFits(pools, species, 0) && CountFits(pools, species, 1) && CountFits(pools, species, 2) && CountFits(pools, species, 3);
      }
      SpeciesBlocksDistinct(picks);
    }

    /** With every rate of the row in [0, 1], sampling never fails. */
    lemma ContactsSucceedForUnitRates(pools: PerSpecies, species: SpeciesId, picks: PerSpecies)
      requires UnitRates(contactRates)
      ensures Contacts(pools, species, picks).Ok?
    {
      forall j: SpeciesId ensures CountFits(pools, species, j) {
        ContactCountInPool(|pools[j]|, contactRates[species][j]);
      }
    }

    /** Appends a new host to its species' pool and to the schedule. */
    method AddHost(host: Host)
      requires Valid() && host.Valid() && host.Kind() && host !in schedule
      modifies this
      ensures Valid() && modelStep == old(modelStep)
      ensures schedule == old(schedule) + {host}
      ensures forall k | 0 <= k < SPECIES_COUNT ::
        HostsOf(k) == if k == host.speciesId then old(HostsOf(k)) + [host] else old(HostsOf(k))
    {
      var pools := Pools()[host.speciesId := HostsOf(host.speciesId) + [host]];
      PoolsAdd(Pools(), schedule, host);
      hosts0, hosts1, hosts2, hosts3 := pools[0], pools[1], pools[2], pools[3];
      schedule := schedule + {host};
      assert Pools() == pools;
      assert HostsValid() by {
        forall h | h in schedule ensures h.Valid() {
          if h != host {
            assert h in old(schedule);
          }
        }
      }
    }

    /** Removes a host from its species' pool and from the schedule. */
    method RemoveHost(host: Host)
      requires Valid() && host in schedule
      modifies this
      ensures Valid() && modelStep == old(modelStep)
      ensures schedule == old(schedule) - {host}
      ensures forall k | 0 <= k < SPECIES_COUNT ::
        HostsOf(k) == if k == host.speciesId then RemoveFirst(old(HostsOf(k)), host) else old(HostsOf(k))
    {
      PoolsRemove(Pools(), schedule, host);
      var pools := Pools()[host.speciesId := RemoveFirst(HostsOf(host.speciesId), host)];
      hosts0, hosts1, hosts2, hosts3 := pools[0], pools[1], pools[2], pools[3];
      schedule := schedule - {host};
      assert Pools() == pools;
    }

    /** The initial draws: for host i of species k, the seed strain (if any) is from the
        species' candidates and the immunity strain fits the species' choice. */
    static ghost predicate InitialDrawsFit(initPopSize: seq<nat>, initViruses: Option<seq<Strain>>,
                                           seedDraw: (nat, nat) -> Option<Strain>, immuneDraw: (nat, nat) -> Option<Strain>)
    {
      && |initPopSize| == SPECIES_COUNT
      && (initViruses.Some? ==> forall s | s in initViruses.value :: InUniverse(s))
      && forall k, i | 0 <= k < SPECIES_COUNT && 0 <= i < initPopSize[k] ::
           (seedDraw(k, i).Some? ==> seedDraw(k, i).value in SeedCandidates(k, initViruses))
           && ImmuneDrawFits(k, immuneDraw(k, i))
    }

    /** Creates the initial population: initPopSize[k] hosts of species k, each in
        pool k and in the schedule. */
    constructor (initPopSize: seq<nat>, initViruses: Option<seq<Strain>>, rates: Option<RateTable>,
                 recoveryRate: real, deathRate: real,
                 seedDraw: (nat, nat) -> Option<Strain>, immuneDraw: (nat, nat) -> Option<Strain>)
      requires InitialDrawsFit(initPopSize, initViruses, seedDraw, immuneDraw)
      ensures Valid() && modelStep == 0
      ensures contactRates == (if rates.Some? then rates.value else DefaultContactRates)
      ensures this.recoveryRate == recoveryRate && this.deathRate == deathRate
      ensures forall k | 0 <= k < SPECIES_COUNT :: |HostsOf(k)| == initPopSize[k]
      ensures forall k, i | 0 <= k < SPECIES_COUNT && 0 <= i < initPopSize[k] ::
        fresh(HostsOf(k)[i]) && HostsOf(k)[i].Kind() && HostsOf(k)[i].Initial(k, seedDraw(k, i), immuneDraw(k, i))
    {
      contactRates := if rates.Some? then rates.value else DefaultContactRates;
      this.recoveryRate := recoveryRate;
      this.deathRate := deathRate;
      modelStep := 0;
      hosts0, hosts1, hosts2, hosts3 := [], [], [], [];
      schedule := {};
      new;
      InitialDrawsInUniverse(initPopSize, initViruses, seedDraw, immuneDraw);
      Populate(initPopSize, seedDraw, immuneDraw);
      forall k, i | 0 <= k < SPECIES_COUNT && 0 <= i < initPopSize[k]
        ensures fresh(HostsOf(k)[i]) && HostsOf(k)[i].Kind() && HostsOf(k)[i].Initial(k, seedDraw(k, i), immuneDraw(k, i))
      {
        if k == 0 { } else if k == 1 { } else if k == 2 { } else { }
      }
    }

    /** Fills the empty pools with the initial hosts. */
    method Populate(initPopSize: seq<nat>, seedDraw: (nat, nat) -> Option<Strain>, immuneDraw: (nat, nat) -> Option<Strain>)
      requires |initPopSize| == SPECIES_COUNT
      requires forall k, i | 0 <= k < SPECIES_COUNT && 0 <= i < initPopSize[k] ::
        (seedDraw(k, i).Some? ==> InUniverse(seedDraw(k, i).value)) && (immuneDraw(k, i).Some? ==> InUniverse(immuneDraw(k, i).value))
      modifies this
      ensures Valid() && modelStep == old(modelStep)
      ensures |hosts0| == initPopSize[0] && |hosts1| == initPopSize[1] && |hosts2| == initPopSize[2] && |hosts3| == initPopSize[3]
      ensures forall i | 0 <= i < initPopSize[0] :: fresh(hosts0[i]) && hosts0[i].Initial(0, seedDraw(0, i), immuneDraw(0, i))
      ensures forall i | 0 <= i < initPopSize[1] :: fresh(hosts1[i]) && hosts1[i].Initial(1, seedDraw(1, i), immuneDraw(1, i))
      ensures forall i | 0 <= i < initPopSize[2] :: fresh(hosts2[i]) && hosts2[i].Initial(2, seedDraw(2, i), immuneDraw(2, i))
      ensures forall i | 0 <= i < initPopSize[3] :: fresh(hosts3[i]) && hosts3[i].Initial(3, seedDraw(3, i), immuneDraw(3, i))
    {
      var pools := InitialPopulation(initPopSize, seedDraw, immuneDraw);
      Install(pools[0], pools[1], pools[2], pools[3]);
    }

    /** Makes the four given lists the pools and schedules their hosts. */
    method Install(humans: seq<Host>, pigs: seq<Host>, birds: seq<Host>, poultry: seq<Host>)
      requires Distinct(humans) && Distinct(pigs) && Distinct(birds) && Distinct(poultry)
      requires forall x | x in humans :: x.Valid() && x.Kind() && x.speciesId == 0
      requires forall x | x in pigs :: x.Valid() && x.Kind() && x.speciesId == 1
      requires forall x | x in birds :: x.Valid() && x.Kind() && x.speciesId == 2
      requires forall x | x in poultry :: x.Valid() && x.Kind() && x.speciesId == 3
      modifies this
      ensures Valid() && modelStep == old(modelStep)
      ensures hosts0 == humans && hosts1 == pigs && hosts2 == birds && hosts3 == poultry
    {
      hosts0, hosts1, hosts2, hosts3 := humans, pigs, birds, poultry;
      schedule := Members(humans) + Members(pigs) + Members(birds) + Members(poultry);
      InitialPoolsShape(humans, pigs, birds, poultry);
      assert Pools() == [humans, pigs, birds, poultry];
    }

    /** What spreaders[i..] push into host c's pending buffer in stage 1 when the pools
        are `pools`; spreader k draws the samples picks[k] and the trials transmits[k]. */
    ghost function IncomingFrom(pools: PerSpecies, spreaders: seq<Host>, i: nat, picks: seq<PerSpecies>,
                                transmits: seq<(nat, Strain) -> bool>, c: Host): set<Strain>
      requires i <= |spreaders| == |picks| == |transmits|
      reads spreaders`viruses, c`hImmune, c`nImmune
      decreases |spreaders| - i
    {
      if i == |spreaders| then {}
      else Offered(pools, spreaders[i], picks[i], transmits[i], c) + IncomingFrom(pools, spreaders, i + 1, picks, transmits, c)
    }

    /** Every spreader of spreaders[i..] samples its contacts without error. */
    ghost predicate SamplingFrom(pools: PerSpecies, spreaders: seq<Host>, i: nat, picks: seq<PerSpecies>)
      requires i <= |spreaders| == |picks|
      decreases |spreaders| - i
    {
      i == |spreaders| || (Contacts(pools, spreaders[i].speciesId, picks[i]).Ok? && SamplingFrom(pools, spreaders, i + 1, picks))
    }

    /** A strain reaches c's buffer in stage 1 only when c can carry it, c is not
        fully immune to it, and some spreader of spreaders[i..] holds it. */
    lemma {:induction false} IncomingIsFeasible(pools: PerSpecies, spreaders: seq<Host>, i: nat, picks: seq<PerSpecies>,
                                                transmits: seq<(nat, Strain) -> bool>, c: Host, v: Strain)
      requires i <= |spreaders| == |picks| == |transmits|
      requires v in IncomingFrom(pools, spreaders, i, picks, transmits, c)
      ensures c.IsInfectableBy(v) && !c.FullyImmune(v)
      ensures exists k | i <= k < |spreaders| :: v in spreaders[k].viruses
      decreases |spreaders| - i
    {
      var s := spreaders[i];
      var r := Contacts(pools, s.speciesId, picks[i]);
      if r.Ok? && v in s.Sent(r.value, |r.value|, c, transmits[i]) {
        s.SentMembership(r.value, |r.value|, c, transmits[i], v);
      } else {
        IncomingIsFeasible(pools, spreaders, i + 1, picks, transmits, c, v);
      }
    }

    /** With every contact rate 0, nobody is contacted, so stage 1 delivers nothing. */
    lemma {:induction false} ZeroRatesDeliverNothing(pools: PerSpecies, spreaders: seq<Host>, i: nat, picks: seq<PerSpecies>,
                                                     transmits: seq<(nat, Strain) -> bool>, c: Host)
      requires forall a, b | 0 <= a < SPECIES_COUNT && 0 <= b < SPECIES_COUNT :: contactRates[a][b] == 0.0
      requires i <= |spreaders| == |picks| == |transmits|
      requires forall k | i <= k < |spreaders| :: PicksFit(pools, spreaders[k].speciesId, picks[k])
      ensures IncomingFrom(pools, spreaders, i, picks, transmits, c) == {}
      decreases |spreaders| - i
    {
      if i < |spreaders| {
        var species := spreaders[i].speciesId;
        forall j: SpeciesId ensures CountFits(pools, species, j) && picks[i][j] == [] {
          assert Count(pools, species, j) == 0;
        }
        assert Contacts(pools, species, picks[i]) == Ok([]);
        ZeroRatesDeliverNothing(pools, spreaders, i + 1, picks, transmits, c);
      }
    }

    /** With every contact rate in [0, 1], no spreader's sampling fails. */
    lemma {:induction false} SamplingSucceedsForUnitRates(pools: PerSpecies, spreaders: seq<Host>, i: nat, picks: seq<PerSpecies>)
      requires UnitRates(contactRates) && i <= |spreaders| == |picks|
      ensures SamplingFrom(pools, spreaders, i, picks)
      decreases |spreaders| - i
    {
      if i < |spreaders| {
        ContactsSucceedForUnitRates(pools, spreaders[i].speciesId, picks[i]);
        SamplingSucceedsForUnitRates(pools, spreaders, i + 1, picks);
      }
    }

    /** Stage 1 for the hosts order[i..], with the pools `pools`; the k-th host draws
        picks[k] and transmits[k]. It stops at the first host whose sampling fails. */
    method ContactFrom(ghost pools: PerSpecies, order: seq<Host>, i: nat, picks: seq<PerSpecies>, transmits: seq<(nat, Strain) -> bool>)
      returns (ok: bool)
      requires pools == Pools() && Pooled() && HostsValid() && i <= |order| == |picks| == |transmits|
      requires forall k | i <= k < |order| :: order[k] in schedule && PicksFit(pools, order[k].speciesId, picks[k])
      modifies schedule`tempViruses
      ensures HostsValid()
      ensures ok <==> SamplingFrom(pools, order, i, picks)
      ensures ok ==> forall c | c in schedule :: c.tempViruses == old(c.tempViruses) + IncomingFrom(pools, order, i, picks, transmits, c)
      decreases |order| - i
    {
      if i == |order| {
        return true;
      }
      ok := order[i].ContractVirus(this, picks[i], transmits[i]);
      if ok {
        label Mid:
        ok := ContactFrom(pools, order, i + 1, picks, transmits);
        if ok {
          forall c | c in schedule
            ensures c.tempViruses == old(c.tempViruses) + IncomingFrom(pools, order, i, picks, transmits, c)
          {
            assert old@Mid(c.tempViruses) == old(c.tempViruses) + old@Mid(Offered(pools, order[i], picks[i], transmits[i], c));
            assert old@Mid(order[i].viruses) == order[i].viruses && old@Mid(c.hImmune) == c.hImmune && old@Mid(c.nImmune) == c.nImmune;
            assert Offered(pools, order[i], picks[i], transmits[i], c) == old@Mid(Offered(pools, order[i], picks[i], transmits[i], c));
          }
        }
      }
    }

    /** Stage 2 for every host. */
    method RecombineStage(order: seq<Host>)
      requires Valid() && Lists(order, schedule)
      modifies schedule`viruses, schedule`tempViruses
      ensures Valid()
      ensures forall h | h in schedule ::
        h.tempViruses == {} && h.viruses == Reassort(h.carriable, old(h.viruses) + old(h.tempViruses))
    {
      for i := 0 to |order|
        invariant forall h | h in schedule && h in order[..i] ::
          h.tempViruses == {} && h.viruses == Reassort(h.carriable, old(h.viruses) + old(h.tempViruses))
        invariant forall h | h in schedule && h !in order[..i] ::
          h.tempViruses == old(h.tempViruses) && h.viruses == old(h.viruses)
      {
        assert order[..i + 1] == order[..i] + [order[i]];
        DistinctNotBefore(order, i);
        order[i].Recombine();
      }
      assert order[..|order|] == order;
      assert HostsValid() by {
        forall h | h in schedule ensures h.Valid() {
          ReassortOnlyFeasible(h.carriable, old(h.viruses) + old(h.tempViruses));
        }
      }
    }

    /** Stage 3 for the hosts order[i..] of a duplicate-free order. */
    method RecoveryFrom(order: seq<Host>, i: nat, recoveryU: Host -> real, keepH: Host -> nat -> bool, keepN: Host -> nat -> bool)
      requires HostsValid() && Distinct(order) && i <= |order|
      requires forall k | i <= k < |order| :: order[k] in schedule
      modifies schedule`timeSinceInfection, schedule`viruses, schedule`hImmune, schedule`nImmune, schedule`reporters
      ensures HostsValid()
      ensures forall k | i <= k < |order| :: order[k].Recovered(recoveryRate, recoveryU(order[k]), keepH(order[k]), keepN(order[k]))
      ensures forall h | h in schedule && h !in order[i..] :: unchanged(h)
      decreases |order| - i
    {
      if i == |order| {
        return;
      }
      var h := order[i];
      DistinctNotAfter(order, i);
      h.Recovery(recoveryRate, recoveryU(h), keepH(h), keepN(h));
      label Mid:
      RecoveryFrom(order, i + 1, recoveryU, keepH, keepN);
      SuffixFromHead(order, i);
      forall k | i + 1 <= k < |order|
        ensures order[k].Recovered(recoveryRate, recoveryU(order[k]), keepH(order[k]), keepN(order[k]))
      {
        var x := order[k];
        assert x != h;
        assert old@Mid(x.viruses) == old(x.viruses) && old@Mid(x.tempViruses) == old(x.tempViruses);
        assert old@Mid(x.timeSinceInfection) == old(x.timeSinceInfection);
        assert old@Mid(x.hImmune) == old(x.hImmune) && old@Mid(x.nImmune) == old(x.nImmune);
        assert x.Recovered@Mid(recoveryRate, recoveryU(x), keepH(x), keepN(x));
      }
      assert h.Recovered(recoveryRate, recoveryU(h), keepH(h), keepN(h)) by {
        assert h !in order[i + 1..];
        assert unchanged@Mid(h);
      }
      forall x | x in schedule && x !in order[i..] ensures unchanged(x) {
        assert x != h && x !in order[i + 1..];
      }
    }

    /** Stage 3 for every host. */
    method RecoveryStage(order: seq<Host>, recoveryU: Host -> real, keepH: Host -> nat -> bool, keepN: Host -> nat -> bool)
      requires Valid() && Lists(order, schedule)
      modifies schedule`timeSinceInfection, schedule`viruses, schedule`hImmune, schedule`nImmune, schedule`reporters
      ensures Valid()
      ensures forall h | h in schedule :: h.Recovered(recoveryRate, recoveryU(h), keepH(h), keepN(h))
    {
      RecoveryFrom(order, 0, recoveryU, keepH, keepN);
      forall h | h in schedule ensures h.Recovered(recoveryRate, recoveryU(h), keepH(h), keepN(h)) {
        var k :| 0 <= k < |order| && order[k] == h;
      }
    }

    /** Stage 4 for the hosts order[i..] of the snapshot `order`; hosts born during
        the stage do not act in it. */
    method DemographyFrom(order: seq<Host>, i: nat, born: Host -> bool, immigrant: Host -> Option<Strain>,
                          immigrantImmune: Host -> Option<Strain>, deathU: Host -> real)
      requires Valid() && Distinct(order) && i <= |order|
      requires forall k | i <= k < |order| :: order[k] in schedule
      requires forall k | i <= k < |order| :: (immigrant(order[k]).Some? ==> InUniverse(immigrant(order[k]).value))
                                           && (immigrantImmune(order[k]).Some? ==> InUniverse(immigrantImmune(order[k]).value))
      modifies this, schedule`viruses, schedule`offspring
      ensures Valid() && modelStep == old(modelStep)
      ensures forall k | i <= k < |order| :: order[k].Survived(this, deathU(order[k]))
                                           && order[k].Bore(this, born(order[k]), immigrant(order[k]), immigrantImmune(order[k]))
      ensures forall h | h in old(schedule) && h !in order[i..] ::
                h in schedule && h.viruses == old(h.viruses) && h.offspring == old(h.offspring)
      ensures forall h | h in schedule && h !in old(schedule) ::
                fresh(h) && h.parent != null && h.parent in order[i..] && h.parent.offspring == h
      decreases |order| - i
    {
      if i == |order| {
        return;
      }
      var h := order[i];
      DistinctNotAfter(order, i);
      h.BirthDeath(this, born(h), immigrant(h), immigrantImmune(h), deathU(h));
      ghost var child := h.offspring;
      label Mid:
      DemographyFrom(order, i + 1, born, immigrant, immigrantImmune, deathU);
      SuffixFromHead(order, i);
      forall k | i + 1 <= k < |order|
        ensures order[k].Survived(this, deathU(order[k]))
             && order[k].Bore(this, born(order[k]), immigrant(order[k]), immigrantImmune(order[k]))
      {
        var x := order[k];
        assert x != h && x != child;
        assert old@Mid(x.viruses) == old(x.viruses);
        assert x.Survived@Mid(this, deathU(x)) && x.Bore@Mid(this, born(x), immigrant(x), immigrantImmune(x));
      }
      assert h.Bore(this, born(h), immigrant(h), immigrantImmune(h)) by {
        assert h !in order[i + 1..];
        if h in old@Mid(schedule) {
          assert h.offspring == child;
        }
        if child != null {
          assert child in old@Mid(schedule) && child !in order[i + 1..];
          assert child in schedule && child.viruses == old@Mid(child.viruses);
        }
      }
      assert h.Survived(this, deathU(h)) by {
        assert h !in order[i + 1..];
        if h in old@Mid(schedule) {
          assert h in schedule && h.viruses == old@Mid(h.viruses);
        } else {
          assert h !in schedule;
          assert h.viruses == old@Mid(h.viruses);
        }
      }
      forall x | x in old(schedule) && x !in order[i..]
        ensures x in schedule && x.viruses == old(x.viruses) && x.offspring == old(x.offspring)
      {
        assert x != h && x !in order[i + 1..];
        assert x in old@Mid(schedule) && old@Mid(x.viruses) == old(x.viruses) && old@Mid(x.offspring) == old(x.offspring);
      }
      forall x | x in schedule && x !in old(schedule)
        ensures fresh(x) && x.parent != null && x.parent in order[i..] && x.parent.offspring == x
      {
        if x in old@Mid(schedule) {
          assert x == child;
        }
      }
    }

    /** Stage 4 for every host of the schedule, in the order `order`. */
    method DemographyStage(order: seq<Host>, born: Host -> bool, immigrant: Host -> Option<Strain>,
                           immigrantImmune: Host -> Option<Strain>, deathU: Host -> real)
      requires Valid() && Lists(order, schedule)
      requires forall h | h in schedule :: (immigrant(h).Some? ==> InUniverse(immigrant(h).value))
                                        && (immigrantImmune(h).Some? ==> InUniverse(immigrantImmune(h).value))
      modifies this, schedule`viruses, schedule`offspring
      ensures Valid() && modelStep == old(modelStep)
      ensures forall h | h in old(schedule) :: h.Survived(this, deathU(h))
      ensures forall h | h in old(schedule) :: h.Bore(this, born(h), immigrant(h), immigrantImmune(h))
      ensures forall h | h in schedule && h !in old(schedule) ::
                BornTo(h, old(schedule))
    {
      DemographyFrom(order, 0, born, immigrant, immigrantImmune, deathU);
      forall h | h in old(schedule) ensures h.Survived(this, deathU(h)) {
        var k :| 0 <= k < |order| && order[k] == h;
      }
      forall h | h in old(schedule) ensures h.Bore(this, born(h), immigrant(h), immigrantImmune(h)) {
        var k :| 0 <= k < |order| && order[k] == h;
      }
    }

    /** The draws fit the population: each stage order lists the schedule, samples
        come from the pools, and immigrant strains are in range. */
    ghost predicate DrawsFit(d: Draws)
      reads this`hosts0, this`hosts1, this`hosts2, this`hosts3, this`schedule
    {
      && |d.orders| == 4
      && (forall i | 0 <= i < 4 :: Lists(d.orders[i], schedule))
      && |d.picks| == |d.orders[0]| && |d.transmits| == |d.orders[0]|
      && (forall k | 0 <= k < |d.orders[0]| :: PicksFit(Pools(), d.orders[0][k].speciesId, d.picks[k]))
      && (forall h | h in schedule :: (d.immigrant(h).Some? ==> InUniverse(d.immigrant(h).value))
                                    && (d.immigrantImmune(h).Some? ==> InUniverse(d.immigrantImmune(h).value)))
    }

    /** One time step: the four stages, each run for every host before the next
        begins. A sampling error aborts the step. */
    method Step(d: Draws) returns (ok: bool)
      requires Valid() && DrawsFit(d)
      modifies this, schedule`tempViruses, schedule`viruses, schedule`timeSinceInfection,
               schedule`hImmune, schedule`nImmune, schedule`reporters, schedule`offspring
      ensures Valid()
      ensures ok <==> old(SamplingFrom(Pools(), d.orders[0], 0, d.picks))
      ensures ok ==> modelStep == old(modelStep) + 1
      ensures ok ==> forall h | h in schedule ::
                h in old(schedule) || BornTo(h, old(schedule))
      ensures !ok ==> modelStep == old(modelStep) && schedule == old(schedule)
      ensures !ok ==> forall h | h in old(schedule) ::
        h.viruses == old(h.viruses) && h.hImmune == old(h.hImmune) && h.nImmune == old(h.nImmune)
    {
      ok := ContactFrom(Pools(), d.orders[0], 0, d.picks, d.transmits);
      if ok {
        LaterStages(d);
      }
    }

    /** Stages 2 to 4 of a step whose contact stage succeeded, then the step count. */
    method LaterStages(d: Draws)
      requires Valid() && DrawsFit(d)
      modifies this, schedule`tempViruses, schedule`viruses, schedule`timeSinceInfection,
               schedule`hImmune, schedule`nImmune, schedule`reporters, schedule`offspring
      ensures Valid()
      ensures modelStep == old(modelStep) + 1
      ensures forall h | h in schedule ::
                h in old(schedule) || BornTo(h, old(schedule))
    {
      RecombineStage(d.orders[1]);
      RecoveryStage(d.orders[2], d.recoveryU, d.keepH, d.keepN);
      assert schedule == old(schedule);
      DemographyStage(d.orders[3], d.born, d.immigrant, d.immigrantImmune, d.deathU);
      modelStep := modelStep + 1;
    }
  }
}
