# Influenza reassortment: a verified model of the host state machine

This project models the core of an agent-based simulation of influenza
reassortment between four host species: Human, Pig, Bird and Poultry. A
strain is a pair (H, N) of segment indices with H < 16 and N < 9. A static
4 x 16 x 9 infection table says which species can carry which strain.

Each host holds a set of strains, a pending buffer of strains received this
step, a time-since-infection counter, H and N immune memories, and one
presence field per strain of the universe. The population keeps one list of
hosts per species and a schedule of all hosts. A step runs four stages, each
for every host of a snapshot before the next stage begins:

1. contact: every host samples contacts from the four species lists and
   pushes its strains into their pending buffers;
2. recombination: a host merges its buffer and regenerates its strains from
   its segments;
3. recovery and waning of immune memory;
4. birth and death.

Modules:

- `Wrappers` (wrappers.dfy): `Option` and `Result`.
- `Parameters` (parameters.dfy): the strain universe, the literal infection
  table, and facts about the table.
- `Strains` (strains.dfy): set algebra on strain sets, namely segments,
  reassortment and waning, plus the per-strain presence fields and their
  `H{h+1}N{n+1}` names.
- `Rates` (rates.dfy): Python's `int()` truncation, the contact count, the
  recovery chance, the species mortality factor and the death threshold.
- `Model` (hosts and the population, model.dfy):
  - the `Host` class, with one method per stage, plus the host's constructor;
  - the `VirusModel` class, holding the four species lists `hosts0`..`hosts3`,
    the schedule and the step counter, with its constructor (the initial
    population), the four stage passes and `Step`.

All randomness comes in as oracle arguments:

- the samples `random.sample` draws for each host (`picks`);
- each transmission trial, per contact position and strain (`transmits`);
- the uniform numbers compared with the recovery chance and the death threshold;
- the keep draws of waning;
- the birth draw and the immigrant strains;
- the initial seed and immunity draws;
- the shuffled host order of each stage.

Where a draw is constrained by the code, the oracle carries that constraint
as a precondition. For example, immigrant strains are in the universe, and
samples are distinct members of the sampled list.

Two behaviours of the code are modelled as written:

- `random.sample` raises on a contact count that is negative or larger than
  the list (model.py:212-223). The model does not clamp the count: it returns
  an error from `Contacts`, and `Step` reports `ok == false`.
- A new host's immunity strain puts both of its indices into the H memory.
  The N memory stays empty (model.py:58-60).

The table lookup `is_infectable_by` (model.py:154-156) is answered from a set
each host keeps: `carriable`, its species' row of the table. `Host.Kind` says
that the set is that row, every host constructor ensures it, and
`VirusModel.Valid` requires it of every scheduled host.

Stage 4 records each birth in two specification-only fields: the parent's
`offspring` and the newborn's `parent`. They let the stage contracts say which
host was born to which.

## Model

| member | source | states |
|---|---|---|
| Parameters.VirusesAreTheUniverse | parameters.py:8 | a strain is in the universe exactly when H < 16 and N < 9 |
| Parameters.VirusCount | parameters.py:8 | the universe holds 144 strains |
| Parameters.CarriableByMembership | model.py:154-156 | a strain is in a species' carriable set exactly when that species' table entry for it is nonzero |
| Parameters.TableShape | parameters.py:10-74 | the table is 4 x 16 x 9 and every entry is 0 or 1 |
| Parameters.BirdCarriesEveryStrain | parameters.py:43-58 | birds can carry every strain of the universe |
| Parameters.EveryStrainHasAHost | model.py:18-19 | every column sum of the table over species is at least 1, so the per-strain division never divides by zero |
| Parameters.PoultryCarriesLowH | parameters.py:59-74 | poultry can carry exactly the strains with H index at most 12 |
| Model.HumanSeedsAreHumanStrains | model.py:309 | the nine human seed strains are exactly the strains humans can carry |
| Model.PigSeedsArePigStrains | model.py:329 | the eight pig seed strains are exactly the strains pigs can carry |
| Model.DefaultDrawsTakeHold | model.py:302-372 | with the default seed choices, every seed and immunity strain drawn for an initial host is one its species can carry |
| Model.SpeciesIndex | model.py:40-43 | a name is accepted exactly when it is one of the four species, and its id is its position in the list |
| Model.SpeciesIndexOfEachName | model.py:43 | each of the four names maps back to its own position |
| Model.DefaultRatesAreUnit | model.py:288-292 | every default contact rate lies in [0, 1] |
| Model.RemoveFirst | model.py:198-204 | list removal of a present element shortens the list by one |
| Model.RemoveFirstCount | model.py:198-204 | list removal takes away exactly one occurrence of the element and keeps every other element |
| Model.RemoveFirstDistinct | model.py:198-204 | in a list without repeats, removal deletes exactly the host removed and keeps the rest distinct |
| Strains.ReassortMembership | model.py:114-118 | a strain results from reassortment exactly when some held strain has its H, some held strain has its N, and the species can carry it |
| Strains.Reassort | model.py:114-118 | reassortment of a host's strains yields only strains its species can carry |
| Strains.ReassortOnlyFeasible | model.py:118 | reassortment never yields a strain the species cannot carry |
| Strains.ReassortNoNewSegments | model.py:114-118 | reassortment introduces no H or N segment that was not held |
| Strains.ReassortKeepsFeasible | model.py:112-118 | every held strain the species can carry survives reassortment |
| Strains.ReassortEmpty | model.py:112-118 | no strains in gives no strains out |
| Strains.ReassortMonotone | model.py:114-118 | more strains in never gives fewer strains out |
| Strains.ReassortIdempotent | model.py:112-118 | a second reassortment changes nothing |
| Strains.ReassortFixesClosed | model.py:112-118 | reassortment leaves a set unchanged exactly when the set is closed (carriable and holding every carriable pairing of its segments) |
| Strains.ReassortCompletes | model.py:114-118 | strains covering H segments {h1, h2} and N segments {n1, n2} give exactly the carriable ones of the four pairings |
| Strains.ReassortExample | tests.py:194-205 | {(0,0), (1,0), (0,1)} in a host that can carry everything becomes {(0,0), (1,0), (0,1), (1,1)} |
| Strains.WaneShrinks | model.py:142-148 | waning keeps a subset, and a segment survives exactly when its keep draw succeeds |
| Strains.Wane | model.py:142-148 | waning keeps a subset of the remembered segments |
| Strains.WaneAllKept | model.py:142-148 | when every draw keeps, the memory is unchanged |
| Strains.WaneAllDropped | model.py:142-148 | when every draw forgets, the memory empties |
| Strains.ReporterNameInjective | model.py:64-65 | two strains of the universe with the same field name are the same strain |
| Strains.NatToString | model.py:65 | a number is written with at least one digit, and with exactly one when it is below ten |
| Strains.ReporterName | model.py:65 | the field name of a strain is `H`, the digits of its H index plus one, `N`, the digits of its N index plus one |
| Strains.ReporterNamesInjective | model.py:64-65 | the 144 field names are pairwise distinct |
| Strains.ReporterMapReadsPresence | model.py:151-152 | there is one field per strain of the universe, and it reads 1 when the strain is held and 0 otherwise |
| Strains.ReporterMapRecoversStrains | model.py:151-152 | the strains whose field reads 1 are exactly the held strains |
| Strains.BuildReporters | model.py:64-65 | the loop over the universe builds exactly the presence fields of the held strains |
| Rates.Truncate | model.py:212 | `int()` of a float truncates toward zero |
| Rates.ContactCountInPool | model.py:212-223 | a rate in [0, 1] asks for between none and all of a list |
| Rates.ContactCount | model.py:212 | the contacts asked of a list are `int()` of list length times rate: none or more for a nonnegative rate, none or fewer for a nonpositive one |
| Rates.RecoveryChanceMonotone | model.py:132 | the recovery chance is nonnegative and does not decrease with the time infected |
| Rates.RecoveryChance | model.py:132 | the recovery chance is the recovery rate times the steps infected: zero at no steps, nonnegative for a nonnegative rate |
| Rates.Mortality | model.py:186-193 | the species mortality factor is at least 1 |
| Rates.DeathThresholdMonotone | model.py:196 | carrying more strains never lowers the death threshold, and it is at least the base death rate |
| Rates.Power | model.py:196 | a power of a base of at least one is at least one |
| Rates.DeathThreshold | model.py:196 | the death chance is the death rate times the species mortality to the number of strains: the death rate itself with no strains, and never below it |
| Model.Host.constructor | model.py:24-65 | the new host has a known species with the id of its name, and its carriable set is that species' row of the table; it holds the seed strain only if its species can carry it; an accepted immunity strain puts both indices into the H memory; counter 0, N memory and buffer empty, presence fields those of its strains |
| Model.Host.IsInfectableByTable | model.py:154-156 | the host's feasibility check is the table lookup for its species |
| Model.Host.IsInfectableBy | model.py:154-156 | a strain can infect the host when it is among the strains its species can carry |
| Model.Host.FullyImmune | model.py:96 | the host is immune to a strain when it remembers both its H and its N segment |
| Model.Host.SentMembership | model.py:86-106 | a strain reaches a contact exactly when the spreader holds it, the contact can carry it and is not immune to both segments, and its trial succeeds at a position of that contact |
| Model.Host.SpreadTo | model.py:87-106 | one contact's buffer gains exactly the held strains it can carry, is not fully immune to, and whose trial succeeds |
| Model.Host.SpreadAll | model.py:86-106 | each host's buffer gains exactly what the contact loop sends it, and every buffer holds only strains its host can carry |
| Model.Host.ContractVirus | model.py:70-106 | the host fails exactly when its sampling fails; otherwise every scheduled host's buffer gains exactly what this spreader offers it; only buffers change |
| Model.Host.Recombine | model.py:108-118 | the buffer is emptied and the strains become the reassortment of old strains plus buffer, so they are all carriable |
| Model.Host.Recovery | model.py:120-152 | an uninfected host keeps its counter; an infected one counts one more step, or on recovery loses its strains, resets the counter and remembers their H and N segments; memories then wane by their draws; presence fields are refreshed |
| Model.Host.Recovers | model.py:126-135 | an infected host recovers when its draw is at most the recovery chance after one more step |
| Model.Host.Reproduce | model.py:163-183 | a birth creates a fresh host of the parent's species, tied to that species' row of the table and built from the immigrant draws, and appends it to that species' list and to the schedule only; no birth changes nothing |
| Model.Host.Die | model.py:196-207 | the host leaves exactly its species' list and the schedule, and its strains are cleared |
| Model.Host.Dies | model.py:196 | a host dies when its draw is below the death threshold for its species and its number of strains |
| Model.Host.BirthDeath | model.py:158-207 | the host has an offspring exactly when its birth draw says so, a fresh scheduled host of its species in the initial state of the immigrant draws; the schedule gains that newborn and loses the host exactly when its draw is below the death threshold, in which case its strains are cleared |
| Model.PoolsAdd | model.py:173-183 | appending a new host to its own species' list keeps the lists consistent with the schedule |
| Model.PoolsRemove | model.py:197-205 | removing a scheduled host from its list keeps the lists consistent with the schedule |
| Model.InitialHosts | model.py:302-320 | the loop creates n distinct fresh hosts of the species, each tied to its species' row of the table, host i made from its own seed and immunity draws |
| Model.InitialPopulation | model.py:302-372 | list k holds initPopSize[k] distinct fresh hosts of species k, each tied to its species' row of the table and made from its draws |
| Model.InitialPoolsShape | model.py:302-372 | four duplicate-free lists of hosts of their own species, with the schedule holding their hosts, are consistent |
| Model.VirusModel.OnePoolEach | model.py:173-204 | every scheduled host is in exactly one list, that of its species |
| Model.VirusModel.Contacts | model.py:209-224 | sampling succeeds exactly when every count lies between 0 and the list's length; the contacts then number the sum of the four counts |
| Model.VirusModel.ContactsAreScheduled | model.py:209-224 | every contact is a scheduled host |
| Model.VirusModel.ContactsAreDistinct | model.py:209-224 | the contacts are distinct, and each comes from the chunk of its own species |
| Model.VirusModel.ContactsSucceedForUnitRates | model.py:212-223 | with every rate in [0, 1], sampling never fails |
| Model.VirusModel.ScheduledHostsSusceptible | model.py:86-118 | every scheduled host holds and receives only strains that its species' row of the infection table allows |
| Model.VirusModel.AddHost | model.py:173-183 | a new host tied to its species' row of the table is appended to its species' list and added to the schedule; the other lists are unchanged |
| Model.VirusModel.RemoveHost | model.py:197-205 | the host is removed from its species' list and from the schedule; the other lists are unchanged |
| Model.VirusModel.constructor | model.py:229-386 | list k holds initPopSize[k] fresh hosts of species k, host i made from its draws and tied to its species' row of the table; all of them are scheduled and valid; the step counter is 0 |
| Model.VirusModel.Populate | model.py:302-372 | fills the four lists and the schedule with the initial hosts, each made from its draws; the population is valid, so every host is tied to its species' row of the table |
| Model.VirusModel.Install | model.py:316-370 | the given lists become the species lists, and the schedule holds exactly their hosts |
| Model.VirusModel.IncomingIsFeasible | model.py:86-106 | a strain reaches a buffer in stage 1 only if its host can carry it, is not fully immune to it, and some spreader holds it |
| Model.VirusModel.ZeroRatesDeliverNothing | model.py:209-224 | with every contact rate 0, stage 1 delivers nothing |
| Model.VirusModel.SamplingSucceedsForUnitRates | model.py:212-223 | with every rate in [0, 1], no host's sampling fails in stage 1 |
| Model.VirusModel.ContactFrom | model.py:70-106 | stage 1 over the snapshot succeeds exactly when every host's sampling does; then each buffer gains exactly what the spreaders offer it |
| Model.VirusModel.RecombineStage | model.py:108-118 | after stage 2 every buffer is empty and every host holds the reassortment of its old strains plus buffer |
| Model.VirusModel.RecoveryFrom | model.py:120-152 | stage 3 over the hosts order[i..] of the snapshot: each of them has its recovery-and-waning outcome and every other host is untouched |
| Model.VirusModel.RecoveryStage | model.py:120-152 | after stage 3 every host has its recovery-and-waning outcome |
| Model.VirusModel.DemographyFrom | model.py:158-207 | stage 4 over the hosts order[i..] of the snapshot: each of them is scheduled and keeps its strains exactly when it did not die, and has an offspring exactly when its birth draw says so, a fresh scheduled host of its species in the initial state of its immigrant draws; every other host is untouched; every host that joined is fresh and is the offspring of its parent, which is one of order[i..] |
| Model.VirusModel.DemographyStage | model.py:158-207 | after stage 4 each host of the snapshot is scheduled and keeps its strains exactly when it did not die, and has an offspring exactly when its birth draw says so, a fresh scheduled host of its species in the initial state of its immigrant draws; every other scheduled host is fresh and is the offspring of its parent, a host of the snapshot |
| Model.VirusModel.LaterStages | model.py:388-400 | stages 2 to 4 keep the population valid and add one to the step counter; every host scheduled afterwards was scheduled before or is a fresh offspring of a host that was |
| Model.VirusModel.Step | model.py:388-400 | a step aborts exactly when some host's sampling fails, and then leaves the counter, the schedule and every host's strains and immune memories as they were; otherwise the counter grows by one and the lists stay consistent, and every host scheduled afterwards was scheduled before or is a fresh offspring of a host that was |

## Left out

- Mesa is not part of this model: `Agent`, `next_id` and `StagedActivation`.
  - Object identity replaces the integer host ids and `__eq__`.
  - The schedule is a set of hosts.
  - The per-stage shuffle is an oracle order listing the snapshot once each.
- The random number generators are oracle arguments. No distribution is modelled.
- The float transmission rate is one boolean oracle per contact position and strain. This covers the base infection rate, the fitness table built with `np.random.normal`, seasonal forcing and the cross-immunity factor. Only the fully-immune case, which forces the rate to 0, is modelled.
- Recovery and death compare an oracle real with the exact formulas. The keep draws of waning are oracle booleans.
- The contact-rate table is 4 x 4. The source's trailing one-element axis is dropped. The model takes an optional table or the default.
- The `it`, `run`, `running` and rate fields that only feed the left-out float arithmetic are not modelled.
- The reporter JSON, the `DataCollector`, the `print` every ten steps, run.py, order_test.py and the other tests are not modelled.
- The presence fields are a map keyed by strain, not 144 attributes named `H{h+1}N{n+1}`. The names are modelled by `ReporterName` and proved distinct.
- Rates.ContactCount: the product of list length and contact rate is exact, whereas the source multiplies floats and then truncates (model.py:212-223). Where the float product falls just below an integer, the source asks for one contact fewer: a list of 100 at rate 0.57 gives 56 in floats and 57 here.
- Model.VirusModel.constructor: the default arguments of `__init__` (model.py:229-232), such as `init_pop_size=[900, 650, 1000, 750]`, `recovery_rate=0.2` and `death_rate=0.039`, are not modelled; every parameter except the contact-rate table is passed explicitly.
- Model.VirusModel.constructor: an `init_viruses` strain outside the universe is excluded by the precondition (`InitialDrawsFit`). The source accepts it and then fails with an `IndexError` in the table lookup (model.py:156), or reads a wrapped-around entry for a negative index.
- Model.VirusModel.constructor: an empty `init_viruses` list is accepted, and no host is then seeded. The source's `random.choice` raises `IndexError` on it whenever a seed is drawn (model.py:311, 331, 349, 366).
- Model.VirusModel.constructor: the hosts are created first and then put into the lists and the schedule, instead of one at a time; the final state is the same.
- Model.VirusModel.ContactFrom: when a sampling fails, the source raises mid-stage and leaves the buffers of the earlier spreaders filled; the model says nothing about the buffers in that case.
- Model.VirusModel.Step: states the abort condition, the step counter, consistency of the lists and that new hosts are fresh offspring of old ones, but not the composed outcome of the four stages; each stage method states its own outcome.
- Model.VirusModel.LaterStages: states validity, the counter and that new hosts are fresh offspring of old ones, not the outcomes of stages 2-4 (see RecombineStage, RecoveryStage, DemographyStage).
- Model.Host.constructor: an unknown species name is excluded by the precondition; the source raises `AssertionError` for it (model.py:40), and `SpeciesIndex` returns `None` for it.
- Model.Host.BirthDeath: the changes to the species lists are stated by Reproduce and Die, not repeated in this method's contract.
