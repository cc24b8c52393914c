/**
 * Set algebra on a host's strains: the segments it holds, reassortment of
 * those segments into every strain its species can carry, waning of immune
 * memory, and the per-strain presence fields reported for each host.
 */
module Strains {
  import opened Parameters

  /** The H segments present in any strain of `s`. */
  function HSegments(s: set<Strain>): set<nat> {
    set v | v in s :: v.h
  }

  /** The N segments present in any strain of `s`. */
  function NSegments(s: set<Strain>): set<nat> {
    set v | v in s :: v.n
  }

  /** Reassortment: every pairing of an H segment and an N segment held in `s`
      that is in `carriable`, the set of strains the host's species can carry. */
  function Reassort(carriable: set<Strain>, s: set<Strain>): (r: set<Strain>)
    ensures r <= carriable
  {
    set h, n | h in HSegments(s) && n in NSegments(s) && Strain(h, n) in carriable :: Strain(h, n)
  }

  /** A strain set is closed when it only holds carriable strains and already
      holds every carriable pairing of its own segments. */
  ghost predicate Closed(carriable: set<Strain>, s: set<Strain>) {
    && s <= carriable
    && (forall a, b | a in s && b in s && Strain(a.h, b.n) in carriable :: Strain(a.h, b.n) in s)
  }

  lemma ReassortMembership(carriable: set<Strain>, s: set<Strain>, v: Strain)
    ensures v in Reassort(carriable, s) <==>
      (exists a, b | a in s && b in s :: a.h == v.h && b.n == v.n) && v in carriable
  {
    if v.h in HSegments(s) && v.n in NSegments(s) && v in carriable {
      assert v == Strain(v.h, v.n);
    }
  }

  /** Susceptibility: reassortment never yields a strain the species cannot carry. */
  lemma ReassortOnlyFeasible(carriable: set<Strain>, s: set<Strain>)
    ensures Reassort(carriable, s) <= carriable
  {
  }

  /** Reassortment introduces no segment that was not already held. */
  lemma ReassortNoNewSegments(carriable: set<Strain>, s: set<Strain>)
    ensures HSegments(Reassort(carriable, s)) <= HSegments(s)
    ensures NSegments(Reassort(carriable, s)) <= NSegments(s)
  {
  }

  /** Every held strain the species can carry survives reassortment. */
  lemma ReassortKeepsFeasible(carriable: set<Strain>, s: set<Strain>)
    ensures s * carriable <= Reassort(carriable, s)
  {
    forall v | v in s && v in carriable ensures v in Reassort(carriable, s) {
      ReassortMembership(carriable, s, v);
    }
  }

  /** An uninfected host stays uninfected. */
  lemma ReassortEmpty(carriable: set<Strain>)
    ensures Reassort(carriable, {}) == {}
  {
  }

  lemma ReassortMonotone(carriable: set<Strain>, s: set<Strain>, t: set<Strain>)
    requires s <= t
    ensures Reassort(carriable, s) <= Reassort(carriable, t)
  {
  }

  /** A second reassortment pass changes nothing. */
  lemma {:induction false} ReassortIdempotent(carriable: set<Strain>, s: set<Strain>)
    ensures Reassort(carriable, Reassort(carriable, s)) == Reassort(carriable, s)
  {
    var r := Reassort(carriable, s);
    forall v | v in r ensures v in Reassort(carriable, r) {
      assert v.h in HSegments(r) && v.n in NSegments(r);
      assert v == Strain(v.h, v.n);
    }
    ReassortNoNewSegments(carriable, s);
    forall v | v in Reassort(carriable, r) ensures v in r {
      assert v.h in HSegments(s) && v.n in NSegments(s);
      assert v == Strain(v.h, v.n);
    }
  }

  /** Reassortment leaves a set unchanged exactly when the set is closed. */
  lemma {:induction false} ReassortFixesClosed(carriable: set<Strain>, s: set<Strain>)
    ensures Reassort(carriable, s) == s <==> Closed(carriable, s)
  {
    if Closed(carriable, s) {
      forall v | v in Reassort(carriable, s) ensures v in s {
        ReassortMembership(carriable, s, v);
        var a, b :| a in s && b in s && a.h == v.h && b.n == v.n;
        assert v == Strain(a.h, b.n);
      }
      ReassortKeepsFeasible(carriable, s);
    }
    if Reassort(carriable, s) == s {
      forall a, b | a in s && b in s && Strain(a.h, b.n) in carriable
        ensures Strain(a.h, b.n) in s
      {
        ReassortMembership(carriable, s, Strain(a.h, b.n));
      }
    }
  }

  /** Completion: strains covering H segments {h1, h2} and N segments {n1, n2}
      reassort into exactly the carriable ones of the four pairings. */
  lemma {:induction false} ReassortCompletes(carriable: set<Strain>, s: set<Strain>, h1: nat, h2: nat, n1: nat, n2: nat)
    requires HSegments(s) == {h1, h2} && NSegments(s) == {n1, n2}
    ensures Reassort(carriable, s) ==
      set v | v in {Strain(h1, n1), Strain(h1, n2), Strain(h2, n1), Strain(h2, n2)} && v in carriable
  {
    var four := {Strain(h1, n1), Strain(h1, n2), Strain(h2, n1), Strain(h2, n2)};
    forall v | v in four && v in carriable ensures v in Reassort(carriable, s) {
      assert v == Strain(v.h, v.n) && v.h in HSegments(s) && v.n in NSegments(s);
    }
  }

  /** The recombination scenario {(0,0), (1,0), (0,1)} in a host that can carry
      everything (a bird) gains exactly (1,1). */
  lemma ReassortExample()
    ensures Reassort(CarriableBy(2), {Strain(0, 0), Strain(1, 0), Strain(0, 1)}) ==
      {Strain(0, 0), Strain(1, 0), Strain(0, 1), Strain(1, 1)}
  {
    var s := {Strain(0, 0), Strain(1, 0), Strain(0, 1)};
    assert HSegments(s) == {0, 1} && NSegments(s) == {0, 1};
    ReassortCompletes(CarriableBy(2), s, 0, 1, 0, 1);
    BirdCarriesEveryStrain();
    CarriableByMembership(2);
  }

  /** Antigenic drift: each immune segment survives when its own keep draw succeeds. */
  function Wane(immune: set<nat>, keep: nat -> bool): (r: set<nat>)
    ensures r <= immune
  {
    set i | i in immune && keep(i)
  }

  /** Waning only forgets: it keeps exactly the segments whose draw succeeded. */
  lemma WaneShrinks(immune: set<nat>, keep: nat -> bool)
    ensures Wane(immune, keep) <= immune
    ensures forall i | i in immune :: i in Wane(immune, keep) <==> keep(i)
  {
  }

  /** With every draw keeping, memory is unchanged. */
  lemma WaneAllKept(immune: set<nat>, keep: nat -> bool)
    requires forall i | i in immune :: keep(i)
    ensures Wane(immune, keep) == immune
  {
  }

  /** With every draw forgetting, memory empties. */
  lemma WaneAllDropped(immune: set<nat>, keep: nat -> bool)
    requires forall i | i in immune :: !keep(i)
    ensures Wane(immune, keep) == {}
  {
  }

  /** Decimal digits of a natural number, as Python's str() writes them. */
  function NatToString(k: nat): (r: string)
    ensures |r| >= 1 && (|r| == 1 <==> k < 10)
    decreases k
  {
    if k < 10 then ["0123456789"[k]] else NatToString(k / 10) + ["0123456789"[k % 10]]
  }

  lemma {:induction false} NatToStringShape(k: nat)
    ensures |NatToString(k)| >= 1
    ensures k >= 10 ==> |NatToString(k)| >= 2
    ensures NatToString(k)[|NatToString(k)| - 1] == "0123456789"[k % 10]
  {
    if k >= 10 {
      NatToStringShape(k / 10);
    }
  }

  /** Different numbers are written differently. */
  lemma {:induction false} NatToStringInjective(a: nat, b: nat)
    ensures NatToString(a) == NatToString(b) ==> a == b
    decreases a
  {
    if NatToString(a) == NatToString(b) {
      NatToStringShape(a);
      NatToStringShape(b);
      if a >= 10 && b >= 10 {
        var sa, sb := NatToString(a), NatToString(b);
        assert sa[..|sa| - 1] == NatToString(a / 10);
        assert sb[..|sb| - 1] == NatToString(b / 10);
        NatToStringInjective(a / 10, b / 10);
      }
    }
  }

  /** The name of the presence field reported for strain s: H{h+1}N{n+1}. */
  function ReporterName(s: Strain): (r: string)
    ensures |r| == |NatToString(s.h + 1)| + |NatToString(s.n + 1)| + 2 >= 4
    ensures r[0] == 'H' && r[|NatToString(s.h + 1)| + 1] == 'N'
  {
    "H" + NatToString(s.h + 1) + "N" + NatToString(s.n + 1)
  }

  /** Distinct strains of the universe have distinct reporter names. */
  lemma {:induction false} ReporterNameInjective(s: Strain, t: Strain)
    requires InUniverse(s) && InUniverse(t)
    ensures ReporterName(s) == ReporterName(t) ==> s == t
  {
    if ReporterName(s) == ReporterName(t) {
      var a, b := NatToString(s.h + 1), NatToString(t.h + 1);
      var name := ReporterName(s);
      assert |NatToString(s.n + 1)| == 1 && |NatToString(t.n + 1)| == 1;
      assert |a| == |b|;
      assert a == name[1..1 + |a|] && b == name[1..1 + |b|];
      assert NatToString(s.n + 1) == name[|name| - 1..] == NatToString(t.n + 1);
      NatToStringInjective(s.h + 1, t.h + 1);
      NatToStringInjective(s.n + 1, t.n + 1);
    }
  }

  lemma ReporterNamesInjective()
    ensures forall s, t | s in Viruses && t in Viruses && ReporterName(s) == ReporterName(t) :: s == t
  {
    forall s, t | s in Viruses && t in Viruses && ReporterName(s) == ReporterName(t) ensures s == t {
      ReporterNameInjective(s, t);
    }
  }

  /** The presence fields of strains in `done` (a part of the universe), keyed by
      the strain each field is named after: 1 when held, 0 otherwise. */
  ghost function PartialReporters(done: set<Strain>, viruses: set<Strain>): map<Strain, int> {
    map s | s in done :: if s in viruses then 1 else 0
  }

  /** All 144 presence fields of a host holding `viruses`; the field for strain s
      is named ReporterName(s). */
  ghost function ReporterMap(viruses: set<Strain>): map<Strain, int> {
    PartialReporters(Viruses, viruses)
  }

  /** There is one field per strain of the universe, and the field of strain s
      reads the presence of s. */
  lemma ReporterMapReadsPresence(viruses: set<Strain>)
    ensures ReporterMap(viruses).Keys == Viruses
    ensures forall s | InUniverse(s) ::
      s in ReporterMap(viruses) && ReporterMap(viruses)[s] == (if s in viruses then 1 else 0)
  {
    VirusesAreTheUniverse();
  }

  /** The strains whose field reads 1 are exactly the held strains. */
  lemma {:induction false} ReporterMapRecoversStrains(viruses: set<Strain>)
    requires viruses <= Viruses
    ensures (set s | s in ReporterMap(viruses) && ReporterMap(viruses)[s] == 1) == viruses
  {
    ReporterMapReadsPresence(viruses);
  }

  /** Builds the presence fields one strain of the universe at a time. */
  method BuildReporters(viruses: set<Strain>) returns (r: map<Strain, int>)
    ensures r == ReporterMap(viruses)
  {
    var remaining := Viruses;
    r := map[];
    while remaining != {}
      invariant remaining <= Viruses
      invariant r == PartialReporters(Viruses - remaining, viruses)
      decreases remaining
    {
      var s :| s in remaining;
      assert Viruses - (remaining - {s}) == (Viruses - remaining) + {s};
      r := r[s := if s in viruses then 1 else 0];
      remaining := remaining - {s};
    }
  }
}
