/** What the engine reports besides the assignments: the ledger it starts from
    (`initializeNurseStats`), the advisory warnings (`getWarnings`) and the
    final fairness score (`calculateFinalFairnessScore`), as functions of the
    ledger and its iteration order. */
module SchedulerReport {
  import opened Wrappers
  import opened Seqs
  import opened FairnessCalculator
  import opened SchedulerTypes
  import opened SchedulerRules
  import opened SchedulerSpec

  // ---------------------------------------------------------------------------
  // The starting ledger.
  // ---------------------------------------------------------------------------

  /** `order` lists every key of the ledger once: the iteration order of a
      JavaScript `Map`. */
  ghost predicate OrderIsKeys(ledger: map<string, NurseStats>, order: seq<string>) {
    && Distinct(order)
    && OrderInLedger(ledger, order)
    && (forall x :: x in ledger ==> x in order)
  }

  /** A ledger and its iteration order. */
  datatype Seeding = Seeding(ledger: map<string, NurseStats>, order: seq<string>)

  /** `initializeNurseStats` over `nurses`: each nurse's entry is set to zero; a
      `Map.set` on a new key appends it to the iteration order, on a key already
      present keeps its place. */
  function Seeded(ledger: map<string, NurseStats>, order: seq<string>, nurses: seq<Nurse>): (r: Seeding)
    ensures OrderInLedger(ledger, order) ==> OrderInLedger(r.ledger, r.order)
    decreases |nurses|
  {
    if nurses == [] then Seeding(ledger, order)
    else
      var prev := Seeded(ledger, order, nurses[..|nurses| - 1]);
      var n := nurses[|nurses| - 1];
      Seeding(prev.ledger[n.id := ZeroStats(n)],
              if n.id in prev.ledger then prev.order else prev.order + [n.id])
  }

  /** The ids of `nurses`, in order. */
  function Ids(nurses: seq<Nurse>): (ids: seq<string>)
    ensures |ids| == |nurses| && forall i :: 0 <= i < |ids| ==> ids[i] == nurses[i].id
  {
    seq(|nurses|, i requires 0 <= i < |nurses| => nurses[i].id)
  }

  lemma IdSetLast(nurses: seq<Nurse>)
    requires nurses != []
    ensures IdSet(nurses) == IdSet(nurses[..|nurses| - 1]) + {nurses[|nurses| - 1].id}
  {
    var init := nurses[..|nurses| - 1];
    forall x | x in IdSet(nurses)
      ensures x in IdSet(init) + {nurses[|nurses| - 1].id}
    {
      var i :| 0 <= i < |nurses| && nurses[i].id == x;
      if i < |init| {
        assert init[i] == nurses[i];
      }
    }
    forall x | x in IdSet(init)
      ensures x in IdSet(nurses)
    {
      var i :| 0 <= i < |init| && init[i].id == x;
      assert nurses[i] == init[i];
    }
  }

  lemma DistinctByInit(nurses: seq<Nurse>)
    requires nurses != [] && DistinctBy(nurses, IdOf)
    ensures DistinctBy(nurses[..|nurses| - 1], IdOf)
    ensures forall i :: 0 <= i < |nurses| - 1 ==> nurses[i].id != nurses[|nurses| - 1].id
  {
    var init := nurses[..|nurses| - 1];
    forall i, j | 0 <= i < j < |init|
      ensures init[i].id != init[j].id
    {
      assert init[i] == nurses[i] && init[j] == nurses[j];
    }
  }

  /** Seeding keeps the order listing every key once and only extends it. */
  lemma {:induction false} SeededOrder(ledger: map<string, NurseStats>, order: seq<string>, nurses: seq<Nurse>)
    requires OrderIsKeys(ledger, order)
    ensures var r := Seeded(ledger, order, nurses);
      OrderIsKeys(r.ledger, r.order) && Extends(order, r.order)
    decreases |nurses|
  {
    if nurses != [] {
      var init, n := nurses[..|nurses| - 1], nurses[|nurses| - 1];
      SeededOrder(ledger, order, init);
      var prev := Seeded(ledger, order, init);
      if n.id !in prev.ledger {
        var r := Seeded(ledger, order, nurses);
        assert r.order == prev.order + [n.id];
        assert r.order[..|order|] == prev.order[..|order|];
      }
    }
  }

  /** Seeding makes the keys the old keys and the nurses' ids and leaves other
      entries unchanged. */
  lemma {:induction false} SeededKeys(ledger: map<string, NurseStats>, order: seq<string>, nurses: seq<Nurse>)
    ensures var r := Seeded(ledger, order, nurses).ledger;
      && r.Keys == ledger.Keys + IdSet(nurses)
      && (forall x :: x in ledger && x !in IdSet(nurses) ==> r[x] == ledger[x])
    decreases |nurses|
  {
    if nurses != [] {
      SeededKeys(ledger, order, nurses[..|nurses| - 1]);
      IdSetLast(nurses);
    }
  }

  /** Each nurse's entry is a zero entry for a nurse with that id, the nurse
      itself when the ids are distinct. */
  lemma {:induction false} SeededEntries(ledger: map<string, NurseStats>, order: seq<string>, nurses: seq<Nurse>)
    ensures var r := Seeded(ledger, order, nurses).ledger;
      && (forall i :: 0 <= i < |nurses| ==>
            nurses[i].id in r && r[nurses[i].id].nurse.id == nurses[i].id &&
            r[nurses[i].id] == ZeroStats(r[nurses[i].id].nurse))
      && (DistinctBy(nurses, IdOf) ==>
            forall i :: 0 <= i < |nurses| ==> r[nurses[i].id] == ZeroStats(nurses[i]))
    decreases |nurses|
  {
    if nurses != [] {
      var init, n := nurses[..|nurses| - 1], nurses[|nurses| - 1];
      SeededEntries(ledger, order, init);
      var prev := Seeded(ledger, order, init).ledger;
      var r := Seeded(ledger, order, nurses).ledger;
      assert r == prev[n.id := ZeroStats(n)];
      forall i | 0 <= i < |nurses|
        ensures nurses[i].id in r && r[nurses[i].id].nurse.id == nurses[i].id
        ensures r[nurses[i].id] == ZeroStats(r[nurses[i].id].nurse)
      {
        if i < |init| && nurses[i].id != n.id {
          assert nurses[i] == init[i];
        }
      }
      if DistinctBy(nurses, IdOf) {
        DistinctByInit(nurses);
        forall i | 0 <= i < |init|
          ensures r[nurses[i].id] == ZeroStats(nurses[i])
        {
          assert nurses[i] == init[i];
        }
      }
    }
  }

  /** Seeding an empty ledger with nurses of distinct ids lists their ids in
      order, and every entry starts at zero, so within the limits. */
  lemma {:induction false} SeedFresh(nurses: seq<Nurse>)
    requires DistinctBy(nurses, IdOf)
    ensures var r := Seeded(map[], [], nurses);
      && r.order == Ids(nurses)
      && r.ledger.Keys == IdSet(nurses)
      && (forall i :: 0 <= i < |nurses| ==> r.ledger[nurses[i].id] == ZeroStats(nurses[i]))
      && LedgerOk(r.ledger)
    decreases |nurses|
  {
    SeededEntries(map[], [], nurses);
    SeededKeys(map[], [], nurses);
    if nurses != [] {
      var init, n := nurses[..|nurses| - 1], nurses[|nurses| - 1];
      DistinctByInit(nurses);
      SeedFresh(init);
      SeededKeys(map[], [], init);
      assert n.id !in IdSet(init);
      assert Ids(nurses) == Ids(init) + [n.id];
    }
    var r := Seeded(map[], [], nurses);
    forall x | x in r.ledger
      ensures WithinLimits(r.ledger[x])
    {
      var i :| 0 <= i < |nurses| && nurses[i].id == x;
    }
  }

  // ---------------------------------------------------------------------------
  // Warnings.
  // ---------------------------------------------------------------------------

  /** A leave record the warning counts against a nurse: its snake_case nurse id
      is the nurse's and it is not a preference (a record without a type counts). */
  function CountsAgainst(id: string): Leave -> bool {
    (l: Leave) => l.snakeNurseId == Some(id) && l.kind != Some(Preference)
  }

  /** The warning about the responsible nurse: more than 10 leave records. */
  function ResponsibleWarnings(responsible: Option<Nurse>, leaves: seq<Leave>): seq<Warning> {
    if responsible.None? then []
    else
      var n := |Filter(leaves, CountsAgainst(responsible.value.id))|;
      if n > 10 then [ResponsibleOftenAbsent(n)] else []
  }

  /** `Array.from(nurseStats.values())`: the entries in iteration order. */
  function Entries(ledger: map<string, NurseStats>, order: seq<string>): (e: seq<NurseStats>)
    requires OrderInLedger(ledger, order)
    ensures |e| == |order| && forall i :: 0 <= i < |e| ==> e[i] == ledger[order[i]]
  {
    seq(|order|, i requires 0 <= i < |order| => ledger[order[i]])
  }

  /** Fewer hours than 70% of the average. */
  function Below(avg: real): NurseStats -> bool {
    (s: NurseStats) => (s.totalHours as real) < avg * 0.7
  }

  /** One warning per entry below 70% of the average, in order. */
  function FewHoursWarnings(entries: seq<NurseStats>, avg: real): seq<Warning>
    decreases |entries|
  {
    if entries == [] then []
    else
      var last := entries[|entries| - 1];
      FewHoursWarnings(entries[..|entries| - 1], avg) +
        (if Below(avg)(last) then [FewHours(last.nurse.name, last.totalHours)] else [])
  }

  /** `getWarnings`: the responsible nurse's warning first, then the staff warnings. */
  function Warnings(responsible: Option<Nurse>, leaves: seq<Leave>, ledger: map<string, NurseStats>, order: seq<string>): seq<Warning>
    requires OrderInLedger(ledger, order)
  {
    ResponsibleWarnings(responsible, leaves) +
      FewHoursWarnings(Entries(ledger, order), Mean(Column(ledger, order, Hours)))
  }

  /** There is one staff warning per entry below the threshold, and a warning is
      issued exactly for such an entry, with its name and hours. */
  lemma {:induction false} FewHoursWarningsSpec(entries: seq<NurseStats>, avg: real)
    ensures |FewHoursWarnings(entries, avg)| == |Filter(entries, Below(avg))|
    ensures forall w :: w in FewHoursWarnings(entries, avg) <==>
      exists i :: 0 <= i < |entries| && Below(avg)(entries[i]) && w == FewHours(entries[i].nurse.name, entries[i].totalHours)
    decreases |entries|
  {
    if entries != [] {
      var init, last := entries[..|entries| - 1], entries[|entries| - 1];
      FewHoursWarningsSpec(init, avg);
      assert entries == init + [last];
      FilterConcat(init, [last], Below(avg));
      assert Filter([last], Below(avg)) == if Below(avg)(last) then [last] else [];
      forall w | w in FewHoursWarnings(entries, avg)
        ensures exists i :: 0 <= i < |entries| && Below(avg)(entries[i]) && w == FewHours(entries[i].nurse.name, entries[i].totalHours)
      {
        if w in FewHoursWarnings(init, avg) {
          var i :| 0 <= i < |init| && Below(avg)(init[i]) && w == FewHours(init[i].nurse.name, init[i].totalHours);
          assert entries[i] == init[i];
        } else {
          assert Below(avg)(entries[|entries| - 1]);
        }
      }
      forall w | exists i :: 0 <= i < |entries| && Below(avg)(entries[i]) && w == FewHours(entries[i].nurse.name, entries[i].totalHours)
        ensures w in FewHoursWarnings(entries, avg)
      {
        var i :| 0 <= i < |entries| && Below(avg)(entries[i]) && w == FewHours(entries[i].nurse.name, entries[i].totalHours);
        if i < |init| {
          assert entries[i] == init[i];
        }
      }
    }
  }

  /** When every entry has the same non-negative hours nobody is warned about
      few hours. */
  lemma EvenHoursNoWarnings(ledger: map<string, NurseStats>, order: seq<string>)
    requires OrderInLedger(ledger, order)
    requires forall i :: 0 <= i < |order| ==> ledger[order[i]].totalHours == ledger[order[0]].totalHours >= 0
    ensures FewHoursWarnings(Entries(ledger, order), Mean(Column(ledger, order, Hours))) == []
  {
    var entries, hours := Entries(ledger, order), Column(ledger, order, Hours);
    var avg := Mean(hours);
    if |order| > 0 {
      MeanOfEqual(hours);
    }
    FewHoursWarningsSpec(entries, avg);
    FilterDropsAll(entries, Below(avg));
  }

  /** With non-negative hours, never every entry is warned about: someone has at
      least the average, and so at least 70% of it. */
  lemma NotEveryoneBelow(ledger: map<string, NurseStats>, order: seq<string>)
    requires OrderInLedger(ledger, order) && |order| > 0
    requires forall i :: 0 <= i < |order| ==> ledger[order[i]].totalHours >= 0
    ensures |FewHoursWarnings(Entries(ledger, order), Mean(Column(ledger, order, Hours)))| < |order|
  {
    var entries, hours := Entries(ledger, order), Column(ledger, order, Hours);
    var avg := Mean(hours);
    FewHoursWarningsSpec(entries, avg);
    var k := ArgMax(hours);
    MeanBounds(hours, 0.0, hours[k]);
    assert !Below(avg)(entries[k]);
    FilterShorter(entries, Below(avg), k);
  }

  // ---------------------------------------------------------------------------
  // The final fairness score.
  // ---------------------------------------------------------------------------

  /** `calculateFinalFairnessScore`: the score of the standard deviations of the
      hours, night counts and weekend counts over the ledger. */
  function FinalFairness(ledger: map<string, NurseStats>, order: seq<string>, sqrt: real -> real): FairnessScore
    requires OrderInLedger(ledger, order)
  {
    CalculateFairnessScore(StdDevs(
      StandardDeviation(Column(ledger, order, Hours), sqrt),
      StandardDeviation(Column(ledger, order, Nights), sqrt),
      StandardDeviation(Column(ledger, order, Weekends), sqrt)))
  }

  /** With a correct square root every score lies between 0 and 100. */
  lemma FinalFairnessBounds(ledger: map<string, NurseStats>, order: seq<string>, sqrt: real -> real)
    requires OrderInLedger(ledger, order) && IsSquareRoot(sqrt)
    ensures var f := FinalFairness(ledger, order, sqrt);
      && 0.0 <= f.overall <= 100.0 && 0.0 <= f.hoursScore <= 100.0
      && 0.0 <= f.nightsScore <= 100.0 && 0.0 <= f.weekendsScore <= 100.0
  {
    StandardDeviationZero(Column(ledger, order, Hours), sqrt);
    StandardDeviationZero(Column(ledger, order, Nights), sqrt);
    StandardDeviationZero(Column(ledger, order, Weekends), sqrt);
  }

  /** Everyone with the same hours, nights and weekends scores a perfect 100. */
  lemma EvenLedgerPerfect(ledger: map<string, NurseStats>, order: seq<string>, sqrt: real -> real)
    requires OrderInLedger(ledger, order) && IsSquareRoot(sqrt)
    requires forall i :: 0 <= i < |order| ==>
      ledger[order[i]].totalHours == ledger[order[0]].totalHours &&
      ledger[order[i]].nightShiftCount == ledger[order[0]].nightShiftCount &&
      ledger[order[i]].weekendShiftCount == ledger[order[0]].weekendShiftCount
    ensures FinalFairness(ledger, order, sqrt) == FairnessScore(100.0, 100.0, 100.0, 100.0)
  {
    StandardDeviationZero(Column(ledger, order, Hours), sqrt);
    StandardDeviationZero(Column(ledger, order, Nights), sqrt);
    StandardDeviationZero(Column(ledger, order, Weekends), sqrt);
    PerfectScore();
  }
}
