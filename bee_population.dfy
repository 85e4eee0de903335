/**
 * A population of the genetic search: an array of bees, each holding a
 * chromosome and the score it earned.  A new generation keeps the best
 * tenth of the bees (after sorting by score, best first) and fills the rest
 * with mutated crossovers of tournament winners.  `Random.nextInt` and
 * `Math.random()` draws are parameters.
 */
module BeePopulation {
  import opened Wrappers
  import BC = BeeChromosome

  /** `MUTATION_RATE`: the float `0.05f`, widened exactly to a double. */
  const MUTATION_RATE: real := 0.0500000007450580596923828125

  /** `TOURNAMENT_SIZE`. */
  const TOURNAMENT_SIZE: nat := 2

  /** `Float.MIN_VALUE`: the smallest positive float, 2 to the power -149. */
  const FLOAT_MIN_VALUE: real := 1.0 / 713623846352979940529142984724747568191373312.0

  /** The number of elites, `(int)(n * ELITE_RATIO)` with the ratio 0.1. */
  function EliteCount(n: nat): (e: nat)
    ensures e <= n && e * 10 <= n < (e + 1) * 10
  {
    n / 10
  }

  class Bee {
    var chromosome: BC.BeeChromosome?
    var score: real

    /** `new Bee()`: Java's default field values. */
    constructor ()
      ensures chromosome == null && score == 0.0
    {
      chromosome := null;
      score := 0.0;
    }
  }

  /** The scores of a sequence of bees. */
  function Scores(s: seq<Bee>): (r: seq<real>)
    reads s
    ensures |r| == |s|
  {
    if |s| == 0 then [] else Scores(s[..|s| - 1]) + [s[|s| - 1].score]
  }

  /** The `i`-th score is the `i`-th bee's. */
  lemma {:induction false} ScoresAt(s: seq<Bee>, i: nat)
    requires i < |s|
    ensures Scores(s)[i] == s[i].score
  {
    if i < |s| - 1 {
      ScoresAt(s[..|s| - 1], i);
    }
  }

  /** Every bee holds a chromosome. */
  predicate HaveChromosomes(s: seq<Bee>)
    reads s
  {
    forall i :: 0 <= i < |s| ==> s[i].chromosome != null
  }

  /** Best score first. */
  ghost predicate Descending(s: seq<Bee>)
    reads s
  {
    forall i, j :: 0 <= i < j < |s| ==> s[i].score >= s[j].score
  }

  // ---------------------------------------------------------------------
  // Tournament selection, on the scores of the population

  /** Every draw is an index of the population. */
  predicate InRange(draws: seq<int>, n: int)
  {
    forall k :: 0 <= k < |draws| ==> 0 <= draws[k] < n
  }

  /** `tournamentSelect` as written, over the draws taken so far: the best
      score starts at `Float.MIN_VALUE` with a fresh bee, and a drawn bee
      replaces the best only with a strictly greater score.  The result is
      the position of the winning draw, or None when the fresh bee is kept. */
  function AsWrittenWinner(scores: seq<real>, draws: seq<int>): (w: Option<nat>)
    requires InRange(draws, |scores|)
    ensures w.Some? ==> w.value < |draws|
  {
    if |draws| == 0 then None
    else
      var w := AsWrittenWinner(scores, draws[..|draws| - 1]);
      var bestScore := if w.None? then FLOAT_MIN_VALUE else scores[draws[w.value]];
      if scores[draws[|draws| - 1]] > bestScore then Some(|draws| - 1) else w
  }

  /** The tournament as intended: the first draw is the best so far, and a
      later draw replaces it only with a strictly greater score. */
  function IntendedWinner(scores: seq<real>, draws: seq<int>): (w: nat)
    requires 0 < |draws| && InRange(draws, |scores|)
    ensures w < |draws|
  {
    if |draws| == 1 then 0
    else
      var w := IntendedWinner(scores, draws[..|draws| - 1]);
      if scores[draws[|draws| - 1]] > scores[draws[w]] then |draws| - 1 else w
  }

  /** Position `k` holds the first of the highest scores among draws `0..n`. */
  predicate IsFirstMaximum(scores: seq<real>, draws: seq<int>, n: nat, k: nat)
    requires InRange(draws, |scores|) && n <= |draws|
  {
    && k < n
    && (forall j :: 0 <= j < n ==> scores[draws[j]] <= scores[draws[k]])
    && (forall j :: 0 <= j < k ==> scores[draws[j]] < scores[draws[k]])
  }

  /** The intended winner is the first of the highest-scoring draws. */
  lemma {:induction false} IntendedWinnerIsFirstMaximum(scores: seq<real>, draws: seq<int>)
    requires 0 < |draws| && InRange(draws, |scores|)
    ensures IsFirstMaximum(scores, draws, |draws|, IntendedWinner(scores, draws))
  {
    if |draws| > 1 {
      var before := draws[..|draws| - 1];
      IntendedWinnerIsFirstMaximum(scores, before);
      assert forall j :: 0 <= j < |before| ==> before[j] == draws[j];
    }
  }

  /** As written, there is no winner exactly when no draw scores above
      `Float.MIN_VALUE`; a winner is the first of the highest-scoring draws. */
  lemma {:induction false} AsWrittenWinnerSpec(scores: seq<real>, draws: seq<int>)
    requires InRange(draws, |scores|)
    ensures AsWrittenWinner(scores, draws).None? <==> forall j :: 0 <= j < |draws| ==> scores[draws[j]] <= FLOAT_MIN_VALUE
    ensures AsWrittenWinner(scores, draws).Some? ==>
      IsFirstMaximum(scores, draws, |draws|, AsWrittenWinner(scores, draws).value) &&
      scores[draws[AsWrittenWinner(scores, draws).value]] > FLOAT_MIN_VALUE
  {
    if |draws| > 0 {
      var before := draws[..|draws| - 1];
      AsWrittenWinnerSpec(scores, before);
      assert forall j :: 0 <= j < |before| ==> before[j] == draws[j];
    }
  }

  lemma FirstMaximumUnique(scores: seq<real>, draws: seq<int>, n: nat, k1: nat, k2: nat)
    requires InRange(draws, |scores|) && n <= |draws|
    requires IsFirstMaximum(scores, draws, n, k1) && IsFirstMaximum(scores, draws, n, k2)
    ensures k1 == k2
  {
    assert scores[draws[k1]] == scores[draws[k2]];
  }

  /** The two tournaments agree whenever some draw scores above `Float.MIN_VALUE`. */
  lemma AsWrittenAgreesAboveMinimum(scores: seq<real>, draws: seq<int>, j: nat)
    requires 0 < |draws| && InRange(draws, |scores|)
    requires j < |draws| && scores[draws[j]] > FLOAT_MIN_VALUE
    ensures AsWrittenWinner(scores, draws) == Some(IntendedWinner(scores, draws))
  {
    AsWrittenWinnerSpec(scores, draws);
    IntendedWinnerIsFirstMaximum(scores, draws);
    FirstMaximumUnique(scores, draws, |draws|, AsWrittenWinner(scores, draws).value, IntendedWinner(scores, draws));
  }

  /** The input that shows the defect: in a population whose bees all score 0
      (as every bee of a new random population does), the tournament as
      written finds no winner and hands back a bee without a chromosome,
      which the crossover then dereferences; the intended tournament picks
      the first draw. */
  lemma ZeroScoresHaveNoWinner()
    ensures AsWrittenWinner([0.0, 0.0], [0, 1]) == None
    ensures IntendedWinner([0.0, 0.0], [0, 1]) == 0
  {
    AsWrittenWinnerSpec([0.0, 0.0], [0, 1]);
  }

  predicate IsPick(draws: seq<int>, n: int)
  {
    |draws| == TOURNAMENT_SIZE && InRange(draws, n)
  }

  // ---------------------------------------------------------------------
  // Sorting by score, best first

  /** `Arrays.sort` with the comparator `Float.compare(bee2.score, bee1.score)`:
      the bees in descending order of score. */
  method SortByScore(a: array<Bee>)
    modifies a
    ensures Descending(a[..])
    ensures multiset(a[..]) == old(multiset(a[..]))
  {
    if a.Length == 0 {
      return;
    }
    var i := 1;
    while i < a.Length
      invariant 1 <= i <= a.Length
      invariant Descending(a[..i])
      invariant multiset(a[..]) == old(multiset(a[..]))
    {
      InsertAt(a, i);
      i := i + 1;
    }
  }

  /** One step of insertion: moves `a[i]` left past every lower score. */
  method InsertAt(a: array<Bee>, i: nat)
    requires 0 < i < a.Length && Descending(a[..i])
    modifies a
    ensures Descending(a[..i + 1])
    ensures multiset(a[..]) == old(multiset(a[..]))
  {
    assert forall p, q :: 0 <= p < q < i ==> a[p].score >= a[q].score by {
      forall p, q | 0 <= p < q < i ensures a[p].score >= a[q].score {
        assert a[..i][p] == a[p] && a[..i][q] == a[q];
      }
    }
    var j := i;
    while j > 0 && a[j - 1].score < a[j].score
      invariant 0 <= j <= i
      invariant multiset(a[..]) == old(multiset(a[..]))
      invariant forall p, q :: 0 <= p < q <= i && p != j && q != j ==> a[p].score >= a[q].score
      invariant forall q :: j < q <= i ==> a[j].score > a[q].score
    {
      Swap(a, j - 1, j);
      j := j - 1;
    }
  }

  method Swap(a: array<Bee>, i: nat, j: nat)
    requires i < a.Length && j < a.Length
    modifies a
    ensures a[..] == old(a[..])[i := old(a[j])][j := old(a[i])]
    ensures multiset(a[..]) == old(multiset(a[..]))
  {
    a[i], a[j] := a[j], a[i];
  }

  // ---------------------------------------------------------------------
  // Text form

  /** The text of each bee's chromosome, in array order. */
  function ChromosomeStrings(s: seq<Bee>, doubleToString: real -> string): (r: seq<string>)
    reads s, set b | b in s :: b.chromosome
    requires HaveChromosomes(s)
    ensures |r| == |s|
  {
    if |s| == 0 then []
    else ChromosomeStrings(s[..|s| - 1], doubleToString) + [s[|s| - 1].chromosome.ToString(doubleToString)]
  }

  lemma {:induction false} TerminatedSnoc(parts: seq<string>, p: string, sep: char)
    ensures BC.Terminated(parts + [p], sep) == BC.Terminated(parts, sep) + p + [sep]
  {
    if |parts| > 0 {
      TerminatedSnoc(parts[1..], p, sep);
      assert (parts + [p])[1..] == parts[1..] + [p];
    } else {
      assert BC.Terminated([p], sep) == p + [sep] + BC.Terminated([], sep);
    }
  }

  /** The population's text splits at its line breaks into one chromosome
      text per bee, in array order, when no gene text holds a line break. */
  lemma PopulationLines(s: seq<Bee>, doubleToString: real -> string)
    requires HaveChromosomes(s)
    requires forall x: real :: '\n' !in doubleToString(x)
    ensures BC.Fields(BC.Terminated(ChromosomeStrings(s, doubleToString), '\n'), '\n') ==
            ChromosomeStrings(s, doubleToString) + [""]
  {
    var lines := ChromosomeStrings(s, doubleToString);
    forall i | 0 <= i < |lines|
      ensures '\n' !in lines[i]
    {
      LineHasNoBreak(s, doubleToString, i);
    }
    BC.FieldsOfTerminated(lines, '\n');
  }

  lemma {:induction false} LineHasNoBreak(s: seq<Bee>, doubleToString: real -> string, i: nat)
    requires HaveChromosomes(s) && i < |s|
    requires forall x: real :: '\n' !in doubleToString(x)
    ensures '\n' !in ChromosomeStrings(s, doubleToString)[i]
  {
    if i == |s| - 1 {
      var g := s[i].chromosome.Genes();
      BC.IntToStringRoundTrip(g.lowEnergyThresh);
      NoBreakInInt(g.lowEnergyThresh);
    } else {
      assert HaveChromosomes(s[..|s| - 1]);
      LineHasNoBreak(s[..|s| - 1], doubleToString, i);
    }
  }

  lemma NoBreakInInt(n: int)
    ensures '\n' !in BC.IntToString(n)
  {
    var s := BC.IntToString(n);
    var digits := if n < 0 then BC.NatToString(-n) else BC.NatToString(n);
    assert !BC.IsDigit('\n');
    assert forall i :: 0 <= i < |digits| ==> digits[i] != '\n';
    if n < 0 {
      assert s == "-" + digits;
    }
  }

  class BeePopulation {
    var populationSize: int
    var bees: array<Bee>

    /** The array holds `populationSize` bees. */
    predicate Valid()
      reads this
    {
      bees.Length == populationSize
    }

    /** `BeePopulation(populationSize)`: random bees with genes below
        (50.0, 50.0, 5000, 1000.0) and score 0; `draws[i]` are the four draws
        of bee `i`'s chromosome. */
    constructor Random(populationSize: nat, draws: seq<(real, real, real, real)>)
      requires |draws| == populationSize
      ensures Valid() && this.populationSize == populationSize && fresh(bees)
      ensures forall i :: 0 <= i < bees.Length ==>
        && fresh(bees[i]) && bees[i].score == 0.0 && bees[i].chromosome != null && fresh(bees[i].chromosome)
        && bees[i].chromosome.Genes() ==
           BC.RandomGenes(50.0, 50.0, 5000, 1000.0, draws[i].0, draws[i].1, draws[i].2, draws[i].3)
    {
      var placeholder := new Bee();
      var newBees := new Bee[populationSize](_ => placeholder);
      for i := 0 to populationSize
        invariant forall p :: 0 <= p < i ==>
          && fresh(newBees[p]) && newBees[p] != placeholder && newBees[p].score == 0.0
          && newBees[p].chromosome != null && fresh(newBees[p].chromosome)
          && newBees[p].chromosome.Genes() ==
             BC.RandomGenes(50.0, 50.0, 5000, 1000.0, draws[p].0, draws[p].1, draws[p].2, draws[p].3)
      {
        var bee := new Bee();
        bee.chromosome := new BC.BeeChromosome.Random(50.0, 50.0, 5000, 1000.0, draws[i].0, draws[i].1, draws[i].2, draws[i].3);
        bee.score := 0.0;
        newBees[i] := bee;
      }
      this.populationSize := populationSize;
      bees := newBees;
    }

    /** `BeePopulation(Bee[] beeArr)`: a new array holding the same bees. */
    constructor FromArray(beeArr: array<Bee>)
      ensures Valid() && populationSize == beeArr.Length && fresh(bees)
      ensures bees[..] == beeArr[..]
    {
      var newBees := new Bee[beeArr.Length](i reads beeArr requires 0 <= i < beeArr.Length => beeArr[i]);
      populationSize := beeArr.Length;
      bees := newBees;
    }

    /** `tournamentSelect` as written: a drawn bee wins only with a score
        above `Float.MIN_VALUE`; with no winner the result is a fresh bee
        without a chromosome. */
    method TournamentSelect(draws: seq<int>) returns (bestBee: Bee)
      requires Valid() && IsPick(draws, populationSize)
      ensures var w := AsWrittenWinner(Scores(bees[..]), draws);
        && (w.Some? ==> bestBee == bees[draws[w.value]])
        && (w.None? ==> fresh(bestBee) && bestBee.chromosome == null && bestBee.score == FLOAT_MIN_VALUE)
    {
      ghost var scores := Scores(bees[..]);
      bestBee := new Bee();
      bestBee.score := FLOAT_MIN_VALUE;
      ghost var best: Option<nat> := None;
      for i := 0 to TOURNAMENT_SIZE
        invariant best == AsWrittenWinner(scores, draws[..i])
        invariant best.Some? ==> best.value < i && bestBee == bees[draws[best.value]]
        invariant best.None? ==> fresh(bestBee) && bestBee.chromosome == null && bestBee.score == FLOAT_MIN_VALUE
      {
        assert draws[..i + 1][..i] == draws[..i];
        ScoresAt(bees[..], draws[i]);
        if best.Some? {
          ScoresAt(bees[..], draws[best.value]);
        }
        var selectedBee := bees[draws[i]];
        if selectedBee.score > bestBee.score {
          bestBee := selectedBee;
          best := Some(i);
        }
      }
      assert draws[..TOURNAMENT_SIZE] == draws;
    }

    /** The tournament as intended: the bee of the first of the
        highest-scoring draws. */
    method TournamentSelectIntended(draws: seq<int>) returns (bestBee: Bee)
      requires Valid() && IsPick(draws, populationSize)
      ensures bestBee == bees[draws[IntendedWinner(Scores(bees[..]), draws)]]
      ensures HaveChromosomes(bees[..]) ==> bestBee.chromosome != null
    {
      ghost var scores := Scores(bees[..]);
      bestBee := bees[draws[0]];
      ghost var best: nat := 0;
      for i := 1 to TOURNAMENT_SIZE
        invariant best < i
        invariant best == IntendedWinner(scores, draws[..i])
        invariant bestBee == bees[draws[best]]
      {
        assert draws[..i + 1][..i] == draws[..i];
        ScoresAt(bees[..], draws[i]);
        ScoresAt(bees[..], draws[best]);
        var selectedBee := bees[draws[i]];
        if selectedBee.score > bestBee.score {
          bestBee := selectedBee;
          best := i;
        }
      }
      assert draws[..TOURNAMENT_SIZE] == draws;
      assert bestBee == bees[..][draws[best]];
    }

    /** `createNewGeneration`, with the intended tournament: the bees are
        sorted best first in place; the new array keeps the first tenth of
        them and fills the rest with fresh bees whose chromosome is the
        mutated crossover of two tournament winners.  `picks[k]` are the draws
        of the two tournaments of the `k`-th new bee, `mutations[k]` the draws
        of its mutation. */
    method CreateNewGeneration(picks: seq<(seq<int>, seq<int>)>, mutations: seq<BC.GeneDraws>)
      returns (ghost elites: nat, ghost parentScores: seq<real>, ghost parentGenes: seq<BC.GeneValues>)
      requires Valid() && HaveChromosomes(bees[..])
      requires |picks| == |mutations| == populationSize - EliteCount(populationSize)
      requires forall k :: 0 <= k < |picks| ==> IsPick(picks[k].0, populationSize) && IsPick(picks[k].1, populationSize)
      modifies this, bees
      ensures Valid() && populationSize == old(populationSize) && fresh(bees)
      ensures Descending(old(bees)[..]) && multiset(old(bees)[..]) == old(multiset(bees[..]))
      ensures elites == EliteCount(populationSize)
      ensures parentScores == Scores(old(bees)[..]) && HasGenes(old(bees)[..], parentGenes)
      ensures forall i :: 0 <= i < elites ==> bees[i] == old(bees)[i]
      ensures forall i :: elites <= i < populationSize ==>
        && fresh(bees[i]) && fresh(bees[i].chromosome)
        && IsNewBee(bees[i], ChildGenes(parentScores, parentGenes, picks[i - elites], mutations[i - elites]))
      ensures HaveChromosomes(bees[..])
    {
      SortByScore(bees);
      SortedKeepsChromosomes(old(bees[..]), bees[..]);
      elites, parentScores, parentGenes := ReplaceBees(picks, mutations);
    }

    /** The part of `createNewGeneration` after the sort: the array is
        replaced by the next generation built from the sorted bees. */
    method ReplaceBees(picks: seq<(seq<int>, seq<int>)>, mutations: seq<BC.GeneDraws>)
      returns (ghost elites: nat, ghost parentScores: seq<real>, ghost parentGenes: seq<BC.GeneValues>)
      requires Valid() && HaveChromosomes(bees[..])
      requires |picks| == |mutations| == populationSize - EliteCount(populationSize)
      requires forall k :: 0 <= k < |picks| ==> IsPick(picks[k].0, populationSize) && IsPick(picks[k].1, populationSize)
      modifies this
      ensures Valid() && populationSize == old(populationSize) && fresh(bees)
      ensures elites == EliteCount(populationSize)
      ensures parentScores == Scores(old(bees)[..]) && HasGenes(old(bees)[..], parentGenes)
      ensures forall i :: 0 <= i < elites ==> bees[i] == old(bees)[i]
      ensures forall i :: elites <= i < populationSize ==>
        && fresh(bees[i]) && fresh(bees[i].chromosome)
        && IsNewBee(bees[i], ChildGenes(parentScores, parentGenes, picks[i - elites], mutations[i - elites]))
      ensures HaveChromosomes(bees[..])
    {
      parentScores := Scores(bees[..]);
      parentGenes := GenesOf(bees[..]);
      GenesOfHasGenes(bees[..]);
      assert parentScores == Scores(old(bees)[..]) && HasGenes(old(bees)[..], parentGenes);
      var numElites := EliteCount(populationSize);
      elites := numElites;
      var newBees := NextGeneration(numElites, picks, mutations, parentScores, parentGenes);
      bees := newBees;
    }

    /** The new array `createNewGeneration` builds from the sorted bees: the
        first `elites` bees kept, the rest new children. */
    method NextGeneration(elites: nat, picks: seq<(seq<int>, seq<int>)>, mutations: seq<BC.GeneDraws>,
                          ghost scores: seq<real>, ghost genes: seq<BC.GeneValues>) returns (newBees: array<Bee>)
      requires Valid() && scores == Scores(bees[..]) && HasGenes(bees[..], genes)
      requires elites == EliteCount(populationSize)
      requires |picks| == |mutations| == populationSize - elites
      requires forall k :: 0 <= k < |picks| ==> IsPick(picks[k].0, populationSize) && IsPick(picks[k].1, populationSize)
      ensures fresh(newBees) && newBees.Length == populationSize
      ensures forall i :: 0 <= i < elites ==> newBees[i] == bees[i]
      ensures forall i :: elites <= i < populationSize ==>
        && fresh(newBees[i]) && fresh(newBees[i].chromosome)
        && IsNewBee(newBees[i], ChildGenes(scores, genes, picks[i - elites], mutations[i - elites]))
      ensures HaveChromosomes(newBees[..])
    {
      var placeholder := new Bee();
      newBees := new Bee[populationSize](_ => placeholder);
      assert HaveChromosomes(bees[..elites]);
      CopyPrefix(newBees, bees, elites);
      var kids := NewChildren(picks, mutations, scores, genes);
      CopyInto(newBees, elites, kids);
    }

    /** The children of `createNewGeneration`'s second loop, one per pick, in
        order. */
    method NewChildren(picks: seq<(seq<int>, seq<int>)>, mutations: seq<BC.GeneDraws>,
                       ghost scores: seq<real>, ghost genes: seq<BC.GeneValues>) returns (kids: seq<Bee>)
      requires Valid() && scores == Scores(bees[..]) && HasGenes(bees[..], genes)
      requires |picks| == |mutations|
      requires forall k :: 0 <= k < |picks| ==> IsPick(picks[k].0, populationSize) && IsPick(picks[k].1, populationSize)
      ensures |kids| == |picks|
      ensures forall k :: 0 <= k < |kids| ==>
        && fresh(kids[k]) && fresh(kids[k].chromosome)
        && IsNewBee(kids[k], ChildGenes(scores, genes, picks[k], mutations[k]))
      ensures HaveChromosomes(kids)
    {
      kids := [];
      for i := 0 to |picks|
        invariant |kids| == i
        invariant forall k :: 0 <= k < i ==>
          && fresh(kids[k]) && fresh(kids[k].chromosome)
          && IsNewBee(kids[k], ChildGenes(scores, genes, picks[k], mutations[k]))
        invariant HaveChromosomes(kids)
      {
        var child := NewChild(picks[i], mutations[i], scores, genes);
        kids := kids + [child];
      }
    }

    /** One new bee of `createNewGeneration`: two tournaments, then the
        mutated crossover of the winners' chromosomes. */
    method NewChild(pick: (seq<int>, seq<int>), draws: BC.GeneDraws, ghost scores: seq<real>, ghost genes: seq<BC.GeneValues>) returns (child: Bee)
      requires Valid() && scores == Scores(bees[..]) && HasGenes(bees[..], genes)
      requires IsPick(pick.0, populationSize) && IsPick(pick.1, populationSize)
      ensures fresh(child) && fresh(child.chromosome)
      ensures IsNewBee(child, ChildGenes(scores, genes, pick, draws))
    {
      var bee1 := TournamentSelectIntended(pick.0);
      var bee2 := TournamentSelectIntended(pick.1);
      assert bee1 == bees[..][pick.0[IntendedWinner(scores, pick.0)]];
      assert bee2 == bees[..][pick.1[IntendedWinner(scores, pick.1)]];
      child := MakeChild(bee1, bee2, draws);
    }

    /** `toString`: one line per bee, its chromosome's text. */
    method ToString(doubleToString: real -> string) returns (beeString: string)
      requires HaveChromosomes(bees[..])
      ensures beeString == BC.Terminated(ChromosomeStrings(bees[..], doubleToString), '\n')
    {
      beeString := "";
      for i := 0 to bees.Length
        invariant beeString == BC.Terminated(ChromosomeStrings(bees[..i], doubleToString), '\n')
      {
        ChromosomeLinesSnoc(bees[..], i, doubleToString);
        beeString := beeString + bees[i].chromosome.ToString(doubleToString) + "\n";
      }
      assert bees[..bees.Length] == bees[..];
    }
  }

  /** One more bee adds its chromosome's line to the text of a prefix. */
  lemma ChromosomeLinesSnoc(s: seq<Bee>, i: nat, doubleToString: real -> string)
    requires HaveChromosomes(s) && i < |s|
    ensures HaveChromosomes(s[..i]) && HaveChromosomes(s[..i + 1])
    ensures BC.Terminated(ChromosomeStrings(s[..i + 1], doubleToString), '\n') ==
      BC.Terminated(ChromosomeStrings(s[..i], doubleToString), '\n') + s[i].chromosome.ToString(doubleToString) + "\n"
  {
    assert s[..i + 1][..i] == s[..i];
    assert HaveChromosomes(s[..i + 1]);
    TerminatedSnoc(ChromosomeStrings(s[..i], doubleToString), s[i].chromosome.ToString(doubleToString), '\n');
  }

  /** The genes of each bee's chromosome. */
  function GenesOf(s: seq<Bee>): (r: seq<BC.GeneValues>)
    reads s, set b | b in s :: b.chromosome
    requires HaveChromosomes(s)
    ensures |r| == |s|
  {
    if |s| == 0 then [] else GenesOf(s[..|s| - 1]) + [s[|s| - 1].chromosome.Genes()]
  }

  /** `genes[j]` are the genes of bee `j`'s chromosome, for every bee. */
  ghost predicate HasGenes(s: seq<Bee>, genes: seq<BC.GeneValues>)
    reads s, set b | b in s :: b.chromosome
  {
    |genes| == |s| && forall j :: 0 <= j < |s| ==> s[j].chromosome != null && s[j].chromosome.Genes() == genes[j]
  }

  /** `GenesOf` lists the genes of every bee. */
  lemma {:induction false} GenesOfHasGenes(s: seq<Bee>)
    requires HaveChromosomes(s)
    ensures HasGenes(s, GenesOf(s))
  {
    if |s| > 0 {
      var n := |s| - 1;
      assert HaveChromosomes(s[..n]);
      GenesOfHasGenes(s[..n]);
      forall j | 0 <= j < n
        ensures GenesOf(s)[j] == s[j].chromosome.Genes()
      {
        assert GenesOf(s)[j] == GenesOf(s[..n])[j] && s[..n][j] == s[j];
      }
    }
  }

  /** The genes of a new bee: the mutated crossover of the chromosomes of the
      two tournament winners of `pick`, for bees with these scores and genes. */
  function ChildGenes(scores: seq<real>, genes: seq<BC.GeneValues>, pick: (seq<int>, seq<int>), draws: BC.GeneDraws): BC.GeneValues
    requires |genes| == |scores| && IsPick(pick.0, |scores|) && IsPick(pick.1, |scores|)
  {
    var mommy := genes[pick.0[IntendedWinner(scores, pick.0)]];
    var daddy := genes[pick.1[IntendedWinner(scores, pick.1)]];
    BC.MutateGenes(BC.CrossoverGenes(mommy, daddy), MUTATION_RATE, draws)
  }

  /** The first loop of `createNewGeneration`: the first `count` entries of
      `source` copied into `target`. */
  method CopyPrefix(target: array<Bee>, source: array<Bee>, count: nat)
    requires target != source && count <= target.Length && count <= source.Length
    modifies target
    ensures forall p :: 0 <= p < count ==> target[p] == source[p]
    ensures forall p :: count <= p < target.Length ==> target[p] == old(target[p])
    ensures old(HaveChromosomes(source[..count])) ==> HaveChromosomes(target[..count])
  {
    for i := 0 to count
      invariant forall p :: 0 <= p < i ==> target[p] == source[p]
      invariant forall p :: i <= p < target.Length ==> target[p] == old(target[p])
    {
      target[i] := source[i];
    }
    if old(HaveChromosomes(source[..count])) {
      forall p | 0 <= p < count
        ensures target[..count][p].chromosome != null
      {
        assert target[p] == source[..count][p];
      }
    }
  }

  /** The stores of the second loop of `createNewGeneration`: the children
      placed at `from..` in order, the entries before kept. */
  method CopyInto(a: array<Bee>, from: nat, kids: seq<Bee>)
    requires from + |kids| == a.Length
    modifies a
    ensures forall p :: 0 <= p < from ==> a[p] == old(a[p])
    ensures forall p :: from <= p < a.Length ==> a[p] == kids[p - from]
    ensures old(HaveChromosomes(a[..from])) && HaveChromosomes(kids) ==> HaveChromosomes(a[..])
  {
    for i := from to a.Length
      invariant forall p :: 0 <= p < from ==> a[p] == old(a[p])
      invariant forall p :: from <= p < i ==> a[p] == kids[p - from]
    {
      a[i] := kids[i - from];
    }
    if old(HaveChromosomes(a[..from])) && HaveChromosomes(kids) {
      forall p | 0 <= p < a.Length
        ensures a[..][p].chromosome != null
      {
        if p < from {
          assert a[p] == old(a[..from])[p];
        } else {
          assert a[p] == kids[p - from];
        }
      }
    }
  }

  /** A bee with score 0 and a chromosome holding genes `g`. */
  ghost predicate IsNewBee(child: Bee, g: BC.GeneValues)
    reads child, child.chromosome
  {
    child.score == 0.0 && child.chromosome != null && child.chromosome.Genes() == g
  }

  /** A permutation of bees that all hold chromosomes holds chromosomes too. */
  lemma SortedKeepsChromosomes(before: seq<Bee>, after: seq<Bee>)
    requires HaveChromosomes(before) && multiset(after) == multiset(before)
    ensures HaveChromosomes(after)
  {
    forall i | 0 <= i < |after|
      ensures after[i].chromosome != null
    {
      assert after[i] in multiset(after);
      var j :| 0 <= j < |before| && before[j] == after[i];
    }
  }

  /** The body of the second loop of `createNewGeneration`: a fresh bee whose
      chromosome is the crossover of the parents' chromosomes, mutated at
      `MUTATION_RATE`. */
  method MakeChild(mommy: Bee, daddy: Bee, draws: BC.GeneDraws) returns (child: Bee)
    requires mommy.chromosome != null && daddy.chromosome != null
    ensures fresh(child) && child.score == 0.0 && child.chromosome != null && fresh(child.chromosome)
    ensures child.chromosome.Genes() ==
      BC.MutateGenes(BC.CrossoverGenes(mommy.chromosome.Genes(), daddy.chromosome.Genes()), MUTATION_RATE, draws)
  {
    child := new Bee();
    var chromosome := new BC.BeeChromosome.Crossover(mommy.chromosome, daddy.chromosome);
    child.chromosome := chromosome;
    chromosome.Mutate(MUTATION_RATE, draws);
  }
}
