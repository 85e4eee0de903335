/**
 * A chromosome: the four tunable genes of one individual of the genetic
 * search, with the random constructor, crossover of two parents, mutation
 * and the comma-separated text form.  `Math.random()` draws are parameters;
 * `Double.toString` is a function parameter, `Integer.toString` is written
 * out.
 */
module BeeChromosome {
  import JavaNum

  /** The four genes, in field order. */
  datatype GeneValues = GeneValues(translationalKp: real, rotationalKp: real, lowEnergyThresh: int, shootEnemyDist: real)

  /** A value `Math.random()` can return. */
  predicate IsDraw(r: real)
  {
    0.0 <= r < 1.0
  }

  /** The genes of the random constructor; `r1`..`r4` are its four draws in order. */
  function RandomGenes(maxP: real, maxD: real, maxLowEnergy: int, maxShootDist: real,
                       r1: real, r2: real, r3: real, r4: real): GeneValues
  {
    GeneValues(r1 * maxP, r2 * maxD, JavaNum.Trunc(r3 * maxLowEnergy as real), r4 * maxShootDist)
  }

  /** The genes of the crossover constructor: the mean of the parents' genes,
      with Java's truncating integer division for the energy threshold. */
  function CrossoverGenes(mommy: GeneValues, daddy: GeneValues): GeneValues
  {
    GeneValues((mommy.translationalKp + daddy.translationalKp) / 2.0,
               (mommy.rotationalKp + daddy.rotationalKp) / 2.0,
               JavaNum.Half(mommy.lowEnergyThresh + daddy.lowEnergyThresh),
               (mommy.shootEnemyDist + daddy.shootEnemyDist) / 2.0)
  }

  /** The two draws one gene's mutation takes: whether to mutate, and the scale. */
  datatype MutationDraw = MutationDraw(decide: real, scale: real)

  /** The draws of one `mutate` call, one pair per gene in field order. */
  datatype GeneDraws = GeneDraws(translational: MutationDraw, rotational: MutationDraw,
                                 lowEnergy: MutationDraw, shootDist: MutationDraw)

  predicate IsMutationDraw(d: MutationDraw)
  {
    IsDraw(d.decide) && IsDraw(d.scale)
  }

  predicate AreDraws(d: GeneDraws)
  {
    IsMutationDraw(d.translational) && IsMutationDraw(d.rotational) &&
    IsMutationDraw(d.lowEnergy) && IsMutationDraw(d.shootDist)
  }

  /** One double gene of `mutate`. */
  function MutateGene(x: real, mutationRate: real, d: MutationDraw): real
  {
    if d.decide < mutationRate then (2.0 * d.scale) * x else x
  }

  /** The integer gene of `mutate`: the scaled value is cast back with truncation. */
  function MutateIntGene(x: int, mutationRate: real, d: MutationDraw): int
  {
    if d.decide < mutationRate then JavaNum.Trunc((2.0 * d.scale) * x as real) else x
  }

  /** The genes after `mutate`. */
  function MutateGenes(g: GeneValues, mutationRate: real, d: GeneDraws): GeneValues
  {
    GeneValues(MutateGene(g.translationalKp, mutationRate, d.translational),
               MutateGene(g.rotationalKp, mutationRate, d.rotational),
               MutateIntGene(g.lowEnergyThresh, mutationRate, d.lowEnergy),
               MutateGene(g.shootEnemyDist, mutationRate, d.shootDist))
  }

  // ---------------------------------------------------------------------
  // Properties of the gene operations

  /** With draws in [0, 1) and positive maxima, every random gene lies in [0, max). */
  lemma RandomGenesInRange(maxP: real, maxD: real, maxLowEnergy: int, maxShootDist: real,
                           r1: real, r2: real, r3: real, r4: real)
    requires IsDraw(r1) && IsDraw(r2) && IsDraw(r3) && IsDraw(r4)
    requires 0.0 < maxP && 0.0 < maxD && 0 < maxLowEnergy && 0.0 < maxShootDist
    ensures var g := RandomGenes(maxP, maxD, maxLowEnergy, maxShootDist, r1, r2, r3, r4);
      && 0.0 <= g.translationalKp < maxP
      && 0.0 <= g.rotationalKp < maxD
      && 0 <= g.lowEnergyThresh < maxLowEnergy
      && 0.0 <= g.shootEnemyDist < maxShootDist
  {
    ScaledDraw(maxP, r1);
    ScaledDraw(maxD, r2);
    ScaledIntDraw(maxLowEnergy, r3);
    ScaledDraw(maxShootDist, r4);
  }

  lemma ScaledIntDraw(m: int, r: real)
    requires IsDraw(r) && 0 < m
    ensures 0 <= JavaNum.Trunc(r * m as real) < m
  {
    ScaledDraw(m as real, r);
    var y := r * m as real;
    var n := JavaNum.Trunc(y);
    assert n as real <= y < m as real;
  }

  lemma ScaledDraw(m: real, r: real)
    requires IsDraw(r) && 0.0 < m
    ensures 0.0 <= r * m < m
  {
    JavaNum.MulMono(m, 0.0, r);
    JavaNum.MulMonoStrict(m, r, 1.0);
  }

  /** Crossover of two identical parents reproduces them. */
  lemma CrossoverOfTwins(g: GeneValues)
    ensures CrossoverGenes(g, g) == g
  {
    var l := g.lowEnergyThresh;
    assert JavaNum.Half(l + l) == l;
  }

  /** Each gene of a child lies between the parents' genes, and the order of
      the parents does not matter. */
  lemma CrossoverBetween(mommy: GeneValues, daddy: GeneValues)
    ensures var c := CrossoverGenes(mommy, daddy);
      && Between(c.translationalKp, mommy.translationalKp, daddy.translationalKp)
      && Between(c.rotationalKp, mommy.rotationalKp, daddy.rotationalKp)
      && Between(c.lowEnergyThresh as real, mommy.lowEnergyThresh as real, daddy.lowEnergyThresh as real)
      && Between(c.shootEnemyDist, mommy.shootEnemyDist, daddy.shootEnemyDist)
    ensures CrossoverGenes(mommy, daddy) == CrossoverGenes(daddy, mommy)
  {
    MeanBetween(mommy.lowEnergyThresh, daddy.lowEnergyThresh);
  }

  /** Java's `(a + b) / 2` lies between `a` and `b`. */
  lemma MeanBetween(a: int, b: int)
    ensures var q := JavaNum.Half(a + b); (a <= q <= b) || (b <= q <= a)
  {
  }

  predicate Between(x: real, a: real, b: real)
  {
    (a <= x <= b) || (b <= x <= a)
  }

  /** A mutation rate of zero or below changes no gene. */
  lemma MutateWithoutRate(g: GeneValues, mutationRate: real, d: GeneDraws)
    requires AreDraws(d) && mutationRate <= 0.0
    ensures MutateGenes(g, mutationRate, d) == g
  {
  }

  /** A non-negative gene stays in [0, 2 * old], and a gene only changes when
      its draw fell below the rate. */
  lemma MutateBounded(g: GeneValues, mutationRate: real, d: GeneDraws)
    requires AreDraws(d)
    requires 0.0 <= g.translationalKp && 0.0 <= g.rotationalKp && 0 <= g.lowEnergyThresh && 0.0 <= g.shootEnemyDist
    ensures var m := MutateGenes(g, mutationRate, d);
      && 0.0 <= m.translationalKp <= 2.0 * g.translationalKp
      && 0.0 <= m.rotationalKp <= 2.0 * g.rotationalKp
      && 0 <= m.lowEnergyThresh <= 2 * g.lowEnergyThresh
      && 0.0 <= m.shootEnemyDist <= 2.0 * g.shootEnemyDist
    ensures var m := MutateGenes(g, mutationRate, d);
      && (m.translationalKp != g.translationalKp ==> d.translational.decide < mutationRate)
      && (m.rotationalKp != g.rotationalKp ==> d.rotational.decide < mutationRate)
      && (m.lowEnergyThresh != g.lowEnergyThresh ==> d.lowEnergy.decide < mutationRate)
      && (m.shootEnemyDist != g.shootEnemyDist ==> d.shootDist.decide < mutationRate)
  {
    GeneBounded(g.translationalKp, mutationRate, d.translational);
    GeneBounded(g.rotationalKp, mutationRate, d.rotational);
    IntGeneBounded(g.lowEnergyThresh, mutationRate, d.lowEnergy);
    GeneBounded(g.shootEnemyDist, mutationRate, d.shootDist);
  }

  lemma GeneBounded(x: real, mutationRate: real, d: MutationDraw)
    requires IsMutationDraw(d) && 0.0 <= x
    ensures 0.0 <= MutateGene(x, mutationRate, d) <= 2.0 * x
    ensures MutateGene(x, mutationRate, d) != x ==> d.decide < mutationRate
  {
    if d.decide < mutationRate {
      ScaleBounded(x, d.scale);
      assert MutateGene(x, mutationRate, d) == (2.0 * d.scale) * x;
      assert (2.0 * d.scale) * x <= 2.0 * x;
    }
  }

  lemma IntGeneBounded(x: int, mutationRate: real, d: MutationDraw)
    requires IsMutationDraw(d) && 0 <= x
    ensures 0 <= MutateIntGene(x, mutationRate, d) <= 2 * x
    ensures MutateIntGene(x, mutationRate, d) != x ==> d.decide < mutationRate
  {
    if d.decide < mutationRate {
      ScaledTrunc(x, d.scale);
    }
  }

  lemma ScaledTrunc(x: int, s: real)
    requires IsDraw(s) && 0 <= x
    ensures 0 <= JavaNum.Trunc((2.0 * s) * x as real) <= 2 * x
  {
    ScaleBounded(x as real, s);
    TruncBounded((2.0 * s) * x as real, x);
  }

  lemma TruncBounded(y: real, x: int)
    requires 0.0 <= y <= 2.0 * x as real
    ensures 0 <= JavaNum.Trunc(y) <= 2 * x
  {
  }

  lemma ScaleBounded(x: real, s: real)
    requires IsDraw(s) && 0.0 <= x
    ensures 0.0 <= (2.0 * s) * x <= 2.0 * x
  {
    JavaNum.MulMono(x, 0.0, 2.0 * s);
    JavaNum.MulMono(x, 2.0 * s, 2.0);
    assert x * (2.0 * s) == (2.0 * s) * x;
  }

  // ---------------------------------------------------------------------
  // Text form

  /** A decimal digit. */
  function DigitChar(d: int): char
    requires 0 <= d < 10
  {
    ((d + '0' as int) as char)
  }

  predicate IsDigit(c: char)
  {
    '0' <= c <= '9'
  }

  /** The decimal digits of `n`, most significant first. */
  function NatToString(n: nat): (s: string)
    ensures |s| > 0 && forall i :: 0 <= i < |s| ==> IsDigit(s[i])
  {
    if n < 10 then [DigitChar(n)] else NatToString(n / 10) + [DigitChar(n % 10)]
  }

  /** `Integer.toString`: a minus sign before the digits of a negative number. */
  function IntToString(n: int): string
  {
    if n < 0 then "-" + NatToString(-n) else NatToString(n)
  }

  /** The value of a string of decimal digits. */
  function ParseNat(s: string): int
  {
    if |s| == 0 then 0 else 10 * ParseNat(s[..|s| - 1]) + (s[|s| - 1] as int - '0' as int)
  }

  /** The value of an optionally negated string of decimal digits. */
  function ParseInt(s: string): int
  {
    if |s| > 0 && s[0] == '-' then -ParseNat(s[1..]) else ParseNat(s)
  }

  lemma {:induction false} NatToStringRoundTrip(n: nat)
    ensures ParseNat(NatToString(n)) == n
  {
    var s := NatToString(n);
    if n >= 10 {
      NatToStringRoundTrip(n / 10);
      assert s[..|s| - 1] == NatToString(n / 10);
    }
  }

  /** `Integer.toString` can be read back, and never contains a comma. */
  lemma IntToStringRoundTrip(n: int)
    ensures ParseInt(IntToString(n)) == n
    ensures ',' !in IntToString(n)
  {
    var s := IntToString(n);
    if n < 0 {
      NatToStringRoundTrip(-n);
      assert s[1..] == NatToString(-n);
      assert s[0] == '-';
    } else {
      NatToStringRoundTrip(n);
      assert !IsDigit('-') && !IsDigit(',');
    }
    assert forall i :: 0 <= i < |s| ==> s[i] != ',' by {
      assert !IsDigit(',');
    }
  }

  /** Each string followed by `sep`, all concatenated. */
  function Terminated(parts: seq<string>, sep: char): string
  {
    if |parts| == 0 then "" else parts[0] + [sep] + Terminated(parts[1..], sep)
  }

  /** The pieces of `s` between occurrences of `sep`: n separators give n + 1 pieces. */
  function Fields(s: string, sep: char): (r: seq<string>)
    ensures |r| > 0
  {
    if |s| == 0 then [""]
    else
      var rest := Fields(s[1..], sep);
      if s[0] == sep then [""] + rest else [[s[0]] + rest[0]] + rest[1..]
  }

  lemma {:induction false} FieldsOfPiece(p: string, sep: char, t: string)
    requires sep !in p
    ensures Fields(p + [sep] + t, sep) == [p] + Fields(t, sep)
  {
    if |p| > 0 {
      FieldsOfPiece(p[1..], sep, t);
      assert (p + [sep] + t)[1..] == p[1..] + [sep] + t;
      assert [p[0]] + p[1..] == p;
    } else {
      assert (p + [sep] + t)[1..] == t;
    }
  }

  /** Splitting a terminated list at the separator gives the parts back,
      followed by the empty piece after the last separator. */
  lemma {:induction false} FieldsOfTerminated(parts: seq<string>, sep: char)
    requires forall i :: 0 <= i < |parts| ==> sep !in parts[i]
    ensures Fields(Terminated(parts, sep), sep) == parts + [""]
  {
    if |parts| > 0 {
      FieldsOfTerminated(parts[1..], sep);
      FieldsOfPiece(parts[0], sep, Terminated(parts[1..], sep));
      assert parts == [parts[0]] + parts[1..];
    }
  }

  /** `toString`: each gene's text followed by a comma, in field order. */
  function GenesString(g: GeneValues, doubleToString: real -> string): string
  {
    doubleToString(g.translationalKp) + "," + doubleToString(g.rotationalKp) + "," +
    IntToString(g.lowEnergyThresh) + "," + doubleToString(g.shootEnemyDist) + ","
  }

  /** The text of a chromosome splits at its commas into the four genes' texts,
      and the energy threshold reads back as the gene. */
  lemma GenesStringFields(g: GeneValues, doubleToString: real -> string)
    requires forall x: real :: ',' !in doubleToString(x)
    ensures var fields := Fields(GenesString(g, doubleToString), ',');
      && fields == [doubleToString(g.translationalKp), doubleToString(g.rotationalKp),
                     IntToString(g.lowEnergyThresh), doubleToString(g.shootEnemyDist), ""]
      && ParseInt(fields[2]) == g.lowEnergyThresh
  {
    var parts := [doubleToString(g.translationalKp), doubleToString(g.rotationalKp),
                  IntToString(g.lowEnergyThresh), doubleToString(g.shootEnemyDist)];
    IntToStringRoundTrip(g.lowEnergyThresh);
    TerminatedFour(parts[0], parts[1], parts[2], parts[3], ',');
    FieldsOfTerminated(parts, ',');
  }

  lemma TerminatedFour(a: string, b: string, c: string, d: string, sep: char)
    ensures Terminated([a, b, c, d], sep) == a + [sep] + b + [sep] + c + [sep] + d + [sep]
  {
    assert [d][1..] == [] && [c, d][1..] == [d] && [b, c, d][1..] == [c, d] && [a, b, c, d][1..] == [b, c, d];
    var td := d + [sep];
    assert Terminated([d], sep) == td;
    var tc := c + [sep] + td;
    assert Terminated([c, d], sep) == tc;
    var tb := b + [sep] + tc;
    assert Terminated([b, c, d], sep) == tb;
    assert Terminated([a, b, c, d], sep) == a + [sep] + tb;
  }

  class BeeChromosome {
    var translationalKp: real
    var rotationalKp: real
    var lowEnergyThresh: int
    var shootEnemyDist: real

    /** The genes as a value. */
    function Genes(): GeneValues
      reads this
    {
      GeneValues(translationalKp, rotationalKp, lowEnergyThresh, shootEnemyDist)
    }

    /** The random constructor, with its four draws. */
    constructor Random(maxP: real, maxD: real, maxLowEnergy: int, maxShootDist: real,
                       r1: real, r2: real, r3: real, r4: real)
      ensures Genes() == RandomGenes(maxP, maxD, maxLowEnergy, maxShootDist, r1, r2, r3, r4)
    {
      translationalKp := r1 * maxP;
      rotationalKp := r2 * maxD;
      lowEnergyThresh := JavaNum.Trunc(r3 * maxLowEnergy as real);
      shootEnemyDist := r4 * maxShootDist;
    }

    /** The crossover constructor. */
    constructor Crossover(mommy: BeeChromosome, daddy: BeeChromosome)
      ensures Genes() == CrossoverGenes(mommy.Genes(), daddy.Genes())
    {
      translationalKp := (mommy.translationalKp + daddy.translationalKp) / 2.0;
      rotationalKp := (mommy.rotationalKp + daddy.rotationalKp) / 2.0;
      lowEnergyThresh := JavaNum.Half(mommy.lowEnergyThresh + daddy.lowEnergyThresh);
      shootEnemyDist := (mommy.shootEnemyDist + daddy.shootEnemyDist) / 2.0;
    }

    /** The no-argument constructor: Java's default field values. */
    constructor ()
      ensures Genes() == GeneValues(0.0, 0.0, 0, 0.0)
    {
      translationalKp := 0.0;
      rotationalKp := 0.0;
      lowEnergyThresh := 0;
      shootEnemyDist := 0.0;
    }

    /** `mutate`: each gene independently, with its own pair of draws. */
    method Mutate(mutationRate: real, draws: GeneDraws)
      modifies this
      ensures Genes() == MutateGenes(old(Genes()), mutationRate, draws)
    {
      ghost var g := Genes();
      if draws.translational.decide < mutationRate {
        translationalKp := (2.0 * draws.translational.scale) * translationalKp;
      }
      assert translationalKp == MutateGene(g.translationalKp, mutationRate, draws.translational);
      if draws.rotational.decide < mutationRate {
        rotationalKp := (2.0 * draws.rotational.scale) * rotationalKp;
      }
      assert rotationalKp == MutateGene(g.rotationalKp, mutationRate, draws.rotational);
      if draws.lowEnergy.decide < mutationRate {
        lowEnergyThresh := JavaNum.Trunc((2.0 * draws.lowEnergy.scale) * lowEnergyThresh as real);
      }
      assert lowEnergyThresh == MutateIntGene(g.lowEnergyThresh, mutationRate, draws.lowEnergy);
      if draws.shootDist.decide < mutationRate {
        shootEnemyDist := (2.0 * draws.shootDist.scale) * shootEnemyDist;
      }
      assert shootEnemyDist == MutateGene(g.shootEnemyDist, mutationRate, draws.shootDist);
    }

    /** `toString`. */
    function ToString(doubleToString: real -> string): string
      reads this
    {
      GenesString(Genes(), doubleToString)
    }
  }
}
