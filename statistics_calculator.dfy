/** Nucleotide composition (`calculate_statistics`), with exact rational percentages in place
    of the source's floating-point ones. */
module StatisticsCalculator {
  import opened Text
  import opened SequenceGenerator

  /** The five entries A, C, G, T and CG of the source's result dictionary, in percent. */
  datatype Statistics = Statistics(a: real, c: real, g: real, t: real, cg: real)

  /** Multiplying by a positive factor keeps the sign. */
  lemma ScaleKeepsSign(x: real, factor: real)
    requires factor > 0.0
    ensures x * factor <= 0.0 <==> x <= 0.0
    ensures x * factor == 0.0 <==> x == 0.0
    ensures x * factor >= 0.0 <==> x >= 0.0
  {
  }

  /** `(count / total) * 100`. */
  function Percentage(count: nat, total: nat): (p: real)
    requires total > 0
    ensures p * total as real == 100.0 * count as real
    ensures 0.0 <= p
    ensures p <= 100.0 <==> count <= total
    ensures p == 100.0 <==> count == total
  {
    var c, t := count as real, total as real;
    var share := c / t;
    assert share * t == c;
    assert (share * 100.0) * t == 100.0 * c;
    assert (share * 100.0 - 100.0) * t == 100.0 * (c - t);
    ScaleKeepsSign(share * 100.0, t);
    ScaleKeepsSign(share * 100.0 - 100.0, t);
    share * 100.0
  }

  /** Percentages of the same total add up like the counts they come from. */
  lemma PercentageAdd(x: nat, y: nat, total: nat)
    requires total > 0
    ensures Percentage(x + y, total) == Percentage(x, total) + Percentage(y, total)
  {
  }

  /** The four nucleotide counts never exceed the length of the sequence, and they add up to
      it exactly when every character is a nucleotide (other characters count toward the
      length only). */
  lemma {:induction false} NucleotideCountsTotal(s: string)
    ensures Count(s, 'A') + Count(s, 'C') + Count(s, 'G') + Count(s, 'T') <= |s|
    ensures Count(s, 'A') + Count(s, 'C') + Count(s, 'G') + Count(s, 'T') == |s| <==> IsDna(s)
  {
    if s != [] {
      NucleotideCountsTotal(s[1..]);
      assert IsDna(s) <==> IsNucleotide(s[0]) && IsDna(s[1..]) by {
        if IsNucleotide(s[0]) && IsDna(s[1..]) {
          forall i | 0 <= i < |s| ensures IsNucleotide(s[i]) {
            if i > 0 { assert s[i] == s[1..][i - 1]; }
          }
        }
        if IsDna(s) {
          forall i | 0 <= i < |s[1..]| ensures IsNucleotide(s[1..][i]) {
            assert s[1..][i] == s[i + 1];
          }
        }
      }
    }
  }

  /** Composition of `sequence`: each nucleotide's share of the full length, and C and G
      together; all zeros for the empty sequence. Counting is case-sensitive. */
  function CalculateStatistics(sequence: string): (r: Statistics)
    ensures |sequence| == 0 ==> r == Statistics(0.0, 0.0, 0.0, 0.0, 0.0)
    ensures r.cg == r.c + r.g
    ensures 0.0 <= r.a <= 100.0 && 0.0 <= r.c <= 100.0 && 0.0 <= r.g <= 100.0 && 0.0 <= r.t <= 100.0
    ensures 0.0 <= r.cg <= 100.0
  {
    var total := |sequence|;
    if total == 0 then Statistics(0.0, 0.0, 0.0, 0.0, 0.0)
    else
      var countA, countC, countG, countT := Count(sequence, 'A'), Count(sequence, 'C'), Count(sequence, 'G'), Count(sequence, 'T');
      NucleotideCountsTotal(sequence);
      PercentageAdd(countC, countG, total);
      Statistics(
        Percentage(countA, total),
        Percentage(countC, total),
        Percentage(countG, total),
        Percentage(countT, total),
        Percentage(countC + countG, total))
  }

  /** Each nucleotide percentage is that nucleotide's multiplicity in the sequence as a share
      of the full length (and, by `Percentage`, `percentage * length == 100 * multiplicity`). */
  lemma PercentagesAreShares(sequence: string)
    requires |sequence| > 0
    ensures var r := CalculateStatistics(sequence); var total := |sequence|;
      && r.a == Percentage(multiset(sequence)['A'], total)
      && r.c == Percentage(multiset(sequence)['C'], total)
      && r.g == Percentage(multiset(sequence)['G'], total)
      && r.t == Percentage(multiset(sequence)['T'], total)
      && r.cg == Percentage(multiset(sequence)['C'] + multiset(sequence)['G'], total)
  {
    CountIsMultiplicity(sequence, 'A');
    CountIsMultiplicity(sequence, 'C');
    CountIsMultiplicity(sequence, 'G');
    CountIsMultiplicity(sequence, 'T');
  }

  /** On a non-empty sequence the A, C, G and T percentages sum to exactly 100 if and only if
      the sequence is over {A, C, G, T}. */
  lemma PercentagesSumTo100(sequence: string)
    requires |sequence| > 0
    ensures var r := CalculateStatistics(sequence);
      r.a + r.c + r.g + r.t == 100.0 <==> IsDna(sequence)
  {
    var total := |sequence|;
    var countA, countC, countG, countT := Count(sequence, 'A'), Count(sequence, 'C'), Count(sequence, 'G'), Count(sequence, 'T');
    NucleotideCountsTotal(sequence);
    PercentageAdd(countA, countC, total);
    PercentageAdd(countA + countC, countG, total);
    PercentageAdd(countA + countC + countG, countT, total);
  }

  /** Statistics of a freshly generated sequence of positive length always sum to 100. */
  lemma GeneratedPercentagesSumTo100(length: nat, draw: nat -> Pick)
    requires length > 0
    ensures var r := CalculateStatistics(GenerateDnaSequence(length, draw));
      r.a + r.c + r.g + r.t == 100.0
  {
    PercentagesSumTo100(GenerateDnaSequence(length, draw));
  }

  /** The worked example: "AACGT" gives A = 40, C = G = T = 20 and CG = 40. */
  lemma StatisticsOfAACGT()
    ensures CalculateStatistics("AACGT") == Statistics(40.0, 20.0, 20.0, 20.0, 40.0)
  {
  }
}
