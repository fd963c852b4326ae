/** Random DNA sequence generation (`generate_dna_sequence`).
    The i-th call of `random.choice` is supplied as `draw(i)`, the index it picked in the
    nucleotide list; the distribution of the draws is not modelled. */
module SequenceGenerator {

  /** The nucleotide list the generator chooses from, in the source's order. */
  const Nucleotides: seq<char> := ['A', 'C', 'G', 'T']

  /** An index into `Nucleotides`: the outcome of one `random.choice`. */
  type Pick = i: int | 0 <= i < 4

  predicate IsNucleotide(c: char) {
    c == 'A' || c == 'C' || c == 'G' || c == 'T'
  }

  /** A sequence over the alphabet {A, C, G, T}. */
  predicate IsDna(s: string) {
    forall i :: 0 <= i < |s| ==> IsNucleotide(s[i])
  }

  /** Joins `length` independent choices from `Nucleotides`. */
  function GenerateDnaSequence(length: nat, draw: nat -> Pick): (r: string)
    ensures |r| == length
    ensures IsDna(r)
  {
    seq(length, i requires 0 <= i < length => Nucleotides[draw(i)])
  }

  /** The pick that selects nucleotide `c`. */
  function PickOf(c: char): (p: Pick)
    requires IsNucleotide(c)
    ensures Nucleotides[p] == c
  {
    if c == 'A' then 0 else if c == 'C' then 1 else if c == 'G' then 2 else 3
  }

  /** Every DNA sequence is produced by some sequence of draws: the generator can reach
      every string of the promised length and alphabet, and nothing else. */
  lemma GenerateReachesEveryDna(s: string)
    requires IsDna(s)
    ensures exists draw: nat -> Pick :: GenerateDnaSequence(|s|, draw) == s
  {
    var draw: nat -> Pick := (i: nat) => if i < |s| then PickOf(s[i]) else 0;
    assert GenerateDnaSequence(|s|, draw) == s;
  }
}
