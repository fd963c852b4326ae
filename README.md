# FASTA DNA sequence generator: verified model of its core

`pbio.py` generates a random DNA sequence of a user-chosen length, computes its nucleotide
composition, splices the user's name into it at a random position and writes the result as
a single-record FASTA file named after the sequence identifier. This project models the
deterministic core of that script in Dafny and proves its properties:

- `SequenceGenerator` (`generate_dna_sequence`): the outcomes of the successive
  `random.choice` calls are a parameter `draw: nat -> Pick`; the result has the requested
  length and is over {A, C, G, T}, and every such string is reachable.
- `NameInserter` (`insert_name`): the position drawn by `random.randint(0, len(sequence))`
  is a parameter `position` with `position <= |sequence|`; an empty sequence returns the
  name unchanged.
- `StatisticsCalculator` (`calculate_statistics`): exact counts, and percentages as exact
  `real` values `(count / total) * 100`, all zero for the empty sequence.
- `FastaWriter` (`save_fasta_file`): the filename `id + ".fasta"` and the exact text
  `">" + id + " " + description + "\n" + sequence + "\n"`; a reader for that text is the
  partner of the writer.
- `InputValidator` (`validate_sequence_length`): `int()` as a decimal-literal parser, then
  rejection of values `<= 0`; every rejection carries the single message
  "Please enter a valid positive integer".
- `Text` holds the shared counting (`str.count` for one character) and first-occurrence
  search; `Wrappers` holds `Option` and `Result`.

The code raises `ValueError`, and its `except` clause (pbio.py:68-69) replaces the inner
"Length must be positive" message with the generic one, so both failure causes carry the
same message; the model's single `InvalidLength` error carries that message. For the empty
sequence the code returns integer zeros where it otherwise returns floats; the model returns
`0.0`.

## Model

| member | source | states |
|---|---|---|
| SequenceGenerator.GenerateDnaSequence | pbio.py:10-16 | the generated sequence has exactly the requested length and every character is one of A, C, G, T |
| SequenceGenerator.GenerateReachesEveryDna | pbio.py:15-16 | every string over {A, C, G, T} is produced by some sequence of draws, so the alphabet contract is exact |
| NameInserter.InsertName | pbio.py:18-28 | the result has length `|sequence| + |name|`, holds `name` at offset `position`, the sequence's prefix before it and its suffix after it |
| NameInserter.InsertIntoEmpty | pbio.py:20-21 | inserting into the empty sequence returns the name unchanged, whatever the name |
| NameInserter.InsertThenRemove | pbio.py:27-28 | cutting the `|name|` characters at `position` out of the result gives back the original sequence exactly |
| NameInserter.InsertNameCharacterwise | pbio.py:27-28 | each character of the result comes from the sequence before `position`, from the name inside the inserted span, and from the sequence shifted by `|name|` after it |
| NameInserter.InsertNameCounts | pbio.py:19-28 | every character count of the result is the sequence's count plus the name's count, so no nucleotide of the original sequence is lost |
| Text.Count | pbio.py:37-40 | a count never exceeds the length and is zero exactly when the character does not occur |
| Text.CountIsMultiplicity | pbio.py:37-40 | the count of a character equals its multiplicity in the multiset of the sequence's characters |
| StatisticsCalculator.Percentage | pbio.py:44-48 | `(count / total) * 100` times `total` is `100 * count`; it is non-negative, at most 100 exactly when `count <= total`, and 100 exactly when `count == total` |
| StatisticsCalculator.PercentageAdd | pbio.py:45-48 | percentages of one total add like their counts, so the CG value of `(C + G) / total` is the C value plus the G value |
| StatisticsCalculator.NucleotideCountsTotal | pbio.py:32-41 | the four case-sensitive counts sum to at most the length, and to exactly the length if and only if every character is A, C, G or T |
| StatisticsCalculator.CalculateStatistics | pbio.py:30-49 | all five values are zero for the empty sequence; each lies in [0, 100] (CG included); CG equals C plus G |
| StatisticsCalculator.PercentagesAreShares | pbio.py:36-48 | each value is the percentage of the corresponding multiplicity (C plus G for CG) in the whole length |
| StatisticsCalculator.PercentagesSumTo100 | pbio.py:43-47 | on a non-empty sequence the A, C, G and T values sum to exactly 100 if and only if the sequence is over {A, C, G, T} |
| StatisticsCalculator.GeneratedPercentagesSumTo100 | pbio.py:83-84 | the statistics of any generated sequence of positive length sum to exactly 100 |
| StatisticsCalculator.StatisticsOfAACGT | pbio.py:30-49 | "AACGT" gives A = 40, C = G = T = 20 and CG = 40 |
| FastaWriter.SaveFastaFile | pbio.py:51-56 | the filename is exactly the identifier followed by `.fasta` (its stem is the identifier); the text starts with `>`, ends with a newline and is 4 characters longer than the three fields together |
| FastaWriter.FileStem | pbio.py:53 | a stem that is returned is the filename with the `.fasta` extension removed |
| FastaWriter.FilenameRoundTrip | pbio.py:53 | the identifier is recovered verbatim from the returned filename, whatever characters it holds |
| FastaWriter.ParseFasta | pbio.py:55 | any text it reads as a record is exactly the text the writer produces for that record; the record's identifier has no space or newline, its description and sequence no newline |
| FastaWriter.ContentRoundTrip | pbio.py:55 | when the identifier has no space or newline and the other fields no newline, reading the written text gives back identifier, description and sequence exactly |
| FastaWriter.InnerSpaceIdentifierExample | pbio.py:53-55 | an identifier with an inner space ("my id") is written unescaped, so the header reads back as identifier "my" and description "id d": such a record does not round-trip |
| FastaWriter.ContentHasTwoLines | pbio.py:55 | the written text has exactly two newline characters when the fields contain none |
| FastaWriter.SaveFastaFileExample | pbio.py:51-56 | ("seq1", "test sequence", "ACGT") gives file `seq1.fasta` with text `>seq1 test sequence\nACGT\n` |
| InputValidator.ParseInt | pbio.py:64 | a value is produced exactly for an optionally signed non-empty digit string, non-positive after `-` and non-negative otherwise |
| InputValidator.ValidateSequenceLength | pbio.py:58-69 | success returns the parsed value, which is positive; failure happens exactly when the text is no integer or the value is `<= 0`, always with the one message "Please enter a valid positive integer" |
| InputValidator.DecimalRoundTrip | pbio.py:64 | the value of a natural number's decimal spelling is that number |
| InputValidator.ParseIntRoundTrip | pbio.py:64 | every integer is parsed back from its decimal spelling |
| InputValidator.ValidateIntegers | pbio.py:63-69 | an integer written in decimal is accepted if and only if it is positive, and then as itself; otherwise the one error |
| InputValidator.LeadingZeroValue | pbio.py:64 | a leading zero does not change a digit string's value |
| InputValidator.ValidateLeadingZero | pbio.py:64-67 | a positive length spelled with a leading zero is accepted as that length |
| InputValidator.LeadingZerosValue | pbio.py:64 | any number of leading zeros leaves a digit string's value unchanged |
| InputValidator.DigitsCanonicalForm | pbio.py:64 | every non-empty digit string is leading zeros followed by the shortest decimal spelling of its value |
| InputValidator.ParseIntIgnoresPlusAndZeros | pbio.py:64 | a `+` sign and any number of leading zeros do not change the parsed value, with or without a `-` sign |
| InputValidator.ParsedLiteralShape | pbio.py:64 | every accepted literal is an optional sign, leading zeros and the shortest spelling of the value's magnitude, so the parsed value of every literal is determined |
| InputValidator.ParseIntSpellings | pbio.py:64 | "+42" and "0042" are read as 42 and "-0" as 0 |
| InputValidator.ValidateExamples | pbio.py:58-69 | "0", "-5" and "abc" are rejected with the one error; "42" is accepted as 42 |

## Left out

- Randomness (`random.choice`, `random.randint`): the draws are parameters; their distribution and uniformity are not modelled.
- Opening and writing the output file: the model returns the filename and the exact text written; file-system errors are not modelled.
- `main()` (pbio.py:71-101): interactive prompts, `.strip()` of the text answers, printing with one decimal place, and the catch-all error report are console plumbing.
- Floating point: percentages are exact rationals, so rounding of the float division is not modelled.
- ParseInt: models `int()` on an optional `+`/`-` sign followed by ASCII digits only; surrounding whitespace, `_` digit separators and non-ASCII Unicode digits, which `int()` also accepts, are not modelled. Nor is the digit-count limit of recent Python versions (by default `int()` raises `ValueError` on a decimal literal of more than 4300 digits, which the validator would report as an invalid length): the model accepts literals of any length, because the limit depends on the Python version and its configuration.
- The identifier is used verbatim as the filename stem with no sanitising, as in the code; path separators or illegal filename characters in it are not examined.
- An identifier with an inner space (which `.strip()` in `main()` does not remove) gives an ambiguous header: the text reads back as a different record; the code does not guard against this and neither does the model.
