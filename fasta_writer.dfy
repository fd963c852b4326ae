/** The filename and text that `save_fasta_file` writes. Opening and writing the file are
    not modelled; `SaveFastaFile` returns the file's name together with the exact text
    written to it. */
module FastaWriter {
  import opened Wrappers
  import opened Text

  /** The fixed file extension appended to the identifier. */
  const Extension: string := ".fasta"

  /** One FASTA record: identifier, description and payload sequence. */
  datatype FastaRecord = FastaRecord(id: string, description: string, sequence: string)

  /** A file as the writer produces it: its name and its whole content. */
  datatype FastaFile = FastaFile(filename: string, content: string)

  /** The file for one record: named after the identifier, holding a header line
      `>id description` and one sequence line, each ended by a newline. */
  function SaveFastaFile(seqId: string, description: string, sequence: string): (r: FastaFile)
    ensures |r.filename| == |seqId| + |Extension|
    ensures FileStem(r.filename) == Some(seqId)
    ensures |r.content| == |seqId| + |description| + |sequence| + 4
    ensures r.content[0] == '>' && r.content[|r.content| - 1] == '\n'
  {
    FastaFile(seqId + Extension, ">" + seqId + " " + description + "\n" + sequence + "\n")
  }

  /** The identifier a filename was built from, if it ends in the extension. */
  function FileStem(filename: string): (r: Option<string>)
    ensures r.Some? ==> filename == r.value + Extension
  {
    if |filename| >= |Extension| && filename[|filename| - |Extension|..] == Extension
    then Some(filename[..|filename| - |Extension|])
    else None
  }

  /** Proof step: the written text regrouped as the `>` marker, the header line, a newline and
      the sequence line, the shape the reader works on. */
  lemma ContentLayout(seqId: string, description: string, sequence: string)
    ensures SaveFastaFile(seqId, description, sequence).content
      == ">" + (seqId + " " + description) + "\n" + (sequence + "\n")
  {
  }

  /** Splits a header line at its first space into identifier and description. */
  function SplitHeaderLine(header: string): (r: Option<(string, string)>)
    ensures r.Some? ==> header == r.value.0 + " " + r.value.1 && ' ' !in r.value.0
    ensures r.None? <==> ' ' !in header
  {
    match IndexOf(header, ' ')
    case None => None
    case Some(sp) =>
      assert header == header[..sp] + " " + header[sp + 1..];
      Some((header[..sp], header[sp + 1..]))
  }

  /** The sequence of a newline-terminated last line holding no other newline. */
  function SequenceLine(body: string): (r: Option<string>)
    ensures r.Some? ==> body == r.value + "\n" && '\n' !in r.value
  {
    if |body| > 0 && body[|body| - 1] == '\n' && '\n' !in body[..|body| - 1]
    then
      assert body == body[..|body| - 1] + "\n";
      Some(body[..|body| - 1])
    else None
  }

  /** Reads a single-record FASTA text back: a `>` header line split at its first space into
      identifier and description, then exactly one newline-terminated sequence line. Whatever
      it reads is exactly what the writer writes for that record. */
  function ParseFasta(content: string): (r: Option<FastaRecord>)
    ensures r.Some? ==> SaveFastaFile(r.value.id, r.value.description, r.value.sequence).content == content
    ensures r.Some? ==> '\n' !in r.value.id && ' ' !in r.value.id
    ensures r.Some? ==> '\n' !in r.value.description && '\n' !in r.value.sequence
  {
    if |content| == 0 || content[0] != '>' then None
    else match IndexOf(content, '\n')
      case None => None
      case Some(h) =>
        match (SplitHeaderLine(content[1..h]), SequenceLine(content[h + 1..]))
        case (Some(fields), Some(sequence)) =>
          assert content == ">" + content[1..h] + "\n" + content[h + 1..];
          assert '\n' !in content[1..h] by {
            assert content[1..h] == content[..h][1..];
          }
          ContentLayout(fields.0, fields.1, sequence);
          Some(FastaRecord(fields.0, fields.1, sequence))
        case _ => None
  }

  /** The identifier is recovered from the filename, whatever it contains (no sanitising). */
  lemma FilenameRoundTrip(seqId: string, description: string, sequence: string)
    ensures FileStem(SaveFastaFile(seqId, description, sequence).filename) == Some(seqId)
  {
  }

  /** The first line of `>header\nbody` ends right after the header. */
  lemma FirstLineEnd(header: string, body: string)
    requires '\n' !in header
    ensures var content := ">" + header + "\n" + body;
      && content[0] == '>'
      && IndexOf(content, '\n') == Some(|header| + 1)
      && content[1..|header| + 1] == header
      && content[|header| + 2..] == body
  {
    IndexOfAfterPrefix(">" + header, '\n', body);
  }

  /** A header line `id description` splits back into its two fields when the identifier
      holds no space. */
  lemma SplitHeader(seqId: string, description: string)
    requires ' ' !in seqId
    ensures SplitHeaderLine(seqId + " " + description) == Some((seqId, description))
  {
    var header := seqId + " " + description;
    assert header == seqId + [' '] + description;
    IndexOfAfterPrefix(seqId, ' ', description);
    assert header[..|seqId|] == seqId;
    assert header[|seqId| + 1..] == description;
  }

  /** A sequence without newlines is read back from its newline-terminated line. */
  lemma ReadSequenceLine(sequence: string)
    requires '\n' !in sequence
    ensures SequenceLine(sequence + "\n") == Some(sequence)
  {
    var body := sequence + "\n";
    assert body[..|body| - 1] == sequence;
  }

  /** A record whose identifier holds no space or newline and whose other fields hold no
      newline is read back exactly from the written text. */
  lemma ContentRoundTrip(seqId: string, description: string, sequence: string)
    requires ' ' !in seqId && '\n' !in seqId
    requires '\n' !in description && '\n' !in sequence
    ensures ParseFasta(SaveFastaFile(seqId, description, sequence).content)
      == Some(FastaRecord(seqId, description, sequence))
  {
    var header, body := seqId + " " + description, sequence + "\n";
    var content := SaveFastaFile(seqId, description, sequence).content;
    var h := |header| + 1;
    ContentLayout(seqId, description, sequence);
    FirstLineEnd(header, body);
    SplitHeader(seqId, description);
    ReadSequenceLine(sequence);
    assert IndexOf(content, '\n') == Some(h);
    assert SplitHeaderLine(content[1..h]) == Some((seqId, description));
    assert SequenceLine(content[h + 1..]) == Some(sequence);
  }

  /** An identifier with an inner space is written unescaped, so its header splits at that
      space: the record reads back with a shorter identifier and a longer description. */
  lemma InnerSpaceIdentifierExample()
    ensures ParseFasta(SaveFastaFile("my id", "d", "ACGT").content)
      == Some(FastaRecord("my", "id d", "ACGT"))
  {
    assert SaveFastaFile("my id", "d", "ACGT").content == SaveFastaFile("my", "id d", "ACGT").content;
    ContentRoundTrip("my", "id d", "ACGT");
  }

  /** The written text has exactly two newlines when the fields themselves contain none. */
  lemma ContentHasTwoLines(seqId: string, description: string, sequence: string)
    requires '\n' !in seqId && '\n' !in description && '\n' !in sequence
    ensures Count(SaveFastaFile(seqId, description, sequence).content, '\n') == 2
  {
    var nl := '\n';
    CountAppend(">", seqId, nl);
    CountAppend(">" + seqId, " ", nl);
    CountAppend(">" + seqId + " ", description, nl);
    CountAppend(">" + seqId + " " + description, "\n", nl);
    CountAppend(">" + seqId + " " + description + "\n", sequence, nl);
    CountAppend(">" + seqId + " " + description + "\n" + sequence, "\n", nl);
  }

  /** The worked example: identifier "seq1", description "test sequence", sequence "ACGT". */
  lemma SaveFastaFileExample()
    ensures SaveFastaFile("seq1", "test sequence", "ACGT")
      == FastaFile("seq1.fasta", ">seq1 test sequence\nACGT\n")
  {
  }
}
