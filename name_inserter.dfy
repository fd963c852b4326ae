/** Splicing the user's name into the sequence (`insert_name`).
    The position drawn by `random.randint(0, len(sequence))` is the parameter `position`. */
module NameInserter {
  import opened Text

  /** `name` spliced into `sequence` before index `position`; an empty sequence yields `name`. */
  function InsertName(sequence: string, name: string, position: nat): (r: string)
    requires position <= |sequence|
    ensures |r| == |sequence| + |name|
    ensures r[position..position + |name|] == name
    ensures r[..position] == sequence[..position]
    ensures r[position + |name|..] == sequence[position..]
  {
    if |sequence| == 0 then name
    else sequence[..position] + name + sequence[position..]
  }

  /** `s` with the `count` characters starting at `start` cut out. */
  function RemoveSlice(s: string, start: nat, count: nat): (r: string)
    requires start + count <= |s|
    ensures |r| == |s| - count
    ensures r[..start] == s[..start]
    ensures r[start..] == s[start + count..]
  {
    s[..start] + s[start + count..]
  }

  /** Inserting into the empty sequence returns the name unchanged, whatever the name. */
  lemma InsertIntoEmpty(name: string)
    ensures InsertName([], name, 0) == name
  {
  }

  /** Cutting the name back out of the result restores the original sequence exactly. */
  lemma InsertThenRemove(sequence: string, name: string, position: nat)
    requires position <= |sequence|
    ensures RemoveSlice(InsertName(sequence, name, position), position, |name|) == sequence
  {
  }

  /** The result is exactly `name` with `sequence`'s prefix before it and its suffix after it:
      given the position, the result is determined character by character. */
  lemma InsertNameCharacterwise(sequence: string, name: string, position: nat, i: nat)
    requires position <= |sequence|
    requires i < |sequence| + |name|
    ensures InsertName(sequence, name, position)[i] ==
      if i < position then sequence[i]
      else if i < position + |name| then name[i - position]
      else sequence[i - |name|]
  {
  }

  /** Every character count of the result is the sequence's count plus the name's count:
      the nucleotides of the original sequence are all still there. */
  lemma InsertNameCounts(sequence: string, name: string, position: nat, x: char)
    requires position <= |sequence|
    ensures Count(InsertName(sequence, name, position), x) == Count(sequence, x) + Count(name, x)
  {
    if |sequence| > 0 {
      var pre, post := sequence[..position], sequence[position..];
      CountAppend(pre + name, post, x);
      CountAppend(pre, name, x);
      CountAppend(pre, post, x);
      assert pre + post == sequence;
    }
  }
}
