/**
 * The frequency table the constructor fills while reading its input (huffman_tree.cpp:29-34).
 * The file is replaced by the sequence of characters it yields.
 */
module Frequencies {

  /** Counts the occurrences of every character of `text`, one character at a time. */
  method CountFrequencies(text: string) returns (freq: map<char, nat>)
    ensures freq.Keys == set c | c in text
    ensures forall c :: c in freq ==> freq[c] == multiset(text)[c]
    ensures forall c :: c in freq ==> freq[c] >= 1
  {
    freq := map[];
    var i := 0;
    while i < |text|
      invariant 0 <= i <= |text|
      invariant freq.Keys == set c | c in text[..i]
      invariant forall c :: c in freq ==> freq[c] == multiset(text[..i])[c]
    {
      var c := text[i];
      // `charFrequency[character]++` starts a missing entry at 0
      var old_count := if c in freq then freq[c] else 0;
      freq := freq[c := old_count + 1];
      assert text[..i + 1] == text[..i] + [c];
      i := i + 1;
    }
    assert text[..i] == text;
  }
}
