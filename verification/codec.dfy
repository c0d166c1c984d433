/**
 * `encode` (huffman_tree.cpp:151-171) and `decode` (huffman_tree.cpp:178-210). Codes and encoded
 * text are strings of the symbols '0' and '1', as in the source.
 */
module Codec {
  import opened Options
  import opened Nodes
  import opened CodeLookup

  /** Every character of `text` has a code, that is, a non-empty answer from the lookup. */
  predicate Encodable(t: Tree, text: string)
  {
    forall i :: 0 <= i < |text| ==> CodeFor(t, text[i]) != ""
  }

  /** The codes of the characters of `text`, concatenated in input order. */
  function Encoding(t: Tree, text: string): string
  {
    if text == [] then [] else CodeFor(t, text[0]) + Encoding(t, text[1..])
  }

  lemma {:induction false} EncodingAppend(t: Tree, text: string, c: char)
    ensures Encoding(t, text + [c]) == Encoding(t, text) + CodeFor(t, c)
  {
    if text == [] {
      assert text + [c] == [c];
      assert Encoding(t, [c]) == CodeFor(t, c) + Encoding(t, []);
    } else {
      assert (text + [c])[1..] == text[1..] + [c];
      EncodingAppend(t, text[1..], c);
    }
  }

  /**
   * For encodable text the encoding is empty only for empty text, so the empty string `encode`
   * returns on failure cannot be mistaken for the encoding of a non-empty text.
   */
  lemma {:induction false} EncodingEmptyIff(t: Tree, text: string)
    requires Encodable(t, text)
    ensures Encoding(t, text) == [] <==> text == []
  {
    if text != [] {
      assert CodeFor(t, text[0]) != "";
    }
  }

  /** A text all of whose characters are leaves of the tree is encodable. */
  lemma LeafTextEncodable(t: Tree, text: string)
    requires forall i :: 0 <= i < |text| ==> text[i] in LeafChars(t)
    ensures Encodable(t, text)
  {
    forall i | 0 <= i < |text| ensures CodeFor(t, text[i]) != "" {
      CodeForEmptyIffAbsent(t, text[i]);
    }
  }

  /** A character that is neither a leaf nor the root's `character` field makes a text unencodable. */
  lemma UnknownCharacterFails(t: Tree, text: string, i: nat)
    requires i < |text| && text[i] != Char(t) && text[i] !in LeafChars(t)
    ensures !Encodable(t, text)
  {
    CodeForEmptyIffAbsent(t, text[i]);
  }

  /**
   * `encode`: the file becomes `text`, and `readable` says whether it could be opened. The result
   * is all or nothing: the concatenated codes, or "" as soon as one character has no code. A
   * non-empty text needs a root, since the lookup dereferences it.
   */
  method Encode(root: Option<Tree>, readable: bool, text: string) returns (out: string)
    requires readable && text != [] ==> root.Some?
    ensures out == if readable && text != [] && Encodable(root.value, text)
                   then Encoding(root.value, text) else ""
  {
    if !readable {
      return "";
    }
    out := [];
    var i := 0;
    while i < |text|
      invariant 0 <= i <= |text|
      invariant text == [] ==> out == []
      invariant text != [] ==> Encodable(root.value, text[..i]) && out == Encoding(root.value, text[..i])
    {
      var t := root.value;
      var x := CharacterCode(t, text[i]);
      if x == "" {
        return "";
      }
      EncodingAppend(t, text[..i], text[i]);
      assert text[..i + 1] == text[..i] + [text[i]];
      out := out + x;
      i := i + 1;
    }
    assert text[..i] == text;
  }

  /** Where one symbol leads from `cur`: the child it names, or nowhere when there is none. */
  function Step(cur: Tree, x: char): Tree
  {
    match Child(cur, x)
    case Some(n) => n
    case None => cur
  }

  /**
   * What `decode` emits for `bits` when it stands at `cur`: each step either moves to a child
   * or stays, each leaf reached is emitted and sends the walk back to `root`, and the input ends
   * at its end or at its first '\0'.
   */
  function Decoding(root: Tree, cur: Tree, bits: string): string
    decreases |bits|
  {
    if bits == [] || bits[0] == '\0' then []
    else
      var next := Step(cur, bits[0]);
      if next.Leaf? then [next.ch] + Decoding(root, root, bits[1..])
      else Decoding(root, next, bits[1..])
  }

  /** `decode`: with no root the answer is ""; otherwise the state machine runs from the root. */
  method Decode(root: Option<Tree>, bits: string) returns (out: string)
    ensures root.None? ==> out == ""
    ensures root.Some? ==> out == Decoding(root.value, root.value, bits)
  {
    out := "";
    if root.None? {
      return "";
    }
    var t := root.value;
    var current := t;
    var index := 0;
    while index < |bits| && bits[index] != '\0'
      invariant 0 <= index <= |bits|
      invariant out + Decoding(t, current, bits[index..]) == Decoding(t, t, bits)
    {
      ghost var before := current;
      assert bits[index..][1..] == bits[index + 1..];
      if bits[index] == '0' && current.Internal? {
        current := current.left;
      }
      if bits[index] == '1' && current.Internal? {
        current := current.right;
      }
      assert current == Step(before, bits[index]);
      index := index + 1;
      if current.Leaf? {
        out := out + [current.ch];
        current := t;
      }
    }
  }

  /** Following the path to a leaf from an internal node emits that leaf and returns to the root. */
  lemma {:induction false} FollowPath(root: Tree, n: Tree, c: char, p: string, rest: string)
    requires n.Internal? && FindPath(n, c) == Some(p)
    ensures Decoding(root, n, p + rest) == [c] + Decoding(root, root, rest)
    decreases n
  {
    var l, r := n.left, n.right;
    match FindPath(l, c)
    case Some(q) =>
      assert p + rest == ['0'] + (q + rest);
      if l.Internal? {
        FollowPath(root, l, c, q, rest);
      } else {
        assert q == [];
      }
    case None =>
      var q := FindPath(r, c).value;
      assert p + rest == ['1'] + (q + rest);
      if r.Internal? {
        FollowPath(root, r, c, q, rest);
      } else {
        assert q == [];
      }
  }

  /** Decoding one character's code emits that character and returns to the root. */
  lemma DecodeOneCode(t: Tree, c: char, rest: string)
    requires CodeFor(t, c) != ""
    requires t.Internal? ==> c != '\0'
    ensures Decoding(t, t, CodeFor(t, c) + rest) == [c] + Decoding(t, t, rest)
  {
    CodeForEmptyIffAbsent(t, c);
    if t.Internal? {
      FollowPath(t, t, c, FindPath(t, c).value, rest);
    } else {
      assert LeafChars(t) == multiset{t.ch};
      assert CodeFor(t, c) + rest == ['0'] + rest;
    }
  }

  /** The first character of an encodable text has a code, and the rest is encodable. */
  lemma EncodableSplit(t: Tree, text: string)
    requires Encodable(t, text) && text != []
    ensures CodeFor(t, text[0]) != "" && Encodable(t, text[1..])
    ensures '\0' !in text ==> text[0] != '\0' && '\0' !in text[1..]
  {
    assert text == [text[0]] + text[1..];
    forall i | 0 <= i < |text[1..]| ensures CodeFor(t, text[1..][i]) != "" {
      assert text[1..][i] == text[i + 1];
    }
  }

  /** Decoding the encoding of a text gives the text back, whatever follows it. */
  lemma {:induction false} DecodeEncoding(t: Tree, text: string, rest: string)
    requires Encodable(t, text)
    requires t.Internal? ==> '\0' !in text
    ensures Decoding(t, t, Encoding(t, text) + rest) == text + Decoding(t, t, rest)
  {
    if text != [] {
      var c, tail := text[0], text[1..];
      EncodableSplit(t, text);
      var code, enc := CodeFor(t, c), Encoding(t, tail);
      calc {
        Decoding(t, t, Encoding(t, text) + rest);
        { assert Encoding(t, text) == code + enc;
          assert (code + enc) + rest == code + (enc + rest); }
        Decoding(t, t, code + (enc + rest));
        { DecodeOneCode(t, c, enc + rest); }
        [c] + Decoding(t, t, enc + rest);
        { DecodeEncoding(t, tail, rest); }
        [c] + (tail + Decoding(t, t, rest));
        { assert text == [c] + tail; }
        text + Decoding(t, t, rest);
      }
    } else {
      assert Encoding(t, text) + rest == rest;
    }
  }

  /**
   * The round trip: whenever encoding succeeds on a text without '\0' (in a tree of more than one
   * leaf, the internal nodes' '\0' would capture that character), decoding gives the text back.
   */
  lemma RoundTrip(t: Tree, text: string)
    requires Encodable(t, text)
    requires t.Internal? ==> '\0' !in text
    ensures Decoding(t, t, Encoding(t, text)) == text
  {
    DecodeEncoding(t, text, []);
    assert Encoding(t, text) + [] == Encoding(t, text);
  }

  /** The round trip over the text a tree was built from, or any text over the same alphabet. */
  lemma RoundTripOverAlphabet(t: Tree, text: string)
    requires forall i :: 0 <= i < |text| ==> text[i] in LeafChars(t)
    requires t.Internal? ==> '\0' !in text
    ensures Encodable(t, text)
    ensures Decoding(t, t, Encoding(t, text)) == text
  {
    LeafTextEncodable(t, text);
    RoundTrip(t, text);
  }

  /** Symbols that lead from an internal node only to internal nodes emit nothing. */
  lemma {:induction false} PartialPathEmitsNothing(root: Tree, n: Tree, p: string)
    requires n.Internal?
    requires At(n, p).Some? && At(n, p).value.Internal?
    ensures Decoding(root, n, p) == []
    decreases p
  {
    if p != [] {
      var m := Child(n, p[0]).value;
      assert m.Internal? by {
        if m.Leaf? {
          assert p[1..] == [];
        }
      }
      PartialPathEmitsNothing(root, m, p[1..]);
    }
  }

  /** An incomplete code after the last complete one is dropped without a character. */
  lemma TrailingPartialCodeDropped(t: Tree, text: string, p: string)
    requires Encodable(t, text) && t.Internal? && '\0' !in text
    requires At(t, p).Some? && At(t, p).value.Internal?
    ensures Decoding(t, t, Encoding(t, text) + p) == text
  {
    DecodeEncoding(t, text, p);
    PartialPathEmitsNothing(t, t, p);
  }

  /** In a single-leaf tree every symbol before the first '\0' emits the leaf's character. */
  lemma {:induction false} SingleLeafDecoding(t: Tree, bits: string)
    requires t.Leaf? && '\0' !in bits
    ensures Decoding(t, t, bits) == seq(|bits|, _ => t.ch)
  {
    if bits != [] {
      assert bits[0] in bits;
      assert forall x :: x in bits[1..] ==> x in bits;
      SingleLeafDecoding(t, bits[1..]);
    }
  }

  /**
   * In a single-leaf tree only the leaf's character is encodable, and it is encoded as "0"
   * per occurrence.
   */
  lemma {:induction false} SingleLeafEncoding(t: Tree, text: string)
    requires t.Leaf?
    ensures Encodable(t, text) <==> forall i :: 0 <= i < |text| ==> text[i] == t.ch
    ensures Encodable(t, text) ==> Encoding(t, text) == seq(|text|, _ => '0')
  {
    assert LeafChars(t) == multiset{t.ch};
    forall i | 0 <= i < |text| ensures CodeFor(t, text[i]) != "" <==> text[i] == t.ch {
      CodeForEmptyIffAbsent(t, text[i]);
    }
    if text != [] && Encodable(t, text) {
      SingleLeafEncoding(t, text[1..]);
      assert Encodable(t, text[1..]) by {
        forall i | 0 <= i < |text[1..]| ensures CodeFor(t, text[1..][i]) != "" {
          assert text[1..][i] == text[i + 1];
        }
      }
    }
  }

  /** Decoding ends at the first '\0': nothing after it is read. */
  lemma {:induction false} DecodingStopsAtNul(root: Tree, cur: Tree, bits: string, rest: string)
    requires '\0' !in bits
    ensures Decoding(root, cur, bits + ['\0'] + rest) == Decoding(root, cur, bits)
    decreases |bits|
  {
    if bits != [] {
      assert (bits + ['\0'] + rest)[1..] == bits[1..] + ['\0'] + rest;
      assert bits[0] in bits;
      var next := Step(cur, bits[0]);
      DecodingStopsAtNul(root, if next.Leaf? then root else next, bits[1..], rest);
    } else {
      assert bits + ['\0'] + rest == ['\0'] + rest;
    }
  }

  /**
   * A text of one repeated character: a tree whose leaves are exactly the text's characters,
   * once each, is a single leaf; every occurrence is encoded as "0", and decoding gives the text
   * back.
   */
  lemma SingleSymbolText(t: Tree, text: string)
    requires text != [] && forall i :: 0 <= i < |text| ==> text[i] == text[0]
    requires forall c :: LeafChars(t)[c] == if c in text then 1 else 0
    ensures t.Leaf? && t.ch == text[0]
    ensures Encodable(t, text) && Encoding(t, text) == seq(|text|, _ => '0')
    ensures Decoding(t, t, Encoding(t, text)) == text
  {
    assert LeafChars(t) == multiset{text[0]} by {
      forall c ensures LeafChars(t)[c] == multiset{text[0]}[c] {
        if c in text {
          var i :| 0 <= i < |text| && text[i] == c;
        }
      }
    }
    if t.Internal? {
      InternalHasTwoLeaves(t);
      assert false;
    }
    SingleLeafEncoding(t, text);
    var enc := Encoding(t, text);
    assert '\0' !in enc;
    SingleLeafDecoding(t, enc);
  }
}
