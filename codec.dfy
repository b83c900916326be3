/** Encoding (compresserTexte), decoding (decomprimerTexte) and the header
    compressor that chains the whole pipeline (compresserEntete). Bits are the
    characters '0' and '1' of a string. */
module HuffmanCodec {
  import opened Wrappers
  import opened HuffmanTrees
  import opened FrequencyTable
  import opened TreeBuilder
  import opened CodeTables

  /** What StringBuilder.append(codes.get(c)) appends: the code, or the four
      characters "null" for a letter without one. */
  function Lookup(codes: map<char, string>, c: char): (s: string)
    ensures c in codes ==> s == codes[c]
    ensures c !in codes ==> s == "null"
  {
    if c in codes then codes[c] else "null"
  }

  /** The encoding of a text: the codes of its letters, in order. */
  function Encode(text: string, codes: map<char, string>): string
  {
    if text == [] then "" else Lookup(codes, text[0]) + Encode(text[1..], codes)
  }

  /** Encoding is a homomorphism: a concatenation encodes to the
      concatenation of the encodings. */
  lemma {:induction false} EncodeConcat(a: string, b: string, codes: map<char, string>)
    ensures Encode(a + b, codes) == Encode(a, codes) + Encode(b, codes)
  {
    if a == [] {
      assert a + b == b;
    } else {
      assert (a + b)[1..] == a[1..] + b;
      EncodeConcat(a[1..], b, codes);
    }
  }

  /** compresserTexte: append each letter's code in turn. */
  method Compress(text: string, codes: map<char, string>) returns (bits: string)
    ensures bits == Encode(text, codes)
  {
    bits := "";
    for i := 0 to |text|
      invariant bits == Encode(text[..i], codes)
    {
      EncodeConcat(text[..i], [text[i]], codes);
      assert text[..i + 1] == text[..i] + [text[i]];
      assert Encode([text[i]], codes) == Lookup(codes, text[i]);
      bits := bits + Lookup(codes, text[i]);
    }
    assert text[..|text|] == text;
  }

  /** The decoder's state machine: with the cursor at cur and the letters
      emitted so far in out, read the remaining bits. A '0' moves the cursor
      left, anything else right; reaching a leaf emits its letter and puts
      the cursor back at the root. Moving from a null cursor, or landing on
      one, throws. Bits left over after the last leaf are dropped. */
  function DecodeFrom(root: Option<Tree>, cur: Option<Tree>, bits: string, out: string): Result<string>
    decreases |bits|
  {
    if bits == [] then Ok(out)
    else if cur.None? then NullPointerError
    else
      var next := if bits[0] == '0' then Left(cur.value) else Right(cur.value);
      if next.None? then NullPointerError
      else if IsLeaf(next.value) then DecodeFrom(root, root, bits[1..], out + [next.value.sym])
      else DecodeFrom(root, next, bits[1..], out)
  }

  /** The result of decomprimerTexte: the cursor starts at the root. */
  function Decode(bits: string, root: Option<Tree>): Result<string>
  {
    DecodeFrom(root, root, bits, "")
  }

  /** decomprimerTexte. */
  method Decompress(bits: string, root: Option<Tree>) returns (r: Result<string>)
    ensures r == Decode(bits, root)
  {
    var out := "";
    var cur := root;
    for i := 0 to |bits|
      invariant DecodeFrom(root, cur, bits[i..], out) == Decode(bits, root)
    {
      assert bits[i..][1..] == bits[i + 1..];
      if cur.None? {
        return NullPointerError;
      }
      cur := if bits[i] == '0' then Left(cur.value) else Right(cur.value);
      if cur.None? {
        return NullPointerError;
      }
      if IsLeaf(cur.value) {
        out := out + [cur.value.sym];
        cur := root;
      }
    }
    return Ok(out);
  }

  /** Reading one letter's code from an internal node emits exactly that
      letter and brings the cursor back to the root. */
  lemma {:induction false} DecodeOneCode(root: Option<Tree>, s: Tree, c: char, rest: string, out: string)
    requires s.Node? && DistinctLeaves(s) && c in Leaves(s)
    ensures c in Codes(s)
    ensures DecodeFrom(root, Some(s), Codes(s)[c] + rest, out) == DecodeFrom(root, root, rest, out + [c])
  {
    CodesOfNode(s, c);
    DistinctChildren(s);
    var (sub, bit) := if c in Leaves(s.left) then (s.left, '0') else (s.right, '1');
    assert Codes(s)[c] == [bit] + Codes(sub)[c];
    var bits := Codes(s)[c] + rest;
    assert bits[0] == bit && bits[1..] == Codes(sub)[c] + rest;
    if sub.Leaf? {
      CodeLengths(sub);
      assert Codes(sub)[c] == "";
      assert bits[1..] == rest;
    } else {
      DecodeOneCode(root, sub, c, rest, out);
    }
  }

  /** Decoding an encoded text from the root emits that text and ends back at
      the root. */
  lemma {:induction false} DecodeEncoded(t: Tree, text: string, rest: string, out: string)
    requires t.Node? && DistinctLeaves(t)
    requires forall c :: c in text ==> c in Leaves(t)
    ensures DecodeFrom(Some(t), Some(t), Encode(text, Codes(t)) + rest, out) ==
            DecodeFrom(Some(t), Some(t), rest, out + text)
  {
    if text == [] {
      assert out + text == out;
      assert Encode(text, Codes(t)) + rest == rest;
    } else {
      var c, codes := text[0], Codes(t);
      var tail := Encode(text[1..], codes);
      DecodeOneCode(Some(t), t, c, tail + rest, out);
      EncodeFirst(text, codes, rest);
      assert forall x :: x in text[1..] ==> x in text;
      DecodeEncoded(t, text[1..], rest, out + [c]);
      AppendFirst(out, text);
    }
  }

  lemma EncodeFirst(text: string, codes: map<char, string>, rest: string)
    requires text != [] && text[0] in codes
    ensures Encode(text, codes) + rest == codes[text[0]] + (Encode(text[1..], codes) + rest)
  {
  }

  lemma AppendFirst(out: string, text: string)
    requires text != []
    ensures out + [text[0]] + text[1..] == out + text
  {
    assert text == [text[0]] + text[1..];
  }

  /** Decoding with an internal root never throws, and emits at most one
      letter per bit. */
  lemma {:induction false} DecodeTotal(root: Tree, cur: Tree, bits: string, out: string)
    requires root.Node? && cur.Node?
    ensures DecodeFrom(Some(root), Some(cur), bits, out).Ok?
    ensures |DecodeFrom(Some(root), Some(cur), bits, out).value| <= |out| + |bits|
    decreases |bits|
  {
    if bits != [] {
      var next := if bits[0] == '0' then cur.left else cur.right;
      if next.Leaf? {
        DecodeTotal(root, root, bits[1..], out + [next.sym]);
      } else {
        DecodeTotal(root, next, bits[1..], out);
      }
    }
  }

  /** On a tree with an internal root and distinct letters, decoding the
      encoding of any text over those letters gives the text back. */
  lemma DecodeInvertsEncode(t: Tree, text: string)
    requires t.Node? && DistinctLeaves(t)
    requires forall c :: c in text ==> c in Leaves(t)
    ensures Decode(Encode(text, Codes(t)), Some(t)) == Ok(text)
  {
    DecodeEncoded(t, text, "", "");
    assert Encode(text, Codes(t)) + "" == Encode(text, Codes(t));
    assert "" + text == text;
  }

  /** With two or more distinct letters, decoding the encoding of a text on
      the tree rebuilt from its frequencies gives the text back. */
  lemma RoundTrip(text: string)
    requires |Frequencies(text)| >= 2
    ensures HuffmanTree(Frequencies(text)).Some?
    ensures Decode(Encode(text, Codes(HuffmanTree(Frequencies(text)).value)), HuffmanTree(Frequencies(text))) == Ok(text)
  {
    var freq := Frequencies(text);
    HuffmanTreeDistinct(freq);
    HuffmanTreeShape(freq);
    DecodeInvertsEncode(HuffmanTree(freq).value, text);
  }

  /** What compresserEntete returns: the text encoded with the codes of its
      own Huffman tree, or a NullPointerException for the empty text. */
  function CompressedHeader(text: string): Result<string>
  {
    match HuffmanCodes(Frequencies(text))
    case NullPointerError => NullPointerError
    case Ok(codes) => Ok(Encode(text, codes))
  }

  /** compresserEntete. */
  method CompressHeader(text: string) returns (r: Result<string>)
    ensures r == CompressedHeader(text)
  {
    var freq := CountFrequencies(text);
    var codes := GenerateCodes(freq);
    if codes.NullPointerError? {
      return NullPointerError;
    }
    var bits := Compress(text, codes.value);
    return Ok(bits);
  }

  /** The header compressor throws exactly on the empty text; with two or
      more distinct letters its output decodes back to the text on the tree
      reconstruireArbre rebuilds from the frequencies. */
  lemma HeaderRoundTrip(text: string)
    ensures CompressedHeader(text).NullPointerError? <==> text == []
    ensures |Frequencies(text)| >= 2 ==>
              Decode(CompressedHeader(text).value, HuffmanTree(Frequencies(text))) == Ok(text)
  {
    var freq := Frequencies(text);
    HuffmanTreeExists(freq);
    if text != [] {
      assert text[0] in freq;
    }
    if |freq| >= 2 {
      RoundTrip(text);
    }
  }

  /** A text made of one letter repeated gets the empty code, so it
      compresses to nothing and decodes to nothing: the text is lost. */
  lemma SingleLetterTextLost(text: string)
    requires |Frequencies(text)| == 1
    ensures CompressedHeader(text) == Ok("")
    ensures Decode("", HuffmanTree(Frequencies(text))) == Ok("")
    ensures text != ""
  {
    var freq := Frequencies(text);
    HuffmanTreeShape(freq);
    var t := HuffmanTree(freq).value;
    var c :| c in freq && t == Leaf(c, freq[c]);
    CodeLengths(t);
    assert forall x :: x in text ==> x == c;
    EncodeSingle(text, c);
  }

  /** Encoding a text of one repeated letter whose code is empty. */
  lemma {:induction false} EncodeSingle(text: string, c: char)
    requires forall x :: x in text ==> x == c
    ensures Encode(text, map[c := ""]) == ""
  {
    if text != [] {
      assert text[0] in text;
      assert forall x :: x in text[1..] ==> x in text;
      EncodeSingle(text[1..], c);
    }
  }
}
