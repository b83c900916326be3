/** The evidently intended behaviour at the two edges where the source
    loses or rejects its input: a text of one repeated letter gets the
    one-bit code "0" and decodes one letter per bit, and the empty text
    compresses to the empty bit string. Everything else is the source's. */
module CorrectedCodec {
  import opened Wrappers
  import opened HuffmanTrees
  import opened FrequencyTable
  import opened TreeBuilder
  import opened CodeTables
  import opened HuffmanCodec

  /** The code table with the one-bit fallback for a lone leaf. */
  function FixedCodes(t: Tree): map<char, string>
  {
    if t.Leaf? then map[t.sym := "0"] else Codes(t)
  }

  /** Compression with the fallback code; the empty text gives no bits. */
  function FixedCompress(text: string): string
  {
    match HuffmanTree(Frequencies(text))
    case None => ""
    case Some(t) => Encode(text, FixedCodes(t))
  }

  /** Decompression: a lone-leaf tree emits its letter once per bit, any
      other tree decodes as the source does. */
  function FixedDecompress(bits: string, root: Option<Tree>): Result<string>
  {
    match root
    case Some(Leaf(c, _)) => Ok(seq(|bits|, _ => c))
    case _ => Decode(bits, root)
  }

  /** With the fallback every code is non-empty and the table is still a
      prefix code. */
  lemma FixedCodesPrefixFree(t: Tree)
    requires DistinctLeaves(t)
    ensures forall c :: c in FixedCodes(t) ==> |FixedCodes(t)[c]| >= 1
    ensures forall a, b :: a in FixedCodes(t) && b in FixedCodes(t) && a != b ==>
              !(FixedCodes(t)[a] <= FixedCodes(t)[b])
  {
    if t.Node? {
      CodeLengths(t);
      PrefixFree(t);
    }
  }

  /** A text of one repeated letter encodes to one '0' per letter. */
  lemma {:induction false} EncodeRepeated(text: string, c: char)
    requires forall x :: x in text ==> x == c
    ensures Encode(text, map[c := "0"]) == seq(|text|, _ => '0')
  {
    if text != [] {
      assert text[0] in text;
      assert forall x :: x in text[1..] ==> x in text;
      EncodeRepeated(text[1..], c);
    }
  }

  /** A text whose frequency table has the single entry c is c repeated. */
  lemma OnlyLetter(text: string, c: char)
    requires |Frequencies(text)| == 1 && c in Frequencies(text)
    ensures forall i :: 0 <= i < |text| ==> text[i] == c
  {
    var freq := Frequencies(text);
    assert |freq.Keys - {c}| == 0;
    forall i | 0 <= i < |text|
      ensures text[i] == c
    {
      assert text[i] in text;
      assert text[i] in freq.Keys;
    }
  }

  /** A text of one repeated letter survives the corrected round trip. */
  lemma FixedRoundTripSingle(text: string)
    requires |Frequencies(text)| == 1
    ensures FixedDecompress(FixedCompress(text), HuffmanTree(Frequencies(text))) == Ok(text)
  {
    var freq := Frequencies(text);
    HuffmanTreeShape(freq);
    var t := HuffmanTree(freq).value;
    var c :| c in freq && t == Leaf(c, freq[c]);
    OnlyLetter(text, c);
    assert forall x :: x in text ==> x == c;
    EncodeRepeated(text, c);
    assert FixedCompress(text) == seq(|text|, _ => '0');
    assert seq(|text|, _ => c) == text;
  }

  /** Every text, including the empty one and one letter repeated, comes
      back from compressing and then decompressing on the rebuilt tree. */
  lemma FixedRoundTrip(text: string)
    ensures FixedDecompress(FixedCompress(text), HuffmanTree(Frequencies(text))) == Ok(text)
  {
    var freq := Frequencies(text);
    HuffmanTreeExists(freq);
    if text == [] {
      assert freq == map[];
    } else {
      assert text[0] in freq;
      if |freq| >= 2 {
        HuffmanTreeShape(freq);
        HuffmanTreeDistinct(freq);
        DecodeInvertsEncode(HuffmanTree(freq).value, text);
      } else {
        FixedRoundTripSingle(text);
      }
    }
  }
}
