/**
 * The command-line sequence on values: `train` builds a vocabulary from a
 * corpus and saves it; `encode` and `decode` each load the saved document
 * into a new tokenizer and encode text (without growth) or decode ids.
 */
module Scenario {
  import opened Vocabulary
  import opened Tokenizers

  /** No key of the store is a single code point. */
  ghost predicate NoCharKeys(v: Vocab)
  {
    forall tok :: tok in v.vocab ==> |tok| != 1
  }

  /**
   * Against a store trained on `corpus`, starting from one holding only
   * multi-character tokens, encoding without growth maps each code point
   * absent from the corpus to 1, and text drawn from the corpus decodes back
   * to itself.
   */
  lemma TrainedEncodeDecode(v: Vocab, corpus: string, text: string)
    requires WellFormed(v) && Reserved(v) && NoCharKeys(v)
    ensures
      var saved := Grow(v, corpus);
      var ids := EncodeSpec(saved, text, false).0;
      && (forall i :: 0 <= i < |text| && text[i] !in corpus ==> ids[i] == 1)
      && ((forall i :: 0 <= i < |text| ==> text[i] in corpus) ==> Decode(saved.reverseVocab, ids) == text)
  {
    var saved := Grow(v, corpus);
    GrowWellFormed(v, corpus);
    forall i | 0 <= i < |text| && text[i] !in corpus
      ensures EncodeSpec(saved, text, false).0[i] == 1
    {
      GrowOnlyText(v, corpus, text[i]);
      EncodeUnknownIsUnk(saved, text, i);
    }
    if forall i :: 0 <= i < |text| ==> text[i] in corpus {
      GrowCovers(v, corpus);
      forall i | 0 <= i < |text|
        ensures [text[i]] in saved.vocab
      {
        var j :| 0 <= j < |corpus| && corpus[j] == text[i];
      }
      RoundTrip(saved, text);
    }
  }

  /**
   * Trains on `corpus`, saves, then encodes `text` and decodes the ids with
   * tokenizers loaded from the saved document. A code point absent from the
   * corpus encodes to the id of `<UNK>`; text drawn from the corpus decodes
   * back to itself.
   */
  method TrainEncodeDecode(corpus: string, text: string) returns (size: int, ids: seq<int>, decoded: string)
    ensures size >= 4
    ensures |ids| == |text|
    ensures forall i :: 0 <= i < |text| && text[i] !in corpus ==> ids[i] == 1
    ensures (forall i :: 0 <= i < |text| ==> text[i] in corpus) ==> decoded == text
  {
    // train <corpus> <out>
    var trainer := new Tokenizer();
    ghost var seeded := trainer.Model();
    assert NoCharKeys(seeded);
    size := trainer.BuildVocab(corpus);
    var saved := trainer.Model();
    TrainedEncodeDecode(seeded, corpus, text);

    // encode <saved> <text>
    var encoder := new Tokenizer();
    encoder.Load(Save(saved));
    ids := encoder.Encode(text, false);

    // decode <saved> <ids>
    var decoder := new Tokenizer();
    decoder.Load(Save(saved));
    decoded := decoder.Decode(ids);
  }
}
