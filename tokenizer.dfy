/**
 * The tokenizer object: the three fields that its methods update in place,
 * each method proved against the value-level model in module Vocabulary.
 */
module Tokenizers {
  import opened Vocabulary

  class Tokenizer {
    var vocab: map<string, int>
    var reverseVocab: map<int, string>
    var nextId: int

    /** The current state as a value. */
    function Model(): Vocab
      reads this
    {
      Vocab(vocab, reverseVocab, nextId)
    }

    /** Object invariant: a well-formed store with the reserved tokens at 0..3. */
    ghost predicate Valid()
      reads this
    {
      WellFormed(Model()) && Reserved(Model())
    }

    /** Seeds `<PAD>`, `<UNK>`, `<CLS>`, `<SEP>` at ids 0, 1, 2, 3. */
    constructor()
      ensures Valid()
      ensures vocab == map[PAD := 0, UNK := 1, CLS := 2, SEP := 3]
      ensures reverseVocab == map[0 := PAD, 1 := UNK, 2 := CLS, 3 := SEP]
      ensures nextId == 4
    {
      vocab, reverseVocab, nextId := map[], map[], 0;
      new;
      for k := 0 to |SpecialOrder|
        invariant Model() == Seeded(k)
      {
        var tok := SpecialOrder[k];
        SeededStep(k);
        vocab := vocab[tok := nextId];
        reverseVocab := reverseVocab[nextId := tok];
        nextId := nextId + 1;
      }
      FreshStore();
    }

    /**
     * Adds every unseen code point of `text`, in order of first appearance,
     * and returns the resulting vocabulary size.
     */
    method BuildVocab(text: string) returns (size: int)
      modifies this
      ensures Model() == Grow(old(Model()), text)
      ensures size == nextId
      ensures old(Valid()) ==> Valid()
    {
      for i := 0 to |text|
        invariant Model() == Grow(old(Model()), text[..i])
        invariant old(Valid()) ==> Valid()
      {
        assert text[..i + 1][..i] == text[..i];
        var ch := [text[i]];
        if ch !in vocab {
          if old(Valid()) {
            InsertWellFormed(Model(), ch);
          }
          vocab := vocab[ch := nextId];
          reverseVocab := reverseVocab[nextId := ch];
          nextId := nextId + 1;
        }
      }
      assert text[..|text|] == text;
      size := nextId;
    }

    /**
     * One id per code point of `text`: its id when known, otherwise a fresh id
     * (inserted into both maps) when `addNew`, otherwise the id stored for
     * `<UNK>`, read once before the loop.
     */
    method Encode(text: string, addNew: bool) returns (ids: seq<int>)
      requires addNew || UNK in vocab || AllKnown(Model(), text)
      modifies this
      ensures (ids, Model()) == EncodeSpec(old(Model()), text, addNew)
      ensures old(Valid()) ==> Valid()
    {
      ids := [];
      var unkId := if UNK in vocab then Some(vocab[UNK]) else None;
      for i := 0 to |text|
        invariant (ids, Model()) == EncodeSpec(old(Model()), text[..i], addNew)
        invariant !addNew ==> unkId == (if UNK in vocab then Some(vocab[UNK]) else None)
        invariant !addNew && unkId == None ==> AllKnown(Model(), text)
        invariant old(Valid()) ==> Valid()
      {
        assert text[..i + 1][..i] == text[..i];
        var ch := [text[i]];
        if ch in vocab {
          ids := ids + [vocab[ch]];
        } else if addNew {
          if old(Valid()) {
            InsertWellFormed(Model(), ch);
          }
          vocab := vocab[ch := nextId];
          reverseVocab := reverseVocab[nextId := ch];
          ids := ids + [nextId];
          nextId := nextId + 1;
        } else {
          ids := ids + [unkId.value];
        }
      }
      assert text[..|text|] == text;
    }

    /** decode reads only `reverseVocab`: it is Vocabulary.Decode of the current map. */
    function Decode(ids: seq<int>): string
      reads this
    {
      Vocabulary.Decode(reverseVocab, ids)
    }

    /**
     * Replaces the state with a parsed document: its `vocab` (empty when
     * absent), its `nextId` unless absent or 0 (then the entry count), and
     * `reverseVocab` rebuilt entry by entry.
     */
    method Load(p: Payload)
      requires Injective(LoadedVocab(p))
      modifies this
      ensures Model() == Restore(p)
    {
      vocab := if p.vocab.Some? then p.vocab.value else map[];
      nextId := if p.nextId.Some? && p.nextId.value != 0 then p.nextId.value else |vocab|;
      reverseVocab := map[];
      var pending := vocab.Keys;
      while pending != {}
        invariant pending <= vocab.Keys
        invariant vocab == LoadedVocab(p)
        invariant nextId == if p.nextId.Some? && p.nextId.value != 0 then p.nextId.value else |vocab|
        invariant forall tok :: tok in vocab && tok !in pending ==> vocab[tok] in reverseVocab && reverseVocab[vocab[tok]] == tok
        invariant forall id :: id in reverseVocab ==> reverseVocab[id] in vocab && reverseVocab[id] !in pending && vocab[reverseVocab[id]] == id
        decreases pending
      {
        var tok :| tok in pending;
        reverseVocab := reverseVocab[vocab[tok] := tok];
        pending := pending - {tok};
      }
      assert Mirrors(vocab, reverseVocab);
      MirrorsUnique(vocab, reverseVocab, Invert(vocab));
    }
  }
}
