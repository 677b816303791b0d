/**
 * The value-level model of the character tokenizer's vocabulary store: the
 * three pieces of state (`vocab`, `reverseVocab`, `nextId`), the step that
 * grows them, and the encode / decode / restore transformations as pure
 * functions, together with the properties proved about them.
 *
 * Text is a `seq<char>` with one element per Unicode code point, so a
 * character token is the one-element string `[c]`.
 */
module Vocabulary {

  datatype Option<T> = None | Some(value: T)

  const PAD: string := "<PAD>"
  const UNK: string := "<UNK>"
  const CLS: string := "<CLS>"
  const SEP: string := "<SEP>"

  /** The reserved tokens in the order in which a fresh store numbers them. */
  const SpecialOrder: seq<string> := [PAD, UNK, CLS, SEP]

  /** The reserved tokens are pairwise distinct. */
  lemma SpecialsDistinct()
    ensures forall i, j :: 0 <= i < j < |SpecialOrder| ==> SpecialOrder[i] != SpecialOrder[j]
  {
  }

  /** A snapshot of the store: token -> id, id -> token, and the next id to hand out. */
  datatype Vocab = Vocab(vocab: map<string, int>, reverseVocab: map<int, string>, nextId: int)

  /** `reverseVocab` is the exact inverse of `vocab`, in both directions. */
  ghost predicate Mirrors(vocab: map<string, int>, reverseVocab: map<int, string>)
  {
    && (forall tok :: tok in vocab ==> vocab[tok] in reverseVocab && reverseVocab[vocab[tok]] == tok)
    && (forall id :: id in reverseVocab ==> reverseVocab[id] in vocab && vocab[reverseVocab[id]] == id)
  }

  /** The store's invariant: mirrored maps, ids dense in [0, nextId), nextId equal to the entry count. */
  ghost predicate WellFormed(v: Vocab)
  {
    && Mirrors(v.vocab, v.reverseVocab)
    && (forall id :: id in v.reverseVocab <==> 0 <= id < v.nextId)
    && |v.vocab| == v.nextId
  }

  /** The four reserved tokens sit at ids 0, 1, 2 and 3. */
  ghost predicate Reserved(v: Vocab)
  {
    && PAD in v.vocab && v.vocab[PAD] == 0
    && UNK in v.vocab && v.vocab[UNK] == 1
    && CLS in v.vocab && v.vocab[CLS] == 2
    && SEP in v.vocab && v.vocab[SEP] == 3
  }

  /** Every code point of `text` is already a key of the store. */
  ghost predicate AllKnown(v: Vocab, text: seq<char>)
  {
    forall i :: 0 <= i < |text| ==> [text[i]] in v.vocab
  }

  /** No two tokens share an id. */
  ghost predicate Injective(m: map<string, int>)
  {
    forall a, b :: a in m && b in m && m[a] == m[b] ==> a == b
  }

  // ---------------------------------------------------------------------------
  // Growth
  // ---------------------------------------------------------------------------

  /** One growth step: `tok` receives the id `nextId` in both maps and the counter advances. */
  function Insert(v: Vocab, tok: string): (r: Vocab)
    ensures tok in r.vocab && r.vocab[tok] == v.nextId
    ensures v.nextId in r.reverseVocab && r.reverseVocab[v.nextId] == tok
    ensures r.nextId == v.nextId + 1
    ensures forall t :: t in v.vocab && t != tok ==> t in r.vocab && r.vocab[t] == v.vocab[t]
    ensures tok !in v.vocab ==> |r.vocab| == |v.vocab| + 1
  {
    Vocab(v.vocab[tok := v.nextId], v.reverseVocab[v.nextId := tok], v.nextId + 1)
  }

  /** A growth step adds exactly `tok` to `vocab` and `nextId` to `reverseVocab`, and keeps every other `reverseVocab` entry. */
  lemma InsertFrame(v: Vocab, tok: string)
    ensures Insert(v, tok).vocab.Keys == v.vocab.Keys + {tok}
    ensures Insert(v, tok).reverseVocab.Keys == v.reverseVocab.Keys + {v.nextId}
    ensures forall id :: id in v.reverseVocab && id != v.nextId ==>
              Insert(v, tok).reverseVocab[id] == v.reverseVocab[id]
  {
  }

  /** A growth step on a fresh token keeps the store's invariant and its reserved entries. */
  lemma InsertWellFormed(v: Vocab, tok: string)
    requires WellFormed(v) && tok !in v.vocab
    ensures WellFormed(Insert(v, tok))
    ensures Reserved(v) ==> Reserved(Insert(v, tok))
  {
    var w := Insert(v, tok);
    assert v.nextId !in v.reverseVocab;
    forall id | id in w.reverseVocab
      ensures w.reverseVocab[id] in w.vocab && w.vocab[w.reverseVocab[id]] == id
    {
      if id != v.nextId {
        assert v.reverseVocab[id] != tok;
      }
    }
  }

  /** The store after the constructor has seeded the first `k` reserved tokens. */
  function Seeded(k: nat): (r: Vocab)
    requires k <= |SpecialOrder|
    ensures r.nextId == k
  {
    if k == 0 then Vocab(map[], map[], 0)
    else Insert(Seeded(k - 1), SpecialOrder[k - 1])
  }

  /** After seeding `k` reserved tokens, the j-th of them has id j and no other token is a key. */
  lemma {:induction false} SeededSpec(k: nat)
    requires k <= |SpecialOrder|
    ensures forall j :: 0 <= j < k ==> SpecialOrder[j] in Seeded(k).vocab && Seeded(k).vocab[SpecialOrder[j]] == j
    ensures forall tok :: tok in Seeded(k).vocab ==> tok in SpecialOrder[..k]
  {
    if k > 0 {
      SeededSpec(k - 1);
      assert SpecialOrder[..k] == SpecialOrder[..k - 1] + [SpecialOrder[k - 1]];
    }
  }

  /** Seeding keeps the store's invariant. */
  lemma {:induction false} SeededWellFormed(k: nat)
    requires k <= |SpecialOrder|
    ensures WellFormed(Seeded(k))
  {
    if k > 0 {
      SeededWellFormed(k - 1);
      SeededSpec(k - 1);
      SpecialsDistinct();
      InsertWellFormed(Seeded(k - 1), SpecialOrder[k - 1]);
    }
  }

  /** Seeding one more reserved token is one growth step. */
  lemma SeededStep(k: nat)
    requires k < |SpecialOrder|
    ensures Seeded(k + 1) == Insert(Seeded(k), SpecialOrder[k])
  {
  }

  /** A fresh store holds exactly the four reserved tokens at 0..3 and is well formed. */
  lemma FreshStore()
    ensures Seeded(4).vocab == map[PAD := 0, UNK := 1, CLS := 2, SEP := 3]
    ensures Seeded(4).reverseVocab == map[0 := PAD, 1 := UNK, 2 := CLS, 3 := SEP]
    ensures Seeded(4).nextId == 4
    ensures WellFormed(Seeded(4)) && Reserved(Seeded(4))
  {
    SpecialsDistinct();
    var v0 := Seeded(0);
    InsertWellFormed(v0, PAD);
    var v1 := Seeded(1);
    InsertWellFormed(v1, UNK);
    var v2 := Seeded(2);
    InsertWellFormed(v2, CLS);
    var v3 := Seeded(3);
    InsertWellFormed(v3, SEP);
  }

  /** The body of the buildVocab loop: an unseen code point is inserted, a known one is a no-op. */
  function AddIfAbsent(v: Vocab, c: char): (r: Vocab)
    ensures [c] in r.vocab
    ensures r == v <==> [c] in v.vocab
    ensures r.vocab[[c]] == if [c] in v.vocab then v.vocab[[c]] else v.nextId
  {
    if [c] in v.vocab then v else Insert(v, [c])
  }

  /** The store after buildVocab has walked `text` from left to right. */
  function Grow(v: Vocab, text: seq<char>): (r: Vocab)
    ensures v.nextId <= r.nextId
    ensures v.vocab.Keys <= r.vocab.Keys
    decreases |text|
  {
    if |text| == 0 then v
    else AddIfAbsent(Grow(v, text[..|text| - 1]), text[|text| - 1])
  }

  /** The distinct code points of `text` unknown to `v`, in order of first appearance. */
  function NewChars(v: Vocab, text: seq<char>): (r: seq<char>)
    ensures forall i, j :: 0 <= i < j < |r| ==> r[i] != r[j]
    ensures forall c :: c in r <==> c in text && [c] !in v.vocab
    ensures forall i, j :: 0 <= i < j < |r| ==> FirstIndex(text, r[i]) < FirstIndex(text, r[j])
    decreases |text|
  {
    if |text| == 0 then []
    else
      var prefix := text[..|text| - 1];
      var p := NewChars(v, prefix);
      var c := text[|text| - 1];
      assert text == prefix + [c];
      FirstIndexExtend(prefix, c);
      if [c] in v.vocab || c in p then p
      else
        assert c !in prefix;
        assert text[..|prefix|] == prefix;
        p + [c]
  }

  /** The index of the first occurrence of `c` in `s`. */
  function FirstIndex(s: seq<char>, c: char): (r: nat)
    requires c in s
    ensures r < |s| && s[r] == c && c !in s[..r]
    decreases |s|
  {
    if s[0] == c then 0
    else
      var r := 1 + FirstIndex(s[1..], c);
      assert s[..r] == [s[0]] + s[1..][..r - 1];
      r
  }

  /** Appending a code point does not move the first occurrence of one already present. */
  lemma FirstIndexExtend(s: seq<char>, x: char)
    ensures forall c :: c in s ==> c in s + [x] && FirstIndex(s + [x], c) == FirstIndex(s, c)
  {
    forall c | c in s
      ensures c in s + [x] && FirstIndex(s + [x], c) == FirstIndex(s, c)
    {
      var b := FirstIndex(s, c);
      assert (s + [x])[b] == c && (s + [x])[..b] == s[..b];
    }
  }

  /**
   * Growing from `text` hands the next free ids, in order, to the code points
   * of `text` that were unknown (first appearance wins), and leaves every
   * existing entry as it was; nothing else enters the vocabulary.
   */
  lemma {:induction false} GrowSpec(v: Vocab, text: seq<char>)
    ensures Grow(v, text).nextId == v.nextId + |NewChars(v, text)|
    ensures forall tok :: tok in v.vocab ==> tok in Grow(v, text).vocab && Grow(v, text).vocab[tok] == v.vocab[tok]
    ensures forall k :: 0 <= k < |NewChars(v, text)| ==>
              var c := NewChars(v, text)[k];
              [c] in Grow(v, text).vocab && Grow(v, text).vocab[[c]] == v.nextId + k
    ensures forall tok :: tok in Grow(v, text).vocab ==> tok in v.vocab || (|tok| == 1 && tok[0] in NewChars(v, text))
    decreases |text|
  {
    if |text| > 0 {
      var prefix := text[..|text| - 1];
      var c := text[|text| - 1];
      GrowSpec(v, prefix);
      var h := Grow(v, prefix);
      var n := NewChars(v, prefix);
      if [c] in h.vocab {
        assert [c] in v.vocab || c in n by {
          assert [c][0] == c;
        }
        assert NewChars(v, text) == n;
      } else {
        assert [c] !in v.vocab && c !in n;
        assert NewChars(v, text) == n + [c];
        forall tok | tok in Grow(v, text).vocab
          ensures tok in v.vocab || (|tok| == 1 && tok[0] in NewChars(v, text))
        {
        }
      }
    }
  }

  /** buildVocab adds only code points of its text: any other code point is a key afterwards only if it was before. */
  lemma GrowOnlyText(v: Vocab, text: seq<char>, c: char)
    requires c !in text
    ensures [c] in Grow(v, text).vocab <==> [c] in v.vocab
  {
    GrowSpec(v, text);
    assert [c][0] == c;
  }

  /** After growing from `text`, every code point of `text` is in the vocabulary. */
  lemma {:induction false} GrowCovers(v: Vocab, text: seq<char>)
    ensures AllKnown(Grow(v, text), text)
  {
    GrowSpec(v, text);
    var n := NewChars(v, text);
    forall i | 0 <= i < |text|
      ensures [text[i]] in Grow(v, text).vocab
    {
      if [text[i]] !in v.vocab {
        assert text[i] in n;
        var k :| 0 <= k < |n| && n[k] == text[i];
      }
    }
  }

  /** Growing from text whose code points are all known changes nothing. */
  lemma {:induction false} GrowKnown(v: Vocab, text: seq<char>)
    requires AllKnown(v, text)
    ensures Grow(v, text) == v
    decreases |text|
  {
    if |text| > 0 {
      GrowKnown(v, text[..|text| - 1]);
    }
  }

  /** buildVocab over `a + b` leaves the same store as buildVocab over `a` and then over `b`. */
  lemma {:induction false} GrowConcat(v: Vocab, a: seq<char>, b: seq<char>)
    ensures Grow(v, a + b) == Grow(Grow(v, a), b)
    decreases |b|
  {
    if |b| == 0 {
      assert a + b == a;
    } else {
      assert (a + b)[..|a + b| - 1] == a + b[..|b| - 1];
      GrowConcat(v, a, b[..|b| - 1]);
    }
  }

  /** buildVocab is idempotent: a second pass over the same text adds nothing. */
  lemma GrowIdempotent(v: Vocab, text: seq<char>)
    ensures Grow(Grow(v, text), text) == Grow(v, text)
  {
    GrowCovers(v, text);
    GrowKnown(Grow(v, text), text);
  }

  /** Growth keeps the store's invariant and the reserved entries. */
  lemma {:induction false} GrowWellFormed(v: Vocab, text: seq<char>)
    requires WellFormed(v)
    ensures WellFormed(Grow(v, text))
    ensures Reserved(v) ==> Reserved(Grow(v, text))
    decreases |text|
  {
    if |text| > 0 {
      var h := Grow(v, text[..|text| - 1]);
      GrowWellFormed(v, text[..|text| - 1]);
      if [text[|text| - 1]] !in h.vocab {
        InsertWellFormed(h, [text[|text| - 1]]);
      }
    }
  }

  // ---------------------------------------------------------------------------
  // Encode
  // ---------------------------------------------------------------------------

  /**
   * The ids that encode produces for `text` and the store it leaves behind.
   * A known code point yields its id; an unknown one either receives `nextId`
   * (when `addNew`) or yields the id stored for `<UNK>`.
   */
  function EncodeSpec(v: Vocab, text: seq<char>, addNew: bool): (r: (seq<int>, Vocab))
    requires addNew || UNK in v.vocab || AllKnown(v, text)
    ensures |r.0| == |text|
    ensures !addNew ==> r.1 == v
    ensures forall tok :: tok in v.vocab ==> tok in r.1.vocab && r.1.vocab[tok] == v.vocab[tok]
    decreases |text|
  {
    if |text| == 0 then ([], v)
    else
      var prev := EncodeSpec(v, text[..|text| - 1], addNew);
      var ids, w := prev.0, prev.1;
      var c := [text[|text| - 1]];
      if c in w.vocab then (ids + [w.vocab[c]], w)
      else if addNew then (ids + [w.nextId], Insert(w, c))
      else (ids + [w.vocab[UNK]], w)
  }

  /** Encoding with growth leaves exactly the store that buildVocab on the same text would. */
  lemma {:induction false} EncodeGrows(v: Vocab, text: seq<char>)
    ensures EncodeSpec(v, text, true).1 == Grow(v, text)
    decreases |text|
  {
    if |text| > 0 {
      EncodeGrows(v, text[..|text| - 1]);
    }
  }

  /**
   * Position by position: with growth every code point ends up known and its
   * id is the one the final store holds; without growth a known code point
   * yields its id and an unknown one the id of `<UNK>`.
   */
  lemma {:induction false} EncodeAt(v: Vocab, text: seq<char>, addNew: bool)
    requires addNew || UNK in v.vocab || AllKnown(v, text)
    ensures forall i :: 0 <= i < |text| ==>
              var (ids, w) := EncodeSpec(v, text, addNew);
              if addNew then [text[i]] in w.vocab && ids[i] == w.vocab[[text[i]]]
              else if [text[i]] in v.vocab then ids[i] == v.vocab[[text[i]]]
              else ids[i] == v.vocab[UNK]
    decreases |text|
  {
    if |text| > 0 {
      var prefix := text[..|text| - 1];
      EncodeAt(v, prefix, addNew);
      var (ids, w) := EncodeSpec(v, text, addNew);
      var (pids, pw) := EncodeSpec(v, prefix, addNew);
      assert ids[..|prefix|] == pids;
      forall i | 0 <= i < |text|
        ensures if addNew then [text[i]] in w.vocab && ids[i] == w.vocab[[text[i]]]
                else if [text[i]] in v.vocab then ids[i] == v.vocab[[text[i]]]
                else ids[i] == v.vocab[UNK]
      {
        if i < |prefix| {
          assert text[i] == prefix[i];
          assert ids[i] == pids[i];
        }
      }
    }
  }

  /** Without growth, an unknown code point in a store with reserved entries encodes to 1. */
  lemma {:induction false} EncodeUnknownIsUnk(v: Vocab, text: seq<char>, i: int)
    requires Reserved(v) && 0 <= i < |text| && [text[i]] !in v.vocab
    ensures EncodeSpec(v, text, false).0[i] == 1
  {
    EncodeAt(v, text, false);
  }

  /**
   * Encoding with growth, then encoding the same text again without growth
   * against the grown store, yields the same ids.
   */
  lemma EncodeAgain(v: Vocab, text: seq<char>)
    ensures
      var (ids, w) := EncodeSpec(v, text, true);
      AllKnown(w, text) && EncodeSpec(w, text, false).0 == ids
  {
    var (ids, w) := EncodeSpec(v, text, true);
    EncodeAt(v, text, true);
    EncodeAt(w, text, false);
    var again := EncodeSpec(w, text, false).0;
    assert |again| == |ids|;
    forall i | 0 <= i < |text|
      ensures again[i] == ids[i]
    {
      var c := text[i];
      assert [c] in w.vocab && ids[i] == w.vocab[[c]];
      assert again[i] == w.vocab[[c]];
    }
  }

  // ---------------------------------------------------------------------------
  // Decode
  // ---------------------------------------------------------------------------

  /** The text for one id: its token, or the literal `<UNK>` when the id is not in the map. */
  function TokenOf(reverseVocab: map<int, string>, id: int): string
  {
    if id in reverseVocab then reverseVocab[id] else UNK
  }

  /** decode: the tokens of `ids`, in order, joined with nothing between them. */
  function Decode(reverseVocab: map<int, string>, ids: seq<int>): (s: string)
    ensures (forall i :: 0 <= i < |ids| ==> |TokenOf(reverseVocab, ids[i])| == 1) ==>
              |s| == |ids| && forall i :: 0 <= i < |ids| ==> s[i] == TokenOf(reverseVocab, ids[i])[0]
    decreases |ids|
  {
    if |ids| == 0 then "" else TokenOf(reverseVocab, ids[0]) + Decode(reverseVocab, ids[1..])
  }

  /** Decoding distributes over concatenation of id sequences. */
  lemma {:induction false} DecodeAppend(reverseVocab: map<int, string>, a: seq<int>, b: seq<int>)
    ensures Decode(reverseVocab, a + b) == Decode(reverseVocab, a) + Decode(reverseVocab, b)
    decreases |a|
  {
    if |a| > 0 {
      assert (a + b)[1..] == a[1..] + b;
      DecodeAppend(reverseVocab, a[1..], b);
    } else {
      assert a + b == b;
    }
  }

  /** An id missing from the map decodes, at its position, to the literal `<UNK>`; decoding never fails. */
  lemma DecodeUnknownId(reverseVocab: map<int, string>, before: seq<int>, id: int, after: seq<int>)
    requires id !in reverseVocab
    ensures Decode(reverseVocab, before + [id] + after) == Decode(reverseVocab, before) + UNK + Decode(reverseVocab, after)
  {
    DecodeAppend(reverseVocab, before + [id], after);
    DecodeAppend(reverseVocab, before, [id]);
    assert Decode(reverseVocab, [id]) == UNK;
  }

  /**
   * Decoding an encoding made without growth gives back every known code point
   * and the literal `<UNK>` in place of each unknown one.
   */
  lemma {:induction false} DecodeEncode(v: Vocab, text: seq<char>)
    requires Mirrors(v.vocab, v.reverseVocab)
    requires UNK in v.vocab || AllKnown(v, text)
    ensures Decode(v.reverseVocab, EncodeSpec(v, text, false).0) == Masked(v, text)
    decreases |text|
  {
    if |text| > 0 {
      var prefix := text[..|text| - 1];
      var c := text[|text| - 1];
      DecodeEncode(v, prefix);
      var pids := EncodeSpec(v, prefix, false).0;
      var id := if [c] in v.vocab then v.vocab[[c]] else v.vocab[UNK];
      assert EncodeSpec(v, text, false).0 == pids + [id];
      DecodeAppend(v.reverseVocab, pids, [id]);
      assert Decode(v.reverseVocab, [id]) == TokenOf(v.reverseVocab, id);
      assert TokenOf(v.reverseVocab, id) == if [c] in v.vocab then [c] else UNK;
    }
  }

  /** The text as decode(encode(text)) renders it: unknown code points become `<UNK>`. */
  function Masked(v: Vocab, text: seq<char>): string
    decreases |text|
  {
    if |text| == 0 then ""
    else
      var c := text[|text| - 1];
      Masked(v, text[..|text| - 1]) + (if [c] in v.vocab then [c] else UNK)
  }

  /** Round trip: when every code point of `text` is known, decode(encode(text)) == text. */
  lemma {:induction false} RoundTrip(v: Vocab, text: seq<char>)
    requires Mirrors(v.vocab, v.reverseVocab) && AllKnown(v, text)
    ensures Decode(v.reverseVocab, EncodeSpec(v, text, false).0) == text
  {
    DecodeEncode(v, text);
    MaskedKnown(v, text);
  }

  /** With every code point known, masking leaves the text as it is. */
  lemma {:induction false} MaskedKnown(v: Vocab, text: seq<char>)
    requires AllKnown(v, text)
    ensures Masked(v, text) == text
    decreases |text|
  {
    if |text| > 0 {
      MaskedKnown(v, text[..|text| - 1]);
      assert text == text[..|text| - 1] + [text[|text| - 1]];
    }
  }

  // ---------------------------------------------------------------------------
  // Persisted payload and restore
  // ---------------------------------------------------------------------------

  /** The parsed persisted document: both fields may be absent. */
  datatype Payload = Payload(vocab: Option<map<string, int>>, nextId: Option<int>)

  /** The document save writes: the forward map and the counter (reverseVocab is derivable). */
  function Save(v: Vocab): (r: Payload)
    ensures WellFormed(v) ==> Injective(LoadedVocab(r)) && Restore(r) == v
  {
    SaveRestore(v);
    Payload(Some(v.vocab), Some(v.nextId))
  }

  /** The id -> token map of an injective token -> id map. */
  function Invert(m: map<string, int>): (r: map<int, string>)
    requires Injective(m)
    ensures Mirrors(m, r)
  {
    map tok | tok in m :: m[tok] := tok
  }

  /** The loaded `vocab`, empty when the document has none. */
  function LoadedVocab(p: Payload): map<string, int>
  {
    if p.vocab.Some? then p.vocab.value else map[]
  }

  /**
   * The store after load: the loaded map (empty when absent), the stored
   * counter unless it is absent or 0, in which case the entry count, and the
   * inverse map rebuilt from the loaded one.
   */
  function Restore(p: Payload): (v: Vocab)
    requires Injective(LoadedVocab(p))
    ensures v.vocab == LoadedVocab(p) && Mirrors(v.vocab, v.reverseVocab)
    ensures v.nextId == if p.nextId.Some? && p.nextId.value != 0 then p.nextId.value else |v.vocab|
  {
    var vocab := LoadedVocab(p);
    var nextId := if p.nextId.Some? && p.nextId.value != 0 then p.nextId.value else |vocab|;
    Vocab(vocab, Invert(vocab), nextId)
  }

  /** A mirrored map pair never gives two tokens the same id. */
  lemma MirrorsInjective(m: map<string, int>, r: map<int, string>)
    requires Mirrors(m, r)
    ensures Injective(m)
  {
  }

  /** Two inverses of the same map are equal. */
  lemma MirrorsUnique(m: map<string, int>, r1: map<int, string>, r2: map<int, string>)
    requires Mirrors(m, r1) && Mirrors(m, r2)
    ensures r1 == r2
  {
    forall id | id in r1 ensures id in r2 && r2[id] == r1[id] {
      assert m[r1[id]] == id;
    }
    forall id | id in r2 ensures id in r1 {
      assert m[r2[id]] == id;
    }
  }

  /** Restoring what save wrote reproduces the store exactly, reverseVocab included. */
  lemma SaveRestore(v: Vocab)
    ensures WellFormed(v) ==>
              var p := Payload(Some(v.vocab), Some(v.nextId));
              Injective(LoadedVocab(p)) && Restore(p) == v
  {
    if WellFormed(v) {
      MirrorsInjective(v.vocab, v.reverseVocab);
      var w := Restore(Payload(Some(v.vocab), Some(v.nextId)));
      MirrorsUnique(v.vocab, w.reverseVocab, v.reverseVocab);
    }
  }

  /**
   * A loaded document gives a well-formed store when its ids are exactly
   * 0 .. n-1 for its n entries and its counter is absent, 0 or n.
   */
  lemma RestoreWellFormed(p: Payload)
    requires Injective(LoadedVocab(p))
    requires forall tok :: tok in LoadedVocab(p) ==> 0 <= LoadedVocab(p)[tok] < |LoadedVocab(p)|
    requires forall id :: 0 <= id < |LoadedVocab(p)| ==> id in LoadedVocab(p).Values
    requires p.nextId.None? || p.nextId.value in {0, |LoadedVocab(p)|}
    ensures WellFormed(Restore(p))
  {
    var v := Restore(p);
    forall id ensures id in v.reverseVocab <==> 0 <= id < v.nextId {
      if id in v.reverseVocab {
        assert v.vocab[v.reverseVocab[id]] == id;
      }
      if 0 <= id < v.nextId {
        assert id in v.vocab.Values;
        var tok :| tok in v.vocab && v.vocab[tok] == id;
      }
    }
  }
}
