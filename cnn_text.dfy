/**
 * The text handling of the CNN sentence classifier: turning a line into
 * tokens, finding each token's embedding row through a cascade of spellings,
 * and padding every phrase of a batch to one length.
 */
module CnnText {
  import opened Wrappers
  import opened Strings

  /** The kind of pretrained word vectors the classifier uses; `name` is how any other kind prints. */
  datatype WordVecType = Word2Vec | Google | Other(name: string)

  /** The `ValueError` message for a kind of vectors `update_text` does not know. */
  function UnknownTypeMessage(t: WordVecType): string {
    "Unknown wordvec_type " + (if t.Other? then t.name else "")
  }

  /** The tokens of a line: `-` and `/` become spaces, then the line is split at whitespace. */
  function Tokens(sentence: string): seq<string> {
    Words(ReplaceChar(ReplaceChar(sentence, '-', ' '), '/', ' '))
  }

  predicate IsDigit(ch: char) { '0' <= ch <= '9' }

  /** `re.sub('[0-9]', '#', w)`: every ASCII digit becomes `#`. */
  function MaskDigits(w: string): (r: string)
    ensures |r| == |w|
    ensures forall i :: 0 <= i < |w| ==> r[i] == if IsDigit(w[i]) then '#' else w[i]
  {
    if w == [] then [] else [if IsDigit(w[0]) then '#' else w[0]] + MaskDigits(w[1..])
  }

  /** The Google-vector spelling of a token: digits masked, except for the tokens `0` and `1`. */
  function GoogleSpelling(w: string): string {
    if w == "0" || w == "1" then w else MaskDigits(w)
  }

  /** A token as `update_text` promises it: non-empty, with no `-`, `/` or whitespace. */
  predicate CleanToken(t: string) {
    t != [] && '-' !in t && '/' !in t && forall ch :: ch in t ==> !IsSpace(ch)
  }

  /** Every character of a word of `s` is a character of `s`. */
  lemma {:induction false} WordsChars(s: string)
    ensures forall w, ch :: w in Words(s) && ch in w ==> ch in s
    decreases |s|
  {
    if s != [] {
      if IsSpace(s[0]) {
        WordsChars(s[1..]);
        assert forall ch :: ch in s[1..] ==> ch in s;
      } else {
        var k := WordEnd(s, 0);
        WordsChars(s[k..]);
        assert forall ch :: ch in s[k..] ==> ch in s;
        assert forall ch :: ch in s[..k] ==> ch in s;
      }
    }
  }

  /** The tokens of any line are clean. */
  lemma {:induction false} TokensClean(sentence: string)
    ensures forall t :: t in Tokens(sentence) ==> CleanToken(t)
  {
    var s := ReplaceChar(ReplaceChar(sentence, '-', ' '), '/', ' ');
    assert '-' !in s && '/' !in s by {
      var s1 := ReplaceChar(sentence, '-', ' ');
      assert '-' !in s1;
      forall i | 0 <= i < |s| ensures s[i] != '-' && s[i] != '/' {
        assert s1[i] != '-';
      }
    }
    WordsChars(s);
  }

  /** The tokens hold every non-space character of the normalised line, in order, and nothing else. */
  lemma {:induction false} TokensCover(sentence: string)
    ensures Concat(Tokens(sentence)) == NonSpace(ReplaceChar(ReplaceChar(sentence, '-', ' '), '/', ' '))
  {
    WordsCover(ReplaceChar(ReplaceChar(sentence, '-', ' '), '/', ' '));
  }

  /** A token keeps being clean under the Google spelling. */
  lemma {:induction false} GoogleSpellingClean(t: string)
    requires CleanToken(t)
    ensures CleanToken(GoogleSpelling(t))
  {
    var g := GoogleSpelling(t);
    forall ch | ch in g ensures ch != '-' && ch != '/' && !IsSpace(ch) {
      var i :| 0 <= i < |g| && g[i] == ch;
      assert t[i] in t;
    }
  }

  /**
   * `update_text(sentence, wordvec_type)` with the digit masking it evidently
   * intends: the tokens as split for word2vec vectors, the Google spelling of
   * each token for Google vectors, and an error for any other kind.
   */
  method UpdateText(sentence: string, wordVecType: WordVecType) returns (r: Result<seq<string>, string>)
    ensures r.Err? <==> wordVecType.Other?
    ensures wordVecType.Other? ==> r == Err("Unknown wordvec_type " + wordVecType.name)
    ensures wordVecType == Word2Vec ==> r == Ok(Tokens(sentence))
    ensures wordVecType == Google ==> r.Ok? && |r.value| == |Tokens(sentence)|
    ensures wordVecType == Google ==>
      forall i :: 0 <= i < |r.value| ==> r.value[i] == GoogleSpelling(Tokens(sentence)[i])
    ensures r.Ok? ==> forall t :: t in r.value ==> CleanToken(t)
  {
    var s := ReplaceChar(sentence, '-', ' ');
    s := ReplaceChar(s, '/', ' ');
    var words := Words(s);
    TokensClean(sentence);
    if wordVecType == Word2Vec {
      return Ok(words);
    } else if wordVecType == Google {
      var spelled: seq<string> := [];
      for i := 0 to |words|
        invariant |spelled| == i
        invariant forall j :: 0 <= j < i ==> spelled[j] == GoogleSpelling(words[j]) && CleanToken(spelled[j])
      {
        var word := words[i];
        GoogleSpellingClean(word);
        if word != "0" && word != "1" {
          word := MaskDigits(word);
        }
        spelled := spelled + [word];
      }
      return Ok(spelled);
    } else {
      return Err(UnknownTypeMessage(wordVecType));
    }
  }

  /** The error `re.sub` raises as written: the name `re` is never imported. */
  const NameErrorRe := "name 're' is not defined"

  /**
   * `update_text` as written: the Google branch reaches the unimported `re`
   * on the first token other than `0` and `1`.
   */
  function UpdateTextAsWritten(sentence: string, wordVecType: WordVecType): (r: Result<seq<string>, string>)
    ensures wordVecType == Google ==>
      (r.Err? <==> exists t :: t in Tokens(sentence) && t != "0" && t != "1")
    ensures wordVecType.Other? ==> r == Err("Unknown wordvec_type " + wordVecType.name)
  {
    var words := Tokens(sentence);
    match wordVecType
    case Word2Vec => Ok(words)
    case Google =>
      if forall t :: t in words ==> t == "0" || t == "1" then Ok(words) else Err(NameErrorRe)
    case Other(_) => Err(UnknownTypeMessage(wordVecType))
  }

  /** The line `7` with Google vectors fails as written, where the intended spelling is `#`. */
  lemma AsWrittenGoogleFails()
    ensures Tokens("7") == ["7"]
    ensures UpdateTextAsWritten("7", Google) == Err(NameErrorRe)
    ensures GoogleSpelling("7") == "#"
  {
    assert ReplaceChar(ReplaceChar("7", '-', ' '), '/', ' ') == "7";
    assert WordEnd("7", 0) == 1;
    assert "7"[..1] == "7" && "7"[1..] == [];
    assert "7" in Tokens("7");
  }

  /** The last position of `w` in `vocab`. */
  predicate IsLastIndex(vocab: seq<string>, w: string, i: int) {
    0 <= i < |vocab| && vocab[i] == w && forall j :: i < j < |vocab| ==> vocab[j] != w
  }

  /** `{word: i for i, word in enumerate(vocab)}`: each word maps to its last position. */
  function VocabMap(vocab: seq<string>): (m: map<string, int>)
    ensures forall w :: w in m <==> w in vocab
    ensures forall w :: w in m ==> IsLastIndex(vocab, w, m[w])
  {
    if vocab == [] then map[]
    else
      var init := VocabMap(vocab[..|vocab| - 1]);
      assert vocab == vocab[..|vocab| - 1] + [vocab[|vocab| - 1]];
      init[vocab[|vocab| - 1] := |vocab| - 1]
  }

  /** The word with its dashes removed, or the word itself when nothing else is left. */
  function Undashed(w: string): string {
    var nw := RemoveChar(w, '-');
    if |nw| == 0 then w else nw
  }

  /** The index error `new_word[-1]` raises on an empty word. */
  const IndexErrorEmpty := "string index out of range"

  /**
   * The lookup cascade of `forward` for one word: the lowercased word, then
   * its undashed form, then that form without one trailing `'`; None stands
   * for the unknown-word vector.
   */
  function Lookup(vocabMap: map<string, int>, word: string): Result<Option<int>, string> {
    var w := LowerAscii(word);
    if w in vocabMap then Ok(Some(vocabMap[w]))
    else
      var nw := Undashed(w);
      if nw in vocabMap then Ok(Some(vocabMap[nw]))
      else if |nw| == 0 then Err(IndexErrorEmpty)
      else if nw[|nw| - 1] == '\'' && nw[..|nw| - 1] in vocabMap then Ok(Some(vocabMap[nw[..|nw| - 1]]))
      else Ok(None)
  }

  /**
   * The cascade in terms of the vocabulary: the lowercased word wins over
   * its undashed form, which wins over that form without its trailing `'`;
   * an index found is the last position of the first spelling in the
   * vocabulary; the unknown-word vector
   * means no spelling is in it; only the empty word missing from the
   * vocabulary fails.
   */
  lemma {:induction false} LookupMeaning(vocab: seq<string>, word: string)
    ensures var r, w := Lookup(VocabMap(vocab), word), LowerAscii(word);
      && (r.Err? <==> word == [] && [] !in vocab)
      && (w in vocab ==> r == Ok(Some(VocabMap(vocab)[w])) && IsLastIndex(vocab, w, r.value.value))
      && (w !in vocab && Undashed(w) in vocab ==>
            r == Ok(Some(VocabMap(vocab)[Undashed(w)])) && IsLastIndex(vocab, Undashed(w), r.value.value))
      && (w !in vocab && Undashed(w) !in vocab && |Undashed(w)| > 0 && Undashed(w)[|Undashed(w)| - 1] == '\''
            && Undashed(w)[..|Undashed(w)| - 1] in vocab ==>
            r == Ok(Some(VocabMap(vocab)[Undashed(w)[..|Undashed(w)| - 1]]))
            && IsLastIndex(vocab, Undashed(w)[..|Undashed(w)| - 1], r.value.value))
      && (r == Ok(None) <==> (w !in vocab && Undashed(w) !in vocab && |Undashed(w)| > 0
            && !(Undashed(w)[|Undashed(w)| - 1] == '\'' && Undashed(w)[..|Undashed(w)| - 1] in vocab)))
      && (r.Ok? && r.value.Some? ==> (IsLastIndex(vocab, vocab[r.value.value], r.value.value)
            && (vocab[r.value.value] == w || vocab[r.value.value] == Undashed(w)
                || (|Undashed(w)| > 0 && vocab[r.value.value] == Undashed(w)[..|Undashed(w)| - 1]))))
  {
    var w := LowerAscii(word);
    var nw := Undashed(w);
    if |nw| == 0 {
      assert |RemoveChar(w, '-')| != 0 || nw == w;
      assert w == [] && word == [];
    }
  }

  /** The undashed spelling is tried before the one without its trailing `'`. */
  lemma LookupPrefersUndashed()
    ensures Lookup(VocabMap(["ab'", "ab"]), "a-b'") == Ok(Some(0))
  {
    var vocab, w := ["ab'", "ab"], "a-b'";
    assert LowerAscii(w) == w;
    assert w !in vocab by {
      assert vocab[0] != w && vocab[1] != w;
    }
    assert RemoveChar(w, '-') == "ab'" by {
      assert RemoveChar(w[1..], '-') == "b'";
    }
    assert Undashed(w) == vocab[0];
    LookupMeaning(vocab, w);
    assert vocab[1] != vocab[0];
  }

  /** What one position of a padded phrase holds: the pad vector, a vocabulary row, or the unknown-word vector. */
  datatype Slot = Pad | Row(index: int) | Unknown

  /** The slot a lookup yields; a failed lookup never reaches a slot. */
  function SlotOf(r: Result<Option<int>, string>): Slot {
    if r.Ok? && r.value.Some? then Row(r.value.value) else Unknown
  }

  /** Every word of `phrase` passes the lookup cascade without an error. */
  predicate LookupsSucceed(vocabMap: map<string, int>, phrase: seq<string>) {
    forall j :: 0 <= j < |phrase| ==> Lookup(vocabMap, phrase[j]).Ok?
  }

  /** `slots` is `phrase` laid out in `width` positions: `begin` pads, one slot per word, pads to the end. */
  predicate Laid(vocabMap: map<string, int>, phrase: seq<string>, begin: nat, width: nat, slots: seq<Slot>) {
    && begin + |phrase| <= width
    && |slots| == width
    && (forall k :: 0 <= k < begin ==> slots[k] == Pad)
    && (forall k :: begin + |phrase| <= k < width ==> slots[k] == Pad)
    && forall j :: 0 <= j < |phrase| ==> slots[begin + j] == SlotOf(Lookup(vocabMap, phrase[j]))
  }

  /** The vectors of one phrase: `begin` pads, one slot per word, and pads up to `width`. */
  method PhraseSlots(vocabMap: map<string, int>, phrase: seq<string>, begin: nat, width: nat)
    returns (r: Result<seq<Slot>, string>)
    requires begin + |phrase| <= width
    ensures r.Err? <==> !LookupsSucceed(vocabMap, phrase)
    ensures r.Ok? ==> Laid(vocabMap, phrase, begin, width, r.value)
  {
    var slots: seq<Slot> := [];
    for k := 0 to begin
      invariant |slots| == k && forall m :: 0 <= m < k ==> slots[m] == Pad
    {
      slots := slots + [Pad];
    }
    for j := 0 to |phrase|
      invariant |slots| == begin + j && forall m :: 0 <= m < begin ==> slots[m] == Pad
      invariant forall m :: 0 <= m < j ==> Lookup(vocabMap, phrase[m]).Ok?
      invariant forall m :: 0 <= m < j ==> slots[begin + m] == SlotOf(Lookup(vocabMap, phrase[m]))
    {
      var found := Lookup(vocabMap, phrase[j]);
      if found.Err? {
        return Err(found.error);
      }
      slots := slots + [SlotOf(found)];
    }
    for k := begin + |phrase| to width
      invariant |slots| == k && forall m :: 0 <= m < begin ==> slots[m] == Pad
      invariant forall m :: begin + |phrase| <= m < k ==> slots[m] == Pad
      invariant forall m :: 0 <= m < |phrase| ==> slots[begin + m] == SlotOf(Lookup(vocabMap, phrase[m]))
    {
      slots := slots + [Pad];
    }
    r := Ok(slots);
  }

  /**
   * A pad slot only occurs in a phrase shorter than the padded length, so the
   * pad vector is only needed when the padded length exceeds the shortest phrase,
   * the one case in which `forward` defines it.
   */
  lemma PadOnlyWhenShort(vocabMap: map<string, int>, phrase: seq<string>, begin: nat, width: nat, slots: seq<Slot>, k: int)
    requires Laid(vocabMap, phrase, begin, width, slots)
    requires 0 <= k < width && slots[k] == Pad
    ensures |phrase| < width
  {
    var j := k - begin;
    assert 0 <= j < |phrase| ==> slots[k] == SlotOf(Lookup(vocabMap, phrase[j]));
  }

  /** The longest phrase length of a non-empty batch. */
  function MaxLength(inputs: seq<seq<string>>): (n: nat)
    requires |inputs| > 0
    ensures forall i :: 0 <= i < |inputs| ==> |inputs[i]| <= n
    ensures exists i :: 0 <= i < |inputs| && |inputs[i]| == n
  {
    if |inputs| == 1 then |inputs[0]|
    else
      var rest := MaxLength(inputs[1..]);
      assert forall i :: 1 <= i < |inputs| ==> inputs[i] == inputs[1..][i - 1];
      if |inputs[0]| > rest then |inputs[0]| else rest
  }

  /** The length every phrase is padded to: the longest phrase, or the widest filter when that is longer. */
  function PaddedLength(inputs: seq<seq<string>>, maxWindow: int): (n: nat)
    requires |inputs| > 0
  {
    if maxWindow > MaxLength(inputs) then maxWindow else MaxLength(inputs)
  }

  /** The padded length covers every phrase and the widest filter, and is one of them. */
  lemma PaddedLengthMeaning(inputs: seq<seq<string>>, maxWindow: int)
    requires |inputs| > 0
    ensures var n := PaddedLength(inputs, maxWindow);
      && maxWindow <= n && (forall i :: 0 <= i < |inputs| ==> |inputs[i]| <= n)
      && (n == maxWindow || exists i :: 0 <= i < |inputs| && |inputs[i]| == n)
  {
  }

  /**
   * The input-building part of `forward`: every phrase gets a random number
   * of leading pads in range, its word slots, and trailing pads up to the
   * padded length. An empty batch fails, as `max` of nothing does.
   */
  method ForwardInputs(vocabMap: map<string, int>, inputs: seq<seq<string>>, maxWindow: int)
    returns (r: Result<seq<seq<Slot>>, string>, begins: seq<nat>)
    ensures inputs == [] ==> r.Err?
    ensures inputs != [] ==> (r.Err? <==> exists i :: 0 <= i < |inputs| && !LookupsSucceed(vocabMap, inputs[i]))
    ensures r.Ok? ==> |r.value| == |inputs| == |begins|
    ensures r.Ok? ==> forall i :: 0 <= i < |inputs| ==>
      Laid(vocabMap, inputs[i], begins[i], PaddedLength(inputs, maxWindow), r.value[i])
  {
    begins := [];
    if inputs == [] {
      return Err("max() arg is an empty sequence"), begins;
    }
    var width := MaxLength(inputs);
    if maxWindow > width {
      width := maxWindow;
    }
    assert width == PaddedLength(inputs, maxWindow);
    var batch: seq<seq<Slot>> := [];
    for i := 0 to |inputs|
      invariant |batch| == i == |begins|
      invariant forall k :: 0 <= k < i ==> LookupsSucceed(vocabMap, inputs[k])
      invariant forall k :: 0 <= k < i ==> Laid(vocabMap, inputs[k], begins[k], width, batch[k])
    {
      var phrase := inputs[i];
      var begin: nat :| begin <= width - |phrase|;
      var slots := PhraseSlots(vocabMap, phrase, begin, width);
      if slots.Err? {
        return Err(slots.error), begins;
      }
      batch := batch + [slots.value];
      begins := begins + [begin];
    }
    r := Ok(batch);
  }
}
