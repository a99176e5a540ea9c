/**
 * The dictionary lemmatizer and the post-processing of predicted lemmas.
 *
 * `DictTrainer` keeps two dictionaries, (word, POS) to lemma and word to
 * lemma. Training visits the distinct (word, POS, lemma) triples from the
 * most to the least frequent and writes a key only if it is not there yet,
 * so each key keeps the lemma of its most frequent triple. Prediction looks
 * a pair up in the first dictionary, then the second, then falls back.
 */
module LemmaTrainer {
  import opened Wrappers
  import opened Sorting
  import opened Strings

  datatype Triple = Triple(word: string, pos: string, lem: string)

  /** The (word, POS) key of a triple. */
  function PairOf(t: Triple): (string, string) { (t.word, t.pos) }

  /** How often `t` occurs in `ts`, as `Counter` counts it. */
  function Count(ts: seq<Triple>, t: Triple): nat { multiset(ts)[t] }

  /** The position of the first occurrence of `t` in `ts`. */
  function FirstIndex(ts: seq<Triple>, t: Triple): (i: nat)
    requires t in ts
    ensures i < |ts| && ts[i] == t && t !in ts[..i]
  {
    if ts[0] == t then 0
    else
      var i := FirstIndex(ts[1..], t) + 1;
      assert ts[..i] == [ts[0]] + ts[1..][..i - 1];
      i
  }

  /** The distinct triples of `ts` in first-seen order: the key order of the `Counter`. */
  function FirstSeen(ts: seq<Triple>): (r: seq<Triple>)
    ensures forall t :: t in r <==> t in ts
    ensures Distinct(r)
  {
    if ts == [] then []
    else
      var init := FirstSeen(ts[..|ts| - 1]);
      var last := ts[|ts| - 1];
      assert ts == ts[..|ts| - 1] + [last];
      if last in init then init else init + [last]
  }

  /** The first occurrence is the only position holding `t` with no `t` before it. */
  lemma FirstIndexUnique(ts: seq<Triple>, t: Triple, i: nat)
    requires i < |ts| && ts[i] == t && t !in ts[..i]
    ensures FirstIndex(ts, t) == i
  {
  }

  /** The triples of `r` occur in `ts`, in the order of their first occurrences there. */
  ghost predicate FirstOrdered(ts: seq<Triple>, r: seq<Triple>) {
    && (forall k :: 0 <= k < |r| ==> r[k] in ts)
    && (forall i, j :: 0 <= i < j < |r| ==> FirstIndex(ts, r[i]) < FirstIndex(ts, r[j]))
  }

  lemma FirstOrderedRelabel(ts: seq<Triple>, pre: seq<Triple>, r: seq<Triple>)
    requires FirstOrdered(pre, r)
    requires forall k :: 0 <= k < |r| ==> r[k] in ts && FirstIndex(ts, r[k]) == FirstIndex(pre, r[k])
    ensures FirstOrdered(ts, r)
  {
  }

  lemma FirstOrderedSnoc(ts: seq<Triple>, r: seq<Triple>, x: Triple)
    requires FirstOrdered(ts, r) && x in ts
    requires forall k :: 0 <= k < |r| ==> FirstIndex(ts, r[k]) < FirstIndex(ts, x)
    ensures FirstOrdered(ts, r + [x])
  {
    var r' := r + [x];
    assert forall k :: 0 <= k < |r| ==> r'[k] == r[k];
  }

  /** The `Counter` keys come in the order of their first occurrences. */
  lemma {:induction false} FirstSeenOrder(ts: seq<Triple>)
    ensures FirstOrdered(ts, FirstSeen(ts))
  {
    if ts != [] {
      var pre, last := ts[..|ts| - 1], ts[|ts| - 1];
      var init := FirstSeen(pre);
      FirstSeenOrder(pre);
      assert ts == pre + [last];
      forall t | t in pre ensures t in ts && FirstIndex(ts, t) == FirstIndex(pre, t) && FirstIndex(pre, t) < |pre| {
        var i := FirstIndex(pre, t);
        assert ts[..i] == pre[..i];
        FirstIndexUnique(ts, t, i);
      }
      FirstOrderedRelabel(ts, pre, init);
      if last !in init {
        FirstIndexUnique(ts, last, |ts| - 1);
        FirstOrderedSnoc(ts, init, last);
      }
    }
  }

  /**
   * The rank of a triple in `most_common()`: a higher count comes first, and
   * equal counts keep first-seen order (Python's sort is stable). The rank
   * folds both into one integer, distinct for distinct triples.
   */
  function Rank(ts: seq<Triple>): Triple -> int {
    t => if t in ts then -(Count(ts, t) * (|ts| + 1)) + FirstIndex(ts, t) else 0
  }

  /** `ctr.most_common()`: the distinct triples of `ts` ordered by rank. */
  function MostCommon(ts: seq<Triple>): seq<Triple> {
    SortBy(FirstSeen(ts), Rank(ts))
  }

  /** `most_common()` lists exactly the triples of its input. */
  lemma {:induction false} MostCommonMembers(ts: seq<Triple>)
    ensures forall t :: t in MostCommon(ts) <==> t in ts
  {
    SortBySameElements(FirstSeen(ts), Rank(ts));
  }

  /** `most_common()` lists every distinct triple once, from the lowest rank to the highest. */
  lemma {:induction false} MostCommonMeaning(ts: seq<Triple>)
    ensures forall t :: t in MostCommon(ts) <==> t in ts
    ensures Distinct(MostCommon(ts))
    ensures SortedBy(MostCommon(ts), Rank(ts))
  {
    SortBySameElements(FirstSeen(ts), Rank(ts));
    SortBySorted(FirstSeen(ts), Rank(ts));
    SortByKeepsDistinct(FirstSeen(ts), Rank(ts));
  }

  /** The word key of a triple. */
  function WordOf(t: Triple): string { t.word }

  /**
   * A dictionary after visiting `ranked` in order and writing `t.lem` under
   * `key(t)` only when that key is still absent: the body of `train` for
   * either dictionary.
   */
  function Fill<K>(m: map<K, string>, ranked: seq<Triple>, key: Triple -> K): map<K, string> {
    if ranked == [] then m
    else
      var done := Fill(m, ranked[..|ranked| - 1], key);
      var t := ranked[|ranked| - 1];
      if key(t) in done then done else done[key(t) := t.lem]
  }

  /** One more triple writes its key only when it is absent. */
  lemma {:induction false} FillStep<K>(m: map<K, string>, ranked: seq<Triple>, key: Triple -> K, k: nat)
    requires k < |ranked|
    ensures var done, t := Fill(m, ranked[..k], key), ranked[k];
      Fill(m, ranked[..k + 1], key) == if key(t) in done then done else done[key(t) := t.lem]
  {
    assert ranked[..k + 1][..k] == ranked[..k];
  }

  /** Training never overwrites an entry that is already there. */
  lemma {:induction false} FillKeeps<K>(m: map<K, string>, ranked: seq<Triple>, key: Triple -> K)
    ensures forall k :: k in m ==> k in Fill(m, ranked, key) && Fill(m, ranked, key)[k] == m[k]
  {
    if ranked != [] {
      FillKeeps(m, ranked[..|ranked| - 1], key);
    }
  }

  /** The keys after training are the old keys and the keys of the visited triples, no others. */
  lemma {:induction false} FillKeys<K>(m: map<K, string>, ranked: seq<Triple>, key: Triple -> K)
    ensures forall k :: k in Fill(m, ranked, key) <==> k in m || exists i :: 0 <= i < |ranked| && key(ranked[i]) == k
  {
    if ranked != [] {
      var init := ranked[..|ranked| - 1];
      FillKeys(m, init, key);
      forall k ensures k in Fill(m, ranked, key) <==> k in m || exists i :: 0 <= i < |ranked| && key(ranked[i]) == k {
        if exists i :: 0 <= i < |init| && key(init[i]) == k {
          var i :| 0 <= i < |init| && key(init[i]) == k;
          assert key(ranked[i]) == k;
        }
        if exists i :: 0 <= i < |ranked| && key(ranked[i]) == k {
          var i :| 0 <= i < |ranked| && key(ranked[i]) == k;
          if i < |init| {
            assert key(init[i]) == k;
          }
        }
      }
    }
  }

  /** A newly written entry holds the lemma of the first visited triple with that key. */
  lemma {:induction false} FillWinner<K>(m: map<K, string>, ranked: seq<Triple>, key: Triple -> K, k: K) returns (j: nat)
    requires k in Fill(m, ranked, key) && k !in m
    ensures j < |ranked| && key(ranked[j]) == k && Fill(m, ranked, key)[k] == ranked[j].lem
    ensures forall i :: 0 <= i < j ==> key(ranked[i]) != k
  {
    var init := ranked[..|ranked| - 1];
    var done := Fill(m, init, key);
    if k in done {
      j := FillWinner(m, init, key, k);
      assert ranked[j] == init[j];
      forall i | 0 <= i < j ensures key(ranked[i]) != k {
        assert ranked[i] == init[i];
      }
    } else {
      j := |ranked| - 1;
      FillKeys(m, init, key);
      forall i | 0 <= i < j ensures key(ranked[i]) != k {
        assert ranked[i] == init[i];
      }
    }
  }

  /** Between two larger multiples of `n` there is a gap of at least `n`. */
  lemma {:induction false} MultipleGap(c1: int, c2: int, n: nat)
    requires c1 < c2
    ensures c2 * n - c1 * n >= n
    decreases c2 - c1
  {
    if c1 + 1 < c2 {
      MultipleGap(c1 + 1, c2, n);
      assert (c1 + 1) * n == c1 * n + n;
    } else {
      assert c2 * n == c1 * n + n;
    }
  }

  /** Comparing ranks compares counts first and first positions on a tie. */
  lemma {:induction false} RankOrder(c1: int, c2: int, f1: int, f2: int, n: int)
    requires 0 <= f1 < n && 0 <= f2 < n
    requires -(c1 * n) + f1 <= -(c2 * n) + f2
    ensures c2 <= c1 && (c1 == c2 ==> f1 <= f2)
  {
    if c1 < c2 {
      MultipleGap(c1, c2, n);
    }
  }

  /** A triple ranked no later than another is at least as frequent, and seen first on a tie. */
  lemma {:induction false} RankMeaning(ts: seq<Triple>, t: Triple, u: Triple)
    requires t in ts && u in ts
    requires Rank(ts)(t) <= Rank(ts)(u)
    ensures Count(ts, u) <= Count(ts, t) && (Count(ts, u) == Count(ts, t) ==> FirstIndex(ts, t) <= FirstIndex(ts, u))
  {
    RankOrder(Count(ts, t), Count(ts, u), FirstIndex(ts, t), FirstIndex(ts, u), |ts| + 1);
  }

  /**
   * The key of every entry training writes gets the lemma of the most
   * frequent triple with that key; among equally frequent ones, the one
   * seen first.
   */
  lemma {:induction false} MostFrequentWins<K>(ts: seq<Triple>, m: map<K, string>, key: Triple -> K, k: K) returns (t: Triple)
    requires k in Fill(m, MostCommon(ts), key) && k !in m
    ensures t in ts && key(t) == k && Fill(m, MostCommon(ts), key)[k] == t.lem
    ensures forall u :: u in ts && key(u) == k ==>
      Count(ts, u) <= Count(ts, t) && (Count(ts, u) == Count(ts, t) ==> FirstIndex(ts, t) <= FirstIndex(ts, u))
  {
    var ranked := MostCommon(ts);
    MostCommonMeaning(ts);
    var j := FillWinner(m, ranked, key, k);
    t := ranked[j];
    forall u | u in ts && key(u) == k
      ensures Count(ts, u) <= Count(ts, t) && (Count(ts, u) == Count(ts, t) ==> FirstIndex(ts, t) <= FirstIndex(ts, u))
    {
      if u != t {
        var i :| 0 <= i < |ranked| && ranked[i] == u;
        assert j < i;
        RankMeaning(ts, t, u);
      }
    }
  }

  /** The (word, POS) dictionary `train` builds. */
  function FillModel(m: map<(string, string), string>, ranked: seq<Triple>): map<(string, string), string> {
    Fill(m, ranked, PairOf)
  }

  /** The word dictionary `train` builds. */
  function FillWords(m: map<string, string>, ranked: seq<Triple>): map<string, string> {
    Fill(m, ranked, WordOf)
  }

  /** Filling both dictionaries from the same triples keeps every (word, POS) key's word a word key. */
  lemma {:induction false} FillCovers(m: map<(string, string), string>, wm: map<string, string>, ranked: seq<Triple>)
    requires forall k :: k in m ==> k.0 in wm
    ensures forall k :: k in FillModel(m, ranked) ==> k.0 in FillWords(wm, ranked)
  {
    if ranked != [] {
      FillCovers(m, wm, ranked[..|ranked| - 1]);
    }
  }

  /** The lookup of `predict` and `ensemble`: the (word, POS) entry, else the word entry, else `fallback`. */
  function Choose(model: map<(string, string), string>, wordModel: map<string, string>,
                  w: string, pos: string, fallback: string): string
  {
    if (w, pos) in model then model[(w, pos)]
    else if w in wordModel then wordModel[w]
    else fallback
  }

  /** A trained key is present exactly when some training triple has it. */
  lemma {:induction false} TrainedKey<K>(ts: seq<Triple>, key: Triple -> K, k: K)
    ensures k in Fill(map[], MostCommon(ts), key) <==> exists t :: t in ts && key(t) == k
  {
    var ranked := MostCommon(ts);
    MostCommonMembers(ts);
    FillKeys(map[], ranked, key);
    if exists t :: t in ts && key(t) == k {
      var t :| t in ts && key(t) == k;
      var i :| 0 <= i < |ranked| && ranked[i] == t;
      assert key(ranked[i]) == k;
    }
    if k in Fill(map[], ranked, key) {
      var i :| 0 <= i < |ranked| && key(ranked[i]) == k;
      assert ranked[i] in ts;
    }
  }

  /** After training on `ts` from empty dictionaries, a seen (word, POS) pair gets its most frequent lemma. */
  lemma {:induction false} PredictSeenPair(ts: seq<Triple>, w: string, pos: string, fallback: string) returns (t: Triple)
    requires exists u :: u in ts && PairOf(u) == (w, pos)
    ensures t in ts && PairOf(t) == (w, pos)
    ensures Choose(FillModel(map[], MostCommon(ts)), FillWords(map[], MostCommon(ts)), w, pos, fallback) == t.lem
    ensures forall u :: u in ts && PairOf(u) == (w, pos) ==>
      Count(ts, u) <= Count(ts, t) && (Count(ts, u) == Count(ts, t) ==> FirstIndex(ts, t) <= FirstIndex(ts, u))
  {
    TrainedKey(ts, PairOf, (w, pos));
    t := MostFrequentWins(ts, map[], PairOf, (w, pos));
  }

  /**
   * After training on `ts` from empty dictionaries, a word seen only with
   * other tags gets its most frequent lemma over all its tags.
   */
  lemma {:induction false} PredictSeenWord(ts: seq<Triple>, w: string, pos: string, fallback: string) returns (t: Triple)
    requires forall u :: u in ts ==> PairOf(u) != (w, pos)
    requires exists u :: u in ts && WordOf(u) == w
    ensures t in ts && t.word == w
    ensures Choose(FillModel(map[], MostCommon(ts)), FillWords(map[], MostCommon(ts)), w, pos, fallback) == t.lem
    ensures forall u :: u in ts && u.word == w ==>
      Count(ts, u) <= Count(ts, t) && (Count(ts, u) == Count(ts, t) ==> FirstIndex(ts, t) <= FirstIndex(ts, u))
  {
    TrainedKey(ts, PairOf, (w, pos));
    TrainedKey(ts, WordOf, w);
    t := MostFrequentWins(ts, map[], WordOf, w);
  }

  /** After training on `ts` from empty dictionaries, an unseen word falls back. */
  lemma {:induction false} PredictUnseenWord(ts: seq<Triple>, w: string, pos: string, fallback: string)
    requires forall u :: u in ts ==> u.word != w
    ensures Choose(FillModel(map[], MostCommon(ts)), FillWords(map[], MostCommon(ts)), w, pos, fallback) == fallback
  {
    TrainedKey(ts, PairOf, (w, pos));
    TrainedKey(ts, WordOf, w);
  }

  /** `DictTrainer`: the two dictionaries of the dictionary lemmatizer. */
  class DictTrainer {
    var model: map<(string, string), string>
    var wordModel: map<string, string>

    /** Every word of a (word, POS) key has a word entry. */
    ghost predicate Valid()
      reads this
    {
      forall k :: k in model ==> k.0 in wordModel
    }

    constructor()
      ensures model == map[] && wordModel == map[]
      ensures Valid()
    {
      model := map[];
      wordModel := map[];
    }

    /** `train(triples)`: visits `most_common()` and writes each key the first time it is met. */
    method Train(triples: seq<Triple>)
      requires Valid()
      modifies this
      ensures model == FillModel(old(model), MostCommon(triples))
      ensures wordModel == FillWords(old(wordModel), MostCommon(triples))
      ensures Valid()
    {
      var ranked := MostCommon(triples);
      var m0, w0 := model, wordModel;
      var m, wm := m0, w0;
      for k := 0 to |ranked|
        invariant m == FillModel(m0, ranked[..k])
        invariant wm == FillWords(w0, ranked[..k])
      {
        var t := ranked[k];
        FillStep(m0, ranked, PairOf, k);
        FillStep(w0, ranked, WordOf, k);
        if (t.word, t.pos) !in m {
          m := m[(t.word, t.pos) := t.lem];
        }
        if t.word !in wm {
          wm := wm[t.word := t.lem];
        }
      }
      assert ranked[..|ranked|] == ranked;
      FillCovers(m0, w0, ranked);
      model, wordModel := m, wm;
    }

    /** `predict(pairs)`: one lemma per pair, by (word, POS) entry, then word entry, then the word itself. */
    method Predict(pairs: seq<(string, string)>) returns (lemmas: seq<string>)
      ensures |lemmas| == |pairs|
      ensures forall i :: 0 <= i < |pairs| ==>
        lemmas[i] == Choose(model, wordModel, pairs[i].0, pairs[i].1, pairs[i].0)
    {
      lemmas := [];
      for i := 0 to |pairs|
        invariant |lemmas| == i
        invariant forall j :: 0 <= j < i ==> lemmas[j] == Choose(model, wordModel, pairs[j].0, pairs[j].1, pairs[j].0)
      {
        var (w, pos) := pairs[i];
        if (w, pos) in model {
          lemmas := lemmas + [model[(w, pos)]];
        } else if w in wordModel {
          lemmas := lemmas + [wordModel[w]];
        } else {
          lemmas := lemmas + [w];
        }
      }
    }

    /**
     * `ensemble(pairs, other_preds)`: like `predict`, but falling back to the
     * other model's prediction; unequal lengths fail the assertion.
     */
    method Ensemble(pairs: seq<(string, string)>, otherPreds: seq<string>) returns (r: Result<seq<string>, string>)
      ensures r.Err? <==> |pairs| != |otherPreds|
      ensures r.Ok? ==> |r.value| == |pairs| && forall i :: 0 <= i < |pairs| ==>
        r.value[i] == Choose(model, wordModel, pairs[i].0, pairs[i].1, otherPreds[i])
    {
      if |pairs| != |otherPreds| {
        return Err("pairs and other predictions differ in length");
      }
      var lemmas := [];
      for i := 0 to |pairs|
        invariant |lemmas| == i
        invariant forall j :: 0 <= j < i ==> lemmas[j] == Choose(model, wordModel, pairs[j].0, pairs[j].1, otherPreds[j])
      {
        var (w, pos) := pairs[i];
        if (w, pos) in model {
          lemmas := lemmas + [model[(w, pos)]];
        } else if w in wordModel {
          lemmas := lemmas + [wordModel[w]];
        } else {
          lemmas := lemmas + [otherPreds[i]];
        }
      }
      r := Ok(lemmas);
    }
  }

  /** A lemma `postprocess` rejects: empty, or holding the unknown-word marker. */
  predicate Invalid(lem: string, unk: string) {
    |lem| == 0 || Contains(lem, unk)
  }

  /** The lemma candidate of position `i`: the edited prediction in edit mode, else the prediction. */
  function Candidate(words: seq<string>, preds: seq<string>, edits: seq<int>, editMode: bool,
                     editWord: (string, string, int) -> string, i: nat): string
    requires i < |words| == |preds| && (editMode ==> i < |edits|)
  {
    if editMode then editWord(words[i], preds[i], edits[i]) else preds[i]
  }

  /**
   * `postprocess(words, preds, edits)`: in edit mode every prediction is
   * first rewritten by `editWord` with its edit class; an invalid lemma then
   * falls back to the word. A length mismatch, or edit mode without matching
   * edits, fails an assertion.
   */
  method Postprocess(words: seq<string>, preds: seq<string>, edits: Option<seq<int>>, editMode: bool,
                     editWord: (string, string, int) -> string, unk: string)
    returns (r: Result<seq<string>, string>)
    ensures r.Err? <==> |words| != |preds| || (editMode && (edits.None? || |edits.value| != |words|))
    ensures r.Ok? ==> |r.value| == |words|
    ensures r.Ok? ==> forall i :: 0 <= i < |words| ==>
      var lem := Candidate(words, preds, if edits.Some? then edits.value else [], editMode, editWord, i);
      (Invalid(lem, unk) ==> r.value[i] == words[i]) && (!Invalid(lem, unk) ==> r.value[i] == lem)
  {
    if |words| != |preds| {
      return Err("lemma predictions must have the same length as words");
    }
    var es := if edits.Some? then edits.value else [];
    var edited: seq<string> := [];
    if editMode {
      if edits.None? || |es| != |words| {
        return Err("edit mode needs one edit per word");
      }
      for i := 0 to |words|
        invariant |edited| == i
        invariant forall j :: 0 <= j < i ==> edited[j] == Candidate(words, preds, es, editMode, editWord, j)
      {
        edited := edited + [editWord(words[i], preds[i], es[i])];
      }
    } else {
      edited := preds;
    }
    var final: seq<string> := [];
    for i := 0 to |words|
      invariant |final| == i
      invariant forall j :: 0 <= j < i ==>
        final[j] == if Invalid(edited[j], unk) then words[j] else edited[j]
    {
      if |edited[i]| == 0 || Contains(edited[i], unk) {
        final := final + [words[i]];
      } else {
        final := final + [edited[i]];
      }
    }
    r := Ok(final);
  }
}
