# Stanza core, modelled in Dafny

This project models six small pieces of the Stanza / Stanford CoreNLP Python
tooling and proves properties of them:

- **Framing** (`corenlp_protobuf/__init__.py`). This is how a client reads one
  length-delimited protobuf message out of a CoreNLP server response. It reads a
  base-128 varint length header and then slices the payload that follows it.
  `to_text` rebuilds a sentence's text from its tokens.
- **Nkjp** (`stanza/utils/datasets/ner/convert_nkjp.py`). This is the conversion
  of NKJP named-entity annotations. Entity targets that name other entities are
  resolved recursively down to morphological segments. Entities that overlap an
  earlier one are dropped, and the `morph_` prefix is stripped from targets. Each
  entity then labels its segments with `B-`/`I-` tags, in sentence order. Finally
  the dataset is cut into train/dev/test parts.
- **LemmaTrainer** (`models/lemma/trainer.py`). This is the dictionary
  lemmatizer `DictTrainer`. Training counts (word, pos, lemma) triples. It then
  keeps, for each (word, pos) pair and for each word, the lemma of the most
  frequent triple, with ties going to the triple seen first. Prediction and
  ensembling fall back in this order: pair dictionary, then word dictionary,
  then the word itself or the other model's guess. `postprocess` applies edit
  classes and rejects empty or UNK lemmas.
- **Resources** (`stanfordnlp/utils/resources.py`). `build_default_config`
  builds the default pipeline configuration of a treebank: the processor list,
  the Vietnamese special case, and the model, pretrain and character-LM paths of
  each processor.
- **XposVocab** (`stanza/models/pos/xpos_vocab_factory.py`). This chooses the
  XPOS vocabulary kind and separator for a treebank shorthand, or fails for an
  unknown shorthand.
- **CnnText** (`stanza/models/classifiers/cnn_classifier.py`). This covers the
  text side of the CNN sentiment classifier:
  - `update_text`: tokenisation and digit masking for Google vectors;
  - the vocabulary map;
  - the word-lookup cascade: lowercase, then without dashes, then without a
    trailing apostrophe, then UNK;
  - the random-offset padding of every phrase in a batch to a common width.

Three helper modules model Python built-ins used by the core:
- `Sequences`: slicing with clamping;
- `Sorting`: Python's stable `sorted` with a key, as an insertion sort;
- `Strings`: `split`, `join`, `replace`, `lower` and `in` on strings.

`Wrappers` holds `Option` and `Result`. Python exceptions become `Err` values
of `Result`. Dictionary iteration order becomes an explicit `order` sequence
wherever the order can change the outcome.

Loops in the source are methods with loop invariants. Each one is proved equal
to a specification function, and the lemmas state the properties of those
functions. `DictTrainer` is a class whose two dictionaries are `map` fields.

## Model

| member | source | states |
|---|---|---|
| Framing.DecodeVarintTerminated | corenlp_protobuf/__init__.py:15 | A header whose first k < 10 bytes have the continuation bit set and whose next byte does not decodes to the base-128 value of those bytes, modulo 2^64. The position returned is just past the header. |
| Framing.DecodeVarintTruncated | corenlp_protobuf/__init__.py:15 | A buffer that ends while every remaining byte has the continuation bit set gives a truncation error (Python's IndexError). |
| Framing.DecodeVarintTooLong | corenlp_protobuf/__init__.py:15 | Ten continuation bytes in a row give the "too many bytes" error. |
| Framing.EncodeVarintShape | corenlp_protobuf/__init__.py:15 | The encoding is a run of continuation bytes closed by one byte below 128. |
| Framing.VarintRoundTrip | corenlp_protobuf/__init__.py:15 | Decoding an encoded 64-bit length that is placed after any prefix gives back the length and the position just past it. |
| Framing.ParseFromDelimitedRoundTrip | corenlp_protobuf/__init__.py:7-17 | At offset 0, a delimited encoding of a payload followed by any bytes yields exactly that payload. The bytes consumed are header plus payload. |
| Framing.ParseFromDelimitedShort | corenlp_protobuf/__init__.py:15-17 | When the header claims more bytes than remain, the code returns the shorter slice with no error. The count it reports runs past the end of the buffer. |
| Framing.ParseFromDelimitedOffsetCountsTwice | corenlp_protobuf/__init__.py:15-17 | As written, with a non-zero offset the slice begins at offset + pos, and pos is already absolute. On [9,2,7,8] at offset 1 this gives payload [8] and count 4. |
| Framing.ParseDelimitedAtRoundTrip | corenlp_protobuf/__init__.py:7-17 | The corrected parser returns the payload encoded at any offset, and the length of the delimited encoding. |
| Framing.ParseAtZeroAgrees | corenlp_protobuf/__init__.py:7-17 | At offset 0 the corrected parser and the code as written agree on every buffer. |
| Framing.ToText | corenlp_protobuf/__init__.py:20-30 | The loop builds the sentence text: every word, each one preceded by its `before` spacing except the first. |
| Framing.SentenceTextLength | corenlp_protobuf/__init__.py:25-30 | The text's length is all word lengths plus the `before` lengths of every token but the first. |
| Framing.SentenceTextIgnoresFirstBefore | corenlp_protobuf/__init__.py:27-28 | The first token's `before` never affects the text. An empty sentence gives "". |
| Nkjp.ResolveEntity | stanza/utils/datasets/ner/convert_nkjp.py:92-103 | The loop equals the recursive resolution `Resolve`. A `named_` target is expanded into its entity's resolved targets, and any other target is kept. A missing entity is a KeyError and running out of fuel is a RecursionError. |
| Nkjp.ResolvedHasNoNamed | stanza/utils/datasets/ner/convert_nkjp.py:92-103 | A successful resolution contains no `named_` target. |
| Nkjp.ResolveWithoutNamed | stanza/utils/datasets/ner/convert_nkjp.py:97-102 | Targets with no `named_` entry resolve to themselves. |
| Nkjp.ResolveAppend | stanza/utils/datasets/ner/convert_nkjp.py:97-102 | Resolution distributes over concatenation, and the first error wins. |
| Nkjp.ResolveOne | stanza/utils/datasets/ner/convert_nkjp.py:98-102 | Resolving one target: a plain target is kept, an unknown `named_` key is an error, no fuel is an error, and otherwise the target becomes that entity's resolution. |
| Nkjp.ResolveRankedSucceeds | stanza/utils/datasets/ner/convert_nkjp.py:92-103 | When entity references are ranked acyclically below the fuel and name only known entities, resolution succeeds. |
| Nkjp.ResolveSelfReferenceFails | stanza/utils/datasets/ner/convert_nkjp.py:98-100 | An entity whose targets mention itself never resolves, whatever the fuel. |
| Nkjp.FirstFailureMeaning | stanza/utils/datasets/ner/convert_nkjp.py:87 | The comprehension fails exactly when some entity, in dictionary order, fails to resolve. It reports the error of the first such entity. |
| Nkjp.ResolveEntities | stanza/utils/datasets/ner/convert_nkjp.py:85-89 | The two loops, resolve all and then write back, equal `ResolveAll`. |
| Nkjp.ResolveAllChangesOnlyTargets | stanza/utils/datasets/ner/convert_nkjp.py:85-89 | On success the keys are unchanged, every field but `targets` is unchanged, and each entity's targets are its own resolution. The resolution is computed against the original, unresolved dictionary. |
| Nkjp.ResolveAllRankedSucceeds | stanza/utils/datasets/ner/convert_nkjp.py:85-89 | Acyclic, fully known references make `resolve_entities` succeed. |
| Nkjp.EliminateOverlapping | stanza/utils/datasets/ner/convert_nkjp.py:106-114 | The nested loops equal `Eliminated`: keep the entities whose id was never marked as sharing a target with an earlier entity. |
| Nkjp.EliminatedMembers | stanza/utils/datasets/ner/convert_nkjp.py:109-114 | An entity is kept if and only if it is in the list and no entity carrying its id shares a target with an earlier entity. |
| Nkjp.EliminatedShareNoTarget | stanza/utils/datasets/ner/convert_nkjp.py:106-114 | No two kept entities share a target, in either direction. |
| Nkjp.SharingEntityDropped | stanza/utils/datasets/ner/convert_nkjp.py:111-113 | An entity that shares a target with an earlier one is removed. |
| Nkjp.FirstEntityKept | stanza/utils/datasets/ner/convert_nkjp.py:110-114 | With distinct ids, the first entity always survives. |
| Nkjp.EliminatedSorted | stanza/utils/datasets/ner/convert_nkjp.py:114 | Elimination keeps the order by index. |
| Nkjp.StripMorphMeaning | stanza/utils/datasets/ner/convert_nkjp.py:81 | `t.split("morph_")[1]` is an error exactly when `morph_` does not occur. Otherwise it is the text after the first `morph_`, up to the next one. |
| Nkjp.StripMorphOfReference | stanza/utils/datasets/ner/convert_nkjp.py:81 | `morph_` followed by a text free of `morph_` strips back to that text. |
| Nkjp.StripTargets | stanza/utils/datasets/ner/convert_nkjp.py:81 | The comprehension succeeds if and only if every target strips. The result has the same length, and each element is its target stripped. |
| Nkjp.StripAllMeaning | stanza/utils/datasets/ner/convert_nkjp.py:79-81 | On success every entity keeps its position and all fields but `targets`, and its targets are stripped. |
| Nkjp.ClearEntities | stanza/utils/datasets/ner/convert_nkjp.py:74-82 | `clear_entities` equals `Cleared`: resolve, stable sort by index, eliminate overlaps, strip `morph_`. |
| Nkjp.ClearedSortedByIndex | stanza/utils/datasets/ner/convert_nkjp.py:74-82 | The cleared entities are sorted by index. |
| Nkjp.LabelTokens | stanza/utils/datasets/ner/convert_nkjp.py:155-159 | The tagging loop equals `Tag`. |
| Nkjp.TagLabels | stanza/utils/datasets/ner/convert_nkjp.py:155-159 | The first matching token gets `B-type`, every later one gets `I-type`, and all of them get the entity's subtype. |
| Nkjp.TagUntouched | stanza/utils/datasets/ner/convert_nkjp.py:155-159 | Tokens not matched are unchanged. Matched tokens change only `ner` and `ner_subtype`. |
| Nkjp.LabelEntityMeaning | stanza/utils/datasets/ner/convert_nkjp.py:151-159 | With known, distinct targets, labelling succeeds. The target with the smallest position `i` is `B-`, the other targets are `I-`, and every other token is unchanged. |
| Nkjp.LabelSentence | stanza/utils/datasets/ner/convert_nkjp.py:150-159 | The loop over a sentence's entities equals `Labelled`, and a target missing from the segments is a KeyError. |
| Nkjp.LabelledKeepsPositions | stanza/utils/datasets/ner/convert_nkjp.py:150-159 | Labelling never changes a token's position. |
| Nkjp.UntargetedTokenUnchanged | stanza/utils/datasets/ner/convert_nkjp.py:150-159 | A token that no entity targets keeps its original annotation. |
| Nkjp.TokenLabelledByItsEntity | stanza/utils/datasets/ner/convert_nkjp.py:150-159 | A token targeted by exactly one entity ends with that entity's label: `B-` if it is the earliest target, `I-` otherwise. |
| Nkjp.LaterEntitiesKeepToken | stanza/utils/datasets/ner/convert_nkjp.py:150-159 | Entities that do not target a token leave it as the earlier entities labelled it. The last entity to touch a token wins. |
| Nkjp.AssignEntities | stanza/utils/datasets/ner/convert_nkjp.py:146-159 | With `order` listing every (paragraph, sentence) pair that has entities exactly once, the loops equal `AssignAll`. A sentence missing from the segments becomes a KeyError only when one of its entities has a target to look up. |
| Nkjp.AssignAllSucceeds | stanza/utils/datasets/ner/convert_nkjp.py:146-159 | The pass succeeds if and only if every sentence with entities passes the lookup `par_id_to_segs[par_key][sent_key][target]`: a present sentence has all its entities' targets, and a missing sentence has no entity with a target. |
| Nkjp.MissingSentence | stanza/utils/datasets/ner/convert_nkjp.py:150-154 | A missing sentence whose entity list is empty, or whose only entity has no targets, leaves the segments unchanged. A missing sentence whose entity has a target gives the KeyError. |
| Nkjp.AssignAllSentences | stanza/utils/datasets/ner/convert_nkjp.py:146-160 | On success the paragraph and sentence keys are unchanged, and sentences without entities are unchanged. Every sentence with entities that is present in the segments holds exactly its own entities' labelling of its original tokens. A sentence with entities that is absent has no entity with a target. |
| Nkjp.SplitDatasetMeaning | stanza/utils/datasets/ner/convert_nkjp.py:183-193 | train ++ dev ++ test is the dataset. The parts have the clamped sizes `min(train_size, n)`, `min(dev_size, n - train)` and the rest. |
| LemmaTrainer.FirstSeen | models/lemma/trainer.py:141-142 | The counter's keys are exactly the distinct triples, without repeats. |
| LemmaTrainer.FirstSeenOrder | models/lemma/trainer.py:141-142 | The counter's keys come in the order of their first occurrences in the triples. |
| LemmaTrainer.MostCommonMeaning | models/lemma/trainer.py:144 | `most_common()` lists every distinct triple once, ordered by count descending and then by first appearance. |
| LemmaTrainer.RankMeaning | models/lemma/trainer.py:144 | A triple ranked before another has at least its count, and on a tie it appeared first. |
| LemmaTrainer.FillKeys | models/lemma/trainer.py:144-149 | After the filling loop the dictionary's keys are the old keys plus every key that occurs. |
| LemmaTrainer.FillKeeps | models/lemma/trainer.py:146-149 | Entries already present are never overwritten. |
| LemmaTrainer.MostFrequentWins | models/lemma/trainer.py:144-149 | Every new key maps to the lemma of a most frequent triple with that key, with ties going to the earliest. |
| LemmaTrainer.TrainedKey | models/lemma/trainer.py:144-149 | From empty dictionaries, a key is trained if and only if some triple has it. |
| LemmaTrainer.FillCovers | models/lemma/trainer.py:144-149 | Every trained (word, pos) pair has its word in the word dictionary. |
| LemmaTrainer.DictTrainer.constructor | models/lemma/trainer.py:134-136 | Both dictionaries start empty. |
| LemmaTrainer.DictTrainer.Train | models/lemma/trainer.py:138-150 | Both dictionaries are filled from `most_common()` with first-wins insertion, and existing entries are kept. |
| LemmaTrainer.DictTrainer.Predict | models/lemma/trainer.py:152-163 | One lemma per pair: the pair dictionary, else the word dictionary, else the word itself. |
| LemmaTrainer.DictTrainer.Ensemble | models/lemma/trainer.py:165-177 | Differing lengths are an error. Otherwise the same cascade applies, falling back to the other model's prediction. |
| LemmaTrainer.PredictSeenPair | models/lemma/trainer.py:138-158 | After training, a seen (word, pos) predicts the lemma of its most frequent triple, ties going to the first seen. |
| LemmaTrainer.PredictSeenWord | models/lemma/trainer.py:138-160 | A seen word with an unseen pos predicts the lemma of the word's most frequent triple. |
| LemmaTrainer.PredictUnseenWord | models/lemma/trainer.py:138-162 | An unseen word predicts the fallback. |
| LemmaTrainer.Postprocess | models/lemma/trainer.py:87-106 | It fails exactly on the two assertions: mismatched predictions, and missing or mismatched edits in edit mode. Otherwise each position holds the edited or raw lemma, or the word when that lemma is empty or contains UNK. |
| Resources.JoinWithMwt | stanfordnlp/utils/resources.py:34-35 | The MWT processor string is the comma join of tokenize, mwt, pos, lemma, depparse, ner. |
| Resources.JoinWithoutMwt | stanfordnlp/utils/resources.py:36-37 | Without MWT it is the same list without mwt. |
| Resources.ProcessorsSplit | stanfordnlp/utils/resources.py:42 | Splitting the processor string on commas gives back the processor list, and every name has a file ending. |
| Resources.ProcessorKeysDisjoint | stanfordnlp/utils/resources.py:43-49 | Two distinct processors never write the same configuration key. |
| Resources.EntriesKeys | stanfordnlp/utils/resources.py:42-49 | The loop adds exactly the keys of the listed processors and leaves every other key as it was. |
| Resources.EntriesValues | stanfordnlp/utils/resources.py:43-49 | Every listed processor gets its model path. `pos` and `depparse` also get the pretrain path, and `ner` also gets both character-LM paths. |
| Resources.DefaultConfigMeaning | stanfordnlp/utils/resources.py:32-50 | The full default configuration: the processors string chosen by MWT membership, the Vietnamese entries exactly for `vi_vtb`, the exact key set, and each processor's paths under `<models>/<tb>_models`. |
| Resources.BuildDefaultConfig | stanfordnlp/utils/resources.py:32-50 | The imperative construction equals `DefaultConfig`. |
| XposVocab.XposVocabFactory | stanza/models/pos/xpos_vocab_factory.py:6-22 | A vocabulary keeps the data and shorthand and uses idx 2. An unknown shorthand gives the not-found error. |
| XposVocab.FactoryIsFirstGroup | stanza/models/pos/xpos_vocab_factory.py:6-22 | The result is the vocabulary kind of the first group listing the shorthand, or the error when none does. |
| XposVocab.FactoryGroup | stanza/models/pos/xpos_vocab_factory.py:7-20 | A shorthand in group i and in no earlier group gets group i's kind. |
| XposVocab.FactoryFails | stanza/models/pos/xpos_vocab_factory.py:21-22 | It fails if and only if no group lists the shorthand. |
| CnnText.UpdateText | stanza/models/classifiers/cnn_classifier.py:208-227 | An unknown vector type is the error `Unknown wordvec_type <type>`. Word2Vec gives the tokens. Google gives one token per token, with digits masked as `#` except the tokens "0" and "1". No output token is empty or holds whitespace, `-` or `/`. |
| CnnText.TokensCover | stanza/models/classifiers/cnn_classifier.py:214-216 | The tokens, concatenated, are the normalised line without its whitespace. |
| CnnText.TokensClean | stanza/models/classifiers/cnn_classifier.py:214-216 | Every token is non-empty and free of whitespace, `-` and `/`. |
| CnnText.MaskDigits | stanza/models/classifiers/cnn_classifier.py:223 | `re.sub('[0-9]', '#', w)` keeps the length and replaces exactly the digits. |
| CnnText.UpdateTextAsWritten | stanza/models/classifiers/cnn_classifier.py:219-225 | As written, with `re` never imported, the Google branch fails if and only if some token is neither "0" nor "1". |
| CnnText.AsWrittenGoogleFails | stanza/models/classifiers/cnn_classifier.py:219-225 | The line "7" fails with NameError as written, where the intended result is "#". |
| CnnText.VocabMap | stanza/models/classifiers/cnn_classifier.py:56 | The map's keys are exactly the vocabulary words, and each maps to its last index. |
| CnnText.LookupMeaning | stanza/models/classifiers/cnn_classifier.py:107-131 | The empty word with no empty vocabulary entry is an IndexError. A lowercased word in the vocabulary gets its index. Otherwise the undashed form wins, and after it the undashed form without its trailing `'`, each with its last index. The result is UNK exactly when no spelling in the cascade is known. |
| CnnText.LookupPrefersUndashed | stanza/models/classifiers/cnn_classifier.py:115-131 | With the vocabulary `["ab'", "ab"]`, the word `a-b'` finds `ab'` at index 0 before `ab` is tried. |
| CnnText.PhraseSlots | stanza/models/classifiers/cnn_classifier.py:102-133 | It fails exactly when a word's lookup fails. Otherwise: `begin` pads, then one slot per word, then pads up to the width. |
| CnnText.PadOnlyWhenShort | stanza/models/classifiers/cnn_classifier.py:93-133 | A pad slot appears only when the phrase is shorter than the width, so the pad vector is built whenever it is used. |
| CnnText.MaxLength | stanza/models/classifiers/cnn_classifier.py:89 | The maximum phrase length bounds every phrase and is attained by one. |
| CnnText.PaddedLengthMeaning | stanza/models/classifiers/cnn_classifier.py:89-91 | The width is at least `max_window` and every phrase length, and it equals one of them. |
| CnnText.ForwardInputs | stanza/models/classifiers/cnn_classifier.py:86-133 | An empty batch fails, as `max()` does. Otherwise it fails exactly when some phrase's lookup fails, and each phrase is laid out at its begin offset within the common width. |
| Sorting.SortBySorted | stanza/utils/datasets/ner/convert_nkjp.py:77 | `sorted(key=...)` yields a list ordered by the key. |
| Sorting.SortBySameElements | stanza/utils/datasets/ner/convert_nkjp.py:77 | Sorting keeps the elements and their multiplicities. |
| Sorting.SortByStable | stanza/utils/datasets/ner/convert_nkjp.py:77 | The sort is stable: for every key value, the elements with that key keep their input order. |
| Strings.SplitJoin | stanfordnlp/utils/resources.py:42 | Splitting a join of at least one piece free of the separator gives back the pieces. |
| Strings.JoinSplit | stanfordnlp/utils/resources.py:42 | Joining the pieces of a split gives back the string. |
| Strings.WordsCover | stanza/models/classifiers/cnn_classifier.py:216 | `str.split()` keeps every non-blank character in order. |
| Strings.WordsOfWord | stanza/models/classifiers/cnn_classifier.py:216 | A text without whitespace splits into itself alone, or into nothing when empty. |
| Strings.WordsAtSpace | stanza/models/classifiers/cnn_classifier.py:216 | Any whitespace character separates: the words of `a + [c] + b` are the words of `a` followed by those of `b`. With the previous row, this fixes `split()` on every text as its maximal non-blank runs. |
| Strings.WordsJoin | stanza/models/classifiers/cnn_classifier.py:216 | Splitting non-empty, space-free words joined by single spaces gives the words back. |
| Sequences.SliceConcat | stanza/utils/datasets/ner/convert_nkjp.py:185-187 | Consecutive Python slices join: `s[a:b] + s[b:c] == s[a:c]` for `a <= b <= c`, also when the bounds run past the end. This is what makes the three parts of `split_dataset` add up to the dataset. |

## Left out

- XML parsing, directory walking and file I/O in `convert_nkjp.py` (`parse_xml`, `extract_entities_from_subfolder`, `load_xml_nkjp`) are not modelled. Entities and segments are inputs.
- Nkjp.SplitDatasetMeaning: `random.shuffle` with its fixed seed, and the float fractions, are not modelled. The train and dev sizes are natural-number parameters. `test_section=False` only changes those sizes.
- Nkjp.ResolveEntity: Python's recursion limit is a `fuel` parameter. A cycle of `named_` references therefore gives an explicit recursion error.
- Nkjp: entities and tokens are values in maps. The in-place update of shared dictionaries (`entity["targets"] = ...`, `token["ner"] = ...`) is modelled by returning the new map. Aliasing between entities listed twice is not captured.
- Nkjp: dictionary iteration order is an explicit parameter, because it decides which error is reported first. The key order of `resolve_entities` lists every entity once. The sentence order of `assign_entities` lists every (paragraph, sentence) pair with entities once. Which such order Python uses is not modelled.
- Framing: `_DecodeVarint` lives in protobuf's `google.protobuf.internal.decoder`, outside this repository. It is modelled after protobuf's pure-Python decoder: a 64-bit mask, an error after ten bytes, and IndexError at the end of the buffer.
- Framing: `obj.ParseFromString` is foreign code; the model returns the payload bytes it would be given.
- The CoreNLP server client, the properties handling and the server supervision are not part of this model.
- Framing.ToText: protobuf `Sentence` messages are reduced to a sequence of (word, before) tokens.
- LemmaTrainer: the seq2seq trainer (the model, the optimiser, `update`, `predict` on tensors, `save`, `load`) is neural-network code and is not modelled. `DictTrainer.save` and `load` are file I/O.
- LemmaTrainer.Postprocess: `edit.edit_word` and `constant.UNK` live in other modules of the repository (`models.lemma.edit` and `models.common.seq2seq_constant`). They are parameters. The `edit` argument is a boolean.
- Resources: downloading, JSON resource files and the language tables other than `mwt_languages` and `processor_to_ending` are not modelled. `os.path.join` is modelled as joining with `/`.
- XposVocab: the `XPOSVocab` and `WordVocab` constructors live in `stanza.models.pos.vocab`, which is not modelled. The result records the kind, separator and ignore list. The model does not prove that the treebank groups are disjoint, because the factory's first-match semantics does not depend on it.
- CnnText: embeddings, convolutions, pooling, dropout and the tensors themselves are not modelled. A slot records which vocabulary row (or pad, or UNK) would be used.
- CnnText.ForwardInputs: `random.randint` is a nondeterministic choice of each begin offset within its allowed range. The pad slot stands for the row `vocab_map[vocab[0]]`.
- CnnText: `str.lower()` is modelled on ASCII letters only, and `classifier_args.WVType` is reduced to Word2Vec, Google and any other value.
- CnnText: `label_text`, `load`, `save` and the rest of the classifier's training code are not modelled.

## Findings

| source | as written | input that shows it | evidently intended | confidence | as-written member | corrected member |
|---|---|---|---|---|---|---|
| corenlp_protobuf/__init__.py:15-17 | `_DecodeVarint` returns an absolute position, yet the slice adds the offset to it again and the count is pos + size | buffer [9,2,7,8] at offset 1: the header 2 at index 1 announces [7,8], but the code returns [8] and reports 4 bytes consumed | slice `buf[pos:pos+size]` and return `pos - offset + size` | not executed | Framing.ParseFromDelimitedOffsetCountsTwice | Framing.ParseDelimitedAtRoundTrip |
| stanza/models/classifiers/cnn_classifier.py:223 | the GOOGLE branch calls `re.sub`, but the module never imports `re` | `update_text("7", GOOGLE)` raises NameError | every digit replaced by `#`, giving ["#"] | not executed | CnnText.AsWrittenGoogleFails | CnnText.UpdateText |
