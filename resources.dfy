/**
 * The default pipeline configuration: for a treebank and a models directory,
 * the processor list and, per processor, the paths of the files it loads.
 */
module Resources {
  import opened Strings

  /** The values a configuration holds: a string, a boolean or an integer. */
  datatype ConfigValue = Str(s: string) | Flag(b: bool) | Int(n: int)

  type Config = map<string, ConfigValue>

  /** The treebanks whose pipelines expand multi-word tokens. */
  const MwtLanguages: seq<string> := [
    "ar_padt", "ca_ancora", "cs_cac", "cs_fictree", "cs_pdt", "de_gsd", "el_gdt", "es_ancora",
    "fa_seraji", "fi_ftb", "fr_gsd", "fr_sequoia", "gl_ctg", "gl_treegal", "he_htb", "hy_armtdp",
    "it_isdt", "it_postwita", "kk_ktb", "pl_sz", "pt_bosque", "tr_imst"]

  /** The file ending of each processor's model. */
  const ProcessorToEnding: map<string, string> := map[
    "tokenize" := "tokenizer", "mwt" := "mwt_expander", "pos" := "tagger",
    "lemma" := "lemmatizer", "depparse" := "parser", "ner" := "nertagger"]

  /** The processors that load pretrained word vectors, and the one that loads character language models. */
  const PretrainProcessors: seq<string> := ["pos", "depparse"]
  const CharlmProcessors: seq<string> := ["ner"]

  const ModelSuffix := "_model_path"
  const PretrainSuffix := "_pretrain_path"
  const ForwardSuffix := "_charlm_forward_file"
  const BackwardSuffix := "_charlm_backward_file"

  /** POSIX `os.path.join(a, b)`: an absolute `b` replaces `a`, otherwise one `/` separates them. */
  function PathJoin(a: string, b: string): string {
    if |b| > 0 && b[0] == '/' then b
    else if |a| == 0 || a[|a| - 1] == '/' then a + b
    else a + "/" + b
  }

  /** The processor list, as the comma-separated string the configuration stores. */
  function ProcessorsFor(mwt: bool): string {
    if mwt then "tokenize,mwt,pos,lemma,depparse,ner" else "tokenize,pos,lemma,depparse,ner"
  }

  /** The processor list, with the multi-word token expander when `mwt` holds. */
  function ProcessorNames(mwt: bool): seq<string> {
    if mwt then ["tokenize", "mwt", "pos", "lemma", "depparse", "ner"]
    else ["tokenize", "pos", "lemma", "depparse", "ner"]
  }

  /** Joining one more name in front of a list whose join is `tail`. */
  lemma {:induction false} JoinStep(a: string, rest: seq<string>, tail: string, whole: string)
    requires |rest| >= 1 && Join(rest, ',') == tail && whole == a + [','] + tail
    ensures Join([a] + rest, ',') == whole
  {
    assert ([a] + rest)[1..] == rest;
  }

  /** The comma join of the names after `mwt`, built one name at a time from the end. */
  lemma JoinPos() ensures Join(["pos", "lemma", "depparse", "ner"], ',') == "pos,lemma,depparse,ner" {
    assert "depparse" + [','] + "ner" == "depparse,ner";
    JoinStep("depparse", ["ner"], "ner", "depparse,ner");
    assert "lemma" + [','] + "depparse,ner" == "lemma,depparse,ner";
    JoinStep("lemma", ["depparse", "ner"], "depparse,ner", "lemma,depparse,ner");
    assert "pos" + [','] + "lemma,depparse,ner" == "pos,lemma,depparse,ner";
    JoinStep("pos", ["lemma", "depparse", "ner"], "lemma,depparse,ner", "pos,lemma,depparse,ner");
  }

  lemma JoinMwt() ensures Join(["mwt", "pos", "lemma", "depparse", "ner"], ',') == "mwt,pos,lemma,depparse,ner" {
    JoinPos();
    assert "mwt" + [','] + "pos,lemma,depparse,ner" == "mwt,pos,lemma,depparse,ner";
    JoinStep("mwt", ["pos", "lemma", "depparse", "ner"], "pos,lemma,depparse,ner", "mwt,pos,lemma,depparse,ner");
  }

  /** The processor names of an MWT treebank join to the `processors` string of the MWT branch. */
  lemma JoinWithMwt()
    ensures Join(ProcessorNames(true), ',') == ProcessorsFor(true)
  {
    JoinMwt();
    assert "tokenize" + [','] + "mwt,pos,lemma,depparse,ner" == ProcessorsFor(true);
    JoinStep("tokenize", ["mwt", "pos", "lemma", "depparse", "ner"], "mwt,pos,lemma,depparse,ner", ProcessorsFor(true));
  }

  /** The processor names of any other treebank join to the `processors` string of the other branch. */
  lemma JoinWithoutMwt()
    ensures Join(ProcessorNames(false), ',') == ProcessorsFor(false)
  {
    JoinPos();
    assert "tokenize" + [','] + "pos,lemma,depparse,ner" == ProcessorsFor(false);
    JoinStep("tokenize", ["pos", "lemma", "depparse", "ner"], "pos,lemma,depparse,ner", ProcessorsFor(false));
  }

  /** Splitting the stored string at commas gives the list, and each listed processor has a file ending. */
  lemma {:induction false} ProcessorsSplit(mwt: bool)
    ensures SplitChar(ProcessorsFor(mwt), ',') == ProcessorNames(mwt)
    ensures forall p :: p in ProcessorNames(mwt) ==> p in ProcessorToEnding
  {
    if mwt { JoinWithMwt(); } else { JoinWithoutMwt(); }
    NamesWithoutComma(mwt);
    SplitJoin(ProcessorNames(mwt), ',');
    NamesHaveEndings(mwt);
  }

  lemma NamesWithoutComma(mwt: bool)
    ensures forall p :: p in ProcessorNames(mwt) ==> ',' !in p
  {
  }

  lemma NamesHaveEndings(mwt: bool)
    ensures forall p :: p in ProcessorNames(mwt) ==> p in ProcessorToEnding
  {
  }

  /** The directory of a treebank's models. */
  function TreebankDir(tb: string, modelsPath: string): string {
    PathJoin(modelsPath, tb + "_models")
  }

  function ModelPath(tb: string, dir: string, p: string): string
    requires p in ProcessorToEnding
  {
    PathJoin(dir, tb + "_" + (ProcessorToEnding[p] + ".pt"))
  }

  function PretrainPath(tb: string, dir: string): string { PathJoin(dir, tb + ".pretrain.pt") }
  function ForwardPath(tb: string, dir: string): string { PathJoin(dir, tb + "_forward_charlm.pt") }
  function BackwardPath(tb: string, dir: string): string { PathJoin(dir, tb + "_backward_charlm.pt") }

  /** The entries the loop body writes for processor `p`. */
  function AddProcessor(config: Config, tb: string, dir: string, p: string): Config
    requires p in ProcessorToEnding
  {
    var withModel := config[p + ModelSuffix := Str(ModelPath(tb, dir, p))];
    var withPretrain := if p in PretrainProcessors then withModel[p + PretrainSuffix := Str(PretrainPath(tb, dir))] else withModel;
    if p in CharlmProcessors then
      withPretrain[p + ForwardSuffix := Str(ForwardPath(tb, dir))][p + BackwardSuffix := Str(BackwardPath(tb, dir))]
    else withPretrain
  }

  /** The configuration after the loop has visited `ps` in order. */
  function Entries(config: Config, tb: string, dir: string, ps: seq<string>): Config
    requires forall p :: p in ps ==> p in ProcessorToEnding
  {
    if ps == [] then config
    else AddProcessor(Entries(config, tb, dir, ps[..|ps| - 1]), tb, dir, ps[|ps| - 1])
  }

  /** `k` is one of the keys the loop writes for processor `p`. */
  predicate WrittenFor(p: string, k: string) {
    k == p + ModelSuffix
    || (p in PretrainProcessors && k == p + PretrainSuffix)
    || (p in CharlmProcessors && (k == p + ForwardSuffix || k == p + BackwardSuffix))
  }

  /** `k` is a key the loop writes for one of the processors `ps`. */
  predicate LoopKey(ps: seq<string>, k: string) {
    exists p :: p in ps && WrittenFor(p, k)
  }

  /** The character `i` places from the end of `p + s` is that of `s`. */
  lemma Ending(p: string, s: string, i: nat)
    requires i < |s|
    ensures i < |p + s| && (p + s)[|p + s| - 1 - i] == s[|s| - 1 - i]
  {
  }

  /** The same suffix after two different strings gives two different strings. */
  lemma {:induction false} SameSuffix(x: string, y: string, s: string)
    requires x != y
    ensures x + s != y + s
  {
    assert (x + s)[..|x|] == x;
    assert (y + s)[..|y|] == y;
  }

  /** Keys of different suffix families never meet, whatever the processor names. */
  lemma {:induction false} SuffixFamiliesDiffer(p: string, q: string)
    ensures p + ModelSuffix != q + PretrainSuffix && p + ModelSuffix != q + ForwardSuffix
    ensures p + ModelSuffix != q + BackwardSuffix && p + PretrainSuffix != q + ForwardSuffix
    ensures p + PretrainSuffix != q + BackwardSuffix && p + ForwardSuffix != q + BackwardSuffix
  {
    Ending(p, ModelSuffix, 5);
    Ending(q, PretrainSuffix, 5);
    Ending(p, ModelSuffix, 0);
    Ending(p, PretrainSuffix, 0);
    Ending(q, ForwardSuffix, 0);
    Ending(q, BackwardSuffix, 0);
    Ending(p, ForwardSuffix, 9);
    Ending(q, BackwardSuffix, 9);
  }

  /** The keys written for one processor. */
  lemma {:induction false} AddProcessorKeys(config: Config, tb: string, dir: string, p: string)
    requires p in ProcessorToEnding
    ensures forall k :: k in AddProcessor(config, tb, dir, p) <==> k in config || WrittenFor(p, k)
    ensures forall k :: k in config && !WrittenFor(p, k) ==> AddProcessor(config, tb, dir, p)[k] == config[k]
  {
  }

  /** The loop adds exactly its own keys, and leaves the other entries alone. */
  lemma {:induction false} EntriesKeys(config: Config, tb: string, dir: string, ps: seq<string>)
    requires forall p :: p in ps ==> p in ProcessorToEnding
    ensures forall k :: k in Entries(config, tb, dir, ps) <==> k in config || LoopKey(ps, k)
    ensures forall k :: k in config && !LoopKey(ps, k) ==> Entries(config, tb, dir, ps)[k] == config[k]
  {
    if ps != [] {
      var init, last := ps[..|ps| - 1], ps[|ps| - 1];
      assert forall p :: p in init ==> p in ps;
      EntriesKeys(config, tb, dir, init);
      AddProcessorKeys(Entries(config, tb, dir, init), tb, dir, last);
      assert ps == init + [last];
      forall k ensures LoopKey(ps, k) <==> LoopKey(init, k) || WrittenFor(last, k) {
        if LoopKey(ps, k) {
          var p :| p in ps && WrittenFor(p, k);
          if p != last {
            assert p in init;
          }
        }
      }
    }
  }

  /** Two different processors never write the same key. */
  lemma {:induction false} ProcessorKeysDisjoint(p: string, q: string)
    requires p != q
    ensures forall k :: WrittenFor(p, k) ==> !WrittenFor(q, k)
  {
    SameSuffix(p, q, ModelSuffix);
    SameSuffix(p, q, PretrainSuffix);
    SameSuffix(p, q, ForwardSuffix);
    SameSuffix(p, q, BackwardSuffix);
    SuffixFamiliesDiffer(p, q);
    SuffixFamiliesDiffer(q, p);
  }

  /** The paths one processor's entries hold. */
  predicate HoldsPaths(e: Config, tb: string, dir: string, p: string)
    requires p in ProcessorToEnding
  {
    && p + ModelSuffix in e && e[p + ModelSuffix] == Str(ModelPath(tb, dir, p))
    && (p in PretrainProcessors ==> p + PretrainSuffix in e && e[p + PretrainSuffix] == Str(PretrainPath(tb, dir)))
    && (p in CharlmProcessors ==>
          && p + ForwardSuffix in e && e[p + ForwardSuffix] == Str(ForwardPath(tb, dir))
          && p + BackwardSuffix in e && e[p + BackwardSuffix] == Str(BackwardPath(tb, dir)))
  }

  /** The loop body leaves its processor's entries holding its paths. */
  lemma {:induction false} AddProcessorHolds(config: Config, tb: string, dir: string, p: string)
    requires p in ProcessorToEnding
    ensures HoldsPaths(AddProcessor(config, tb, dir, p), tb, dir, p)
  {
    SuffixFamiliesDiffer(p, p);
  }

  /** After the loop, every visited processor's entries hold its paths. */
  lemma {:induction false} EntriesValues(config: Config, tb: string, dir: string, ps: seq<string>, p: string)
    requires forall q :: q in ps ==> q in ProcessorToEnding
    requires p in ps
    ensures HoldsPaths(Entries(config, tb, dir, ps), tb, dir, p)
  {
    var init, last := ps[..|ps| - 1], ps[|ps| - 1];
    assert forall q :: q in init ==> q in ps;
    if p == last {
      AddProcessorHolds(Entries(config, tb, dir, init), tb, dir, p);
    } else {
      assert ps == init + [last];
      assert p in init;
      EntriesValues(config, tb, dir, init, p);
      ProcessorKeysDisjoint(p, last);
      AddProcessorKeys(Entries(config, tb, dir, init), tb, dir, last);
      assert WrittenFor(p, p + ModelSuffix);
      assert p in PretrainProcessors ==> WrittenFor(p, p + PretrainSuffix);
      assert p in CharlmProcessors ==> WrittenFor(p, p + ForwardSuffix) && WrittenFor(p, p + BackwardSuffix);
    }
  }

  /** The entries written before the loop: the processor list, and the Vietnamese lemmatizer settings. */
  function Base(processors: string, vi: bool): Config {
    var withList := map["processors" := Str(processors)];
    if vi then withList["lemma_use_identity" := Flag(true)]["lemma_batch_size" := Int(5000)]
    else withList
  }

  /** The keys written before the loop never have the shape of a loop key. */
  lemma {:induction false} BaseKeysNotLoopKeys(ps: seq<string>)
    ensures !LoopKey(ps, "processors") && !LoopKey(ps, "lemma_use_identity") && !LoopKey(ps, "lemma_batch_size")
  {
    forall p: string
      ensures !WrittenFor(p, "processors") && !WrittenFor(p, "lemma_use_identity") && !WrittenFor(p, "lemma_batch_size")
    {
      Ending(p, ModelSuffix, 0);
      Ending(p, PretrainSuffix, 0);
      Ending(p, ForwardSuffix, 1);
      Ending(p, BackwardSuffix, 1);
    }
  }

  /** The entries written before the loop, key by key. */
  lemma BaseEntries(processors: string, vi: bool)
    ensures var b := Base(processors, vi);
      && "processors" in b && b["processors"] == Str(processors)
      && ("lemma_use_identity" in b <==> vi) && ("lemma_batch_size" in b <==> vi)
      && (vi ==> b["lemma_use_identity"] == Flag(true) && b["lemma_batch_size"] == Int(5000))
  {
  }

  /** The configuration `build_default_config` returns. */
  function DefaultConfig(tb: string, modelsPath: string): Config {
    var mwt := tb in MwtLanguages;
    ProcessorsSplit(mwt);
    Entries(Base(ProcessorsFor(mwt), tb == "vi_vtb"), tb, TreebankDir(tb, modelsPath), ProcessorNames(mwt))
  }

  /** The facts below, for any treebank name, directory and choice of processor list. */
  lemma {:induction false} ConfigMeaning(mwt: bool, vi: bool, tb: string, dir: string)
    ensures forall p :: p in ProcessorNames(mwt) ==> p in ProcessorToEnding
    ensures var c := Entries(Base(ProcessorsFor(mwt), vi), tb, dir, ProcessorNames(mwt));
      && "processors" in c && c["processors"] == Str(ProcessorsFor(mwt))
      && ("lemma_use_identity" in c <==> vi) && ("lemma_batch_size" in c <==> vi)
      && (vi ==> c["lemma_use_identity"] == Flag(true) && c["lemma_batch_size"] == Int(5000))
      && (forall k :: k in c <==> k in Base(ProcessorsFor(mwt), vi) || LoopKey(ProcessorNames(mwt), k))
      && (forall p :: p in ProcessorNames(mwt) ==>
            p + ModelSuffix in c && c[p + ModelSuffix] == Str(ModelPath(tb, dir, p)))
      && (forall p :: p in ProcessorNames(mwt) && p in PretrainProcessors ==>
            p + PretrainSuffix in c && c[p + PretrainSuffix] == Str(PretrainPath(tb, dir)))
      && (forall p :: p in ProcessorNames(mwt) && p in CharlmProcessors ==>
            p + ForwardSuffix in c && c[p + ForwardSuffix] == Str(ForwardPath(tb, dir))
            && p + BackwardSuffix in c && c[p + BackwardSuffix] == Str(BackwardPath(tb, dir)))
  {
    ProcessorsSplit(mwt);
    var ps, base := ProcessorNames(mwt), Base(ProcessorsFor(mwt), vi);
    EntriesKeys(base, tb, dir, ps);
    BaseKeysNotLoopKeys(ps);
    BaseEntries(ProcessorsFor(mwt), vi);
    forall p | p in ps ensures HoldsPaths(Entries(base, tb, dir, ps), tb, dir, p) {
      EntriesValues(base, tb, dir, ps, p);
    }
  }

  /**
   * The default configuration holds the processor list (with the multi-word
   * token expander exactly for the treebanks that have one), the Vietnamese
   * lemmatizer settings exactly for `vi_vtb`, a model path for every listed
   * processor, pretrain paths only for the tagger and the parser, character
   * language model files only for the entity tagger, and nothing else.
   */
  lemma {:induction false} DefaultConfigMeaning(tb: string, modelsPath: string)
    ensures var c := DefaultConfig(tb, modelsPath);
      && "processors" in c
      && c["processors"] == Str(if tb in MwtLanguages then "tokenize,mwt,pos,lemma,depparse,ner" else "tokenize,pos,lemma,depparse,ner")
      && ("lemma_use_identity" in c <==> tb == "vi_vtb") && ("lemma_batch_size" in c <==> tb == "vi_vtb")
      && (tb == "vi_vtb" ==> c["lemma_use_identity"] == Flag(true) && c["lemma_batch_size"] == Int(5000))
    ensures var mwt, c := tb in MwtLanguages, DefaultConfig(tb, modelsPath);
      forall k :: k in c <==> k in Base(ProcessorsFor(mwt), tb == "vi_vtb") || LoopKey(ProcessorNames(mwt), k)
    ensures var mwt, c, dir := tb in MwtLanguages, DefaultConfig(tb, modelsPath), TreebankDir(tb, modelsPath);
      && (forall p :: p in ProcessorNames(mwt) ==> p in ProcessorToEnding)
      && (forall p :: p in ProcessorNames(mwt) ==>
            p + ModelSuffix in c && c[p + ModelSuffix] == Str(ModelPath(tb, dir, p)))
      && (forall p :: p in ProcessorNames(mwt) && p in PretrainProcessors ==>
            p + PretrainSuffix in c && c[p + PretrainSuffix] == Str(PretrainPath(tb, dir)))
      && (forall p :: p in ProcessorNames(mwt) && p in CharlmProcessors ==>
            p + ForwardSuffix in c && c[p + ForwardSuffix] == Str(ForwardPath(tb, dir))
            && p + BackwardSuffix in c && c[p + BackwardSuffix] == Str(BackwardPath(tb, dir)))
  {
    ConfigMeaning(tb in MwtLanguages, tb == "vi_vtb", tb, TreebankDir(tb, modelsPath));
  }

  /** The loop of `build_default_config`: the entries of each processor in `processors`, in order. */
  method WriteProcessorEntries(base: Config, tb: string, dir: string, processors: seq<string>) returns (config: Config)
    requires forall p :: p in processors ==> p in ProcessorToEnding
    ensures config == Entries(base, tb, dir, processors)
  {
    config := base;
    for k := 0 to |processors|
      invariant config == Entries(base, tb, dir, processors[..k])
    {
      var p := processors[k];
      assert processors[..k + 1][..k] == processors[..k];
      var ending := ProcessorToEnding[p] + ".pt";
      config := config[p + ModelSuffix := Str(PathJoin(dir, tb + "_" + ending))];
      if p in PretrainProcessors {
        config := config[p + PretrainSuffix := Str(PathJoin(dir, tb + ".pretrain.pt"))];
      }
      if p in CharlmProcessors {
        config := config[p + ForwardSuffix := Str(PathJoin(dir, tb + "_forward_charlm.pt"))];
        config := config[p + BackwardSuffix := Str(PathJoin(dir, tb + "_backward_charlm.pt"))];
      }
    }
    assert processors[..|processors|] == processors;
  }

  /**
   * `build_default_config(treebank, models_path)`: the processor list, the
   * Vietnamese lemmatizer settings, then one pass over the processors named
   * in the stored list.
   */
  method BuildDefaultConfig(tb: string, modelsPath: string) returns (config: Config)
    ensures config == DefaultConfig(tb, modelsPath)
  {
    config := map[];
    var mwt := tb in MwtLanguages;
    if mwt {
      config := config["processors" := Str("tokenize,mwt,pos,lemma,depparse,ner")];
    } else {
      config := config["processors" := Str("tokenize,pos,lemma,depparse,ner")];
    }
    assert config == Base(ProcessorsFor(mwt), false);
    if tb == "vi_vtb" {
      config := config["lemma_use_identity" := Flag(true)];
      config := config["lemma_batch_size" := Int(5000)];
    }
    ghost var base := Base(ProcessorsFor(mwt), tb == "vi_vtb");
    assert config == base;
    BaseEntries(ProcessorsFor(mwt), tb == "vi_vtb");
    var dir := PathJoin(modelsPath, tb + "_models");
    ProcessorsSplit(mwt);
    var processors := SplitChar(config["processors"].s, ',');
    config := WriteProcessorEntries(config, tb, dir, processors);
  }
}
