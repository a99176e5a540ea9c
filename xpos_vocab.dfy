/**
 * The choice of XPOS vocabulary for a treebank: a chain of membership tests
 * over fixed treebank lists, each giving a vocabulary kind, or an error for
 * a treebank in no list.
 */
module XposVocab {
  import opened Wrappers

  /** A vocabulary that splits tags at `sep`, or a word vocabulary that skips the `ignore` entries. */
  datatype VocabKind = Xpos(sep: string) | Word(ignore: seq<string>)

  /** The vocabulary built for `shorthand` over `data`, reading column `idx`. */
  datatype Vocab<D> = Vocab(data: D, shorthand: string, idx: nat, kind: VocabKind)

  const PlainSepTreebanks: seq<string> := [
    "af_afribooms", "ar_padt", "bg_btb", "cs_cac", "cs_cltt", "cs_fictree", "cs_pdt", "en_partut",
    "fr_partut", "gd_arcosg", "gl_ctg", "gl_treegal", "grc_perseus", "hr_set", "is_icepahc",
    "it_isdt", "it_partut", "it_postwita", "it_twittiro", "it_vit", "it_combined", "la_perseus",
    "lt_alksnis", "lv_lvtb", "ro_nonstandard", "ro_rrt", "ro_simonero", "sk_snk", "sl_ssj",
    "sl_sst", "sr_set", "ta_ttb", "uk_iu"]

  const WordTreebanks: seq<string> := [
    "be_hse", "ca_ancora", "cop_scriptorium", "cu_proiel", "cy_ccg", "da_ddt", "de_gsd", "de_hdt",
    "el_gdt", "en_ewt", "en_gum", "en_combined", "es_ancora", "es_gsd", "et_edt", "et_ewt",
    "eu_bdt", "fa_perdt", "fa_seraji", "fi_tdt", "fr_ftb", "fr_gsd", "fro_srcmf", "fr_sequoia",
    "fr_spoken", "ga_idt", "got_proiel", "grc_proiel", "he_htb", "hi_hdtb", "hu_szeged",
    "hy_armtdp", "id_csui", "ja_gsd", "la_proiel", "lt_hse", "lzh_kyoto", "mr_ufal", "mt_mudt",
    "nb_bokmaal", "nn_nynorsk", "nn_nynorsklia", "orv_rnc", "orv_torot", "pcm_nsc", "pt_bosque",
    "pt_gsd", "qtd_sagt", "ru_gsd", "ru_syntagrus", "ru_taiga", "sa_vedic", "sme_giella",
    "swl_sslc", "te_mtg", "tr_boun", "tr_imst", "ug_udt", "vi_vtb", "wo_wtb", "zh_gsdsimp",
    "zh-hans_gsdsimp", "zh-hant_gsd", "bxr_bdt", "hsb_ufal", "ja_bccwj", "kk_ktb", "kmr_mg",
    "olo_kkpp"]

  const DashSepTreebanks: seq<string> := [
    "en_lines", "fo_farpahc", "sv_lines", "ur_udtb"]

  const CommaSepTreebanks: seq<string> := [
    "fi_ftb"]

  const PlusSepTreebanks: seq<string> := [
    "id_gsd", "ko_gsd", "ko_kaist"]

  const BarSepTreebanks: seq<string> := [
    "la_ittb", "la_llct", "nl_alpino", "nl_lassysmall", "sv_talbanken"]

  const ColonSepTreebanks: seq<string> := [
    "pl_lfg", "pl_pdb"]

  /** The message of the error for a treebank in no list. */
  function NotFound(shorthand: string): string {
    "Language shorthand \"" + shorthand + "\" not found!"
  }

  /** `xpos_vocab_factory(data, shorthand)`. */
  function XposVocabFactory<D>(data: D, shorthand: string): (r: Result<Vocab<D>, string>)
    ensures r.Ok? ==> r.value.data == data && r.value.shorthand == shorthand && r.value.idx == 2
    ensures r.Err? ==> r.error == NotFound(shorthand)
  {
    if shorthand in PlainSepTreebanks then Ok(Vocab(data, shorthand, 2, Xpos("")))
    else if shorthand in WordTreebanks then Ok(Vocab(data, shorthand, 2, Word(["_"])))
    else if shorthand in DashSepTreebanks then Ok(Vocab(data, shorthand, 2, Xpos("-")))
    else if shorthand in CommaSepTreebanks then Ok(Vocab(data, shorthand, 2, Xpos(",")))
    else if shorthand in PlusSepTreebanks then Ok(Vocab(data, shorthand, 2, Xpos("+")))
    else if shorthand in BarSepTreebanks then Ok(Vocab(data, shorthand, 2, Xpos("|")))
    else if shorthand in ColonSepTreebanks then Ok(Vocab(data, shorthand, 2, Xpos(":")))
    else Err(NotFound(shorthand))
  }

  /** The dispatch as a table: each treebank list with the vocabulary kind it gets, in the order they are tested. */
  const Groups: seq<(seq<string>, VocabKind)> := [
    (PlainSepTreebanks, Xpos("")), (WordTreebanks, Word(["_"])), (DashSepTreebanks, Xpos("-")),
    (CommaSepTreebanks, Xpos(",")), (PlusSepTreebanks, Xpos("+")), (BarSepTreebanks, Xpos("|")),
    (ColonSepTreebanks, Xpos(":"))]

  /** The kind of the first group that lists `shorthand`, and its position. */
  function FirstGroup(groups: seq<(seq<string>, VocabKind)>, shorthand: string): (r: Option<nat>)
    ensures r.Some? ==> r.value < |groups| && shorthand in groups[r.value].0
    ensures r.Some? ==> forall i :: 0 <= i < r.value ==> shorthand !in groups[i].0
    ensures r.None? <==> forall i :: 0 <= i < |groups| ==> shorthand !in groups[i].0
  {
    if groups == [] then None
    else if shorthand in groups[0].0 then Some(0)
    else
      match FirstGroup(groups[1..], shorthand)
      case None => None
      case Some(i) => Some(i + 1)
  }

  /** The table lists the chain's treebank lists and kinds, in the chain's order. */
  lemma GroupsTable()
    ensures |Groups| == 7
    ensures Groups[0] == (PlainSepTreebanks, Xpos("")) && Groups[1] == (WordTreebanks, Word(["_"]))
    ensures Groups[2] == (DashSepTreebanks, Xpos("-")) && Groups[3] == (CommaSepTreebanks, Xpos(","))
    ensures Groups[4] == (PlusSepTreebanks, Xpos("+")) && Groups[5] == (BarSepTreebanks, Xpos("|"))
    ensures Groups[6] == (ColonSepTreebanks, Xpos(":"))
  {
  }

  /** A shorthand in group `i` and in no earlier group gets that group's vocabulary kind. */
  lemma {:induction false} FactoryGroup<D>(data: D, shorthand: string, i: nat)
    requires i < |Groups| && shorthand in Groups[i].0
    requires forall j :: 0 <= j < i ==> shorthand !in Groups[j].0
    ensures XposVocabFactory(data, shorthand) == Ok(Vocab(data, shorthand, 2, Groups[i].1))
  {
    GroupsTable();
    assert 0 < i ==> shorthand !in Groups[0].0;
    assert 1 < i ==> shorthand !in Groups[1].0;
    assert 2 < i ==> shorthand !in Groups[2].0;
    assert 3 < i ==> shorthand !in Groups[3].0;
    assert 4 < i ==> shorthand !in Groups[4].0;
    assert 5 < i ==> shorthand !in Groups[5].0;
  }

  /** A shorthand in no group fails. */
  lemma {:induction false} FactoryNoGroup<D>(data: D, shorthand: string)
    requires forall j :: 0 <= j < |Groups| ==> shorthand !in Groups[j].0
    ensures XposVocabFactory(data, shorthand) == Err(NotFound(shorthand))
  {
    GroupsTable();
    assert shorthand !in Groups[0].0 && shorthand !in Groups[1].0 && shorthand !in Groups[2].0;
    assert shorthand !in Groups[3].0 && shorthand !in Groups[4].0 && shorthand !in Groups[5].0;
    assert shorthand !in Groups[6].0;
  }

  /**
   * The chain of tests is a lookup in the table: the first group listing the
   * shorthand decides the vocabulary kind, and a shorthand in no group fails.
   */
  lemma {:induction false} FactoryIsFirstGroup<D>(data: D, shorthand: string)
    ensures match FirstGroup(Groups, shorthand)
      case None => XposVocabFactory(data, shorthand) == Err(NotFound(shorthand))
      case Some(i) => XposVocabFactory(data, shorthand) == Ok(Vocab(data, shorthand, 2, Groups[i].1))
  {
    var r := FirstGroup(Groups, shorthand);
    if r.None? {
      FactoryNoGroup(data, shorthand);
    } else {
      FactoryGroup(data, shorthand, r.value);
    }
  }

  /** A shorthand fails exactly when no list holds it. */
  lemma {:induction false} FactoryFails<D>(data: D, shorthand: string)
    ensures XposVocabFactory(data, shorthand).Err? <==> forall i :: 0 <= i < |Groups| ==> shorthand !in Groups[i].0
  {
    FactoryIsFirstGroup(data, shorthand);
  }
}
