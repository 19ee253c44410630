/**
 * The synonym table `SYNONYM_DICT`: every lemma of a configured synonym group
 * maps to the set of all lemmas of that group, and lookups fall back to the
 * lemma itself (`SYNONYM_DICT.get(pl, {pl})`).
 */
module Synonyms {
  import opened Text

  /** `SYNONYM_GROUPS`: the configured groups of interchangeable words. */
  const SynonymGroups: seq<seq<string>> := [
    ["сим", "симка", "симкарта", "сим-карта", "сим-карте", "симке", "симку", "симки"],
    ["кредитка", "кредитная карта", "кредитной картой"],
    ["наличные", "наличка", "наличными"],
    ["дебетовка", "дебетовая"],
    ["приложение", "кабинет"],
    ["утеря", "потерял", "утерял", "потеря"]
  ]

  type SynonymTable = map<string, set<string>>

  /** `{lemmatize(w.lower()) for w in group}` */
  function GroupLemmas(group: seq<string>, lemmatize: string -> string): (lemmas: set<string>) {
    set w | w in group :: lemmatize(LowerAll(w))
  }

  /** The table after registering the groups in order; a later group overwrites the keys it shares with an earlier one. */
  function TableOf(groups: seq<seq<string>>, lemmatize: string -> string): (table: SynonymTable) {
    if groups == [] then map[]
    else
      var lemmas := GroupLemmas(groups[|groups| - 1], lemmatize);
      TableOf(groups[..|groups| - 1], lemmatize) + map l | l in lemmas :: lemmas
  }

  /** The module-level loop that fills `SYNONYM_DICT` from `SYNONYM_GROUPS`, group by group and lemma by lemma. */
  method BuildSynonymTable(lemmatize: string -> string) returns (table: SynonymTable)
    ensures table == TableOf(SynonymGroups, lemmatize)
  {
    var groups := SynonymGroups;
    table := map[];
    var g := 0;
    while g < |groups|
      invariant 0 <= g <= |groups|
      invariant table == TableOf(groups[..g], lemmatize)
    {
      var lemmas := GroupLemmas(groups[g], lemmatize);
      var pending := lemmas;
      ghost var before := table;
      while pending != {}
        invariant pending <= lemmas
        invariant table.Keys == before.Keys + (lemmas - pending)
        invariant forall k :: k in table ==> table[k] == if k in lemmas - pending then lemmas else before[k]
        decreases pending
      {
        var l :| l in pending;
        table := table[l := lemmas];
        pending := pending - {l};
      }
      FilledTable(before, table, lemmas);
      TableOfPrefix(groups, g, lemmatize);
      g := g + 1;
    }
    assert groups[..|groups|] == groups;
  }

  /** After the inner loop, every lemma of the group maps to the group's lemma set and other keys are as before. */
  lemma FilledTable(before: SynonymTable, table: SynonymTable, lemmas: set<string>)
    requires table.Keys == before.Keys + lemmas
    requires forall k :: k in table ==> table[k] == if k in lemmas then lemmas else before[k]
    ensures table == before + map l | l in lemmas :: lemmas
  {
  }

  /** Registering one more group extends the table of the groups before it. */
  lemma TableOfPrefix(groups: seq<seq<string>>, g: nat, lemmatize: string -> string)
    requires g < |groups|
    ensures TableOf(groups[..g + 1], lemmatize)
         == TableOf(groups[..g], lemmatize) + map l | l in GroupLemmas(groups[g], lemmatize) :: GroupLemmas(groups[g], lemmatize)
  {
    var prefix := groups[..g + 1];
    assert prefix[..g] == groups[..g] && prefix[g] == groups[g];
  }

  /** `SYNONYM_DICT.get(pl, {pl})` */
  function Expand(table: SynonymTable, l: string): (synonyms: set<string>) {
    if l in table then table[l] else {l}
  }

  /** Every key of the table belongs to its own synonym set. */
  lemma {:induction false} TableReflexive(groups: seq<seq<string>>, lemmatize: string -> string)
    ensures forall l :: l in TableOf(groups, lemmatize) ==> l in TableOf(groups, lemmatize)[l]
  {
    if groups != [] {
      TableReflexive(groups[..|groups| - 1], lemmatize);
    }
  }

  /** Expansion is reflexive: a lemma is always among its own synonyms. */
  lemma ExpandReflexive(groups: seq<seq<string>>, lemmatize: string -> string, l: string)
    ensures l in Expand(TableOf(groups, lemmatize), l)
  {
    TableReflexive(groups, lemmatize);
  }

  /** The keys are exactly the lemmas of the configured groups. */
  lemma {:induction false} TableKeys(groups: seq<seq<string>>, lemmatize: string -> string)
    ensures forall l :: l in TableOf(groups, lemmatize) <==>
      exists i :: 0 <= i < |groups| && l in GroupLemmas(groups[i], lemmatize)
  {
    if groups != [] {
      var init := groups[..|groups| - 1];
      TableKeys(init, lemmatize);
      forall l | exists i :: 0 <= i < |groups| && l in GroupLemmas(groups[i], lemmatize)
        ensures l in TableOf(groups, lemmatize)
      {
        var i :| 0 <= i < |groups| && l in GroupLemmas(groups[i], lemmatize);
        if i < |groups| - 1 {
          assert groups[i] == init[i];
        }
      }
      forall l | l in TableOf(groups, lemmatize)
        ensures exists i :: 0 <= i < |groups| && l in GroupLemmas(groups[i], lemmatize)
      {
        if l !in GroupLemmas(groups[|groups| - 1], lemmatize) {
          assert l in TableOf(init, lemmatize);
          var i :| 0 <= i < |init| && l in GroupLemmas(init[i], lemmatize);
          assert groups[i] == init[i];
        }
      }
    }
  }

  /** A lemma maps to the lemma set of the last group that contains it. */
  lemma {:induction false} TableLastGroupWins(groups: seq<seq<string>>, lemmatize: string -> string, i: nat, l: string)
    requires i < |groups| && l in GroupLemmas(groups[i], lemmatize)
    requires forall j :: i < j < |groups| ==> l !in GroupLemmas(groups[j], lemmatize)
    ensures l in TableOf(groups, lemmatize) && TableOf(groups, lemmatize)[l] == GroupLemmas(groups[i], lemmatize)
  {
    if i < |groups| - 1 {
      var init := groups[..|groups| - 1];
      assert init[i] == groups[i];
      forall j | i < j < |init| ensures l !in GroupLemmas(init[j], lemmatize) {
        assert init[j] == groups[j];
      }
      TableLastGroupWins(init, lemmatize, i, l);
      assert l !in GroupLemmas(groups[|groups| - 1], lemmatize);
    }
  }

  /** No lemma belongs to two different groups. */
  ghost predicate GroupsDisjoint(groups: seq<seq<string>>, lemmatize: string -> string) {
    forall i, j :: 0 <= i < j < |groups| ==> GroupLemmas(groups[i], lemmatize) !! GroupLemmas(groups[j], lemmatize)
  }

  /**
   * With disjoint groups, two lemmas of one group share one expansion, the
   * group's lemma set, so each is a synonym of the other.
   */
  lemma SameGroupSynonyms(groups: seq<seq<string>>, lemmatize: string -> string, i: nat, a: string, b: string)
    requires GroupsDisjoint(groups, lemmatize)
    requires i < |groups| && a in GroupLemmas(groups[i], lemmatize) && b in GroupLemmas(groups[i], lemmatize)
    ensures Expand(TableOf(groups, lemmatize), a) == Expand(TableOf(groups, lemmatize), b) == GroupLemmas(groups[i], lemmatize)
    ensures a in Expand(TableOf(groups, lemmatize), b)
  {
    TableLastGroupWins(groups, lemmatize, i, a);
    TableLastGroupWins(groups, lemmatize, i, b);
  }
}
