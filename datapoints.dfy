/** The fixed table of datapoints the exporter publishes: the controller's
    plant item id, the gauge's metric name and its help text. The table is
    built once and its key set never changes. Iteration follows the order in
    which the entries are listed. */
module Datapoints {

  datatype Datapoint = Datapoint(id: int, name: string, help: string)

  const Table: seq<Datapoint> := [
    Datapoint(2420, "owz_aussentemperatur", "Au\U{00DF}entemperatur in \U{00B0}C"),
    Datapoint(2422, "owz_vorlauftemperatur_ist_hk1", "Vorlauftemperatur Istwert Heizkreis 1 in \U{00B0}C"),
    Datapoint(2425, "owz_vorlauftemperatur_ist_hk2", "Vorlauftemperatur Istwert Heizkreis 2 in \U{00B0}C"),
    Datapoint(2433, "owz_trinkwasser_ist_b3", "Trinkwassertemperatur-Istwert Oben (B3) in \U{00B0}C"),
    Datapoint(2436, "owz_pufferspeicher_ist_b4", "Pufferspeichertemperatur-Istwert Oben (B4) in \U{00B0}C"),
    Datapoint(2438, "owz_ruecklauftemperatur_wp", "R\U{00FC}cklauftemperatur W\U{00E4}rmepumpe in \U{00B0}C"),
    Datapoint(2440, "owz_vorlauftemperatur_wp", "Vorlauftemperatur W\U{00E4}rmepumpe in \U{00B0}C")
  ]

  /** The plant item ids of `t`, in order. */
  function IdsOf(t: seq<Datapoint>): seq<int>
  {
    if t == [] then [] else [t[0].id] + IdsOf(t[1..])
  }

  /** The metric names of `t`, in order. */
  function NamesOf(t: seq<Datapoint>): seq<string>
  {
    if t == [] then [] else [t[0].name] + NamesOf(t[1..])
  }

  /** The plant item ids, in table order. */
  const TableIds: seq<int> := IdsOf(Table)

  /** The key set of the table. */
  const TableIdSet: set<int> := set id | id in TableIds

  predicate Distinct<T(==)>(s: seq<T>)
  {
    forall i, j :: 0 <= i < j < |s| ==> s[i] != s[j]
  }

  /** The ids, in the order the table lists them. */
  lemma TableIdsAre()
    ensures TableIds == [2420, 2422, 2425, 2433, 2436, 2438, 2440]
  {
  }

  /** The table is a mapping: seven entries, one id per entry and no id
      twice. */
  lemma TableIsMapping()
    ensures |Table| == 7 && |TableIds| == |Table|
    ensures forall i :: 0 <= i < |Table| ==> TableIds[i] == Table[i].id
    ensures Distinct(TableIds)
  {
  }

  /** No metric name is used twice, so every gauge can be registered. */
  lemma NamesAreDistinct()
    ensures |NamesOf(Table)| == |Table|
    ensures Distinct(NamesOf(Table))
  {
  }
}
