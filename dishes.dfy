/** `normalize_dish_name`: canonical dish names from a table of known spellings. */
module Dishes {
  import opened Wrappers
  import opened Text

  /** Canonical dish name and its known spellings, in the table's order
      (the insertion order of the Python dict). */
  type VariationTable = seq<(string, seq<string>)>

  /** The table of main.py, entry for entry. */
  const DishVariations: VariationTable := [
    ("Arroz con Pollo", ["arroz con pollo", "arroz cn pollo", "arroz conpllo"]),
    ("Tallarines Verdes", ["tallarines verdes", "talarines verdes"]),
    ("Lomo Saltado", ["lomo saltado", "lomo$altado"]),
    ("Causa Limeña", ["causa limena", "causalimeña"]),
    ("Ají de Gallina", ["aji de gallina", "aji gallina"]),
    ("Pollo a la Brasa", ["pollo a la brasa", "polloala brasa"]),
    ("Seco de Cordero", ["seco de cordero", "sec0 de cordero"]),
    ("Pachamanca", ["pachamanca", "pachamanc"]),
    ("Tacu Tacu", ["tacu tacu", "tacutacu", "tacu-tacu"]),
    ("Sopa a la Minuta", ["sopa a la minuta", "sopaala minuta"]),
    ("Rocoto Relleno", ["rocoto relleno", "rocoto rellen"]),
    ("Chicharrón de Cerdo", ["chicharron de cerdo", "chicharrones cerdo"]),
    ("Sanguchito de Chicharrón", ["sanguchito de chicharron", "sanguchito chicharrón"]),
    ("Pescado a la Plancha", ["pescado a la plancha", "pesacado a la plancha"]),
    ("Bistec a la parrilla", ["bistec a la parrilla", "bistec la parrilla"]),
    ("Tortilla de Huauzontle", ["tortilla de huauzontle", "tortilla huauzontle"]),
    ("Ceviche Clásico", ["ceviche clasico", "cevichelásico"]),
    ("Sopa Criolla", ["sopa criolla", "sopacriolla"]),
    ("Pollo en Salsa de Cacahuate", ["pollo en salsa de cacahuate", "pollo en salsa cacahuate"]),
    ("Ensalada de Quinoa", ["ensalada de quinoa", "ensalada quinoa"]),
    ("Anticuchos", ["anticuchos", "anticucho"]),
    ("Bebidas Naturales", ["bebidas naturales", "bebida$ naturales"])
  ]

  /** `any(variation in phrase for variation in variations)`. */
  predicate Mentions(variations: seq<string>, phrase: string)
  {
    exists v :: v in variations && Contains(phrase, v)
  }

  /** Entry `i` is the first entry of the table with a spelling inside `phrase`. */
  ghost predicate IsFirstMention(table: VariationTable, phrase: string, i: int)
  {
    0 <= i < |table| && Mentions(table[i].1, phrase)
    && forall j :: 0 <= j < i ==> !Mentions(table[j].1, phrase)
  }

  /** The loop over `dish_variations.items()` from entry `k` on: the index of
      the first entry whose spellings occur in `phrase`, if any. */
  function FirstMention(table: VariationTable, phrase: string, k: nat): (r: Option<nat>)
    requires k <= |table|
    ensures r.None? ==> forall j :: k <= j < |table| ==> !Mentions(table[j].1, phrase)
    ensures r.Some? ==> k <= r.value < |table| && Mentions(table[r.value].1, phrase)
    ensures r.Some? ==> forall j :: k <= j < r.value ==> !Mentions(table[j].1, phrase)
    decreases |table| - k
  {
    if k == |table| then None
    else if Mentions(table[k].1, phrase) then Some(k)
    else FirstMention(table, phrase, k + 1)
  }

  /** `normalize_dish_name` over an arbitrary table: lower-case the name, then
      take the canonical name of the first entry, in table order, that has a
      spelling inside it, or else the lower-cased name itself. It never
      invents a name. */
  function NormalizeWith(table: VariationTable, name: string): (r: string)
    ensures forall i :: IsFirstMention(table, Lower(name), i) ==> r == table[i].0
    ensures (forall i :: 0 <= i < |table| ==> !Mentions(table[i].1, Lower(name))) ==> r == Lower(name)
    ensures r == Lower(name) || exists i :: 0 <= i < |table| && r == table[i].0
  {
    var low := Lower(name);
    match FirstMention(table, low, 0)
    case Some(i) => table[i].0
    case None => low
  }

  /** `normalize_dish_name` with the table of main.py. */
  function NormalizeDishName(name: string): string
  {
    NormalizeWith(DishVariations, name)
  }

  /** Overlapping spellings are settled by table order: a phrase such as
      "arroz con pollo a la brasa" also mentions "pollo a la brasa", but the
      earlier entry wins. */
  lemma ArrozConPolloWins(name: string)
    requires Contains(Lower(name), "arroz con pollo")
    ensures NormalizeDishName(name) == "Arroz con Pollo"
  {
    assert "arroz con pollo" in DishVariations[0].1;
    assert IsFirstMention(DishVariations, Lower(name), 0);
  }
}
