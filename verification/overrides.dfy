/** The manual edits file (`db_manual.json`): for each full product name, a
    dictionary of edited fields. The pricing pipeline reads the `margen`
    field; the margin editor writes it. */
module Overrides {
  import opened Collections

  /** Product name to field name to value. */
  type Edits = map<string, map<string, real>>

  /** `guardar_db_manual(nombre, campo, valor)`: create the product's entry
      when missing and set one field of it. */
  function SetField(db: Edits, name: string, field: string, value: real): (r: Edits)
    ensures r.Keys == db.Keys + {name}
    ensures r[name].Keys == (if name in db then db[name].Keys else {}) + {field}
    ensures r[name][field] == value
    ensures forall f :: f in r[name] && f != field ==> name in db && r[name][f] == db[name][f]
    ensures forall n :: n in db && n != name ==> n in r && r[n] == db[n]
  {
    var entry := if name in db then db[name] else map[];
    db[name := entry[field := value]]
  }

  /** The margin field the margin editor writes and the pipeline reads. */
  const MarginField: string := "margen"

  /** The `/api/editar-margen` request: the percentage sent is stored as a fraction. */
  function EditMargin(db: Edits, name: string, percent: real): Edits {
    SetField(db, name, MarginField, percent / 100.0)
  }

  /** The margin override for a product, looked up by its full name. */
  function MarginOverride(db: Edits, name: string): (m: Option<real>)
    ensures m.Some? <==> name in db && MarginField in db[name]
    ensures m.Some? ==> m.value == db[name][MarginField]
  {
    if name in db && MarginField in db[name] then Some(db[name][MarginField]) else None
  }

  /** After an edit, the product's override is the edited percentage as a
      fraction, and every other product's override is unchanged. */
  lemma EditThenOverride(db: Edits, name: string, percent: real, other: string)
    requires other != name
    ensures MarginOverride(EditMargin(db, name, percent), name) == Some(percent / 100.0)
    ensures MarginOverride(EditMargin(db, name, percent), other) == MarginOverride(db, other)
  {
  }

  /** Setting a field other than the margin leaves every override as it was. */
  lemma OtherFieldKeepsOverride(db: Edits, name: string, field: string, value: real, n: string)
    requires field != MarginField
    ensures MarginOverride(SetField(db, name, field, value), n) == MarginOverride(db, n)
  {
  }
}
