/** The spending-category registry of `src/utils/categorias.js`.

    Records are `{id, nombre, color}`; the colour of a new category defaults
    to `#6b7280`. Unlike payment methods no id is protected: every category,
    seeded or not, can be deleted or edited, and a list emptied by deletes
    stays empty, since only a missing stored list is reseeded.
 */
module Categories {
  import opened Slugs
  import opened Registry

  const Defaults: seq<Record> := [
    Record("supermercado", "Supermercado", "#3b82f6"),
    Record("delivery", "Delivery", "#f59e0b"),
    Record("salidas", "Salidas", "#ec4899"),
    Record("servicios", "Servicios", "#10b981"),
    Record("transporte", "Transporte", "#8b5cf6"),
    Record("vivienda", "Vivienda", "#ef4444"),
    Record("auto", "Auto", "#f97316"),
    Record("cuotas", "Cuotas", "#6366f1"),
    Record("transferencia", "Transferencia", "#14b8a6"),
    Record("otros", "Otros", "#6b7280")
  ]

  const DefaultColor: string := "#6b7280"

  /** No id is protected. */
  const Settings: Config := Config(Defaults, DefaultColor, [])

  /** `obtenerCategorias`: the stored list, even an empty one, or the ten
      defaults, which are then stored. */
  function List(st: Store): (r: (seq<Record>, Store))
    ensures st.None? ==> r.0 == Defaults && r.1 == Some(Defaults) && |r.0| == 10
    ensures st.None? ==> UniqueIds(r.0)
    ensures st.Some? ==> r.0 == st.value && r.1 == st
    ensures st == Some([]) ==> r.0 == []
  {
    Registry.List(Settings, st)
  }

  /** `agregarCategoria`: refuses a name whose slug is already an id, adding
      nothing; otherwise appends `{slug, name, colour}` with the colour
      defaulting to `#6b7280`, leaving every earlier record as it was. */
  function Add(st: Store, name: string, color: Option<string>): (r: (Outcome, Store))
    ensures var items := List(st).0;
      && (r.0 == Duplicate <==> HasId(items, Slug(name)))
      && (r.0 == Duplicate ==> r.1 == Some(items))
      && (r.0 != Duplicate ==>
            && r.0.Ok?
            && r.0.rec.id == Slug(name) && AllSlugChars(r.0.rec.id)
            && r.0.rec.name == name
            && r.0.rec.attr == (if color.Some? then color.value else "#6b7280")
            && r.1.Some? && |r.1.value| == |items| + 1
            && r.1.value[..|items|] == items
            && r.1.value[|items|] == r.0.rec)
  {
    Registry.Add(Settings, st, name, color)
  }

  /** `eliminarCategoria`: always succeeds, on default ids too, and removes
      exactly the records with that id, keeping the others in order. */
  function Delete(st: Store, id: string): (r: (Outcome, Store))
    ensures var items := List(st).0;
      && r.0 == Done
      && r.1.Some?
      && !HasId(r.1.value, id)
      && IsSubsequence(r.1.value, items)
      && (forall x :: multiset(r.1.value)[x] == if x.id == id then 0 else multiset(items)[x])
  {
    Registry.Delete(Settings, st, id)
  }

  /** `editarCategoria`: an absent id is reported as not found and adds
      nothing; otherwise the first record with the id gets the new name and
      colour, each kept when the new value is omitted or empty, and no other
      position changes. */
  function Edit(st: Store, id: string, newName: Option<string>, newColor: Option<string>): (r: (Outcome, Store))
    ensures var items := List(st).0;
      && (!HasId(items, id) ==> r.0 == NotFound && r.1 == Some(items))
      && (HasId(items, id) ==>
            var k := IndexOf(items, id);
            && r.0.Ok? && r.1.Some? && 0 <= k < |items|
            && r.0.rec.id == id
            && r.0.rec.name == (if Provided(newName) then newName.value else items[k].name)
            && r.0.rec.attr == (if Provided(newColor) then newColor.value else items[k].attr)
            && |r.1.value| == |items|
            && r.1.value[k] == r.0.rec
            && (forall j :: 0 <= j < |items| && j != k ==> r.1.value[j] == items[j]))
  {
    Registry.Edit(Settings, st, id, newName, newColor)
  }

  /** Re-adding a seeded category by its display name is refused while it
      is in the list, and accepted once it was deleted. */
  lemma AddingDefaultNameFails(name: string, color: Option<string>)
    requires name == "Otros"
    ensures Add(None, name, color).0 == Duplicate
    ensures Add(Delete(None, Defaults[9].id).1, name, color).0.Ok?
  {
    OtrosSlug(name);
    DeleteThenAddSucceeds(Settings, None, name, color);
  }

  lemma OtrosSlug(name: string)
    requires name == "Otros"
    ensures Slug(name) == Defaults[9].id
  {
    LowerWords();
    AsciiWordIs(name, "otros");
  }

  /** After the ten default categories are deleted from a fresh store, reading
      the list gives the empty list, not the defaults again. */
  lemma DeletingAllDefaultsLeavesEmpty(ids: seq<string>)
    requires ids == ["supermercado", "delivery", "salidas", "servicios", "transporte",
                     "vivienda", "auto", "cuotas", "transferencia", "otros"]
    ensures List(Run(Settings, None, DeleteAll(ids))).0 == []
  {
    forall x | x in Registry.List(Settings, None).0
      ensures x.id in ids
    {
    }
    DeletingEveryIdEmpties(Settings, None, ids);
  }

  /** Starting from an empty store, no sequence of calls ever makes two
      categories share an id. */
  lemma {:induction false} IdsAlwaysUnique(ops: seq<Op>)
    ensures UniqueIds(Registry.List(Settings, Run(Settings, None, ops)).0)
  {
    var seeded := List(None);
    assert UniqueIds(seeded.0) && seeded == Registry.List(Settings, None);
    RunKeepsUniqueIds(Settings, None, ops);
  }
}
