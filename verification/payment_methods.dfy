/** The payment-method registry of `src/utils/mediosPago.js`.

    Records are `{id, nombre, icono}`; the icon of a new method defaults to
    `credit-card`. The five seeded methods are protected: delete and edit
    refuse their ids, so once seeded they stay in the list unchanged whatever
    sequence of calls follows.
 */
module PaymentMethods {
  import opened Slugs
  import opened Registry

  /** The seed list as the source spells it: the accented letters of the two
      card names were written as the bare text `u00e9`, the escape without its
      backslash, so the names read "Tarjeta de Du00e9bito" and
      "Tarjeta de Cru00e9dito". */
  const DefaultsAsWritten: seq<Record> := [
    Record("debito", "Tarjeta de Du00e9bito", "credit-card"),
    Record("credito", "Tarjeta de Cru00e9dito", "credit-card"),
    Record("efectivo", "Efectivo", "cash"),
    Record("transferencia", "Transferencia", "bank"),
    Record("otro", "Otro", "dots-horizontal")
  ]

  /** The seed list as intended, with "é" in the card names. The rest of the
      model uses this one. */
  const Defaults: seq<Record> := [
    Record("debito", "Tarjeta de Débito", "credit-card"),
    Record("credito", "Tarjeta de Crédito", "credit-card"),
    Record("efectivo", "Efectivo", "cash"),
    Record("transferencia", "Transferencia", "bank"),
    Record("otro", "Otro", "dots-horizontal")
  ]

  /** The ids delete and edit refuse. */
  const ProtectedIds: seq<string> := ["debito", "credito", "efectivo", "transferencia", "otro"]

  const DefaultIcon: string := "credit-card"

  const Settings: Config := Config(Defaults, DefaultIcon, ProtectedIds)

  /** `obtenerMediosPago`: the stored list, or the five defaults, which are
      then stored. */
  function List(st: Store): (r: (seq<Record>, Store))
    ensures st.None? ==> r.0 == Defaults && r.1 == Some(Defaults) && |r.0| == 5
    ensures st.Some? ==> r.0 == st.value && r.1 == st
    ensures st.None? ==> UniqueIds(r.0)
  {
    Registry.List(Settings, st)
  }

  /** `agregarMedioPago`: refuses a name whose slug is already an id (the
      store is then seeded if it was empty, and otherwise unchanged);
      otherwise appends `{slug, name, icon}` with the icon defaulting to
      `credit-card`. */
  function Add(st: Store, name: string, icon: Option<string>): (r: (Outcome, Store))
    ensures var items := List(st).0;
      && (r.0 == Duplicate <==> HasId(items, Slug(name)))
      && (r.0 == Duplicate ==> r.1 == Some(items))
      && (r.0 != Duplicate ==>
            && r.0.Ok?
            && r.0.rec.id == Slug(name) && AllSlugChars(r.0.rec.id)
            && r.0.rec.name == name
            && r.0.rec.attr == (if icon.Some? then icon.value else "credit-card")
            && r.1 == Some(items + [r.0.rec]))
  {
    var items := List(st).0;
    var r := Registry.Add(Settings, st, name, icon);
    assert r.0 != Duplicate ==> r.1.value == r.1.value[..|items|] + [r.1.value[|items|]];
    r
  }

  /** `eliminarMedioPago`: the list is read first, which seeds it if nothing
      is stored; the five default ids are then refused, their records stay
      and nothing more is written; any other id succeeds, whether or not a
      record has it, and removes exactly the records with that id. */
  function Delete(st: Store, id: string): (r: (Outcome, Store))
    ensures var items := List(st).0;
      && (id in ProtectedIds ==> r.0 == Protected && r.1 == Some(items))
      && (id !in ProtectedIds ==>
            && r.0 == Done
            && r.1.Some?
            && !HasId(r.1.value, id)
            && IsSubsequence(r.1.value, items)
            && (forall x :: multiset(r.1.value)[x] == if x.id == id then 0 else multiset(items)[x]))
  {
    Registry.Delete(Settings, st, id)
  }

  /** `editarMedioPago`: an id the list lacks is reported as not found, even
      a default one; a default id that is present is refused; otherwise the
      first record with the id gets the new name and icon, each kept when the
      new value is omitted or empty, and no other position changes. */
  function Edit(st: Store, id: string, newName: Option<string>, newIcon: Option<string>): (r: (Outcome, Store))
    ensures var items := List(st).0;
      && (!HasId(items, id) ==> r.0 == NotFound && r.1 == Some(items))
      && (HasId(items, id) && id in ProtectedIds ==> r.0 == Protected && r.1 == Some(items))
      && (HasId(items, id) && id !in ProtectedIds ==>
            var k := IndexOf(items, id);
            && r.0.Ok? && r.1.Some? && 0 <= k < |items|
            && r.0.rec.id == id
            && r.0.rec.name == (if Provided(newName) then newName.value else items[k].name)
            && r.0.rec.attr == (if Provided(newIcon) then newIcon.value else items[k].attr)
            && r.1.value == items[k := r.0.rec])
  {
    var items := List(st).0;
    var k := IndexOf(items, id);
    var r := Registry.Edit(Settings, st, id, newName, newIcon);
    assert HasId(items, id) && id !in ProtectedIds ==> r.1.value == items[k := r.0.rec];
    r
  }

  /** Deleting a default method always fails and leaves it in the list. */
  lemma DefaultsCannotBeDeleted(st: Store, i: nat)
    requires i < |Defaults|
    ensures var r := Delete(st, Defaults[i].id);
      r.0 == Protected && (Defaults[i] in List(st).0 ==> Defaults[i] in r.1.value)
  {
    assert Defaults[i].id == ProtectedIds[i];
  }

  /** Starting from an empty store, no sequence of calls ever loses or alters
      one of the five defaults. */
  lemma {:induction false} DefaultsAlwaysPresent(ops: seq<Op>, i: nat)
    requires i < |Defaults|
    ensures Defaults[i] in Registry.List(Settings, Run(Settings, None, ops)).0
  {
    assert Defaults[i].id == ProtectedIds[i];
    assert Defaults[i] in Registry.List(Settings, None).0;
    RunKeepsProtected(Settings, None, ops, Defaults[i]);
  }

  /** Starting from an empty store, no sequence of calls ever makes two
      payment methods share an id. */
  lemma {:induction false} IdsAlwaysUnique(ops: seq<Op>)
    ensures UniqueIds(Registry.List(Settings, Run(Settings, None, ops)).0)
  {
    var seeded := List(None);
    assert UniqueIds(seeded.0) && seeded == Registry.List(Settings, None);
    RunKeepsUniqueIds(Settings, None, ops);
  }

  /** Adding "Otro" to a fresh store is refused: the name slugs to the seeded
      id `otro`. */
  lemma AddingDefaultNameFails(st: Store, name: string, icon: Option<string>)
    requires st.None? && name == "Otro"
    ensures Add(st, name, icon).0 == Duplicate
  {
    LowerWords();
    AsciiWordIs(name, "otro");
    assert Defaults[4].id == Slug(name);
  }

  /** The registry seeded with the list as the source spells it. */
  const SettingsAsWritten: Config := Config(DefaultsAsWritten, DefaultIcon, ProtectedIds)

  /** The two card methods were seeded with hand-picked ids that are not the
      slugs of their names: "Tarjeta de Débito" slugs to an id beginning
      `ta`, not to `debito`. So re-adding either card name to a fresh store
      is accepted, and the list then holds two methods of the same name. The
      same holds of the names as the source spells them. */
  lemma ReaddingCardNameIsAccepted(i: nat, icon: Option<string>)
    requires i < 2
    ensures Slug(Defaults[i].name) != Defaults[i].id
    ensures Add(None, Defaults[i].name, icon).0.Ok?
    ensures Slug(DefaultsAsWritten[i].name) != DefaultsAsWritten[i].id
    ensures Registry.Add(SettingsAsWritten, None, DefaultsAsWritten[i].name, icon).0.Ok?
  {
    CardNameStartsTa(i);
    CardNameIsNew(Defaults[i].name, Defaults[i].name[2..], icon);
    CardNameIsNew(DefaultsAsWritten[i].name, DefaultsAsWritten[i].name[2..], icon);
  }

  /** Both card names begin with `Ta`, in either spelling; kept apart so
      that the literal lists are unfolded in one small proof. */
  lemma CardNameStartsTa(i: nat)
    requires i < 2
    ensures |Defaults[i].name| >= 2 && Defaults[i].name == "Ta" + Defaults[i].name[2..]
    ensures |DefaultsAsWritten[i].name| >= 2
    ensures DefaultsAsWritten[i].name == "Ta" + DefaultsAsWritten[i].name[2..]
  {
  }

  /** No seeded id starts with `ta`, so a name whose id does is new, whichever
      spelling of the seed list is used. */
  lemma CardNameIsNew(name: string, rest: string, icon: Option<string>)
    requires name == "Ta" + rest
    ensures |Slug(name)| >= 2 && Slug(name)[..2] == "ta"
    ensures Slug(name) != Defaults[0].id && Slug(name) != Defaults[1].id
    ensures Add(None, name, icon).0.Ok?
    ensures Registry.Add(SettingsAsWritten, None, name, icon).0.Ok?
  {
    LowerWords();
    SlugOfAsciiPrefix("Ta", rest);
    var id := Slug(name);
    assert id[1] == 'a';
    forall i | 0 <= i < |Defaults|
      ensures Defaults[i].id != id
    {
      assert Defaults[i].id[1] != 'a';
    }
    SeedNamesAsWritten();
    forall i | 0 <= i < |DefaultsAsWritten|
      ensures DefaultsAsWritten[i].id != id
    {
      assert DefaultsAsWritten[i].id == Defaults[i].id;
    }
  }

  /** Editing a default id in a list that lacks it reports not-found, not
      protection: the existence check runs first. */
  lemma EditReportsNotFoundFirst(id: string)
    requires id in ProtectedIds
    ensures Edit(Some([]), id, Some("x"), Some("x")).0 == NotFound
  {
  }

  /** The discrepancy in the seed list: as written, the two card names hold
      the five characters "u00e9" where the corrected list has the single
      character "é"; every id and icon agrees. */
  lemma SeedNamesAsWritten()
    ensures DefaultsAsWritten[0].name == "Tarjeta de D" + "u00e9" + "bito"
    ensures DefaultsAsWritten[1].name == "Tarjeta de Cr" + "u00e9" + "dito"
    ensures DefaultsAsWritten[0].name != Defaults[0].name
    ensures forall i :: 0 <= i < 5 ==> DefaultsAsWritten[i].id == Defaults[i].id
    ensures forall i :: 0 <= i < 5 ==> DefaultsAsWritten[i].attr == Defaults[i].attr
  {
    assert |DefaultsAsWritten[0].name| != |Defaults[0].name|;
  }

  /** The corrected seed list: the card names read "Tarjeta de Débito" and
      "Tarjeta de Crédito", and the seeded ids are exactly the protected ids,
      in order, pairwise distinct. */
  lemma SeedNamesCorrected()
    ensures Defaults[0].name == "Tarjeta de D" + "é" + "bito"
    ensures Defaults[1].name == "Tarjeta de Cr" + "é" + "dito"
    ensures forall i :: 0 <= i < 5 ==> Defaults[i].id == ProtectedIds[i]
    ensures UniqueIds(Defaults)
  {
  }
}
