/** The logic both registries share.

    `src/utils/mediosPago.js` and `src/utils/categorias.js` are the same
    program twice: a list of `{id, nombre, <attribute>}` records kept as one
    JSON array under a fixed storage key, seeded with defaults on first read,
    and changed by add, delete and edit, each of which re-reads the list
    (seeding it if nothing is stored) and, when it succeeds, writes the
    changed array back whole; a refused call writes nothing more. They differ in the defaults,
    in the attribute (an icon tag or a colour) and its default value, and in
    which ids delete and edit refuse to touch. This module states the shared
    logic once, over a `Config` that carries those differences.

    The storage key is modelled as a `Store`: `None` while nothing has been
    written, `Some(items)` once the array has. Every operation takes the store
    and returns its answer together with the store it leaves behind.
 */
module Registry {
  import opened Slugs

  datatype Option<T> = None | Some(value: T)

  /** One entry: `id` is the identifier (the slug of the name for an entry
      made by add; seeded entries carry ids chosen by hand, which need not be
      slugs of their names), `name` is the display name (`nombre`), `attr`
      the icon tag (payment methods) or the colour (categories). */
  datatype Record = Record(id: string, name: string, attr: string)

  /** The value under the registry's storage key. */
  type Store = Option<seq<Record>>

  /** What an operation reports: the record it created or edited, plain
      success (delete), or why it refused. */
  datatype Outcome = Ok(rec: Record) | Done | Duplicate | NotFound | Protected

  /** What distinguishes one registry from the other. */
  datatype Config = Config(defaults: seq<Record>, defaultAttr: string, protectedIds: seq<string>)

  predicate HasId(s: seq<Record>, id: string) {
    exists i :: 0 <= i < |s| && s[i].id == id
  }

  predicate UniqueIds(s: seq<Record>) {
    forall i, j :: 0 <= i < j < |s| ==> s[i].id != s[j].id
  }

  /** `r` is `s` with some entries left out and the rest in their order. */
  predicate IsSubsequence(r: seq<Record>, s: seq<Record>)
    decreases |s|
  {
    if r == [] then true
    else if s == [] then false
    else if r[0] == s[0] then IsSubsequence(r[1..], s[1..])
    else IsSubsequence(r, s[1..])
  }

  /** JavaScript truthiness of an optional string argument: an omitted
      (`undefined`) or empty new value is falsy. */
  predicate Provided(v: Option<string>) {
    v.Some? && v.value != ""
  }

  /** `v || prior`. */
  function Pick(v: Option<string>, prior: string): string {
    if Provided(v) then v.value else prior
  }

  // ---------------------------------------------------------------------------
  // Sequence helpers: `findIndex` and `filter`
  // ---------------------------------------------------------------------------

  /** `items.findIndex(r => r.id === id)`: the first position holding `id`, or
      -1 when there is none. */
  function IndexOf(s: seq<Record>, id: string): (k: int)
    ensures -1 <= k < |s|
    ensures k == -1 <==> !HasId(s, id)
    ensures 0 <= k ==> s[k].id == id && forall j :: 0 <= j < k ==> s[j].id != id
  {
    if s == [] then -1
    else if s[0].id == id then 0
    else
      var k := IndexOf(s[1..], id);
      if k == -1 then -1 else k + 1
  }

  /** `items.filter(r => r.id !== id)`: every entry with that id is gone, every
      other entry stays as often as it was there, and the order is kept. */
  function RemoveId(s: seq<Record>, id: string): (r: seq<Record>)
    ensures forall x :: multiset(r)[x] == if x.id == id then 0 else multiset(s)[x]
    ensures IsSubsequence(r, s)
    ensures !HasId(s, id) ==> r == s
  {
    if s == [] then []
    else
      var rest := RemoveId(s[1..], id);
      assert s == [s[0]] + s[1..];
      if s[0].id == id then
        assert rest != [] ==> multiset(rest)[rest[0]] > 0 && rest[0] != s[0];
        rest
      else
        assert ([s[0]] + rest)[1..] == rest;
        [s[0]] + rest
  }

  // ---------------------------------------------------------------------------
  // The four operations
  // ---------------------------------------------------------------------------

  /** Read the list: the stored array, or, when nothing is stored, the
      defaults, which are written back. An empty stored array is returned as
      it is and not reseeded. */
  function List(cfg: Config, st: Store): (r: (seq<Record>, Store))
    ensures r.1 == Some(r.0)
    ensures st.None? ==> r.0 == cfg.defaults
    ensures st.Some? ==> r.1 == st
  {
    match st
    case None => (cfg.defaults, Some(cfg.defaults))
    case Some(items) => (items, st)
  }

  /** The record `add` creates: the id is the slug of the name, and an
      omitted attribute takes the registry's default. */
  function NewRecord(cfg: Config, name: string, attr: Option<string>): (rec: Record)
    ensures rec.id == Slug(name) && AllSlugChars(rec.id)
    ensures rec.name == name
    ensures attr.Some? ==> rec.attr == attr.value
    ensures attr.None? ==> rec.attr == cfg.defaultAttr
  {
    Record(Slug(name), name, if attr.Some? then attr.value else cfg.defaultAttr)
  }

  /** Add a record named `name`. It is refused when the list already holds the
      id the name slugs to; the store is then as reading the list left it.
      Otherwise the new record goes at the end and nothing before it changes,
      so distinct ids stay distinct. */
  function Add(cfg: Config, st: Store, name: string, attr: Option<string>): (r: (Outcome, Store))
    ensures var items := List(cfg, st).0;
      && (r.0 == Duplicate <==> HasId(items, Slug(name)))
      && (r.0 == Duplicate ==> r.1 == List(cfg, st).1)
      && (r.0 != Duplicate ==>
            && r.0 == Ok(NewRecord(cfg, name, attr))
            && r.1.Some? && |r.1.value| == |items| + 1
            && r.1.value[..|items|] == items
            && r.1.value[|items|] == r.0.rec
            && (UniqueIds(items) ==> UniqueIds(r.1.value)))
  {
    var (items, seeded) := List(cfg, st);
    var rec := NewRecord(cfg, name, attr);
    if HasId(items, rec.id) then
      (Duplicate, seeded)
    else
      var items' := items + [rec];
      assert items'[..|items|] == items;
      (Ok(rec), Some(items'))
  }

  /** Delete every record with id `id`. A protected id is refused and the
      store is as reading the list left it; any other id succeeds, present or
      not, and leaves the other records in their order. */
  function Delete(cfg: Config, st: Store, id: string): (r: (Outcome, Store))
    ensures var items := List(cfg, st).0;
      && (r.0 == Protected <==> id in cfg.protectedIds)
      && (r.0 == Protected ==> r.1 == List(cfg, st).1)
      && (r.0 != Protected ==>
            && r.0 == Done
            && r.1.Some?
            && !HasId(r.1.value, id)
            && (forall x :: multiset(r.1.value)[x] == if x.id == id then 0 else multiset(items)[x])
            && IsSubsequence(r.1.value, items)
            && (UniqueIds(items) ==> UniqueIds(r.1.value)))
  {
    var (items, seeded) := List(cfg, st);
    if id in cfg.protectedIds then
      (Protected, seeded)
    else
      var rest := RemoveId(items, id);
      SubsequenceKeepsUniqueIds(rest, items);
      NoIdAfterRemove(items, id);
      (Done, Some(rest))
  }

  /** Edit the first record with id `id`: a new name or attribute replaces
      the old one unless it is omitted or empty. An absent id is reported
      before a protected one; both leave the store as reading the list left
      it. A successful edit keeps the id and the length, and changes no other
      position. */
  function Edit(cfg: Config, st: Store, id: string, newName: Option<string>, newAttr: Option<string>): (r: (Outcome, Store))
    ensures var items := List(cfg, st).0;
      && (r.0 == NotFound <==> !HasId(items, id))
      && (r.0 == Protected <==> HasId(items, id) && id in cfg.protectedIds)
      && (r.0 == NotFound || r.0 == Protected ==> r.1 == List(cfg, st).1)
      && (r.0 != NotFound && r.0 != Protected ==>
            var k := IndexOf(items, id);
            && r.0.Ok? && r.1.Some? && 0 <= k < |items|
            && r.0.rec == Record(id, Pick(newName, items[k].name), Pick(newAttr, items[k].attr))
            && |r.1.value| == |items|
            && r.1.value[k] == r.0.rec
            && (forall j :: 0 <= j < |items| && j != k ==> r.1.value[j] == items[j])
            && (UniqueIds(items) ==> UniqueIds(r.1.value)))
  {
    var (items, seeded) := List(cfg, st);
    var k := IndexOf(items, id);
    if k == -1 then
      (NotFound, seeded)
    else if id in cfg.protectedIds then
      (Protected, seeded)
    else
      var prior := items[k];
      var rec := prior.(name := Pick(newName, prior.name), attr := Pick(newAttr, prior.attr));
      var items' := items[k := rec];
      assert forall j :: 0 <= j < |items'| ==> items'[j].id == items[j].id;
      (Ok(rec), Some(items'))
  }

  // ---------------------------------------------------------------------------
  // Helpers for the contracts above
  // ---------------------------------------------------------------------------

  lemma {:induction false} SubsequenceKeepsUniqueIds(r: seq<Record>, s: seq<Record>)
    requires IsSubsequence(r, s)
    ensures forall x :: x in r ==> x in s
    ensures UniqueIds(s) ==> UniqueIds(r)
    decreases |s|
  {
    if r != [] && s != [] {
      if r[0] == s[0] {
        SubsequenceKeepsUniqueIds(r[1..], s[1..]);
        assert r == [r[0]] + r[1..];
        if UniqueIds(s) {
          assert UniqueIds(s[1..]);
          forall j | 0 < j < |r|
            ensures r[0].id != r[j].id
          {
            assert r[j] in r[1..];
            var m :| 0 <= m < |s[1..]| && s[1..][m] == r[j];
            assert s[m + 1] == r[j];
          }
        }
      } else {
        SubsequenceKeepsUniqueIds(r, s[1..]);
        assert UniqueIds(s) ==> UniqueIds(s[1..]);
      }
    }
  }

  /** Stated as an implication so that callers need not branch on `s != []`
      in a context where the branch may be impossible. */
  lemma HeadIsMember(s: seq<Record>)
    ensures s != [] ==> s[0] in s
  {
  }

  /** What survives a removal was there before and has another id. */
  lemma RemoveIdKeepsOthers(s: seq<Record>, id: string)
    ensures forall x :: x in RemoveId(s, id) ==> x in s && x.id != id
  {
    var r := RemoveId(s, id);
    forall x | x in r
      ensures x in s && x.id != id
    {
      assert multiset(r)[x] > 0;
    }
  }

  lemma NoIdAfterRemove(s: seq<Record>, id: string)
    ensures !HasId(RemoveId(s, id), id)
  {
    var r := RemoveId(s, id);
    forall i | 0 <= i < |r|
      ensures r[i].id != id
    {
      assert r[i] in multiset(r);
    }
  }

  /** Removing an id the list lacks from the list with one record of that id
      appended gives back the list. */
  lemma {:induction false} RemoveIdOfAppended(s: seq<Record>, rec: Record)
    requires !HasId(s, rec.id)
    ensures RemoveId(s + [rec], rec.id) == s
  {
    var t := s + [rec];
    if s == [] {
      assert t == [rec] && t[1..] == [];
      assert RemoveId(t, rec.id) == RemoveId(t[1..], rec.id);
    } else {
      var a, v := s[0], s[1..];
      NoIdInTail(s, rec.id);
      RemoveIdOfAppended(v, rec);
      ConsAppend(a, v, rec);
      assert s == [a] + v;
      RemoveIdCons(a, v + [rec], rec.id);
    }
  }

  lemma NoIdInTail(s: seq<Record>, id: string)
    requires s != [] && !HasId(s, id)
    ensures !HasId(s[1..], id)
  {
    forall i | 0 <= i < |s[1..]|
      ensures s[1..][i].id != id
    {
      assert s[1..][i] == s[i + 1];
    }
  }

  /** Associativity at one point, kept apart from `RemoveIdOfAppended`,
      where proving it inline is costly for the solver. */
  lemma ConsAppend(a: Record, v: seq<Record>, rec: Record)
    ensures ([a] + v) + [rec] == [a] + (v + [rec])
  {
  }

  /** Unfolding of `RemoveId` on a record that stays. */
  lemma RemoveIdCons(a: Record, u: seq<Record>, id: string)
    requires a.id != id
    ensures RemoveId([a] + u, id) == [a] + RemoveId(u, id)
  {
    var t := [a] + u;
    assert t[0] == a && t[1..] == u;
  }

  /** Deleting the record just added undoes the add, unless its id is
      protected. */
  lemma AddThenDeleteRestores(cfg: Config, st: Store, name: string, attr: Option<string>)
    requires Add(cfg, st, name, attr).0 != Duplicate
    requires Slug(name) !in cfg.protectedIds
    ensures Delete(cfg, Add(cfg, st, name, attr).1, Slug(name)) == (Done, List(cfg, st).1)
  {
    var items := List(cfg, st).0;
    var rec := NewRecord(cfg, name, attr);
    assert Add(cfg, st, name, attr).1 == Some(items + [rec]);
    RemoveIdOfAppended(items, rec);
  }

  /** Once the id a name slugs to has been deleted, adding that name is
      accepted. */
  lemma DeleteThenAddSucceeds(cfg: Config, st: Store, name: string, attr: Option<string>)
    requires Slug(name) !in cfg.protectedIds
    ensures Add(cfg, Delete(cfg, st, Slug(name)).1, name, attr).0 == Ok(NewRecord(cfg, name, attr))
  {
    var st' := Delete(cfg, st, Slug(name)).1;
    assert List(cfg, st').0 == st'.value;
  }

  /** An edit that provides neither a new name nor a new attribute changes
      nothing in the list, although it reports success. */
  lemma EmptyEditChangesNothing(cfg: Config, st: Store, id: string)
    requires HasId(List(cfg, st).0, id) && id !in cfg.protectedIds
    ensures var r := Edit(cfg, st, id, None, Some(""));
      r.0.Ok? && r.1 == List(cfg, st).1
  {
    var items := List(cfg, st).0;
    var k := IndexOf(items, id);
    assert items[k := items[k]] == items;
  }

  // ---------------------------------------------------------------------------
  // Sequences of operations
  // ---------------------------------------------------------------------------

  /** One call into a registry. */
  datatype Op =
    | ListOp
    | AddOp(name: string, attr: Option<string>)
    | DeleteOp(id: string)
    | EditOp(id: string, newName: Option<string>, newAttr: Option<string>)

  /** The store one call leaves behind. Every call first reads the list,
      which stores the defaults when nothing is stored, so a list is stored
      afterwards. */
  function Apply(cfg: Config, st: Store, op: Op): (st': Store)
    ensures st'.Some?
  {
    match op
    case ListOp => List(cfg, st).1
    case AddOp(name, attr) => Add(cfg, st, name, attr).1
    case DeleteOp(id) => Delete(cfg, st, id).1
    case EditOp(id, newName, newAttr) => Edit(cfg, st, id, newName, newAttr).1
  }

  /** The store a sequence of calls leaves behind, first call first. */
  function Run(cfg: Config, st: Store, ops: seq<Op>): Store
    decreases |ops|
  {
    if ops == [] then st else Run(cfg, Apply(cfg, st, ops[0]), ops[1..])
  }

  /** Reading the list twice in a row gives the same list and store. */
  lemma ListIdempotent(cfg: Config, st: Store)
    ensures List(cfg, List(cfg, st).1) == List(cfg, st)
  {
  }

  /** No call makes two records share an id. */
  lemma ApplyKeepsUniqueIds(cfg: Config, st: Store, op: Op)
    requires UniqueIds(List(cfg, st).0)
    ensures UniqueIds(List(cfg, Apply(cfg, st, op)).0)
  {
  }

  lemma {:induction false} RunKeepsUniqueIds(cfg: Config, st: Store, ops: seq<Op>)
    requires UniqueIds(List(cfg, st).0)
    ensures UniqueIds(List(cfg, Run(cfg, st, ops)).0)
    decreases |ops|
  {
    if ops != [] {
      ApplyKeepsUniqueIds(cfg, st, ops[0]);
      RunKeepsUniqueIds(cfg, Apply(cfg, st, ops[0]), ops[1..]);
    }
  }

  /** A record whose id is protected, once in the list, stays there exactly
      as it is after any call. */
  lemma ApplyKeepsProtected(cfg: Config, st: Store, op: Op, d: Record)
    requires d.id in cfg.protectedIds
    requires d in List(cfg, st).0
    ensures d in List(cfg, Apply(cfg, st, op)).0
  {
    var items := List(cfg, st).0;
    match op
    case ListOp =>
    case AddOp(name, attr) =>
      var r := Add(cfg, st, name, attr);
      if r.0 != Duplicate {
        var i :| 0 <= i < |items| && items[i] == d;
        assert r.1.value[i] == d;
      }
    case DeleteOp(id) =>
      var r := Delete(cfg, st, id);
      if r.0 != Protected {
        assert d.id != id;
        assert multiset(items)[d] > 0;
        assert multiset(r.1.value)[d] > 0;
      }
    case EditOp(id, newName, newAttr) =>
      var r := Edit(cfg, st, id, newName, newAttr);
      if r.0 != NotFound && r.0 != Protected {
        var k := IndexOf(items, id);
        var i :| 0 <= i < |items| && items[i] == d;
        assert i != k;
        assert r.1.value[i] == d;
      }
  }

  lemma {:induction false} RunKeepsProtected(cfg: Config, st: Store, ops: seq<Op>, d: Record)
    requires d.id in cfg.protectedIds
    requires d in List(cfg, st).0
    ensures d in List(cfg, Run(cfg, st, ops)).0
    decreases |ops|
  {
    if ops != [] {
      ApplyKeepsProtected(cfg, st, ops[0], d);
      RunKeepsProtected(cfg, Apply(cfg, st, ops[0]), ops[1..], d);
    }
  }

  /** One delete call per id, in order. */
  function DeleteAll(ids: seq<string>): (ops: seq<Op>)
    ensures |ops| == |ids|
    ensures forall i :: 0 <= i < |ids| ==> ops[i] == DeleteOp(ids[i])
  {
    seq(|ids|, i requires 0 <= i < |ids| => DeleteOp(ids[i]))
  }

  /** Deleting, one after the other, unprotected ids that cover every record
      in the list leaves an empty stored list, which later reads return as
      it is. */
  lemma {:induction false} DeletingEveryIdEmpties(cfg: Config, st: Store, ids: seq<string>)
    requires st.Some? || ids != []
    requires forall i :: 0 <= i < |ids| ==> ids[i] !in cfg.protectedIds
    requires forall x :: x in List(cfg, st).0 ==> x.id in ids
    ensures Run(cfg, st, DeleteAll(ids)) == Some([])
    decreases |ids|
  {
    var items := List(cfg, st).0;
    if ids == [] {
      HeadIsMember(items);
    } else {
      var ops := DeleteAll(ids);
      var rest := RemoveId(items, ids[0]);
      assert Apply(cfg, st, ops[0]) == Some(rest);
      assert ops[1..] == DeleteAll(ids[1..]);
      RemoveIdKeepsOthers(items, ids[0]);
      assert ids == [ids[0]] + ids[1..];
      DeletingEveryIdEmpties(cfg, Some(rest), ids[1..]);
    }
  }
}
