/** The database queries the template handlers issue, as functions over the two tables.
    Each table is a sequence of rows in storage order. */
module Queries {
  import opened Records

  /** `query(Template).filter(id == tid, user_id == owner).first()`: the position of the
      first template row with this id AND this owner. */
  function FindOwned(ts: seq<Template>, tid: Id, owner: UserId): (r: Option<nat>)
    ensures r.Some? ==> r.value < |ts| && ts[r.value].id == tid && ts[r.value].owner == owner
    ensures r.None? <==> forall i :: 0 <= i < |ts| ==> ts[i].id != tid || ts[i].owner != owner
  {
    if |ts| == 0 then None
    else if ts[0].id == tid && ts[0].owner == owner then Some(0)
    else
      match FindOwned(ts[1..], tid, owner)
      case None => None
      case Some(k) => Some(k + 1)
  }

  /** `query(Template).filter(user_id == owner).all()`: the owner's rows, in table order. */
  function OwnedTemplates(ts: seq<Template>, owner: UserId): (r: seq<Template>)
    ensures forall t :: t in r <==> t in ts && t.owner == owner
  {
    if |ts| == 0 then []
    else if ts[0].owner == owner then [ts[0]] + OwnedTemplates(ts[1..], owner)
    else OwnedTemplates(ts[1..], owner)
  }

  /** `query(TemplateVersion).filter(template_id == tid).all()`: the history of one template. */
  function VersionsOf<D>(vs: seq<Version<D>>, tid: Id): (r: seq<Version<D>>)
    ensures |r| <= |vs|
    ensures forall i :: 0 <= i < |r| ==> r[i] in vs && r[i].templateId == tid
    ensures forall i :: 0 <= i < |vs| && vs[i].templateId == tid ==> vs[i] in r
  {
    if |vs| == 0 then []
    else if vs[0].templateId == tid then [vs[0]] + VersionsOf(vs[1..], tid)
    else VersionsOf(vs[1..], tid)
  }

  /** The version rows that do not belong to `tid`, in table order: what a cascade delete
      of `tid` must leave behind. */
  function OthersOf<D>(vs: seq<Version<D>>, tid: Id): (r: seq<Version<D>>)
    ensures forall i :: 0 <= i < |r| ==> r[i] in vs && r[i].templateId != tid
    ensures forall i :: 0 <= i < |vs| && vs[i].templateId != tid ==> vs[i] in r
  {
    if |vs| == 0 then []
    else if vs[0].templateId != tid then [vs[0]] + OthersOf(vs[1..], tid)
    else OthersOf(vs[1..], tid)
  }

  /** The table after `db.delete` of every row whose id is in `ids`. */
  function Drop<D>(vs: seq<Version<D>>, ids: set<Id>): (r: seq<Version<D>>)
    ensures forall i :: 0 <= i < |r| ==> r[i] in vs && r[i].id !in ids
    ensures forall i :: 0 <= i < |vs| && vs[i].id !in ids ==> vs[i] in r
  {
    if |vs| == 0 then []
    else if vs[0].id in ids then Drop(vs[1..], ids)
    else [vs[0]] + Drop(vs[1..], ids)
  }

  function IdsOf<D>(vs: seq<Version<D>>): set<Id>
  {
    set i | 0 <= i < |vs| :: vs[i].id
  }

  /** `filter(template_id == tid).order_by(version.desc()).first()`: a version of `tid` with
      the highest number, or None when `tid` has no version. */
  function Latest<D>(vs: seq<Version<D>>, tid: Id): (r: Option<Version<D>>)
    ensures r.None? <==> forall i :: 0 <= i < |vs| ==> vs[i].templateId != tid
    ensures r.Some? ==> r.value in vs && r.value.templateId == tid
    ensures r.Some? ==>
      forall i :: 0 <= i < |vs| && vs[i].templateId == tid ==> vs[i].number <= r.value.number
  {
    if |vs| == 0 then None
    else
      var rest := Latest(vs[1..], tid);
      if vs[0].templateId == tid && (rest.None? || vs[0].number > rest.value.number)
      then Some(vs[0])
      else rest
  }

  /** The number `add_version` gives a new version of `tid`: the highest existing number
      plus one, or 1 when `tid` has no version. */
  function NextNumber<D>(vs: seq<Version<D>>, tid: Id): (n: int)
    ensures forall i :: 0 <= i < |vs| && vs[i].templateId == tid ==> vs[i].number < n
    ensures (forall i :: 0 <= i < |vs| ==> vs[i].templateId != tid) ==> n == 1
    ensures (exists i :: 0 <= i < |vs| && vs[i].templateId == tid) ==>
      exists i :: 0 <= i < |vs| && vs[i].templateId == tid && vs[i].number == n - 1
  {
    match Latest(vs, tid)
    case None => 1
    case Some(v) => v.number + 1
  }

  /** `filter(template_id == tid, id == vid).first()`: the version lookup scoped to a template. */
  function FindVersion<D>(vs: seq<Version<D>>, tid: Id, vid: Id): (r: Option<Version<D>>)
    ensures r.Some? ==> r.value in vs && r.value.templateId == tid && r.value.id == vid
    ensures r.None? <==> forall i :: 0 <= i < |vs| ==> vs[i].templateId != tid || vs[i].id != vid
  {
    if |vs| == 0 then None
    else if vs[0].templateId == tid && vs[0].id == vid then Some(vs[0])
    else FindVersion(vs[1..], tid, vid)
  }

  /** An appended row never changes what the scoped lookup finds for an existing version. */
  lemma {:induction false} FindVersionAppend<D>(vs: seq<Version<D>>, v: Version<D>, tid: Id, vid: Id)
    requires FindVersion(vs, tid, vid).Some?
    ensures FindVersion(vs + [v], tid, vid) == FindVersion(vs, tid, vid)
  {
    if !(vs[0].templateId == tid && vs[0].id == vid) {
      assert (vs + [v])[1..] == vs[1..] + [v];
      FindVersionAppend(vs[1..], v, tid, vid);
    }
  }

  /** Version numbers never decrease along the sequence. */
  predicate Ascending<D>(vs: seq<Version<D>>)
  {
    forall i, j :: 0 <= i < j < |vs| ==> vs[i].number <= vs[j].number
  }

  function Insert<D>(v: Version<D>, vs: seq<Version<D>>): (r: seq<Version<D>>)
    requires Ascending(vs)
    ensures Ascending(r)
    ensures multiset(r) == multiset(vs) + multiset{v}
    ensures |r| == |vs| + 1 && (r[0] == v || (|vs| > 0 && r[0] == vs[0]))
  {
    if |vs| == 0 || v.number <= vs[0].number then [v] + vs
    else
      var tail := Insert(v, vs[1..]);
      assert vs == [vs[0]] + vs[1..];
      [vs[0]] + tail
  }

  /** `order_by(version)`: the rows sorted ascending by version number. */
  function OrderByNumber<D>(vs: seq<Version<D>>): (r: seq<Version<D>>)
    ensures |r| == |vs|
    ensures Ascending(r)
    ensures multiset(r) == multiset(vs)
  {
    if |vs| == 0 then []
    else
      assert vs == [vs[0]] + vs[1..];
      Insert(vs[0], OrderByNumber(vs[1..]))
  }

  /** A row appended to the version table extends exactly its own template's history. */
  lemma {:induction false} VersionsOfAppend<D>(vs: seq<Version<D>>, v: Version<D>, tid: Id)
    ensures VersionsOf(vs + [v], tid) == VersionsOf(vs, tid) + (if v.templateId == tid then [v] else [])
  {
    if |vs| > 0 {
      assert (vs + [v])[1..] == vs[1..] + [v];
      VersionsOfAppend(vs[1..], v, tid);
    }
  }

  lemma VersionsOfAbsent<D>(vs: seq<Version<D>>, tid: Id)
    requires forall i :: 0 <= i < |vs| ==> vs[i].templateId != tid
    ensures VersionsOf(vs, tid) == []
  {
  }

  /** Removing the rows of `tid` leaves every other template's history as it was. */
  lemma {:induction false} OthersOfKeepsHistories<D>(vs: seq<Version<D>>, tid: Id, other: Id)
    requires other != tid
    ensures VersionsOf(OthersOf(vs, tid), other) == VersionsOf(vs, other)
  {
    if |vs| > 0 {
      OthersOfKeepsHistories(vs[1..], tid, other);
    }
  }

  lemma {:induction false} DropNothing<D>(vs: seq<Version<D>>)
    ensures Drop(vs, {}) == vs
  {
    if |vs| > 0 {
      DropNothing(vs[1..]);
      assert vs == [vs[0]] + vs[1..];
    }
  }

  lemma {:induction false} DropTwice<D>(vs: seq<Version<D>>, a: set<Id>, b: set<Id>)
    ensures Drop(Drop(vs, a), b) == Drop(vs, a + b)
  {
    if |vs| > 0 {
      DropTwice(vs[1..], a, b);
    }
  }

  lemma DropNone<D>(vs: seq<Version<D>>, doomed: seq<Version<D>>)
    ensures Drop(vs, IdsOf(doomed[..0])) == vs
  {
    assert IdsOf(doomed[..0]) == {};
    DropNothing(vs);
  }

  /** Deleting the rows of doomed[0..i) and then the row of doomed[i] is deleting the rows
      of doomed[0..i]. */
  lemma DropStep<D>(vs: seq<Version<D>>, doomed: seq<Version<D>>, i: nat)
    requires i < |doomed|
    ensures Drop(Drop(vs, IdsOf(doomed[..i])), {doomed[i].id}) == Drop(vs, IdsOf(doomed[..i + 1]))
  {
    DropTwice(vs, IdsOf(doomed[..i]), {doomed[i].id});
    assert IdsOf(doomed[..i + 1]) == IdsOf(doomed[..i]) + {doomed[i].id} by {
      assert forall m :: 0 <= m < i ==> doomed[..i + 1][m] == doomed[..i][m];
      assert doomed[..i + 1][i] == doomed[i];
    }
  }

  /** Deleting rows by id removes exactly the rows of `tid` when the doomed ids are those of
      `tid`'s rows. */
  lemma {:induction false} DropMatching<D>(vs: seq<Version<D>>, ids: set<Id>, tid: Id)
    requires forall i :: 0 <= i < |vs| ==> (vs[i].id in ids <==> vs[i].templateId == tid)
    ensures Drop(vs, ids) == OthersOf(vs, tid)
  {
    if |vs| > 0 {
      DropMatching(vs[1..], ids, tid);
    }
  }

  /** Sorting rows that are already in ascending order leaves them as they are. */
  lemma {:induction false} OrderByNumberOfAscending<D>(vs: seq<Version<D>>)
    requires Ascending(vs)
    ensures OrderByNumber(vs) == vs
  {
    if |vs| > 0 {
      OrderByNumberOfAscending(vs[1..]);
      assert vs == [vs[0]] + vs[1..];
    }
  }
}
