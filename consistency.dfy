/** The invariant the template store keeps, and the proofs that each state-changing operation
    preserves it: ids are unique, every version row belongs to an existing template, and each
    template's history is numbered 1, 2, ..., k (k >= 1) in table order. */
module Consistency {
  import opened Records
  import opened Queries

  predicate UniqueTemplateIds(ts: seq<Template>)
  {
    forall i, j :: 0 <= i < j < |ts| ==> ts[i].id != ts[j].id
  }

  predicate UniqueVersionIds<D>(vs: seq<Version<D>>)
  {
    forall i, j :: 0 <= i < j < |vs| ==> vs[i].id != vs[j].id
  }

  /** Every version row refers to a template row. */
  predicate NoOrphans<D>(ts: seq<Template>, vs: seq<Version<D>>)
  {
    forall i :: 0 <= i < |vs| ==> exists j :: 0 <= j < |ts| && ts[j].id == vs[i].templateId
  }

  /** A history that is non-empty and whose i-th row has number i + 1. */
  predicate NumberedFromOne<D>(h: seq<Version<D>>)
  {
    |h| >= 1 && forall i :: 0 <= i < |h| ==> h[i].number == i + 1
  }

  predicate Contiguous<D>(ts: seq<Template>, vs: seq<Version<D>>)
  {
    forall j :: 0 <= j < |ts| ==> NumberedFromOne(VersionsOf(vs, ts[j].id))
  }

  /** Every id in use is below the next id the store hands out. */
  predicate IdsBelow<D>(ts: seq<Template>, vs: seq<Version<D>>, next: nat)
  {
    && (forall j :: 0 <= j < |ts| ==> ts[j].id < next)
    && (forall i :: 0 <= i < |vs| ==> vs[i].id < next)
  }

  predicate Consistent<D>(ts: seq<Template>, vs: seq<Version<D>>, next: nat)
  {
    && UniqueTemplateIds(ts)
    && UniqueVersionIds(vs)
    && NoOrphans(ts, vs)
    && Contiguous(ts, vs)
    && IdsBelow(ts, vs, next)
  }

  /** For a history numbered 1..m the next number is m + 1. */
  lemma NextNumberOfNumbered<D>(vs: seq<Version<D>>, tid: Id)
    requires NumberedFromOne(VersionsOf(vs, tid))
    ensures NextNumber(vs, tid) == |VersionsOf(vs, tid)| + 1
  {
    var h := VersionsOf(vs, tid);
    var n := NextNumber(vs, tid);
    var m := |h|;
    assert h[m - 1] in vs;
    assert m < n;
    var i1 :| 0 <= i1 < |vs| && vs[i1].templateId == tid && vs[i1].number == n - 1;
    assert vs[i1] in h;
  }

  /** Under the invariant the next number for a template is its history length plus one. */
  lemma NextNumberIsCount<D>(ts: seq<Template>, vs: seq<Version<D>>, next: nat, k: nat)
    requires Consistent(ts, vs, next) && k < |ts|
    ensures NextNumber(vs, ts[k].id) == |VersionsOf(vs, ts[k].id)| + 1
  {
    assert Contiguous(ts, vs);
    NextNumberOfNumbered(vs, ts[k].id);
  }

  /** Under the invariant every template has a newest version, numbered by its history length. */
  lemma LatestIsNewest<D>(ts: seq<Template>, vs: seq<Version<D>>, next: nat, k: nat)
    requires Consistent(ts, vs, next) && k < |ts|
    ensures Latest(vs, ts[k].id).Some?
    ensures Latest(vs, ts[k].id).value.number == |VersionsOf(vs, ts[k].id)|
  {
    NextNumberIsCount(ts, vs, next, k);
    var h := VersionsOf(vs, ts[k].id);
    assert NumberedFromOne(h);
    assert h[0] in vs;
  }

  /** The numbers in use by the rows of `tid`. */
  function NumbersOf<D>(vs: seq<Version<D>>, tid: Id): set<int>
  {
    set i | 0 <= i < |vs| && vs[i].templateId == tid :: vs[i].number
  }

  /** The set {1, ..., m}. */
  function OneTo(m: int): (r: set<int>)
    ensures forall n :: n in r <==> 1 <= n <= m
    decreases m
  {
    if m <= 0 then {} else OneTo(m - 1) + {m}
  }

  lemma HistoryNumbersExact<D>(vs: seq<Version<D>>, tid: Id)
    requires UniqueVersionIds(vs) && NumberedFromOne(VersionsOf(vs, tid))
    ensures NumbersOf(vs, tid) == OneTo(|VersionsOf(vs, tid)|)
    ensures forall i, j :: 0 <= i < j < |vs| && vs[i].templateId == tid && vs[j].templateId == tid
              ==> vs[i].number != vs[j].number
  {
    var h := VersionsOf(vs, tid);
    forall n | n in NumbersOf(vs, tid) ensures n in OneTo(|h|) {
      var i :| 0 <= i < |vs| && vs[i].templateId == tid && vs[i].number == n;
      assert vs[i] in h;
    }
    forall n | n in OneTo(|h|) ensures n in NumbersOf(vs, tid) {
      assert h[n - 1] in vs;
      var i :| 0 <= i < |vs| && vs[i] == h[n - 1];
      assert vs[i].number == n;
    }
    forall i, j | 0 <= i < j < |vs| && vs[i].templateId == tid && vs[j].templateId == tid
      ensures vs[i].number != vs[j].number
    {
      assert vs[i] in h && vs[j] in h;
      var a :| 0 <= a < |h| && h[a] == vs[i];
      var b :| 0 <= b < |h| && h[b] == vs[j];
      assert vs[i].id != vs[j].id;
      assert a != b;
    }
  }

  /** The version numbers of each template are exactly {1, ..., k} for some k >= 1, and no
      two rows of that template share a number. */
  lemma VersionNumbersExact<D>(ts: seq<Template>, vs: seq<Version<D>>, next: nat, k: nat)
    requires Consistent(ts, vs, next) && k < |ts|
    ensures |VersionsOf(vs, ts[k].id)| >= 1
    ensures NumbersOf(vs, ts[k].id) == OneTo(|VersionsOf(vs, ts[k].id)|)
    ensures forall i, j :: 0 <= i < j < |vs| && vs[i].templateId == ts[k].id && vs[j].templateId == ts[k].id
              ==> vs[i].number != vs[j].number
  {
    assert Contiguous(ts, vs);
    HistoryNumbersExact(vs, ts[k].id);
  }

  /** What list_versions shows: the history sorted by number is the history itself,
      numbered 1, 2, ..., k, strictly ascending. */
  lemma ListedVersionsNumbered<D>(ts: seq<Template>, vs: seq<Version<D>>, next: nat, k: nat)
    requires Consistent(ts, vs, next) && k < |ts|
    ensures OrderByNumber(VersionsOf(vs, ts[k].id)) == VersionsOf(vs, ts[k].id)
    ensures forall i :: 0 <= i < |OrderByNumber(VersionsOf(vs, ts[k].id))| ==>
              OrderByNumber(VersionsOf(vs, ts[k].id))[i].number == i + 1
  {
    var h := VersionsOf(vs, ts[k].id);
    assert NumberedFromOne(h);
    OrderByNumberOfAscending(h);
  }

  lemma AppendFreshTemplate(ts: seq<Template>, t: Template, next: nat)
    requires UniqueTemplateIds(ts) && (forall j :: 0 <= j < |ts| ==> ts[j].id < next) && next <= t.id
    ensures UniqueTemplateIds(ts + [t])
    ensures forall j :: 0 <= j < |ts + [t]| ==> (ts + [t])[j].id <= t.id
  {
  }

  lemma AppendFreshVersion<D>(vs: seq<Version<D>>, v: Version<D>, next: nat)
    requires UniqueVersionIds(vs) && (forall i :: 0 <= i < |vs| ==> vs[i].id < next) && next <= v.id
    ensures UniqueVersionIds(vs + [v])
    ensures forall i :: 0 <= i < |vs + [v]| ==> (vs + [v])[i].id <= v.id
  {
  }

  /** A new template row orphans nothing. */
  lemma WidenNoOrphans<D>(ts: seq<Template>, t: Template, vs: seq<Version<D>>)
    requires NoOrphans(ts, vs)
    ensures NoOrphans(ts + [t], vs)
  {
    forall i | 0 <= i < |vs| ensures exists j :: 0 <= j < |ts + [t]| && (ts + [t])[j].id == vs[i].templateId {
      var j :| 0 <= j < |ts| && ts[j].id == vs[i].templateId;
      assert (ts + [t])[j] == ts[j];
    }
    assert forall i :: 0 <= i < |vs| ==>
      exists j :: 0 <= j < |ts + [t]| && (ts + [t])[j].id == vs[i].templateId;
  }

  /** A new template whose id no row uses, with its version 1, keeps every history numbered. */
  lemma CreateKeepsContiguous<D>(ts: seq<Template>, vs: seq<Version<D>>, t: Template, v: Version<D>)
    requires Contiguous(ts, vs)
    requires forall j :: 0 <= j < |ts| ==> ts[j].id != t.id
    requires forall i :: 0 <= i < |vs| ==> vs[i].templateId != t.id
    requires v.templateId == t.id && v.number == 1
    ensures Contiguous(ts + [t], vs + [v])
  {
    VersionsOfAbsent(vs, t.id);
    forall j | 0 <= j < |ts + [t]| ensures NumberedFromOne(VersionsOf(vs + [v], (ts + [t])[j].id)) {
      VersionsOfAppend(vs, v, (ts + [t])[j].id);
      if j < |ts| {
        assert (ts + [t])[j] == ts[j];
        assert NumberedFromOne(VersionsOf(vs, ts[j].id));
      }
    }
  }

  /** create_template: a fresh template row plus its version 1 keeps the invariant. */
  lemma CreateKeepsConsistent<D>(ts: seq<Template>, vs: seq<Version<D>>, next: nat,
                                 owner: UserId, name: string, subTypes: seq<string>, data: D)
    requires Consistent(ts, vs, next)
    ensures Consistent(ts + [Template(next, owner, name, Some(subTypes))],
                       vs + [Version(next + 1, next, 1, data)], next + 2)
  {
    var t := Template(next, owner, name, Some(subTypes));
    var v := Version(next + 1, next, 1, data);
    forall i | 0 <= i < |vs| ensures vs[i].templateId != next {
      var j :| 0 <= j < |ts| && ts[j].id == vs[i].templateId;
    }
    AppendFreshTemplate(ts, t, next);
    AppendFreshVersion(vs, v, next);
    CreateKeepsContiguous(ts, vs, t, v);
    WidenNoOrphans(ts, t, vs);
    AppendKeepsNoOrphans(ts + [t], vs, v, |ts|);
  }

  /** Appending a row numbered one past its template's history keeps every history numbered. */
  lemma AppendKeepsContiguous<D>(ts: seq<Template>, vs: seq<Version<D>>, v: Version<D>)
    requires Contiguous(ts, vs)
    requires v.number == |VersionsOf(vs, v.templateId)| + 1
    ensures Contiguous(ts, vs + [v])
  {
    forall j | 0 <= j < |ts| ensures NumberedFromOne(VersionsOf(vs + [v], ts[j].id)) {
      VersionsOfAppend(vs, v, ts[j].id);
      assert NumberedFromOne(VersionsOf(vs, ts[j].id));
    }
  }

  lemma AppendKeepsNoOrphans<D>(ts: seq<Template>, vs: seq<Version<D>>, v: Version<D>, k: nat)
    requires NoOrphans(ts, vs) && k < |ts| && ts[k].id == v.templateId
    ensures NoOrphans(ts, vs + [v])
  {
    forall i | 0 <= i < |vs + [v]|
      ensures exists j :: 0 <= j < |ts| && ts[j].id == (vs + [v])[i].templateId
    {
      if i == |vs| {
        assert ts[k].id == (vs + [v])[i].templateId;
      } else {
        assert (vs + [v])[i] == vs[i];
      }
    }
  }

  /** add_version: appending a row numbered NextNumber to a template's history keeps the
      invariant, and the new number is one past the history's length. */
  lemma AppendKeepsConsistent<D>(ts: seq<Template>, vs: seq<Version<D>>, next: nat, k: nat, data: D)
    requires Consistent(ts, vs, next) && k < |ts|
    ensures NextNumber(vs, ts[k].id) == |VersionsOf(vs, ts[k].id)| + 1
    ensures Consistent(ts, vs + [Version(next, ts[k].id, NextNumber(vs, ts[k].id), data)], next + 1)
  {
    var tid := ts[k].id;
    NextNumberIsCount(ts, vs, next, k);
    var v := Version(next, tid, NextNumber(vs, tid), data);
    AppendFreshVersion(vs, v, next);
    AppendKeepsContiguous(ts, vs, v);
    AppendKeepsNoOrphans(ts, vs, v, k);
  }

  lemma {:induction false} OthersOfUnique<D>(vs: seq<Version<D>>, tid: Id)
    requires UniqueVersionIds(vs)
    ensures UniqueVersionIds(OthersOf(vs, tid))
  {
    if |vs| > 0 {
      OthersOfUnique(vs[1..], tid);
      var rest := OthersOf(vs[1..], tid);
      forall x | x in rest ensures x.id != vs[0].id {
        var m :| 0 <= m < |vs[1..]| && vs[1..][m] == x;
        assert vs[m + 1] == x;
      }
    }
  }

  /** The positions of the template table once row k is gone. */
  lemma RemoveAt(ts: seq<Template>, k: nat)
    requires k < |ts|
    ensures |ts[..k] + ts[k + 1..]| == |ts| - 1
    ensures forall i :: 0 <= i < |ts| - 1 ==>
              (ts[..k] + ts[k + 1..])[i] == if i < k then ts[i] else ts[i + 1]
  {
  }

  lemma DeleteKeepsContiguous<D>(ts: seq<Template>, vs: seq<Version<D>>, k: nat)
    requires UniqueTemplateIds(ts) && Contiguous(ts, vs) && k < |ts|
    ensures Contiguous(ts[..k] + ts[k + 1..], OthersOf(vs, ts[k].id))
  {
    var ts' := ts[..k] + ts[k + 1..];
    RemoveAt(ts, k);
    forall j | 0 <= j < |ts'| ensures NumberedFromOne(VersionsOf(OthersOf(vs, ts[k].id), ts'[j].id)) {
      var j0 := if j < k then j else j + 1;
      assert ts'[j] == ts[j0] && j0 != k;
      OthersOfKeepsHistories(vs, ts[k].id, ts[j0].id);
      assert NumberedFromOne(VersionsOf(vs, ts[j0].id));
    }
  }

  lemma DeleteKeepsNoOrphans<D>(ts: seq<Template>, vs: seq<Version<D>>, k: nat)
    requires UniqueTemplateIds(ts) && NoOrphans(ts, vs) && k < |ts|
    ensures NoOrphans(ts[..k] + ts[k + 1..], OthersOf(vs, ts[k].id))
  {
    var ts' := ts[..k] + ts[k + 1..];
    var vs' := OthersOf(vs, ts[k].id);
    RemoveAt(ts, k);
    forall i | 0 <= i < |vs'| ensures exists j :: 0 <= j < |ts'| && ts'[j].id == vs'[i].templateId {
      assert vs'[i] in vs;
      var m :| 0 <= m < |vs| && vs[m] == vs'[i];
      var j0 :| 0 <= j0 < |ts| && ts[j0].id == vs[m].templateId;
      assert j0 != k;
      var j := if j0 < k then j0 else j0 - 1;
      assert ts'[j] == ts[j0];
    }
    assert forall i :: 0 <= i < |vs'| ==> exists j :: 0 <= j < |ts'| && ts'[j].id == vs'[i].templateId;
  }

  /** delete_template: removing template k and every version row of its id keeps the
      invariant; no row of the deleted id remains and every other history is intact. */
  lemma DeleteKeepsConsistent<D>(ts: seq<Template>, vs: seq<Version<D>>, next: nat, k: nat)
    requires Consistent(ts, vs, next) && k < |ts|
    ensures Consistent(ts[..k] + ts[k + 1..], OthersOf(vs, ts[k].id), next)
    ensures forall i :: 0 <= i < |OthersOf(vs, ts[k].id)| ==> OthersOf(vs, ts[k].id)[i].templateId != ts[k].id
    ensures forall j :: 0 <= j < |ts| && j != k ==>
              VersionsOf(OthersOf(vs, ts[k].id), ts[j].id) == VersionsOf(vs, ts[j].id)
  {
    var tid := ts[k].id;
    var vs' := OthersOf(vs, tid);
    RemoveAt(ts, k);
    OthersOfUnique(vs, tid);
    DeleteKeepsContiguous(ts, vs, k);
    DeleteKeepsNoOrphans(ts, vs, k);
    forall j | 0 <= j < |ts| && j != k
      ensures VersionsOf(vs', ts[j].id) == VersionsOf(vs, ts[j].id)
    {
      OthersOfKeepsHistories(vs, tid, ts[j].id);
    }
    forall i | 0 <= i < |vs'| ensures vs'[i].id < next {
      assert vs'[i] in vs;
    }
  }

  /** With unique version ids, the ids of `tid`'s history pick out exactly the rows of `tid`. */
  lemma CascadeIds<D>(vs: seq<Version<D>>, tid: Id)
    requires UniqueVersionIds(vs)
    ensures forall m :: 0 <= m < |vs| ==> (vs[m].id in IdsOf(VersionsOf(vs, tid)) <==> vs[m].templateId == tid)
  {
    var h := VersionsOf(vs, tid);
    forall m | 0 <= m < |vs| ensures vs[m].id in IdsOf(h) <==> vs[m].templateId == tid {
      if vs[m].templateId == tid {
        assert vs[m] in h;
        var a :| 0 <= a < |h| && h[a] == vs[m];
      }
      if vs[m].id in IdsOf(h) {
        var a :| 0 <= a < |h| && h[a].id == vs[m].id;
        assert h[a] in vs;
        var m' :| 0 <= m' < |vs| && vs[m'] == h[a];
        assert m' == m;
      }
    }
  }

  /** The cascade in delete_template: deleting, one id at a time, the rows the query for
      `tid` returned leaves exactly the rows of other templates. */
  lemma CascadeDrop<D>(vs: seq<Version<D>>, tid: Id)
    requires UniqueVersionIds(vs)
    ensures Drop(vs, IdsOf(VersionsOf(vs, tid))) == OthersOf(vs, tid)
  {
    CascadeIds(vs, tid);
    DropMatching(vs, IdsOf(VersionsOf(vs, tid)), tid);
  }

  /** Every template an owner can look up has a newest version. */
  lemma OwnedTemplateHasLatest<D>(ts: seq<Template>, vs: seq<Version<D>>, next: nat, tid: Id, owner: UserId)
    requires Consistent(ts, vs, next) && FindOwned(ts, tid, owner).Some?
    ensures Latest(vs, tid).Some?
  {
    LatestIsNewest(ts, vs, next, FindOwned(ts, tid, owner).value);
  }

  /** After template k is deleted, no owner's lookup of its id succeeds. */
  lemma DeletedIsNotFound(ts: seq<Template>, k: nat, owner: UserId)
    requires UniqueTemplateIds(ts) && k < |ts|
    ensures FindOwned(ts[..k] + ts[k + 1..], ts[k].id, owner).None?
  {
    RemoveAt(ts, k);
    var ts' := ts[..k] + ts[k + 1..];
    forall i | 0 <= i < |ts'| ensures ts'[i].id != ts[k].id {
      if i < k {
        assert ts'[i] == ts[i];
      } else {
        assert ts'[i] == ts[i + 1];
      }
    }
  }

  /** Rows that keep their ids keep the part of the invariant that is about ids. */
  lemma SameIdsNoOrphans<D>(ts: seq<Template>, ts': seq<Template>, vs: seq<Version<D>>)
    requires NoOrphans(ts, vs)
    requires |ts'| == |ts| && forall j :: 0 <= j < |ts| ==> ts'[j].id == ts[j].id
    ensures NoOrphans(ts', vs)
  {
    forall i | 0 <= i < |vs| ensures exists j :: 0 <= j < |ts'| && ts'[j].id == vs[i].templateId {
      var j :| 0 <= j < |ts| && ts[j].id == vs[i].templateId;
      assert ts'[j].id == vs[i].templateId;
    }
    assert forall i :: 0 <= i < |vs| ==> exists j :: 0 <= j < |ts'| && ts'[j].id == vs[i].templateId;
  }

  lemma SameIdsContiguous<D>(ts: seq<Template>, ts': seq<Template>, vs: seq<Version<D>>)
    requires Contiguous(ts, vs)
    requires |ts'| == |ts| && forall j :: 0 <= j < |ts| ==> ts'[j].id == ts[j].id
    ensures Contiguous(ts', vs)
  {
    forall j | 0 <= j < |ts'| ensures NumberedFromOne(VersionsOf(vs, ts'[j].id)) {
      assert NumberedFromOne(VersionsOf(vs, ts[j].id));
    }
  }

  /** update_metadata: rewriting a template's name and tags keeps the invariant. */
  lemma RenameKeepsConsistent<D>(ts: seq<Template>, vs: seq<Version<D>>, next: nat, k: nat,
                                 name: string, subTypes: Option<seq<string>>)
    requires Consistent(ts, vs, next) && k < |ts|
    ensures Consistent(ts[k := ts[k].(name := name, subTypes := subTypes)], vs, next)
  {
    var ts' := ts[k := ts[k].(name := name, subTypes := subTypes)];
    assert forall j :: 0 <= j < |ts| ==> ts'[j].id == ts[j].id;
    SameIdsNoOrphans(ts, ts', vs);
    SameIdsContiguous(ts, ts', vs);
  }
}
